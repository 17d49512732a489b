/** The Sha3 class of src/digests/sha3.ts: a Keccak sponge whose rate is staged in a block
    of 32-bit words and whose 1600-bit state is held as 50 words.

    A hasher is an immutable value here; every public method of the class becomes a
    function from the old value to the new one (and, for digest, the output bytes). */
module Sha3 {
  import opened Words
  import opened KeccakSpec
  import opened KeccakWords
  import Arith

  datatype Option<T> = None | Some(value: T)

  /** KECCAK_PADDING: the original Keccak domain byte 0x01 at each byte of a word. */
  const KeccakPadding: seq<bv32> := [1, 256, 65536, 16777216]

  /** The padding table for domain byte d: d shifted to each byte of a word, the way
      update shifts message bytes. */
  function DomainPadding(d: bv8): (p: seq<bv32>)
    ensures |p| == 4
    ensures forall t :: 0 <= t < 4 ==> p[t] == (d as bv32) << Shift[t]
  {
    [(d as bv32) << Shift[0], (d as bv32) << Shift[1], (d as bv32) << Shift[2], (d as bv32) << Shift[3]]
  }

  /** KECCAK_PADDING is the padding table of the domain byte 0x01. */
  lemma KeccakPaddingDomain()
    ensures KeccakPadding == DomainPadding(0x01)
  {
  }

  /** The fields of a Sha3 object. The first six are fixed by the constructor; `blocks`
      is the staging block (blockCount words of rate and one carry word), `start` the
      byte position the next input byte goes to, and `lastByteIndex` the position just
      after the last byte written, which is undefined until the first byte arrives. */
  datatype Hasher = Hasher(
    padding: seq<bv32>,
    outputBits: nat,
    blockCount: nat,
    byteCount: nat,
    outputBlocks: nat,
    extraBytes: nat,
    blocks: seq<bv32>,
    state: seq<bv32>,
    reset: bool,
    block: bv32,
    start: nat,
    lastByteIndex: Option<nat>)

  /** The array sizes and the fixed fields every method relies on. */
  predicate Shaped(h: Hasher) {
    && |h.padding| == 4
    && 1 <= h.blockCount <= 50
    && h.byteCount == 4 * h.blockCount
    && |h.blocks| == h.blockCount + 1
    && |h.state| == 50
  }

  /** What holds between calls of the public methods: the carry word and `block` stay
      zero, the cursor is inside the block, and `reset` is set exactly when the next
      byte starts a new block. */
  predicate Valid(h: Hasher) {
    && Shaped(h)
    && h.outputBlocks == h.outputBits / 32
    && h.extraBytes == h.outputBits % 32 / 8
    && h.blocks[h.blockCount] == 0
    && h.block == 0
    && h.start < h.byteCount
    && (h.reset <==> h.start == 0)
    && (h.lastByteIndex.Some? ==> h.lastByteIndex.value <= h.byteCount)
  }

  /** What a single byte of update needs: the arrays in shape and the cursor inside the
      block. */
  predicate Ready(h: Hasher) {
    Shaped(h) && h.start < h.byteCount
  }

  /** g has the constructor-fixed fields of h. */
  predicate SameConfig(g: Hasher, h: Hasher) {
    && g.padding == h.padding
    && g.outputBits == h.outputBits
    && g.blockCount == h.blockCount
    && g.byteCount == h.byteCount
    && g.outputBlocks == h.outputBlocks
    && g.extraBytes == h.extraBytes
  }

  /** The state reset leaves: a zero state, a zero staging block and the cursor at 0. */
  predicate Cleared(h: Hasher) {
    && h.reset
    && h.block == 0
    && h.start == 0
    && h.blocks == ZeroBlock(h.blockCount + 1)
    && h.state == ZeroWords
  }

  // ---------------------------------------------------------------------------
  // Constructor and reset

  /** The constructor: `bits` is half the capacity, so the rate is 1600 - 2 * bits bits,
      rounded down to whole words. */
  function New(bits: int, padding: seq<bv32>, outputBits: int): (h: Hasher)
    requires 1 <= RateWords(bits) <= 50 && |padding| == 4 && 0 <= outputBits < 0x8000_0000
    ensures Valid(h) && Cleared(h) && h.lastByteIndex == None
    ensures h.padding == padding && h.outputBits == outputBits
    ensures h.blockCount == RateWords(bits)
    ensures -15 <= bits <= 784 ==> 32 * h.blockCount <= 1600 - 2 * bits < 32 * h.blockCount + 32
    ensures h.byteCount == 4 * h.blockCount
    ensures 32 * h.outputBlocks <= outputBits < 32 * h.outputBlocks + 32
    ensures 8 * h.extraBytes <= outputBits - 32 * h.outputBlocks < 8 * h.extraBytes + 8
  {
    Reset(Hasher(padding, outputBits, RateWords(bits), 4 * RateWords(bits),
                 outputBits / 32, outputBits % 32 / 8, [], [], false, 0, 0, None))
  }

  /** blockCount as the constructor computes it, `(1600 - (bits << 1)) >> 5`: `bits << 1`
      and the operand of `>> 5` are both taken through ToInt32, and the shift right is
      arithmetic, so it rounds down, as Euclidean division by 32 does. */
  function RateWords(bits: int): (r: int)
    ensures 32 * r <= Arith.Int32(1600 - Arith.Int32(2 * bits)) < 32 * r + 32
    ensures -0x400_0000 <= r < 0x400_0000
  {
    Arith.Int32(1600 - Arith.Int32(2 * bits)) / 32
  }

  /** Where nothing wraps, blockCount is 1600 - 2 * bits rounded down to whole words. */
  lemma RateWordsExact(bits: int)
    requires -1073741023 <= bits < 0x4000_0000
    ensures 32 * RateWords(bits) <= 1600 - 2 * bits < 32 * RateWords(bits) + 32
  {
    Arith.Int32Fits(2 * bits);
    Arith.Int32Fits(1600 - 2 * bits);
  }

  /** Below that, 1600 - (bits << 1) passes 2^31 - 1 and wraps to a negative value, so
      blockCount is negative. */
  lemma RateWordsWrapped(bits: int)
    requires -0x4000_0000 <= bits <= -1073741024
    ensures RateWords(bits) + 1 < 0
  {
    var d := 1600 - 2 * bits;
    Arith.Int32Fits(2 * bits);
    Arith.Int32Fits(d - 0x1_0000_0000);
    Arith.Int32Periodic(d - 0x1_0000_0000);
    assert d - 0x1_0000_0000 + 0x1_0000_0000 == d;
  }

  /** `bits << 1` keeps only the low 32 bits of 2 * bits, so blockCount repeats with
      period 2^31 in bits: every bit size acts as one in -2^30 .. 2^30 - 1. */
  lemma RateWordsPeriodic(bits: int)
    ensures RateWords(bits + 0x8000_0000) == RateWords(bits)
  {
    Arith.Int32Periodic(2 * bits);
    assert 2 * (bits + 0x8000_0000) == 2 * bits + 0x1_0000_0000;
  }

  /** Bit sizes outside -2^30 .. 2^30 - 1 wrap: 2^31 + 392 builds the rate of 392, -2^31
      that of 0, and -2^30 a negative block count. */
  lemma RateWordsWrapExamples()
    ensures RateWords(0x8000_0000 + 392) == RateWords(392) == 25
    ensures RateWords(-0x8000_0000) == RateWords(0) == 50
    ensures RateWords(-0x4000_0000) == -67108814
  {
    RateWordsPeriodic(392);
    RateWordsPeriodic(-0x8000_0000);
    assert -0x8000_0000 + 0x8000_0000 == 0;
    RateWordsExact(392);
    RateWordsExact(0);
    var d := 1600 + 0x8000_0000;
    Arith.Int32Fits(-0x8000_0000);
    Arith.Int32Fits(d - 0x1_0000_0000);
    Arith.Int32Periodic(d - 0x1_0000_0000);
    assert d - 0x1_0000_0000 + 0x1_0000_0000 == d;
  }

  /** Where the constructor's rate lands for bits in -2^30 .. 2^30 - 1: between 1 and 50
      words exactly for bits -15 .. 784; more words than the state holds for -1073741023
      .. -16; none for 785 .. 800 and -1 for 801 .. 816; and below that from 817 on and
      from -1073741024 down, where the staging array of blockCount + 1 words would have
      negative length. */
  lemma RateWordsRange(bits: int)
    requires -0x4000_0000 <= bits < 0x4000_0000
    ensures -15 <= bits <= 784 <==> 1 <= RateWords(bits) <= 50
    ensures -1073741023 <= bits <= -16 ==> 50 < RateWords(bits)
    ensures 785 <= bits <= 800 ==> RateWords(bits) == 0
    ensures 801 <= bits <= 816 ==> RateWords(bits) == -1
    ensures 817 <= bits ==> RateWords(bits) + 1 < 0
    ensures bits <= -1073741024 ==> RateWords(bits) + 1 < 0
  {
    if bits <= -1073741024 {
      RateWordsWrapped(bits);
    } else {
      RateWordsExact(bits);
      var n := 1600 - 2 * bits;
      Arith.DivModUnique(n, 32, RateWords(bits), n - 32 * RateWords(bits));
    }
  }

  /** The constructor as evidently intended: it accepts only the bit sizes -15 .. 784, which
      leave between one and 50 whole words of rate without wrapping, instead of building
      an object whose update never returns or whose rate is wider than the state. */
  function NewChecked(bits: int, padding: seq<bv32>, outputBits: int): (r: Option<Hasher>)
    requires |padding| == 4 && 0 <= outputBits < 0x8000_0000
    ensures -0x4000_0000 <= bits < 0x4000_0000 ==> (r.Some? <==> 1 <= RateWords(bits) <= 50)
    ensures r.Some? ==> -15 <= bits <= 784 && Valid(r.value) && r.value == New(bits, padding, outputBits)
  {
    if -15 <= bits <= 784 then
      RateWordsRange(bits);
      Some(New(bits, padding, outputBits))
    else
      None
  }

  /** reset, as written: it clears the state, the staging block and the cursor, but leaves
      lastByteIndex as it was. */
  function Reset(h: Hasher): (r: Hasher)
    ensures Cleared(r) && SameConfig(r, h)
    ensures r.lastByteIndex == h.lastByteIndex
    ensures Valid(h) ==> Valid(r)
  {
    h.(reset := true, block := 0, start := 0, blocks := ZeroBlock(h.blockCount + 1), state := ZeroWords)
  }

  /** Resetting twice is resetting once. */
  lemma ResetIdempotent(h: Hasher)
    ensures Reset(Reset(h)) == Reset(h)
  {
  }

  /** reset as evidently intended: lastByteIndex is forgotten too, so the object is again
      as the constructor left it. */
  function ResetFixed(h: Hasher): (r: Hasher)
    ensures Cleared(r) && SameConfig(r, h)
    ensures r.lastByteIndex == None
    ensures Valid(h) ==> Valid(r)
  {
    Reset(h).(lastByteIndex := None)
  }

  /** A hasher after ResetFixed is the one the constructor built with the same
      parameters, whatever was absorbed before. */
  lemma ResetFixedIsNew(bits: int, padding: seq<bv32>, outputBits: int, h: Hasher)
    requires 1 <= RateWords(bits) <= 50 && |padding| == 4 && 0 <= outputBits < 0x8000_0000
    requires SameConfig(h, New(bits, padding, outputBits))
    ensures ResetFixed(h) == New(bits, padding, outputBits)
  {
  }

  // ---------------------------------------------------------------------------
  // update

  /** The head of each pass of update's outer loop: after a completed block (or a reset)
      the staging block restarts from the carry word, everything else zero. */
  function Begin(h: Hasher): (g: Hasher)
    requires Shaped(h)
    ensures !g.reset && g.start == h.start && g.state == h.state && g.block == h.block
    ensures g.lastByteIndex == h.lastByteIndex && SameConfig(g, h)
    ensures |g.blocks| == |h.blocks| && g.blocks[h.blockCount] == if h.reset then 0 else h.blocks[h.blockCount]
    ensures h.reset ==> g.blocks == [h.block] + ZeroBlock(h.blockCount)
    ensures !h.reset ==> g == h
  {
    if h.reset then h.(reset := false, blocks := [h.block] + ZeroBlock(h.blockCount)) else h
  }

  /** blocks[i >> 2] |= x << SHIFT[i & 3]: byte x goes to byte position i of the block. */
  function PutByte(blocks: seq<bv32>, i: nat, x: bv8): (r: seq<bv32>)
    requires i / 4 < |blocks|
    ensures |r| == |blocks|
  {
    blocks[i / 4 := blocks[i / 4] | ((x as bv32) << Shift[i % 4])]
  }

  /** state[k] ^= ws[k] for the first |ws| words: the rate part of the state takes the
      block and the capacity words are left alone. */
  function XorWords(s: WordState, ws: seq<bv32>): (r: WordState)
    requires |ws| <= 50
    ensures forall k :: 0 <= k < |ws| ==> r[k] == Xor32(s[k], ws[k])
    ensures forall k :: |ws| <= k < 50 ==> r[k] == s[k]
  {
    seq(50, k requires 0 <= k < 50 => if k < |ws| then Xor32(s[k], ws[k]) else s[k])
  }

  /** The tail of each pass of update's outer loop, once the byte loop has stopped at
      position i: a full block is xored into the rate words of the state and permuted,
      and the carry word is kept for the next block. */
  function EndPass(g: Hasher, i: nat): (r: Hasher)
    requires Shaped(g) && i <= g.byteCount
    ensures i < g.byteCount ==> r == g.(lastByteIndex := Some(i), start := i)
    ensures i == g.byteCount ==>
      r == g.(lastByteIndex := Some(i), start := 0, reset := true, block := g.blocks[g.blockCount],
              state := KeccakPermutation(XorWords(g.state, g.blocks[..g.blockCount])))
  {
    var g1 := g.(lastByteIndex := Some(i));
    if i >= g.byteCount then
      g1.(start := i - g.byteCount, block := g.blocks[g.blockCount],
          state := KeccakPermutation(XorWords(g.state, g.blocks[..g.blockCount])), reset := true)
    else
      g1.(start := i)
  }

  /** update on a single byte: it goes to the cursor position; the state changes only
      when the byte completes the block, and the carry word is never written. */
  function AbsorbByte(h: Hasher, x: bv8): (r: Hasher)
  {
    if !Ready(h) then h else
    var g := Begin(h);
    var b := PutByte(g.blocks, g.start, x);
    EndPass(g.(blocks := b), g.start + 1)
  }

  /** update on the bytes m[lo..hi], one byte at a time. */
  function UpdateRange(h: Hasher, m: seq<bv8>, lo: nat, hi: nat): (r: Hasher)
    requires lo <= hi <= |m|
    decreases hi
  {
    if hi == lo then h else AbsorbByte(UpdateRange(h, m, lo, hi - 1), m[hi - 1])
  }

  lemma AbsorbByteValid(h: Hasher, x: bv8)
    requires Valid(h)
    ensures Valid(AbsorbByte(h, x)) && SameConfig(AbsorbByte(h, x), h)
    ensures AbsorbByte(h, x).lastByteIndex == Some(h.start + 1)
    ensures AbsorbByte(h, x).start == if h.start + 1 == h.byteCount then 0 else h.start + 1
  {
    var g := Begin(h);
    var b := PutByte(g.blocks, g.start, x);
    assert b[h.blockCount] == 0;
  }

  lemma {:induction false} UpdateRangeValid(h: Hasher, m: seq<bv8>, lo: nat, hi: nat)
    requires Valid(h) && lo <= hi <= |m|
    ensures Valid(UpdateRange(h, m, lo, hi)) && SameConfig(UpdateRange(h, m, lo, hi), h)
    decreases hi
  {
    if hi > lo {
      UpdateRangeValid(h, m, lo, hi - 1);
      AbsorbByteValid(UpdateRange(h, m, lo, hi - 1), m[hi - 1]);
    }
  }

  /** update on a byte string. */
  function UpdateBytes(h: Hasher, m: seq<bv8>): (r: Hasher)
  {
    UpdateRange(h, m, 0, |m|)
  }

  /** Updating with m[lo..mid] and then with m[mid..hi] is updating with m[lo..hi]. */
  lemma {:induction false} UpdateRangeSplit(h: Hasher, m: seq<bv8>, lo: nat, mid: nat, hi: nat)
    requires lo <= mid <= hi <= |m|
    ensures UpdateRange(UpdateRange(h, m, lo, mid), m, mid, hi) == UpdateRange(h, m, lo, hi)
    decreases hi
  {
    if hi > mid {
      UpdateRangeSplit(h, m, lo, mid, hi - 1);
    }
  }

  /** update depends only on the bytes, not on where they sit. */
  lemma {:induction false} UpdateRangeAgree(h: Hasher, m1: seq<bv8>, lo1: nat, hi1: nat, m2: seq<bv8>, lo2: nat, hi2: nat)
    requires lo1 <= hi1 <= |m1| && lo2 <= hi2 <= |m2| && m1[lo1..hi1] == m2[lo2..hi2]
    ensures UpdateRange(h, m1, lo1, hi1) == UpdateRange(h, m2, lo2, hi2)
    decreases hi1
  {
    assert hi1 - lo1 == |m1[lo1..hi1]| == hi2 - lo2;
    if hi1 > lo1 {
      assert m1[hi1 - 1] == m1[lo1..hi1][hi1 - 1 - lo1] == m2[lo2..hi2][hi2 - 1 - lo2] == m2[hi2 - 1];
      assert m1[lo1..hi1 - 1] == m1[lo1..hi1][..hi1 - 1 - lo1];
      assert m2[lo2..hi2 - 1] == m2[lo2..hi2][..hi2 - 1 - lo2];
      UpdateRangeAgree(h, m1, lo1, hi1 - 1, m2, lo2, hi2 - 1);
    }
  }

  /** Streaming: updating with a and then with b is updating with a + b. */
  lemma {:induction false} UpdateAppend(h: Hasher, a: seq<bv8>, b: seq<bv8>)
    ensures UpdateBytes(UpdateBytes(h, a), b) == UpdateBytes(h, a + b)
  {
    UpdateRangeSplit(h, a + b, 0, |a|, |a + b|);
    assert (a + b)[0..|a|] == a[0..|a|];
    UpdateRangeAgree(h, a + b, 0, |a|, a, 0, |a|);
    assert (a + b)[|a|..|a + b|] == b[0..|b|];
    UpdateRangeAgree(UpdateRange(h, a, 0, |a|), a + b, |a|, |a + b|, b, 0, |b|);
  }

  /** update as the class runs it: each pass of the outer loop restarts the staging block
      if the previous pass completed it, ORs bytes in from the cursor until the block is
      full or the input ends (PassBytes), and then ends the pass. The whole loop leaves
      the hasher that absorbing the message one byte at a time does. */
  method Update(h: Hasher, message: seq<bv8>) returns (r: Hasher)
    requires Valid(h)
    ensures r == UpdateBytes(h, message)
    ensures Valid(r) && SameConfig(r, h)
  {
    r := h;
    var index := 0;
    while index < |message|
      invariant index <= |message|
      invariant r == UpdateRange(h, message, 0, index)
      invariant Valid(r) && SameConfig(r, h)
      decreases |message| - index
    {
      var g := Begin(r);
      var b, i, index1 := PassBytes(g, message, index);
      PassIsUpdate(r, g, message, index, index1, i);
      UpdateRangeSplit(h, message, 0, index, index1);
      r, index := EndPass(g.(blocks := b), i), index1;
      UpdateRangeValid(h, message, 0, index);
    }
  }

  /** The staging block after the byte loop has ORed m[lo..hi] in from byte position i
      on. */
  function PutRange(blocks: seq<bv32>, i: nat, m: seq<bv8>, lo: nat, hi: nat): (r: seq<bv32>)
    requires lo <= hi <= |m| && i + (hi - lo) <= 4 * |blocks|
    ensures |r| == |blocks|
    decreases hi - lo
  {
    if lo == hi then blocks
    else PutRange(PutByte(blocks, i, m[lo]), i + 1, m, lo + 1, hi)
  }

  /** Where the byte loop of a pass that starts at message[index0] stops: at the end of
      the input or when the block is full, whichever comes first. */
  function PassEnd(g: Hasher, message: seq<bv8>, index0: nat): (end: nat)
    requires g.start < g.byteCount && index0 < |message|
    ensures index0 < end <= |message| && g.start + (end - index0) <= g.byteCount
    ensures end == |message| || g.start + (end - index0) == g.byteCount
  {
    if |message| - index0 < g.byteCount - g.start then |message| else index0 + (g.byteCount - g.start)
  }

  /** The byte loop of one pass of update: from the cursor, bytes of the message are ORed
      into the staging block until the block is full or the input ends. It takes at least
      one byte. */
  method PassBytes(g: Hasher, message: seq<bv8>, index0: nat) returns (b: seq<bv32>, i: nat, index: nat)
    requires Shaped(g) && g.start < g.byteCount && index0 < |message|
    ensures index == PassEnd(g, message, index0) && i == g.start + (index - index0)
    ensures b == PutRange(g.blocks, g.start, message, index0, index)
  {
    ghost var end := PassEnd(g, message, index0);
    b, i, index := g.blocks, g.start, index0;
    while index < |message| && i < g.byteCount
      invariant index0 <= index <= end && i == g.start + (index - index0)
      invariant |b| == |g.blocks|
      invariant PutRange(b, i, message, index, end) == PutRange(g.blocks, g.start, message, index0, end)
      decreases |message| - index
    {
      b := PutByte(b, i, message[index]);
      i := i + 1;
      index := index + 1;
    }
  }

  /** UpdateRange's first step: m[lo] is absorbed before the rest. */
  lemma UpdateRangeFirst(h: Hasher, m: seq<bv8>, lo: nat, hi: nat)
    requires lo < hi <= |m|
    ensures UpdateRange(h, m, lo, hi) == UpdateRange(AbsorbByte(h, m[lo]), m, lo + 1, hi)
  {
    UpdateRangeSplit(h, m, lo, lo + 1, hi);
  }

  /** A byte that starts a pass is one AbsorbByte. */
  lemma PassFirst(r: Hasher, g: Hasher, b: seq<bv32>, x: bv8)
    requires Valid(r) && g == Begin(r) && b == PutByte(g.blocks, g.start, x)
    ensures AbsorbByte(r, x) == EndPass(g.(blocks := b), g.start + 1)
  {
  }

  /** One pass of update on m[lo..hi] (bytes that fit in the block from the cursor on)
      leaves the hasher that absorbing them one at a time does. */
  lemma PassIsUpdate(r: Hasher, g: Hasher, m: seq<bv8>, lo: nat, hi: nat, j: nat)
    requires Valid(r) && g == Begin(r) && lo < hi <= |m| && j == g.start + (hi - lo) <= g.byteCount
    ensures EndPass(g.(blocks := PutRange(g.blocks, g.start, m, lo, hi)), j) == UpdateRange(r, m, lo, hi)
  {
    var lo1, i1 := lo + 1, g.start + 1;
    var b1 := PutByte(g.blocks, g.start, m[lo]);
    UpdateRangeFirst(r, m, lo, hi);
    PassFirst(r, g, b1, m[lo]);
    assert UpdateRange(r, m, lo, hi) == UpdateRange(EndPass(g.(blocks := b1), i1), m, lo1, hi);
    PassAbsorbs(g, b1, i1, m, lo1, hi, j);
    PutRangeFirst(g.blocks, g.start, i1, m, lo, lo1, hi);
  }

  /** Bytes that continue a pass from cursor i on: absorbing them one at a time is ORing
      them all into the staging block and ending the pass once. */
  lemma {:induction false} PassAbsorbs(g: Hasher, b: seq<bv32>, i: nat, m: seq<bv8>, lo: nat, hi: nat, j: nat)
    requires Shaped(g) && !g.reset && 0 < i && |b| == |g.blocks|
    requires lo <= hi <= |m| && j == i + (hi - lo) <= g.byteCount
    ensures UpdateRange(EndPass(g.(blocks := b), i), m, lo, hi) == EndPass(g.(blocks := PutRange(b, i, m, lo, hi)), j)
    decreases hi - lo
  {
    if lo < hi {
      var i1, lo1 := i + 1, lo + 1;
      var b1 := PutByte(b, i, m[lo]);
      UpdateRangeFirst(EndPass(g.(blocks := b), i), m, lo, hi);
      PassContinue(g, b, i, i1, m[lo]);
      assert UpdateRange(EndPass(g.(blocks := b), i), m, lo, hi) == UpdateRange(EndPass(g.(blocks := b1), i1), m, lo1, hi);
      PassAbsorbs(g, b1, i1, m, lo1, hi, j);
      PutRangeFirst(b, i, i1, m, lo, lo1, hi);
    }
  }

  /** PutRange's first step: m[lo] goes to position i before the rest. */
  lemma PutRangeFirst(blocks: seq<bv32>, i: nat, i1: nat, m: seq<bv8>, lo: nat, lo1: nat, hi: nat)
    requires lo < hi <= |m| && i + (hi - lo) <= 4 * |blocks| && i1 == i + 1 && lo1 == lo + 1
    ensures PutRange(blocks, i, m, lo, hi) == PutRange(PutByte(blocks, i, m[lo]), i1, m, lo1, hi)
  {
  }

  /** A byte that continues a pass is written at the cursor of the same staging block and
      ends the pass one position further on. */
  lemma PassContinue(g: Hasher, b: seq<bv32>, i: nat, j: nat, x: bv8)
    requires Shaped(g) && !g.reset && 0 < i < g.byteCount && j == i + 1 && |b| == |g.blocks|
    ensures AbsorbByte(EndPass(g.(blocks := b), i), x) == EndPass(g.(blocks := PutByte(b, i, x)), j)
  {
    var c := PutByte(b, i, x);
    assert EndPass(g.(blocks := b), i).(blocks := c) == g.(blocks := c).(start := i, lastByteIndex := Some(i));
    EndPassCursor(g.(blocks := c), j, i, Some(i));
  }

  /** EndPass overwrites the cursor and lastByteIndex, so their old values do not matter. */
  lemma EndPassCursor(g: Hasher, i: nat, s: nat, l: Option<nat>)
    requires Shaped(g) && i <= g.byteCount
    ensures EndPass(g.(start := s, lastByteIndex := l), i) == EndPass(g, i)
  {
  }

  /** update never reads lastByteIndex: a byte overwrites it, whatever it held. */
  lemma AbsorbByteIgnoresIndex(h: Hasher, l: Option<nat>, x: bv8)
    requires Ready(h)
    ensures AbsorbByte(h.(lastByteIndex := l), x) == AbsorbByte(h, x)
  {
    var g := Begin(h);
    var c := PutByte(g.blocks, g.start, x);
    assert Begin(h.(lastByteIndex := l)).(blocks := c) == g.(blocks := c).(start := g.start, lastByteIndex := l);
    EndPassCursor(g.(blocks := c), g.start + 1, g.start, l);
  }

  /** After at least one byte of update, the earlier lastByteIndex has no trace. */
  lemma UpdateIgnoresIndex(h: Hasher, l: Option<nat>, x: seq<bv8>)
    requires Valid(h) && |x| > 0
    ensures UpdateBytes(h.(lastByteIndex := l), x) == UpdateBytes(h, x)
  {
    var n := |x|;
    UpdateRangeFirst(h, x, 0, n);
    UpdateRangeFirst(h.(lastByteIndex := l), x, 0, n);
    AbsorbByteIgnoresIndex(h, l, x[0]);
  }

  // ---------------------------------------------------------------------------
  // finalize

  /** The first half of finalize's padding: the domain bits go in at lastByteIndex
      (position 0 when no byte was ever written, as the undefined index reads as 0 there);
      after an exactly full block the carry word, which took them, is moved to word 0 and
      the rest cleared. */
  function DomainBlock(h: Hasher): (b: seq<bv32>)
    requires Valid(h)
    ensures |b| == h.blockCount + 1
  {
    var i := if h.lastByteIndex.Some? then h.lastByteIndex.value else 0;
    var b1 := h.blocks[i / 4 := h.blocks[i / 4] | h.padding[i % 4]];
    if h.lastByteIndex == Some(h.byteCount) then [b1[h.blockCount]] + ZeroBlock(h.blockCount) else b1
  }

  /** The staging block finalize xors into the state: the domain bits and then the final
      1 bit in the top bit of the last rate word. */
  function FinalBlock(h: Hasher): (b: seq<bv32>)
    requires Valid(h)
    ensures |b| == h.blockCount + 1
  {
    var b := DomainBlock(h);
    b[h.blockCount - 1 := b[h.blockCount - 1] | 0x8000_0000]
  }

  /** finalize: pad the staged bytes, xor them into the rate words and permute. */
  function Finalize(h: Hasher): (f: Hasher)
    requires Valid(h)
    ensures Shaped(f) && SameConfig(f, h)
    ensures f.blocks == FinalBlock(h)
    ensures f.state == KeccakPermutation(XorWords(h.state, FinalBlock(h)[..h.blockCount]))
    ensures f.reset == h.reset && f.start == h.start && f.block == h.block
    ensures f.lastByteIndex == h.lastByteIndex
  {
    var b := FinalBlock(h);
    h.(blocks := b, state := KeccakPermutation(XorWords(h.state, b[..h.blockCount])))
  }

  // ---------------------------------------------------------------------------
  // digest

  /** The number of output words digest fills: outputBlocks, and one more for a
      trailing partial word. */
  function OutputWordCount(h: Hasher): nat {
    h.outputBlocks + if h.extraBytes > 0 then 1 else 0
  }

  /** The words digest's copy loop writes for n output words: state words 0 .. bc - 1,
      then the same words again from 0, since the state is not permuted between
      passes. */
  function CopiedWords(s: WordState, bc: nat, n: nat): (ws: seq<bv32>)
    requires 1 <= bc <= 50
    ensures |ws| == n
    decreases n
  {
    if n <= bc then s[..n] else s[..bc] + CopiedWords(s, bc, n - bc)
  }

  /** The value of the copy loop's i when it stops after n words: the length of its last
      pass. */
  function LastPass(bc: nat, n: nat): (i: nat)
    requires 1 <= bc
    ensures i <= bc && i <= n
    ensures n > 0 ==> i > 0
    decreases n
  {
    if n <= bc then n else LastPass(bc, n - bc)
  }

  /** A state word the extra-bytes step reads; index 50 is past the 50-word array and
      reads as undefined, which the typed array stores as 0. */
  function StateWordOrZero(s: WordState, i: nat): bv32 {
    if i < 50 then s[i] else 0
  }

  /** The output words as digest writes them: the copied words and, for a trailing
      partial word, the state word at the index i the copy loop stopped at, written at
      index i. */
  function OutputWords(f: Hasher): (ws: seq<bv32>)
    requires Shaped(f)
    ensures |ws| == OutputWordCount(f)
  {
    var copied := CopiedWords(f.state, f.blockCount, f.outputBlocks);
    if f.extraBytes == 0 then copied
    else
      var i := LastPass(f.blockCount, f.outputBlocks);
      (copied + [0])[i := StateWordOrZero(f.state, i)]
  }

  /** j is where a pass of the copy loop starts: a whole number of blockCount-word
      passes. */
  predicate PassStart(bc: nat, j: nat)
    decreases j
  {
    j == 0 || (bc <= j && 0 < bc && PassStart(bc, j - bc))
  }

  /** Copying up to a pass start and then i more words: the words before followed by
      the first i state words, and i is where that pass stops. */
  lemma {:induction false} CopiedPasses(s: WordState, bc: nat, j0: nat, i: nat)
    requires 1 <= bc <= 50 && i <= bc && PassStart(bc, j0)
    ensures CopiedWords(s, bc, j0 + i) == CopiedWords(s, bc, j0) + s[..i]
    ensures 0 < i ==> LastPass(bc, j0 + i) == i
    decreases j0
  {
    if j0 == 0 {
      assert CopiedWords(s, bc, 0) == [];
    } else if i == 0 {
      assert s[..0] == [];
    } else {
      CopiedPasses(s, bc, j0 - bc, i);
      assert CopiedWords(s, bc, j0 + i) == s[..bc] + CopiedWords(s, bc, j0 - bc + i);
      if j0 == bc {
        assert CopiedWords(s, bc, j0 - bc) == [];
      }
    }
  }

  /** digest's copy loops, as the class runs them: whole passes over the first blockCount
      state words until outputBlocks words are written, then the extra word at the index
      where the last pass stopped. */
  method CopyOutput(f: Hasher) returns (words: seq<bv32>)
    requires Shaped(f)
    ensures words == OutputWords(f)
  {
    var bc, ob := f.blockCount, f.outputBlocks;
    words := [];
    var i := 0;
    var j := 0;
    while j < ob
      invariant j <= ob && (j == ob || PassStart(bc, j))
      invariant words == CopiedWords(f.state, bc, j)
      invariant i == LastPass(bc, j)
      decreases ob - j
    {
      words, i, j := CopyPass(f.state, bc, ob, words, j);
    }
    if f.extraBytes > 0 {
      words := (words + [0])[i := StateWordOrZero(f.state, i)];
    }
  }

  /** One pass of digest's copy loop: state words 0, 1, .. are appended until blockCount
      of them are copied or outputBlocks words are written. */
  method CopyPass(s: WordState, bc: nat, ob: nat, words0: seq<bv32>, j0: nat) returns (words: seq<bv32>, i: nat, j: nat)
    requires 1 <= bc <= 50 && j0 < ob && PassStart(bc, j0) && words0 == CopiedWords(s, bc, j0)
    ensures j0 < j <= ob && (j == ob || PassStart(bc, j))
    ensures words == CopiedWords(s, bc, j) && i == LastPass(bc, j)
  {
    words, i, j := words0, 0, j0;
    while i < bc && j < ob
      invariant j == j0 + i && i <= bc && j <= ob
      invariant words == CopiedWords(s, bc, j0) + s[..i]
    {
      assert s[..i + 1] == s[..i] + [s[i]];
      words := words + [s[i]];
      i := i + 1;
      j := j + 1;
    }
    CopiedPasses(s, bc, j0, i);
  }

  /** digest, as written: finalize, copy out the output words, keep outputBits >> 3
      bytes of them, reset. */
  function Digest(h: Hasher): (r: (Hasher, seq<bv8>))
    requires Valid(h)
    ensures |r.1| == h.outputBits / 8
    ensures Valid(r.0) && Cleared(r.0) && SameConfig(r.0, h)
    ensures r.0.lastByteIndex == h.lastByteIndex
  {
    var f := Finalize(h);
    OutputBytesCount(h);
    (Reset(f), WordsToBytes(OutputWords(f))[..h.outputBits / 8])
  }

  /** outputBits >> 3 bytes fit in the output words. */
  lemma OutputBytesCount(h: Hasher)
    requires Valid(h)
    ensures h.outputBits / 8 == 4 * h.outputBlocks + h.extraBytes
    ensures h.outputBits / 8 <= 4 * OutputWordCount(h)
  {
  }

  /** When the output is at most a block, digest returns the first outputBits >> 3
      bytes of the finalized state words, little-endian. */
  lemma DigestShortOutput(h: Hasher)
    requires Valid(h) && h.outputBits / 8 <= h.byteCount
    ensures Digest(h).1 == WordsToBytes(Finalize(h).state[..OutputWordCount(h)])[..h.outputBits / 8]
  {
    var f := Finalize(h);
    assert OutputWords(f) == f.state[..OutputWordCount(h)];
  }

  /** digest as evidently intended: the output is squeezed from the finalized state,
      permuting it between blocks of output, and the object is reset as the constructor
      left it, lastByteIndex included. */
  function DigestSqueeze(h: Hasher): (r: (Hasher, seq<bv8>))
    requires Valid(h)
    ensures |r.1| == h.outputBits / 8
    ensures Valid(r.0) && Cleared(r.0) && SameConfig(r.0, h) && r.0.lastByteIndex == None
  {
    var f := Finalize(h);
    (ResetFixed(f), Squeeze(Lanes(f.state), h.byteCount, h.outputBits / 8))
  }

  // ---------------------------------------------------------------------------
  // Where digest as written departs from the sponge

  /** digest as written never permutes between passes of its copy loop: output word w
      is state word w mod blockCount, however many words are asked for. */
  lemma {:induction false} CopiedWordsCyclic(s: WordState, bc: nat, n: nat, w: nat)
    requires 1 <= bc <= 50 && w < n
    ensures CopiedWords(s, bc, n)[w] == s[w % bc]
    decreases n
  {
    if w < bc {
      Arith.DivModUnique(w, bc, 0, w);
    } else {
      CopiedWordsCyclic(s, bc, n - bc, w - bc);
      Arith.AddDivisor(w - bc, bc);
    }
  }

  /** When the output is longer than a block and ends in a partial word, digest as
      written stores that word at the index where the last pass stopped, which lies
      inside the whole words, so the last output word stays zero. */
  lemma ExtraWordMisplaced(f: Hasher)
    requires Shaped(f) && f.extraBytes > 0 && f.outputBlocks > f.blockCount
    ensures LastPass(f.blockCount, f.outputBlocks) < f.outputBlocks
    ensures OutputWords(f)[f.outputBlocks] == 0
  {
  }

  /** When the output is exactly a block and ends in a partial word, the copy loop stops
      at i == blockCount, so that word is state word blockCount: the first capacity word
      (or, with 50 rate words, the undefined word past the state, read as 0), where the
      sponge would permute and take word 0 of the next block. */
  lemma ExtraWordCapacity(f: Hasher)
    requires Shaped(f) && f.extraBytes > 0 && f.outputBlocks == f.blockCount
    ensures LastPass(f.blockCount, f.outputBlocks) == f.blockCount
    ensures OutputWords(f)[f.outputBlocks] == StateWordOrZero(f.state, f.blockCount)
  {
  }

  /** reset as written keeps lastByteIndex: take a hasher as the constructor leaves it,
      with the Keccak padding and at least two rate words, whose finalize would put the
      domain byte at byte 0 (word 0 becomes 1). After update with one byte and digest it
      is cleared again, yet the next finalize puts the domain byte at byte 1 (word 0
      becomes 0x100), although nothing has been absorbed since; the intended digest
      leaves it putting the byte at 0. */
  lemma StaleIndexAfterDigest(h: Hasher, x: bv8)
    requires Valid(h) && Cleared(h) && h.lastByteIndex == None
    requires h.padding == KeccakPadding && 2 <= h.blockCount
    ensures FinalBlock(h)[0] == 1
    ensures Valid(UpdateBytes(h, [x]))
    ensures FinalBlock(Digest(UpdateBytes(h, [x])).0)[0] == 0x100
    ensures FinalBlock(DigestSqueeze(UpdateBytes(h, [x])).0)[0] == 1
  {
    AbsorbByteValid(h, x);
    assert UpdateBytes(h, [x]) == AbsorbByte(h, x);
    KeccakFirstWord(Digest(UpdateBytes(h, [x])).0);
    KeccakFirstWord(DigestSqueeze(UpdateBytes(h, [x])).0);
    KeccakFirstWord(h);
  }

  /** Word 0 of finalize's block for a cleared hasher with the Keccak padding: the domain
      byte at the recorded byte index. */
  lemma KeccakFirstWord(r: Hasher)
    requires Valid(r) && Cleared(r) && r.padding == KeccakPadding && 2 <= r.blockCount
    requires r.lastByteIndex == None || r.lastByteIndex == Some(1)
    ensures FinalBlock(r)[0] == if r.lastByteIndex == None then 1 else 0x100
  {
    assert DomainBlock(r)[0] == if r.lastByteIndex == None then 1 else 0x100;
  }

  // ---------------------------------------------------------------------------
  // Where the constructor departs: a rate of no whole word

  /** One pass of update's outer loop as written, on the cursor and the input index
      alone: the byte loop runs from i = start while index < length and i < byteCount,
      and the cursor then wraps by byteCount if i reached it. Nothing here assumes a
      positive byteCount. */
  function PassStep(byteCount: int, start: int, index: nat, length: nat): (r: (int, nat))
    requires index <= length
    ensures index <= r.1 <= length
  {
    var n := if start < byteCount then (if length - index < byteCount - start then length - index else byteCount - start) else 0;
    var i := start + n;
    (if i >= byteCount then i - byteCount else i, index + n)
  }

  /** k passes of the outer loop. */
  function Passes(byteCount: int, start: int, index: nat, length: nat, k: nat): (r: (int, nat))
    requires index <= length
    ensures index <= r.1 <= length
    decreases k
  {
    if k == 0 then (start, index)
    else
      var p := PassStep(byteCount, start, index, length);
      Passes(byteCount, p.0, p.1, length, k - 1)
  }

  /** With no whole word of rate the byte loop never runs: however many passes, the input
      index does not move. */
  lemma {:induction false} StalledPasses(byteCount: int, start: int, index: nat, length: nat, k: nat)
    requires byteCount <= 0 <= start && index <= length
    ensures Passes(byteCount, start, index, length, k).1 == index
    decreases k
  {
    if k > 0 {
      var p := PassStep(byteCount, start, index, length);
      assert p == (start - byteCount, index);
      StalledPasses(byteCount, p.0, p.1, length, k - 1);
    }
  }

  /** As written, an object built with 785 <= bits <= 816 (blockCount 0 or -1) never
      returns from update on a non-empty input: after any number of passes the loop
      condition index < length still holds. */
  lemma UpdateNeverEnds(bits: int, length: nat, k: nat)
    requires 785 <= bits <= 816 && 0 < length
    ensures Passes(4 * RateWords(bits), 0, 0, length, k).1 == 0 < length
  {
    RateWordsRange(bits);
    StalledPasses(4 * RateWords(bits), 0, 0, length, k);
  }

  /** As written, with blockCount 0 or -1 a pass of digest's copy loop copies nothing,
      so for outputBits >= 32 the loop condition j < outputBlocks stays true. (finalize
      before it returns: its writes outside the staging array are dropped and its loops
      do not run.) */
  function CopyStep(blockCount: int, j: nat, outputBlocks: nat): (j1: nat)
    requires j <= outputBlocks
    ensures j <= j1 <= outputBlocks
  {
    j + if 0 < blockCount then (if outputBlocks - j < blockCount then outputBlocks - j else blockCount) else 0
  }

  lemma DigestNeverEnds(bits: int, outputBits: int)
    requires 785 <= bits <= 816 && 32 <= outputBits < 0x8000_0000
    ensures CopyStep(RateWords(bits), 0, outputBits / 32) == 0 < outputBits / 32
  {
    RateWordsRange(bits);
  }

  /** For every object the intended constructor builds (and every object update leaves),
      each pass takes at least one byte: the pass ends where the modelled byte loop
      (PassEnd) ends, past the index it started at. */
  lemma PassStepAdvances(h: Hasher, message: seq<bv8>, index: nat)
    requires Valid(h) && index < |message|
    ensures PassStep(h.byteCount, h.start, index, |message|).1 == PassEnd(h, message, index) > index
  {
  }
}
