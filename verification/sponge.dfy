/** The Sha3 class against the FIPS 202 sponge: a hasher that has absorbed the bytes m
    holds, in its 50 state words, the lanes of the reference Keccak sponge after the whole
    blocks of m, and in its staging block the little-endian packing of the rest of m.
    From that invariant, finalize is pad10*1 followed by the absorbing phase, and digest
    (for outputs shorter than a block) is Keccak[c] of everything absorbed. */
module Sponge {
  import opened Words
  import opened KeccakSpec
  import opened KeccakWords
  import opened Sha3
  import KeccakLanes
  import Arith

  // ---------------------------------------------------------------------------
  // Words and lanes

  /** A word of four bytes, widened to 64 bits, is the same bytes at the same places. */
  lemma WidenWordOf(b0: bv8, b1: bv8, b2: bv8, b3: bv8)
    ensures (WordOf(b0, b1, b2, b3) as bv64)
         == (b0 as bv64) | ((b1 as bv64) << 8) | ((b2 as bv64) << 16) | ((b3 as bv64) << 24)
  {
  }

  /** The same, shifted into the high half of a lane. */
  lemma WidenWordOfHigh(b4: bv8, b5: bv8, b6: bv8, b7: bv8)
    ensures (WordOf(b4, b5, b6, b7) as bv64) << 32
         == ((b4 as bv64) << 32) | ((b5 as bv64) << 40) | ((b6 as bv64) << 48) | ((b7 as bv64) << 56)
  {
  }

  /** Two little-endian words of four bytes each make the little-endian lane of the eight
      bytes. */
  lemma JoinWordOf(b0: bv8, b1: bv8, b2: bv8, b3: bv8, b4: bv8, b5: bv8, b6: bv8, b7: bv8)
    ensures Join(WordOf(b0, b1, b2, b3), WordOf(b4, b5, b6, b7))
         == (b0 as bv64) | ((b1 as bv64) << 8) | ((b2 as bv64) << 16) | ((b3 as bv64) << 24)
          | ((b4 as bv64) << 32) | ((b5 as bv64) << 40) | ((b6 as bv64) << 48) | ((b7 as bv64) << 56)
  {
    WidenWordOf(b0, b1, b2, b3);
    WidenWordOfHigh(b4, b5, b6, b7);
    OrRegroup((b0 as bv64), ((b1 as bv64) << 8), ((b2 as bv64) << 16), ((b3 as bv64) << 24),
              ((b4 as bv64) << 32), ((b5 as bv64) << 40), ((b6 as bv64) << 48), ((b7 as bv64) << 56));
  }

  lemma OrRegroup(c0: bv64, c1: bv64, c2: bv64, c3: bv64, c4: bv64, c5: bv64, c6: bv64, c7: bv64)
    ensures (c4 | c5 | c6 | c7) | (c0 | c1 | c2 | c3) == c0 | c1 | c2 | c3 | c4 | c5 | c6 | c7
  {
  }

  /** Words 2k and 2k + 1 of the packing of p hold lane k of p. */
  lemma LaneOfPackedWords(p: seq<bv8>, k: nat)
    ensures Join(PackWord(p, 2 * k), PackWord(p, 2 * k + 1)) == LaneOfBytes(p, k)
  {
    assert 4 * (2 * k) == 8 * k && 4 * (2 * k + 1) == 8 * k + 4;
    JoinWordOf(ByteAt(p, 8 * k), ByteAt(p, 8 * k + 1), ByteAt(p, 8 * k + 2), ByteAt(p, 8 * k + 3),
               ByteAt(p, 8 * k + 4), ByteAt(p, 8 * k + 5), ByteAt(p, 8 * k + 6), ByteAt(p, 8 * k + 7));
  }

  /** Past the end of p its packing is zero, so xoring it in changes nothing. */
  lemma XorPackedWord(s: WordState, p: seq<bv8>, bc: nat, w: nat)
    requires bc <= 50 && |p| == 4 * bc && w < 50
    ensures XorWords(s, PackWords(p, bc))[w] == Xor32(s[w], PackWord(p, w))
  {
    if w >= bc {
      assert ByteAt(p, 4 * w) == 0 && ByteAt(p, 4 * w + 1) == 0;
      assert ByteAt(p, 4 * w + 2) == 0 && ByteAt(p, 4 * w + 3) == 0;
    }
  }

  /** Lane k of the xored word state. */
  lemma XorPackedLane(s: WordState, p: seq<bv8>, bc: nat, k: nat)
    requires bc <= 50 && |p| == 4 * bc && k < 25
    ensures Lanes(XorWords(s, PackWords(p, bc)))[k] == Xor64(Lanes(s)[k], LaneOfBytes(p, k))
  {
    var x := XorWords(s, PackWords(p, bc));
    XorPackedWord(s, p, bc, 2 * k);
    XorPackedWord(s, p, bc, 2 * k + 1);
    LaneAt(x, k);
    LaneAt(s, k);
    JoinXor(s[2 * k], s[2 * k + 1], PackWord(p, 2 * k), PackWord(p, 2 * k + 1));
    LaneOfPackedWords(p, k);
  }

  /** Xoring the packed block into the rate words is the reference S xor (P || 0^c) on the
      lanes. */
  lemma XorPackedBlock(s: WordState, p: seq<bv8>, bc: nat)
    requires 1 <= bc <= 50 && |p| == 4 * bc
    ensures Lanes(XorWords(s, PackWords(p, bc))) == XorBlock(Lanes(s), p)
  {
    forall k | 0 <= k < 25
      ensures Lanes(XorWords(s, PackWords(p, bc)))[k] == XorBlock(Lanes(s), p)[k]
    {
      XorPackedLane(s, p, bc, k);
    }
  }

  /** Byte j of the lanes of ws is byte j of the words. */
  lemma StateByteAt(ws: seq<bv32>, j: nat)
    requires |ws| == 50 && j < 200
    ensures StateBytes(Lanes(ws))[j] == ByteOf(ws[j / 4], j % 4)
  {
    var k, t := j / 8, j % 8;
    LaneAt(ws, k);
    SplitJoin(ws[2 * k], ws[2 * k + 1]);
    if t < 4 {
      Arith.DivModUnique(j, 4, 2 * k, t);
    } else {
      Arith.DivModUnique(j, 4, 2 * k + 1, t - 4);
    }
  }

  /** The reference byte string of the lanes of a word state is the little-endian byte
      string of its words. */
  lemma StateBytesWords(ws: seq<bv32>)
    requires |ws| == 50
    ensures StateBytes(Lanes(ws)) == WordsToBytes(ws)
  {
    forall j | 0 <= j < 200
      ensures StateBytes(Lanes(ws))[j] == WordsToBytes(ws)[j]
    {
      StateByteAt(ws, j);
    }
  }

  /** Absorbing one whole block with the 32-bit model: the packed block is xored into the
      rate words and keccakPermutation applied, which on the lanes is the reference
      Keccak-f of S xor (P || 0^c). */
  lemma PermutePackedBlock(s: WordState, p: seq<bv8>, bc: nat)
    requires 1 <= bc <= 50 && |p| == 4 * bc
    ensures Lanes(KeccakPermutation(XorWords(s, PackWords(p, bc)))) == KeccakF(XorBlock(Lanes(s), p))
  {
    KeccakLanes.KeccakPermutationRefines(XorWords(s, PackWords(p, bc)));
    XorPackedBlock(s, p, bc);
  }

  /** The zero word state holds the zero lanes. */
  lemma LanesZero()
    ensures Lanes(ZeroWords) == ZeroState
  {
    forall k | 0 <= k < 25
      ensures Lanes(ZeroWords)[k] == 0
    {
      LaneAt(ZeroWords, k);
    }
  }

  // ---------------------------------------------------------------------------
  // The staging block

  /** The packing of no bytes is the zero block. */
  lemma PackEmpty(n: nat)
    ensures PackWords([], n) == ZeroBlock(n)
  {
    forall w | 0 <= w < n
      ensures PackWords([], n)[w] == 0
    {
      assert PackWord([], w) == WordOf(0, 0, 0, 0);
    }
  }

  /** The bytes of the block being staged, as a full block: the last k bytes of m, then
      zero bytes up to the rate. */
  function Pending(m: seq<bv8>, k: nat, rate: nat): (p: seq<bv8>)
    requires k <= |m| && k <= rate
    ensures |p| == rate
    ensures forall j :: 0 <= j < k ==> p[j] == m[|m| - k + j]
    ensures forall j :: k <= j < rate ==> p[j] == 0
  {
    m[|m| - k..] + Zeros(rate - k)
  }

  /** One more byte of input ors it into the pending block at the cursor. */
  lemma PendingStep(m: seq<bv8>, k: nat, rate: nat, x: bv8)
    requires k <= |m| && k < rate
    ensures Pending(m + [x], k + 1, rate) == Pending(m, k, rate)[k := Pending(m, k, rate)[k] | x]
  {
    var p, q := Pending(m, k, rate), Pending(m + [x], k + 1, rate);
    forall j | 0 <= j < rate
      ensures q[j] == p[k := p[k] | x][j]
    {
      if j < k {
        assert q[j] == (m + [x])[|m| - k + j];
      }
    }
  }

  /** A full pending block is the last rate bytes of the input. */
  lemma PendingFull(m: seq<bv8>, rate: nat)
    requires rate <= |m|
    ensures Pending(m, rate, rate) == m[|m| - rate..]
  {
  }

  /** Between blocks the pending block is all zero, and so is its packing. */
  lemma PendingEmpty(m: seq<bv8>, rate: nat, bc: nat)
    requires rate == 4 * bc
    ensures PackWords(Pending(m, 0, rate), bc) == ZeroBlock(bc)
  {
    PackZeroFill([], Pending(m, 0, rate), bc);
    PackEmpty(bc);
  }

  /** PutByte at cursor i of a block holding the packing of p holds the packing of p with
      x ored into byte i, and leaves the carry word alone. */
  lemma PutBytePacks(b: seq<bv32>, p: seq<bv8>, px: seq<bv8>, bc: nat, i: nat, x: bv8)
    requires |b| == bc + 1 && |p| == 4 * bc && i < |p| && b[..bc] == PackWords(p, bc)
    requires px == p[i := p[i] | x]
    ensures PutByte(b, i, x)[..bc] == PackWords(px, bc)
    ensures PutByte(b, i, x)[bc] == b[bc]
  {
    PackOrByte(p, bc, i, x);
    assert b[i / 4] == b[..bc][i / 4];
  }

  // ---------------------------------------------------------------------------
  // The invariant

  /** h has absorbed the bytes m: its state words hold the lanes the reference sponge
      reaches after the whole blocks of m, the cursor is the length of the rest of m, and
      the staging block holds that rest, packed little-endian. Between blocks, finalize
      needs either lastByteIndex == byteCount (it then moves the carry word down) or a
      zero staging block with no byte written yet. */
  predicate Tracks(h: Hasher, m: seq<bv8>)
  {
    && Valid(h)
    && h.start == |m| % h.byteCount <= |m|
    && Lanes(h.state) == Absorb(ZeroState, m[..|m| - h.start], h.byteCount)
    && (h.start > 0 ==>
          && h.lastByteIndex == Some(h.start)
          && h.blocks[..h.blockCount] == PackWords(Pending(m, h.start, h.byteCount), h.blockCount))
    && (h.start == 0 ==>
          || h.lastByteIndex == Some(h.byteCount)
          || (h.lastByteIndex == None && h.blocks == ZeroBlock(h.blockCount + 1)))
  }

  /** At the head of a pass the staging block holds the unabsorbed rest of m and a zero
      carry word. */
  lemma BeginTracks(h: Hasher, m: seq<bv8>)
    requires Tracks(h, m)
    ensures Begin(h).blocks[..h.blockCount] == PackWords(Pending(m, h.start, h.byteCount), h.blockCount)
    ensures Begin(h).blocks[h.blockCount] == 0
  {
    if h.reset {
      PendingEmpty(m, h.byteCount, h.blockCount);
      assert Begin(h).blocks[..h.blockCount] == ZeroBlock(h.blockCount);
    }
  }

  /** The bytes before the cursor make whole blocks. */
  lemma WholeBlocks(n: nat, r: nat)
    requires r > 0
    ensures (n - n % r) % r == 0
  {
    Arith.DivModUnique(n - n % r, r, n / r, 0);
  }

  /** Absorbing a further whole block t after the whole blocks `full`. */
  lemma AbsorbOneMore(full: seq<bv8>, t: seq<bv8>, rate: nat)
    requires 0 < rate && |full| % rate == 0 && |t| == rate
    ensures Absorb(ZeroState, full + t, rate) == KeccakF(XorBlock(Absorb(ZeroState, full, rate), t))
  {
    AbsorbAppend(ZeroState, full, t, rate);
    AbsorbBlock(Absorb(ZeroState, full, rate), t, rate);
    assert t[..rate] == t && t[rate..] == [];
  }

  // ---------------------------------------------------------------------------
  // update

  /** update on one byte keeps the invariant: the byte joins the pending block, and when
      it completes the block, that block is absorbed exactly as the reference sponge
      absorbs it. */
  lemma AbsorbByteTracks(h: Hasher, m: seq<bv8>, x: bv8)
    requires Tracks(h, m)
    ensures Tracks(AbsorbByte(h, x), m + [x])
  {
    var b := PutByte(Begin(h).blocks, h.start, x);
    var px := Pending(m + [x], h.start + 1, h.byteCount);
    BeginTracks(h, m);
    PendingStep(m, h.start, h.byteCount, x);
    PutBytePacks(Begin(h).blocks, Pending(m, h.start, h.byteCount), px, h.blockCount, h.start, x);
    if h.start + 1 < h.byteCount {
      ByteWithinBlock(h, m, x, b, px);
    } else {
      ByteCompletesBlock(h, m, x, b, px);
    }
  }

  lemma ByteWithinBlock(h: Hasher, m: seq<bv8>, x: bv8, b: seq<bv32>, px: seq<bv8>)
    requires Tracks(h, m) && h.start + 1 < h.byteCount
    requires b == PutByte(Begin(h).blocks, h.start, x) && px == Pending(m + [x], h.start + 1, h.byteCount)
    requires b[..h.blockCount] == PackWords(px, h.blockCount) && b[h.blockCount] == 0
    ensures Tracks(AbsorbByte(h, x), m + [x])
  {
    AbsorbByteValid(h, x);
    AbsorbByteWithin(h, x);
    TracksWithin(h, m, x, AbsorbByte(h, x), px);
  }

  /** A byte that does not complete the block only writes the staging block and moves the
      cursor. */
  lemma AbsorbByteWithin(h: Hasher, x: bv8)
    requires Valid(h) && h.start + 1 < h.byteCount
    ensures AbsorbByte(h, x).state == h.state && AbsorbByte(h, x).start == h.start + 1
    ensures AbsorbByte(h, x).blocks == PutByte(Begin(h).blocks, h.start, x)
    ensures AbsorbByte(h, x).lastByteIndex == Some(h.start + 1)
  {
  }

  /** The tracking invariant for m + [x] from the one for m, given what a byte inside the
      block does to the hasher. */
  lemma TracksWithin(h: Hasher, m: seq<bv8>, x: bv8, r: Hasher, px: seq<bv8>)
    requires Tracks(h, m) && h.start + 1 < h.byteCount && Valid(r) && SameConfig(r, h)
    requires r.state == h.state && r.start == h.start + 1 && r.lastByteIndex == Some(h.start + 1)
    requires px == Pending(m + [x], h.start + 1, h.byteCount) && r.blocks[..h.blockCount] == PackWords(px, h.blockCount)
    ensures Tracks(r, m + [x])
  {
    var mx := m + [x];
    assert r.start == |mx| % r.byteCount by {
      Arith.AddWithinBlock(|m|, h.byteCount, 1);
    }
    assert mx[..|mx| - r.start] == m[..|m| - h.start] by {
      var k := |m| - h.start;
      assert |mx| - r.start == k;
      assert mx[..k] == m[..k];
    }
    TracksInsideBlock(r, mx);
  }

  /** Tracks for a hasher whose cursor is inside a block, from its parts. */
  lemma TracksInsideBlock(r: Hasher, mx: seq<bv8>)
    requires Valid(r) && 0 < r.start == |mx| % r.byteCount <= |mx|
    requires Lanes(r.state) == Absorb(ZeroState, mx[..|mx| - r.start], r.byteCount)
    requires r.lastByteIndex == Some(r.start)
    requires r.blocks[..r.blockCount] == PackWords(Pending(mx, r.start, r.byteCount), r.blockCount)
    ensures Tracks(r, mx)
  {
  }

  lemma ByteCompletesBlock(h: Hasher, m: seq<bv8>, x: bv8, b: seq<bv32>, px: seq<bv8>)
    requires Tracks(h, m) && h.start + 1 == h.byteCount
    requires b == PutByte(Begin(h).blocks, h.start, x) && px == Pending(m + [x], h.start + 1, h.byteCount)
    requires b[..h.blockCount] == PackWords(px, h.blockCount) && b[h.blockCount] == 0
    ensures Tracks(AbsorbByte(h, x), m + [x])
  {
    AbsorbByteValid(h, x);
    AbsorbByteCompletes(h, x);
    CompletedMessage(m, x, h.start, h.byteCount);
    LanesAfterBlock(h.state, m[..|m| - h.start], px, m + [x], h.blockCount, h.byteCount);
    TracksBetweenBlocks(AbsorbByte(h, x), m + [x], h.byteCount);
  }

  /** The message side of a completed block: the bytes before the cursor and the pending
      block, now full, make up all of m + [x], a whole number of blocks. */
  lemma CompletedMessage(m: seq<bv8>, x: bv8, s: nat, rate: nat)
    requires 0 < rate && s == |m| % rate <= |m| && s + 1 == rate
    ensures |m + [x]| % rate == 0 && |m[..|m| - s]| % rate == 0
    ensures m[..|m| - s] + Pending(m + [x], s + 1, rate) == m + [x]
  {
    Arith.CompleteByOne(|m|, |m + [x]|, rate);
    WholeBlocks(|m|, rate);
    PendingFull(m + [x], rate);
  }

  /** The byte that completes the block xors the staged block into the rate words and
      permutes. */
  lemma AbsorbByteCompletes(h: Hasher, x: bv8)
    requires Valid(h) && h.start + 1 == h.byteCount
    ensures AbsorbByte(h, x).state
         == KeccakPermutation(XorWords(h.state, PutByte(Begin(h).blocks, h.start, x)[..h.blockCount]))
  {
  }

  /** Absorbing the packed block px after the whole blocks `full`. */
  lemma LanesAfterBlock(s: WordState, full: seq<bv8>, px: seq<bv8>, m: seq<bv8>, bc: nat, rate: nat)
    requires 1 <= bc <= 50 && rate == 4 * bc && |full| % rate == 0 && |px| == rate && m == full + px
    requires Lanes(s) == Absorb(ZeroState, full, rate)
    ensures Lanes(KeccakPermutation(XorWords(s, PackWords(px, bc)))) == Absorb(ZeroState, m, rate)
  {
    PermutePackedBlock(s, px, bc);
    AbsorbOneMore(full, px, rate);
  }

  /** The invariant at a block boundary, where the staging block no longer matters. */
  lemma TracksBetweenBlocks(u: Hasher, m: seq<bv8>, rate: nat)
    requires Valid(u) && u.byteCount == rate && u.start == 0 && u.lastByteIndex == Some(rate)
    requires |m| % rate == 0 && Lanes(u.state) == Absorb(ZeroState, m, rate)
    ensures Tracks(u, m)
  {
    assert m[..|m| - 0] == m;
  }

  /** update on a whole byte string keeps the invariant, one byte at a time. */
  lemma {:induction false} UpdateRangeTracks(h: Hasher, m: seq<bv8>, x: seq<bv8>, k: nat)
    requires Tracks(h, m) && k <= |x|
    ensures Tracks(UpdateRange(h, x, 0, k), m + x[..k])
    decreases k
  {
    if k > 0 {
      UpdateRangeTracks(h, m, x, k - 1);
      PrefixStep(m, x, k);
      TracksStep(UpdateRange(h, x, 0, k - 1), m + x[..k - 1], x[k - 1], UpdateRange(h, x, 0, k), m + x[..k]);
    } else {
      assert m + x[..0] == m;
    }
  }

  /** Extending a prefix of x by one byte. */
  lemma PrefixStep(m: seq<bv8>, x: seq<bv8>, k: nat)
    requires 0 < k <= |x|
    ensures m + x[..k - 1] + [x[k - 1]] == m + x[..k]
  {
    assert x[..k] == x[..k - 1] + [x[k - 1]];
  }

  lemma TracksStep(u: Hasher, mu: seq<bv8>, x: bv8, u1: Hasher, m1: seq<bv8>)
    requires Tracks(u, mu) && u1 == AbsorbByte(u, x) && m1 == mu + [x]
    ensures Tracks(u1, m1)
  {
    AbsorbByteTracks(u, mu, x);
  }

  /** After update(x) the hasher has absorbed m + x. */
  lemma UpdateTracks(h: Hasher, m: seq<bv8>, x: seq<bv8>)
    requires Tracks(h, m)
    ensures Tracks(UpdateBytes(h, x), m + x)
  {
    UpdateRangeTracks(h, m, x, |x|);
    assert x[..|x|] == x;
  }

  /** A new hasher has absorbed nothing. */
  lemma NewTracks(bits: int, padding: seq<bv32>, outputBits: int)
    requires 1 <= RateWords(bits) <= 50 && |padding| == 4 && 0 <= outputBits < 0x8000_0000
    ensures Tracks(New(bits, padding, outputBits), [])
  {
    ClearedTracks(New(bits, padding, outputBits));
  }

  // ---------------------------------------------------------------------------
  // finalize

  /** The last block of the padded message: the pending block with the domain byte d
      ored in at the cursor and 0x80 ored into its last byte. */
  function LastBlock(p: seq<bv8>, s: nat, d: bv8): (l: seq<bv8>)
    requires s < |p|
    ensures |l| == |p|
  {
    var p1 := WithDomain(p, s, d);
    p1[|p| - 1 := p1[|p| - 1] | 0x80]
  }

  /** The pending block with the domain byte d ored in at the cursor s. */
  function WithDomain(p: seq<bv8>, s: nat, d: bv8): (p1: seq<bv8>)
    requires s < |p|
    ensures |p1| == |p|
  {
    p[s := p[s] | d]
  }

  /** pad10*1 of m is the whole blocks of m followed by the last block built from the
      pending bytes. */
  lemma PadSplit(m: seq<bv8>, s: nat, rate: nat, d: bv8)
    requires 0 < rate && s == |m| % rate <= |m|
    ensures |m[..|m| - s]| % rate == 0
    ensures Pad(m, rate, d) == m[..|m| - s] + LastBlock(Pending(m, s, rate), s, d)
  {
    WholeBlocks(|m|, rate);
    assert |Pad(m, rate, d)| == |m| - s + rate;
    forall j | 0 <= j < |Pad(m, rate, d)|
      ensures Pad(m, rate, d)[j] == (m[..|m| - s] + LastBlock(Pending(m, s, rate), s, d))[j]
    {
      PadAt(m, s, rate, d, j);
    }
  }

  lemma PadAt(m: seq<bv8>, s: nat, rate: nat, d: bv8, j: nat)
    requires 0 < rate && s == |m| % rate <= |m| && j < |m| - s + rate
    ensures j < |Pad(m, rate, d)|
    ensures Pad(m, rate, d)[j] == (m[..|m| - s] + LastBlock(Pending(m, s, rate), s, d))[j]
  {
    WholeBlocks(|m|, rate);
    if j >= |m| {
      PadTail(m, s, rate, d, j);
    } else {
      assert Pad(m, rate, d)[j] == Pad(m, rate, d)[..|m|][j];
    }
  }

  /** The bytes of pad10*1 past the message. */
  lemma PadTail(m: seq<bv8>, s: nat, rate: nat, d: bv8, j: nat)
    requires 0 < rate && s == |m| % rate <= |m| && |m| <= j < |m| + rate - s
    ensures Pad(m, rate, d)[j]
         == if j == |m| && j == |m| + rate - s - 1 then d | 0x80
            else if j == |m| then d
            else if j == |m| + rate - s - 1 then 0x80
            else 0
  {
  }


  /** With nothing pending, the domain byte lands alone in byte 0 of the block. */
  lemma FirstBytePacks(p: seq<bv8>, bc: nat, d: bv8)
    requires 1 <= bc && |p| == 4 * bc && PackWords(p, bc) == ZeroBlock(bc)
    ensures PackWords(WithDomain(p, 0, d), bc) == ZeroBlock(bc)[0 := d as bv32]
  {
    PackOrByte(p, bc, 0, d);
    assert WithDomain(p, 0, d) == p[0 := p[0] | d];
    assert 0 / 4 == 0 && 0 % 4 == 0 && Shift[0] == 0;
    assert PackWord(p, 0) == PackWords(p, bc)[0] == 0;
    assert PackWord(p, 0) | ((d as bv32) << Shift[0]) == d as bv32;
  }

  /** Between blocks finalize's staging block is the domain byte alone, whether the carry
      word is moved down after a full block or nothing was ever written. */
  lemma DomainBlockBetween(h: Hasher, d: bv8)
    requires Valid(h) && h.padding == DomainPadding(d) && h.start == 0
    requires || h.lastByteIndex == Some(h.byteCount)
             || (h.lastByteIndex == None && h.blocks == ZeroBlock(h.blockCount + 1))
    ensures DomainBlock(h)[..h.blockCount] == ZeroBlock(h.blockCount)[0 := d as bv32]
  {
    if h.lastByteIndex == Some(h.byteCount) {
      assert h.byteCount / 4 == h.blockCount && h.byteCount % 4 == 0;
    }
  }

  /** Inside a block finalize ors the domain byte in at the cursor, as update would. */
  lemma DomainBlockCursor(h: Hasher, d: bv8)
    requires Valid(h) && h.padding == DomainPadding(d) && h.lastByteIndex == Some(h.start)
    ensures DomainBlock(h) == PutByte(h.blocks, h.start, d)
  {
  }

  /** finalize ors the domain byte into the pending block at the cursor. */
  lemma DomainBlockPacks(h: Hasher, m: seq<bv8>, d: bv8)
    requires Tracks(h, m) && h.padding == DomainPadding(d)
    ensures DomainBlock(h)[..h.blockCount] == PackWords(WithDomain(Pending(m, h.start, h.byteCount), h.start, d), h.blockCount)
  {
    if h.start > 0 {
      DomainBlockCursor(h, d);
      PutBytePacks(h.blocks, Pending(m, h.start, h.byteCount), WithDomain(Pending(m, h.start, h.byteCount), h.start, d),
                   h.blockCount, h.start, d);
    } else {
      PendingEmpty(m, h.byteCount, h.blockCount);
      FirstBytePacks(Pending(m, 0, h.byteCount), h.blockCount, d);
      DomainBlockBetween(h, d);
    }
  }

  /** Setting the top bit of the last rate word packs byte 0x80 into the last byte. */
  lemma FinalBitPacks(b: seq<bv32>, fb: seq<bv32>, p1: seq<bv8>, bc: nat, rate: nat, d: bv8, s: nat, p: seq<bv8>)
    requires 1 <= bc && |b| == bc + 1 && rate == 4 * bc && |p| == rate && s < rate
    requires p1 == WithDomain(p, s, d) && b[..bc] == PackWords(p1, bc)
    requires fb == b[bc - 1 := b[bc - 1] | 0x8000_0000]
    ensures fb[..bc] == PackWords(LastBlock(p, s, d), bc)
  {
    assert (rate - 1) / 4 == bc - 1 && (rate - 1) % 4 == 3;
    assert Shift[3] == 24;
    assert ((0x80 as bv8) as bv32) << 24 == 0x8000_0000;
    assert fb == PutByte(b, rate - 1, 0x80);
    PutBytePacks(b, p1, LastBlock(p, s, d), bc, rate - 1, 0x80);
  }

  /** finalize's staging block is the domain block with the final bit set. */
  lemma FinalBlockBit(h: Hasher)
    requires Valid(h)
    ensures FinalBlock(h) == DomainBlock(h)[h.blockCount - 1 := DomainBlock(h)[h.blockCount - 1] | 0x8000_0000]
  {
  }

  /** finalize's staging block holds the packed last block of pad10*1. */
  lemma FinalBlockPacks(h: Hasher, m: seq<bv8>, d: bv8)
    requires Tracks(h, m) && h.padding == DomainPadding(d)
    ensures FinalBlock(h)[..h.blockCount] == PackWords(LastBlock(Pending(m, h.start, h.byteCount), h.start, d), h.blockCount)
  {
    var bc, p := h.blockCount, Pending(m, h.start, h.byteCount);
    var p1, db := WithDomain(p, h.start, d), DomainBlock(h);
    assert db[..bc] == PackWords(p1, bc) by {
      DomainBlockPacks(h, m, d);
    }
    assert FinalBlock(h) == db[bc - 1 := db[bc - 1] | 0x8000_0000] by {
      FinalBlockBit(h);
    }
    FinalBitPacks(db, FinalBlock(h), p1, bc, h.byteCount, d, h.start, p);
  }

  /** finalize leaves the state of the reference sponge after absorbing pad10*1 of
      everything the hasher was given. */
  lemma FinalizeAbsorbs(h: Hasher, m: seq<bv8>, d: bv8)
    requires Tracks(h, m) && h.padding == DomainPadding(d)
    ensures Lanes(Finalize(h).state) == Absorb(ZeroState, Pad(m, h.byteCount, d), h.byteCount)
  {
    FinalBlockPacks(h, m, d);
    PadSplit(m, h.start, h.byteCount, d);
    LanesAfterBlock(h.state, m[..|m| - h.start], LastBlock(Pending(m, h.start, h.byteCount), h.start, d),
                    Pad(m, h.byteCount, d), h.blockCount, h.byteCount);
  }

  // ---------------------------------------------------------------------------
  // digest

  /** The first L bytes of the first n words are the first L bytes of all of them. */
  lemma WordsToBytesPrefix(ws: seq<bv32>, n: nat, len: nat)
    requires n <= |ws| && len <= 4 * n
    ensures WordsToBytes(ws[..n])[..len] == WordsToBytes(ws)[..len]
  {
    forall j | 0 <= j < len
      ensures WordsToBytes(ws[..n])[..len][j] == WordsToBytes(ws)[..len][j]
    {
      WordsToBytesPrefixAt(ws, n, len, j);
    }
  }

  lemma WordsToBytesPrefixAt(ws: seq<bv32>, n: nat, len: nat, j: nat)
    requires n <= |ws| && len <= 4 * n && j < len
    ensures WordsToBytes(ws[..n])[..len][j] == WordsToBytes(ws)[..len][j]
  {
    assert j / 4 < n;
    assert ws[..n][j / 4] == ws[j / 4];
    assert WordsToBytes(ws[..n])[j] == WordsToBytes(ws)[j];
  }

  /** At most one block of output: the first len bytes of the state words are what the
      reference sponge squeezes from their lanes. */
  lemma SqueezeShort(ws: seq<bv32>, a: State, n: nat, len: nat, rate: nat)
    requires |ws| == 50 && Lanes(ws) == a && n <= 50 && len <= 4 * n && 0 < rate <= 200 && len <= rate
    ensures WordsToBytes(ws[..n])[..len] == Squeeze(a, rate, len)
  {
    WordsToBytesPrefix(ws, n, len);
    StateBytesWords(ws);
  }

  /** A cleared hasher with no byte index recorded has absorbed nothing. */
  lemma ClearedTracks(u: Hasher)
    requires Valid(u) && Cleared(u) && u.lastByteIndex == None
    ensures Tracks(u, [])
  {
    var e: seq<bv8> := [];
    LanesZero();
    assert e[..0] == e;
  }

  /** When the output is at most a block, digest returns the hash of everything
      absorbed: Keccak with the hasher's rate and domain byte. */
  lemma DigestIsHash(h: Hasher, m: seq<bv8>, d: bv8)
    requires Tracks(h, m) && h.padding == DomainPadding(d) && h.outputBits / 8 <= h.byteCount
    ensures Digest(h).1 == Hash(m, h.byteCount, d, h.outputBits / 8)
  {
    DigestShortOutput(h);
    OutputBytesCount(h);
    FinalizeAbsorbs(h, m, d);
    SqueezeShort(Finalize(h).state, Absorb(ZeroState, Pad(m, h.byteCount, d), h.byteCount),
                 OutputWordCount(h), h.outputBits / 8, h.byteCount);
  }

  /** The intended digest returns the hash of everything absorbed for every output
      length, and leaves a hasher that has absorbed nothing. */
  lemma DigestSqueezeIsHash(h: Hasher, m: seq<bv8>, d: bv8)
    requires Tracks(h, m) && h.padding == DomainPadding(d)
    ensures DigestSqueeze(h).1 == Hash(m, h.byteCount, d, h.outputBits / 8)
    ensures Tracks(DigestSqueeze(h).0, [])
  {
    FinalizeAbsorbs(h, m, d);
    ClearedTracks(DigestSqueeze(h).0);
  }

  /** When the output is at most a block the written and the intended digest
      agree. */
  lemma DigestSqueezeAgrees(h: Hasher)
    requires Valid(h) && h.outputBits / 8 <= h.byteCount
    ensures DigestSqueeze(h).1 == Digest(h).1
  {
    DigestShortOutput(h);
    OutputBytesCount(h);
    SqueezeShort(Finalize(h).state, Lanes(Finalize(h).state), OutputWordCount(h), h.outputBits / 8, h.byteCount);
  }

  /** A cleared hasher, whatever lastByteIndex it kept, has absorbed x after update(x)
      for any non-empty x: the first byte overwrites the stale index. */
  lemma UpdateAfterClearTracks(u: Hasher, x: seq<bv8>)
    requires Valid(u) && Cleared(u) && |x| > 0
    ensures Tracks(UpdateBytes(u, x), x)
  {
    var u0 := u.(lastByteIndex := None);
    ClearedTracks(u0);
    UpdateTracks(u0, [], x);
    assert [] + x == x;
    UpdateIgnoresIndex(u0, u.lastByteIndex, x);
    assert u0.(lastByteIndex := u.lastByteIndex) == u;
  }

  /** The object digest leaves, given a non-empty x, has absorbed exactly x. */
  lemma UpdateAfterDigestTracks(h: Hasher, x: seq<bv8>)
    requires Valid(h) && |x| > 0
    ensures Tracks(UpdateBytes(Digest(h).0, x), x)
  {
    UpdateAfterClearTracks(Digest(h).0, x);
  }

  /** The object reset leaves, given a non-empty x, has absorbed exactly x. */
  lemma UpdateAfterResetTracks(h: Hasher, x: seq<bv8>)
    requires Valid(h) && |x| > 0
    ensures Tracks(UpdateBytes(Reset(h), x), x)
  {
    UpdateAfterClearTracks(Reset(h), x);
  }

  /** Reusing an object after digest: the next digest of a non-empty x is the hash of x
      alone (for outputs of at most a block). */
  lemma DigestAfterDigest(h: Hasher, x: seq<bv8>, d: bv8)
    requires Valid(h) && h.padding == DomainPadding(d) && h.outputBits / 8 <= h.byteCount && |x| > 0
    ensures Valid(UpdateBytes(Digest(h).0, x))
    ensures Digest(UpdateBytes(Digest(h).0, x)).1 == Hash(x, h.byteCount, d, h.outputBits / 8)
  {
    var u := UpdateBytes(Digest(h).0, x);
    UpdateAfterDigestTracks(h, x);
    UpdateRangeValid(Digest(h).0, x, 0, |x|);
    DigestIsHash(u, x, d);
  }

  // ---------------------------------------------------------------------------
  // The whole class

  /** A fresh hasher with the Keccak padding, given msg and asked for at most a block of
      output, returns Keccak of msg with rate 4 * blockCount bytes and domain byte 0x01. */
  lemma DigestOfMessage(bits: int, outputBits: int, msg: seq<bv8>)
    requires 1 <= RateWords(bits) <= 50 && 0 <= outputBits < 0x8000_0000
    requires outputBits / 8 <= 4 * RateWords(bits)
    ensures Valid(UpdateBytes(New(bits, KeccakPadding, outputBits), msg))
    ensures Digest(UpdateBytes(New(bits, KeccakPadding, outputBits), msg)).1
         == Hash(msg, 4 * RateWords(bits), 0x01, outputBits / 8)
  {
    NewTracks(bits, KeccakPadding, outputBits);
    UpdateTracks(New(bits, KeccakPadding, outputBits), [], msg);
    assert [] + msg == msg;
    KeccakPaddingDomain();
    UpdateRangeValid(New(bits, KeccakPadding, outputBits), msg, 0, |msg|);
    DigestIsHash(UpdateBytes(New(bits, KeccakPadding, outputBits), msg), msg, 0x01);
  }

  /** Streaming: a message given in two updates hashes as the concatenation. */
  lemma DigestOfParts(bits: int, outputBits: int, a: seq<bv8>, b: seq<bv8>)
    requires 1 <= RateWords(bits) <= 50 && 0 <= outputBits < 0x8000_0000
    requires outputBits / 8 <= 4 * RateWords(bits)
    ensures Valid(UpdateBytes(UpdateBytes(New(bits, KeccakPadding, outputBits), a), b))
    ensures Digest(UpdateBytes(UpdateBytes(New(bits, KeccakPadding, outputBits), a), b)).1
         == Hash(a + b, 4 * RateWords(bits), 0x01, outputBits / 8)
  {
    UpdateAppend(New(bits, KeccakPadding, outputBits), a, b);
    DigestOfMessage(bits, outputBits, a + b);
  }
}
