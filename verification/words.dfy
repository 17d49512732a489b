/** Bit-vector and byte-order helpers shared by the 64-bit reference Keccak and the
    32-bit word model of the sponge.

    The 32-bit model keeps the 64-bit lane number k of the Keccak state in two words:
    word 2k holds its low half and word 2k+1 its high half. Bytes are packed
    little-endian, both into 32-bit words (the staging block) and into 64-bit lanes
    (FIPS 202, Appendix B.1). */
module Words {

  /** The 64-bit lane whose low half is `lo` and whose high half is `hi`. */
  function Join(lo: bv32, hi: bv32): bv64 {
    ((hi as bv64) << 32) | (lo as bv64)
  }

  function Lo(x: bv64): bv32 {
    (x & 0xFFFF_FFFF) as bv32
  }

  function Hi(x: bv64): bv32 {
    (x >> 32) as bv32
  }

  lemma JoinSplit(x: bv64)
    ensures Join(Lo(x), Hi(x)) == x
  {
  }

  lemma SplitJoin(lo: bv32, hi: bv32)
    ensures Lo(Join(lo, hi)) == lo
    ensures Hi(Join(lo, hi)) == hi
  {
  }

  // The lane algebra below is stated through named operations rather than the bare
  // operators, so that a proof combining several of these facts can match them term by
  // term instead of re-deriving them bit by bit.

  function Xor32(a: bv32, b: bv32): bv32 { a ^ b }

  function Xor64(a: bv64, b: bv64): bv64 { a ^ b }

  /** The chi combination x ^ (!y & z) on words and on lanes. */
  function Chi32(x: bv32, y: bv32, z: bv32): bv32 { x ^ (!y & z) }

  function Chi64(x: bv64, y: bv64, z: bv64): bv64 { x ^ (!y & z) }

  /** Joining commutes with exclusive or. */
  lemma JoinXor(a: bv32, b: bv32, c: bv32, d: bv32)
    ensures Join(Xor32(a, c), Xor32(b, d)) == Xor64(Join(a, b), Join(c, d))
  {
  }

  /** Joining commutes with the chi combination. */
  lemma JoinChi(a: bv32, b: bv32, c: bv32, d: bv32, e: bv32, f: bv32)
    ensures Join(Chi32(a, c, e), Chi32(b, d, f)) == Chi64(Join(a, b), Join(c, d), Join(e, f))
  {
  }

  /** n zero words. */
  function ZeroBlock(n: nat): (z: seq<bv32>)
    ensures |z| == n && forall i :: 0 <= i < n ==> z[i] == 0
  {
    seq(n, i => 0)
  }

  /** The 25 lanes held by a 50-word state. */
  function Lanes(ws: seq<bv32>): (r: seq<bv64>)
    requires |ws| == 50
    ensures |r| == 25
  {
    seq(25, k requires 0 <= k < 25 => Join(ws[2 * k], ws[2 * k + 1]))
  }

  /** Lane k of the lanes of ws, as a fact the solver can use directly. */
  lemma LaneAt(ws: seq<bv32>, k: nat)
    requires |ws| == 50 && k < 25
    ensures Lanes(ws)[k] == Join(ws[2 * k], ws[2 * k + 1])
  {
  }

  /** Lanes loses nothing: two word states with the same lanes are equal. */
  lemma LanesInjective(v: seq<bv32>, w: seq<bv32>)
    requires |v| == 50 && |w| == 50
    requires Lanes(v) == Lanes(w)
    ensures v == w
  {
    forall i | 0 <= i < 50
      ensures v[i] == w[i]
    {
      var k := i / 2;
      assert i == 2 * k || i == 2 * k + 1;
      LaneAt(v, k);
      LaneAt(w, k);
      SplitJoin(v[2 * k], v[2 * k + 1]);
      SplitJoin(w[2 * k], w[2 * k + 1]);
    }
  }

  // ---------------------------------------------------------------------------
  // Bytes

  /** Byte j of m, or zero past its end (the zero fill of a fresh buffer). */
  function ByteAt(m: seq<bv8>, j: int): bv8 {
    if 0 <= j < |m| then m[j] else 0
  }

  /** The little-endian 32-bit word of four bytes. */
  function WordOf(b0: bv8, b1: bv8, b2: bv8, b3: bv8): bv32 {
    (b0 as bv32) | ((b1 as bv32) << 8) | ((b2 as bv32) << 16) | ((b3 as bv32) << 24)
  }

  /** Byte t (0 = least significant) of a 32-bit word. */
  function ByteOf(w: bv32, t: nat): bv8
    requires t < 4
  {
    if t == 0 then (w & 0xFF) as bv8
    else if t == 1 then ((w >> 8) & 0xFF) as bv8
    else if t == 2 then ((w >> 16) & 0xFF) as bv8
    else (w >> 24) as bv8
  }

  lemma ByteOfWordOf(b0: bv8, b1: bv8, b2: bv8, b3: bv8)
    ensures ByteOf(WordOf(b0, b1, b2, b3), 0) == b0
    ensures ByteOf(WordOf(b0, b1, b2, b3), 1) == b1
    ensures ByteOf(WordOf(b0, b1, b2, b3), 2) == b2
    ensures ByteOf(WordOf(b0, b1, b2, b3), 3) == b3
  {
  }

  /** Word w of the little-endian packing of m, reading zero past the end of m. */
  function PackWord(m: seq<bv8>, w: nat): bv32 {
    WordOf(ByteAt(m, 4 * w), ByteAt(m, 4 * w + 1), ByteAt(m, 4 * w + 2), ByteAt(m, 4 * w + 3))
  }

  /** The first n words of the little-endian packing of m. */
  function PackWords(m: seq<bv8>, n: nat): (r: seq<bv32>)
    ensures |r| == n
  {
    seq(n, w requires 0 <= w < n => PackWord(m, w))
  }

  /** The four little-endian bytes of a word. */
  function WordBytes(w: bv32): (r: seq<bv8>)
    ensures |r| == 4
  {
    [ByteOf(w, 0), ByteOf(w, 1), ByteOf(w, 2), ByteOf(w, 3)]
  }

  /** The little-endian byte string of a word sequence. */
  function WordsToBytes(ws: seq<bv32>): (r: seq<bv8>)
    ensures |r| == 4 * |ws|
    ensures forall j :: 0 <= j < |r| ==> r[j] == ByteOf(ws[j / 4], j % 4)
  {
    if |ws| == 0 then [] else WordsToBytes(ws[..|ws| - 1]) + WordBytes(ws[|ws| - 1])
  }

  /** Unpacking the words then packing the bytes again gives the words back. */
  lemma PackWordsToBytes(ws: seq<bv32>)
    ensures PackWords(WordsToBytes(ws), |ws|) == ws
  {
    var m := WordsToBytes(ws);
    forall w | 0 <= w < |ws|
      ensures PackWord(m, w) == ws[w]
    {
      WordsToBytesAt(ws, w, 0);
      WordsToBytesAt(ws, w, 1);
      WordsToBytesAt(ws, w, 2);
      WordsToBytesAt(ws, w, 3);
      WordOfBytes(ws[w]);
    }
  }

  lemma WordsToBytesAt(ws: seq<bv32>, w: nat, t: nat)
    requires w < |ws| && t < 4
    ensures ByteAt(WordsToBytes(ws), 4 * w + t) == ByteOf(ws[w], t)
  {
    assert (4 * w + t) / 4 == w && (4 * w + t) % 4 == t;
  }

  lemma WordOfBytes(x: bv32)
    ensures WordOf(ByteOf(x, 0), ByteOf(x, 1), ByteOf(x, 2), ByteOf(x, 3)) == x
  {
  }

  /** Packing then unpacking n words gives back the first 4n bytes, zero-filled. */
  lemma WordsToBytesPack(m: seq<bv8>, n: nat)
    ensures forall j :: 0 <= j < 4 * n ==> WordsToBytes(PackWords(m, n))[j] == ByteAt(m, j)
  {
    forall j | 0 <= j < 4 * n
      ensures WordsToBytes(PackWords(m, n))[j] == ByteAt(m, j)
    {
      WordsToBytesPackAt(m, n, j, j / 4, j % 4);
    }
  }

  lemma WordsToBytesPackAt(m: seq<bv8>, n: nat, j: nat, w: nat, t: nat)
    requires j < 4 * n && w == j / 4 && t == j % 4
    ensures WordsToBytes(PackWords(m, n))[j] == ByteAt(m, j)
  {
    assert j == 4 * w + t;
    assert PackWords(m, n)[w] == PackWord(m, w);
    ByteOfWordOf(ByteAt(m, 4 * w), ByteAt(m, 4 * w + 1), ByteAt(m, 4 * w + 2), ByteAt(m, 4 * w + 3));
  }
  // ---------------------------------------------------------------------------
  // Writing single bytes into packed words

  /** SHIFT: the left shift that puts a byte at position t (0 = least significant) of a
      word. */
  const Shift: seq<bv32> := [0, 8, 16, 24]

  /** Word w of the packing of m, from its four bytes. */
  lemma PackWordIs(m: seq<bv8>, w: nat, c0: bv8, c1: bv8, c2: bv8, c3: bv8)
    requires ByteAt(m, 4 * w) == c0 && ByteAt(m, 4 * w + 1) == c1
    requires ByteAt(m, 4 * w + 2) == c2 && ByteAt(m, 4 * w + 3) == c3
    ensures PackWord(m, w) == WordOf(c0, c1, c2, c3)
  {
  }

  /** Or-ing x into byte i of m changes only byte i. */
  lemma ByteAtOr(m: seq<bv8>, i: nat, x: bv8, j: int)
    requires i < |m|
    ensures ByteAt(m[i := m[i] | x], j) == if j == i then ByteAt(m, j) | x else ByteAt(m, j)
  {
  }

  // Or-ing a shifted byte into a word ors it into that byte of the word, one lemma per
  // byte position.

  lemma WordOr0(b0: bv8, b1: bv8, b2: bv8, b3: bv8, x: bv8, y: bv32)
    requires y == WordOf(b0 | x, b1, b2, b3)
    ensures y == WordOf(b0, b1, b2, b3) | ((x as bv32) << Shift[0])
  {
  }

  lemma WordOr1(b0: bv8, b1: bv8, b2: bv8, b3: bv8, x: bv8, y: bv32)
    requires y == WordOf(b0, b1 | x, b2, b3)
    ensures y == WordOf(b0, b1, b2, b3) | ((x as bv32) << Shift[1])
  {
  }

  lemma WordOr2(b0: bv8, b1: bv8, b2: bv8, b3: bv8, x: bv8, y: bv32)
    requires y == WordOf(b0, b1, b2 | x, b3)
    ensures y == WordOf(b0, b1, b2, b3) | ((x as bv32) << Shift[2])
  {
  }

  lemma WordOr3(b0: bv8, b1: bv8, b2: bv8, b3: bv8, x: bv8, y: bv32)
    requires y == WordOf(b0, b1, b2, b3 | x)
    ensures y == WordOf(b0, b1, b2, b3) | ((x as bv32) << Shift[3])
  {
  }

  /** Or-ing x into byte i of m ors x << SHIFT[i % 4] into word i / 4 of its packing. */
  lemma PackWordOrAt(m: seq<bv8>, i: nat, x: bv8)
    requires i < |m|
    ensures PackWord(m[i := m[i] | x], i / 4) == PackWord(m, i / 4) | ((x as bv32) << Shift[i % 4])
  {
    var t := i % 4;
    if t == 0 {
      PackWordOr0(m, i, x);
    } else if t == 1 {
      PackWordOr1(m, i, x);
    } else if t == 2 {
      PackWordOr2(m, i, x);
    } else {
      PackWordOr3(m, i, x);
    }
  }

  lemma PackWordOr0(m: seq<bv8>, i: nat, x: bv8)
    requires i < |m| && i % 4 == 0
    ensures PackWord(m[i := m[i] | x], i / 4) == PackWord(m, i / 4) | ((x as bv32) << Shift[i % 4])
  {
    var m' := m[i := m[i] | x];
    var w := i / 4;
    assert i == 4 * w + 0;
    ByteAtOr(m, i, x, 4 * w);
    ByteAtOr(m, i, x, 4 * w + 1);
    ByteAtOr(m, i, x, 4 * w + 2);
    ByteAtOr(m, i, x, 4 * w + 3);
    var b0, b1, b2, b3 := ByteAt(m, 4 * w), ByteAt(m, 4 * w + 1), ByteAt(m, 4 * w + 2), ByteAt(m, 4 * w + 3);
    PackWordIs(m', w, ByteAt(m', 4 * w), ByteAt(m', 4 * w + 1), ByteAt(m', 4 * w + 2), ByteAt(m', 4 * w + 3));
    PackWordIs(m, w, b0, b1, b2, b3);
    WordOr0(b0, b1, b2, b3, x, PackWord(m', w));
  }

  lemma PackWordOr1(m: seq<bv8>, i: nat, x: bv8)
    requires i < |m| && i % 4 == 1
    ensures PackWord(m[i := m[i] | x], i / 4) == PackWord(m, i / 4) | ((x as bv32) << Shift[i % 4])
  {
    var m' := m[i := m[i] | x];
    var w := i / 4;
    assert i == 4 * w + 1;
    ByteAtOr(m, i, x, 4 * w);
    ByteAtOr(m, i, x, 4 * w + 1);
    ByteAtOr(m, i, x, 4 * w + 2);
    ByteAtOr(m, i, x, 4 * w + 3);
    var b0, b1, b2, b3 := ByteAt(m, 4 * w), ByteAt(m, 4 * w + 1), ByteAt(m, 4 * w + 2), ByteAt(m, 4 * w + 3);
    PackWordIs(m', w, ByteAt(m', 4 * w), ByteAt(m', 4 * w + 1), ByteAt(m', 4 * w + 2), ByteAt(m', 4 * w + 3));
    PackWordIs(m, w, b0, b1, b2, b3);
    WordOr1(b0, b1, b2, b3, x, PackWord(m', w));
  }

  lemma PackWordOr2(m: seq<bv8>, i: nat, x: bv8)
    requires i < |m| && i % 4 == 2
    ensures PackWord(m[i := m[i] | x], i / 4) == PackWord(m, i / 4) | ((x as bv32) << Shift[i % 4])
  {
    var m' := m[i := m[i] | x];
    var w := i / 4;
    assert i == 4 * w + 2;
    ByteAtOr(m, i, x, 4 * w);
    ByteAtOr(m, i, x, 4 * w + 1);
    ByteAtOr(m, i, x, 4 * w + 2);
    ByteAtOr(m, i, x, 4 * w + 3);
    var b0, b1, b2, b3 := ByteAt(m, 4 * w), ByteAt(m, 4 * w + 1), ByteAt(m, 4 * w + 2), ByteAt(m, 4 * w + 3);
    PackWordIs(m', w, ByteAt(m', 4 * w), ByteAt(m', 4 * w + 1), ByteAt(m', 4 * w + 2), ByteAt(m', 4 * w + 3));
    PackWordIs(m, w, b0, b1, b2, b3);
    WordOr2(b0, b1, b2, b3, x, PackWord(m', w));
  }

  lemma PackWordOr3(m: seq<bv8>, i: nat, x: bv8)
    requires i < |m| && i % 4 == 3
    ensures PackWord(m[i := m[i] | x], i / 4) == PackWord(m, i / 4) | ((x as bv32) << Shift[i % 4])
  {
    var m' := m[i := m[i] | x];
    var w := i / 4;
    assert i == 4 * w + 3;
    ByteAtOr(m, i, x, 4 * w);
    ByteAtOr(m, i, x, 4 * w + 1);
    ByteAtOr(m, i, x, 4 * w + 2);
    ByteAtOr(m, i, x, 4 * w + 3);
    var b0, b1, b2, b3 := ByteAt(m, 4 * w), ByteAt(m, 4 * w + 1), ByteAt(m, 4 * w + 2), ByteAt(m, 4 * w + 3);
    PackWordIs(m', w, ByteAt(m', 4 * w), ByteAt(m', 4 * w + 1), ByteAt(m', 4 * w + 2), ByteAt(m', 4 * w + 3));
    PackWordIs(m, w, b0, b1, b2, b3);
    WordOr3(b0, b1, b2, b3, x, PackWord(m', w));
  }

  /** A word of the packing of m that does not hold byte i is unchanged by writing it. */
  lemma PackWordOther(m: seq<bv8>, i: nat, x: bv8, w: nat)
    requires i < |m| && w != i / 4
    ensures PackWord(m[i := m[i] | x], w) == PackWord(m, w)
  {
    assert i < 4 * w || 4 * w + 3 < i;
    ByteAtOr(m, i, x, 4 * w);
    ByteAtOr(m, i, x, 4 * w + 1);
    ByteAtOr(m, i, x, 4 * w + 2);
    ByteAtOr(m, i, x, 4 * w + 3);
  }

  /** Or-ing x into byte i of m ors x << SHIFT[i % 4] into word i / 4 of its packing and
      leaves every other word alone. */
  lemma PackOrByte(m: seq<bv8>, n: nat, i: nat, x: bv8)
    requires i < |m| && i < 4 * n
    ensures PackWords(m[i := m[i] | x], n)
         == PackWords(m, n)[i / 4 := PackWord(m, i / 4) | ((x as bv32) << Shift[i % 4])]
  {
    forall w | 0 <= w < n
      ensures PackWord(m[i := m[i] | x], w)
           == if w == i / 4 then PackWord(m, w) | ((x as bv32) << Shift[i % 4]) else PackWord(m, w)
    {
      if w == i / 4 {
        PackWordOrAt(m, i, x);
      } else {
        PackWordOther(m, i, x, w);
      }
    }
  }

  /** Zero bytes after the end of m do not change its packing. */
  lemma PackZeroFill(m: seq<bv8>, z: seq<bv8>, n: nat)
    requires |m| <= |z| && z[..|m|] == m
    requires forall j :: |m| <= j < |z| ==> z[j] == 0
    ensures PackWords(z, n) == PackWords(m, n)
  {
    forall j | 0 <= j
      ensures ByteAt(z, j) == ByteAt(m, j)
    {
      if j < |m| {
        assert z[j] == z[..|m|][j];
      }
    }
  }
}
