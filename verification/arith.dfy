/** Euclidean division facts the byte-cursor arithmetic of the sponge relies on. */
module Arith {

  lemma MulAtLeast(r: int, k: int)
    requires r > 0 && k >= 1
    ensures r * k >= r
  {
    if k > 1 {
      MulAtLeast(r, k - 1);
      assert r * k == r * (k - 1) + r;
    }
  }

  /** Quotient and remainder are determined by n == r * q + m with 0 <= m < r. */
  lemma DivModUnique(n: int, r: int, q: int, m: int)
    requires r > 0 && 0 <= m < r && n == r * q + m
    ensures n / r == q && n % r == m
  {
    var q', m' := n / r, n % r;
    assert n == r * q' + m';
    assert r * q' - r * q == m - m';
    if q' > q {
      MulAtLeast(r, q' - q);
    } else if q' < q {
      MulAtLeast(r, q - q');
    }
  }

  /** Adding one more block of r keeps the remainder and adds one to the quotient. */
  lemma AddDivisor(n: int, r: int)
    requires r > 0
    ensures (n + r) % r == n % r && (n + r) / r == n / r + 1
  {
    DivModUnique(n + r, r, n / r + 1, n % r);
  }

  /** Taking one block of r away keeps the remainder. */
  lemma SubDivisor(n: int, r: int)
    requires r > 0
    ensures (n - r) % r == n % r
  {
    var k := n - r;
    AddDivisor(k, r);
    assert k + r == n;
  }

  /** Adding fewer bytes than remain in the current block stays in that block. */
  lemma AddWithinBlock(n: int, r: int, j: int)
    requires r > 0 && 0 <= j && n % r + j < r
    ensures (n + j) % r == n % r + j && (n + j) / r == n / r
  {
    DivModUnique(n + j, r, n / r, n % r + j);
  }

  /** Completing the current block gives remainder zero and the next quotient. */
  lemma CompleteBlock(n: int, r: int)
    requires r > 0
    ensures (n + (r - n % r)) % r == 0 && (n + (r - n % r)) / r == n / r + 1
  {
    DivModUnique(n + (r - n % r), r, n / r + 1, 0);
  }

  /** One more element completes the block exactly when one was missing. */
  lemma CompleteByOne(n: int, n1: int, r: int)
    requires r > 0 && n % r + 1 == r && n1 == n + 1
    ensures n1 % r == 0
  {
    CompleteBlock(n, r);
  }

  /** ToInt32 on an integer, as JavaScript's shift operators apply it to their operands
      and results: the residue modulo 2^32 taken in -2^31 .. 2^31 - 1. */
  function Int32(x: int): (r: int)
    ensures -0x8000_0000 <= r < 0x8000_0000
    ensures (x - r) % 0x1_0000_0000 == 0
  {
    var q := (x + 0x8000_0000) / 0x1_0000_0000;
    DivModUnique(x - ((x + 0x8000_0000) % 0x1_0000_0000 - 0x8000_0000), 0x1_0000_0000, q, 0);
    (x + 0x8000_0000) % 0x1_0000_0000 - 0x8000_0000
  }

  /** A value that fits in 32 signed bits is its own ToInt32. */
  lemma Int32Fits(x: int)
    requires -0x8000_0000 <= x < 0x8000_0000
    ensures Int32(x) == x
  {
    DivModUnique(x + 0x8000_0000, 0x1_0000_0000, 0, x + 0x8000_0000);
  }

  /** ToInt32 forgets whole multiples of 2^32. */
  lemma Int32Periodic(x: int)
    ensures Int32(x + 0x1_0000_0000) == Int32(x)
  {
    AddDivisor(x + 0x8000_0000, 0x1_0000_0000);
  }
}
