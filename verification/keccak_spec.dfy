/** Reference Keccak-f[1600] and the byte-oriented Keccak sponge, written from FIPS 202
    on 64-bit lanes. Nothing here follows the 32-bit split of the implementation: this
    module is the independent definition the word-level model is proved against. */
module KeccakSpec {
  import opened Words
  import Arith

  /** A Keccak-f[1600] state of 25 lanes; lane x + 5y is A[x, y] (FIPS 202, section 3.1.2). */
  type State = a: seq<bv64> | |a| == 25 witness ZeroState

  const ZeroState: seq<bv64> := ZeroLanes(25)

  /** n zero lanes. */
  function ZeroLanes(n: nat): (z: seq<bv64>)
    ensures |z| == n && forall i :: 0 <= i < n ==> z[i] == 0
  {
    seq(n, i => 0)
  }

  /** Number of rounds of Keccak-f[1600]: 12 + 2l with l = 6 (FIPS 202, section 3.3). */
  const NumRounds: nat := 24


  /** Left rotation of a lane: bit z moves to bit (z + n) mod 64. */
  function Rot(v: bv64, n: bv8): bv64
    requires n < 64
  {
    if n == 0 then v else (v << n) | (v >> (64 - n))
  }

  /** A lane index is one of 0 .. 24: a case split for proofs that go lane by lane. */
  lemma LaneCases(k: nat)
    requires k < 25
    ensures k == 0 || k == 1 || k == 2 || k == 3 || k == 4 || k == 5 || k == 6 || k == 7 ||
            k == 8 || k == 9 || k == 10 || k == 11 || k == 12 || k == 13 || k == 14 ||
            k == 15 || k == 16 || k == 17 || k == 18 || k == 19 || k == 20 || k == 21 ||
            k == 22 || k == 23 || k == 24
  {
  }

  // ---------------------------------------------------------------------------
  // The step mappings (FIPS 202, section 3.2)

  /** Column parity C[x] = A[x, 0] ^ A[x, 1] ^ A[x, 2] ^ A[x, 3] ^ A[x, 4] (theta, step 1). */
  function Parity(a: State, x: nat): bv64
    requires x < 5
  {
    Xor64(Xor64(Xor64(Xor64(a[x], a[x + 5]), a[x + 10]), a[x + 15]), a[x + 20])
  }

  /** D[x] = C[x - 1] ^ rot(C[x + 1], 1) (theta, step 2). */
  function ThetaMask(a: State, x: nat): bv64
    requires x < 5
  {
    Xor64(Parity(a, (x + 4) % 5), Rot(Parity(a, (x + 1) % 5), 1))
  }

  /** theta (section 3.2.1) at A[x, y]: the lane xored with D[x]. */
  function ThetaAt(a: State, x: nat, y: nat): bv64
    requires x < 5 && y < 5
  {
    Xor64(a[x + 5 * y], ThetaMask(a, x))
  }

  /** theta: every lane of column x is xored with D[x]. */
  function Theta(a: State): State {
    seq(25, k requires 0 <= k < 25 => ThetaAt(a, k % 5, k / 5))
  }

  /** Lane k rotated by its rho offset (FIPS 202, Table 2: the offsets of A[x, y] for
      k = x + 5y). */
  function RhoLane(v: bv64, k: nat): bv64
    requires k < 25
  {
    match k
      case 0 => v
      case 1 => Rot(v, 1)
      case 2 => Rot(v, 62)
      case 3 => Rot(v, 28)
      case 4 => Rot(v, 27)
      case 5 => Rot(v, 36)
      case 6 => Rot(v, 44)
      case 7 => Rot(v, 6)
      case 8 => Rot(v, 55)
      case 9 => Rot(v, 20)
      case 10 => Rot(v, 3)
      case 11 => Rot(v, 10)
      case 12 => Rot(v, 43)
      case 13 => Rot(v, 25)
      case 14 => Rot(v, 39)
      case 15 => Rot(v, 41)
      case 16 => Rot(v, 45)
      case 17 => Rot(v, 15)
      case 18 => Rot(v, 21)
      case 19 => Rot(v, 8)
      case 20 => Rot(v, 18)
      case 21 => Rot(v, 2)
      case 22 => Rot(v, 61)
      case 23 => Rot(v, 56)
      case _ => Rot(v, 14)
  }

  /** rho (section 3.2.2): every lane is rotated by its own offset. */
  function Rho(a: State): State {
    seq(25, k requires 0 <= k < 25 => RhoLane(a[k], k))
  }

  /** pi (section 3.2.3) at A'[x, y]: the lane A[(x + 3y) mod 5, x]. */
  function PiAt(a: State, x: nat, y: nat): bv64
    requires x < 5 && y < 5
  {
    a[(x + 3 * y) % 5 + 5 * x]
  }

  /** pi: the lanes moved to their new positions. */
  function Pi(a: State): State {
    seq(25, k requires 0 <= k < 25 => PiAt(a, k % 5, k / 5))
  }

  /** chi (section 3.2.4) at A'[x, y]: A[x, y] ^ (!A[x + 1, y] & A[x + 2, y]), the column
      indices taken mod 5. */
  function ChiAt(a: State, x: nat, y: nat): bv64
    requires x < 5 && y < 5
  {
    Chi64(a[x + 5 * y], a[(x + 1) % 5 + 5 * y], a[(x + 2) % 5 + 5 * y])
  }

  /** chi: every row combined with itself shifted by one and two columns. */
  function Chi(a: State): State {
    seq(25, k requires 0 <= k < 25 => ChiAt(a, k % 5, k / 5))
  }

  /** One step of the linear feedback shift register of Algorithm 5 (section 3.2.5): bit
      i of the value is R[i]; R is shifted up by one, the bit shifted out (R[8]) is xored
      into R[0], R[4], R[5] and R[6], and R is truncated to eight bits again. */
  function LfsrStep(r: bv8): bv8 {
    (r << 1) ^ (if r >> 7 == 1 then 0x71 else 0)
  }

  /** The register after n more steps. */
  function LfsrIter(r: bv8, n: nat): bv8
    decreases n
  {
    if n == 0 then r else LfsrStep(LfsrIter(r, n - 1))
  }

  /** The register after t steps from R = 10000000. */
  function LfsrState(t: nat): bv8 {
    LfsrIter(1, t)
  }

  /** rc(t) of Algorithm 5: bit R[0] after t mod 255 steps. */
  function Rc(t: nat): bv64 {
    (LfsrState(t % 255) & 1) as bv64
  }

  /** Bit 2^j - 1 of RC[ir] in Algorithm 6: rc(j + 7 ir). */
  function RcBit(ir: nat, j: nat): bv64
    requires j <= 6
  {
    Rc(j + 7 * ir) << ((1 as bv8 << j) - 1)
  }

  /** The round constant RC[ir] of iota (Algorithm 6): bits 0, 1, 3, 7, 15, 31 and 63 are
      rc(7 ir) .. rc(7 ir + 6), and every other bit is 0. */
  function RoundConstant(ir: nat): bv64
    requires ir < NumRounds
  {
    RcBit(ir, 0) | RcBit(ir, 1) | RcBit(ir, 2) | RcBit(ir, 3) | RcBit(ir, 4) | RcBit(ir, 5) | RcBit(ir, 6)
  }

  /** Bit 2^j - 1 of a round constant whose register starts the round at v. */
  function RcBitFrom(v: bv8, j: nat): bv64
    requires j <= 6
  {
    ((LfsrIter(v, j) & 1) as bv64) << ((1 as bv8 << j) - 1)
  }

  /** The round constant of a round whose register starts at v. */
  function RoundConstantFrom(v: bv8): bv64 {
    RcBitFrom(v, 0) | RcBitFrom(v, 1) | RcBitFrom(v, 2) | RcBitFrom(v, 3) | RcBitFrom(v, 4) | RcBitFrom(v, 5) | RcBitFrom(v, 6)
  }

  /** n + m steps are n steps followed by m steps. */
  lemma {:induction false} LfsrIterAdd(r: bv8, n: nat, m: nat)
    ensures LfsrIter(r, n + m) == LfsrIter(LfsrIter(r, n), m)
    decreases m
  {
    if m > 0 {
      LfsrIterAdd(r, n, m - 1);
    }
  }

  /** Round ir reads the seven register values from step 7 ir on, so RC[ir] depends only
      on the register at step 7 ir. */
  lemma LfsrRound(ir: nat, v: bv8)
    requires ir < NumRounds && LfsrState(7 * ir) == v
    ensures RoundConstant(ir) == RoundConstantFrom(v)
  {
    forall j: nat | j <= 6
      ensures LfsrState(j + 7 * ir) == LfsrIter(v, j)
    {
      LfsrIterAdd(1, 7 * ir, j);
    }
    forall j: nat | j <= 6
      ensures RcBit(ir, j) == RcBitFrom(v, j)
    {
      Arith.DivModUnique(j + 7 * ir, 255, 0, j + 7 * ir);
    }
  }

  /** The register of Algorithm 5 at step 7 ir, where round ir starts reading it. */
  function RoundStart(ir: nat): bv8
    requires ir < NumRounds
  {
    match ir
      case 0 => 0x01
      case 1 => 0x80
      case 2 => 0xD8
      case 3 => 0x1A
      case 4 => 0xDF
      case 5 => 0x09
      case 6 => 0x35
      case 7 => 0x4F
      case 8 => 0xCA
      case 9 => 0x70
      case 10 => 0x41
      case 11 => 0xEC
      case 12 => 0xD5
      case 13 => 0xCD
      case 14 => 0x63
      case 15 => 0xAB
      case 16 => 0xAA
      case 17 => 0x2A
      case 18 => 0xF2
      case 19 => 0xE8
      case 20 => 0x37
      case 21 => 0x3E
      case 22 => 0x0B
      case _ => 0x44
  }

  /** RoundStart holds the register of Algorithm 5 at the start of each round. */
  lemma {:induction false} RoundStartRegister(ir: nat)
    requires ir < NumRounds
    ensures LfsrState(7 * ir) == RoundStart(ir)
  {
    if ir > 0 {
      RoundStartRegister(ir - 1);
      RoundStartNext(ir);
    }
  }

  /** Seven register steps lead from the start of round ir - 1 to the start of round ir. */
  lemma RoundStartNext(ir: nat)
    requires 0 < ir < NumRounds && LfsrState(7 * (ir - 1)) == RoundStart(ir - 1)
    ensures LfsrState(7 * ir) == RoundStart(ir)
  {
    var k := ir - 1;
    LfsrAdvance(7 * k, RoundStart(k), 7);
    assert 7 * k + 7 == 7 * ir;
    if k < 6 {
      RoundStartStepA(k);
    } else if k < 12 {
      RoundStartStepB(k);
    } else if k < 18 {
      RoundStartStepC(k);
    } else {
      RoundStartStepD(k);
    }
  }

  /** k more steps from the register at step t. */
  lemma LfsrAdvance(t: nat, v: bv8, k: nat)
    requires LfsrState(t) == v
    ensures LfsrState(t + k) == LfsrIter(v, k)
  {
    LfsrIterAdd(1, t, k);
  }

  /** Seven register steps lead from the start of round ir to the next, rounds 0 .. 5. */
  lemma RoundStartStepA(ir: nat)
    requires ir < 6
    ensures LfsrIter(RoundStart(ir), 7) == RoundStart(ir + 1)
  {
    if ir == 0 {
      assert LfsrIter(0x01, 7) == 0x80;
    } else if ir == 1 {
      assert LfsrIter(0x80, 7) == 0xD8;
    } else if ir == 2 {
      assert LfsrIter(0xD8, 7) == 0x1A;
    } else if ir == 3 {
      assert LfsrIter(0x1A, 7) == 0xDF;
    } else if ir == 4 {
      assert LfsrIter(0xDF, 7) == 0x09;
    } else {
      assert LfsrIter(0x09, 7) == 0x35;
    }
  }

  /** Seven register steps lead from the start of round ir to the next, rounds 6 .. 11. */
  lemma RoundStartStepB(ir: nat)
    requires 6 <= ir < 12
    ensures LfsrIter(RoundStart(ir), 7) == RoundStart(ir + 1)
  {
    if ir == 6 {
      assert LfsrIter(0x35, 7) == 0x4F;
    } else if ir == 7 {
      assert LfsrIter(0x4F, 7) == 0xCA;
    } else if ir == 8 {
      assert LfsrIter(0xCA, 7) == 0x70;
    } else if ir == 9 {
      assert LfsrIter(0x70, 7) == 0x41;
    } else if ir == 10 {
      assert LfsrIter(0x41, 7) == 0xEC;
    } else {
      assert LfsrIter(0xEC, 7) == 0xD5;
    }
  }

  /** Seven register steps lead from the start of round ir to the next, rounds 12 .. 17. */
  lemma RoundStartStepC(ir: nat)
    requires 12 <= ir < 18
    ensures LfsrIter(RoundStart(ir), 7) == RoundStart(ir + 1)
  {
    if ir == 12 {
      assert LfsrIter(0xD5, 7) == 0xCD;
    } else if ir == 13 {
      assert LfsrIter(0xCD, 7) == 0x63;
    } else if ir == 14 {
      assert LfsrIter(0x63, 7) == 0xAB;
    } else if ir == 15 {
      assert LfsrIter(0xAB, 7) == 0xAA;
    } else if ir == 16 {
      assert LfsrIter(0xAA, 7) == 0x2A;
    } else {
      assert LfsrIter(0x2A, 7) == 0xF2;
    }
  }

  /** Seven register steps lead from the start of round ir to the next, rounds 18 .. 22. */
  lemma RoundStartStepD(ir: nat)
    requires 18 <= ir < 23
    ensures LfsrIter(RoundStart(ir), 7) == RoundStart(ir + 1)
  {
    if ir == 18 {
      assert LfsrIter(0xF2, 7) == 0xE8;
    } else if ir == 19 {
      assert LfsrIter(0xE8, 7) == 0x37;
    } else if ir == 20 {
      assert LfsrIter(0x37, 7) == 0x3E;
    } else if ir == 21 {
      assert LfsrIter(0x3E, 7) == 0x0B;
    } else {
      assert LfsrIter(0x0B, 7) == 0x44;
    }
  }

  /** RC[ir] is the round constant the register gives from the start of round ir on. */
  lemma RoundConstantOfStart(ir: nat)
    requires ir < NumRounds
    ensures RoundConstant(ir) == RoundConstantFrom(RoundStart(ir))
  {
    RoundStartRegister(ir);
    LfsrRound(ir, RoundStart(ir));
  }

  /** iota (section 3.2.5): lane A[0, 0] is xored with RC[ir]. */
  function Iota(a: State, ir: nat): State
    requires ir < NumRounds
  {
    a[0 := Xor64(a[0], RoundConstant(ir))]
  }

  /** Step k (1 .. 5) of round ir: theta, rho, pi, chi, iota. */
  function Step(a: State, ir: nat, k: nat): State
    requires ir < NumRounds && 1 <= k <= 5
  {
    match k
      case 1 => Theta(a)
      case 2 => Rho(a)
      case 3 => Pi(a)
      case 4 => Chi(a)
      case _ => Iota(a, ir)
  }

  /** The first k steps of round ir, in order. */
  function Steps(a: State, ir: nat, k: nat): State
    requires ir < NumRounds && k <= 5
  {
    if k == 0 then a else Step(Steps(a, ir, k - 1), ir, k)
  }

  /** Rnd(A, ir) (section 3.3): all five steps of round ir. */
  function Round(a: State, ir: nat): State
    requires ir < NumRounds
  {
    Steps(a, ir, 5)
  }

  /** Rnd(A, ir) = iota(chi(pi(rho(theta(A)))), ir). */
  lemma RoundSteps(a: State, ir: nat)
    requires ir < NumRounds
    ensures Round(a, ir) == Iota(Chi(Pi(Rho(Theta(a)))), ir)
  {
    assert Steps(a, ir, 1) == Theta(a);
    assert Steps(a, ir, 2) == Rho(Theta(a));
    assert Steps(a, ir, 3) == Pi(Rho(Theta(a)));
    assert Steps(a, ir, 4) == Chi(Pi(Rho(Theta(a))));
  }

  /** Rounds ir, ir + 1, .., 23 applied in turn (the loop of Algorithm 7, step 2). */
  function RoundsFrom(a: State, ir: nat): State
    requires ir <= NumRounds
    decreases NumRounds - ir
  {
    if ir == NumRounds then a else RoundsFrom(Round(a, ir), ir + 1)
  }

  /** Keccak-f[1600] = Keccak-p[1600, 24] (section 3.4): rounds 0 .. 23. */
  function KeccakF(a: State): State {
    RoundsFrom(a, 0)
  }

  // ---------------------------------------------------------------------------
  // Bytes and lanes (FIPS 202, Appendix B.1: bytes are read little-endian into lanes)

  /** Lane k of the byte string p, zero past its end. */
  function LaneOfBytes(p: seq<bv8>, k: nat): bv64 {
    (ByteAt(p, 8 * k) as bv64)
    | ((ByteAt(p, 8 * k + 1) as bv64) << 8)
    | ((ByteAt(p, 8 * k + 2) as bv64) << 16)
    | ((ByteAt(p, 8 * k + 3) as bv64) << 24)
    | ((ByteAt(p, 8 * k + 4) as bv64) << 32)
    | ((ByteAt(p, 8 * k + 5) as bv64) << 40)
    | ((ByteAt(p, 8 * k + 6) as bv64) << 48)
    | ((ByteAt(p, 8 * k + 7) as bv64) << 56)
  }

  /** The 8 bytes of a lane, least significant first. */
  function LaneBytes(v: bv64): (r: seq<bv8>)
    ensures |r| == 8
  {
    WordBytes(Lo(v)) + WordBytes(Hi(v))
  }

  /** The byte string of a state: byte i is byte i mod 8 of lane i / 8. */
  function StateBytes(a: seq<bv64>): (r: seq<bv8>)
    ensures |r| == 8 * |a|
  {
    seq(8 * |a|, i requires 0 <= i < 8 * |a| => LaneBytes(a[i / 8])[i % 8])
  }

  /** S xor (P || 0^c): one block xored into the first lanes of the state. */
  function XorBlock(a: State, p: seq<bv8>): State {
    seq(25, k requires 0 <= k < 25 => a[k] ^ LaneOfBytes(p, k))
  }

  /** The absorbing phase of SPONGE[f, pad, r] (Algorithm 8, steps 5 and 6): every whole
      block of `rate` bytes of p, in order (the padded input always consists of whole
      blocks). */
  function Absorb(a: State, p: seq<bv8>, rate: nat): State
    requires 0 < rate
    decreases |p|
  {
    if |p| < rate then a else Absorb(KeccakF(XorBlock(a, p[..rate])), p[rate..], rate)
  }

  /** The squeezing phase (Algorithm 8, steps 7 to 10): n bytes, taking `rate` bytes from
      each state and applying Keccak-f between them. */
  function Squeeze(a: State, rate: nat, n: nat): (z: seq<bv8>)
    requires 0 < rate <= 200
    ensures |z| == n
    decreases n
  {
    if n <= rate then StateBytes(a)[..n]
    else StateBytes(a)[..rate] + Squeeze(KeccakF(a), rate, n - rate)
  }

  /** The byte-aligned multi-rate padding pad10*1, preceded by the domain bits held in
      the low bits of `d`: the message is followed by the byte d, zero bytes, and a final
      byte with its top bit set, d and 0x80 sharing one byte when only one is free.
      d = 0x01 is the original Keccak padding and d = 0x06 the SHA-3 one (FIPS 202,
      section 5.1 and Appendix B.2). */
  function Pad(m: seq<bv8>, rate: nat, d: bv8): (p: seq<bv8>)
    requires 0 < rate
    ensures |p| % rate == 0
    ensures |m| < |p| <= |m| + rate
    ensures p[..|m|] == m
  {
    var q := rate - |m| % rate;
    Arith.CompleteBlock(|m|, rate);
    if q == 1 then m + [d | 0x80]
    else m + [d] + Zeros(q - 2) + [0x80]
  }

  function Zeros(n: nat): (z: seq<bv8>)
    ensures |z| == n && forall i :: 0 <= i < n ==> z[i] == 0
  {
    seq(n, i => 0)
  }

  /** Keccak[c] with byte rate `rate` and domain byte d, producing n bytes. */
  function Hash(m: seq<bv8>, rate: nat, d: bv8, n: nat): (z: seq<bv8>)
    requires 0 < rate <= 200
    ensures |z| == n
  {
    Squeeze(Absorb(ZeroState, Pad(m, rate, d), rate), rate, n)
  }

  // ---------------------------------------------------------------------------
  // Facts about the reference

  /** One block of Absorb: the first `rate` bytes go into the state, which is permuted. */
  lemma AbsorbBlock(a: State, p: seq<bv8>, rate: nat)
    requires 0 < rate <= |p|
    ensures Absorb(a, p, rate) == Absorb(KeccakF(XorBlock(a, p[..rate])), p[rate..], rate)
  {
  }

  /** Absorbing two runs of blocks one after the other is absorbing their concatenation. */
  lemma {:induction false} AbsorbAppend(a: State, p: seq<bv8>, q: seq<bv8>, rate: nat)
    requires 0 < rate && |p| % rate == 0
    ensures Absorb(a, p + q, rate) == Absorb(Absorb(a, p, rate), q, rate)
    decreases |p|
  {
    if |p| == 0 {
      assert p + q == q;
    } else {
      if |p| < rate {
        Arith.DivModUnique(|p|, rate, 0, |p|);
      }
      Arith.SubDivisor(|p|, rate);
      assert (p + q)[..rate] == p[..rate];
      assert (p + q)[rate..] == p[rate..] + q;
      AbsorbBlock(a, p + q, rate);
      AbsorbBlock(a, p, rate);
      AbsorbAppend(KeccakF(XorBlock(a, p[..rate])), p[rate..], q, rate);
    }
  }
}
