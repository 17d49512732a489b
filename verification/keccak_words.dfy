/** The 32-bit implementation of Keccak-f[1600] in src/digests/sha3.ts: the 25 lanes are
    held in 50 words (lane k in words 2k, low half, and 2k + 1, high half), and each round
    computes theta on the column parities c0 .. c9, rho and pi together into b0 .. b49,
    chi from the b words back into the state, and iota from a table of 48 half
    constants. Every step is proved to act on the lanes as the FIPS 202 step mapping of
    module KeccakSpec does, so the whole permutation is Keccak-f[1600]. */
module KeccakWords {
  import opened Words
  import opened KeccakSpec

  /** The 50-word state array of the implementation. */
  type WordState = s: seq<bv32> | |s| == 50 witness ZeroWords

  const ZeroWords: seq<bv32> := ZeroBlock(50)

  /** ROUND_CONSTANTS[i]: entry 2i is the low and entry 2i + 1 the high half of RC[i]. */
  function RoundConstantWord(i: nat): bv32
    requires i < 48
  {
    match i
      case 0 => 1
      case 1 => 0
      case 2 => 32898
      case 3 => 0
      case 4 => 32906
      case 5 => 2147483648
      case 6 => 2147516416
      case 7 => 2147483648
      case 8 => 32907
      case 9 => 0
      case 10 => 2147483649
      case 11 => 0
      case 12 => 2147516545
      case 13 => 2147483648
      case 14 => 32777
      case 15 => 2147483648
      case 16 => 138
      case 17 => 0
      case 18 => 136
      case 19 => 0
      case 20 => 2147516425
      case 21 => 0
      case 22 => 2147483658
      case 23 => 0
      case 24 => 2147516555
      case 25 => 0
      case 26 => 139
      case 27 => 2147483648
      case 28 => 32905
      case 29 => 2147483648
      case 30 => 32771
      case 31 => 2147483648
      case 32 => 32770
      case 33 => 2147483648
      case 34 => 128
      case 35 => 2147483648
      case 36 => 32778
      case 37 => 0
      case 38 => 2147483658
      case 39 => 2147483648
      case 40 => 2147516545
      case 41 => 2147483648
      case 42 => 32896
      case 43 => 2147483648
      case 44 => 2147483649
      case 45 => 0
      case 46 => 2147516424
      case _ => 2147483648
  }

  /** The 48 half constants are the 24 round constants of FIPS 202 (Algorithms 5 and 6),
      split in halves. */
  lemma RoundConstantHalves(ir: nat)
    requires ir < NumRounds
    ensures Join(RoundConstantWord(2 * ir), RoundConstantWord(2 * ir + 1)) == RoundConstant(ir)
  {
    RoundConstantOfStart(ir);
    if ir < 3 {
      RoundConstantHalvesA(ir);
    } else if ir < 6 {
      RoundConstantHalvesB(ir);
    } else if ir < 9 {
      RoundConstantHalvesC(ir);
    } else if ir < 12 {
      RoundConstantHalvesD(ir);
    } else if ir < 15 {
      RoundConstantHalvesE(ir);
    } else if ir < 18 {
      RoundConstantHalvesF(ir);
    } else if ir < 21 {
      RoundConstantHalvesG(ir);
    } else {
      RoundConstantHalvesH(ir);
    }
  }

  /** The table halves against the constant the register gives, rounds 0 .. 2. */
  lemma RoundConstantHalvesA(ir: nat)
    requires ir < 3
    ensures Join(RoundConstantWord(2 * ir), RoundConstantWord(2 * ir + 1)) == RoundConstantFrom(RoundStart(ir))
  {
    if ir == 0 {
      assert RoundConstantFrom(0x01) == 0x1;
      assert Join(RoundConstantWord(0), RoundConstantWord(1)) == 0x1;
    } else if ir == 1 {
      assert RoundConstantFrom(0x80) == 0x8082;
      assert Join(RoundConstantWord(2), RoundConstantWord(3)) == 0x8082;
    } else {
      assert RoundConstantFrom(0xD8) == 0x800000000000808A;
      assert Join(RoundConstantWord(4), RoundConstantWord(5)) == 0x800000000000808A;
    }
  }

  /** The table halves against the constant the register gives, rounds 3 .. 5. */
  lemma RoundConstantHalvesB(ir: nat)
    requires 3 <= ir < 6
    ensures Join(RoundConstantWord(2 * ir), RoundConstantWord(2 * ir + 1)) == RoundConstantFrom(RoundStart(ir))
  {
    if ir == 3 {
      assert RoundConstantFrom(0x1A) == 0x8000000080008000;
      assert Join(RoundConstantWord(6), RoundConstantWord(7)) == 0x8000000080008000;
    } else if ir == 4 {
      assert RoundConstantFrom(0xDF) == 0x808B;
      assert Join(RoundConstantWord(8), RoundConstantWord(9)) == 0x808B;
    } else {
      assert RoundConstantFrom(0x09) == 0x80000001;
      assert Join(RoundConstantWord(10), RoundConstantWord(11)) == 0x80000001;
    }
  }

  /** The table halves against the constant the register gives, rounds 6 .. 8. */
  lemma RoundConstantHalvesC(ir: nat)
    requires 6 <= ir < 9
    ensures Join(RoundConstantWord(2 * ir), RoundConstantWord(2 * ir + 1)) == RoundConstantFrom(RoundStart(ir))
  {
    if ir == 6 {
      assert RoundConstantFrom(0x35) == 0x8000000080008081;
      assert Join(RoundConstantWord(12), RoundConstantWord(13)) == 0x8000000080008081;
    } else if ir == 7 {
      assert RoundConstantFrom(0x4F) == 0x8000000000008009;
      assert Join(RoundConstantWord(14), RoundConstantWord(15)) == 0x8000000000008009;
    } else {
      assert RoundConstantFrom(0xCA) == 0x8A;
      assert Join(RoundConstantWord(16), RoundConstantWord(17)) == 0x8A;
    }
  }

  /** The table halves against the constant the register gives, rounds 9 .. 11. */
  lemma RoundConstantHalvesD(ir: nat)
    requires 9 <= ir < 12
    ensures Join(RoundConstantWord(2 * ir), RoundConstantWord(2 * ir + 1)) == RoundConstantFrom(RoundStart(ir))
  {
    if ir == 9 {
      assert RoundConstantFrom(0x70) == 0x88;
      assert Join(RoundConstantWord(18), RoundConstantWord(19)) == 0x88;
    } else if ir == 10 {
      assert RoundConstantFrom(0x41) == 0x80008009;
      assert Join(RoundConstantWord(20), RoundConstantWord(21)) == 0x80008009;
    } else {
      assert RoundConstantFrom(0xEC) == 0x8000000A;
      assert Join(RoundConstantWord(22), RoundConstantWord(23)) == 0x8000000A;
    }
  }

  /** The table halves against the constant the register gives, rounds 12 .. 14. */
  lemma RoundConstantHalvesE(ir: nat)
    requires 12 <= ir < 15
    ensures Join(RoundConstantWord(2 * ir), RoundConstantWord(2 * ir + 1)) == RoundConstantFrom(RoundStart(ir))
  {
    if ir == 12 {
      assert RoundConstantFrom(0xD5) == 0x8000808B;
      assert Join(RoundConstantWord(24), RoundConstantWord(25)) == 0x8000808B;
    } else if ir == 13 {
      assert RoundConstantFrom(0xCD) == 0x800000000000008B;
      assert Join(RoundConstantWord(26), RoundConstantWord(27)) == 0x800000000000008B;
    } else {
      assert RoundConstantFrom(0x63) == 0x8000000000008089;
      assert Join(RoundConstantWord(28), RoundConstantWord(29)) == 0x8000000000008089;
    }
  }

  /** The table halves against the constant the register gives, rounds 15 .. 17. */
  lemma RoundConstantHalvesF(ir: nat)
    requires 15 <= ir < 18
    ensures Join(RoundConstantWord(2 * ir), RoundConstantWord(2 * ir + 1)) == RoundConstantFrom(RoundStart(ir))
  {
    if ir == 15 {
      assert RoundConstantFrom(0xAB) == 0x8000000000008003;
      assert Join(RoundConstantWord(30), RoundConstantWord(31)) == 0x8000000000008003;
    } else if ir == 16 {
      assert RoundConstantFrom(0xAA) == 0x8000000000008002;
      assert Join(RoundConstantWord(32), RoundConstantWord(33)) == 0x8000000000008002;
    } else {
      assert RoundConstantFrom(0x2A) == 0x8000000000000080;
      assert Join(RoundConstantWord(34), RoundConstantWord(35)) == 0x8000000000000080;
    }
  }

  /** The table halves against the constant the register gives, rounds 18 .. 20. */
  lemma RoundConstantHalvesG(ir: nat)
    requires 18 <= ir < 21
    ensures Join(RoundConstantWord(2 * ir), RoundConstantWord(2 * ir + 1)) == RoundConstantFrom(RoundStart(ir))
  {
    if ir == 18 {
      assert RoundConstantFrom(0xF2) == 0x800A;
      assert Join(RoundConstantWord(36), RoundConstantWord(37)) == 0x800A;
    } else if ir == 19 {
      assert RoundConstantFrom(0xE8) == 0x800000008000000A;
      assert Join(RoundConstantWord(38), RoundConstantWord(39)) == 0x800000008000000A;
    } else {
      assert RoundConstantFrom(0x37) == 0x8000000080008081;
      assert Join(RoundConstantWord(40), RoundConstantWord(41)) == 0x8000000080008081;
    }
  }

  /** The table halves against the constant the register gives, rounds 21 .. 23. */
  lemma RoundConstantHalvesH(ir: nat)
    requires 21 <= ir < 24
    ensures Join(RoundConstantWord(2 * ir), RoundConstantWord(2 * ir + 1)) == RoundConstantFrom(RoundStart(ir))
  {
    if ir == 21 {
      assert RoundConstantFrom(0x3E) == 0x8000000000008080;
      assert Join(RoundConstantWord(42), RoundConstantWord(43)) == 0x8000000000008080;
    } else if ir == 22 {
      assert RoundConstantFrom(0x0B) == 0x80000001;
      assert Join(RoundConstantWord(44), RoundConstantWord(45)) == 0x80000001;
    } else {
      assert RoundConstantFrom(0x44) == 0x8000000080008008;
      assert Join(RoundConstantWord(46), RoundConstantWord(47)) == 0x8000000080008008;
    }
  }

  /** (a << n) | (b >> (32 - n)): one half of a lane rotated by n (or n + 32), a taking
      the high bits and b the low bits of the result. */
  function RotHalf(a: bv32, b: bv32, n: bv32): bv32
    requires 0 < n < 32
  {
    (a << n) | (b >> (32 - n))
  }

  // ---------------------------------------------------------------------------
  // One round, step by step, as the implementation computes it

  /** c_j = s[j] ^ s[j + 10] ^ s[j + 20] ^ s[j + 30] ^ s[j + 40]: the halves of the
      column parities (c_2x low and c_2x+1 high half of C[x]). */
  function ColumnParity(s: WordState, j: nat): bv32
    requires j < 10
  {
    Xor32(Xor32(Xor32(Xor32(s[j], s[j + 10]), s[j + 20]), s[j + 30]), s[j + 40])
  }

  /** h for column x: the low half of D[x], built from c of columns x - 1 and x + 1. */
  function ThetaH(s: WordState, x: nat): bv32
    requires x < 5
  {
    var p := 2 * ((x + 4) % 5);
    var q := 2 * ((x + 1) % 5);
    Xor32(ColumnParity(s, p), RotHalf(ColumnParity(s, q), ColumnParity(s, q + 1), 1))
  }

  /** l for column x: the high half of D[x]. */
  function ThetaL(s: WordState, x: nat): bv32
    requires x < 5
  {
    var p := 2 * ((x + 4) % 5);
    var q := 2 * ((x + 1) % 5);
    Xor32(ColumnParity(s, p + 1), RotHalf(ColumnParity(s, q + 1), ColumnParity(s, q), 1))
  }

  /** theta: h is xored into the low and l into the high word of every lane of column x. */
  function ThetaWords(s: WordState): WordState {
    seq(50, i requires 0 <= i < 50 =>
      Xor32(s[i], if i % 2 == 0 then ThetaH(s, (i / 2) % 5) else ThetaL(s, (i / 2) % 5)))
  }

  /** Word b_i of rho and pi together: every lane rotated by its rho offset and moved to
      its pi position, in the rotate-by-halves form of the implementation. */
  function RhoPiWord(s: WordState, i: nat): bv32
    requires i < 50
  {
    match i
      case 0 => s[0]
      case 1 => s[1]
      case 2 => RotHalf(s[13], s[12], 12)
      case 3 => RotHalf(s[12], s[13], 12)
      case 4 => RotHalf(s[25], s[24], 11)
      case 5 => RotHalf(s[24], s[25], 11)
      case 6 => RotHalf(s[36], s[37], 21)
      case 7 => RotHalf(s[37], s[36], 21)
      case 8 => RotHalf(s[48], s[49], 14)
      case 9 => RotHalf(s[49], s[48], 14)
      case 10 => RotHalf(s[6], s[7], 28)
      case 11 => RotHalf(s[7], s[6], 28)
      case 12 => RotHalf(s[18], s[19], 20)
      case 13 => RotHalf(s[19], s[18], 20)
      case 14 => RotHalf(s[20], s[21], 3)
      case 15 => RotHalf(s[21], s[20], 3)
      case 16 => RotHalf(s[33], s[32], 13)
      case 17 => RotHalf(s[32], s[33], 13)
      case 18 => RotHalf(s[45], s[44], 29)
      case 19 => RotHalf(s[44], s[45], 29)
      case 20 => RotHalf(s[2], s[3], 1)
      case 21 => RotHalf(s[3], s[2], 1)
      case 22 => RotHalf(s[14], s[15], 6)
      case 23 => RotHalf(s[15], s[14], 6)
      case 24 => RotHalf(s[26], s[27], 25)
      case 25 => RotHalf(s[27], s[26], 25)
      case 26 => RotHalf(s[38], s[39], 8)
      case 27 => RotHalf(s[39], s[38], 8)
      case 28 => RotHalf(s[40], s[41], 18)
      case 29 => RotHalf(s[41], s[40], 18)
      case 30 => RotHalf(s[8], s[9], 27)
      case 31 => RotHalf(s[9], s[8], 27)
      case 32 => RotHalf(s[11], s[10], 4)
      case 33 => RotHalf(s[10], s[11], 4)
      case 34 => RotHalf(s[22], s[23], 10)
      case 35 => RotHalf(s[23], s[22], 10)
      case 36 => RotHalf(s[34], s[35], 15)
      case 37 => RotHalf(s[35], s[34], 15)
      case 38 => RotHalf(s[47], s[46], 24)
      case 39 => RotHalf(s[46], s[47], 24)
      case 40 => RotHalf(s[5], s[4], 30)
      case 41 => RotHalf(s[4], s[5], 30)
      case 42 => RotHalf(s[17], s[16], 23)
      case 43 => RotHalf(s[16], s[17], 23)
      case 44 => RotHalf(s[29], s[28], 7)
      case 45 => RotHalf(s[28], s[29], 7)
      case 46 => RotHalf(s[31], s[30], 9)
      case 47 => RotHalf(s[30], s[31], 9)
      case 48 => RotHalf(s[42], s[43], 2)
      case _ => RotHalf(s[43], s[42], 2)
  }

  /** b0 .. b49. */
  function RhoPiWords(s: WordState): WordState {
    seq(50, i requires 0 <= i < 50 => RhoPiWord(s, i))
  }

  /** chi on word i, as the loop body writes it out: s[i] = b_i ^ (~b_j & b_k), where b_j and
      b_k are the same half of the next two lanes of the row (words i + 2 and i + 4 of the
      row's ten, taken cyclically). */
  function ChiWord(b: WordState, i: nat): bv32
    requires i < 50
  {
    match i
      case 0 => Chi32(b[0], b[2], b[4])
      case 1 => Chi32(b[1], b[3], b[5])
      case 2 => Chi32(b[2], b[4], b[6])
      case 3 => Chi32(b[3], b[5], b[7])
      case 4 => Chi32(b[4], b[6], b[8])
      case 5 => Chi32(b[5], b[7], b[9])
      case 6 => Chi32(b[6], b[8], b[0])
      case 7 => Chi32(b[7], b[9], b[1])
      case 8 => Chi32(b[8], b[0], b[2])
      case 9 => Chi32(b[9], b[1], b[3])
      case 10 => Chi32(b[10], b[12], b[14])
      case 11 => Chi32(b[11], b[13], b[15])
      case 12 => Chi32(b[12], b[14], b[16])
      case 13 => Chi32(b[13], b[15], b[17])
      case 14 => Chi32(b[14], b[16], b[18])
      case 15 => Chi32(b[15], b[17], b[19])
      case 16 => Chi32(b[16], b[18], b[10])
      case 17 => Chi32(b[17], b[19], b[11])
      case 18 => Chi32(b[18], b[10], b[12])
      case 19 => Chi32(b[19], b[11], b[13])
      case 20 => Chi32(b[20], b[22], b[24])
      case 21 => Chi32(b[21], b[23], b[25])
      case 22 => Chi32(b[22], b[24], b[26])
      case 23 => Chi32(b[23], b[25], b[27])
      case 24 => Chi32(b[24], b[26], b[28])
      case 25 => Chi32(b[25], b[27], b[29])
      case 26 => Chi32(b[26], b[28], b[20])
      case 27 => Chi32(b[27], b[29], b[21])
      case 28 => Chi32(b[28], b[20], b[22])
      case 29 => Chi32(b[29], b[21], b[23])
      case 30 => Chi32(b[30], b[32], b[34])
      case 31 => Chi32(b[31], b[33], b[35])
      case 32 => Chi32(b[32], b[34], b[36])
      case 33 => Chi32(b[33], b[35], b[37])
      case 34 => Chi32(b[34], b[36], b[38])
      case 35 => Chi32(b[35], b[37], b[39])
      case 36 => Chi32(b[36], b[38], b[30])
      case 37 => Chi32(b[37], b[39], b[31])
      case 38 => Chi32(b[38], b[30], b[32])
      case 39 => Chi32(b[39], b[31], b[33])
      case 40 => Chi32(b[40], b[42], b[44])
      case 41 => Chi32(b[41], b[43], b[45])
      case 42 => Chi32(b[42], b[44], b[46])
      case 43 => Chi32(b[43], b[45], b[47])
      case 44 => Chi32(b[44], b[46], b[48])
      case 45 => Chi32(b[45], b[47], b[49])
      case 46 => Chi32(b[46], b[48], b[40])
      case 47 => Chi32(b[47], b[49], b[41])
      case 48 => Chi32(b[48], b[40], b[42])
      case _ => Chi32(b[49], b[41], b[43])
  }

  /** chi: the state words recomputed from b0 .. b49. */
  function ChiWords(b: WordState): WordState {
    seq(50, i requires 0 <= i < 50 => ChiWord(b, i))
  }

  /** iota for round ir, whose loop counter is n = 2 * ir: ROUND_CONSTANTS[n] is xored
      into word 0 and ROUND_CONSTANTS[n + 1] into word 1. */
  function IotaWords(s: WordState, ir: nat): WordState
    requires ir < NumRounds
  {
    s[0 := Xor32(s[0], RoundConstantWord(2 * ir))][1 := Xor32(s[1], RoundConstantWord(2 * ir + 1))]
  }

  /** Part k (1 .. 4) of the loop body in round ir: theta, rho and pi, chi, iota. */
  function StepWords(s: WordState, ir: nat, k: nat): WordState
    requires ir < NumRounds && 1 <= k <= 4
  {
    match k
      case 1 => ThetaWords(s)
      case 2 => RhoPiWords(s)
      case 3 => ChiWords(s)
      case _ => IotaWords(s, ir)
  }

  /** The first k parts of the loop body in round ir, in order. */
  function StepsWords(s: WordState, ir: nat, k: nat): WordState
    requires ir < NumRounds && k <= 4
  {
    if k == 0 then s else StepWords(StepsWords(s, ir, k - 1), ir, k)
  }

  /** One pass of the loop body: round ir, loop counter n = 2 * ir. */
  function RoundWords(s: WordState, ir: nat): WordState
    requires ir < NumRounds
  {
    StepsWords(s, ir, 4)
  }

  /** The passes of the loop from round ir on (loop counter n = 2 * ir, .., 46). */
  function PermuteFrom(s: WordState, ir: nat): WordState
    requires ir <= NumRounds
    decreases NumRounds - ir
  {
    if ir == NumRounds then s else PermuteFrom(RoundWords(s, ir), ir + 1)
  }

  /** keccakPermutation: the 24 passes of the loop, n = 0, 2, .., 46. */
  function KeccakPermutation(s: WordState): WordState {
    PermuteFrom(s, 0)
  }
}
