/** The word-level Keccak-f[1600] of module KeccakWords acts on the lanes as the 64-bit
    reference of module KeccakSpec: each of theta, rho and pi, chi and iota is proved
    lane by lane, then one round, then the whole permutation.

    The lane-by-lane lemmas come in threes: one unfolds the word-level step at lane k,
    one unfolds the reference step at lane k for an arbitrary state, and one puts the
    two together with a fact about joining halves (JoinXor, JoinChi, or the rotation
    of a joined lane). */
module KeccakLanes {
  import opened Words
  import opened KeccakSpec
  import opened KeccakWords

  /** Two lane sequences that agree lane by lane, for lanes given one at a time. */
  lemma LanesExt(u: seq<bv64>, v: seq<bv64>)
    requires |u| == 25 && |v| == 25
    requires u[0] == v[0] && u[1] == v[1] && u[2] == v[2] && u[3] == v[3] && u[4] == v[4] &&
             u[5] == v[5] && u[6] == v[6] && u[7] == v[7] && u[8] == v[8] && u[9] == v[9] &&
             u[10] == v[10] && u[11] == v[11] && u[12] == v[12] && u[13] == v[13] && u[14] == v[14] &&
             u[15] == v[15] && u[16] == v[16] && u[17] == v[17] && u[18] == v[18] && u[19] == v[19] &&
             u[20] == v[20] && u[21] == v[21] && u[22] == v[22] && u[23] == v[23] && u[24] == v[24]
    ensures u == v
  {
    forall k | 0 <= k < 25
      ensures u[k] == v[k]
    {
      LaneCases(k);
    }
  }

  // ---------------------------------------------------------------------------
  // theta

  /** A one-bit rotation of a lane, done on its halves as theta does it. */
  lemma RotOne(lo: bv32, hi: bv32)
    ensures Rot(Join(lo, hi), 1) == Join(RotHalf(lo, hi, 1), RotHalf(hi, lo, 1))
  {
    assert Join(lo, hi) == ((hi as bv64) << 32) | (lo as bv64);
  }

  /** c_2x and c_2x+1 are the halves of the column parity C[x]. */
  lemma ParityLanes(w: WordState, x: nat)
    requires x < 5
    ensures Parity(Lanes(w), x) == Join(ColumnParity(w, 2 * x), ColumnParity(w, 2 * x + 1))
  {
    var j := 2 * x;
    LaneAt(w, x);
    LaneAt(w, x + 5);
    LaneAt(w, x + 10);
    LaneAt(w, x + 15);
    LaneAt(w, x + 20);
    var l1, h1 := Xor32(w[j], w[j + 10]), Xor32(w[j + 1], w[j + 11]);
    var l2, h2 := Xor32(l1, w[j + 20]), Xor32(h1, w[j + 21]);
    var l3, h3 := Xor32(l2, w[j + 30]), Xor32(h2, w[j + 31]);
    JoinXor(w[j], w[j + 1], w[j + 10], w[j + 11]);
    JoinXor(l1, h1, w[j + 20], w[j + 21]);
    JoinXor(l2, h2, w[j + 30], w[j + 31]);
    JoinXor(l3, h3, w[j + 40], w[j + 41]);
  }

  /** h and l of column x are the halves of the theta mask D[x]. */
  lemma ThetaMaskLanes(w: WordState, x: nat)
    requires x < 5
    ensures ThetaMask(Lanes(w), x) == Join(ThetaH(w, x), ThetaL(w, x))
  {
    var p := (x + 4) % 5;
    var q := (x + 1) % 5;
    ParityLanes(w, p);
    ParityLanes(w, q);
    var pl, ph := ColumnParity(w, 2 * p), ColumnParity(w, 2 * p + 1);
    var ql, qh := ColumnParity(w, 2 * q), ColumnParity(w, 2 * q + 1);
    RotOne(ql, qh);
    JoinXor(pl, ph, RotHalf(ql, qh, 1), RotHalf(qh, ql, 1));
  }

  /** Lane k after the word-level theta: h and l of its column xored into its halves. */
  lemma ThetaWordsLane(w: WordState, k: nat)
    requires k < 25
    ensures Lanes(ThetaWords(w))[k] ==
            Join(Xor32(w[2 * k], ThetaH(w, k % 5)), Xor32(w[2 * k + 1], ThetaL(w, k % 5)))
  {
    assert (2 * k) % 2 == 0 && (2 * k) / 2 == k && (2 * k + 1) % 2 == 1 && (2 * k + 1) / 2 == k;
    LaneAt(ThetaWords(w), k);
  }

  /** Lane k after theta: the lane xored with D of its column. */
  lemma ThetaSpecLane(a: State, k: nat)
    requires k < 25
    ensures Theta(a)[k] == Xor64(a[k], ThetaMask(a, k % 5))
  {
    assert k % 5 + 5 * (k / 5) == k;
  }

  lemma ThetaLane(w: WordState, k: nat)
    requires k < 25
    ensures Lanes(ThetaWords(w))[k] == Theta(Lanes(w))[k]
  {
    ThetaWordsLane(w, k);
    ThetaSpecLane(Lanes(w), k);
    LaneAt(w, k);
    ThetaMaskLanes(w, k % 5);
    JoinXor(w[2 * k], w[2 * k + 1], ThetaH(w, k % 5), ThetaL(w, k % 5));
  }

  /** The implementation's theta is theta. */
  lemma ThetaRefines(w: WordState)
    ensures Lanes(ThetaWords(w)) == Theta(Lanes(w))
  {
    forall k | 0 <= k < 25
      ensures Lanes(ThetaWords(w))[k] == Theta(Lanes(w))[k]
    {
      ThetaLane(w, k);
    }
  }

  // ---------------------------------------------------------------------------
  // rho and pi

  // RotJoinN: a rotation of a joined lane by the rho offset N, on its halves. Below 32
  // each half takes the high bits of its own word and the low bits of the other; above
  // 32 the halves also change places.

  lemma RotJoin44(lo: bv32, hi: bv32)
    ensures Rot(Join(lo, hi), 44) == Join(RotHalf(hi, lo, 12), RotHalf(lo, hi, 12))
  {
    assert Join(lo, hi) == ((hi as bv64) << 32) | (lo as bv64);
  }

  lemma RotJoin43(lo: bv32, hi: bv32)
    ensures Rot(Join(lo, hi), 43) == Join(RotHalf(hi, lo, 11), RotHalf(lo, hi, 11))
  {
    assert Join(lo, hi) == ((hi as bv64) << 32) | (lo as bv64);
  }

  lemma RotJoin21(lo: bv32, hi: bv32)
    ensures Rot(Join(lo, hi), 21) == Join(RotHalf(lo, hi, 21), RotHalf(hi, lo, 21))
  {
    assert Join(lo, hi) == ((hi as bv64) << 32) | (lo as bv64);
  }

  lemma RotJoin14(lo: bv32, hi: bv32)
    ensures Rot(Join(lo, hi), 14) == Join(RotHalf(lo, hi, 14), RotHalf(hi, lo, 14))
  {
    assert Join(lo, hi) == ((hi as bv64) << 32) | (lo as bv64);
  }

  lemma RotJoin28(lo: bv32, hi: bv32)
    ensures Rot(Join(lo, hi), 28) == Join(RotHalf(lo, hi, 28), RotHalf(hi, lo, 28))
  {
    assert Join(lo, hi) == ((hi as bv64) << 32) | (lo as bv64);
  }

  lemma RotJoin20(lo: bv32, hi: bv32)
    ensures Rot(Join(lo, hi), 20) == Join(RotHalf(lo, hi, 20), RotHalf(hi, lo, 20))
  {
    assert Join(lo, hi) == ((hi as bv64) << 32) | (lo as bv64);
  }

  lemma RotJoin3(lo: bv32, hi: bv32)
    ensures Rot(Join(lo, hi), 3) == Join(RotHalf(lo, hi, 3), RotHalf(hi, lo, 3))
  {
    assert Join(lo, hi) == ((hi as bv64) << 32) | (lo as bv64);
  }

  lemma RotJoin45(lo: bv32, hi: bv32)
    ensures Rot(Join(lo, hi), 45) == Join(RotHalf(hi, lo, 13), RotHalf(lo, hi, 13))
  {
    assert Join(lo, hi) == ((hi as bv64) << 32) | (lo as bv64);
  }

  lemma RotJoin61(lo: bv32, hi: bv32)
    ensures Rot(Join(lo, hi), 61) == Join(RotHalf(hi, lo, 29), RotHalf(lo, hi, 29))
  {
    assert Join(lo, hi) == ((hi as bv64) << 32) | (lo as bv64);
  }

  lemma RotJoin6(lo: bv32, hi: bv32)
    ensures Rot(Join(lo, hi), 6) == Join(RotHalf(lo, hi, 6), RotHalf(hi, lo, 6))
  {
    assert Join(lo, hi) == ((hi as bv64) << 32) | (lo as bv64);
  }

  lemma RotJoin25(lo: bv32, hi: bv32)
    ensures Rot(Join(lo, hi), 25) == Join(RotHalf(lo, hi, 25), RotHalf(hi, lo, 25))
  {
    assert Join(lo, hi) == ((hi as bv64) << 32) | (lo as bv64);
  }

  lemma RotJoin8(lo: bv32, hi: bv32)
    ensures Rot(Join(lo, hi), 8) == Join(RotHalf(lo, hi, 8), RotHalf(hi, lo, 8))
  {
    assert Join(lo, hi) == ((hi as bv64) << 32) | (lo as bv64);
  }

  lemma RotJoin18(lo: bv32, hi: bv32)
    ensures Rot(Join(lo, hi), 18) == Join(RotHalf(lo, hi, 18), RotHalf(hi, lo, 18))
  {
    assert Join(lo, hi) == ((hi as bv64) << 32) | (lo as bv64);
  }

  lemma RotJoin27(lo: bv32, hi: bv32)
    ensures Rot(Join(lo, hi), 27) == Join(RotHalf(lo, hi, 27), RotHalf(hi, lo, 27))
  {
    assert Join(lo, hi) == ((hi as bv64) << 32) | (lo as bv64);
  }

  lemma RotJoin36(lo: bv32, hi: bv32)
    ensures Rot(Join(lo, hi), 36) == Join(RotHalf(hi, lo, 4), RotHalf(lo, hi, 4))
  {
    assert Join(lo, hi) == ((hi as bv64) << 32) | (lo as bv64);
  }

  lemma RotJoin10(lo: bv32, hi: bv32)
    ensures Rot(Join(lo, hi), 10) == Join(RotHalf(lo, hi, 10), RotHalf(hi, lo, 10))
  {
    assert Join(lo, hi) == ((hi as bv64) << 32) | (lo as bv64);
  }

  lemma RotJoin15(lo: bv32, hi: bv32)
    ensures Rot(Join(lo, hi), 15) == Join(RotHalf(lo, hi, 15), RotHalf(hi, lo, 15))
  {
    assert Join(lo, hi) == ((hi as bv64) << 32) | (lo as bv64);
  }

  lemma RotJoin56(lo: bv32, hi: bv32)
    ensures Rot(Join(lo, hi), 56) == Join(RotHalf(hi, lo, 24), RotHalf(lo, hi, 24))
  {
    assert Join(lo, hi) == ((hi as bv64) << 32) | (lo as bv64);
  }

  lemma RotJoin62(lo: bv32, hi: bv32)
    ensures Rot(Join(lo, hi), 62) == Join(RotHalf(hi, lo, 30), RotHalf(lo, hi, 30))
  {
    assert Join(lo, hi) == ((hi as bv64) << 32) | (lo as bv64);
  }

  lemma RotJoin55(lo: bv32, hi: bv32)
    ensures Rot(Join(lo, hi), 55) == Join(RotHalf(hi, lo, 23), RotHalf(lo, hi, 23))
  {
    assert Join(lo, hi) == ((hi as bv64) << 32) | (lo as bv64);
  }

  lemma RotJoin39(lo: bv32, hi: bv32)
    ensures Rot(Join(lo, hi), 39) == Join(RotHalf(hi, lo, 7), RotHalf(lo, hi, 7))
  {
    assert Join(lo, hi) == ((hi as bv64) << 32) | (lo as bv64);
  }

  lemma RotJoin41(lo: bv32, hi: bv32)
    ensures Rot(Join(lo, hi), 41) == Join(RotHalf(hi, lo, 9), RotHalf(lo, hi, 9))
  {
    assert Join(lo, hi) == ((hi as bv64) << 32) | (lo as bv64);
  }

  lemma RotJoin2(lo: bv32, hi: bv32)
    ensures Rot(Join(lo, hi), 2) == Join(RotHalf(lo, hi, 2), RotHalf(hi, lo, 2))
  {
    assert Join(lo, hi) == ((hi as bv64) << 32) | (lo as bv64);
  }

  // For each lane k = x + 5y: RhoPiWordsLaneK unfolds b_2k and b_2k+1, RhoPiSpecLaneK
  // says lane k of pi after rho is lane (x + 3y) mod 5 + 5x rotated by that lane's rho
  // offset, and RhoPiLaneK joins the two.

  lemma RhoPiWordsLane0(w: WordState)
    ensures Lanes(RhoPiWords(w))[0] == Join(w[0], w[1])
  {
    LaneAt(RhoPiWords(w), 0);
  }

  lemma RhoPiSpecLane0(a: State)
    ensures Pi(Rho(a))[0] == a[0]
  {
  }

  lemma RhoPiLane0(w: WordState)
    ensures Lanes(RhoPiWords(w))[0] == Pi(Rho(Lanes(w)))[0]
  {
    RhoPiWordsLane0(w);
    RhoPiSpecLane0(Lanes(w));
    LaneAt(w, 0);
  }

  lemma RhoPiWordsLane1(w: WordState)
    ensures Lanes(RhoPiWords(w))[1] == Join(RotHalf(w[13], w[12], 12), RotHalf(w[12], w[13], 12))
  {
    LaneAt(RhoPiWords(w), 1);
  }

  lemma RhoPiSpecLane1(a: State)
    ensures Pi(Rho(a))[1] == Rot(a[6], 44)
  {
  }

  lemma RhoPiLane1(w: WordState)
    ensures Lanes(RhoPiWords(w))[1] == Pi(Rho(Lanes(w)))[1]
  {
    RhoPiWordsLane1(w);
    RhoPiSpecLane1(Lanes(w));
    LaneAt(w, 6);
    RotJoin44(w[12], w[13]);
  }

  lemma RhoPiWordsLane2(w: WordState)
    ensures Lanes(RhoPiWords(w))[2] == Join(RotHalf(w[25], w[24], 11), RotHalf(w[24], w[25], 11))
  {
    LaneAt(RhoPiWords(w), 2);
  }

  lemma RhoPiSpecLane2(a: State)
    ensures Pi(Rho(a))[2] == Rot(a[12], 43)
  {
  }

  lemma RhoPiLane2(w: WordState)
    ensures Lanes(RhoPiWords(w))[2] == Pi(Rho(Lanes(w)))[2]
  {
    RhoPiWordsLane2(w);
    RhoPiSpecLane2(Lanes(w));
    LaneAt(w, 12);
    RotJoin43(w[24], w[25]);
  }

  lemma RhoPiWordsLane3(w: WordState)
    ensures Lanes(RhoPiWords(w))[3] == Join(RotHalf(w[36], w[37], 21), RotHalf(w[37], w[36], 21))
  {
    LaneAt(RhoPiWords(w), 3);
  }

  lemma RhoPiSpecLane3(a: State)
    ensures Pi(Rho(a))[3] == Rot(a[18], 21)
  {
  }

  lemma RhoPiLane3(w: WordState)
    ensures Lanes(RhoPiWords(w))[3] == Pi(Rho(Lanes(w)))[3]
  {
    RhoPiWordsLane3(w);
    RhoPiSpecLane3(Lanes(w));
    LaneAt(w, 18);
    RotJoin21(w[36], w[37]);
  }

  lemma RhoPiWordsLane4(w: WordState)
    ensures Lanes(RhoPiWords(w))[4] == Join(RotHalf(w[48], w[49], 14), RotHalf(w[49], w[48], 14))
  {
    LaneAt(RhoPiWords(w), 4);
  }

  lemma RhoPiSpecLane4(a: State)
    ensures Pi(Rho(a))[4] == Rot(a[24], 14)
  {
  }

  lemma RhoPiLane4(w: WordState)
    ensures Lanes(RhoPiWords(w))[4] == Pi(Rho(Lanes(w)))[4]
  {
    RhoPiWordsLane4(w);
    RhoPiSpecLane4(Lanes(w));
    LaneAt(w, 24);
    RotJoin14(w[48], w[49]);
  }

  lemma RhoPiWordsLane5(w: WordState)
    ensures Lanes(RhoPiWords(w))[5] == Join(RotHalf(w[6], w[7], 28), RotHalf(w[7], w[6], 28))
  {
    LaneAt(RhoPiWords(w), 5);
  }

  lemma RhoPiSpecLane5(a: State)
    ensures Pi(Rho(a))[5] == Rot(a[3], 28)
  {
  }

  lemma RhoPiLane5(w: WordState)
    ensures Lanes(RhoPiWords(w))[5] == Pi(Rho(Lanes(w)))[5]
  {
    RhoPiWordsLane5(w);
    RhoPiSpecLane5(Lanes(w));
    LaneAt(w, 3);
    RotJoin28(w[6], w[7]);
  }

  lemma RhoPiWordsLane6(w: WordState)
    ensures Lanes(RhoPiWords(w))[6] == Join(RotHalf(w[18], w[19], 20), RotHalf(w[19], w[18], 20))
  {
    LaneAt(RhoPiWords(w), 6);
  }

  lemma RhoPiSpecLane6(a: State)
    ensures Pi(Rho(a))[6] == Rot(a[9], 20)
  {
  }

  lemma RhoPiLane6(w: WordState)
    ensures Lanes(RhoPiWords(w))[6] == Pi(Rho(Lanes(w)))[6]
  {
    RhoPiWordsLane6(w);
    RhoPiSpecLane6(Lanes(w));
    LaneAt(w, 9);
    RotJoin20(w[18], w[19]);
  }

  lemma RhoPiWordsLane7(w: WordState)
    ensures Lanes(RhoPiWords(w))[7] == Join(RotHalf(w[20], w[21], 3), RotHalf(w[21], w[20], 3))
  {
    LaneAt(RhoPiWords(w), 7);
  }

  lemma RhoPiSpecLane7(a: State)
    ensures Pi(Rho(a))[7] == Rot(a[10], 3)
  {
  }

  lemma RhoPiLane7(w: WordState)
    ensures Lanes(RhoPiWords(w))[7] == Pi(Rho(Lanes(w)))[7]
  {
    RhoPiWordsLane7(w);
    RhoPiSpecLane7(Lanes(w));
    LaneAt(w, 10);
    RotJoin3(w[20], w[21]);
  }

  lemma RhoPiWordsLane8(w: WordState)
    ensures Lanes(RhoPiWords(w))[8] == Join(RotHalf(w[33], w[32], 13), RotHalf(w[32], w[33], 13))
  {
    LaneAt(RhoPiWords(w), 8);
  }

  lemma RhoPiSpecLane8(a: State)
    ensures Pi(Rho(a))[8] == Rot(a[16], 45)
  {
  }

  lemma RhoPiLane8(w: WordState)
    ensures Lanes(RhoPiWords(w))[8] == Pi(Rho(Lanes(w)))[8]
  {
    RhoPiWordsLane8(w);
    RhoPiSpecLane8(Lanes(w));
    LaneAt(w, 16);
    RotJoin45(w[32], w[33]);
  }

  lemma RhoPiWordsLane9(w: WordState)
    ensures Lanes(RhoPiWords(w))[9] == Join(RotHalf(w[45], w[44], 29), RotHalf(w[44], w[45], 29))
  {
    LaneAt(RhoPiWords(w), 9);
  }

  lemma RhoPiSpecLane9(a: State)
    ensures Pi(Rho(a))[9] == Rot(a[22], 61)
  {
  }

  lemma RhoPiLane9(w: WordState)
    ensures Lanes(RhoPiWords(w))[9] == Pi(Rho(Lanes(w)))[9]
  {
    RhoPiWordsLane9(w);
    RhoPiSpecLane9(Lanes(w));
    LaneAt(w, 22);
    RotJoin61(w[44], w[45]);
  }

  lemma RhoPiWordsLane10(w: WordState)
    ensures Lanes(RhoPiWords(w))[10] == Join(RotHalf(w[2], w[3], 1), RotHalf(w[3], w[2], 1))
  {
    LaneAt(RhoPiWords(w), 10);
  }

  lemma RhoPiSpecLane10(a: State)
    ensures Pi(Rho(a))[10] == Rot(a[1], 1)
  {
  }

  lemma RhoPiLane10(w: WordState)
    ensures Lanes(RhoPiWords(w))[10] == Pi(Rho(Lanes(w)))[10]
  {
    RhoPiWordsLane10(w);
    RhoPiSpecLane10(Lanes(w));
    LaneAt(w, 1);
    RotOne(w[2], w[3]);
  }

  lemma RhoPiWordsLane11(w: WordState)
    ensures Lanes(RhoPiWords(w))[11] == Join(RotHalf(w[14], w[15], 6), RotHalf(w[15], w[14], 6))
  {
    LaneAt(RhoPiWords(w), 11);
  }

  lemma RhoPiSpecLane11(a: State)
    ensures Pi(Rho(a))[11] == Rot(a[7], 6)
  {
  }

  lemma RhoPiLane11(w: WordState)
    ensures Lanes(RhoPiWords(w))[11] == Pi(Rho(Lanes(w)))[11]
  {
    RhoPiWordsLane11(w);
    RhoPiSpecLane11(Lanes(w));
    LaneAt(w, 7);
    RotJoin6(w[14], w[15]);
  }

  lemma RhoPiWordsLane12(w: WordState)
    ensures Lanes(RhoPiWords(w))[12] == Join(RotHalf(w[26], w[27], 25), RotHalf(w[27], w[26], 25))
  {
    LaneAt(RhoPiWords(w), 12);
  }

  lemma RhoPiSpecLane12(a: State)
    ensures Pi(Rho(a))[12] == Rot(a[13], 25)
  {
  }

  lemma RhoPiLane12(w: WordState)
    ensures Lanes(RhoPiWords(w))[12] == Pi(Rho(Lanes(w)))[12]
  {
    RhoPiWordsLane12(w);
    RhoPiSpecLane12(Lanes(w));
    LaneAt(w, 13);
    RotJoin25(w[26], w[27]);
  }

  lemma RhoPiWordsLane13(w: WordState)
    ensures Lanes(RhoPiWords(w))[13] == Join(RotHalf(w[38], w[39], 8), RotHalf(w[39], w[38], 8))
  {
    LaneAt(RhoPiWords(w), 13);
  }

  lemma RhoPiSpecLane13(a: State)
    ensures Pi(Rho(a))[13] == Rot(a[19], 8)
  {
  }

  lemma RhoPiLane13(w: WordState)
    ensures Lanes(RhoPiWords(w))[13] == Pi(Rho(Lanes(w)))[13]
  {
    RhoPiWordsLane13(w);
    RhoPiSpecLane13(Lanes(w));
    LaneAt(w, 19);
    RotJoin8(w[38], w[39]);
  }

  lemma RhoPiWordsLane14(w: WordState)
    ensures Lanes(RhoPiWords(w))[14] == Join(RotHalf(w[40], w[41], 18), RotHalf(w[41], w[40], 18))
  {
    LaneAt(RhoPiWords(w), 14);
  }

  lemma RhoPiSpecLane14(a: State)
    ensures Pi(Rho(a))[14] == Rot(a[20], 18)
  {
  }

  lemma RhoPiLane14(w: WordState)
    ensures Lanes(RhoPiWords(w))[14] == Pi(Rho(Lanes(w)))[14]
  {
    RhoPiWordsLane14(w);
    RhoPiSpecLane14(Lanes(w));
    LaneAt(w, 20);
    RotJoin18(w[40], w[41]);
  }

  lemma RhoPiWordsLane15(w: WordState)
    ensures Lanes(RhoPiWords(w))[15] == Join(RotHalf(w[8], w[9], 27), RotHalf(w[9], w[8], 27))
  {
    LaneAt(RhoPiWords(w), 15);
  }

  lemma RhoPiSpecLane15(a: State)
    ensures Pi(Rho(a))[15] == Rot(a[4], 27)
  {
  }

  lemma RhoPiLane15(w: WordState)
    ensures Lanes(RhoPiWords(w))[15] == Pi(Rho(Lanes(w)))[15]
  {
    RhoPiWordsLane15(w);
    RhoPiSpecLane15(Lanes(w));
    LaneAt(w, 4);
    RotJoin27(w[8], w[9]);
  }

  lemma RhoPiWordsLane16(w: WordState)
    ensures Lanes(RhoPiWords(w))[16] == Join(RotHalf(w[11], w[10], 4), RotHalf(w[10], w[11], 4))
  {
    LaneAt(RhoPiWords(w), 16);
  }

  lemma RhoPiSpecLane16(a: State)
    ensures Pi(Rho(a))[16] == Rot(a[5], 36)
  {
  }

  lemma RhoPiLane16(w: WordState)
    ensures Lanes(RhoPiWords(w))[16] == Pi(Rho(Lanes(w)))[16]
  {
    RhoPiWordsLane16(w);
    RhoPiSpecLane16(Lanes(w));
    LaneAt(w, 5);
    RotJoin36(w[10], w[11]);
  }

  lemma RhoPiWordsLane17(w: WordState)
    ensures Lanes(RhoPiWords(w))[17] == Join(RotHalf(w[22], w[23], 10), RotHalf(w[23], w[22], 10))
  {
    LaneAt(RhoPiWords(w), 17);
  }

  lemma RhoPiSpecLane17(a: State)
    ensures Pi(Rho(a))[17] == Rot(a[11], 10)
  {
  }

  lemma RhoPiLane17(w: WordState)
    ensures Lanes(RhoPiWords(w))[17] == Pi(Rho(Lanes(w)))[17]
  {
    RhoPiWordsLane17(w);
    RhoPiSpecLane17(Lanes(w));
    LaneAt(w, 11);
    RotJoin10(w[22], w[23]);
  }

  lemma RhoPiWordsLane18(w: WordState)
    ensures Lanes(RhoPiWords(w))[18] == Join(RotHalf(w[34], w[35], 15), RotHalf(w[35], w[34], 15))
  {
    LaneAt(RhoPiWords(w), 18);
  }

  lemma RhoPiSpecLane18(a: State)
    ensures Pi(Rho(a))[18] == Rot(a[17], 15)
  {
  }

  lemma RhoPiLane18(w: WordState)
    ensures Lanes(RhoPiWords(w))[18] == Pi(Rho(Lanes(w)))[18]
  {
    RhoPiWordsLane18(w);
    RhoPiSpecLane18(Lanes(w));
    LaneAt(w, 17);
    RotJoin15(w[34], w[35]);
  }

  lemma RhoPiWordsLane19(w: WordState)
    ensures Lanes(RhoPiWords(w))[19] == Join(RotHalf(w[47], w[46], 24), RotHalf(w[46], w[47], 24))
  {
    LaneAt(RhoPiWords(w), 19);
  }

  lemma RhoPiSpecLane19(a: State)
    ensures Pi(Rho(a))[19] == Rot(a[23], 56)
  {
  }

  lemma RhoPiLane19(w: WordState)
    ensures Lanes(RhoPiWords(w))[19] == Pi(Rho(Lanes(w)))[19]
  {
    RhoPiWordsLane19(w);
    RhoPiSpecLane19(Lanes(w));
    LaneAt(w, 23);
    RotJoin56(w[46], w[47]);
  }

  lemma RhoPiWordsLane20(w: WordState)
    ensures Lanes(RhoPiWords(w))[20] == Join(RotHalf(w[5], w[4], 30), RotHalf(w[4], w[5], 30))
  {
    LaneAt(RhoPiWords(w), 20);
  }

  lemma RhoPiSpecLane20(a: State)
    ensures Pi(Rho(a))[20] == Rot(a[2], 62)
  {
  }

  lemma RhoPiLane20(w: WordState)
    ensures Lanes(RhoPiWords(w))[20] == Pi(Rho(Lanes(w)))[20]
  {
    RhoPiWordsLane20(w);
    RhoPiSpecLane20(Lanes(w));
    LaneAt(w, 2);
    RotJoin62(w[4], w[5]);
  }

  lemma RhoPiWordsLane21(w: WordState)
    ensures Lanes(RhoPiWords(w))[21] == Join(RotHalf(w[17], w[16], 23), RotHalf(w[16], w[17], 23))
  {
    LaneAt(RhoPiWords(w), 21);
  }

  lemma RhoPiSpecLane21(a: State)
    ensures Pi(Rho(a))[21] == Rot(a[8], 55)
  {
  }

  lemma RhoPiLane21(w: WordState)
    ensures Lanes(RhoPiWords(w))[21] == Pi(Rho(Lanes(w)))[21]
  {
    RhoPiWordsLane21(w);
    RhoPiSpecLane21(Lanes(w));
    LaneAt(w, 8);
    RotJoin55(w[16], w[17]);
  }

  lemma RhoPiWordsLane22(w: WordState)
    ensures Lanes(RhoPiWords(w))[22] == Join(RotHalf(w[29], w[28], 7), RotHalf(w[28], w[29], 7))
  {
    LaneAt(RhoPiWords(w), 22);
  }

  lemma RhoPiSpecLane22(a: State)
    ensures Pi(Rho(a))[22] == Rot(a[14], 39)
  {
  }

  lemma RhoPiLane22(w: WordState)
    ensures Lanes(RhoPiWords(w))[22] == Pi(Rho(Lanes(w)))[22]
  {
    RhoPiWordsLane22(w);
    RhoPiSpecLane22(Lanes(w));
    LaneAt(w, 14);
    RotJoin39(w[28], w[29]);
  }

  lemma RhoPiWordsLane23(w: WordState)
    ensures Lanes(RhoPiWords(w))[23] == Join(RotHalf(w[31], w[30], 9), RotHalf(w[30], w[31], 9))
  {
    LaneAt(RhoPiWords(w), 23);
  }

  lemma RhoPiSpecLane23(a: State)
    ensures Pi(Rho(a))[23] == Rot(a[15], 41)
  {
  }

  lemma RhoPiLane23(w: WordState)
    ensures Lanes(RhoPiWords(w))[23] == Pi(Rho(Lanes(w)))[23]
  {
    RhoPiWordsLane23(w);
    RhoPiSpecLane23(Lanes(w));
    LaneAt(w, 15);
    RotJoin41(w[30], w[31]);
  }

  lemma RhoPiWordsLane24(w: WordState)
    ensures Lanes(RhoPiWords(w))[24] == Join(RotHalf(w[42], w[43], 2), RotHalf(w[43], w[42], 2))
  {
    LaneAt(RhoPiWords(w), 24);
  }

  lemma RhoPiSpecLane24(a: State)
    ensures Pi(Rho(a))[24] == Rot(a[21], 2)
  {
  }

  lemma RhoPiLane24(w: WordState)
    ensures Lanes(RhoPiWords(w))[24] == Pi(Rho(Lanes(w)))[24]
  {
    RhoPiWordsLane24(w);
    RhoPiSpecLane24(Lanes(w));
    LaneAt(w, 21);
    RotJoin2(w[42], w[43]);
  }

  /** The implementation's b0 .. b49 are the lanes of pi after rho. */
  lemma RhoPiRefines(w: WordState)
    ensures Lanes(RhoPiWords(w)) == Pi(Rho(Lanes(w)))
  {
    RhoPiLane0(w);
    RhoPiLane1(w);
    RhoPiLane2(w);
    RhoPiLane3(w);
    RhoPiLane4(w);
    RhoPiLane5(w);
    RhoPiLane6(w);
    RhoPiLane7(w);
    RhoPiLane8(w);
    RhoPiLane9(w);
    RhoPiLane10(w);
    RhoPiLane11(w);
    RhoPiLane12(w);
    RhoPiLane13(w);
    RhoPiLane14(w);
    RhoPiLane15(w);
    RhoPiLane16(w);
    RhoPiLane17(w);
    RhoPiLane18(w);
    RhoPiLane19(w);
    RhoPiLane20(w);
    RhoPiLane21(w);
    RhoPiLane22(w);
    RhoPiLane23(w);
    RhoPiLane24(w);
    LanesExt(Lanes(RhoPiWords(w)), Pi(Rho(Lanes(w))));
  }

  // ---------------------------------------------------------------------------
  // chi

  // ChiWordsLaneK unfolds the two words of lane k of the word-level chi, ChiSpecLaneK
  // says lane k = x + 5y of chi combines lanes k, (x + 1) mod 5 + 5y and
  // (x + 2) mod 5 + 5y, and ChiLaneK joins the two.

  lemma ChiWordsLane0(b: WordState)
    ensures Lanes(ChiWords(b))[0] ==
            Join(Chi32(b[0], b[2], b[4]), Chi32(b[1], b[3], b[5]))
  {
    LaneAt(ChiWords(b), 0);
  }

  lemma ChiWordsLane1(b: WordState)
    ensures Lanes(ChiWords(b))[1] ==
            Join(Chi32(b[2], b[4], b[6]), Chi32(b[3], b[5], b[7]))
  {
    LaneAt(ChiWords(b), 1);
  }

  lemma ChiWordsLane2(b: WordState)
    ensures Lanes(ChiWords(b))[2] ==
            Join(Chi32(b[4], b[6], b[8]), Chi32(b[5], b[7], b[9]))
  {
    LaneAt(ChiWords(b), 2);
  }

  lemma ChiWordsLane3(b: WordState)
    ensures Lanes(ChiWords(b))[3] ==
            Join(Chi32(b[6], b[8], b[0]), Chi32(b[7], b[9], b[1]))
  {
    LaneAt(ChiWords(b), 3);
  }

  lemma ChiWordsLane4(b: WordState)
    ensures Lanes(ChiWords(b))[4] ==
            Join(Chi32(b[8], b[0], b[2]), Chi32(b[9], b[1], b[3]))
  {
    LaneAt(ChiWords(b), 4);
  }

  lemma ChiWordsLane5(b: WordState)
    ensures Lanes(ChiWords(b))[5] ==
            Join(Chi32(b[10], b[12], b[14]), Chi32(b[11], b[13], b[15]))
  {
    LaneAt(ChiWords(b), 5);
  }

  lemma ChiWordsLane6(b: WordState)
    ensures Lanes(ChiWords(b))[6] ==
            Join(Chi32(b[12], b[14], b[16]), Chi32(b[13], b[15], b[17]))
  {
    LaneAt(ChiWords(b), 6);
  }

  lemma ChiWordsLane7(b: WordState)
    ensures Lanes(ChiWords(b))[7] ==
            Join(Chi32(b[14], b[16], b[18]), Chi32(b[15], b[17], b[19]))
  {
    LaneAt(ChiWords(b), 7);
  }

  lemma ChiWordsLane8(b: WordState)
    ensures Lanes(ChiWords(b))[8] ==
            Join(Chi32(b[16], b[18], b[10]), Chi32(b[17], b[19], b[11]))
  {
    LaneAt(ChiWords(b), 8);
  }

  lemma ChiWordsLane9(b: WordState)
    ensures Lanes(ChiWords(b))[9] ==
            Join(Chi32(b[18], b[10], b[12]), Chi32(b[19], b[11], b[13]))
  {
    LaneAt(ChiWords(b), 9);
  }

  lemma ChiWordsLane10(b: WordState)
    ensures Lanes(ChiWords(b))[10] ==
            Join(Chi32(b[20], b[22], b[24]), Chi32(b[21], b[23], b[25]))
  {
    LaneAt(ChiWords(b), 10);
  }

  lemma ChiWordsLane11(b: WordState)
    ensures Lanes(ChiWords(b))[11] ==
            Join(Chi32(b[22], b[24], b[26]), Chi32(b[23], b[25], b[27]))
  {
    LaneAt(ChiWords(b), 11);
  }

  lemma ChiWordsLane12(b: WordState)
    ensures Lanes(ChiWords(b))[12] ==
            Join(Chi32(b[24], b[26], b[28]), Chi32(b[25], b[27], b[29]))
  {
    LaneAt(ChiWords(b), 12);
  }

  lemma ChiWordsLane13(b: WordState)
    ensures Lanes(ChiWords(b))[13] ==
            Join(Chi32(b[26], b[28], b[20]), Chi32(b[27], b[29], b[21]))
  {
    LaneAt(ChiWords(b), 13);
  }

  lemma ChiWordsLane14(b: WordState)
    ensures Lanes(ChiWords(b))[14] ==
            Join(Chi32(b[28], b[20], b[22]), Chi32(b[29], b[21], b[23]))
  {
    LaneAt(ChiWords(b), 14);
  }

  lemma ChiWordsLane15(b: WordState)
    ensures Lanes(ChiWords(b))[15] ==
            Join(Chi32(b[30], b[32], b[34]), Chi32(b[31], b[33], b[35]))
  {
    LaneAt(ChiWords(b), 15);
  }

  lemma ChiWordsLane16(b: WordState)
    ensures Lanes(ChiWords(b))[16] ==
            Join(Chi32(b[32], b[34], b[36]), Chi32(b[33], b[35], b[37]))
  {
    LaneAt(ChiWords(b), 16);
  }

  lemma ChiWordsLane17(b: WordState)
    ensures Lanes(ChiWords(b))[17] ==
            Join(Chi32(b[34], b[36], b[38]), Chi32(b[35], b[37], b[39]))
  {
    LaneAt(ChiWords(b), 17);
  }

  lemma ChiWordsLane18(b: WordState)
    ensures Lanes(ChiWords(b))[18] ==
            Join(Chi32(b[36], b[38], b[30]), Chi32(b[37], b[39], b[31]))
  {
    LaneAt(ChiWords(b), 18);
  }

  lemma ChiWordsLane19(b: WordState)
    ensures Lanes(ChiWords(b))[19] ==
            Join(Chi32(b[38], b[30], b[32]), Chi32(b[39], b[31], b[33]))
  {
    LaneAt(ChiWords(b), 19);
  }

  lemma ChiWordsLane20(b: WordState)
    ensures Lanes(ChiWords(b))[20] ==
            Join(Chi32(b[40], b[42], b[44]), Chi32(b[41], b[43], b[45]))
  {
    LaneAt(ChiWords(b), 20);
  }

  lemma ChiWordsLane21(b: WordState)
    ensures Lanes(ChiWords(b))[21] ==
            Join(Chi32(b[42], b[44], b[46]), Chi32(b[43], b[45], b[47]))
  {
    LaneAt(ChiWords(b), 21);
  }

  lemma ChiWordsLane22(b: WordState)
    ensures Lanes(ChiWords(b))[22] ==
            Join(Chi32(b[44], b[46], b[48]), Chi32(b[45], b[47], b[49]))
  {
    LaneAt(ChiWords(b), 22);
  }

  lemma ChiWordsLane23(b: WordState)
    ensures Lanes(ChiWords(b))[23] ==
            Join(Chi32(b[46], b[48], b[40]), Chi32(b[47], b[49], b[41]))
  {
    LaneAt(ChiWords(b), 23);
  }

  lemma ChiWordsLane24(b: WordState)
    ensures Lanes(ChiWords(b))[24] ==
            Join(Chi32(b[48], b[40], b[42]), Chi32(b[49], b[41], b[43]))
  {
    LaneAt(ChiWords(b), 24);
  }

  lemma ChiSpecLane0(a: State)
    ensures Chi(a)[0] == Chi64(a[0], a[1], a[2])
  {
  }

  lemma ChiLane0(b: WordState)
    ensures Lanes(ChiWords(b))[0] == Chi(Lanes(b))[0]
  {
    ChiWordsLane0(b);
    ChiSpecLane0(Lanes(b));
    LaneAt(b, 0);
    LaneAt(b, 1);
    LaneAt(b, 2);
    JoinChi(b[0], b[1], b[2], b[3], b[4], b[5]);
  }

  lemma ChiSpecLane1(a: State)
    ensures Chi(a)[1] == Chi64(a[1], a[2], a[3])
  {
  }

  lemma ChiLane1(b: WordState)
    ensures Lanes(ChiWords(b))[1] == Chi(Lanes(b))[1]
  {
    ChiWordsLane1(b);
    ChiSpecLane1(Lanes(b));
    LaneAt(b, 1);
    LaneAt(b, 2);
    LaneAt(b, 3);
    JoinChi(b[2], b[3], b[4], b[5], b[6], b[7]);
  }

  lemma ChiSpecLane2(a: State)
    ensures Chi(a)[2] == Chi64(a[2], a[3], a[4])
  {
  }

  lemma ChiLane2(b: WordState)
    ensures Lanes(ChiWords(b))[2] == Chi(Lanes(b))[2]
  {
    ChiWordsLane2(b);
    ChiSpecLane2(Lanes(b));
    LaneAt(b, 2);
    LaneAt(b, 3);
    LaneAt(b, 4);
    JoinChi(b[4], b[5], b[6], b[7], b[8], b[9]);
  }

  lemma ChiSpecLane3(a: State)
    ensures Chi(a)[3] == Chi64(a[3], a[4], a[0])
  {
  }

  lemma ChiLane3(b: WordState)
    ensures Lanes(ChiWords(b))[3] == Chi(Lanes(b))[3]
  {
    ChiWordsLane3(b);
    ChiSpecLane3(Lanes(b));
    LaneAt(b, 3);
    LaneAt(b, 4);
    LaneAt(b, 0);
    JoinChi(b[6], b[7], b[8], b[9], b[0], b[1]);
  }

  lemma ChiSpecLane4(a: State)
    ensures Chi(a)[4] == Chi64(a[4], a[0], a[1])
  {
  }

  lemma ChiLane4(b: WordState)
    ensures Lanes(ChiWords(b))[4] == Chi(Lanes(b))[4]
  {
    ChiWordsLane4(b);
    ChiSpecLane4(Lanes(b));
    LaneAt(b, 4);
    LaneAt(b, 0);
    LaneAt(b, 1);
    JoinChi(b[8], b[9], b[0], b[1], b[2], b[3]);
  }

  lemma ChiSpecLane5(a: State)
    ensures Chi(a)[5] == Chi64(a[5], a[6], a[7])
  {
  }

  lemma ChiLane5(b: WordState)
    ensures Lanes(ChiWords(b))[5] == Chi(Lanes(b))[5]
  {
    ChiWordsLane5(b);
    ChiSpecLane5(Lanes(b));
    LaneAt(b, 5);
    LaneAt(b, 6);
    LaneAt(b, 7);
    JoinChi(b[10], b[11], b[12], b[13], b[14], b[15]);
  }

  lemma ChiSpecLane6(a: State)
    ensures Chi(a)[6] == Chi64(a[6], a[7], a[8])
  {
  }

  lemma ChiLane6(b: WordState)
    ensures Lanes(ChiWords(b))[6] == Chi(Lanes(b))[6]
  {
    ChiWordsLane6(b);
    ChiSpecLane6(Lanes(b));
    LaneAt(b, 6);
    LaneAt(b, 7);
    LaneAt(b, 8);
    JoinChi(b[12], b[13], b[14], b[15], b[16], b[17]);
  }

  lemma ChiSpecLane7(a: State)
    ensures Chi(a)[7] == Chi64(a[7], a[8], a[9])
  {
  }

  lemma ChiLane7(b: WordState)
    ensures Lanes(ChiWords(b))[7] == Chi(Lanes(b))[7]
  {
    ChiWordsLane7(b);
    ChiSpecLane7(Lanes(b));
    LaneAt(b, 7);
    LaneAt(b, 8);
    LaneAt(b, 9);
    JoinChi(b[14], b[15], b[16], b[17], b[18], b[19]);
  }

  lemma ChiSpecLane8(a: State)
    ensures Chi(a)[8] == Chi64(a[8], a[9], a[5])
  {
  }

  lemma ChiLane8(b: WordState)
    ensures Lanes(ChiWords(b))[8] == Chi(Lanes(b))[8]
  {
    ChiWordsLane8(b);
    ChiSpecLane8(Lanes(b));
    LaneAt(b, 8);
    LaneAt(b, 9);
    LaneAt(b, 5);
    JoinChi(b[16], b[17], b[18], b[19], b[10], b[11]);
  }

  lemma ChiSpecLane9(a: State)
    ensures Chi(a)[9] == Chi64(a[9], a[5], a[6])
  {
  }

  lemma ChiLane9(b: WordState)
    ensures Lanes(ChiWords(b))[9] == Chi(Lanes(b))[9]
  {
    ChiWordsLane9(b);
    ChiSpecLane9(Lanes(b));
    LaneAt(b, 9);
    LaneAt(b, 5);
    LaneAt(b, 6);
    JoinChi(b[18], b[19], b[10], b[11], b[12], b[13]);
  }

  lemma ChiSpecLane10(a: State)
    ensures Chi(a)[10] == Chi64(a[10], a[11], a[12])
  {
  }

  lemma ChiLane10(b: WordState)
    ensures Lanes(ChiWords(b))[10] == Chi(Lanes(b))[10]
  {
    ChiWordsLane10(b);
    ChiSpecLane10(Lanes(b));
    LaneAt(b, 10);
    LaneAt(b, 11);
    LaneAt(b, 12);
    JoinChi(b[20], b[21], b[22], b[23], b[24], b[25]);
  }

  lemma ChiSpecLane11(a: State)
    ensures Chi(a)[11] == Chi64(a[11], a[12], a[13])
  {
  }

  lemma ChiLane11(b: WordState)
    ensures Lanes(ChiWords(b))[11] == Chi(Lanes(b))[11]
  {
    ChiWordsLane11(b);
    ChiSpecLane11(Lanes(b));
    LaneAt(b, 11);
    LaneAt(b, 12);
    LaneAt(b, 13);
    JoinChi(b[22], b[23], b[24], b[25], b[26], b[27]);
  }

  lemma ChiSpecLane12(a: State)
    ensures Chi(a)[12] == Chi64(a[12], a[13], a[14])
  {
  }

  lemma ChiLane12(b: WordState)
    ensures Lanes(ChiWords(b))[12] == Chi(Lanes(b))[12]
  {
    ChiWordsLane12(b);
    ChiSpecLane12(Lanes(b));
    LaneAt(b, 12);
    LaneAt(b, 13);
    LaneAt(b, 14);
    JoinChi(b[24], b[25], b[26], b[27], b[28], b[29]);
  }

  lemma ChiSpecLane13(a: State)
    ensures Chi(a)[13] == Chi64(a[13], a[14], a[10])
  {
  }

  lemma ChiLane13(b: WordState)
    ensures Lanes(ChiWords(b))[13] == Chi(Lanes(b))[13]
  {
    ChiWordsLane13(b);
    ChiSpecLane13(Lanes(b));
    LaneAt(b, 13);
    LaneAt(b, 14);
    LaneAt(b, 10);
    JoinChi(b[26], b[27], b[28], b[29], b[20], b[21]);
  }

  lemma ChiSpecLane14(a: State)
    ensures Chi(a)[14] == Chi64(a[14], a[10], a[11])
  {
  }

  lemma ChiLane14(b: WordState)
    ensures Lanes(ChiWords(b))[14] == Chi(Lanes(b))[14]
  {
    ChiWordsLane14(b);
    ChiSpecLane14(Lanes(b));
    LaneAt(b, 14);
    LaneAt(b, 10);
    LaneAt(b, 11);
    JoinChi(b[28], b[29], b[20], b[21], b[22], b[23]);
  }

  lemma ChiSpecLane15(a: State)
    ensures Chi(a)[15] == Chi64(a[15], a[16], a[17])
  {
  }

  lemma ChiLane15(b: WordState)
    ensures Lanes(ChiWords(b))[15] == Chi(Lanes(b))[15]
  {
    ChiWordsLane15(b);
    ChiSpecLane15(Lanes(b));
    LaneAt(b, 15);
    LaneAt(b, 16);
    LaneAt(b, 17);
    JoinChi(b[30], b[31], b[32], b[33], b[34], b[35]);
  }

  lemma ChiSpecLane16(a: State)
    ensures Chi(a)[16] == Chi64(a[16], a[17], a[18])
  {
  }

  lemma ChiLane16(b: WordState)
    ensures Lanes(ChiWords(b))[16] == Chi(Lanes(b))[16]
  {
    ChiWordsLane16(b);
    ChiSpecLane16(Lanes(b));
    LaneAt(b, 16);
    LaneAt(b, 17);
    LaneAt(b, 18);
    JoinChi(b[32], b[33], b[34], b[35], b[36], b[37]);
  }

  lemma ChiSpecLane17(a: State)
    ensures Chi(a)[17] == Chi64(a[17], a[18], a[19])
  {
  }

  lemma ChiLane17(b: WordState)
    ensures Lanes(ChiWords(b))[17] == Chi(Lanes(b))[17]
  {
    ChiWordsLane17(b);
    ChiSpecLane17(Lanes(b));
    LaneAt(b, 17);
    LaneAt(b, 18);
    LaneAt(b, 19);
    JoinChi(b[34], b[35], b[36], b[37], b[38], b[39]);
  }

  lemma ChiSpecLane18(a: State)
    ensures Chi(a)[18] == Chi64(a[18], a[19], a[15])
  {
  }

  lemma ChiLane18(b: WordState)
    ensures Lanes(ChiWords(b))[18] == Chi(Lanes(b))[18]
  {
    ChiWordsLane18(b);
    ChiSpecLane18(Lanes(b));
    LaneAt(b, 18);
    LaneAt(b, 19);
    LaneAt(b, 15);
    JoinChi(b[36], b[37], b[38], b[39], b[30], b[31]);
  }

  lemma ChiSpecLane19(a: State)
    ensures Chi(a)[19] == Chi64(a[19], a[15], a[16])
  {
  }

  lemma ChiLane19(b: WordState)
    ensures Lanes(ChiWords(b))[19] == Chi(Lanes(b))[19]
  {
    ChiWordsLane19(b);
    ChiSpecLane19(Lanes(b));
    LaneAt(b, 19);
    LaneAt(b, 15);
    LaneAt(b, 16);
    JoinChi(b[38], b[39], b[30], b[31], b[32], b[33]);
  }

  lemma ChiSpecLane20(a: State)
    ensures Chi(a)[20] == Chi64(a[20], a[21], a[22])
  {
  }

  lemma ChiLane20(b: WordState)
    ensures Lanes(ChiWords(b))[20] == Chi(Lanes(b))[20]
  {
    ChiWordsLane20(b);
    ChiSpecLane20(Lanes(b));
    LaneAt(b, 20);
    LaneAt(b, 21);
    LaneAt(b, 22);
    JoinChi(b[40], b[41], b[42], b[43], b[44], b[45]);
  }

  lemma ChiSpecLane21(a: State)
    ensures Chi(a)[21] == Chi64(a[21], a[22], a[23])
  {
  }

  lemma ChiLane21(b: WordState)
    ensures Lanes(ChiWords(b))[21] == Chi(Lanes(b))[21]
  {
    ChiWordsLane21(b);
    ChiSpecLane21(Lanes(b));
    LaneAt(b, 21);
    LaneAt(b, 22);
    LaneAt(b, 23);
    JoinChi(b[42], b[43], b[44], b[45], b[46], b[47]);
  }

  lemma ChiSpecLane22(a: State)
    ensures Chi(a)[22] == Chi64(a[22], a[23], a[24])
  {
  }

  lemma ChiLane22(b: WordState)
    ensures Lanes(ChiWords(b))[22] == Chi(Lanes(b))[22]
  {
    ChiWordsLane22(b);
    ChiSpecLane22(Lanes(b));
    LaneAt(b, 22);
    LaneAt(b, 23);
    LaneAt(b, 24);
    JoinChi(b[44], b[45], b[46], b[47], b[48], b[49]);
  }

  lemma ChiSpecLane23(a: State)
    ensures Chi(a)[23] == Chi64(a[23], a[24], a[20])
  {
  }

  lemma ChiLane23(b: WordState)
    ensures Lanes(ChiWords(b))[23] == Chi(Lanes(b))[23]
  {
    ChiWordsLane23(b);
    ChiSpecLane23(Lanes(b));
    LaneAt(b, 23);
    LaneAt(b, 24);
    LaneAt(b, 20);
    JoinChi(b[46], b[47], b[48], b[49], b[40], b[41]);
  }

  lemma ChiSpecLane24(a: State)
    ensures Chi(a)[24] == Chi64(a[24], a[20], a[21])
  {
  }

  lemma ChiLane24(b: WordState)
    ensures Lanes(ChiWords(b))[24] == Chi(Lanes(b))[24]
  {
    ChiWordsLane24(b);
    ChiSpecLane24(Lanes(b));
    LaneAt(b, 24);
    LaneAt(b, 20);
    LaneAt(b, 21);
    JoinChi(b[48], b[49], b[40], b[41], b[42], b[43]);
  }

  /** The implementation's chi is chi. */
  lemma ChiRefines(b: WordState)
    ensures Lanes(ChiWords(b)) == Chi(Lanes(b))
  {
    ChiLane0(b);
    ChiLane1(b);
    ChiLane2(b);
    ChiLane3(b);
    ChiLane4(b);
    ChiLane5(b);
    ChiLane6(b);
    ChiLane7(b);
    ChiLane8(b);
    ChiLane9(b);
    ChiLane10(b);
    ChiLane11(b);
    ChiLane12(b);
    ChiLane13(b);
    ChiLane14(b);
    ChiLane15(b);
    ChiLane16(b);
    ChiLane17(b);
    ChiLane18(b);
    ChiLane19(b);
    ChiLane20(b);
    ChiLane21(b);
    ChiLane22(b);
    ChiLane23(b);
    ChiLane24(b);
    LanesExt(Lanes(ChiWords(b)), Chi(Lanes(b)));
  }

  // ---------------------------------------------------------------------------
  // iota, one round, the permutation

  /** Lane 0 after the implementation's iota: the round constant xored in, half by half. */
  lemma IotaLaneZero(s: WordState, ir: nat)
    requires ir < NumRounds
    ensures Lanes(IotaWords(s, ir))[0] == Xor64(Lanes(s)[0], RoundConstant(ir))
  {
    var lo, hi := RoundConstantWord(2 * ir), RoundConstantWord(2 * ir + 1);
    LaneAt(IotaWords(s, ir), 0);
    LaneAt(s, 0);
    RoundConstantHalves(ir);
    JoinXor(s[0], s[1], lo, hi);
  }

  /** The implementation's iota in round ir is iota of round ir. */
  lemma IotaRefines(s: WordState, ir: nat)
    requires ir < NumRounds
    ensures Lanes(IotaWords(s, ir)) == Iota(Lanes(s), ir)
  {
    var t := IotaWords(s, ir);
    IotaLaneZero(s, ir);
    forall k | 1 <= k < 25
      ensures Lanes(t)[k] == Lanes(s)[k]
    {
      LaneAt(t, k);
      LaneAt(s, k);
    }
  }

  /** The loop body is theta, rho and pi, chi and iota in that order. */
  lemma RoundWordsSteps(s: WordState, ir: nat)
    requires ir < NumRounds
    ensures RoundWords(s, ir) == IotaWords(ChiWords(RhoPiWords(ThetaWords(s))), ir)
  {
    assert StepsWords(s, ir, 1) == ThetaWords(s);
    assert StepsWords(s, ir, 2) == RhoPiWords(ThetaWords(s));
    assert StepsWords(s, ir, 3) == ChiWords(RhoPiWords(ThetaWords(s)));
  }

  /** One pass of the loop body is one round of Keccak-f[1600]. */
  lemma RoundRefines(s: WordState, ir: nat)
    requires ir < NumRounds
    ensures Lanes(RoundWords(s, ir)) == Round(Lanes(s), ir)
  {
    var t := ThetaWords(s);
    var b := RhoPiWords(t);
    var c := ChiWords(b);
    RoundWordsSteps(s, ir);
    RoundSteps(Lanes(s), ir);
    ThetaRefines(s);
    RhoPiRefines(t);
    ChiRefines(b);
    IotaRefines(c, ir);
  }

  lemma PermuteFromStep(s: WordState, ir: nat)
    requires ir < NumRounds
    ensures PermuteFrom(s, ir) == PermuteFrom(RoundWords(s, ir), ir + 1)
  {
  }

  lemma RoundsFromStep(a: State, ir: nat)
    requires ir < NumRounds
    ensures RoundsFrom(a, ir) == RoundsFrom(Round(a, ir), ir + 1)
  {
  }

  /** The passes of the loop from round ir on are the rounds from ir on. */
  lemma {:induction false} PermuteFromRefines(s: WordState, ir: nat)
    requires ir <= NumRounds
    ensures Lanes(PermuteFrom(s, ir)) == RoundsFrom(Lanes(s), ir)
    decreases NumRounds - ir
  {
    if ir < NumRounds {
      PermuteFromRefines(RoundWords(s, ir), ir + 1);
      RefinesOneRoundMore(s, ir, RoundWords(s, ir));
    } else {
      RefinesNoRound(s);
    }
  }

  /** After the last round there is nothing left to do on either side. */
  lemma RefinesNoRound(s: WordState)
    ensures Lanes(PermuteFrom(s, NumRounds)) == RoundsFrom(Lanes(s), NumRounds)
  {
  }

  /** One more round in front of a refinement from round ir + 1 on. */
  lemma RefinesOneRoundMore(s: WordState, ir: nat, t: WordState)
    requires ir < NumRounds && t == RoundWords(s, ir)
    requires Lanes(PermuteFrom(t, ir + 1)) == RoundsFrom(Lanes(t), ir + 1)
    ensures Lanes(PermuteFrom(s, ir)) == RoundsFrom(Lanes(s), ir)
  {
    PermuteFromStep(s, ir);
    RoundsFromStep(Lanes(s), ir);
    RoundRefines(s, ir);
  }

  /** keccakPermutation is Keccak-f[1600] on the lanes. */
  lemma KeccakPermutationRefines(s: WordState)
    ensures Lanes(KeccakPermutation(s)) == KeccakF(Lanes(s))
  {
    PermuteFromRefines(s, 0);
  }
}
