/**
 The ends of the float range: which numbers round to infinity and which to zero.
 */
module FloatEnds {
  import opened Limbs
  import opened Bignum
  import opened MulPow
  import opened RealPow
  import opened DoubleRounding
  import opened FloatSpacing
  import opened AtodRounding

  /** The middle between the largest float and 2^1024; the tie goes to infinity. */
  function OverflowStart(): real { Scale(2, M53 as real - 0.5, 971) }

  /** Half the smallest float; the tie goes to zero. */
  function UnderflowEnd(): real { Scale(2, 0.5, -1074) }

  lemma EndsAre()
    ensures OverflowStart() == RP(2, 1024) - RP(2, 970) && UnderflowEnd() == RP(2, -1075)
    ensures RP(2, 1023) <= OverflowStart() <= RP(2, 1024)
  {
    hide RP, Scale;
    BinadeStart(1025);
    CarryOut(1024);
    ScaleAdd(2, M53 as real, 0.5, 971);
    HalfIs();
    ScaleScale(2, 1.0, -1, 971);
    ScaleScale(2, 1.0, -1, -1074);
    ScaleNothing(2, 970);
    ScaleNothing(2, -1075);
    BinadeStart(1024);
    ScaleMono(2, M52 as real, M53 as real - 0.5, 971);
    ScaleMono(2, M53 as real - 0.5, M53 as real, 971);
  }

  /** The bits of a finite float are neither those of zero nor those of infinity. */
  lemma BitsRange(m: int, e: int)
    requires Finite(m, e)
    ensures 0 < FloatBits(m, e) < INFINITY_BITS
  {
    hide Pow;
    if e < -1021 { WholeQuotient(m, Pow(2, -1021 - e)); }
  }

  lemma WholeQuotient(m: nat, p: nat)
    requires m > 0 && p > 0 && m % p == 0
    ensures 0 < m / p <= m
  {
    var q := m / p;
    DivRange(m, p);
    if q == 0 { DivUnique(m, p, 0, m); } else { LeMul(1, p, q); }
  }

  // ----- infinity -------------------------------------------------------------------------------------

  /** Below the last binade rounding stays below infinity. */
  lemma LowerBinades(y: real, e0: int, m: int, e: int)
    requires RoundsTo(y, m, e, RNDN) && Bracket(y, e0) && e0 <= 1023
    ensures m == 0 || e <= 1024
  {
    hide RoundsTo, Bracket;
    var m1, e1 := RoundsToSomething(y, e0);
    if m != 0 { RoundsToUnique(y, m, e, m1, e1); }
  }

  lemma RoundTop(Y: real)
    requires M52 as real <= Y < M53 as real
    ensures Y >= M53 as real - 0.5 ==> RoundR(Y, RNDN) == M53
    ensures Y < M53 as real - 0.5 ==> M52 <= RoundR(Y, RNDN) < M53
  {
  }

  lemma LastBinade(y: real, m: int, e: int)
    requires RoundsTo(y, m, e, RNDN) && Bracket(y, 1024)
    ensures (m != 0 && e > 1024) <==> y >= OverflowStart()
  {
    hide Scale, RP, RoundR;
    var Y := Scale(2, y, -971);
    ScaleScale(2, y, -971, 971);
    ScaleZero(2, y);
    BinadeStart(1024);
    BinadeStart(1025);
    CarryOut(1024);
    ScaleMono(2, M52 as real, Y, 971);
    ScaleMono(2, Y, M53 as real, 971);
    ScaleMono(2, M53 as real - 0.5, Y, 971);
    RoundTop(Y);
    var q := RoundR(Y, RNDN);
    assert Rounded(y, 1024, RNDN) == Scale(2, q as real, 971);
    var m1, e1 := if q == M53 then M52 else q, if q == M53 then 1025 else 1024;
    assert ValueOf(m1, e1) == Rounded(y, 1024, RNDN);
    assert RoundsTo(y, m1, e1, RNDN);
    hide RoundsTo;
    RoundsToUnique(y, m1, e1, m, e);
  }

  lemma InfinityIff(y: real, m: int, e: int)
    requires RoundsTo(y, m, e, RNDN)
    ensures (m != 0 && e > 1024) <==> y >= OverflowStart()
  {
    hide RP, Rounded, OverflowStart;
    var e0 :| Bracket(y, e0) && ValueOf(m, e) == Rounded(y, e0, RNDN);
    EndsAre();
    if e0 > 1024 {
      RPMono(2, 1024, e0 - 1);
      OverflowRounds(y, m, e);
    } else if e0 == 1024 {
      LastBinade(y, m, e);
    } else {
      RPMono(2, e0, 1023);
      LowerBinades(y, e0, m, e);
    }
  }

  // ----- zero -----------------------------------------------------------------------------------------

  lemma RoundLow(Y: real)
    requires 0.5 <= Y
    ensures RoundR(Y, RNDN) >= 0 && (RoundR(Y, RNDN) == 0 <==> Y == 0.5)
  {
  }

  /** From the middle between zero and the smallest float on. */
  lemma LowBinades(y: real, e0: int)
    requires Bracket(y, e0) && y >= UnderflowEnd()
    ensures RoundR(Scale(2, y, -Grid(e0)), RNDN) == 0 <==> y == UnderflowEnd()
  {
    hide Scale, RP, RoundR;
    EndsAre();
    var g := Grid(e0);
    var Y := Scale(2, y, -g);
    if e0 <= -1074 {
      ScaleScale(2, 0.5, -1074, 1074);
      ScaleZero(2, 0.5);
      ScaleMono(2, UnderflowEnd(), y, 1074);
      RoundLow(Y);
    } else {
      BracketScale(y, e0 - 1, -g);
      RPMono(2, 0, e0 - 1 - g);
      RPZero(2);
      RoundLow(Y);
      RPMono(2, -1074, e0 - 1);
      RPNext(2, -1075);
    }
  }

  lemma ZeroIff(y: real, m: int, e: int)
    requires RoundsTo(y, m, e, RNDN)
    ensures m == 0 <==> y <= UnderflowEnd()
  {
    hide Scale, RP, RoundR, UnderflowEnd;
    var e0 :| Bracket(y, e0) && ValueOf(m, e) == Rounded(y, e0, RNDN);
    EndsAre();
    if y < UnderflowEnd() {
      UnderflowRounds(y, m, e);
    } else {
      LowBinades(y, e0);
      var q := RoundR(Scale(2, y, -Grid(e0)), RNDN);
      ScaleNothing(2, e - 53);
      ScaleNothing(2, Grid(e0));
      ScaleMono(2, 0.0, m as real, e - 53);
      ScaleMono(2, 0.0, q as real, Grid(e0));
    }
  }

  /** Which numbers have the nearest float infinity, and which zero. */
  lemma NearestEnds(y: real, m: int, e: int)
    requires RoundsTo(y, m, e, RNDN)
    ensures NearestBits(y, INFINITY_BITS) <==> y >= OverflowStart()
    ensures NearestBits(y, 0) <==> y <= UnderflowEnd()
  {
    hide RoundsTo, OverflowStart, UnderflowEnd, FloatBits, Finite;
    InfinityIff(y, m, e);
    ZeroIff(y, m, e);
    var a := Nearest(y, m, e);
    if NearestBits(y, INFINITY_BITS) { NearestUnique(y, INFINITY_BITS, a); }
    if NearestBits(y, 0) { NearestUnique(y, 0, a); }
  }

  /** The bits of a rounded number. */
  lemma Nearest(y: real, m: int, e: int) returns (a: int)
    requires RoundsTo(y, m, e, RNDN)
    ensures NearestBits(y, a)
    ensures a == 0 <==> m == 0
    ensures a == INFINITY_BITS <==> m != 0 && e > 1024
  {
    hide RoundsTo, FloatBits, Finite;
    if m == 0 { return 0; }
    if e > 1024 { return INFINITY_BITS; }
    RoundedFinite(y, m, e);
    BitsRange(m, e);
    a := FloatBits(m, e);
  }
}
