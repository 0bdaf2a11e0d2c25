/**
 Rounding to a 64-bit float: round_to_d, and what its result means. Floats are m * 2^(e - 53)
 with 2^52 <= m < 2^53, subnormal numbers included.
 */
module DoubleRounding {
  import opened Limbs
  import opened Bignum
  import opened MulPow
  import opened RealPow

  const M52: int := 0x10_0000_0000_0000
  const M53: int := 0x20_0000_0000_0000

  lemma Constants()
    ensures Pow(2, 52) == M52 && Pow(2, 53) == M53
  {
    Pow32();
    hide Pow;
    Pow20();
    PowAdd(2, 32, 20);
    PowNextTwo(52);
  }

  lemma Pow20()
    ensures Pow(2, 20) == 0x10_0000
  {
    assert Pow(2, 5) == 32;
    PowAdd(2, 5, 5);
    PowAdd(2, 10, 10);
  }

  function ValueOf(m: int, e: int): real { Scale(2, m as real, e - 53) }

  /** 2^(e - 1) <= y < 2^e. */
  predicate Bracket(y: real, e: int) { RP(2, e - 1) <= y < RP(2, e) }

  /** The spacing 2^Grid(e) of floats below 2^e. */
  function Grid(e: int): int { MaxI(e - 53, -1074) }

  /** y rounded to the grid of its binade. */
  function Rounded(y: real, e: int, mode: Rounding): real {
    Scale(2, RoundR(Scale(2, y, -Grid(e)), mode) as real, Grid(e))
  }

  predicate Normalised(m: int) { m == 0 || M52 <= m < M53 }

  /** (m, e) is y rounded to a float. */
  ghost predicate RoundsTo(y: real, m: int, e: int, mode: Rounding) {
    Normalised(m) && exists e0 :: Bracket(y, e0) && ValueOf(m, e) == Rounded(y, e0, mode)
  }

  // ----- round_to_d -----------------------------------------------------------------------------------

  /** The sticky bit does not change the binade. */
  lemma StickyBracket(N: nat, D: nat, log: nat)
    requires D > 0 && Pow(2, log) <= StickyDiv(N, D) < 2 * Pow(2, log)
    requires N % D == 0 || StickyDiv(N, D) >= 2
    ensures RP(2, log) <= Ratio(N, D) < RP(2, log + 1)
  {
    hide Pow;
    PowNextTwo(log);
    var q, r := N / D, N % D;
    if log > 0 { PowNextTwo(log - 1); } else { PowZero(); }
    assert Pow(2, log) <= q;
    assert q < 2 * Pow(2, log);
    RDivMul(N as real, D as real);
    RInt(q, D);
    FloorBounds(N as real / D as real, D as real, q as real, r as real);
  }

  lemma BracketScale(x: real, log: int, k: int)
    requires RP(2, log) <= x < RP(2, log + 1)
    ensures RP(2, log + k) <= Scale(2, x, k) < RP(2, log + 1 + k)
  {
    hide RP;
    RPAdd(2, log, k);
    RPAdd(2, log + 1, k);
    RMono(RP(2, log), x, RP(2, k));
    RMono(x, RP(2, log + 1), RP(2, k));
  }

  /** Rounding the sticky quotient is rounding the exact one. */
  lemma RoundStickyReal(N: nat, D: nat, shift: int, mode: Rounding)
    requires D > 0 && (N % D == 0 || shift >= 2)
    ensures RoundShift(StickyDiv(N, D), shift, mode) == RoundR(Scale(2, Ratio(N, D), -shift), mode)
  {
    hide Pow, RoundDiv, RoundR, Ratio, StickyDiv, Scale;
    if shift <= 0 {
      ExactQuotient(N, D);
      ScaleInt(2, N / D, -shift);
      RoundInt((N / D) * Pow(2, -shift), mode);
    } else {
      var p := Pow(2, shift);
      RatioTwice(N, D, shift);
      RoundFraction(N, D * p, mode);
      if N % D == 0 {
        ExactQuotient(N, D);
        var q := N / D;
        assert N == q * D;
        RoundScale(q, p, D, mode);
        Assoc(q, D, p);
      } else {
        StickyRound(N, D, shift, mode);
      }
    }
  }

  lemma ExactQuotient(N: nat, D: nat)
    requires D > 0 && N % D == 0
    ensures StickyDiv(N, D) == N / D && Ratio(N, D) == (N / D) as real
  {
    var q := N / D;
    assert N == q * D;
    RInt(q, D);
    RDivMul(N as real, D as real);
    RCancel(N as real / D as real, q as real, D as real);
  }

  lemma RatioTwice(N: nat, D: nat, s: nat)
    requires D > 0
    ensures D * Pow(2, s) > 0 && Ratio(N, D * Pow(2, s)) == Scale(2, Ratio(N, D), -(s as int))
  {
    hide Pow;
    var p := Pow(2, s);
    MulPos(D, p);
    RInt(D, p);
    QuotientTwice(N as real, D as real, p as real);
    PowFirst(2);
    assert RP(2, -(s as int)) == 1.0 / p as real;
  }

  lemma QuotientTwice(n: real, d: real, p: real)
    requires d > 0.0 && p > 0.0
    ensures d * p > 0.0 && n / d * (1.0 / p) == n / (d * p)
  {
    RNonZero(d, p);
    var x := n / d * (1.0 / p);
    RDivMul(n, d);
    RDivMul(1.0, p);
    RDivMul(n, d * p);
    Swap(n / d, 1.0 / p, d, p);
    RCancel(x, n / (d * p), d * p);
  }

  lemma RoundInt(q: int, mode: Rounding)
    ensures RoundR(q as real, mode) == q
  {
  }

  /** The rounded mantissa of a number in [2^(prec - 1), 2^prec). */
  lemma MantissaRange(Y: real, prec: int, m: int, mode: Rounding)
    requires RP(2, prec - 1) <= Y < RP(2, prec) && prec <= 53 && m == RoundR(Y, mode)
    ensures 0 <= m <= M53 && (prec < 0 ==> m == 0)
    ensures m != 0 ==> Pow(2, MaxI(prec, 0)) >= m && 2 * m >= Pow(2, MaxI(prec, 0))
  {
    hide Pow;
    PowFirst(2);
    if prec >= 1 {
      PowNextTwo(prec - 1);
      RoundBetween(Y, Pow(2, prec - 1), Pow(2, prec), mode);
      PowMono(2, prec, 53);
      Constants();
    } else {
      RPZero(2);
      RPMono(2, prec, 0);
      if prec < 0 {
        RPMono(2, prec, -1);
        assert RP(2, -1) == 0.5;
        assert Y < 0.5;
      }
      assert 0.0 <= Y < 1.0;
    }
  }

  lemma RoundBetween(Y: real, lo: int, hi: int, mode: Rounding)
    requires lo as real <= Y < hi as real
    ensures lo <= RoundR(Y, mode) <= hi
  {
  }

  /** Moving the mantissa to 53 bits. */
  lemma ShiftMantissa(m1: int, prec: int, e: int)
    requires prec <= 53 && m1 >= 0 && (prec < 0 ==> m1 == 0)
    requires m1 != 0 ==> Pow(2, MaxI(prec, 0)) >= m1 && 2 * m1 >= Pow(2, MaxI(prec, 0))
    ensures var m := m1 * Pow(2, 53 - prec);
      && ValueOf(m, e) == Scale(2, m1 as real, e - prec)
      && (m == 0 || M52 <= m <= M53)
  {
    hide Pow, Scale;
    var p := Pow(2, 53 - prec);
    ScaleInt(2, m1, 53 - prec);
    ScaleScale(2, m1 as real, 53 - prec, e - 53);
    if m1 != 0 {
      PowAdd(2, prec, 53 - prec);
      Constants();
      LeMul(m1, Pow(2, prec), p);
      LeMul(Pow(2, prec), 2 * m1, p);
      Assoc(2, m1, p);
    }
  }

  lemma CarryOut(e: int)
    ensures ValueOf(M53, e) == ValueOf(M52, e + 1)
  {
    hide Pow, Scale;
    PowFirst(2);
    ScaleInt(2, M52, 1);
    ScaleScale(2, M52 as real, 1, e - 53);
  }

  /** A 64-bit shift; its count must be below 64. */
  function Shl64(u: nat, k: nat): nat
    requires k < 64
  {
    u * Pow(2, k) % (B * B)
  }

  /** No float rounds from anything this small, and shifts by less than 64 bits suffice from here on. */
  function ShiftFloor(): real { RP(2, -1085) }

  /** The shift count, and that no bit is lost. */
  lemma ShiftCount(y: real, e: int, prec: int)
    requires Bracket(y, e) && y >= ShiftFloor() && prec == (if e < -1021 then 53 - (-1021 - e) else 53)
    ensures 0 <= 53 - prec < 64
  {
    hide RP;
    if e <= -1085 { RPMono(2, e, -1085); assert false; }
  }

  /** round_to_d: the value times 2^-eOffset rounded as a float. The value stands for N / D, with
      a sticky bit if it is not exact. */
  method RoundToD(a: Mpb, eOffset: int, mode: Rounding, ghost N: nat, ghost D: nat) returns (m: nat, e: int)
    requires a.Norm() && a.len + 2 <= a.tab.Length && D > 0
    requires a.Val() == StickyDiv(N, D) && (N % D == 0 || a.Val() >= Pow(2, 55))
    requires N > 0 ==> Scale(2, Ratio(N, D), -eOffset) >= ShiftFloor()
    modifies a`len, a.tab
    ensures a.Norm() && (N == 0 ==> m == 0)
    ensures N > 0 ==> RoundsTo(Scale(2, Ratio(N, D), -eOffset), m, e, mode)
  {
    hide Value, Pow, StickyDiv, RoundShift, Rounded, Ratio, Scale, ShiftFloor;
    StickyZero(N, D);
    var log := a.FloorLog2();
    if log < 0 { return 0, 0; }
    e := log + 1 - eOffset;
    var prec := if e < -1021 then 53 - (-1021 - e) else 53;
    ghost var e0 := e;
    a.ShrRound(e + eOffset - prec, mode);
    ghost var m1: int := a.Val();
    RoundedMantissa(N, D, eOffset, log, prec, m1, mode);
    var u := a.GetU64();
    SmallMod(m1);
    ShiftCount(Scale(2, Ratio(N, D), -eOffset), e, prec);
    SmallMod(m1 * Pow(2, 53 - prec));
    m := Shl64(u, 53 - prec);
    if m >= M53 {
      CarryOut(e);
      m := m / 2;
      e := e + 1;
    }
    assert ValueOf(m, e) == Rounded(Scale(2, Ratio(N, D), -eOffset), e0, mode);
  }

  /** The mantissa that mpb_shr_round leaves. */
  lemma RoundedMantissa(N: nat, D: nat, eOffset: int, log: nat, prec: int, m1: int, mode: Rounding)
    requires D > 0 && Pow(2, log) <= StickyDiv(N, D) < 2 * Pow(2, log) && (N % D == 0 || StickyDiv(N, D) >= Pow(2, 55))
    requires prec == (if log + 1 - eOffset < -1021 then 53 - (-1021 - (log + 1 - eOffset)) else 53)
    requires m1 == RoundShift(StickyDiv(N, D), log + 1 - prec, mode)
    ensures var y, e := Scale(2, Ratio(N, D), -eOffset), log + 1 - eOffset;
      && Bracket(y, e) && 0 <= m1 <= M53 && prec <= 53
      && var m := m1 * Pow(2, 53 - prec); (m == 0 || M52 <= m <= M53) && ValueOf(m, e) == Rounded(y, e, mode)
  {
    hide Pow, StickyDiv, RP, RoundR, RoundShift, Ratio, Scale;
    var e, shift := log + 1 - eOffset, log + 1 - prec;
    var x := Ratio(N, D);
    if N % D != 0 { LogAtLeast(StickyDiv(N, D), log, 55); PowTwoAt(55); }
    StickyBracket(N, D, log);
    BracketScale(x, log, -eOffset);
    BracketScale(x, log, -shift);
    RoundStickyReal(N, D, shift, mode);
    MantissaRange(Scale(2, x, -shift), prec, m1, mode);
    ShiftMantissa(m1, prec, e);
    ScaleScale(2, x, -eOffset, -Grid(e));
  }

  lemma StickyZero(N: nat, D: nat)
    requires D > 0
    ensures StickyDiv(N, D) == 0 <==> N == 0
  {
  }

  lemma LogAtLeast(v: nat, log: nat, k: nat)
    requires Pow(2, k) <= v < 2 * Pow(2, log)
    ensures log >= k
  {
    if log < k { PowNextTwo(log); PowMono(2, log + 1, k); assert false; }
  }

  lemma PowTwoAt(k: nat)
    requires k > 0
    ensures Pow(2, k) >= 2
  {
  }

  lemma SmallMod(m: int)
    requires 0 <= m <= M53
    ensures m % (B * B) == m
  {
  }

  // ----- mul_pow_round_to_d ---------------------------------------------------------------------------

  /** a * (radix1 * 2^radixShift)^f. */
  function Digits(a: real, radix1: nat, radixShift: nat, f: int): real
    requires radix1 > 0
  {
    Scale(2, Scale(radix1, a, f), f * radixShift)
  }

  lemma RatioOne(n: nat)
    ensures Ratio(n, 1) == n as real && n % 1 == 0 && StickyDiv(n, 1) == n
  {
    DivUnique(n, 1, n, 0);
  }

  /** The exact quotient that mul_pow approximates. */
  lemma RatioDown(a: nat, k: nat, radix1: nat, f: int)
    requires radix1 > 0 && f < 0
    ensures Pow(radix1, -f) > 0
    ensures Ratio(a * Pow(2, k), Pow(radix1, -f)) == Scale(radix1, Scale(2, a as real, k), f)
  {
    hide Pow, RP, Ratio;
    FractionReal(a, k, radix1, f);
    FractionDown(a, k, radix1, f);
  }

  /** mul_pow_round_to_d: the value times radix^f, rounded as a float. */
  method MulPowRoundToD(a: Mpb, radix1: nat, radixShift: nat, f: int, mode: Rounding) returns (m: nat, e: int)
    requires a.Norm() && OddRadix(radix1) && a.Val() > 0
    requires a.len + Growth(radix1, radixShift, f, false, 55) + 2 <= a.tab.Length
    requires Digits(a.Val() as real, radix1, radixShift, f) >= ShiftFloor()
    modifies a`len, a.tab
    ensures a.Norm() && RoundsTo(Digits(old(a.Val()) as real, radix1, radixShift, f), m, e, mode)
  {
    hide Value, Pow, StickyDiv, Growth, Ratio, Scale, RoundsTo, ShiftFloor;
    ghost var v := a.Val();
    var eOffset := ScaleByPow(a, radix1, radixShift, f, false, 55);
    if radix1 == 1 || f >= 0 {
      RatioOne(a.Val());
      if radix1 == 1 { ScaleByOne(v as real, f); PowOne(MaxI(f, 0)); } else { ScaleInt(radix1, v, f); }
      MulPos(v, Pow(radix1, MaxI(f, 0)));
      m, e := RoundToD(a, eOffset, mode, a.Val(), 1);
    } else {
      ghost var k := eOffset + f * radixShift;
      RatioDown(v, k, radix1, f);
      MulPos(v, Pow(2, k));
      ScaleSwap(2, radix1, v as real, k, f);
      ScaleScale(2, Scale(radix1, v as real, f), k, -eOffset);
      m, e := RoundToD(a, eOffset, mode, v * Pow(2, k), Pow(radix1, -f));
    }
  }

  lemma ScaleByOne(x: real, k: int)
    ensures Scale(1, x, k) == x
  {
    RPOne(k);
  }
}
