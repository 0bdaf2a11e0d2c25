/**
 The last part of js_atod: from the kept digits and the exponent to the bits of a float. The
 early exits for overflow and underflow agree with rounding.
 */
module AtodRounding {
  import opened Limbs
  import opened Bignum
  import opened MulPow
  import opened RealPow
  import opened DoubleRounding
  import opened FloatSpacing
  import opened RadixTables

  // ----- bits of a float ------------------------------------------------------------------------------

  const INFINITY_BITS: int := 0x7ff * M52
  const SIGN_BIT: int := 0x800 * M52

  /** The bits of the positive float (m, e). */
  function FloatBits(m: int, e: int): int
    requires Finite(m, e)
  {
    if e < -1021 then m / Pow(2, -e - 1021) else (e + 1022) * M52 + m % M52
  }

  /** The bits of the float nearest to y: 0 below the smallest, infinity above the largest. */
  ghost predicate NearestBits(y: real, a: int) {
    exists m, e :: RoundsTo(y, m, e, RNDN) &&
      if m == 0 then a == 0
      else if e > 1024 then a == INFINITY_BITS
      else Finite(m, e) && a == FloatBits(m, e)
  }

  lemma NearestUnique(y: real, a: int, b: int)
    requires NearestBits(y, a) && NearestBits(y, b)
    ensures a == b
  {
    hide RoundsTo, FloatBits, Finite;
    var m, e :| RoundsTo(y, m, e, RNDN) &&
      if m == 0 then a == 0 else if e > 1024 then a == INFINITY_BITS else Finite(m, e) && a == FloatBits(m, e);
    var m1, e1 :| RoundsTo(y, m1, e1, RNDN) &&
      if m1 == 0 then b == 0 else if e1 > 1024 then b == INFINITY_BITS else Finite(m1, e1) && b == FloatBits(m1, e1);
    if m != 0 { RoundsToUnique(y, m, e, m1, e1); } else if m1 != 0 { RoundsToUnique(y, m1, e1, m, e); }
  }

  // ----- ints -----------------------------------------------------------------------------------------

  predicate FitsInt(x: int) { -0x8000_0000 <= x < 0x8000_0000 }

  /** What an int keeps of x when signed overflow wraps around (-fwrapv). */
  function Int32(x: int): (r: int)
    ensures FitsInt(r) && (FitsInt(x) ==> r == x)
  {
    (x + 0x8000_0000) % 0x1_0000_0000 - 0x8000_0000
  }

  lemma Int32Sum(x: int, y: int)
    ensures Int32(Int32(x) + y) == Int32(x + y) && Int32(x - Int32(y)) == Int32(x - y)
  {
    var p, q := (x + 0x8000_0000) / 0x1_0000_0000, (y + 0x8000_0000) / 0x1_0000_0000;
    Int32Period(x + y, -p);
    Int32Period(x - y, q);
  }

  lemma Int32Period(x: int, k: int)
    ensures Int32(x + 0x1_0000_0000 * k) == Int32(x)
  {
    var z := x + 0x8000_0000;
    assert z == 0x1_0000_0000 * (z / 0x1_0000_0000) + z % 0x1_0000_0000;
    DivUnique(z + 0x1_0000_0000 * k, 0x1_0000_0000, z / 0x1_0000_0000 + k, z % 0x1_0000_0000);
  }

  /** A small sum with a small number did not wrap. */
  lemma Int32Small(x: int, y: int)
    requires FitsInt(x) && 0 <= y <= 1000 && -10000 <= Int32(x + y) <= 10000
    ensures Int32(x + y) == x + y
  {
  }

  // ----- results of rounding --------------------------------------------------------------------------

  /** A non-zero result is a float of the form that FloatBits encodes. */
  lemma RoundedFinite(y: real, m: int, e: int)
    requires RoundsTo(y, m, e, RNDN) && m != 0 && e <= 1024
    ensures Finite(m, e)
  {
    hide Scale, Pow, RoundR;
    var e0 :| Bracket(y, e0) && ValueOf(m, e) == Rounded(y, e0, RNDN);
    var g := Grid(e0);
    var q := RoundR(Scale(2, y, -g), RNDN);
    // m * 2^(e - 53) is a multiple of 2^-1074
    ScaleScale(2, q as real, g + 1074, -1074);
    ScaleInt(2, q, g + 1074);
    var n := q * Pow(2, g + 1074);
    assert ValueOf(m, e) == Scale(2, n as real, -1074);
    ScaleScale(2, m as real, e - 53, 1074);
    ScaleScale(2, n as real, -1074, 1074);
    ScaleZero(2, n as real);
    assert Scale(2, m as real, e + 1021) == n as real;
    if e < -1021 {
      var p := Pow(2, -1021 - e);
      ScaleScale(2, m as real, e + 1021, -1021 - e);
      ScaleZero(2, m as real);
      ScaleInt(2, n, -1021 - e);
      assert m == n * p;
      MulDivMod(n, p);
      SmallExponent(n, p, -1021 - e);
    }
  }

  lemma MulDivMod(n: int, p: int)
    requires p > 0
    ensures n * p % p == 0
  {
    DivUnique(n * p, p, n, 0);
  }

  lemma SmallExponent(n: int, p: int, k: nat)
    requires p == Pow(2, k) && M52 <= n * p < M53
    ensures k <= 52
  {
    hide Pow;
    if k > 52 {
      PowMono(2, 53, k);
      Constants();
      LeMul(n, 0, p);
      LeMul(1, n, p);
      assert false;
    }
  }

  /** Anything from 2^1024 on rounds to a number beyond the floats. */
  lemma OverflowRounds(y: real, m: int, e: int)
    requires RoundsTo(y, m, e, RNDN) && y >= RP(2, 1024)
    ensures m != 0 && e > 1024
  {
    hide Scale, Pow, RoundR, RP, IsFloat;
    var e0 :| Bracket(y, e0) && ValueOf(m, e) == Rounded(y, e0, RNDN);
    var v := RP(2, 1024);
    BinadeStart(1025);
    assert v == FloatAt(M52, 972);
    assert IsFloat(v) by { PowerIsFloat(); }
    RoundedClosest(y, e0, v);
    RoundedAbove(y, e0);
    hide Rounded;
    if m == 0 { ScaleNothing(2, e - 53); assert false; }
    if e <= 1024 {
      ScaleMono(2, m as real, M53 as real, e - 53);
      CarryOut(e);
      BinadeStart(e + 1);
      RPMono(2, e, 1024);
      assert false;
    }
  }

  lemma PowerIsFloat()
    ensures IsFloat(FloatAt(M52, 972))
  {
  }

  /** Rounding does not cross 2^1024. */
  lemma RoundedAbove(y: real, e0: int)
    requires Bracket(y, e0) && y >= RP(2, 1024)
    ensures Rounded(y, e0, RNDN) >= RP(2, 1024)
  {
    hide Scale, RP, Pow, RoundR;
    if e0 <= 1024 { RPMono(2, e0, 1024); assert false; }
    var g := Grid(e0);
    var Y := Scale(2, y, -g);
    BinadeStart(e0);
    ScaleScale(2, M52 as real, g, -g);
    ScaleZero(2, M52 as real);
    ScaleMono(2, Scale(2, M52 as real, g), y, -g);
    RoundFloor(Y, M52);
    ScaleMono(2, M52 as real, RoundR(Y, RNDN) as real, g);
    RPMono(2, 1024, e0 - 1);
  }

  lemma RoundFloor(Y: real, n: int)
    requires n as real <= Y
    ensures n <= RoundR(Y, RNDN)
  {
  }

  /** Anything below 2^-1075 rounds to zero. */
  lemma UnderflowRounds(y: real, m: int, e: int)
    requires RoundsTo(y, m, e, RNDN) && y < RP(2, -1075)
    ensures m == 0
  {
    hide Scale, Pow, RP;
    var e0 :| Bracket(y, e0) && ValueOf(m, e) == Rounded(y, e0, RNDN);
    if e0 > -1075 { RPMono(2, -1075, e0 - 1); assert false; }
    var g := Grid(e0);
    assert g == -1074;
    var Y := Scale(2, y, 1074);
    ScaleMono(2, y, RP(2, -1075), 1074);
    ScaleNothing(2, -1075);
    ScaleScale(2, 1.0, -1075, 1074);
    HalfIs();
    ScaleMono(2, 0.0, y, 1074);
    ScaleNothing(2, 1074);
    assert 0.0 <= Y < 0.5;
    assert RoundR(Y, RNDN) == 0;
    ScaleNothing(2, -1074);
    if m != 0 {
      ScaleMono(2, 0.0, m as real, e - 53);
      ScaleNothing(2, e - 53);
      assert false;
    }
  }

  lemma HalfIs()
    ensures Scale(2, 1.0, -1) == 0.5
  {
    assert RP(2, -1) == 0.5;
  }

  // ----- early exits ----------------------------------------------------------------------------------

  const maxExponent: seq<int> :=
    [1024, 647, 512, 442, 397, 365, 342, 324, 309, 297, 286, 277, 269, 263, 256, 251, 246, 242, 237, 234, 230, 227,
     224, 221, 218, 216, 214, 211, 209, 207, 205, 203, 202, 200, 199]

  const minExponent: seq<int> :=
    [-1075, -679, -538, -463, -416, -383, -359, -340, -324, -311, -300, -291, -283, -276, -269, -263, -258, -254,
     -249, -245, -242, -238, -235, -232, -229, -227, -224, -222, -220, -217, -215, -214, -212, -210, -208]

  /** radix^max_exponent overflows and radix^min_exponent underflows. */
  ghost predicate ExponentsOk(radix: nat)
    requires 2 <= radix <= 36
  {
    && RP(radix, maxExponent[radix - 2]) >= RP(2, 1024)
    && ShiftFloor() <= RP(radix, minExponent[radix - 2]) <= RP(2, -1075)
  }

  lemma TenExponents()
    ensures ExponentsOk(10)
  {
    hide Pow;
    assert maxExponent[8] == 309 && minExponent[8] == -324;
    RatioAbove(309, 1024);
    RatioAbove(324, 1075);
    Reciprocal(10, 324, 2, 1075);
    ThousandBelow(108);
    PowMono(2, 1080, 1084);
    PowNextTwo(1084);
    Reciprocal(2, 1085, 10, 324);
  }

  /** 10^3 < 2^10, taken to a power. */
  lemma {:induction false} ThousandBelow(q: nat)
    ensures Pow(10, 3 * q) <= Pow(2, 10 * q)
    decreases q
  {
    if q == 0 {
      PowZeros();
    } else {
      ThousandBelow(q - 1);
      PowAdd(10, 3, 3 * (q - 1));
      PowAdd(2, 10, 10 * (q - 1));
      TenAndTwo();
      var x, y := Pow(10, 3 * (q - 1)), Pow(2, 10 * (q - 1));
      hide Pow;
      LeMul(1000, 1024, x);
      LeMul(x, y, 1024);
    }
  }

  lemma PowZeros()
    ensures Pow(10, 0) == 1 && Pow(2, 0) == 1
  {
  }

  lemma TenAndTwo()
    ensures Pow(10, 3) == 1000 && Pow(2, 10) == 1024
  {
    assert Pow(2, 5) == 32;
    PowAdd(2, 5, 5);
  }

  lemma OverflowBits(y: real, m: int, e: int)
    requires RoundsTo(y, m, e, RNDN) && y >= RP(2, 1024)
    ensures NearestBits(y, INFINITY_BITS)
  {
    hide RoundsTo, RP, Pow, Finite;
    OverflowRounds(y, m, e);
  }

  lemma UnderflowBits(y: real, m: int, e: int)
    requires RoundsTo(y, m, e, RNDN) && y < RP(2, -1075)
    ensures NearestBits(y, 0)
  {
    hide RoundsTo, RP, Pow, Finite;
    UnderflowRounds(y, m, e);
  }

  /** Every positive number has a nearest float. */
  lemma RoundsToSomething(y: real, e0: int) returns (m: int, e: int)
    requires Bracket(y, e0)
    ensures RoundsTo(y, m, e, RNDN) && e0 <= e <= e0 + 1
  {
    hide Scale, RoundR, RP, Pow;
    var g := Grid(e0);
    var prec := e0 - g;
    var Y := Scale(2, y, -g);
    var m1 := RoundR(Y, RNDN);
    BracketScale(y, e0 - 1, -g);
    MantissaRange(Y, prec, m1, RNDN);
    ShiftMantissa(m1, prec, e0);
    m, e := m1 * Pow(2, 53 - prec), e0;
    assert ValueOf(m, e) == Rounded(y, e0, RNDN);
    if m == M53 {
      CarryOut(e0);
      m, e := M52, e0 + 1;
    }
  }

  lemma {:induction false} BracketBetween(y: real, lo: int, hi: int) returns (e: int)
    requires RP(2, lo) <= y < RP(2, hi)
    ensures Bracket(y, e)
    decreases hi - lo
  {
    hide RP;
    if hi <= lo { RPMono(2, hi, lo); assert false; }
    if y >= RP(2, hi - 1) { e := hi; } else { e := BracketBetween(y, lo, hi - 1); }
  }

  lemma {:induction false} RadixBounds(radix: nat, k: int)
    requires 2 <= radix <= 36
    ensures RP(2, -6 * AbsI(k)) <= RP(radix, k) <= RP(2, 6 * AbsI(k))
    decreases AbsI(k)
  {
    hide RP, Pow;
    if k == 0 {
      RPZero(2);
      RPZero(radix);
    } else {
      var j := if k > 0 then k - 1 else k + 1;
      RadixBounds(radix, j);
      RPNext(radix, if k > 0 then j else k);
      SixBits(6 * AbsI(j));
      SixBits(-6 * AbsI(j) - 6);
      var x, y := RP(radix, j), RP(radix, k);
      var lo, hi := RP(2, -6 * AbsI(j)), RP(2, 6 * AbsI(j));
      if k > 0 {
        StepUp(radix as real, x, lo, hi);
        RPMono(2, -6 * AbsI(k), -6 * AbsI(j));
      } else {
        StepDown(radix as real, x, y, RP(2, -6 * AbsI(k)), hi);
        RPMono(2, 6 * AbsI(j), 6 * AbsI(k));
      }
    }
  }

  function AbsI(k: int): nat { if k < 0 then -k else k }

  lemma SixBits(k: int)
    ensures RP(2, k + 6) == 64.0 * RP(2, k)
  {
    hide RP, Pow;
    RPAdd(2, 6, k);
    SixIs();
  }

  lemma StepUp(b: real, x: real, lo: real, hi: real)
    requires 2.0 <= b <= 36.0 && 0.0 < lo <= x <= hi
    ensures lo <= b * x <= 64.0 * hi
  {
    var t := b * x;
    assert t >= 2.0 * x by { RMono(2.0, b, x); }
    assert t <= 36.0 * x by { RMono(b, 36.0, x); }
  }

  lemma StepDown(b: real, x: real, y: real, lo: real, hi: real)
    requires 2.0 <= b <= 36.0 && x == b * y && y > 0.0 && 64.0 * lo <= x <= hi
    ensures lo <= y <= hi
  {
    assert b * y >= 2.0 * y;
    assert b * y <= 36.0 * y;
  }

  /** Every number given by digits has a nearest float. */
  lemma DigitsRound(radix: nat, n: nat, k: int) returns (m: int, e: int)
    requires 2 <= radix <= 36 && n > 0
    ensures RoundsTo(Scale(radix, n as real, k), m, e, RNDN)
  {
    hide RP, Pow, Log2, RoundsTo, Bracket;
    var y, r, j := Scale(radix, n as real, k), RP(radix, k), 6 * AbsI(k);
    RadixBounds(radix, k);
    var log := Log2(n) + 1;
    PowNextTwo(log - 1);
    PowAsRP(log);
    Assoc(6, AbsI(k), 1);
    ProductBetween(n as real, r, RP(2, -j), RP(2, log), RP(2, j));
    RPAdd(2, log, j);
    var e0 := BracketBetween(y, -j, log + j);
    m, e := RoundsToSomething(y, e0);
  }

  lemma PowAsRP(k: nat)
    ensures Pow(2, k) as real == RP(2, k)
  {
  }

  lemma ProductBetween(n: real, r: real, lo: real, p: real, hi: real)
    requires 1.0 <= n < p && 0.0 < lo <= r <= hi
    ensures lo <= n * r < p * hi
  {
    assert n * r >= r;
    RMono(n, p, r);
    RMono(r, hi, p);
    RAssoc(p, r, 1.0);
    RAssoc(p, hi, 1.0);
  }

  // ----- the end of js_atod ---------------------------------------------------------------------------

  /** The bits for a rounded result. */
  method Encode(m: nat, e: int, ghost y: real) returns (a: int)
    requires RoundsTo(y, m, e, RNDN)
    ensures NearestBits(y, a)
  {
    hide RoundsTo, Pow;
    if m == 0 { return 0; }
    if e > 1024 { return INFINITY_BITS; }
    RoundedFinite(y, m, e);
    if e < -1073 { return 0; }
    if e < -1021 {
      a := m / Pow(2, -e - 1021);
    } else {
      a := (e + 1022) * M52 + m % M52;
    }
  }

  /** Limbs for the digits that js_atod keeps. */
  const MANT_LIMBS: nat := 6

  const atodMaxDigits: seq<nat> :=
    [64, 80, 32, 55, 49, 45, 21, 40, 38, 37, 35, 34, 33, 32, 16, 31, 30, 30, 29, 29, 28, 28, 27, 27, 27, 26, 26, 26,
     26, 25, 12, 25, 25, 24, 24]

  /** Digits that js_atod keeps. */
  function MaxKept(radix: nat): nat
    requires 2 <= radix <= 36
  {
    atodMaxDigits[radix - 2]
  }

  /** The buffer is large enough for every exponent between the early exits. */
  ghost predicate AtodRoom(radix: nat)
    requires 2 <= radix <= 36 && OddRadix(OddPart(radix))
  {
    forall dc, expn :: 1 <= dc <= MaxKept(radix) && minExponent[radix - 2] < expn + dc <= maxExponent[radix - 2] ==>
      GrowthFits(radix, dc, expn)
  }

  predicate GrowthFits(radix: nat, dc: int, expn: int)
    requires 2 <= radix <= 36 && OddRadix(OddPart(radix))
  {
    MANT_LIMBS + Growth(OddPart(radix), Ctz(radix), expn, false, 55) + 2 <= DBIGNUM_LEN_MAX
  }

  lemma TenAtodRoom()
    ensures OddRadix(OddPart(10)) && AtodRoom(10)
  {
    hide Pow;
    TenParts();
    FiveDigits();
    assert maxExponent[8] == 309 && minExponent[8] == -324 && MaxKept(10) == 38;
    forall dc, expn | 1 <= dc <= 38 && -324 < expn + dc <= 309 ensures GrowthFits(10, dc, expn) { TenGrowth(dc, expn); }
  }

  lemma TenGrowth(dc: int, expn: int)
    requires 1 <= dc <= 38 && -324 < expn + dc <= 309
    ensures OddRadix(OddPart(10)) && GrowthFits(10, dc, expn)
  {
    hide Pow;
    TenParts();
    FiveDigits();
    assert DigitsPerLimb(5) == 13;
    if expn >= 0 {
      assert CeilDiv(expn, 13) <= 24;
    } else {
      assert CeilDiv(-expn, 13) <= 28;
      assert Extension(5, 1, -expn, false, 55, 0) <= 32 * 30;
    }
  }

  /** Radixes that are not powers of two: v * radix^expn, where v has digitCount digits. */
  method RoundRadix(tmp: Mpb, radix: nat, digitCount: nat, expn: int) returns (a: int)
    requires tmp.Norm() && tmp.tab.Length >= DBIGNUM_LEN_MAX && tmp.len <= MANT_LIMBS
    requires 2 <= radix <= 36 && OddRadix(OddPart(radix)) && ExponentsOk(radix) && AtodRoom(radix)
    requires 1 <= digitCount <= MaxKept(radix)
    requires Pow(radix, digitCount - 1) <= tmp.Val() < Pow(radix, digitCount) && FitsInt(expn)
    modifies tmp`len, tmp.tab
    ensures NearestBits(Scale(radix, old(tmp.Val()) as real, Int32(expn + digitCount) - digitCount), a)
  {
    hide Value, Pow, RP, Scale, OddRadix, Growth, OddPart, Ctz, RoundsTo, NearestBits, Int32;
    ghost var v := tmp.Val();
    var expn1 := Int32(expn + digitCount);
    ghost var x := expn1 - digitCount;
    ghost var y := Scale(radix, v as real, x);
    TableRange(radix);
    if expn1 >= maxExponent[radix - 2] + 1 {
      ghost var m, e := DigitsRound(radix, v, x);
      DigitsAbove(radix, v, digitCount, x, maxExponent[radix - 2]);
      OverflowBits(y, m, e);
      return INFINITY_BITS;
    }
    if expn1 <= minExponent[radix - 2] {
      ghost var m, e := DigitsRound(radix, v, x);
      DigitsBelow(radix, v, digitCount, x, minExponent[radix - 2]);
      UnderflowBits(y, m, e);
      return 0;
    }
    Int32Small(expn, digitCount);
    DigitsAbove(radix, v, digitCount, x, expn1 - 1);
    RPMono(radix, minExponent[radix - 2], expn1 - 1);
    DigitsIsScale(v as real, radix, expn);
    assert GrowthFits(radix, digitCount, expn);
    var m, e := MulPowRoundToD(tmp, OddPart(radix), Ctz(radix), expn, RNDN);
    a := Encode(m, e, y);
  }

  lemma TableRange(radix: nat)
    requires 2 <= radix <= 36
    ensures -10000 <= minExponent[radix - 2] && maxExponent[radix - 2] <= 10000 && MaxKept(radix) <= 100
  {
    LowRange(radix);
    HighRange(radix);
    KeptMost(radix);
  }

  lemma LowRange(radix: nat)
    requires 2 <= radix <= 36
    ensures -10000 <= minExponent[radix - 2]
  {
  }

  lemma HighRange(radix: nat)
    requires 2 <= radix <= 36
    ensures maxExponent[radix - 2] <= 10000
  {
  }

  lemma KeptMost(radix: nat)
    requires 2 <= radix <= 36
    ensures MaxKept(radix) <= 100
  {
  }

  lemma DigitsAbove(radix: nat, v: nat, dc: nat, expn: int, max: int)
    requires radix > 0 && dc >= 1 && Pow(radix, dc - 1) <= v && expn + dc >= max + 1
    ensures Scale(radix, v as real, expn) >= RP(radix, max)
  {
    hide Pow, RP, Scale;
    PowerReal(radix, dc - 1);
    ScaleMono(radix, RP(radix, dc - 1), v as real, expn);
    ScaleNothing(radix, dc - 1);
    ScaleScale(radix, 1.0, dc - 1, expn);
    ScaleNothing(radix, dc - 1 + expn);
    RPMono(radix, max, dc - 1 + expn);
  }

  lemma DigitsBelow(radix: nat, v: nat, dc: nat, expn: int, min: int)
    requires radix > 0 && v < Pow(radix, dc) && expn + dc <= min
    ensures Scale(radix, v as real, expn) < RP(radix, min)
  {
    hide Pow, RP, Scale;
    PowerReal(radix, dc);
    ScaleMono(radix, v as real, RP(radix, dc), expn);
    ScaleNothing(radix, dc);
    ScaleScale(radix, 1.0, dc, expn);
    ScaleNothing(radix, dc + expn);
    RPMono(radix, dc + expn, min);
  }

  lemma PowerReal(radix: nat, k: nat)
    requires radix > 0
    ensures Pow(radix, k) as real == RP(radix, k)
  {
  }

  /** Powers of two: the kept digits stand for N / D with a sticky bit; expn counts bits. */
  method RoundBinary(tmp: Mpb, radixBits: nat, digitCount: nat, expn: int, ghost N: nat, ghost D: nat) returns (a: int)
    requires tmp.Norm() && tmp.len + 2 <= tmp.tab.Length && radixBits >= 1 && digitCount >= 1 && D > 0
    requires tmp.Val() == StickyDiv(N, D) && (N % D == 0 || tmp.Val() >= Pow(2, 55))
    requires Pow(2, radixBits * (digitCount - 1)) <= N / D < Pow(2, radixBits * digitCount)
    requires FitsInt(expn) && radixBits <= 5 && digitCount * radixBits <= 1000
    modifies tmp`len, tmp.tab
    ensures NearestBits(Scale(2, Ratio(N, D), Int32(expn + digitCount * radixBits) - digitCount * radixBits), a)
  {
    hide Value, Pow, RP, Scale, RoundsTo, NearestBits, StickyDiv, Ratio, Int32;
    var expn1 := Int32(expn + digitCount * radixBits);
    DigitBits(radixBits, digitCount);
    ghost var x := expn1 - digitCount * radixBits;
    ghost var y := Scale(2, Ratio(N, D), x);
    ghost var e0 := BinaryBracket(N, D, x);
    RatioBetween(N, D, radixBits * (digitCount - 1), radixBits * digitCount, x);
    if expn1 >= 1024 + radixBits {
      ghost var m, e := RoundsToSomething(y, e0);
      RPMono(2, 1024, radixBits * (digitCount - 1) + x);
      OverflowBits(y, m, e);
      return INFINITY_BITS;
    }
    if expn1 <= -1075 {
      ghost var m, e := RoundsToSomething(y, e0);
      RPMono(2, radixBits * digitCount + x, -1075);
      UnderflowBits(y, m, e);
      return 0;
    }
    SmallTop(expn, digitCount * radixBits, radixBits);
    RPMono(2, -1085, radixBits * (digitCount - 1) + x);
    var m, e := RoundToD(tmp, -expn, RNDN, N, D);
    a := Encode(m, e, y);
  }

  lemma SmallTop(expn: int, bits: int, radixBits: nat)
    requires FitsInt(expn) && 0 <= bits <= 1000 && radixBits <= 5 && -1075 < Int32(expn + bits) < 1024 + radixBits
    ensures Int32(expn + bits) == expn + bits
  {
    Int32Small(expn, bits);
  }

  lemma DigitBits(b: nat, dc: nat)
    ensures b * (dc - 1) == dc * b - b && b * dc == dc * b
  {
    Distrib(dc, -1, b);
  }

  lemma RatioBetween(N: nat, D: nat, lo: nat, hi: nat, expn: int)
    requires D > 0 && Pow(2, lo) <= N / D < Pow(2, hi)
    ensures N > 0 && RP(2, lo + expn) <= Scale(2, Ratio(N, D), expn) < RP(2, hi + expn)
  {
    hide Pow, Scale, RP, Ratio;
    RatioBounds(N, D);
    PowAsRP(lo);
    PowAsRP(hi);
    var x := Ratio(N, D);
    ScaleMono(2, RP(2, lo), x, expn);
    ScaleMono(2, x, RP(2, hi), expn);
    ScaleNothing(2, lo);
    ScaleNothing(2, hi);
    ScaleScale(2, 1.0, lo, expn);
    ScaleScale(2, 1.0, hi, expn);
    ScaleNothing(2, lo + expn);
    ScaleNothing(2, hi + expn);
    DivZero(N, D);
  }

  lemma DivZero(N: nat, D: nat)
    requires D > 0 && N / D > 0
    ensures N > 0
  {
  }

  lemma RatioBounds(N: nat, D: nat)
    requires D > 0
    ensures (N / D) as real <= Ratio(N, D) < (N / D) as real + 1.0
  {
    RDivMul(N as real, D as real);
    RInt(N / D, D);
    FloorBounds(N as real / D as real, D as real, (N / D) as real, (N % D) as real);
  }

  lemma BinaryBracket(N: nat, D: nat, expn: int) returns (e: int)
    requires D > 0 && N / D > 0
    ensures Bracket(Scale(2, Ratio(N, D), expn), e)
  {
    hide Pow, Scale, RP, Log2;
    var q := N / D;
    var log := Log2(q);
    RatioBounds(N, D);
    PowAsRP(log);
    PowNextTwo(log);
    PowAsRP(log + 1);
    BracketScale(Ratio(N, D), log, expn);
    e := log + 1 + expn;
  }
}
