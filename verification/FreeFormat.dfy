/**
 The free-format digit search of js_dtoa: fewer and fewer digits are tried as long as they
 convert back to the same float. The first candidate is accepted without a test; that it
 converts back is proved here.
 */
module FreeFormat {
  import opened Limbs
  import opened Bignum
  import opened MulPow
  import opened RealPow
  import opened DoubleRounding
  import opened FloatSpacing
  import opened RadixTables

  /** x * radix^(P - E) rounded: the P digits of x when E is its exponent. */
  function Mantissa(x: real, radix: nat, P: int, E: int, mode: Rounding): int
    requires radix > 0
  {
    RoundR(Scale(radix, x, P - E), mode)
  }

  /** The digits mant with exponent f convert back to (m, e). */
  ghost predicate Converts(radix: nat, mant: int, f: int, m: int, e: int)
    requires radix > 0
  {
    RoundsTo(Scale(radix, mant as real, f), m, e, RNDN)
  }

  function FirstE(e: int, radix: nat): int
    requires 2 <= radix <= 36
  {
    1 + MulLog2Radix(e - 1, radix)
  }

  /** The exponent that goes with P digits: one more when rounding gives P + 1 digits. */
  function ChosenE(x: real, radix: nat, P: nat, E0: int, mode: Rounding): int
    requires radix > 0
  {
    if Mantissa(x, radix, P, E0, mode) < Pow(radix, P) then E0 else E0 + 1
  }

  /** The nearest number with P digits converts back. */
  ghost predicate CandidateConverts(radix: nat, m: int, e: int, P: nat)
    requires 2 <= radix <= 36
  {
    var x := ValueOf(m, e);
    var E := ChosenE(x, radix, P, FirstE(e, radix), RNDN);
    Converts(radix, Mantissa(x, radix, P, E, RNDN), E - P, m, e)
  }

  // ----- sizes ----------------------------------------------------------------------------------------

  lemma AbsScaleBase(b: nat, x: real, y: real, k: int)
    requires b > 0
    ensures Abs(Scale(b, x, k) - Scale(b, y, k)) == Scale(b, Abs(x - y), k)
  {
    hide Scale;
    ScaleAdd(b, x, y, k);
    ScaleMono(b, x, y, k);
    ScaleAdd(b, y, x, k);
  }

  lemma ScaleBackBase(b: nat, x: real, k: int)
    requires b > 0
    ensures Scale(b, Scale(b, x, -k), k) == x
  {
    hide Scale;
    ScaleScale(b, x, -k, k);
    ScaleZero(b, x);
  }

  /** Rounding to P digits moves x by at most half a unit of the last digit. */
  lemma RoundError(x: real, radix: nat, P: int, E: int)
    requires radix > 0
    ensures Abs(Scale(radix, Mantissa(x, radix, P, E, RNDN) as real, E - P) - x) <= Scale(radix, 0.5, E - P)
  {
    hide Scale, RoundR;
    var Y := Scale(radix, x, P - E);
    var q := Mantissa(x, radix, P, E, RNDN);
    ScaleBackBase(radix, x, E - P);
    RoundNearest(Y, 0);
    AbsScaleBase(radix, q as real, Y, E - P);
    ScaleMono(radix, Abs(q as real - Y), 0.5, E - P);
  }

  /** The float lies in [radix^(E0 - 1), 2 * radix^E0), and at or above 2^(e - 1) < radix^E0. */
  lemma FloatRange(m: int, e: int, radix: nat)
    requires Finite(m, e) && RadixOk(radix)
    ensures var x, E0 := ValueOf(m, e), FirstE(e, radix);
      && RP(radix, E0 - 1) <= RP(2, e - 1) <= x < RP(2, e)
      && RP(2, e - 1) < RP(radix, E0) && RP(2, e) < 2.0 * RP(radix, E0)
      && (m == M52 ==> x == RP(2, e - 1))
  {
    hide Scale, RP, Pow, MulLog2Radix;
    assert LogOk(radix, e - 1);
    ScaleMono(2, M52 as real, m as real, e - 53);
    ScaleMono(2, m as real, M53 as real, e - 53);
    BinadeStart(e);
    BinadeStart(e + 1);
    CarryOut(e);
    RPNext(2, e - 1);
  }

  lemma PowAsScale(radix: nat, k: nat)
    requires radix > 0
    ensures Pow(radix, k) as real == RP(radix, k) && Scale(radix, 1.0, k) == RP(radix, k)
  {
  }

  /** Scaled sizes: x * radix^(P - E) between powers of the radix. */
  lemma ScaledBy(radix: nat, x: real, j: int, k: int)
    requires radix > 0
    ensures x < RP(radix, j) <==> Scale(radix, x, k) < RP(radix, j + k)
    ensures RP(radix, j) <= x <==> RP(radix, j + k) <= Scale(radix, x, k)
  {
    hide RP, Scale;
    ScaleNothing(radix, j);
    ScaleNothing(radix, j + k);
    ScaleScale(radix, 1.0, j, k);
    ScaleMono(radix, x, RP(radix, j), k);
    ScaleMono(radix, RP(radix, j), x, k);
  }

  /** With the first exponent there are P or P + 1 digits. */
  lemma FirstTry(m: int, e: int, radix: nat, P: nat, mode: Rounding)
    requires mode != RNDZ && Finite(m, e) && RadixOk(radix) && P >= 1
    ensures var mant := Mantissa(ValueOf(m, e), radix, P, FirstE(e, radix), mode);
      Pow(radix, P - 1) <= mant <= 2 * Pow(radix, P)
  {
    hide Scale, RP, Pow, RoundR, LogOk, RoomAt, OddRadix, MaxDigitsOk, FirstE;
    var x, E0 := ValueOf(m, e), FirstE(e, radix);
    FloatRange(m, e, radix);
    ScaledBy(radix, x, E0 - 1, P - E0);
    PowAsScale(radix, P - 1);
    PowAsScale(radix, P);
    var Y := Scale(radix, x, P - E0);
    // 2 * radix^E0 scales to 2 * radix^P
    ScaleMono(radix, x, RP(radix, E0) + RP(radix, E0), P - E0);
    ScaleAdd(radix, RP(radix, E0), RP(radix, E0), P - E0);
    ScaleNothing(radix, E0);
    ScaleScale(radix, 1.0, E0, P - E0);
    RoundBetween(Y, Pow(radix, P - 1), 2 * Pow(radix, P), mode);
  }

  lemma BinaryE(e: int)
    ensures FirstE(e, 2) == e
  {
    PowFirst(2);
    BinaryLog(1, e - 1);
  }

  lemma RoundAtLeast(Y: real, n: int, mode: Rounding)
    requires mode != RNDZ
    ensures RoundR(Y, mode) >= n ==> Y >= n as real - 0.5
    ensures Y >= n as real - 0.25 ==> RoundR(Y, mode) >= n
    ensures Y < n as real ==> RoundR(Y, mode) <= n
  {
  }

  /** One digit more on the left: the scaled number divided by the radix. */
  lemma NextE(x: real, radix: nat, P: int, E: int)
    requires radix > 0
    ensures Scale(radix, x, P - E) == radix as real * Scale(radix, x, P - (E + 1))
  {
    hide RP;
    RPNext(radix, P - E - 1);
    RAssoc(x, radix as real, RP(radix, P - E - 1));
    RAssoc(radix as real, x, RP(radix, P - E - 1));
  }

  lemma DividedBound(b: int, p: int, Y: real)
    requires b >= 2 && b as real * Y >= (b * p) as real - 0.5
    ensures Y >= p as real - 0.25
  {
    RInt(b, p);
    if Y < p as real - 0.25 {
      RLess(Y, p as real - 0.25, b as real);
      RDistrib(p as real, 0.25, b as real);
      RAssoc(b as real, Y, 1.0);
      RAssoc(b as real, p as real, 1.0);
      assert false;
    }
  }

  /** With the next exponent there are exactly P digits. */
  lemma SecondTry(m: int, e: int, radix: nat, P: nat, mode: Rounding)
    requires mode != RNDZ && Finite(m, e) && RadixOk(radix) && P >= 1
    requires Mantissa(ValueOf(m, e), radix, P, FirstE(e, radix), mode) >= Pow(radix, P)
    ensures Pow(radix, P - 1) <= Mantissa(ValueOf(m, e), radix, P, FirstE(e, radix) + 1, mode) < Pow(radix, P)
    ensures ValueOf(m, e) < RP(radix, FirstE(e, radix)) ==>
      && Mantissa(ValueOf(m, e), radix, P, FirstE(e, radix) + 1, mode) == Pow(radix, P - 1)
      && Mantissa(ValueOf(m, e), radix, P, FirstE(e, radix), mode) == Pow(radix, P)
  {
    hide Scale, RP, Pow, RoundR, FirstE, LogOk, RoomAt, OddRadix, MaxDigitsOk;
    var x, E0 := ValueOf(m, e), FirstE(e, radix);
    FloatRange(m, e, radix);
    if radix == 2 { BinaryE(e); }
    SecondLower(x, radix, P, E0, mode);
    if x < RP(radix, E0) { SecondSmall(x, radix, P, E0, mode); } else { SecondLarge(x, radix, P, E0, mode); }
  }

  lemma SecondLower(x: real, radix: nat, P: nat, E0: int, mode: Rounding)
    requires mode != RNDZ && radix >= 2 && P >= 1 && Mantissa(x, radix, P, E0, mode) >= Pow(radix, P)
    ensures Mantissa(x, radix, P, E0 + 1, mode) >= Pow(radix, P - 1)
  {
    hide Scale, Pow, RoundR;
    var p := Pow(radix, P - 1);
    PowNext(radix, P - 1);
    NextE(x, radix, P, E0);
    RoundAtLeast(Scale(radix, x, P - E0), Pow(radix, P), mode);
    DividedBound(radix, p, Scale(radix, x, P - (E0 + 1)));
    RoundAtLeast(Scale(radix, x, P - (E0 + 1)), p, mode);
  }

  /** Rounding went up to the next power of the radix. */
  lemma SecondSmall(x: real, radix: nat, P: nat, E0: int, mode: Rounding)
    requires mode != RNDZ && radix >= 2 && P >= 1 && x < RP(radix, E0)
    ensures Mantissa(x, radix, P, E0, mode) <= Pow(radix, P)
    ensures Mantissa(x, radix, P, E0 + 1, mode) <= Pow(radix, P - 1) < Pow(radix, P)
  {
    hide Scale, Pow, RoundR, RP;
    PowNext(radix, P - 1);
    LeMul(1, radix, Pow(radix, P - 1));
    PowAsScale(radix, P - 1);
    PowAsScale(radix, P);
    ScaledBy(radix, x, E0, P - E0 - 1);
    ScaledBy(radix, x, E0, P - E0);
    RoundAtLeast(Scale(radix, x, P - E0), Pow(radix, P), mode);
    RoundAtLeast(Scale(radix, x, P - (E0 + 1)), Pow(radix, P - 1), mode);
  }

  lemma SecondLarge(x: real, radix: nat, P: nat, E0: int, mode: Rounding)
    requires mode != RNDZ && radix >= 3 && P >= 1 && x < 2.0 * RP(radix, E0)
    ensures Mantissa(x, radix, P, E0 + 1, mode) < Pow(radix, P)
  {
    hide Scale, Pow, RoundR, RP;
    var p, R := Pow(radix, P - 1), RP(radix, E0);
    PowNext(radix, P - 1);
    PowAsScale(radix, P - 1);
    ScaleMono(radix, x, R + R, P - E0 - 1);
    ScaleAdd(radix, R, R, P - E0 - 1);
    ScaleNothing(radix, E0);
    ScaleScale(radix, 1.0, E0, P - E0 - 1);
    RoundAtLeast(Scale(radix, x, P - (E0 + 1)), 2 * p, mode);
    LeMul(2, radix, p);
  }

  // ----- the first candidate --------------------------------------------------------------------------

  /** Half a unit of the last of P_max digits, when the leading digit has exponent j, is less
      than a quarter of 2^(k - 52) for numbers with radix^j <= 2^k. */
  lemma LastDigit(radix: nat, P: nat, j: int, k: int)
    requires radix > 0 && P >= 1 && Pow(radix, P - 1) > M53 && RP(radix, j) <= RP(2, k)
    ensures Scale(radix, 0.5, j + 1 - P) < Scale(2, 0.25, k - 52)
  {
    hide Scale, RP, Pow;
    var c := Scale(radix, 0.5, j + 1 - P);
    // c * radix^(P - 1) == radix^j / 2
    ScaleScale(radix, 0.5, j + 1 - P, P - 1);
    HalfScale(radix, j);
    HalfScale(2, k);
    PowAsScale(radix, P - 1);
    PositiveScale(radix, j + 1 - P);
    ProductScale(radix, c, P - 1);
    // d * 2^53 == 2^k / 2
    var d := Scale(2, 0.25, k - 52);
    ScaleScale(2, 0.25, k - 52, 53);
    QuarterScale(k);
    Constants();
    ProductScale(2, d, 53);
    FewerUnits(c, d, Pow(radix, P - 1) as real, M53 as real, 0.5 * RP(radix, j), 0.5 * RP(2, k));
  }

  lemma FewerUnits(c: real, d: real, n: real, k: real, h: real, h': real)
    requires c > 0.0 && 0.0 < k < n && c * n == h && h <= h' && d * k == h'
    ensures c < d
  {
    RMono(k, n, c);
    RAssoc(k, c, 1.0);
    RAssoc(n, c, 1.0);
    RMono(c, d, k);
  }

  lemma HalfScale(b: nat, j: int)
    requires b > 0
    ensures Scale(b, 0.5, j) == 0.5 * RP(b, j)
  {
  }

  lemma PositiveScale(b: nat, j: int)
    requires b > 0
    ensures Scale(b, 0.5, j) > 0.0
  {
  }

  lemma ProductScale(b: nat, x: real, k: nat)
    requires b > 0
    ensures Scale(b, x, k) == x * Pow(b, k) as real
  {
  }

  lemma QuarterScale(k: int)
    ensures Scale(2, 0.25, k + 1) == 0.5 * RP(2, k)
  {
    hide RP;
    RPNext(2, k);
  }

  /** Radix 2 needs no rounding. */
  lemma BinaryConverts(m: int, e: int)
    requires Finite(m, e)
    ensures CandidateConverts(2, m, e, 54)
  {
    hide Scale, Pow, RP, RoundsTo, RoundR, FirstE;
    BinaryE(e);
    var x := ValueOf(m, e);
    PowFirst(2);
    ScaleScale(2, m as real, e - 53, 54 - e);
    ScaleInt(2, m, 1);
    RoundInt(2 * m, RNDN);
    Constants();
    PowNextTwo(53);
    assert Mantissa(x, 2, 54, e, RNDN) == 2 * m;
    ScaleScale(2, m as real, 1, e - 54);
    ExactConverts(m, e);
  }

  /** P_max digits are guaranteed to work. */
  lemma MaxDigitsConvert(m: int, e: int, radix: nat)
    requires Finite(m, e) && RadixOk(radix)
    ensures CandidateConverts(radix, m, e, MaxDigits(radix))
  {
    hide Scale, Pow, RP, RoundsTo, Mantissa, FirstE, RadixOk, Finite, ValueOf, Near;
    DigitsSuffice(radix);
    if radix == 2 {
      BinaryConverts(m, e);
      return;
    }
    var P, x, E0 := MaxDigits(radix), ValueOf(m, e), FirstE(e, radix);
    if ChosenE(x, radix, P, E0, RNDN) == E0 {
      FirstNear(m, e, radix, P);
      NearConverts(Scale(radix, Mantissa(x, radix, P, E0, RNDN) as real, E0 - P), m, e);
    } else {
      SecondNear(m, e, radix, P);
      NearConverts(Scale(radix, Mantissa(x, radix, P, E0 + 1, RNDN) as real, E0 + 1 - P), m, e);
    }
  }

  lemma DigitsSuffice(radix: nat)
    requires RadixOk(radix)
    ensures 2 <= radix <= 36 && (radix != 2 ==> MaxDigits(radix) >= 1 && Pow(radix, MaxDigits(radix) - 1) > M53)
  {
    hide Pow, LogOk, RoomAt, OddRadix;
  }

  /** The candidate with the first exponent. */
  lemma FirstNear(m: int, e: int, radix: nat, P: nat)
    requires Finite(m, e) && RadixOk(radix) && P >= 1 && Pow(radix, P - 1) > M53
    ensures var E0 := FirstE(e, radix); Near(Scale(radix, Mantissa(ValueOf(m, e), radix, P, E0, RNDN) as real, E0 - P), m, e)
  {
    hide Scale, Pow, RP, Mantissa, FirstE, RadixOk, Finite, ValueOf;
    DigitsSuffice(radix);
    var E0 := FirstE(e, radix);
    FloatRange(m, e, radix);
    RoundError(ValueOf(m, e), radix, P, E0);
    LastDigit(radix, P, E0 - 1, e - 1);
    ScaleMono(2, 0.25, 0.5, e - 53);
  }

  /** The candidate with the exponent raised. */
  lemma SecondNear(m: int, e: int, radix: nat, P: nat)
    requires Finite(m, e) && RadixOk(radix) && P >= 1 && Pow(radix, P - 1) > M53
    requires ChosenE(ValueOf(m, e), radix, P, FirstE(e, radix), RNDN) != FirstE(e, radix)
    ensures var E := FirstE(e, radix) + 1; Near(Scale(radix, Mantissa(ValueOf(m, e), radix, P, E, RNDN) as real, E - P), m, e)
  {
    hide Scale, Pow, RP, Mantissa, FirstE, RadixOk, ValueOf;
    DigitsSuffice(radix);
    var x, E0 := ValueOf(m, e), FirstE(e, radix);
    FloatRange(m, e, radix);
    SecondTry(m, e, radix, P, RNDN);
    if x < RP(radix, E0) {
      RoundedUp(x, radix, P, E0);
      FirstNear(m, e, radix, P);
    } else {
      RoundError(x, radix, P, E0 + 1);
      LastDigit(radix, P, E0, e);
      ScaleTwice(e);
    }
  }

  /** radix^(P - 1) with the next exponent is radix^P with this one. */
  lemma RoundedUp(x: real, radix: nat, P: nat, E0: int)
    requires radix > 0 && P >= 1
    ensures Scale(radix, Pow(radix, P - 1) as real, E0 + 1 - P) == Scale(radix, Pow(radix, P) as real, E0 - P)
  {
    hide Scale, Pow, RP;
    PowAsScale(radix, P - 1);
    PowAsScale(radix, P);
    ScaleScale(radix, 1.0, P - 1, E0 + 1 - P);
    ScaleScale(radix, 1.0, P, E0 - P);
  }

  lemma ScaleTwice(e: int)
    ensures Scale(2, 0.25, e - 52) == Scale(2, 0.5, e - 53)
  {
    hide RP;
    RPNext(2, e - 53);
  }

  // ----- the search -----------------------------------------------------------------------------------

  /** What mul_pow_round leaves for the search. */
  lemma SearchMantissa(m: nat, e: int, radix: nat, f: int, mode: Rounding)
    requires radix > 0
    ensures var r1, s := OddPart(radix), Ctz(radix); var e2 := e - 53 + f * s;
      RoundDiv(Num(m, e2, r1, f), Den(e2, r1, f), mode) == RoundR(Scale(radix, ValueOf(m, e), f), mode)
  {
    hide Scale, Pow, RP, RoundDiv, RoundR, Num, Den, OddPart, Ctz, Ratio;
    var r1, s := OddPart(radix), Ctz(radix);
    var e2 := e - 53 + f * s;
    FractionReal(m, e2, r1, f);
    RoundFraction(Num(m, e2, r1, f), Den(e2, r1, f), mode);
    ScaleScale(2, m as real, e - 53, f * s);
    ScaleSwap(2, r1, ValueOf(m, e), f * s, f);
    DigitsIsScale(ValueOf(m, e), radix, f);
  }

  /** Rounds to P digits and chooses the exponent. */
  method RoundDigits(tmp: Mpb, m: nat, e: int, radix: nat, P: nat, E0: int) returns (mant: nat, E: int)
    requires tmp.Valid() && tmp.tab.Length >= DBIGNUM_LEN_MAX && Finite(m, e) && RadixOk(radix)
    requires 1 <= P <= MaxDigits(radix) && E0 == FirstE(e, radix)
    modifies tmp`len, tmp.tab
    ensures tmp.Norm() && E == ChosenE(ValueOf(m, e), radix, P, E0, RNDN) && mant == Mantissa(ValueOf(m, e), radix, P, E, RNDN)
    ensures Pow(radix, P - 1) <= mant < Pow(radix, P)
  {
    hide Value, Scale, Pow, RP, RoundDiv, RoundR, Num, Den, OddPart, Ctz, LogOk, MulLog2Radix, RoundRoom, Growth, OddRadix;
    var radixShift, radix1 := Ctz(radix), OddPart(radix);
    ghost var x := ValueOf(m, e);
    DigitsFit(radix, P);
    var mantMax := PowUi(radix, P);
    E := E0;
    FirstTry(m, e, radix, P, RNDN);
    if Mantissa(x, radix, P, E0, RNDN) >= Pow(radix, P) { SecondTry(m, e, radix, P, RNDN); }
    while true
      invariant tmp.Valid() && (E == E0 || (E == E0 + 1 && Mantissa(x, radix, P, E0, RNDN) >= Pow(radix, P)))
      decreases E0 + 1 - E
    {
      assert RoomAt(radix, e, E, P);
      MulPowRound(tmp, m, e - 53, radix1, radixShift, P - E, RNDN);
      SearchMantissa(m, e, radix, P - E, RNDN);
      mant := tmp.GetU64();
      MantissaFits(mant, Mantissa(x, radix, P, E, RNDN), radix, P);
      if mant < mantMax { return; }
      E := E + 1;
    }
  }

  lemma DigitsFit(radix: nat, P: nat)
    requires 2 <= radix <= 36 && MaxDigitsOk(radix) && P <= MaxDigits(radix)
    ensures 2 * Pow(radix, P) < B * B && Pow(radix, P) < B * B
  {
    hide Pow;
    PowMono(radix, P, MaxDigits(radix));
  }

  lemma MantissaFits(mant: int, q: int, radix: nat, P: nat)
    requires mant == q % (B * B) && 0 <= q <= 2 * Pow(radix, P) < B * B
    ensures mant == q
  {
  }

  /** Removes useless trailing zero digits. */
  method DropZeros(mant0: nat, P0: nat, radix: nat, ghost E: int) returns (mant: nat, P: nat)
    requires radix >= 2 && P0 >= 1 && Pow(radix, P0 - 1) <= mant0 < Pow(radix, P0)
    ensures 1 <= P <= P0 && Pow(radix, P - 1) <= mant < Pow(radix, P) && mant % radix != 0
    ensures Scale(radix, mant as real, E - P) == Scale(radix, mant0 as real, E - P0)
  {
    hide Scale, Pow;
    mant, P := mant0, P0;
    while mant % radix == 0
      invariant 1 <= P <= P0 && Pow(radix, P - 1) <= mant < Pow(radix, P)
      invariant Scale(radix, mant as real, E - P) == Scale(radix, mant0 as real, E - P0)
      decreases P
    {
      DropStep(mant, radix, P, E);
      mant := mant / radix;
      P := P - 1;
    }
  }

  lemma DropStep(mant: nat, radix: nat, P: nat, E: int)
    requires radix >= 2 && P >= 1 && Pow(radix, P - 1) <= mant < Pow(radix, P) && mant % radix == 0
    ensures P >= 2 && Pow(radix, P - 2) <= mant / radix < Pow(radix, P - 1)
    ensures Scale(radix, (mant / radix) as real, E - (P - 1)) == Scale(radix, mant as real, E - P)
  {
    hide Scale, Pow;
    SmallMultiple(mant, radix, P);
    var q := mant / radix;
    PowNext(radix, P - 1);
    PowNext(radix, P - 2);
    DropBounds(q, radix, Pow(radix, P - 2), Pow(radix, P - 1));
    PowFirst(radix);
    ScaleInt(radix, q, 1);
    ScaleScale(radix, q as real, 1, E - P);
  }

  lemma DropBounds(q: int, b: int, lo: int, hi: int)
    requires b > 0 && lo * b <= q * b < hi * b
    ensures lo <= q < hi
  {
    LeMul(q + 1, lo, b);
    LeMul(hi, q, b);
    Distrib(q, 1, b);
  }

  lemma SmallMultiple(mant: nat, radix: nat, P: nat)
    requires radix >= 2 && P >= 1 && mant % radix == 0 && Pow(radix, P - 1) <= mant < Pow(radix, P)
    ensures P >= 2 && mant == mant / radix * radix
  {
    hide Pow;
    PowFirst(radix);
    if P == 1 {
      DivUnique(mant, radix, 0, mant);
      assert false;
    }
  }

  lemma ConvertsSame(radix: nat, mant: int, f: int, mant': int, f': int, m: int, e: int)
    requires radix > 0 && Scale(radix, mant as real, f) == Scale(radix, mant' as real, f')
    ensures Converts(radix, mant, f, m, e) <==> Converts(radix, mant', f', m, e)
  {
  }

  /** Converts the digits back to base 2 and compares. */
  method ConvertsBack(tmp: Mpb, mant: nat, f: int, radix: nat, m: nat, e: int) returns (same: bool)
    requires tmp.Valid() && tmp.tab.Length >= DBIGNUM_LEN_MAX && 2 <= radix <= 36 && OddRadix(OddPart(radix))
    requires 0 < mant < B * B && m > 0
    requires 2 + Growth(OddPart(radix), Ctz(radix), f, false, 55) + 2 <= DBIGNUM_LEN_MAX
    requires Scale(radix, mant as real, f) >= ShiftFloor()
    modifies tmp`len, tmp.tab
    ensures tmp.Valid() && (same <==> Converts(radix, mant, f, m, e))
  {
    hide Value, Scale, Pow, RP, RoundsTo, OddPart, Ctz, Growth, OddRadix, ShiftFloor;
    tmp.SetU64(mant);
    ghost var y := Scale(radix, mant as real, f);
    DigitsIsScale(mant as real, radix, f);
    var m1, e1 := MulPowRoundToD(tmp, OddPart(radix), Ctz(radix), f, RNDN);
    same := m1 == m && e1 == e;
    if Converts(radix, mant, f, m, e) { RoundsToUnique(y, m, e, m1, e1); }
  }

  /** What the search has found so far. */
  ghost predicate Found(radix: nat, m: int, e: int, mant: int, E: int, P: int)
    requires 2 <= radix <= 36
  {
    && 1 <= P <= MaxDigits(radix) && Pow(radix, P - 1) <= mant < Pow(radix, P) && mant % radix != 0
    && NearE(e, E, radix) && Converts(radix, mant, E - P, m, e)
  }

  /** The free-format branch of js_dtoa: digits that convert back to the float. One digit less,
      rounded to nearest, does not. */
  method FreeDigits(m: nat, e: int, radix: nat) returns (mant: nat, E: int, P: nat)
    requires Finite(m, e) && RadixOk(radix)
    ensures Found(radix, m, e, mant, E, P)
    ensures P == 1 || !CandidateConverts(radix, m, e, P - 1)
  {
    hide Value, Scale, Pow, RP, RoundsTo, OddPart, Ctz, Growth, OddRadix, LogOk, MulLog2Radix, Converts, MaxDigitsOk, RoundRoom;
    var tmp := new Mpb(DBIGNUM_LEN_MAX);
    var E0 := 1 + MulLog2Radix(e - 1, radix);
    var Pfound := 0;
    mant, E := 0, 0;
    P := MaxDigits(radix);
    MaxDigitsPositive(radix);
    MaxDigitsConvert(m, e, radix);
    while true
      invariant tmp.Valid() && fresh(tmp) && fresh(tmp.tab) && tmp.tab.Length == DBIGNUM_LEN_MAX
      invariant 1 <= P <= MaxDigits(radix) && (Pfound == 0 ==> CandidateConverts(radix, m, e, P))
      invariant Pfound != 0 ==> P == Pfound - 1 && Found(radix, m, e, mant, E, Pfound)
      decreases P
    {
      var mant1, E1 := RoundDigits(tmp, m, e, radix, P, E0);
      var mant2, P2 := DropZeros(mant1, P, radix, E1);
      ConvertsSame(radix, mant1, E1 - P, mant2, E1 - P2, m, e);
      if Pfound != 0 {
        assert RoomAt(radix, e, E1, P2);
        SmallDigits(radix, P2, mant2);
        DigitsNotTiny(m, e, radix, mant2, P2, E1);
        var same := ConvertsBack(tmp, mant2, E1 - P2, radix, m, e);
        if !same {
          P := Pfound;
          return;
        }
      }
      Pfound, mant, E := P2, mant2, E1;
      if P2 == 1 {
        P := 1;
        return;
      }
      P := P2 - 1;
    }
  }

  /** Digits near a float are far above what the 64-bit shift can handle. */
  lemma DigitsNotTiny(m: int, e: int, radix: nat, mant: nat, P: nat, E: int)
    requires Finite(m, e) && RadixOk(radix) && P >= 1 && Pow(radix, P - 1) <= mant && FirstE(e, radix) <= E
    ensures Scale(radix, mant as real, E - P) >= ShiftFloor()
  {
    hide Scale, RP, Pow, FirstE, RadixOk, OddPart, Ctz;
    DigitsSuffice(radix);
    FloatRange(m, e, radix);
    var E0 := FirstE(e, radix);
    PowAsScale(radix, P - 1);
    ScaleMono(radix, RP(radix, P - 1), mant as real, E - P);
    ScaleScale(radix, 1.0, P - 1, E - P);
    ScaleNothing(radix, E - 1);
    RPMono(radix, E0 - 1, E - 1);
    OneDigit(radix, E0 - 1, e - 7);
    RPMono(2, -1085, e - 7);
  }

  /** One digit of a radix is less than six bits. */
  lemma OneDigit(radix: nat, j: int, k: int)
    requires 2 <= radix <= 36 && RP(2, k + 6) < RP(radix, j + 1)
    ensures RP(2, k) <= RP(radix, j)
  {
    hide RP, Pow;
    RPNext(radix, j);
    RPAdd(2, 6, k);
    SixIs();
    var r := RP(radix, j);
    RMono(radix as real, 64.0, r);
    RMono(r, RP(2, k), 64.0);
  }

  lemma MaxDigitsPositive(radix: nat)
    requires RadixOk(radix)
    ensures MaxDigits(radix) >= 1
  {
  }

  lemma SmallDigits(radix: nat, P: nat, mant: int)
    requires RadixOk(radix) && 1 <= P <= MaxDigits(radix) && Pow(radix, P - 1) <= mant < Pow(radix, P)
    ensures 0 < mant < B * B
  {
    hide Pow, LogOk, RoomAt, OddRadix;
    DigitsFit(radix, P);
  }
}
