/**
 js_dtoa with a given number of digits: significant digits, or digits after the point. Both
 round to nearest with ties away from zero.
 */
module FixedFormat {
  import opened Limbs
  import opened Bignum
  import opened Pow5Tables
  import opened MulPow
  import opened RealPow
  import opened DoubleRounding
  import opened FloatSpacing
  import opened RadixTables
  import opened FreeFormat
  import opened NumberText
  import opened DecimalText
  import opened Dtoa

  const JS_DTOA_MAX_DIGITS: nat := 101
  const MANT_LEN_MAX: nat := 18

  // ----- comparison -----------------------------------------------------------------------------------

  function Sign(x: int): int { if x < 0 then -1 else if x > 0 then 1 else 0 }

  /** More limbs, none of them a leading zero, mean a larger number. */
  lemma LongerIsLarger(s: seq<limb>, t: seq<limb>)
    requires s != [] && |s| < |t| && t[|t| - 1] != 0
    ensures Value(s) < Value(t)
  {
    hide Value, Pow;
    ValueBound(s);
    TopLimb(t);
    PowMono(B, |s|, |t| - 1);
  }

  /** The highest limb that differs decides. */
  lemma TopDiffers(s: seq<limb>, t: seq<limb>, i: nat)
    requires |s| == |t| && i < |s| && s[i + 1..] == t[i + 1..] && s[i] < t[i]
    ensures Value(s) < Value(t)
  {
    hide Value, Pow;
    ValueSplit(s, i + 1);
    ValueSplit(t, i + 1);
    ValueStepOld(s, i);
    ValueStepOld(t, i);
    ValueBound(s[..i]);
    LeMul(s[i] + 1, t[i], Pow(B, i));
    Distrib(s[i], 1, Pow(B, i));
  }

  /** mpb_cmp. */
  method MpbCmp(a: Mpb, b: Mpb) returns (r: int)
    requires a.Norm() && b.Norm()
    ensures r == Sign(a.Val() - b.Val())
  {
    hide Value, Pow;
    ghost var s, t := a.tab[..a.len], b.tab[..b.len];
    if a.len < b.len {
      LongerIsLarger(s, t);
      return -1;
    }
    if a.len > b.len {
      LongerIsLarger(t, s);
      return 1;
    }
    var i := a.len;
    while i > 0
      invariant 0 <= i <= a.len == b.len && s[i..] == t[i..]
    {
      i := i - 1;
      assert s[i] == a.tab[i] && t[i] == b.tab[i];
      if a.tab[i] != b.tab[i] {
        if a.tab[i] < b.tab[i] {
          TopDiffers(s, t, i);
          return -1;
        }
        TopDiffers(t, s, i);
        return 1;
      }
      assert s[i..] == [s[i]] + s[i + 1..] && t[i..] == [t[i]] + t[i + 1..];
    }
    assert s[0..] == s && t[0..] == t;
    return 0;
  }

  // ----- a given number of significant digits ---------------------------------------------------------

  lemma FixedRoom(e: int, E: int, P: int)
    requires -1073 <= e <= 1024 && 1 <= P <= JS_DTOA_MAX_DIGITS && NearE(e, E, 10)
    ensures OddRadix(5) && RoundRoom(5, 1, e - 53, P - E) <= DBIGNUM_LEN_MAX
  {
    hide Pow, OddRadix;
    TenParts();
    FiveDigits();
    var k := MulLog2Radix(e - 1, 10);
    assert k == (e - 1) * 5050445 / 0x100_0000;
    FixedRoomAt(e, P - E, k);
  }

  lemma FixedRoomAt(e: int, f: int, k: int)
    requires -1073 <= e <= 1024 && k == (e - 1) * 5050445 / 0x100_0000 && -1 - k <= f <= 100 - k && OddRadix(5)
    ensures RoundRoom(5, 1, e - 53, f) <= DBIGNUM_LEN_MAX
  {
    hide Pow, OddRadix;
    assert DigitsPerLimb(5) == 13;
    if f >= 0 {
      assert k <= 100;
      assert e <= 337;
      assert f <= 424;
      assert CeilDiv(f, 13) <= 33;
      assert e - 53 + f <= 390;
    } else {
      assert CeilDiv(-f, 13) <= 24;
      assert Extension(5, 1, -f, true, e - 53, 0) <= 32 * 31;
    }
  }

  /** mant_max: 10^P. */
  method PowerOfTen(a: Mpb, P: nat)
    requires a.Valid() && a.tab.Length >= MANT_LEN_MAX && 1 <= P <= JS_DTOA_MAX_DIGITS
    modifies a`len, a.tab
    ensures a.Norm() && a.Val() == Pow(10, P)
  {
    hide Value, Pow, OddRadix, Growth;
    FiveDigits();
    PowerRoom(P);
    a.SetU64(1);
    var powShift := ScaleByPow(a, 5, 1, P, false, 0);
    a.ShrRound(powShift, RNDZ);
    PowProduct(5, 2, P);
  }

  lemma PowerRoom(P: nat)
    requires OddRadix(5) && 1 <= P <= JS_DTOA_MAX_DIGITS
    ensures Growth(5, 1, P, false, 0) <= 8
  {
    hide Pow;
    assert DigitsPerLimb(5) == 13;
  }

  /** The fixed format: P significant digits. */
  method FixedDigits(tmp: Mpb, mantMax: Mpb, m: nat, e: int, P: nat) returns (E: int)
    requires tmp != mantMax && tmp.tab != mantMax.tab && tmp.Valid() && mantMax.Valid()
    requires tmp.tab.Length >= DBIGNUM_LEN_MAX && mantMax.tab.Length >= MANT_LEN_MAX
    requires Finite(m, e) && 1 <= P <= JS_DTOA_MAX_DIGITS
    modifies tmp`len, tmp.tab, mantMax`len, mantMax.tab
    ensures tmp.Norm() && NearE(e, E, 10) && tmp.Val() == Mantissa(ValueOf(m, e), 10, P, E, RNDNA)
    ensures Pow(10, P - 1) <= tmp.Val() < Pow(10, P)
  {
    hide Value, Scale, Pow, RP, RoundDiv, RoundR, Num, Den, LogOk, MulLog2Radix, RoundRoom, Growth, OddRadix, RadixOk;
    TenOk();
    TenParts();
    ghost var x := ValueOf(m, e);
    PowerOfTen(mantMax, P);
    var E0 := 1 + MulLog2Radix(e - 1, 10);
    E := E0;
    FirstTry(m, e, 10, P, RNDNA);
    if Mantissa(x, 10, P, E0, RNDNA) >= Pow(10, P) { SecondTry(m, e, 10, P, RNDNA); }
    while true
      invariant tmp.Valid() && mantMax.Norm() && mantMax.Val() == Pow(10, P)
      invariant E == E0 || (E == E0 + 1 && Mantissa(x, 10, P, E0, RNDNA) >= Pow(10, P))
      decreases E0 + 1 - E
    {
      FixedRoom(e, E, P);
      MulPowRound(tmp, m, e - 53, 5, 1, P - E, RNDNA);
      SearchMantissa(m, e, 10, P - E, RNDNA);
      var c := MpbCmp(tmp, mantMax);
      if c < 0 { return; }
      E := E + 1;
    }
  }

  /** The text with P significant digits; the layout of Number.prototype.toPrecision, section
      21.1.3.5 of ECMA-262. */
  method FixedText(m: nat, e: int, P: nat) returns (s: string)
    requires Finite(m, e) && 1 <= P <= JS_DTOA_MAX_DIGITS
    ensures exists E, mant: nat ::
      && mant == Mantissa(ValueOf(m, e), 10, P, E, RNDNA) && Pow(10, P - 1) <= mant < Pow(10, P)
      && s == LayoutText(Pad(mant, P), E, P)
  {
    hide Value, Scale, Pow, RoundR, Pad, LayoutText;
    var tmp := new Mpb(DBIGNUM_LEN_MAX);
    var mantMax := new Mpb(MANT_LEN_MAX);
    var E := FixedDigits(tmp, mantMax, m, e, P);
    ghost var mant := tmp.Val();
    s := Layout(tmp, P, E, P);
    assert mant == Mantissa(ValueOf(m, e), 10, P, E, RNDNA) && s == LayoutText(Pad(mant, P), E, P);
  }

  // ----- a given number of digits after the point -----------------------------------------------------

  /** v / 10^n in positional notation with n digits after the point. */
  function PointText(v: nat, n: nat): string {
    Chars(Dec(v / Pow(10, n))) + if n == 0 then "" else "." + Chars(Pad(v % Pow(10, n), n))
  }

  /** The digits with one extra on the left, which is removed when it is a zero. */
  lemma ExtraDigit(u: nat, w: nat)
    requires w >= 1 && u < Pow(10, w) && (w >= 2 ==> u >= Pow(10, w - 2))
    ensures Pad(u, w)[0] == 0 && w >= 2 ==> Pad(u, w) == [0] + Dec(u)
    ensures Pad(u, w)[0] != 0 || w == 1 ==> Pad(u, w) == Dec(u)
  {
    hide Pow, Dec, Pad;
    PowFirst(10);
    if w == 1 {
      PadOne(u);
    } else {
      var p := Pow(10, w - 1);
      PowNext(10, w - 1);
      PadSplit(u, 1, w - 1);
      DivSmall(u, p);
      PadOne(u / p);
      if u >= p {
        DecSplit(u, w - 1);
        DecOne(u / p);
      } else {
        DivUnique(u, p, 0, u);
        if w == 2 {
          PadOne(u);
          DecOne(u);
        } else {
          PadIsDec(u, w - 1);
        }
      }
    }
  }

  lemma DivSmall(u: nat, p: nat)
    requires u < 10 * p
    ensures u / p < 10 && (u >= p ==> u / p >= 1)
  {
    DivRange(u, p);
    LeMul(10, u / p, p);
    LeMul(u / p + 1, 1, p);
    Distrib(u / p, 1, p);
  }

  lemma PadOne(u: nat)
    requires u < 10
    ensures Pad(u, 1) == [u] && Dec(u) == [u]
  {
    assert Pad(u, 1) == Pad(u / 10, 0) + [u % 10];
  }

  lemma DecOne(u: nat)
    requires u < 10
    ensures Dec(u) == [u]
  {
  }

  lemma PadIsDec(u: nat, w: nat)
    requires w >= 2 && Pow(10, w - 1) <= u < Pow(10, w)
    ensures Pad(u, w) == Dec(u)
  {
    hide Pow, Dec, Pad;
    var p := Pow(10, w - 1);
    PowNext(10, w - 1);
    DivSmall(u, p);
    DecSplit(u, w - 1);
    PadSplit(u, 1, w - 1);
    PadOne(u / p);
  }

  /** The width of the integer part, with the extra digit. */
  function Width(E: int): nat { MaxI(E + 1, 1) }

  /** Sizes of the rounded number and of its integer part. */
  lemma PointRange(m: int, e: int, n: nat)
    requires Finite(m, e)
    ensures var E, v := FirstE(e, 10), RoundR(Scale(10, ValueOf(m, e), n), RNDNA);
      v >= 0 && v / Pow(10, n) < Pow(10, Width(E)) && (Width(E) >= 2 ==> v / Pow(10, n) >= Pow(10, Width(E) - 2))
  {
    hide Scale, RP, Pow, RoundR, RadixOk, FirstE, Finite;
    TenOk();
    var x, E := ValueOf(m, e), FirstE(e, 10);
    var Y := Scale(10, x, n);
    var v, p := RoundR(Y, RNDNA), Pow(10, n);
    FloatRange(m, e, 10);
    if E >= 1 {
      ScaledBy(10, x, E - 1, n);
      PowAsScale(10, E - 1 + n);
      TwiceAbove(x, E, n);
      RoundBetween(Y, Pow(10, E - 1 + n), 2 * Pow(10, E + n), RNDNA);
      PowAdd(10, E - 1, n);
      PowAdd(10, E, n);
      PowNext(10, E);
      QuotientRange(v, p, Pow(10, E - 1), Pow(10, E));
    } else {
      RPMono(10, E, 0);
      TwiceAbove(x, 0, n);
      ScaleMono(10, 0.0, x, n);
      ScaleNothing(10, n);
      PositivePower(e);
      RoundBetween(Y, 0, 2 * Pow(10, n), RNDNA);
      PowFirst(10);
      QuotientRange(v, p, 0, 1);
    }
  }

  lemma PositivePower(e: int)
    ensures RP(2, e - 1) > 0.0
  {
  }

  lemma TwiceAbove(x: real, E: nat, n: nat)
    requires x < 2.0 * RP(10, E)
    ensures Scale(10, x, n) < (2 * Pow(10, E + n)) as real
  {
    hide Scale, RP, Pow;
    var R := RP(10, E);
    ScaleMono(10, x, R + R, n);
    ScaleAdd(10, R, R, n);
    ScaleNothing(10, E);
    ScaleScale(10, 1.0, E, n);
    PowAsScale(10, E + n);
  }

  lemma QuotientRange(v: int, p: int, lo: int, hi: int)
    requires p > 0 && 0 <= lo * p <= v <= 2 * (hi * p) && hi > 0
    ensures v >= 0 && lo <= v / p < 10 * hi
  {
    Assoc(10, hi, p);
    LeMul(1, hi, p);
    QuotientBelow(v, p, 10 * hi);
    QuotientAtLeast(v, p, lo);
  }

  lemma QuotientBelow(v: int, p: int, q: int)
    requires p > 0 && v < q * p
    ensures v / p < q
  {
    DivRange(v, p);
    LeMul(q, v / p, p);
  }

  lemma PointRoom(e: int, n: nat)
    requires -1073 <= e <= 1024 && n <= JS_DTOA_MAX_DIGITS
    ensures OddRadix(5) && RoundRoom(5, 1, e - 53, n) <= DBIGNUM_LEN_MAX
  {
    hide Pow;
    FiveDigits();
    assert DigitsPerLimb(5) == 13;
    assert CeilDiv(n, 13) <= 8;
  }

  /** The text with n digits after the point: the number rounded to a multiple of 10^-n, ties
      away from zero, as Number.prototype.toFixed writes it. */
  method PointFormat(m: nat, e: int, n: nat) returns (s: string)
    requires Finite(m, e) && n <= JS_DTOA_MAX_DIGITS
    ensures RoundR(Scale(10, ValueOf(m, e), n), RNDNA) >= 0
    ensures s == PointText(RoundR(Scale(10, ValueOf(m, e), n), RNDNA), n)
  {
    hide Value, Scale, Pow, RP, RoundR, Pad, Dec, Chars, PointText, MulLog2Radix, Finite;
    var tmp := new Mpb(DBIGNUM_LEN_MAX);
    RoundPoint(tmp, m, e, n);
    PointRange(m, e, n);
    ghost var v := tmp.Val();
    var E := 1 + MulLog2Radix(e - 1, 10);
    // with n + 1 digits the first may be zero; PointDigits decides
    var w := Width(E);
    s := OutputDigits(tmp, w + n, w);
    PointDigits(v, n, w, s);
    if s[0] == '0' && |s| >= 2 && s[1] != '.' { s := s[1..]; }
  }

  /** The float times 10^n, rounded. */
  method RoundPoint(tmp: Mpb, m: nat, e: int, n: nat)
    requires tmp.Valid() && tmp.tab.Length >= DBIGNUM_LEN_MAX && Finite(m, e) && n <= JS_DTOA_MAX_DIGITS
    modifies tmp`len, tmp.tab
    ensures tmp.Norm() && tmp.Val() == RoundR(Scale(10, ValueOf(m, e), n), RNDNA)
  {
    hide Value, Scale, Pow, RP, RoundR, RoundDiv, Num, Den, OddRadix, RoundRoom;
    PointRoom(e, n);
    TenParts();
    MulPowRound(tmp, m, e - 53, 5, 1, n, RNDNA);
    SearchMantissa(m, e, 10, n, RNDNA);
  }

  lemma PointDigits(v: nat, n: nat, w: nat, s: string)
    requires w >= 1 && v / Pow(10, n) < Pow(10, w) && (w >= 2 ==> v / Pow(10, n) >= Pow(10, w - 2))
    requires var ds := Pad(v, w + n); s == if n == 0 then Chars(ds) else Chars(ds[..w]) + "." + Chars(ds[w..])
    ensures |s| >= 1
    ensures PointText(v, n) == if s[0] == '0' && |s| >= 2 && s[1] != '.' then s[1..] else s
  {
    hide Pow, Pad, Dec, Chars;
    var p := Pow(10, n);
    var u, r := v / p, v % p;
    var t := Pad(u, w);
    PadSplit(v, w, n);
    PowFirst(10);
    if n == 0 { PadNone(r); }
    var ds := Pad(v, w + n);
    assert ds == t + Pad(r, n) && ds[..w] == t && ds[w..] == Pad(r, n);
    var tail := if n == 0 then "" else "." + Chars(Pad(r, n));
    assert s == Chars(t) + tail by { if n > 0 { Joined3(Chars(t), ".", Chars(Pad(r, n))); } else { assert ds == t; } }
    ExtraDigit(u, w);
    FirstDigits(t);
    if t[0] == 0 && w >= 2 {
      CharsCons(0, Dec(u));
      ZeroChar();
      assert s == "0" + (Chars(Dec(u)) + tail);
    } else if w == 1 && n > 0 {
      assert s[1] == '.';
    }
  }

  lemma Joined3(a: string, b: string, c: string)
    ensures a + b + c == a + (b + c)
  {
  }

  lemma ZeroChar()
    ensures [DigitChar(0)] == "0"
  {
  }

  /** The first characters of written digits. */
  lemma FirstDigits(t: seq<int>)
    requires AllBelow(t, 10) && |t| >= 1
    ensures |Chars(t)| == |t| && (Chars(t)[0] == '0' <==> t[0] == 0) && (|t| >= 2 ==> Chars(t)[1] != '.')
  {
  }
}
