/**
 js_dtoa for radix 10 in free format, and the round trip through js_atod.
 */
module Dtoa {
  import opened Limbs
  import opened Bignum
  import opened MulPow
  import opened RealPow
  import opened DoubleRounding
  import opened FloatSpacing
  import opened RadixTables
  import opened FreeFormat
  import opened AtodRounding
  import opened FloatEnds
  import opened Ieee754
  import opened NumberText
  import opened Atod
  import opened AtodMain
  import opened DecimalText
  import opened NumberForm

  // ----- bits of a float ------------------------------------------------------------------------------

  /** The parts of a finite, non-zero float. */
  method Unpack(bits: nat) returns (m: nat, e: int)
    requires 0 < bits < INFINITY_BITS
    ensures Finite(m, e) && FloatBits(m, e) == bits && IsNumber(bits) && ValueOf(m, e) == Value64(bits)
  {
    hide Pow, Log2, Value64, ValueOf, FloatBits, Finite, IsNumber;
    e := bits / M52;
    m := bits % M52;
    if e == 0 {
      // a subnormal float has a unique form with its top bit set
      Constants();
      LogBelow(m, 52);
      var clz := 63 - Log2(m);
      var l := clz - 11;
      Denormal(m, l);
      SubnormalForm(m, l);
      e := e - (l - 1);
      m := m * Pow(2, l);
    } else {
      NormalForm(e, m);
      m := m + M52;
    }
    e := e - 1022;
    FloatValue(m, e);
  }

  lemma SubnormalForm(m: nat, l: nat)
    requires 1 <= l <= 52 && M52 <= m * Pow(2, l) < M53
    requires m * Pow(2, l) % Pow(2, l) == 0 && m * Pow(2, l) / Pow(2, l) == m
    ensures Finite(m * Pow(2, l), 1 - l - 1022) && FloatBits(m * Pow(2, l), 1 - l - 1022) == m
  {
    hide Pow;
  }

  lemma NormalForm(x: nat, f: nat)
    requires 1 <= x < 0x7ff && f < M52
    ensures Finite(f + M52, x - 1022) && FloatBits(f + M52, x - 1022) == x * M52 + f
  {
    hide Pow;
  }

  lemma Denormal(m: nat, l: nat)
    requires 0 < m < M52 && Log2(m) < 52 && l == 52 - Log2(m)
    ensures M52 <= m * Pow(2, l) < M53 && m * Pow(2, l) % Pow(2, l) == 0 && m * Pow(2, l) / Pow(2, l) == m
  {
    hide Pow, Log2;
    var p, q := Pow(2, Log2(m)), Pow(2, l);
    PowAdd(2, Log2(m), l);
    Constants();
    LeMul(p, m, q);
    LeMul(m, 2 * p, q);
    Assoc(2, p, q);
    MulDiv(m, q);
    MulDivMod(m, q);
  }

  // ----- digits ---------------------------------------------------------------------------------------

  /** output_digits for radix 10: the lowest n1 digits of a, with a point at dotPos unless that is
      the end. */
  method OutputDigits(a: Mpb, n1: nat, dotPos: nat) returns (s: string)
    requires a.Norm() && 1 <= dotPos <= n1
    modifies a`len, a.tab
    ensures var ds := Pad(old(a.Val()), n1);
      s == if dotPos == n1 then Chars(ds) else Chars(ds[..dotPos]) + "." + Chars(ds[dotPos..])
  {
    hide Pad, Value, Pow, Chars, AllBelow;
    ghost var v, low := a.Val(), [];
    var nDigits: nat := n1;
    s := "";
    Billion();
    CharsNone();
    BelowNone();
    while nDigits != 0
      invariant a.Norm() && nDigits <= n1 && AllBelow(low, 10) && s == Chars(low)
      invariant Pad(v, n1) == Pad(a.Val(), nDigits) + low
    {
      var n := MinI(nDigits, 9);
      nDigits := nDigits - n;
      ghost var x := a.Val();
      var r := MpDiv1(a.tab, a.len, 1000000000, 0);
      ghost var q := Value(a.tab[..a.len]);
      DivUnique(x, 1000000000, q, r);
      a.Renorm();
      var t := U32toaLen(r, n);
      Group(x, nDigits, n);
      CharsAppend(Pad(r, n), low);
      assert Pad(q, nDigits) + Pad(r, n) + low == Pad(q, nDigits) + (Pad(r, n) + low);
      low := Pad(r, n) + low;
      s := t + s;
    }
    PadNone(a.Val());
    assert [] + low == low;
    if dotPos != n1 {
      CharsSplit(low, dotPos);
      s := s[..dotPos] + "." + s[dotPos..];
    }
  }

  lemma CharsSplit(ds: seq<int>, k: nat)
    requires AllBelow(ds, 10) && k <= |ds|
    ensures AllBelow(ds[..k], 10) && AllBelow(ds[k..], 10)
    ensures Chars(ds)[..k] == Chars(ds[..k]) && Chars(ds)[k..] == Chars(ds[k..])
  {
  }

  /** The lowest digits come from the remainder; a last, incomplete group from the same. */
  lemma Group(x: nat, k: nat, n: nat)
    requires n == 9 || (k == 0 && n <= 9)
    ensures Pad(x, k + n) == Pad(x / 1000000000, k) + Pad(x % 1000000000, n)
  {
    hide Pad, Pow;
    Billion();
    if n == 9 {
      PadSplit(x, k, 9);
    } else {
      PadNone(x / 1000000000);
      PadTail(x, n);
    }
  }

  /** The lowest n digits are the same with the higher digits removed. */
  lemma PadTail(x: nat, n: nat)
    requires n <= 9
    ensures Pad(x, n) == Pad(x % 1000000000, n)
  {
    hide Pad, Pow;
    Billion();
    var p, q := Pow(10, n), Pow(10, 9 - n);
    PowAdd(10, n, 9 - n);
    PadSplit(x, 0, n);
    PadSplit(x % 1000000000, 0, n);
    PadNone(x / p);
    PadNone(x % 1000000000 / p);
    ModMod(x, p, q);
  }

  lemma ModMod(x: nat, p: nat, q: nat)
    requires p > 0 && q > 0
    ensures p * q > 0 && x % (p * q) % p == x % p
  {
    DivDiv(x, p, q);
    DivUnique(x / p % q * p + x % p, p, x / p % q, x % p);
  }

  // ----- layout ---------------------------------------------------------------------------------------

  function ZeroDigits(k: nat): (ds: seq<int>)
    ensures |ds| == k && AllBelow(ds, 10) && forall i :: 0 <= i < k ==> ds[i] == 0
  {
    seq(k, i => 0)
  }

  function ExponentText(e: int): string {
    "e" + (if e < 0 then "-" else "+") + Chars(Dec(if e < 0 then -e else e))
  }

  /** Number::toString of ECMA-262 for the digits ds of a number ds * 10^(n - |ds|): section
      6.1.6.1.20, steps 6 to 12. */
  function NumberToString(ds: seq<int>, n: int): string
    requires AllBelow(ds, 10) && |ds| >= 1
  {
    var k := |ds|;
    if k <= n <= 21 then Chars(ds) + Chars(ZeroDigits(n - k))
    else if 0 < n <= 21 then Chars(ds[..n]) + "." + Chars(ds[n..])
    else if -6 < n <= 0 then "0." + Chars(ZeroDigits(-n)) + Chars(ds)
    else if k == 1 then Chars(ds) + ExponentText(n - 1)
    else Chars(ds[..1]) + "." + Chars(ds[1..]) + ExponentText(n - 1)
  }

  /** The digits ds of a number ds * 10^(n - |ds|), with an exponent when n is -6 or less or
      above emax. */
  function LayoutText(ds: seq<int>, n: int, emax: int): string
    requires AllBelow(ds, 10) && |ds| >= 1
  {
    var k := |ds|;
    if n <= -6 || n > emax then (if k == 1 then Chars(ds) else Chars(ds[..1]) + "." + Chars(ds[1..])) + ExponentText(n - 1)
    else if n <= 0 then "0." + Chars(ZeroDigits(-n)) + Chars(ds)
    else (if k <= n then Chars(ds) else Chars(ds[..n]) + "." + Chars(ds[n..])) + Chars(ZeroDigits(MaxI(n - k, 0)))
  }

  /** Writes the digits of a, an integer of P digits, with the decimal exponent E. */
  method Layout(a: Mpb, P: nat, E: int, Emax: int) returns (s: string)
    requires a.Norm() && P >= 1
    modifies a`len, a.tab
    ensures s == LayoutText(Pad(old(a.Val()), P), E, Emax)
  {
    hide Pad, Value, Chars, AllBelow, Dec, ZeroDigits, LayoutText, ExponentText;
    ghost var ds := Pad(a.Val(), P);
    LayoutCases(ds, E, Emax);
    if E <= -6 || E > Emax {
      s := OutputDigits(a, P, 1);
      s := AddExponent(s, E - 1);
    } else if E <= 0 {
      s := "0.";
      var zeros := Zeroes(-E);
      var t := OutputDigits(a, P, P);
      s := s + zeros + t;
    } else {
      s := OutputDigits(a, P, MinI(P, E));
      var zeros := Zeroes(MaxI(E - P, 0));
      s := s + zeros;
    }
  }

  method AddExponent(head: string, e: int) returns (s: string)
    ensures s == head + ExponentText(e)
  {
    hide Chars, Dec;
    var mark := if e < 0 then "e-" else "e+";
    var t := U32toa(if e < 0 then -e else e);
    s := head + mark + t;
    assert s == head + (mark + t);
  }

  lemma LayoutCases(ds: seq<int>, n: int, emax: int)
    requires AllBelow(ds, 10) && |ds| >= 1
    ensures var k := |ds|;
      && (n <= -6 || n > emax ==>
            LayoutText(ds, n, emax) ==
            (if k == 1 then Chars(ds) else Chars(ds[..1]) + "." + Chars(ds[1..])) + ExponentText(n - 1))
      && (-6 < n <= 0 && n <= emax ==> LayoutText(ds, n, emax) == "0." + Chars(ZeroDigits(-n)) + Chars(ds))
      && (0 < n <= emax ==>
            LayoutText(ds, n, emax) ==
            (if MinI(k, n) == k then Chars(ds) else Chars(ds[..n]) + "." + Chars(ds[n..])) + Chars(ZeroDigits(MaxI(n - k, 0))))
  {
    hide Chars, ExponentText;
  }

  lemma TenMax()
    ensures MaxDigits(10) == 17
  {
  }

  /** With the limit of free format this is Number::toString. */
  lemma LayoutIs(ds: seq<int>, n: int)
    requires AllBelow(ds, 10) && |ds| >= 1
    ensures LayoutText(ds, n, 21) == NumberToString(ds, n)
  {
    hide Chars, ExponentText;
    NoZeros();
    if |ds| > 1 { Apart(Chars(ds[..1]), ".", Chars(ds[1..]), ExponentText(n - 1)); }
  }

  lemma Apart(a: string, b: string, c: string, d: string)
    ensures (a + b + c) + d == a + b + c + d
  {
  }

  lemma WholeDigits(ds: seq<int>)
    ensures |ds| == 1 ==> ds[..1] == ds
    ensures ds[..|ds|] == ds
  {
  }

  lemma NoZeros()
    ensures Chars(ZeroDigits(0)) == ""
  {
  }

  method Zeroes(k: nat) returns (s: string)
    ensures s == Chars(ZeroDigits(k))
  {
    s := "";
    var i := 0;
    while i < k
      invariant 0 <= i <= k && |s| == i && forall j :: 0 <= j < i ==> s[j] == '0'
    {
      s := s + "0";
      i := i + 1;
    }
  }

  // ----- what a layout denotes ------------------------------------------------------------------------

  function FormExp(f: Form): int {
    if !f.exp then 0 else if f.expNeg then -Number(f.expDigits, 10) else Number(f.expDigits, 10)
  }

  function FormValue(f: Form): real { Scale(10, Number(f.whole + f.frac, 10) as real, FormExp(f) - |f.frac|) }

  /** The layout as a form with the same value. */
  lemma LayoutForm(neg: bool, ds: seq<int>, n: int) returns (f: Form)
    requires AllBelow(ds, 10) && 1 <= |ds| <= 17
    ensures FormOk(f) && f.neg == neg && Text(f) == SignText(neg) + NumberToString(ds, n) && |f.whole + f.frac| <= 38
    ensures FormValue(f) == Scale(10, Number(ds, 10) as real, n - |ds|)
  {
    var k := |ds|;
    if k <= n <= 21 {
      f := WholeForm(neg, ds, n);
    } else if 0 < n <= 21 {
      f := Form(neg, ds[..n], true, ds[n..], false, false, []);
      assert ds[..n] + ds[n..] == ds;
      TextOf(f);
      Joined(SignText(neg), Chars(ds[..n]), ".", Chars(ds[n..]), "");
    } else if -6 < n <= 0 {
      f := SmallForm(neg, ds, n);
    } else {
      f := ExpForm(neg, ds, n);
    }
  }

  lemma TextOf(f: Form)
    requires FormOk(f)
    ensures Text(f) == SignText(f.neg) + Chars(f.whole) + PointText(f) + ExpText(f)
  {
  }

  lemma Joined(a: string, b: string, c: string, d: string, e: string)
    ensures a + b + (c + d) + e == a + (b + c + d + e)
  {
  }

  lemma WholeForm(neg: bool, ds: seq<int>, n: int) returns (f: Form)
    requires AllBelow(ds, 10) && 1 <= |ds| <= n <= 21
    ensures FormOk(f) && f.neg == neg && Text(f) == SignText(neg) + NumberToString(ds, n) && |f.whole + f.frac| <= 38
    ensures FormValue(f) == Scale(10, Number(ds, 10) as real, n - |ds|)
  {
    hide Number, Scale, Pow, Chars;
    var z := ZeroDigits(n - |ds|);
    CharsAppend(ds, z);
    f := Form(neg, ds + z, false, [], false, false, []);
    assert f.whole + f.frac == ds + z;
    NumberAppend(ds, z, 10);
    NumberZeros(z, 10);
    ScaleInt(10, Number(ds, 10), n - |ds|);
    ScaleZero(10, Number(ds + z, 10) as real);
  }

  lemma SmallForm(neg: bool, ds: seq<int>, n: int) returns (f: Form)
    requires AllBelow(ds, 10) && 1 <= |ds| <= 17 && -6 < n <= 0
    ensures FormOk(f) && f.neg == neg && Text(f) == SignText(neg) + NumberToString(ds, n) && |f.whole + f.frac| <= 38
    ensures FormValue(f) == Scale(10, Number(ds, 10) as real, n - |ds|)
  {
    hide Number, Scale, Pow, Chars, SignText, Text, NumberToString;
    var z := ZeroDigits(-n);
    CharsAppend(z, ds);
    f := Form(neg, [0], true, z + ds, false, false, []);
    SmallText(neg, z, ds, f);
    SmallLayout(ds, n);
    SmallNumber(ds, -n);
  }

  lemma SmallLayout(ds: seq<int>, n: int)
    requires AllBelow(ds, 10) && |ds| >= 1 && -6 < n <= 0
    ensures NumberToString(ds, n) == "0." + Chars(ZeroDigits(-n)) + Chars(ds)
  {
    hide Chars;
  }

  lemma SmallNumber(ds: seq<int>, k: nat)
    requires AllBelow(ds, 10)
    ensures Number([0] + (ZeroDigits(k) + ds), 10) == Number(ds, 10)
  {
    hide Number;
    var all := [0] + (ZeroDigits(k) + ds);
    assert all[k + 1..] == ds;
    NumberLeading(all, k + 1, 10);
  }

  lemma SmallText(neg: bool, z: seq<int>, ds: seq<int>, f: Form)
    requires AllBelow(z, 10) && AllBelow(ds, 10) && f == Form(neg, [0], true, z + ds, false, false, []) && FormOk(f)
    ensures Text(f) == SignText(neg) + ("0." + Chars(z) + Chars(ds))
  {
    assert Chars([0]) == "0";
    hide Chars, SignText, AllBelow;
    CharsAppend(z, ds);
    TextOf(f);
    Joined(SignText(neg), "0", ".", Chars(z + ds), "");
  }

  lemma ExpForm(neg: bool, ds: seq<int>, n: int) returns (f: Form)
    requires AllBelow(ds, 10) && 1 <= |ds| <= 17 && (n <= -6 || n > 21)
    ensures FormOk(f) && f.neg == neg && Text(f) == SignText(neg) + NumberToString(ds, n) && |f.whole + f.frac| <= 38
    ensures FormValue(f) == Scale(10, Number(ds, 10) as real, n - |ds|)
  {
    hide Number, Scale, Pow, Chars, Dec, SignText, Text, ExponentText;
    var e := n - 1;
    var x := Dec(if e < 0 then -e else e);
    NumberDec(if e < 0 then -e else e);
    assert ds[..1] + ds[1..] == ds;
    f := Form(neg, ds[..1], |ds| > 1, ds[1..], true, e < 0, x);
    WholeDigits(ds);
    ExpLayout(neg, ds, e, f);
  }

  lemma ExpLayout(neg: bool, ds: seq<int>, e: int, f: Form)
    requires AllBelow(ds, 10) && |ds| >= 1 && FormOk(f)
    requires f == Form(neg, ds[..1], |ds| > 1, ds[1..], true, e < 0, Dec(if e < 0 then -e else e))
    ensures Text(f) == SignText(neg) +
      if |ds| > 1 then Chars(ds[..1]) + "." + Chars(ds[1..]) + ExponentText(e) else Chars(ds) + ExponentText(e)
  {
    hide Chars, Dec, SignText, AllBelow;
    assert ExpText(f) == ExponentText(e);
    WholeDigits(ds);
    TextOf(f);
    hide ExpText, ExponentText, Text;
    if |ds| > 1 {
      Joined(SignText(neg), Chars(ds[..1]), ".", Chars(ds[1..]), ExponentText(e));
    } else {
      Joined(SignText(neg), Chars(ds), "", "", ExponentText(e));
    }
  }

  // ----- js_dtoa --------------------------------------------------------------------------------------

  /** The integer that a float stands for, when it is one below 2^53. */
  predicate SmallInteger(m: nat, e: int) { 1 <= e <= 53 && m % Pow(2, 53 - e) == 0 }

  lemma IntegerValue(m: nat, e: int)
    requires SmallInteger(m, e) && m < M53
    ensures ValueOf(m, e) == (m / Pow(2, 53 - e)) as real && m / Pow(2, 53 - e) < M53
  {
    hide Scale, Pow;
    var p, n := Pow(2, 53 - e), m / Pow(2, 53 - e);
    assert m == n * p;
    ScaleInt(2, n, 53 - e);
    ScaleScale(2, n as real, 53 - e, e - 53);
    ScaleZero(2, n as real);
    DivRange(m, p);
    Mono(n, n, 1, p);
  }

  /** The text of the positive float (m, e): an integer, or digits that convert back, of which
      one less would not, laid out as Number::toString prescribes. */
  ghost predicate Shows(m: nat, e: int, s: string) {
    if SmallInteger(m, e) then s == Chars(Dec(m / Pow(2, 53 - e)))
    else exists mant: nat, E, P: nat ::
      Found(10, m, e, mant, E, P) && (P == 1 || !CandidateConverts(10, m, e, P - 1)) && s == NumberToString(Pad(mant, P), E)
  }

  /** js_dtoa in free format, radix 10, with the sign of zero shown. */
  method JsDtoa(bits: nat) returns (s: string)
    requires bits < 2 * SIGN_BIT
    ensures var neg, a := bits >= SIGN_BIT, bits % SIGN_BIT;
      if a > INFINITY_BITS then s == "NaN"
      else if a == INFINITY_BITS then s == SignText(neg) + "Infinity"
      else if a == 0 then s == SignText(neg) + "0"
      else exists m: nat, e, t ::
        && Finite(m, e) && FloatBits(m, e) == a && IsNumber(a) && ValueOf(m, e) == Value64(a)
        && Shows(m, e, t) && s == SignText(neg) + t
  {
    hide Value64, ValueOf, Pow, Dec, Pad, Chars, Found, CandidateConverts, NumberToString, LayoutText, RadixOk, Value, MaxDigits;
    var sgn, a := bits / SIGN_BIT, bits % SIGN_BIT;
    s := "";
    if a / M52 == 0x7ff {
      if a % M52 == 0 {
        if sgn == 1 { s := "-"; }
        s := s + INFINITY_TEXT;
      } else {
        s := "NaN";
      }
      return;
    }
    if sgn == 1 { s := "-"; }
    if a == 0 {
      var zero := new Mpb(DBIGNUM_LEN_MAX);
      var t := Layout(zero, 1, 1, MaxDigits(10) + 4);
      ZeroText();
      s := s + t;
      return;
    }
    var m1, e1 := Unpack(a);
    var t;
    if 1 <= e1 <= 53 && m1 % Pow(2, 53 - e1) == 0 {
      IntegerValue(m1, e1);
      t := U64toa(m1 / Pow(2, 53 - e1));
    } else {
      TenOk();
      var mant, E, P := FreeDigits(m1, e1, 10);
      var tmp := new Mpb(DBIGNUM_LEN_MAX);
      FoundSmall(m1, e1, mant, E, P);
      tmp.SetU64(mant);
      t := Layout(tmp, P, E, MaxDigits(10) + 4);
      LayoutIs(Pad(mant, P), E);
      TenMax();
      assert Found(10, m1, e1, mant, E, P) && (P == 1 || !CandidateConverts(10, m1, e1, P - 1))
             && t == NumberToString(Pad(mant, P), E);
    }
    assert Shows(m1, e1, t);
    s := s + t;
  }

  lemma FoundSmall(m: nat, e: int, mant: nat, E: int, P: nat)
    requires RadixOk(10) && Found(10, m, e, mant, E, P)
    ensures 1 <= P <= 17 && 0 < mant < B * B && mant < Pow(10, P)
  {
    hide Pow, Converts, LogOk, RoomAt, OddRadix;
    TenMax();
    SmallDigits(10, P, mant);
  }

  lemma ZeroText()
    ensures LayoutText(Pad(0, 1), 1, MaxDigits(10) + 4) == "0"
  {
    TenMax();
    assert Pad(0, 1) == Pad(0, 0) + [0];
    assert Chars([0]) == "0";
    NoZeros();
  }

  // ----- round trip -----------------------------------------------------------------------------------

  lemma {:induction false} DecLength(n: nat)
    ensures |Dec(n)| <= n + 1
    decreases n
  {
    if n >= 10 { DecLength(n / 10); }
  }

  /** The form of the text of a float, and what it denotes. */
  lemma ShownForm(neg: bool, m: nat, e: int, t: string) returns (f: Form)
    requires Finite(m, e) && Shows(m, e, t)
    ensures FormOk(f) && f.neg == neg && Text(f) == SignText(neg) + t && |f.whole + f.frac| <= 38 && |Text(f)| < 2000
    ensures RoundsTo(FormValue(f), m, e, RNDN)
  {
    hide Pow, Dec, Pad, Chars, CandidateConverts, NumberToString, RadixOk, Scale, Number, RoundsTo, MulLog2Radix, Text;
    if SmallInteger(m, e) {
      f := IntegerForm(neg, m, e);
    } else {
      var mant: nat, E, P: nat :| Found(10, m, e, mant, E, P) && (P == 1 || !CandidateConverts(10, m, e, P - 1))
                                  && t == NumberToString(Pad(mant, P), E);
      TenOk();
      FoundSmall(m, e, mant, E, P);
      NumberPad(mant, P);
      f := LayoutForm(neg, Pad(mant, P), E);
      NearBound(e, E);
      LayoutLength(Pad(mant, P), E);
    }
  }

  lemma NearBound(e: int, E: int)
    requires -1073 <= e <= 1024 && NearE(e, E, 10)
    ensures -400 <= E <= 400
  {
    TenParts();
  }

  lemma LayoutLength(ds: seq<int>, n: int)
    requires AllBelow(ds, 10) && 1 <= |ds| <= 17 && -400 <= n <= 400
    ensures |NumberToString(ds, n)| < 1000
  {
    hide Dec;
    DecLength(if n - 1 < 0 then 1 - n else n - 1);
  }

  lemma IntegerForm(neg: bool, m: nat, e: int) returns (f: Form)
    requires Finite(m, e) && SmallInteger(m, e)
    ensures FormOk(f) && f.neg == neg && Text(f) == SignText(neg) + Chars(Dec(m / Pow(2, 53 - e)))
    ensures |f.whole + f.frac| <= 38 && |Text(f)| < 2000 && RoundsTo(FormValue(f), m, e, RNDN)
  {
    hide Pow, Dec, Chars, Scale, Number, RoundsTo;
    var n := m / Pow(2, 53 - e);
    IntegerValue(m, e);
    f := Form(neg, Dec(n), false, [], false, false, []);
    assert f.whole + f.frac == Dec(n);
    NumberDec(n);
    ScaleZero(10, n as real);
    ExactConverts(m, e);
    SixteenDigits(n);
  }

  lemma SixteenDigits(n: nat)
    requires n < M53
    ensures |Dec(n)| <= 18
  {
    hide Pow, Dec;
    Billion();
    if n >= 1000000000 {
      DecSplit(n, 9);
      NineDigits(n / 1000000000);
    } else {
      NineDigits(n);
    }
  }

  lemma NineDigits(n: nat)
    requires n < 1000000000
    ensures |Dec(n)| <= 9
  {
    hide Dec;
    DecThree(n);
    DecThree(n / 1000);
    DecThree(n / 1000 / 1000);
  }

  lemma DecThree(n: nat)
    ensures |Dec(n)| <= if n < 1000 then 3 else 3 + |Dec(n / 1000)|
  {
    hide Pow;
    assert Pow(10, 3) == 1000 by { Thousand(); }
    if n >= 1000 {
      DecSplit(n, 3);
    } else if n >= 10 {
      DecStep(n);
      if n / 10 >= 10 { DecStep(n / 10); }
    }
  }

  lemma Thousand()
    ensures Pow(10, 3) == 1000
  {
  }

  /** Reading the digits of a form gives its value. */
  lemma FormMagnitude(f: Form)
    requires FormOk(f) && |f.whole + f.frac| <= 38
    ensures KeptDigits(f.whole + f.frac, 10) == f.whole + f.frac
    ensures Magnitude(f.whole + f.frac, |f.frac|, FormExp(f), false, 10) == FormValue(f)
    ensures FractionDigits(Split(f.whole + f.frac, if f.point then |f.whole| else -1, 0)) == |f.frac|
  {
    hide Number, Scale;
    var ds := f.whole + f.frac;
    assert MaxKept(10) == 38;
    assert Truncated(ds, LeadingZeros(ds) + 38) == ds;
    ScaleZero(2, FormValue(f));
  }

  /** Reading back the text of a finite non-zero float. */
  lemma ReadBack(f: Form, m: nat, e: int, r: Result)
    requires FormOk(f) && |f.whole + f.frac| <= 38 && Finite(m, e) && RoundsTo(FormValue(f), m, e, RNDN)
    requires AtodIs(Text(f), 10, r, false)
    ensures r == Float(FloatBits(m, e) + SignBit(f.neg), |Text(f)|)
  {
    hide Number, Scale, Magnitude, KeptDigits, NearestBits, RoundsTo, FloatBits, Finite, Text, FormValue, ParseNumber, Computed,
      AllBelow;
    TenParts();
    ParseForm(f);
    FormMagnitude(f);
    NonZero(f, m, e);
    FormDigits(f);
    FloatNearest(FormValue(f), m, e);
    BitsRange(m, e);
    FiniteRight(f.whole + f.frac, |f.frac|, FormExp(f), false, 10, r.bits - SignBit(f.neg), FloatBits(m, e));
  }

  lemma FormDigits(f: Form)
    requires FormOk(f)
    ensures AllBelow(f.whole + f.frac, 10)
  {
  }

  lemma NonZero(f: Form, m: nat, e: int)
    requires RoundsTo(FormValue(f), m, e, RNDN)
    ensures Number(f.whole + f.frac, 10) != 0
  {
    hide Number, RP;
    var e0 :| Bracket(FormValue(f), e0) && ValueOf(m, e) == Rounded(FormValue(f), e0, RNDN);
    ScaleNothing(10, FormExp(f) - |f.frac|);
  }

  lemma ZeroForm(neg: bool, s: string, r: Result)
    requires s == SignText(neg) + "0" && AtodIs(s, 10, r, false)
    ensures r == Float(SignBit(neg), |s|)
  {
    var f := Form(neg, [0], false, [], false, false, []);
    assert Chars([0]) == "0";
    assert Text(f) == s;
    assert f.whole + f.frac == [0];
    assert Number([0], 10) == 0 by { NumberZeros([0], 10); }
    hide Number, Scale, Magnitude, KeptDigits, NearestBits, Text, ParseNumber;
    TenParts();
    ParseForm(f);
    FormMagnitude(f);
  }

  lemma InfinityForm(neg: bool, s: string, r: Result)
    requires s == SignText(neg) + INFINITY_TEXT && AtodIs(s, 10, r, false)
    ensures r == Float(INFINITY_BITS + SignBit(neg), |s|)
  {
    var a := |SignText(neg)|;
    assert s[a..a + 8] == INFINITY_TEXT;
    assert s[a] == s[a..a + 8][0] == 'I';
    assert CharAt(s, 0) == if neg then '-' else 'I';
  }

  /** Printing and parsing: for every float but NaN the same bits come back, and the whole text is
      consumed. */
  method PrintParse(bits: nat) returns (s: string, r: Result)
    requires bits < 2 * SIGN_BIT && bits % SIGN_BIT <= INFINITY_BITS
    ensures r == Float(bits, |s|)
  {
    hide Number, Magnitude, KeptDigits, NearestBits, RoundsTo, FloatBits, Finite, Text, FormValue, AtodIs, RadixReady, Chars, Dec, Shows,
      Value64, ValueOf, IsNumber, OddPart, Ctz;
    s := JsDtoa(bits);
    ghost var m: nat, e := 0, 0;
    ghost var neg, a := bits >= SIGN_BIT, bits % SIGN_BIT;
    TenReady();
    TenParts();
    ghost var f;
    if 0 < a < INFINITY_BITS {
      ghost var m1: nat, e1, t :| Finite(m1, e1) && FloatBits(m1, e1) == a && Shows(m1, e1, t) && s == SignText(neg) + t;
      m, e := m1, e1;
      f := ShownForm(neg, m, e, t);
    }
    r := JsAtod(s, 10);
    if a == 0 {
      ZeroForm(neg, s, r);
    } else if a == INFINITY_BITS {
      InfinityForm(neg, s, r);
    } else {
      ReadBack(f, m, e, r);
    }
  }
}
