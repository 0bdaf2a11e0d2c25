/**
 Decimal texts of the forms that js_dtoa writes parse into exactly their parts.
 */
module NumberForm {
  import opened Limbs
  import opened Bignum
  import opened MulPow
  import opened NumberText
  import opened DecimalText

  /** Sign, integer digits, optionally a point with digits, optionally an exponent. */
  datatype Form = Form(neg: bool, whole: seq<int>, point: bool, frac: seq<int>, exp: bool, expNeg: bool, expDigits: seq<int>)

  predicate FormOk(f: Form) {
    && |f.whole| >= 1 && AllBelow(f.whole, 10) && AllBelow(f.frac, 10) && AllBelow(f.expDigits, 10)
    && (!f.point ==> f.frac == []) && (f.exp ==> |f.expDigits| >= 1)
  }

  function SignText(neg: bool): string { if neg then "-" else "" }

  function PointText(f: Form): string
    requires FormOk(f)
  {
    if f.point then "." + Chars(f.frac) else ""
  }

  function ExpText(f: Form): string
    requires FormOk(f)
  {
    if f.exp then "e" + (if f.expNeg then "-" else "+") + Chars(f.expDigits) else ""
  }

  function Text(f: Form): string
    requires FormOk(f)
  {
    SignText(f.neg) + Chars(f.whole) + PointText(f) + ExpText(f)
  }

  // ----- scanning -------------------------------------------------------------------------------------

  /** t stands at p. */
  predicate Stands(s: string, p: nat, t: string) { p + |t| <= |s| && s[p..p + |t|] == t }

  lemma StandsAt(s: string, p: nat, t: string, i: nat)
    requires Stands(s, p, t) && i < |t|
    ensures CharAt(s, p + i) == t[i]
  {
    assert s[p..p + |t|][i] == s[p + i];
  }

  lemma DigitAt(s: string, p: nat, ds: seq<int>)
    requires AllBelow(ds, 10) && ds != [] && Stands(s, p, Chars(ds))
    ensures IsDigit(s, p, 10) && ToDigit(CharAt(s, p)) == ds[0] && CharAt(s, p) != '.' && CharAt(s, p) != 'I'
    ensures Stands(s, p + 1, Chars(ds[1..]))
  {
    StandsAt(s, p, Chars(ds), 0);
    DigitRoundTrip(ds[0]);
    assert Chars(ds)[1..] == Chars(ds[1..]);
    assert s[p..p + |ds|][1..] == s[p + 1..p + |ds|];
  }

  /** Scanning over written digits. */
  lemma {:induction false} ScanChars(s: string, p: nat, start: nat, ds: seq<int>, v: seq<int>, dot: int)
    requires AllBelow(v, 10) && Stands(s, p, Chars(v))
    ensures Scan(s, p, start, 10, ds, dot) == Scan(s, p + |v|, start, 10, ds + v, dot)
    decreases v
  {
    hide Scan, Chars, Stands, IsDigit, ToDigit;
    if v == [] {
      assert ds + v == ds;
    } else {
      DigitAt(s, p, v);
      ScanDigit(s, p, start, ds, dot);
      ScanChars(s, p + 1, start, ds + [v[0]], v[1..], dot);
      assert ds + [v[0]] + v[1..] == ds + v;
    }
  }

  lemma ScanDigit(s: string, p: nat, start: nat, ds: seq<int>, dot: int)
    requires IsDigit(s, p, 10) && CharAt(s, p) != '.'
    ensures Scan(s, p, start, 10, ds, dot) == Scan(s, p + 1, start, 10, ds + [ToDigit(CharAt(s, p))], dot)
  {
  }

  lemma {:induction false} RunChars(s: string, p: nat, v: seq<int>)
    requires AllBelow(v, 10) && Stands(s, p, Chars(v)) && p + |v| == |s|
    ensures Run(s, p) == v
    decreases v
  {
    if v != [] {
      DigitAt(s, p, v);
      RunChars(s, p + 1, v[1..]);
    }
  }

  /** Where the parts of a text stand. */
  lemma Parts(f: Form)
    requires FormOk(f)
    ensures var s, a := Text(f), |SignText(f.neg)|; var b := a + |f.whole|; var c := b + |PointText(f)|;
      Stands(s, a, Chars(f.whole)) && Stands(s, b, PointText(f)) && Stands(s, c, ExpText(f)) && |s| == c + |ExpText(f)|
  {
    hide Stands, SignText, PointText, ExpText, AllBelow;
    Sections(SignText(f.neg), Chars(f.whole), PointText(f), ExpText(f));
  }

  lemma PointPart(f: Form, s: string, b: nat)
    requires FormOk(f) && Stands(s, b, PointText(f)) && f.point
    ensures CharAt(s, b) == '.' && Stands(s, b + 1, Chars(f.frac)) && |PointText(f)| == 1 + |f.frac|
  {
    hide Stands, AllBelow, CharAt;
    StandsCons(s, b, '.', Chars(f.frac));
  }

  lemma ExpPart(f: Form, s: string, c: nat)
    requires FormOk(f) && Stands(s, c, ExpText(f)) && f.exp
    ensures CharAt(s, c) == 'e' && CharAt(s, c + 1) == (if f.expNeg then '-' else '+')
    ensures Stands(s, c + 2, Chars(f.expDigits)) && |ExpText(f)| == 2 + |f.expDigits|
  {
    hide Stands, AllBelow, CharAt;
    var e := if f.expNeg then '-' else '+';
    assert ExpText(f) == ['e'] + ([e] + Chars(f.expDigits));
    StandsCons(s, c, 'e', [e] + Chars(f.expDigits));
    StandsCons(s, c + 1, e, Chars(f.expDigits));
  }

  lemma Sections(a: string, b: string, c: string, d: string)
    ensures var s := a + b + c + d;
      Stands(s, |a|, b) && Stands(s, |a| + |b|, c) && Stands(s, |a| + |b| + |c|, d)
  {
    var s := a + b + c + d;
    assert s[|a|..|a| + |b|] == b;
    assert s[|a| + |b|..|a| + |b| + |c|] == c;
    assert s[|a| + |b| + |c|..] == d;
  }

  lemma StandsCons(s: string, p: nat, c: char, t: string)
    requires Stands(s, p, [c] + t)
    ensures CharAt(s, p) == c && Stands(s, p + 1, t)
  {
    var u := [c] + t;
    assert s[p..p + |u|][0] == s[p] && u[1..] == t;
    assert s[p..p + |u|][1..] == s[p + 1..p + |u|];
  }

  /** The digits of a form are scanned up to the exponent or the end. */
  lemma ScanForm(f: Form)
    requires FormOk(f)
    ensures var a := |SignText(f.neg)|;
      Scan(Text(f), a, a, 10, [], -1) ==
      Split(f.whole + f.frac, if f.point then |f.whole| else -1, a + |f.whole| + |PointText(f)|)
  {
    hide Scan, Text, ExpText, Chars, Stands, SignText, AllBelow, CharAt;
    Parts(f);
    var s, a := Text(f), |SignText(f.neg)|;
    var b := a + |f.whole|;
    var c := b + |PointText(f)|;
    ScanChars(s, a, a, [], f.whole, -1);
    assert [] + f.whole == f.whole;
    if f.exp { ExpPart(f, s, c); } else { NoExp(f); }
    if f.point {
      PointPart(f, s, b);
      ScanPoint(s, b, a, f.whole);
      ScanChars(s, b + 1, a, f.whole, f.frac, |f.whole|);
      ScanStop(s, c, a, f.whole + f.frac, |f.whole|);
    } else {
      assert f.whole + f.frac == f.whole;
      ScanStop(s, c, a, f.whole, -1);
    }
  }

  lemma NoExp(f: Form)
    requires FormOk(f) && !f.exp
    ensures ExpText(f) == ""
  {
  }

  lemma ScanPoint(s: string, p: nat, start: nat, ds: seq<int>)
    requires CharAt(s, p) == '.' && p > start
    ensures Scan(s, p, start, 10, ds, -1) == Scan(s, p + 1, start, 10, ds, |ds|)
  {
  }

  lemma ScanStop(s: string, p: nat, start: nat, ds: seq<int>, dot: int)
    requires p >= |s| || CharAt(s, p) == 'e'
    ensures Scan(s, p, start, 10, ds, dot) == Split(ds, dot, p)
  {
  }

  /** A written form is read as its parts, to the end. */
  lemma ParseForm(f: Form)
    requires FormOk(f)
    ensures ParseNumber(Text(f), 10, 0) ==
      Numeral(f.neg, Split(f.whole + f.frac, if f.point then |f.whole| else -1, |Text(f)| - |ExpText(f)|),
              if !f.exp then 0 else if f.expNeg then -Number(f.expDigits, 10) else Number(f.expDigits, 10), false, |Text(f)|)
  {
    hide Scan, Number, Run, Text, ExpText, PointText, Chars, Stands, SignText, AllBelow, CharAt, ToDigit, StartsWith;
    Parts(f);
    ScanForm(f);
    var s, a := Text(f), |SignText(f.neg)|;
    var c := a + |f.whole| + |PointText(f)|;
    SignPart(f);
    DigitAt(s, a, f.whole);
    InfinityFirst(s, a);
    if f.exp {
      ExpPart(f, s, c);
      RunChars(s, c + 2, f.expDigits);
      DigitAt(s, c + 2, f.expDigits);
    } else {
      NoExp(f);
      AtEnd(s);
    }
  }

  lemma AtEnd(s: string)
    ensures CharAt(s, |s|) == '\0'
  {
  }

  lemma SignPart(f: Form)
    requires FormOk(f)
    ensures AfterSign(Text(f), 0) == |SignText(f.neg)| && (CharAt(Text(f), 0) == '-' <==> f.neg)
  {
    Parts(f);
    var s := Text(f);
    if f.neg {
      assert s[0] == '-';
    } else {
      StandsAt(s, 0, Chars(f.whole), 0);
      DigitRoundTrip(f.whole[0]);
    }
  }

  lemma InfinityFirst(s: string, p: nat)
    ensures StartsWith(s, p, INFINITY_TEXT) ==> CharAt(s, p) == 'I'
  {
    if StartsWith(s, p, INFINITY_TEXT) { assert s[p..p + 8][0] == s[p]; }
  }
}
