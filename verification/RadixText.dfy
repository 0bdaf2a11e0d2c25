/**
 Numbers written in any radix from 2 to 36, with the digits 0 to 9 and the letters of either case,
 are read as exactly their parts.
 */
module RadixText {
  import opened Limbs
  import opened Bignum
  import opened RealPow
  import opened RadixTables
  import opened AtodRounding
  import opened NumberText
  import opened AtodMain
  import opened DecimalText
  import opened NumberForm

  const LOWER_DIGITS: string := "0123456789abcdefghijklmnopqrstuvwxyz"

  const UPPER_DIGITS: string := "0123456789ABCDEFGHIJKLMNOPQRSTUVWXYZ"

  function Letter(d: int, upper: bool): char
    requires 0 <= d < 36
  {
    if upper then UPPER_DIGITS[d] else LOWER_DIGITS[d]
  }

  lemma LowerIs(d: int)
    requires 0 <= d < 36
    ensures LOWER_DIGITS[d] == if d < 10 then ('0' as int + d) as char else ('a' as int + d - 10) as char
  {
  }

  lemma UpperIs(d: int)
    requires 0 <= d < 36
    ensures UPPER_DIGITS[d] == if d < 10 then ('0' as int + d) as char else ('A' as int + d - 10) as char
  {
  }

  /** The value of a character is its place in the alphabet. */
  lemma LetterValue(d: int, upper: bool)
    requires 0 <= d < 36
    ensures ToDigit(Letter(d, upper)) == d
    ensures Letter(d, upper) != '.' && Letter(d, upper) != '+' && Letter(d, upper) != '-'
    ensures Letter(d, upper) == 'I' ==> upper
    ensures Letter(d, upper) == 'n' ==> !upper
    ensures d == 0 <==> Letter(d, upper) == '0'
  {
    LowerIs(d);
    UpperIs(d);
    hide LOWER_DIGITS, UPPER_DIGITS;
  }

  /** Other characters have no value below 36. */
  lemma OnlyLetters(c: char)
    requires ToDigit(c) < 36
    ensures c == Letter(ToDigit(c), false) || c == Letter(ToDigit(c), true)
  {
    LowerIs(ToDigit(c));
    UpperIs(ToDigit(c));
    hide LOWER_DIGITS, UPPER_DIGITS;
  }

  // ----- texts ----------------------------------------------------------------------------------------

  /** Sign, digits with or without a point, and optionally an exponent in decimal digits behind a mark. */
  datatype RadixForm = RadixForm(neg: bool, upper: bool, whole: seq<int>, point: bool, frac: seq<int>,
                                 exp: bool, mark: char, expNeg: bool, expDigits: seq<int>)

  /** Marks: e in radix 10, @ in any other, and p for binary exponents in radix 2, 4, 8 and 16. */
  predicate MarkOk(mark: char, radix: nat) {
    if mark == 'e' || mark == 'E' then radix == 10
    else if mark == 'p' || mark == 'P' then radix == 2 || radix == 4 || radix == 8 || radix == 16
    else mark == '@' && radix != 10
  }

  predicate RadixFormOk(f: RadixForm, radix: nat) {
    && 2 <= radix <= 36 && AllBelow(f.whole, radix) && AllBelow(f.frac, radix) && AllBelow(f.expDigits, 10)
    && |f.whole| + |f.frac| >= 1 && (!f.point ==> f.frac == []) && (f.exp ==> |f.expDigits| >= 1 && MarkOk(f.mark, radix))
  }

  function Letters(ds: seq<int>, upper: bool): (t: string)
    requires AllBelow(ds, 36)
    ensures |t| == |ds| && forall i :: 0 <= i < |ds| ==> t[i] == Letter(ds[i], upper)
  {
    seq(|ds|, i requires 0 <= i < |ds| => Letter(ds[i], upper))
  }

  function PointPart36(f: RadixForm, radix: nat): string
    requires RadixFormOk(f, radix)
  {
    if f.point then "." + Letters(f.frac, f.upper) else ""
  }

  function ExpPart36(f: RadixForm, radix: nat): string
    requires RadixFormOk(f, radix)
  {
    if f.exp then [f.mark] + ((if f.expNeg then "-" else "+") + Chars(f.expDigits)) else ""
  }

  function Text36(f: RadixForm, radix: nat): string
    requires RadixFormOk(f, radix)
  {
    SignText(f.neg) + Letters(f.whole, f.upper) + PointPart36(f, radix) + ExpPart36(f, radix)
  }

  lemma LetterAt(s: string, p: nat, ds: seq<int>, upper: bool)
    requires AllBelow(ds, 36) && ds != [] && Stands(s, p, Letters(ds, upper))
    ensures CharAt(s, p) == Letter(ds[0], upper) && Stands(s, p + 1, Letters(ds[1..], upper))
  {
    StandsAt(s, p, Letters(ds, upper), 0);
    assert Letters(ds, upper)[1..] == Letters(ds[1..], upper);
    assert s[p..p + |ds|][1..] == s[p + 1..p + |ds|];
  }

  lemma {:induction false} ScanLetters(s: string, p: nat, start: nat, radix: nat, ds: seq<int>, v: seq<int>, upper: bool, dot: int)
    requires 2 <= radix <= 36 && AllBelow(v, radix) && Stands(s, p, Letters(v, upper))
    ensures Scan(s, p, start, radix, ds, dot) == Scan(s, p + |v|, start, radix, ds + v, dot)
    decreases v
  {
    hide Scan, Stands, ToDigit, Letter, CharAt;
    if v == [] {
      assert ds + v == ds;
    } else {
      LetterAt(s, p, v, upper);
      LetterValue(v[0], upper);
      ScanOne(s, p, start, radix, ds, dot);
      ScanLetters(s, p + 1, start, radix, ds + [v[0]], v[1..], upper, dot);
      assert ds + [v[0]] + v[1..] == ds + v;
    }
  }

  lemma ScanOne(s: string, p: nat, start: nat, radix: nat, ds: seq<int>, dot: int)
    requires 2 <= radix <= 36 && ToDigit(CharAt(s, p)) < radix && CharAt(s, p) != '.'
    ensures Scan(s, p, start, radix, ds, dot) == Scan(s, p + 1, start, radix, ds + [ToDigit(CharAt(s, p))], dot)
  {
    assert p < |s|;
  }

  /** Where scanning ends. */
  lemma ScanEnd(s: string, p: nat, start: nat, radix: nat, ds: seq<int>, dot: int)
    requires 2 <= radix <= 36 && (p >= |s| || MarkOk(s[p], radix))
    ensures Scan(s, p, start, radix, ds, dot) == Split(ds, dot, p)
  {
  }

  lemma ScanPoint36(s: string, p: nat, start: nat, radix: nat, ds: seq<int>)
    requires 2 <= radix <= 36 && CharAt(s, p) == '.' && (p > start || ToDigit(CharAt(s, p + 1)) < radix)
    ensures Scan(s, p, start, radix, ds, -1) == Scan(s, p + 1, start, radix, ds, |ds|)
  {
  }

  lemma Parts36(f: RadixForm, radix: nat)
    requires RadixFormOk(f, radix)
    ensures var s, a := Text36(f, radix), |SignText(f.neg)|; var b := a + |f.whole|; var c := b + |PointPart36(f, radix)|;
      && Stands(s, a, Letters(f.whole, f.upper)) && Stands(s, b, PointPart36(f, radix)) && Stands(s, c, ExpPart36(f, radix))
      && |s| == c + |ExpPart36(f, radix)|
      && (f.point ==> CharAt(s, b) == '.' && Stands(s, b + 1, Letters(f.frac, f.upper)) && c == b + 1 + |f.frac|)
      && (!f.point ==> c == b)
      && (f.exp ==> CharAt(s, c) == f.mark && CharAt(s, c + 1) == (if f.expNeg then '-' else '+')
                    && Stands(s, c + 2, Chars(f.expDigits)) && |s| == c + 2 + |f.expDigits|)
      && (!f.exp ==> |s| == c)
  {
    hide Stands, CharAt, MarkOk, SignText, Chars, Letter, PointPart36, ExpPart36;
    var s, a := Text36(f, radix), |SignText(f.neg)|;
    var b := a + |f.whole|;
    var c := b + |PointPart36(f, radix)|;
    Sections(SignText(f.neg), Letters(f.whole, f.upper), PointPart36(f, radix), ExpPart36(f, radix));
    PointIs(f, radix, s, b);
    ExpIs(f, radix, s, c);
  }

  lemma PointIs(f: RadixForm, radix: nat, s: string, b: nat)
    requires RadixFormOk(f, radix) && Stands(s, b, PointPart36(f, radix))
    ensures f.point ==> CharAt(s, b) == '.' && Stands(s, b + 1, Letters(f.frac, f.upper)) && |PointPart36(f, radix)| == 1 + |f.frac|
    ensures !f.point ==> PointPart36(f, radix) == ""
  {
    hide Stands, CharAt, MarkOk, Letter;
    if f.point { StandsCons(s, b, '.', Letters(f.frac, f.upper)); }
  }

  lemma ExpIs(f: RadixForm, radix: nat, s: string, c: nat)
    requires RadixFormOk(f, radix) && Stands(s, c, ExpPart36(f, radix))
    ensures f.exp ==> CharAt(s, c) == f.mark && CharAt(s, c + 1) == (if f.expNeg then '-' else '+')
                      && Stands(s, c + 2, Chars(f.expDigits)) && |ExpPart36(f, radix)| == 2 + |f.expDigits|
    ensures !f.exp ==> ExpPart36(f, radix) == ""
  {
    hide Stands, CharAt, MarkOk, Letter;
    if f.exp {
      var e := if f.expNeg then '-' else '+';
      assert ExpPart36(f, radix) == [f.mark] + ([e] + Chars(f.expDigits));
      StandsCons(s, c, f.mark, [e] + Chars(f.expDigits));
      StandsCons(s, c + 1, e, Chars(f.expDigits));
    }
  }

  lemma Scan36(f: RadixForm, radix: nat)
    requires RadixFormOk(f, radix)
    ensures var a := |SignText(f.neg)|;
      Scan(Text36(f, radix), a, a, radix, [], -1) ==
      Split(f.whole + f.frac, if f.point then |f.whole| else -1, a + |f.whole| + |PointPart36(f, radix)|)
  {
    hide Scan, Text36, ExpPart36, PointPart36, Stands, SignText, Letters, Letter, MarkOk;
    Parts36(f, radix);
    var s, a := Text36(f, radix), |SignText(f.neg)|;
    var b := a + |f.whole|;
    var c := b + |PointPart36(f, radix)|;
    ScanLetters(s, a, a, radix, [], f.whole, f.upper, -1);
    assert [] + f.whole == f.whole;
    if f.point {
      if f.whole == [] {
        LetterAt(s, b + 1, f.frac, f.upper);
        LetterValue(f.frac[0], f.upper);
      }
      ScanPoint36(s, b, a, radix, f.whole);
      ScanLetters(s, b + 1, a, radix, f.whole, f.frac, f.upper, |f.whole|);
      ScanEnd(s, c, a, radix, f.whole + f.frac, |f.whole|);
    } else {
      assert f.whole + f.frac == f.whole;
      ScanEnd(s, c, a, radix, f.whole, -1);
    }
  }

  /** The text does not start with Infinity: no case of the letters has both I and n. */
  lemma NotInfinity(f: RadixForm, radix: nat)
    requires RadixFormOk(f, radix)
    ensures !StartsWith(Text36(f, radix), |SignText(f.neg)|, INFINITY_TEXT)
    ensures AfterSign(Text36(f, radix), 0) == |SignText(f.neg)| && (CharAt(Text36(f, radix), 0) == '-' <==> f.neg)
  {
    hide Letter, Text36, ExpPart36, PointPart36;
    Parts36(f, radix);
    var s, a, w := Text36(f, radix), |SignText(f.neg)|, f.whole;
    if |w| > 0 {
      LetterAt(s, a, w, f.upper);
      LetterValue(w[0], f.upper);
    }
    if |w| > 1 {
      LetterAt(s, a + 1, w[1..], f.upper);
      LetterValue(w[1], f.upper);
    }
    if f.neg { Negative(f, radix); }
    InfinityLetters(s, a);
  }

  lemma InfinityLetters(s: string, p: nat)
    ensures StartsWith(s, p, INFINITY_TEXT) ==> CharAt(s, p) == 'I' && CharAt(s, p + 1) == 'n'
  {
    if StartsWith(s, p, INFINITY_TEXT) { assert s[p..p + 8][0] == s[p] && s[p..p + 8][1] == s[p + 1]; }
  }

  lemma Negative(f: RadixForm, radix: nat)
    requires RadixFormOk(f, radix) && f.neg
    ensures CharAt(Text36(f, radix), 0) == '-'
  {
  }

  lemma MarksAre(mark: char, radix: nat)
    requires 2 <= radix <= 36 && MarkOk(mark, radix)
    ensures IsExponentMark(mark, radix, RadixBits(radix)) && (IsBinaryMark(mark) <==> mark == 'p' || mark == 'P')
  {
    hide OddPart, Ctz;
    TenParts();
    if mark == 'p' || mark == 'P' { PowersOfTwo(); }
  }

  lemma PowersOfTwo()
    ensures forall r :: r == 2 || r == 4 || r == 8 || r == 16 ==> OddPart(r) == 1 && 1 <= Ctz(r) <= 4
  {
    hide Pow, OddPart, Ctz;
    SmallPowers();
    BinaryParts(1);
    BinaryParts(2);
    BinaryParts(3);
    BinaryParts(4);
  }

  /** A written number is read as its parts, to the end, in every radix. */
  lemma ParseRadixForm(f: RadixForm, radix: nat)
    requires RadixFormOk(f, radix)
    ensures var x := Number(f.expDigits, 10);
      ParseNumber(Text36(f, radix), radix, RadixBits(radix)) ==
      Numeral(f.neg, Split(f.whole + f.frac, if f.point then |f.whole| else -1, |Text36(f, radix)| - |ExpPart36(f, radix)|),
              if !f.exp then 0 else if f.expNeg then -x else x, f.exp && (f.mark == 'p' || f.mark == 'P'), |Text36(f, radix)|)
  {
    hide Scan, Number, Run, Text36, PointPart36, ExpPart36, Chars, Stands, SignText, Letters, Letter, StartsWith, OddPart, Ctz,
      IsExponentMark, IsBinaryMark, ToDigit;
    PartSizes(f, radix);
    Parts36(f, radix);
    Scan36(f, radix);
    NotInfinity(f, radix);
    var s := Text36(f, radix);
    var c := |s| - |ExpPart36(f, radix)|;
    if f.exp {
      MarksAre(f.mark, radix);
      RunChars(s, c + 2, f.expDigits);
      DigitAt(s, c + 2, f.expDigits);
    } else {
      AtEnd(s);
      EndMark(radix);
    }
  }

  lemma PartSizes(f: RadixForm, radix: nat)
    requires RadixFormOk(f, radix)
    ensures f.whole == [] ==> |PointPart36(f, radix)| >= 1
  {
  }

  lemma EndMark(radix: nat)
    requires radix > 0
    ensures !IsExponentMark('\0', radix, RadixBits(radix))
  {
  }

  /** Digits without sign, point and exponent, of any number: where there is room, js_atod gives the
      float nearest to the number of the digits that it keeps. */
  lemma ReadDigits(ds: seq<int>, upper: bool, radix: nat, r: Result)
    requires RadixReady(radix) && AllBelow(ds, radix) && |ds| >= 1
    requires AtodIs(Letters(ds, upper), radix, r, false)
    ensures var kept := KeptDigits(ds, radix);
      && r.Float? && r.next == |ds|
      && (Number(kept, radix) == 0 ==> r.bits == 0)
      && (Number(kept, radix) != 0 ==>
            (NearestBits(Number(kept, radix) as real, r.bits) <==> ExponentRoom(kept, 0, 0, false, radix)))
  {
    hide Number, KeptDigits, Letters, NearestBits, Magnitude, ExponentRoom, Computed, ParseNumber, Scale, RadixReady, OddPart, Ctz,
      Text36, ExpPart36, PointPart36;
    ReadyParts(radix);
    var f := RadixForm(false, upper, ds, false, [], false, '@', false, []);
    assert ds + [] == ds;
    DigitsAlone(f, radix);
    ParseRadixForm(f, radix);
    AtodExact(Letters(ds, upper), radix, r);
    MagnitudeAlone(KeptDigits(ds, radix), radix);
  }

  lemma DigitsAlone(f: RadixForm, radix: nat)
    requires RadixFormOk(f, radix) && !f.neg && !f.point && !f.exp
    ensures Text36(f, radix) == Letters(f.whole, f.upper) && ExpPart36(f, radix) == ""
  {
  }

  lemma MagnitudeAlone(ds: seq<int>, radix: nat)
    requires radix > 0
    ensures Magnitude(ds, 0, 0, false, radix) == Number(ds, radix) as real
  {
    hide Number;
    ScaleZero(radix, Number(ds, radix) as real);
    ScaleZero(2, Number(ds, radix) as real);
  }
}
