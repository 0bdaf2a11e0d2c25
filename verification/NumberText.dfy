/**
 The text of numbers: digit sequences with a radix point and an exponent, and how js_atod
 splits a string into them.
 */
module NumberText {
  import opened Limbs
  import opened Bignum

  /** A C string: reading at its end gives NUL. */
  function CharAt(s: string, i: nat): char { if i < |s| then s[i] else '\0' }

  /** to_digit: the value of a digit, 36 for anything else. */
  function ToDigit(c: char): (d: int)
    ensures 0 <= d <= 36
  {
    if '0' <= c <= '9' then c as int - '0' as int
    else if 'A' <= c <= 'Z' then c as int - 'A' as int + 10
    else if 'a' <= c <= 'z' then c as int - 'a' as int + 10
    else 36
  }

  function DigitChar(d: int): char
    requires 0 <= d < 10
  {
    ('0' as int + d) as char
  }

  lemma DigitRoundTrip(d: int)
    requires 0 <= d < 10
    ensures ToDigit(DigitChar(d)) == d && '0' <= DigitChar(d) <= '9'
  {
  }

  // ----- digit sequences ------------------------------------------------------------------------------

  predicate AllBelow(ds: seq<int>, radix: nat) { forall i :: 0 <= i < |ds| ==> 0 <= ds[i] < radix }

  /** The number that digits stand for, most significant first. */
  function Number(ds: seq<int>, radix: nat): int {
    if ds == [] then 0 else Number(ds[..|ds| - 1], radix) * radix + ds[|ds| - 1]
  }

  lemma NumberSnoc(ds: seq<int>, d: int, radix: nat)
    ensures Number(ds + [d], radix) == Number(ds, radix) * radix + d
  {
    assert (ds + [d])[..|ds|] == ds;
  }

  lemma {:induction false} NumberAppend(ds: seq<int>, es: seq<int>, radix: nat)
    ensures Number(ds + es, radix) == Number(ds, radix) * Pow(radix, |es|) + Number(es, radix)
    decreases es
  {
    if es == [] {
      assert ds + es == ds;
    } else {
      var n := |es| - 1;
      assert ds + es == (ds + es[..n]) + [es[n]];
      NumberSnoc(ds + es[..n], es[n], radix);
      NumberAppend(ds, es[..n], radix);
      var a, p, b := Number(ds, radix), Pow(radix, n), Number(es[..n], radix);
      Distrib(a * p, b, radix);
      Assoc(a, p, radix);
      assert Pow(radix, |es|) == radix * p;
    }
  }

  lemma {:induction false} NumberBound(ds: seq<int>, radix: nat)
    requires AllBelow(ds, radix) && radix > 0
    ensures 0 <= Number(ds, radix) < Pow(radix, |ds|)
    decreases ds
  {
    if ds != [] {
      var n := |ds| - 1;
      NumberBound(ds[..n], radix);
      var a, p := Number(ds[..n], radix), Pow(radix, n);
      LeMul(a, p - 1, radix);
      LeMul(0, a, radix);
      Distrib(p, -1, radix);
    }
  }

  lemma {:induction false} NumberZeros(ds: seq<int>, radix: nat)
    requires AllBelow(ds, radix) && radix > 0
    ensures Number(ds, radix) == 0 <==> forall i :: 0 <= i < |ds| ==> ds[i] == 0
    decreases ds
  {
    if ds != [] {
      var n := |ds| - 1;
      NumberBound(ds[..n], radix);
      NumberZeros(ds[..n], radix);
      var a := Number(ds[..n], radix);
      LeMul(1, a, radix);
      assert forall i :: 0 <= i < n ==> ds[i] == ds[..n][i];
    }
  }

  /** The first digit not zero gives a lower bound. */
  lemma NumberLow(ds: seq<int>, radix: nat)
    requires AllBelow(ds, radix) && radix > 0 && ds != [] && ds[0] != 0
    ensures Number(ds, radix) >= Pow(radix, |ds| - 1)
  {
    assert ds == [ds[0]] + ds[1..];
    NumberAppend([ds[0]], ds[1..], radix);
    NumberBound(ds[1..], radix);
    assert Number([ds[0]], radix) == Number([], radix) * radix + ds[0];
    LeMul(1, ds[0], Pow(radix, |ds| - 1));
  }

  /** Leading zeros make no difference. */
  lemma NumberLeading(ds: seq<int>, k: nat, radix: nat)
    requires k <= |ds| && radix > 0 && AllBelow(ds, radix) && forall i :: 0 <= i < k ==> ds[i] == 0
    ensures Number(ds, radix) == Number(ds[k..], radix)
  {
    assert ds == ds[..k] + ds[k..];
    NumberAppend(ds[..k], ds[k..], radix);
    NumberZeros(ds[..k], radix);
  }

  // ----- splitting a string ---------------------------------------------------------------------------

  /** Digits consumed so far, the number of them before the point (-1 without one), and the
      position reached. */
  datatype Split = Split(digits: seq<int>, dot: int, next: nat)

  predicate IsDigit(s: string, p: nat, radix: nat) { ToDigit(CharAt(s, p)) < radix }

  /** A point counts unless it comes first and no digit follows. */
  predicate IsPoint(s: string, p: nat, start: nat, radix: nat) {
    CharAt(s, p) == '.' && (p > start || IsDigit(s, p + 1, radix))
  }

  /** Digits with at most one point, as many as there are. */
  function Scan(s: string, p: nat, start: nat, radix: nat, ds: seq<int>, dot: int): Split
    requires radix <= 36
    decreases |s| - p
  {
    if IsPoint(s, p, start, radix) && dot < 0 then Scan(s, p + 1, start, radix, ds, |ds|)
    else if IsDigit(s, p, radix) then Scan(s, p + 1, start, radix, ds + [ToDigit(CharAt(s, p))], dot)
    else Split(ds, dot, p)
  }

  lemma InString(s: string, p: nat, radix: nat)
    requires radix <= 36
    ensures IsDigit(s, p, radix) || CharAt(s, p) == '.' ==> p < |s|
    ensures CharAt(s, p) == '.' ==> !IsDigit(s, p, radix)
  {
  }

  /** Scanned digits are digits. */
  lemma {:induction false} ScanBelow(s: string, p: nat, start: nat, radix: nat, ds: seq<int>, dot: int)
    requires radix <= 36 && AllBelow(ds, radix) && dot <= |ds| && p <= |s|
    ensures var r := Scan(s, p, start, radix, ds, dot);
      AllBelow(r.digits, radix) && r.dot <= |r.digits| && p <= r.next <= |s| && ds <= r.digits && |r.digits| - |ds| <= r.next - p
    ensures var r := Scan(s, p, start, radix, ds, dot); (dot >= 0 ==> r.dot == dot) && (r.dot >= 0 || r.dot == dot)
    decreases |s| - p
  {
    if IsPoint(s, p, start, radix) && dot < 0 {
      ScanBelow(s, p + 1, start, radix, ds, |ds|);
    } else if IsDigit(s, p, radix) {
      ScanBelow(s, p + 1, start, radix, ds + [ToDigit(CharAt(s, p))], dot);
    }
  }

  // ----- exponents ------------------------------------------------------------------------------------

  /** Decimal digits from p on, as many as there are. */
  function Run(s: string, p: nat): seq<int>
    decreases |s| - p
  {
    if IsDigit(s, p, 10) then [ToDigit(CharAt(s, p))] + Run(s, p + 1) else []
  }

  /** Radixes other than 10 use @, powers of two up to 16 also p with a binary exponent. */
  predicate IsExponentMark(c: char, radix: nat, radixBits: nat) {
    if radix == 10 then c == 'e' || c == 'E'
    else c == '@' || (1 <= radixBits <= 4 && IsBinaryMark(c))
  }

  predicate IsBinaryMark(c: char) { c == 'p' || c == 'P' }

  /** What a string says: not a number, infinity, or digits with a point and an exponent. */
  datatype Parsed =
    | Bad(next: nat)
    | Infinite(neg: bool, next: nat)
    | Numeral(neg: bool, split: Split, expn: int, bin: bool, next: nat)

  predicate HasSign(s: string, p: nat) { CharAt(s, p) == '+' || CharAt(s, p) == '-' }

  const INFINITY_TEXT: string := "Infinity"

  predicate StartsWith(s: string, p: nat, t: string) { p + |t| <= |s| && s[p..p + |t|] == t }

  function AfterSign(s: string, p: nat): nat { if HasSign(s, p) then p + 1 else p }

  function ParseNumber(s: string, radix: nat, radixBits: nat): Parsed
    requires radix <= 36
  {
    var start := AfterSign(s, 0);
    var neg := CharAt(s, 0) == '-';
    if CharAt(s, start) != '0' && StartsWith(s, start, INFINITY_TEXT) then Infinite(neg, start + 8)
    else
      var split := Scan(s, start, start, radix, [], -1);
      var p := split.next;
      if p > start && IsExponentMark(CharAt(s, p), radix, radixBits) then
        var q := AfterSign(s, p + 1);
        if !IsDigit(s, q, 10) then Bad(q)
        else
          var x := Number(Run(s, q), 10);
          Numeral(neg, split, if CharAt(s, p + 1) == '-' then -x else x, IsBinaryMark(CharAt(s, p)), q + |Run(s, q)|)
      else if p == start then Bad(start)
      else Numeral(neg, split, 0, false, p)
  }

  /** Digits after the point. */
  function FractionDigits(split: Split): int {
    if split.dot < 0 then 0 else |split.digits| - split.dot
  }
}
