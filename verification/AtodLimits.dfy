/**
 Where the int arithmetic of js_atod gives a wrong result, in terms of the text of a number.
 */
module AtodLimits {
  import opened Limbs
  import opened Bignum
  import opened MulPow
  import opened RadixTables
  import opened AtodRounding
  import opened NumberText
  import opened AtodMain
  import opened DecimalText
  import opened NumberForm
  import opened Dtoa

  /** The exponent, moved to in front of the first digit that is not zero. */
  function LeadingExponent(f: Form): int { FormExp(f) + |f.whole| - LeadingZeros(f.whole + f.frac) }

  /** A number with at most 38 digits is read as the nearest float exactly when it is zero, or its
      exponent exceeds an int, or the exponent in front of its first digit still fits in an int. */
  lemma FormExact(f: Form, r: Result)
    requires FormOk(f) && |f.whole + f.frac| <= 38 && AtodIs(Text(f), 10, r, false)
    ensures AtodIs(Text(f), 10, r, true) <==>
      (Number(f.whole + f.frac, 10) != 0 && -EXPONENT_LIMIT < FormExp(f) < EXPONENT_LIMIT ==> FitsInt(LeadingExponent(f)))
  {
    hide Number, KeptDigits, LeadingZeros, NearestBits, Magnitude, Computed, Text, ParseNumber, ExponentRoom, FormValue, RadixReady;
    var ds := f.whole + f.frac;
    TenParts();
    TenReady();
    ParseForm(f);
    FormMagnitude(f);
    AtodExact(Text(f), 10, r);
    if Number(ds, 10) != 0 { RoomIs(ds, |f.frac|, FormExp(f), false, 10); }
  }

  /** 123456789e+2147483639: the exponent fits in an int, but not with nine digits more. */
  function NineDigitForm(): (f: Form)
    ensures FormOk(f)
  {
    Form(false, Dec(123456789), false, [], true, false, Dec(2147483639))
  }

  lemma NineIs()
    ensures var f := NineDigitForm();
      && |f.whole + f.frac| == 9 && f.whole + f.frac == f.whole && Number(f.whole, 10) == 123456789 && FormExp(f) == 2147483639
      && LeadingZeros(f.whole) == 0
  {
    hide Dec, Number, Pow, LeadingZeros;
    var ds := Dec(123456789);
    NumberDec(123456789);
    NumberDec(2147483639);
    NineDigits(123456789);
    NumberBound(ds, 10);
    TenToEight();
    if |ds| <= 8 { PowMono(10, |ds|, 8); }
    var k := LeadingZeros(ds);
    if k > 0 {
      NumberLeading(ds, k, 10);
      NumberBound(ds[k..], 10);
      PowMono(10, |ds| - k, 8);
    }
    assert ds + [] == ds;
  }

  lemma TenToEight()
    ensures Pow(10, 8) == 100000000
  {
    assert Pow(10, 4) == 10000;
    PowAdd(10, 4, 4);
  }

  /** It is read as zero and not as infinity. */
  lemma NineDigitsWrong(r: Result)
    requires AtodIs(Text(NineDigitForm()), 10, r, false)
    ensures r == Float(0, |Text(NineDigitForm())|) && !AtodIs(Text(NineDigitForm()), 10, r, true)
  {
    hide Number, KeptDigits, LeadingZeros, NearestBits, Magnitude, Wrapped, Text, ParseNumber, FormValue, Dec, RadixReady, MaxKept;
    var f := NineDigitForm();
    TenParts();
    TenReady();
    NineIs();
    ParseForm(f);
    FormMagnitude(f);
    FormExact(f, r);
    WrapsAcross(f.whole, 0, FormExp(f), false, 10, r.bits - SignBit(false));
  }

  // ----- powers of two --------------------------------------------------------------------------------

  /** The digits of an integer without exponent in a radix that is a power of two: how many there are
      from the first that is not zero. */
  function SignificantDigits(s: string, radix: nat): nat
    requires 2 <= radix <= 36 && ParseNumber(s, radix, RadixBits(radix)).Numeral?
  {
    var ds := ParseNumber(s, radix, RadixBits(radix)).split.digits;
    |ds| - LeadingZeros(ds)
  }

  /** A text of digits alone, not all zero, up to the length of a string of the engine. */
  ghost predicate IntegerText(s: string, radix: nat)
    requires 2 <= radix <= 36
  {
    var p := ParseNumber(s, radix, RadixBits(radix));
    && |s| <= 0x3fff_ffff && p.Numeral? && p.expn == 0 && !p.bin && FractionDigits(p.split) == 0 && Number(p.split.digits, radix) != 0
  }

  /** Such an integer is read as the nearest float while its bits can be counted in an int, and again
      when the count has wrapped around to a large positive number. */
  lemma IntegerExact(s: string, radix: nat, r: Result)
    requires RadixReady(radix) && OddPart(radix) == 1 && IntegerText(s, radix) && AtodIs(s, radix, r, false)
    ensures var bitCount := Ctz(radix) * SignificantDigits(s, radix);
      && (bitCount < 0x8000_0000 ==> AtodIs(s, radix, r, true))
      && (0x8000_0000 <= bitCount <= 0x1_0000_0000 + 1023 ==> !AtodIs(s, radix, r, true))
      && (bitCount >= 0x1_0000_0000 + 1029 ==> AtodIs(s, radix, r, true))
  {
    hide Number, LeadingZeros, NearestBits, Magnitude, Computed, ParseNumber, ExponentRoom, OddPart, Ctz, MaxKept, AtodRoom,
      ExponentsOk, OddRadix;
    var p := ParseNumber(s, radix, RadixBits(radix));
    var ds, n := p.split.digits, SignificantDigits(s, radix);
    AtodExact(s, radix, r);
    ParsedOk(s, radix);
    RoomByTop(ds, 0, 0, false, radix);
    Mono(Ctz(radix), 5, n, 0x3fff_ffff);
    assert TopExponent(ds, 0, 0, false, radix) == Ctz(radix) * n;
  }

  /** Scanning zeros to the end. */
  lemma {:induction false} ScanZeros(s: string, p: nat, start: nat, radix: nat, ds: seq<int>)
    requires 2 <= radix <= 36 && p <= |s| && forall i :: p <= i < |s| ==> s[i] == '0'
    ensures Scan(s, p, start, radix, ds, -1) == Split(ds + seq(|s| - p, i => 0), -1, |s|)
    decreases |s| - p
  {
    if p < |s| {
      ScanZeros(s, p + 1, start, radix, ds + [0]);
      assert ds + [0] + seq(|s| - (p + 1), i => 0) == ds + seq(|s| - p, i => 0);
    } else {
      assert ds + seq(|s| - p, i => 0) == ds;
    }
  }

  /** A one and k zeros. */
  function OneZeros(k: nat): (s: string)
    ensures |s| == k + 1
  {
    "1" + seq(k, i => '0')
  }

  lemma OneZerosParsed(k: nat, radix: nat)
    requires 2 <= radix <= 36
    ensures ParseNumber(OneZeros(k), radix, RadixBits(radix)) == Numeral(false, Split([1] + seq(k, i => 0), -1, k + 1), 0, false, k + 1)
    ensures AllBelow([1] + seq(k, i => 0), radix) && LeadingZeros([1] + seq(k, i => 0)) == 0
    ensures Number([1] + seq(k, i => 0), radix) != 0
  {
    hide Number, OddPart, Ctz;
    var s, ds := OneZeros(k), [1] + seq(k, i => 0);
    NumberZeros(ds, radix);
    assert ds[0] == 1;
    assert s[0] == '1';
    ScanZeros(s, 1, 0, radix, [1]);
    assert [] + [1] == [1];
  }

  /** One with 429496729 zeros in radix 32: its 2147483650 bits cannot be counted in an int, and it is
      read as zero. */
  lemma ManyZerosWrong(r: Result)
    requires AtodIs(OneZeros(429496729), 32, r, false)
    ensures r == Float(0, 429496730) && !AtodIs(OneZeros(429496729), 32, r, true)
  {
    hide Number, LeadingZeros, NearestBits, Magnitude, ParseNumber, MaxKept, OddPart, Ctz, RadixReady;
    var ds := [1] + seq(429496729, i => 0);
    ThirtyTwo();
    OneZerosParsed(429496729, 32);
    IntegerExact(OneZeros(429496729), 32, r);
    var top := 2147483650;
    assert TopExponent(ds, 0, 0, false, 32) == top;
    FarTop(ds, 0, 0, false, 32, Int32(top) - top);
    NearestUnique(Wrapped(ds, 0, 0, false, 32), r.bits - SignBit(false), 0);
  }

  lemma ThirtyTwo()
    ensures OddPart(32) == 1 && Ctz(32) == 5 && RadixReady(32)
  {
    hide Pow, RadixReady;
    SmallPowers();
    PowNextTwo(4);
    BinaryParts(5);
    BinaryReady(5);
  }

  /** 1@n: one times 32 to the n. */
  function AtText(n: nat): string { "1@" + Chars(Dec(n)) }

  lemma AtParsed(n: nat)
    requires n < EXPONENT_LIMIT
    ensures ParseNumber(AtText(n), 32, 5) == Numeral(false, Split([1], -1, 1), n, false, |AtText(n)|)
  {
    hide Number, Chars, Dec;
    var s := AtText(n);
    NumberDec(n);
    assert s[2..] == Chars(Dec(n));
    RunChars(s, 2, Dec(n));
    DigitAt(s, 2, Dec(n));
    assert s[0] == '1' && s[1] == '@';
    assert Scan(s, 1, 0, 32, [1], -1) == Split([1], -1, 1);
    assert [] + [1] == [1];
  }

  /** The bits for 1@n, and whether they are right. */
  lemma AtExact(n: nat, r: Result)
    requires n < EXPONENT_LIMIT && AtodIs(AtText(n), 32, r, false)
    ensures r.Float? && r.next == |AtText(n)|
    ensures var w := Int32(5 * n + 5);
      && (w >= 1029 ==> r.bits == INFINITY_BITS) && (w <= -1075 ==> r.bits == 0)
      && (FitsInt(5 * n + 5) || w >= 1029 ==> AtodIs(AtText(n), 32, r, true))
      && (!FitsInt(5 * n + 5) && w <= 1023 ==> !AtodIs(AtText(n), 32, r, true))
  {
    hide Number, NearestBits, Magnitude, ParseNumber, MaxKept, OddPart, Ctz, RadixReady, AtText, Int32, ExponentRoom;
    ThirtyTwo();
    AtParsed(n);
    var top := 5 * n + 5;
    assert LeadingZeros([1]) == 0;
    NumberZeros([1], 32);
    assert TopExponent([1], 0, n, false, 32) == top;
    AtodExact(AtText(n), 32, r);
    RoomByTop([1], 0, n, false, 32);
    FarTop([1], 0, n, false, 32, Int32(top) - top);
    var y := Wrapped([1], 0, n, false, 32);
    if Int32(top) >= 1029 { NearestUnique(y, r.bits - SignBit(false), INFINITY_BITS); }
    if Int32(top) <= -1075 { NearestUnique(y, r.bits - SignBit(false), 0); }
  }

  /** 1@500000000 is read as zero and not as infinity. */
  lemma AtWrong(r: Result)
    requires AtodIs(AtText(500000000), 32, r, false)
    ensures r == Float(0, |AtText(500000000)|) && !AtodIs(AtText(500000000), 32, r, true)
  {
    hide AtText, AtodIs;
    AtExact(500000000, r);
  }

  /** 1@1000000000 is read as infinity, which is right although its exponent wraps around. */
  lemma AtRight(r: Result)
    requires AtodIs(AtText(1000000000), 32, r, false)
    ensures !FitsInt(5 * 1000000000 + 5) && r == Float(INFINITY_BITS, |AtText(1000000000)|) && AtodIs(AtText(1000000000), 32, r, true)
  {
    hide AtText, AtodIs;
    AtExact(1000000000, r);
  }
}
