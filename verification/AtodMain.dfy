/**
 js_atod as a whole: whatever the string, the result is the float nearest to the digits that
 are kept, with the exponent that its ints hold; and when that is the float nearest to the number.
 */
module AtodMain {
  import opened Limbs
  import opened Bignum
  import opened MulPow
  import opened RealPow
  import opened DoubleRounding
  import opened FloatSpacing
  import opened RadixTables
  import opened AtodRounding
  import opened FloatEnds
  import opened Ieee754
  import opened NumberText
  import opened Atod

  // ----- exponent -------------------------------------------------------------------------------------

  /** Exponents from here on are not represented. */
  const EXPONENT_LIMIT: int := 2147483640

  /** The digits of the exponent; overflow says that it is too large for an int. */
  method ReadExponent(s: string, p: nat) returns (ok: bool, expn: int, overflow: bool, next: nat)
    requires p <= |s|
    ensures ok <==> IsDigit(s, p, 10)
    ensures ok ==> next == p + |Run(s, p)|
    ensures ok && !overflow ==> expn == Number(Run(s, p), 10) && 0 <= expn < EXPONENT_LIMIT
    ensures ok && overflow ==> expn > 0 && Number(Run(s, p), 10) >= EXPONENT_LIMIT
  {
    hide Number, Run;
    var c := ToDigit(CharAt(s, p));
    RunStep(s, p);
    if c >= 10 { return false, 0, false, p; }
    expn, overflow, next := c, false, p + 1;
    ghost var ds := [c];
    NumberOne(c);
    assert Run(s, p) == ds + Run(s, next);
    while true
      invariant p < next <= |s| && |ds| == next - p && Run(s, p) == ds + Run(s, next)
      invariant !overflow ==> expn == Number(ds, 10) && 0 <= expn < EXPONENT_LIMIT
      invariant overflow ==> expn > 0 && Number(ds, 10) >= EXPONENT_LIMIT
      decreases |s| - next
    {
      c := ToDigit(CharAt(s, next));
      RunStep(s, next);
      if c >= 10 { break; }
      NumberSnoc(ds, c, 10);
      if !overflow {
        if expn > (0x7fff_ffff - 2 - 9) / 10 { overflow := true; } else { expn := expn * 10 + c; }
      }
      assert ds + ([c] + Run(s, next + 1)) == (ds + [c]) + Run(s, next + 1);
      ds := ds + [c];
      next := next + 1;
    }
    assert ds + [] == ds;
    ok := true;
  }

  lemma RunStep(s: string, p: nat)
    ensures Run(s, p) == if IsDigit(s, p, 10) then [ToDigit(CharAt(s, p))] + Run(s, p + 1) else []
    ensures IsDigit(s, p, 10) ==> p < |s|
  {
  }

  lemma NumberOne(c: int)
    ensures Number([c], 10) == c
  {
    assert [c][..0] == [];
  }

  // ----- the value of a numeral -----------------------------------------------------------------------

  /** The digits that js_atod keeps, with zeros for the others. A power of two keeps all. */
  function KeptDigits(ds: seq<int>, radix: nat): seq<int>
    requires 2 <= radix <= 36
  {
    if OddPart(radix) == 1 then ds else Truncated(ds, LeadingZeros(ds) + MaxKept(radix))
  }

  function Truncated(ds: seq<int>, k: nat): (r: seq<int>)
    ensures |r| == |ds|
  {
    seq(|ds|, i requires 0 <= i < |ds| => if i < k then ds[i] else 0)
  }

  function LeadingZeros(ds: seq<int>): (k: nat)
    ensures k <= |ds| && (forall i :: 0 <= i < k ==> ds[i] == 0) && (k < |ds| ==> ds[k] != 0)
  {
    if ds == [] || ds[0] != 0 then 0 else 1 + LeadingZeros(ds[1..])
  }

  /** The number that digits with a point and an exponent stand for. */
  function Magnitude(ds: seq<int>, frac: int, expn: int, bin: bool, radix: nat): real
    requires radix > 0
  {
    Scale(2, Scale(radix, Number(ds, radix) as real, (if bin then 0 else expn) - frac), if bin then expn else 0)
  }

  lemma NumberTruncated(ds: seq<int>, k: nat, c: nat, radix: nat)
    requires AllBelow(ds, radix) && radix > 0 && k + c <= |ds| && (forall i :: 0 <= i < k ==> ds[i] == 0)
    ensures Number(Truncated(ds, k + c), radix) == Number(ds[k..k + c], radix) * Pow(radix, |ds| - k - c)
  {
    hide Number, Pow;
    var t := Truncated(ds, k + c);
    NumberLeading(t, k, radix);
    assert t[k..] == ds[k..k + c] + t[k + c..];
    NumberAppend(ds[k..k + c], t[k + c..], radix);
    NumberZeros(t[k + c..], radix);
  }

  /** The kept digits followed by the rest. */
  lemma NumberSplit(ds: seq<int>, k: nat, c: nat, radix: nat)
    requires AllBelow(ds, radix) && radix > 0 && k + c <= |ds| && (forall i :: 0 <= i < k ==> ds[i] == 0)
    ensures Pow(radix, |ds| - k - c) > 0
    ensures Number(ds, radix) / Pow(radix, |ds| - k - c) == Number(ds[k..k + c], radix)
    ensures Number(ds, radix) % Pow(radix, |ds| - k - c) == Number(ds[k + c..], radix)
    ensures Number(ds, radix) % Pow(radix, |ds| - k - c) != 0 <==> exists i :: k + c <= i < |ds| && ds[i] != 0
  {
    hide Number, Pow;
    NumberLeading(ds, k, radix);
    assert ds[k..] == ds[k..k + c] + ds[k + c..];
    NumberAppend(ds[k..k + c], ds[k + c..], radix);
    NumberBound(ds[k + c..], radix);
    NumberZeros(ds[k + c..], radix);
    DivUnique(Number(ds, radix), Pow(radix, |ds| - k - c), Number(ds[k..k + c], radix), Number(ds[k + c..], radix));
    var tail := ds[k + c..];
    assert forall i :: k + c <= i < |ds| ==> ds[i] == tail[i - (k + c)];
    if i :| 0 <= i < |tail| && tail[i] != 0 { assert ds[k + c + i] != 0; }
  }

  // ----- rounding a numeral ---------------------------------------------------------------------------

  function RadixBits(radix: nat): nat
    requires radix > 0
  {
    if OddPart(radix) == 1 then Ctz(radix) else 0
  }

  /** What js_atod needs of the tables for a radix. */
  ghost predicate RadixReady(radix: nat) {
    && BaseOk(radix)
    && if OddPart(radix) == 1 then 1 <= Ctz(radix) <= 5 && Ctz(radix) * (MaxKept(radix) - 1) >= 55
       else OddRadix(OddPart(radix)) && ExponentsOk(radix) && AtodRoom(radix)
  }

  /** The number of the kept digits, scaled. */
  lemma KeptScale(radix: nat, v: nat, rest: nat, frac: int, expn: int)
    requires radix > 0
    ensures Scale(radix, (v * Pow(radix, rest)) as real, expn - frac) == Scale(radix, v as real, expn - frac + rest)
  {
    hide Pow, Scale;
    ScaleInt(radix, v, rest);
    ScaleScale(radix, v as real, rest, expn - frac);
  }

  lemma LeadingUnique(ds: seq<int>, k: nat)
    requires k <= |ds| && (forall i :: 0 <= i < k ==> ds[i] == 0) && (k < |ds| ==> ds[k] != 0)
    ensures LeadingZeros(ds) == k
  {
  }

  lemma KeptIsTruncated(ds: seq<int>, sc: Scanned, radix: nat, v: nat)
    requires 2 <= radix <= 36 && OddPart(radix) != 1 && Kept(sc, ds, radix, v)
    ensures KeptDigits(ds, radix) == Truncated(ds, sc.sigPos + sc.digitCount)
    ensures AllBelow(ds, radix) && sc.sigPos + sc.digitCount <= |ds| && (forall i :: 0 <= i < sc.sigPos ==> ds[i] == 0)
    ensures v == Number(ds[sc.sigPos..sc.sigPos + sc.digitCount], radix)
  {
    hide Number, OddPart, MaxKept;
    LeadingUnique(ds, sc.sigPos);
  }

  /** The magnitude for radixes that are not powers of two. */
  lemma RadixMagnitude(ds: seq<int>, sc: Scanned, radix: nat, v: nat, frac: int, expn: int)
    requires 2 <= radix <= 36 && OddPart(radix) != 1 && Kept(sc, ds, radix, v)
    ensures Number(KeptDigits(ds, radix), radix) == v * Pow(radix, |ds| - sc.sigPos - sc.digitCount)
    ensures Magnitude(KeptDigits(ds, radix), frac, expn, false, radix)
      == Scale(radix, v as real, expn - frac + (|ds| - sc.sigPos - sc.digitCount))
  {
    hide Pow, Scale, Number, OddPart, MaxKept, KeptDigits, Truncated, Kept;
    KeptIsTruncated(ds, sc, radix, v);
    var k, c := sc.sigPos, sc.digitCount;
    NumberTruncated(ds, k, c, radix);
    var rest := |ds| - k - c;
    KeptScale(radix, v, rest, frac, expn);
    ScaleZero(2, Scale(radix, (v * Pow(radix, rest)) as real, expn - frac));
  }

  /** The kept digits start with a digit that is not zero. */
  lemma KeptRange(ds: seq<int>, sc: Scanned, radix: nat, v: nat)
    requires 2 <= radix <= 36 && Kept(sc, ds, radix, v) && sc.digitCount > 0
    ensures Pow(radix, sc.digitCount - 1) <= v < Pow(radix, sc.digitCount) && sc.digitCount <= MaxKept(radix)
  {
    hide Pow, Number, MaxKept;
    var kept := ds[sc.sigPos..sc.sigPos + sc.digitCount];
    assert kept[0] == ds[sc.sigPos];
    NumberBound(kept, radix);
    NumberLow(kept, radix);
  }

  /** Powers of two: all digits count. */
  lemma BinaryMagnitude(ds: seq<int>, rest: int, radix: nat, frac: int, expn: int, bin: bool)
    requires rest >= 0 && radix > 0 && OddPart(radix) == 1 && AllBelow(ds, radix)
    ensures Pow(radix, rest) > 0 && Number(ds, radix) >= 0
    ensures var b := Ctz(radix);
      Magnitude(ds, frac, expn, bin, radix)
      == Scale(2, Ratio(Number(ds, radix), Pow(radix, rest)), (if bin then expn else expn * b) - (frac - rest) * b)
  {
    hide Pow, Scale, Number, OddPart, Ctz, Ratio;
    NumberBound(ds, radix);
    var b, n := Ctz(radix), Number(ds, radix);
    RadixParts(radix);
    RatioPower(n, radix, rest);
    ScaleBinary(b, radix, n as real, -rest);
    var j := (if bin then 0 else expn) - frac;
    ScaleBinary(b, radix, n as real, j);
    ScaleScale(2, n as real, b * j, if bin then expn else 0);
    var k := (if bin then expn else expn * b) - (frac - rest) * b;
    ScaleScale(2, n as real, b * -rest, k);
    Exponents(b, j, rest, frac, expn, bin);
  }

  lemma Exponents(b: int, j: int, rest: int, frac: int, expn: int, bin: bool)
    requires j == (if bin then 0 else expn) - frac
    ensures b * j + (if bin then expn else 0) == b * -rest + ((if bin then expn else expn * b) - (frac - rest) * b)
  {
  }

  lemma RatioPower(n: nat, radix: nat, rest: int)
    requires radix > 0 && rest >= 0
    ensures Pow(radix, rest) > 0 && Ratio(n, Pow(radix, rest)) == Scale(radix, n as real, -rest)
  {
    hide Pow;
    PowFirst(radix);
    RDiv(1.0, Pow(radix, rest) as real, n as real);
  }

  lemma ScaleBinary(b: nat, radix: nat, x: real, k: int)
    requires radix > 0 && radix == 1 * Pow(2, b)
    ensures Scale(radix, x, k) == Scale(2, x, b * k)
  {
    hide Pow, RP;
    RPTwo(b, k);
  }

  // ----- int arithmetic -------------------------------------------------------------------------------

  function Base(radix: nat): nat
    requires radix > 0
  {
    if OddPart(radix) == 1 then 2 else radix
  }

  /** The number lies below this power of the base, and not much below: js_atod counts in bits for
      powers of two and in digits otherwise. */
  function TopExponent(ds: seq<int>, frac: int, expn: int, bin: bool, radix: nat): int
    requires radix > 0
  {
    var lead := |ds| - LeadingZeros(ds) - frac;
    if OddPart(radix) == 1 then (if bin then expn else expn * Ctz(radix)) + Ctz(radix) * lead else expn + lead
  }

  /** What int arithmetic makes of a number: its exponent is kept modulo 2^32. */
  function Wrapped(ds: seq<int>, frac: int, expn: int, bin: bool, radix: nat): real
    requires radix > 0
  {
    var top := TopExponent(ds, frac, expn, bin, radix);
    Scale(Base(radix), Magnitude(ds, frac, expn, bin, radix), Int32(top) - top)
  }

  lemma KeptLeading(ds: seq<int>, sc: Scanned, radix: nat, v: int)
    requires 2 <= radix <= 36 && Kept(sc, ds, radix, v) && sc.digitCount > 0
    ensures |KeptDigits(ds, radix)| == |ds| && LeadingZeros(KeptDigits(ds, radix)) == LeadingZeros(ds) == sc.sigPos
  {
    hide Number, MaxKept;
    LeadingUnique(ds, sc.sigPos);
    LeadingUnique(KeptDigits(ds, radix), sc.sigPos);
  }

  /** The exponent after subtracting the offset, with every operation wrapping around. */
  lemma OffsetWraps(expn: int, b: int, off: int, dc: int)
    ensures var x := Int32(Int32(expn) - Int32(off * b));
      x == Int32(expn - off * b) && Int32(x + dc) == Int32(expn - off * b + dc)
  {
    hide Int32;
    Int32Sum(Int32(expn), off * b);
    Int32Sum(expn, -(off * b));
    Int32Sum(expn - off * b, dc);
  }

  /** The top exponent in terms of the offset. */
  lemma TopIs(ds: seq<int>, frac: int, expn: int, bin: bool, radix: nat, off: int, dc: int)
    requires radix > 0 && off == LeadingZeros(ds) + dc - (|ds| - frac)
    ensures TopExponent(ds, frac, expn, bin, radix) ==
      if OddPart(radix) == 1 then (if bin then expn else expn * Ctz(radix)) - off * Ctz(radix) + dc * Ctz(radix)
      else expn - off + dc
  {
    hide OddPart, Ctz;
    Factor(Ctz(radix), |ds| - LeadingZeros(ds) - frac, off, dc);
  }

  lemma Factor(b: int, lead: int, off: int, dc: int)
    requires lead == dc - off
    ensures b * lead == -(off * b) + dc * b
  {
  }

  /** A scaled number with its exponent wrapped. */
  lemma WrapScale(base: nat, y: real, x: real, e: int, top: int, dc: int)
    requires base > 0 && y == Scale(base, x, e) && top == e + dc
    ensures Scale(base, y, Int32(top) - top) == Scale(base, x, Int32(top) - dc)
  {
    hide Int32, Scale;
    ScaleScale(base, x, e, Int32(top) - top);
  }

  /** From the kept digits to the bits, for exponents that fit in an int. */
  method RoundNumeral(tmp: Mpb, radix: nat, sc: Scanned, expn: int, bin: bool, ghost ds: seq<int>) returns (a: int)
    requires tmp.Norm() && tmp.tab.Length >= DBIGNUM_LEN_MAX && tmp.len <= MANT_LIMBS && RadixReady(radix) && FitsInt(expn)
    requires Kept(sc, ds, radix, tmp.Val()) && sc.digitCount > 0 && (bin ==> OddPart(radix) == 1) && sc.dotPos <= sc.pos
    modifies tmp`len, tmp.tab
    ensures NearestBits(Wrapped(KeptDigits(ds, radix), FractionDigits(Split(ds, sc.dotPos, sc.next)), expn, bin, radix), a)
  {
    hide Value, Pow, Scale, Number, OddPart, Ctz, Ratio, NearestBits, Kept, MaxKept, OddRadix, RP, KeptDigits, Magnitude,
      TopExponent, LeadingZeros, Int32, Wrapped, RadixReady;
    ReadyParts(radix);
    KeptSize(sc, ds, radix, tmp.Val());
    ghost var frac := FractionDigits(Split(ds, sc.dotPos, sc.next));
    ghost var v := tmp.Val();
    var dotPos := if sc.dotPos < 0 then sc.pos else sc.dotPos;
    var expnOffset := sc.sigPos + sc.digitCount - dotPos;
    KeptRange(ds, sc, radix, v);
    KeptLeading(ds, sc, radix, v);
    TopIs(KeptDigits(ds, radix), frac, expn, bin, radix, expnOffset, sc.digitCount);
    if OddPart(radix) == 1 {
      a := RoundBits(tmp, radix, sc, expn, bin, expnOffset, frac, ds);
    } else {
      DigitsWrapped(ds, sc, radix, v, frac, expn, expnOffset);
      a := RoundRadix(tmp, radix, sc.digitCount, Int32(expn - expnOffset));
    }
  }

  lemma ReadyParts(radix: nat)
    requires RadixReady(radix)
    ensures 2 <= radix <= 36 && (OddPart(radix) != 1 ==> OddRadix(OddPart(radix)) && ExponentsOk(radix) && AtodRoom(radix))
  {
    hide OddPart, Ctz, OddRadix, ExponentsOk, AtodRoom, MaxKept;
  }

  /** Other radixes: the kept digits with the wrapped exponent. */
  lemma DigitsWrapped(ds: seq<int>, sc: Scanned, radix: nat, v: nat, frac: int, expn: int, off: int)
    requires 2 <= radix <= 36 && OddPart(radix) != 1 && Kept(sc, ds, radix, v)
    requires off == sc.sigPos + sc.digitCount - (|ds| - frac)
    requires TopExponent(KeptDigits(ds, radix), frac, expn, false, radix) == expn - off + sc.digitCount
    ensures Wrapped(KeptDigits(ds, radix), frac, expn, false, radix) ==
      Scale(radix, v as real, Int32(Int32(expn - off) + sc.digitCount) - sc.digitCount)
  {
    hide Pow, Scale, Number, OddPart, Kept, MaxKept, KeptDigits, Magnitude, TopExponent, Int32;
    var e := expn - off;
    RadixMagnitude(ds, sc, radix, v, frac, expn);
    WrapScale(radix, Magnitude(KeptDigits(ds, radix), frac, expn, false, radix), v as real, e, e + sc.digitCount, sc.digitCount);
    Int32Sum(e, sc.digitCount);
  }

  /** Powers of two: every digit counts a fixed number of bits. */
  method RoundBits(tmp: Mpb, radix: nat, sc: Scanned, expn: int, bin: bool, expnOffset: int, ghost frac: int, ghost ds: seq<int>)
    returns (a: int)
    requires tmp.Norm() && tmp.tab.Length >= DBIGNUM_LEN_MAX && tmp.len <= MANT_LIMBS && RadixReady(radix) && FitsInt(expn)
    requires Kept(sc, ds, radix, tmp.Val()) && sc.digitCount > 0 && OddPart(radix) == 1
    requires expnOffset == sc.sigPos + sc.digitCount - (|ds| - frac)
    requires TopExponent(KeptDigits(ds, radix), frac, expn, bin, radix) ==
      (if bin then expn else expn * Ctz(radix)) - expnOffset * Ctz(radix) + sc.digitCount * Ctz(radix)
    modifies tmp`len, tmp.tab
    ensures NearestBits(Wrapped(KeptDigits(ds, radix), frac, expn, bin, radix), a)
  {
    hide Value, Pow, Scale, Number, OddPart, Ctz, Ratio, NearestBits, Kept, MaxKept, OddRadix, RP, KeptDigits, Magnitude,
      TopExponent, LeadingZeros, Int32;
    KeptSize(sc, ds, radix, tmp.Val());
    KeptRange(ds, sc, radix, tmp.Val());
    ghost var v := tmp.Val();
    var radixBits := Ctz(radix);
    if sc.extra { SetLowBit(tmp); }
    var expn1 := if bin then expn else Int32(expn * radixBits);
    var expn2 := Int32(expn1 - Int32(expnOffset * radixBits));
    ghost var e0 := if bin then expn else expn * radixBits;
    ghost var e, dcb := e0 - expnOffset * radixBits, sc.digitCount * radixBits;
    OffsetWraps(e0, radixBits, expnOffset, dcb);
    ghost var rest := |ds| - sc.sigPos - sc.digitCount;
    AllKept(ds, sc, radix, v, rest);
    RadixParts(radix);
    KeptBits(radix, radixBits, sc.digitCount, v, sc.extra);
    BinaryMagnitude(ds, rest, radix, frac, expn, bin);
    FewBits(radix, sc.digitCount, radixBits);
    ghost var N, D := Number(ds, radix), Pow(radix, rest);
    assert expnOffset == frac - rest;
    WrapScale(2, Magnitude(ds, frac, expn, bin, radix), Ratio(N, D), e, e + dcb, dcb);
    a := RoundBinary(tmp, radixBits, sc.digitCount, expn2, N, D);
  }

  lemma FewBits(radix: nat, dc: nat, b: nat)
    requires 2 <= radix <= 36 && dc <= MaxKept(radix) && b <= 5
    ensures dc * b <= 1000
  {
    TableRange(radix);
    Mono(dc, 100, b, 5);
  }

  /** The kept digits of a power of two, with the sticky bit. */
  lemma AllKept(ds: seq<int>, sc: Scanned, radix: nat, v: nat, rest: nat)
    requires 2 <= radix <= 36 && OddPart(radix) == 1 && Kept(sc, ds, radix, v)
    requires rest == |ds| - sc.sigPos - sc.digitCount
    ensures KeptDigits(ds, radix) == ds && Pow(radix, rest) > 0 && Number(ds, radix) >= 0
    ensures var N, D := Number(ds, radix), Pow(radix, rest);
      && N / D == v && (sc.extra <==> N % D != 0)
      && StickyDiv(N, D) == (if sc.extra && v % 2 == 0 then v + 1 else v)
    ensures sc.extra ==> sc.digitCount == MaxKept(radix)
  {
    hide Pow, Number, OddPart, MaxKept, StickyDiv;
    NumberSplit(ds, sc.sigPos, sc.digitCount, radix);
    NumberBound(ds, radix);
    StickyIs(Number(ds, radix), Pow(radix, rest));
  }

  lemma KeptBits(radix: nat, b: nat, c: nat, v: nat, extra: bool)
    requires radix == Pow(2, b) && c > 0 && Pow(radix, c - 1) <= v < Pow(radix, c) && (extra ==> b * (c - 1) >= 55)
    ensures Pow(2, b * (c - 1)) <= v < Pow(2, b * c) && (extra ==> v >= Pow(2, 55))
  {
    hide Pow;
    PowMul(2, b, c);
    PowMul(2, b, c - 1);
    if extra { PowMono(2, 55, b * (c - 1)); }
  }

  // ----- js_atod --------------------------------------------------------------------------------------

  datatype Result = NaN(next: nat) | Float(bits: int, next: nat)

  function SignBit(neg: bool): int { if neg then SIGN_BIT else 0 }

  /** The bits that js_atod computes for digits that are not all zero. */
  ghost predicate Computed(ds: seq<int>, frac: int, expn: int, bin: bool, radix: nat, bits: int)
    requires radix > 0
  {
    if expn >= EXPONENT_LIMIT then bits == INFINITY_BITS
    else if expn <= -EXPONENT_LIMIT then bits == 0
    else NearestBits(Wrapped(ds, frac, expn, bin, radix), bits)
  }

  /** The result for a string, as js_atod computes it (exact false) or as it should be. */
  ghost predicate AtodIs(s: string, radix: nat, r: Result, exact: bool)
    requires 2 <= radix <= 36
  {
    match ParseNumber(s, radix, RadixBits(radix))
    case Bad(next) => r == NaN(next)
    case Infinite(neg, next) => r == Float(INFINITY_BITS + SignBit(neg), next)
    case Numeral(neg, split, expn, bin, next) =>
      var ds, frac := KeptDigits(split.digits, radix), FractionDigits(split);
      && r.Float? && r.next == next
      && if Number(ds, radix) == 0 then r.bits == SignBit(neg)
         else if exact then NearestBits(Magnitude(ds, frac, expn, bin, radix), r.bits - SignBit(neg))
         else Computed(ds, frac, expn, bin, radix, r.bits - SignBit(neg))
  }

  // ----- exponents beyond an int ----------------------------------------------------------------------

  lemma RadixAtLeastTwo(radix: nat)
    requires radix >= 2
    ensures RP(radix, 1024) >= RP(2, 1024) && RP(radix, -1075) <= RP(2, -1075)
  {
    hide Pow;
    PowBase(2, radix, 1024);
    PowBase(2, radix, 1075);
    if Pow(2, 1075) < Pow(radix, 1075) { Reciprocal(radix, 1075, 2, 1075); }
  }

  /** n * radix^k for an exponent far out. */
  lemma FarOut(radix: nat, n: nat, len: nat, k: int)
    requires 2 <= radix <= 36 && 0 < n < Pow(radix, len)
    ensures k >= 1024 ==> NearestBits(Scale(radix, n as real, k), INFINITY_BITS)
    ensures k + len <= -1075 ==> NearestBits(Scale(radix, n as real, k), 0)
  {
    hide Pow, RP, Scale, RoundsTo, NearestBits;
    var m, e := DigitsRound(radix, n, k);
    RadixAtLeastTwo(radix);
    PowFirst(radix);
    if k >= 1024 {
      DigitsAbove(radix, n, 1, k, 1024);
      OverflowBits(Scale(radix, n as real, k), m, e);
    }
    if k + len <= -1075 {
      DigitsBelow(radix, n, len, k, -1075);
      UnderflowBits(Scale(radix, n as real, k), m, e);
    }
  }

  /** Lengths for which an exponent too large for an int decides the result; a binary exponent counts
      bits and a digit has at most four of them. */
  function LengthLimit(bin: bool): nat { if bin then (EXPONENT_LIMIT - 1075) / 4 else EXPONENT_LIMIT - 1075 }

  /** What the parser and the tables say of a numeral that is not zero. */
  ghost predicate NumeralOk(ds: seq<int>, frac: int, bin: bool, radix: nat) {
    && 2 <= radix <= 36 && AllBelow(ds, radix) && Number(ds, radix) != 0 && 0 <= frac <= |ds|
    && (OddPart(radix) == 1 ==> 1 <= Ctz(radix) <= 5) && (bin ==> OddPart(radix) == 1 && Ctz(radix) <= 4)
  }

  /** An exponent that does not fit in an int decides the result. */
  lemma HugeExponent(ds: seq<int>, frac: int, expn: int, bin: bool, radix: nat)
    requires NumeralOk(ds, frac, bin, radix) && |ds| <= LengthLimit(bin)
    ensures expn >= EXPONENT_LIMIT ==> NearestBits(Magnitude(ds, frac, expn, bin, radix), INFINITY_BITS)
    ensures expn <= -EXPONENT_LIMIT ==> NearestBits(Magnitude(ds, frac, expn, bin, radix), 0)
  {
    hide Pow, RP, Scale, NearestBits, Number, OddPart, Ctz;
    var n := Number(ds, radix);
    NumberBound(ds, radix);
    if bin {
      var b := Ctz(radix);
      RadixParts(radix);
      ScaleBinary(b, radix, n as real, -frac);
      ScaleScale(2, n as real, b * -frac, expn);
      PowMul(2, b, |ds|);
      BinarySizes(b, frac, |ds|);
      FarOut(2, n, b * |ds|, b * -frac + expn);
    } else {
      ScaleZero(2, Scale(radix, n as real, expn - frac));
      FarOut(radix, n, |ds|, expn - frac);
    }
  }

  lemma BinarySizes(b: nat, frac: int, len: nat)
    requires b <= 4 && 0 <= frac <= len <= LengthLimit(true)
    ensures 1075 - EXPONENT_LIMIT <= b * -frac <= 0 <= b * len && b * len + b * -frac <= EXPONENT_LIMIT - 1075
  {
    Mono(b, 4, frac, len);
    Mono(b, 4, len, LengthLimit(true));
  }

  /** For longer strings it does not: sixteen to the minus 0x2000_0000, times 2^2147483640, is 2^-8. */
  lemma BinaryFar(ds: seq<int>)
    requires |ds| == 0x2000_0000 && AllBelow(ds, 16) && Number(ds, 16) == 1
    ensures OddPart(16) == 1 && Ctz(16) == 4 && Magnitude(ds, |ds|, EXPONENT_LIMIT, true, 16) == RP(2, -8)
    ensures forall bits :: Computed(ds, |ds|, EXPONENT_LIMIT, true, 16, bits) ==>
      !NearestBits(Magnitude(ds, |ds|, EXPONENT_LIMIT, true, 16), bits)
  {
    hide Pow, RP, Scale, NearestBits, Number;
    SixteenParts();
    ScaleBinary(4, 16, 1.0, -0x2000_0000);
    ScaleScale(2, 1.0, 4 * -0x2000_0000, EXPONENT_LIMIT);
    ScaleNothing(2, -8);
    SmallPower(-8);
  }

  lemma SixteenParts()
    ensures OddPart(16) == 1 && Ctz(16) == 4 && 16 == 1 * Pow(2, 4)
  {
    hide Pow, OddPart, Ctz;
    SmallPowers();
    BinaryParts(4);
  }

  /** A power of two is its own nearest float, not infinity. */
  lemma SmallPower(k: int)
    requires -100 <= k <= 0
    ensures !NearestBits(RP(2, k), INFINITY_BITS)
  {
    hide RP, Scale, RoundsTo, NearestBits;
    PowerFloat(k);
    ExactConverts(M52, k + 1);
    FloatNearest(RP(2, k), M52, k + 1);
    if NearestBits(RP(2, k), INFINITY_BITS) { NearestUnique(RP(2, k), INFINITY_BITS, FloatBits(M52, k + 1)); }
  }

  lemma PowerFloat(k: int)
    ensures ValueOf(M52, k + 1) == RP(2, k)
  {
    hide Pow, RP, Scale;
    Constants();
    PowAsRP(52);
    ScaleNothing(2, 52);
    ScaleScale(2, 1.0, 52, k - 52);
    ScaleNothing(2, k);
  }

  lemma FloatNearest(y: real, m: int, e: int)
    requires RoundsTo(y, m, e, RNDN) && Finite(m, e)
    ensures NearestBits(y, FloatBits(m, e))
  {
    hide RoundsTo, FloatBits;
  }

  /** The scaled number as an integer times a power of the base. */
  lemma ScaledIs(ds: seq<int>, frac: int, expn: int, bin: bool, radix: nat, j: int) returns (k: int)
    requires NumeralOk(ds, frac, bin, radix)
    ensures Number(ds, radix) > 0
    ensures Scale(Base(radix), Magnitude(ds, frac, expn, bin, radix), j) == Scale(Base(radix), Number(ds, radix) as real, k)
    ensures k == j + if OddPart(radix) != 1 then expn - frac
                     else (if bin then expn else expn * Ctz(radix)) - Ctz(radix) * frac
  {
    hide Pow, RP, Scale, Number, OddPart, Ctz;
    var n := Number(ds, radix);
    NumberBound(ds, radix);
    if OddPart(radix) == 1 {
      k := (if bin then expn else expn * Ctz(radix)) - Ctz(radix) * frac;
      BinaryIs(ds, frac, expn, bin, radix);
      ScaleScale(2, n as real, k, j);
    } else {
      k := expn - frac;
      ScaleZero(2, Scale(radix, n as real, k));
      ScaleScale(radix, n as real, k, j);
    }
    k := k + j;
  }

  /** A scaled number has a nearest float; its ends are known. */
  lemma ScaledEnds(ds: seq<int>, frac: int, expn: int, bin: bool, radix: nat, j: int)
    requires NumeralOk(ds, frac, bin, radix)
    ensures var y := Scale(Base(radix), Magnitude(ds, frac, expn, bin, radix), j);
      && (NearestBits(y, INFINITY_BITS) <==> y >= OverflowStart())
      && (NearestBits(y, 0) <==> y <= UnderflowEnd())
  {
    hide Scale, Number, OddPart, Ctz, Magnitude, NearestBits, OverflowStart, UnderflowEnd, RoundsTo;
    var k := ScaledIs(ds, frac, expn, bin, radix, j);
    var m, e := DigitsRound(Base(radix), Number(ds, radix), k);
    NearestEnds(Scale(Base(radix), Number(ds, radix) as real, k), m, e);
  }

  /** The top exponent encloses the number: in digits, or in bits. */
  lemma TopBounds(ds: seq<int>, frac: int, expn: int, bin: bool, radix: nat, j: int)
    requires NumeralOk(ds, frac, bin, radix)
    ensures var y, top := Scale(Base(radix), Magnitude(ds, frac, expn, bin, radix), j), TopExponent(ds, frac, expn, bin, radix) + j;
      RP(Base(radix), top - (if OddPart(radix) == 1 then Ctz(radix) else 1)) <= y < RP(Base(radix), top)
  {
    hide Pow, RP, Scale, Number, OddPart, Ctz, LeadingZeros, Magnitude;
    var n, dc := Number(ds, radix), |ds| - LeadingZeros(ds);
    LeadingBounds(ds, radix);
    var k := ScaledIs(ds, frac, expn, bin, radix, j);
    if OddPart(radix) == 1 {
      var b := Ctz(radix);
      RadixParts(radix);
      BitBounds(b, radix, n, dc, k);
      TopInBits(b, dc, frac, if bin then expn else expn * b, j);
    } else {
      DigitBounds(radix, n, dc - 1, dc, k);
    }
  }

  lemma BitBounds(b: nat, radix: nat, n: nat, dc: nat, k: int)
    requires radix == Pow(2, b) && dc >= 1 && Pow(radix, dc - 1) <= n < Pow(radix, dc)
    ensures RP(2, k + b * dc - b) <= Scale(2, n as real, k) < RP(2, k + b * dc)
  {
    hide Pow, RP, Scale;
    PowMul(2, b, dc - 1);
    PowMul(2, b, dc);
    Distrib(dc, -1, b);
    DigitBounds(2, n, b * (dc - 1), b * dc, k);
  }

  lemma TopInBits(b: int, dc: int, frac: int, x: int, j: int)
    ensures x + b * (dc - frac) + j == j + (x - b * frac) + b * dc
  {
    Distrib(dc, -frac, b);
  }

  lemma DigitBounds(base: nat, n: nat, lo: nat, hi: nat, k: int)
    requires base >= 2 && Pow(base, lo) <= n < Pow(base, hi)
    ensures RP(base, k + lo) <= Scale(base, n as real, k) < RP(base, k + hi)
  {
    hide Pow, RP, Scale;
    DigitsAbove(base, n, lo + 1, k, k + lo);
    DigitsBelow(base, n, hi, k, k + hi);
  }

  /** Far from the exponents of floats, the top exponent decides. */
  lemma FarTop(ds: seq<int>, frac: int, expn: int, bin: bool, radix: nat, j: int)
    requires NumeralOk(ds, frac, bin, radix)
    ensures var y, top := Scale(Base(radix), Magnitude(ds, frac, expn, bin, radix), j), TopExponent(ds, frac, expn, bin, radix) + j;
      && (top >= 1029 ==> NearestBits(y, INFINITY_BITS))
      && (top <= (if OddPart(radix) == 1 then 1023 else 0) ==> !NearestBits(y, INFINITY_BITS))
      && (top <= -1075 ==> NearestBits(y, 0))
      && (top >= (if OddPart(radix) == 1 then -1069 else 1) ==> !NearestBits(y, 0))
  {
    hide RP, Scale, NearestBits, Number, OddPart, Ctz, Magnitude, TopExponent, OverflowStart, UnderflowEnd;
    var top := TopExponent(ds, frac, expn, bin, radix) + j;
    TopBounds(ds, frac, expn, bin, radix, j);
    ScaledEnds(ds, frac, expn, bin, radix, j);
    FarEnds(Base(radix), top, if OddPart(radix) == 1 then Ctz(radix) else 1);
    FarEnds(2, top, if OddPart(radix) == 1 then Ctz(radix) else 1);
  }

  /** Powers beyond the ends of the float range. */
  lemma FarEnds(base: nat, top: int, width: nat)
    requires 2 <= base && 1 <= width <= 5
    ensures top >= 1029 ==> RP(base, top - width) >= OverflowStart()
    ensures top <= (if base == 2 then 1023 else 0) ==> RP(base, top) <= OverflowStart()
    ensures top <= -1075 ==> RP(base, top) <= UnderflowEnd()
    ensures top >= (if base == 2 then width - 1074 else width) ==> RP(base, top - width) > UnderflowEnd()
  {
    hide RP, OverflowStart, UnderflowEnd, Pow;
    EndsAre();
    RadixAtLeastTwo(base);
    RPZero(base);
    RPZero(2);
    if top >= 1029 { RPMono(base, 1024, top - width); }
    if top <= 0 { RPMono(base, top, 0); RPMono(2, 0, 1023); }
    if base == 2 && top <= 1023 { RPMono(2, top, 1023); }
    if top <= -1075 { RPMono(base, top, -1075); }
    RPNext(2, -1075);
    PositiveEnd();
    if base == 2 && top >= width - 1074 { RPMono(2, -1074, top - width); }
    if top >= width { RPMono(base, 0, top - width); RPMono(2, -1074, 0); }
  }

  lemma PositiveEnd()
    ensures UnderflowEnd() > 0.0
  {
    hide Scale;
    ScaleMono(2, 0.0, 0.5, -1074);
    ScaleNothing(2, -1074);
  }

  lemma LeadingBounds(ds: seq<int>, radix: nat)
    requires 2 <= radix <= 36 && AllBelow(ds, radix) && Number(ds, radix) != 0
    ensures LeadingZeros(ds) < |ds|
    ensures Pow(radix, |ds| - LeadingZeros(ds) - 1) <= Number(ds, radix) < Pow(radix, |ds| - LeadingZeros(ds))
    ensures Number(ds, radix) > 0
  {
    hide Pow, Number;
    var k := LeadingZeros(ds);
    NumberZeros(ds, radix);
    NumberLeading(ds, k, radix);
    NumberBound(ds[k..], radix);
    NumberLow(ds[k..], radix);
  }

  /** Powers of two: everything in bits. */
  lemma BinaryIs(ds: seq<int>, frac: int, expn: int, bin: bool, radix: nat)
    requires 2 <= radix <= 36 && OddPart(radix) == 1
    ensures var b := Ctz(radix);
      Magnitude(ds, frac, expn, bin, radix) == Scale(2, Number(ds, radix) as real, (if bin then expn else expn * b) - b * frac)
  {
    hide Pow, Scale, Number, OddPart, Ctz;
    var b, n := Ctz(radix), Number(ds, radix);
    RadixParts(radix);
    var j := (if bin then 0 else expn) - frac;
    ScaleBinary(b, radix, n as real, j);
    ScaleScale(2, n as real, b * j, if bin then expn else 0);
    Exponents(b, j, 0, frac, expn, bin);
  }

  /** Whether js_atod is right about a numeral that is not zero. An exponent beyond an int must stand
      for a number beyond the floats. Any other exponent must not wrap around when it is moved in
      front of the first digit, or must land beyond the same end of the float range again. */
  ghost predicate ExponentRoom(ds: seq<int>, frac: int, expn: int, bin: bool, radix: nat)
    requires radix > 0
  {
    var top := TopExponent(ds, frac, expn, bin, radix);
    if expn >= EXPONENT_LIMIT then Magnitude(ds, frac, expn, bin, radix) >= OverflowStart()
    else if expn <= -EXPONENT_LIMIT then Magnitude(ds, frac, expn, bin, radix) <= UnderflowEnd()
    else if FitsInt(top) then true
    else if top > 0 then Wrapped(ds, frac, expn, bin, radix) >= OverflowStart()
    else Wrapped(ds, frac, expn, bin, radix) <= UnderflowEnd()
  }

  /** For every numeral: the computed bits are the nearest float exactly where there is room. */
  lemma ComputedExact(ds: seq<int>, frac: int, expn: int, bin: bool, radix: nat, bits: int)
    requires NumeralOk(ds, frac, bin, radix) && Computed(ds, frac, expn, bin, radix, bits)
    ensures NearestBits(Magnitude(ds, frac, expn, bin, radix), bits) <==> ExponentRoom(ds, frac, expn, bin, radix)
  {
    hide Scale, NearestBits, Number, OddPart, Ctz, Magnitude, TopExponent, LeadingZeros, OverflowStart, UnderflowEnd, Int32;
    var y, top := Magnitude(ds, frac, expn, bin, radix), TopExponent(ds, frac, expn, bin, radix);
    ScaleZero(Base(radix), y);
    ScaledEnds(ds, frac, expn, bin, radix, 0);
    if -EXPONENT_LIMIT < expn < EXPONENT_LIMIT && !FitsInt(top) {
      var end := if top > 0 then INFINITY_BITS else 0;
      FarTop(ds, frac, expn, bin, radix, 0);
      ScaledEnds(ds, frac, expn, bin, radix, Int32(top) - top);
      if NearestBits(y, bits) { NearestUnique(y, bits, end); }
      if NearestBits(Wrapped(ds, frac, expn, bin, radix), end) { NearestUnique(Wrapped(ds, frac, expn, bin, radix), bits, end); }
    }
  }

  /** An exponent that wraps around: its new value tells where the number lands. */
  lemma RoomByTop(ds: seq<int>, frac: int, expn: int, bin: bool, radix: nat)
    requires NumeralOk(ds, frac, bin, radix) && -EXPONENT_LIMIT < expn < EXPONENT_LIMIT
    ensures var top := TopExponent(ds, frac, expn, bin, radix);
      var w, room := Int32(top), ExponentRoom(ds, frac, expn, bin, radix);
      && (FitsInt(top) ==> room)
      && (!FitsInt(top) && top > 0 && w >= 1029 ==> room)
      && (!FitsInt(top) && top > 0 && w <= (if OddPart(radix) == 1 then 1023 else 0) ==> !room)
      && (!FitsInt(top) && top < 0 && w <= -1075 ==> room)
      && (!FitsInt(top) && top < 0 && w >= (if OddPart(radix) == 1 then -1069 else 1) ==> !room)
  {
    hide Scale, NearestBits, Number, OddPart, Ctz, Magnitude, TopExponent, OverflowStart, UnderflowEnd, Int32;
    var top := TopExponent(ds, frac, expn, bin, radix);
    FarTop(ds, frac, expn, bin, radix, Int32(top) - top);
    ScaledEnds(ds, frac, expn, bin, radix, Int32(top) - top);
  }

  /** Where an exponent beyond an int decides, and for radixes that are not powers of two, there is
      room exactly when the exponent in front of the first digit fits. */
  lemma RoomIs(ds: seq<int>, frac: int, expn: int, bin: bool, radix: nat)
    requires NumeralOk(ds, frac, bin, radix) && |ds| <= LengthLimit(bin) && OddPart(radix) != 1
    ensures ExponentRoom(ds, frac, expn, bin, radix) <==>
      (-EXPONENT_LIMIT < expn < EXPONENT_LIMIT ==> FitsInt(TopExponent(ds, frac, expn, bin, radix)))
  {
    hide Scale, NearestBits, Number, OddPart, Ctz, Magnitude, OverflowStart, UnderflowEnd, LeadingZeros;
    if -EXPONENT_LIMIT < expn < EXPONENT_LIMIT {
      RoomByTop(ds, frac, expn, bin, radix);
    } else {
      ScaleZero(Base(radix), Magnitude(ds, frac, expn, bin, radix));
      ScaledEnds(ds, frac, expn, bin, radix, 0);
      HugeExponent(ds, frac, expn, bin, radix);
    }
  }

  /** Without room the result is the other end of the float range, for radixes that are not powers of two. */
  lemma WrapsAcross(ds: seq<int>, frac: int, expn: int, bin: bool, radix: nat, bits: int)
    requires NumeralOk(ds, frac, bin, radix) && Computed(ds, frac, expn, bin, radix, bits) && OddPart(radix) != 1
    requires -EXPONENT_LIMIT < expn < EXPONENT_LIMIT && !FitsInt(TopExponent(ds, frac, expn, bin, radix))
    requires |ds| <= LengthLimit(bin)
    ensures bits == if TopExponent(ds, frac, expn, bin, radix) > 0 then 0 else INFINITY_BITS
  {
    hide Scale, NearestBits, Number, OddPart, Ctz, Magnitude, LeadingZeros;
    var top := TopExponent(ds, frac, expn, bin, radix);
    FarTop(ds, frac, expn, bin, radix, Int32(top) - top);
    NearestUnique(Wrapped(ds, frac, expn, bin, radix), bits, if top > 0 then 0 else INFINITY_BITS);
  }

  /** A result that should be a finite float other than zero is always right. */
  lemma FiniteRight(ds: seq<int>, frac: int, expn: int, bin: bool, radix: nat, bits: int, x: int)
    requires NumeralOk(ds, frac, bin, radix) && Computed(ds, frac, expn, bin, radix, bits)
    requires -EXPONENT_LIMIT < expn < EXPONENT_LIMIT || |ds| <= LengthLimit(bin)
    requires NearestBits(Magnitude(ds, frac, expn, bin, radix), x) && x != 0 && x != INFINITY_BITS
    ensures bits == x
  {
    hide Scale, NearestBits, Number, OddPart, Ctz, Magnitude, TopExponent, LeadingZeros, OverflowStart, UnderflowEnd;
    var y, top := Magnitude(ds, frac, expn, bin, radix), TopExponent(ds, frac, expn, bin, radix);
    if expn >= EXPONENT_LIMIT || expn <= -EXPONENT_LIMIT {
      HugeExponent(ds, frac, expn, bin, radix);
      NearestUnique(y, x, if expn > 0 then INFINITY_BITS else 0);
    } else {
      ScaleZero(Base(radix), y);
      if !FitsInt(top) {
        FarTop(ds, frac, expn, bin, radix, 0);
        NearestUnique(y, x, if top > 0 then INFINITY_BITS else 0);
      }
      ComputedExact(ds, frac, expn, bin, radix, bits);
      NearestUnique(y, x, bits);
    }
  }

  lemma KeptIs(ds: seq<int>, radix: nat)
    requires 2 <= radix <= 36 && AllBelow(ds, radix) && MaxKept(radix) >= 1
    ensures AllBelow(KeptDigits(ds, radix), radix) && |KeptDigits(ds, radix)| == |ds|
    ensures Number(KeptDigits(ds, radix), radix) == 0 <==> LeadingZeros(ds) == |ds|
  {
    hide OddPart, MaxKept;
    var r := KeptDigits(ds, radix);
    NumberZeros(r, radix);
    var k := LeadingZeros(ds);
    if k < |ds| { assert r[k] == ds[k]; }
  }

  // ----- js_atod --------------------------------------------------------------------------------------

  /** The sign, and where the number starts. */
  method ReadSign(s: string) returns (neg: bool, start: nat)
    ensures neg == (CharAt(s, 0) == '-') && start == AfterSign(s, 0) && start <= |s|
  {
    neg, start := false, 0;
    if CharAt(s, 0) == '+' {
      start := 1;
    } else if CharAt(s, 0) == '-' {
      neg, start := true, 1;
    }
  }

  /** The exponent part behind the digits, if any. */
  method ReadExponentPart(s: string, p: nat, start: nat, radix: nat)
    returns (bad: bool, expn: int, overflow: bool, bin: bool, next: nat)
    requires 2 <= radix <= 36 && start <= p <= |s|
    ensures bin ==> OddPart(radix) == 1
    ensures var mark, q := p > start && IsExponentMark(CharAt(s, p), radix, RadixBits(radix)), AfterSign(s, p + 1);
      && (bad <==> mark && !IsDigit(s, q, 10)) && bin == (mark && IsBinaryMark(CharAt(s, p)))
      && (!mark ==> expn == 0 && !overflow && next == p)
      && (bad ==> next == q)
      && (mark && !bad ==>
            var x := Number(Run(s, q), 10);
            && next == q + |Run(s, q)|
            && (!overflow ==> -EXPONENT_LIMIT < expn < EXPONENT_LIMIT && expn == if CharAt(s, p + 1) == '-' then -x else x)
            && (overflow ==> x >= EXPONENT_LIMIT && (expn < 0 <==> CharAt(s, p + 1) == '-')))
  {
    hide Number, Run, OddPart, Ctz;
    var radixBits := RadixBits(radix);
    bad, expn, overflow, bin, next := false, 0, false, false, p;
    if ((radix == 10 && (CharAt(s, p) == 'e' || CharAt(s, p) == 'E')) ||
        (radix != 10 && (CharAt(s, p) == '@' || (1 <= radixBits <= 4 && IsBinaryMark(CharAt(s, p)))))) && p > start {
      bin := IsBinaryMark(CharAt(s, p));
      next := p + 1;
      var expNeg := false;
      if CharAt(s, next) == '+' {
        next := next + 1;
      } else if CharAt(s, next) == '-' {
        expNeg := true;
        next := next + 1;
      }
      var ok, x, over, end := ReadExponent(s, next);
      if !ok { return true, 0, false, bin, next; }
      expn, overflow, next := if expNeg then -x else x, over, end;
    }
  }

  /** js_atod without prefixes and separators. */
  method JsAtod(s: string, radix: nat) returns (r: Result)
    requires RadixReady(radix) && |s| < 0x8000_0000
    ensures AtodIs(s, radix, r, false)
  {
    hide Pow, Number, Run, Scan, OddPart, Ctz, Kept, NearestBits, Wrapped, KeptDigits, MaxKept, OddRadix, ExponentsOk, AtodRoom,
      LeadingZeros, AllBelow, IsExponentMark, FractionDigits, AfterSign, IsDigit, ToDigit, StartsWith, Int32;
    var neg, start := ReadSign(s);
    if CharAt(s, start) != '0' && StartsWith(s, start, INFINITY_TEXT) {
      return Float(INFINITY_BITS + SignBit(neg), start + 8);
    }
    var tmp := new Mpb(DBIGNUM_LEN_MAX);
    var sc, ds := ScanDigits(tmp, s, start, radix);
    ScanBelow(s, start, start, radix, [], -1);
    var bad, expn, overflow, bin, next := ReadExponentPart(s, sc.next, start, radix);
    if bad || (sc.next == start && next == sc.next) { return NaN(next); }
    KeptSize(sc, ds, radix, tmp.Val());
    KeptIs(ds, radix);
    ZeroDigits(sc, ds, radix, tmp.Val());
    if sc.digitCount == 0 { return Float(SignBit(neg), next); }
    var a;
    if overflow {
      a := if expn < 0 then 0 else INFINITY_BITS;
    } else {
      a := RoundNumeral(tmp, radix, sc, expn, bin, ds);
    }
    return Float(a + SignBit(neg), next);
  }

  /** The int arithmetic of js_atod has room for the exponent of the string. */
  ghost predicate InReach(s: string, radix: nat)
    requires 2 <= radix <= 36
  {
    match ParseNumber(s, radix, RadixBits(radix))
    case Numeral(_, split, expn, bin, _) =>
      var ds := KeptDigits(split.digits, radix);
      Number(ds, radix) != 0 ==> ExponentRoom(ds, FractionDigits(split), expn, bin, radix)
    case _ => true
  }

  /** For every string and radix, js_atod gives the nearest float to the kept digits exactly where its
      ints have room. */
  lemma AtodExact(s: string, radix: nat, r: Result)
    requires RadixReady(radix) && AtodIs(s, radix, r, false)
    ensures AtodIs(s, radix, r, true) <==> InReach(s, radix)
  {
    hide Pow, Number, Scan, OddPart, Ctz, NearestBits, Magnitude, KeptDigits, MaxKept, OddRadix, ExponentsOk, AtodRoom,
      LeadingZeros, FractionDigits, Computed, ExponentRoom, Run;
    match ParseNumber(s, radix, RadixBits(radix)) {
      case Numeral(neg, split, expn, bin, next) =>
        var ds, frac := KeptDigits(split.digits, radix), FractionDigits(split);
        ParsedOk(s, radix);
        if Number(ds, radix) != 0 { ComputedExact(ds, frac, expn, bin, radix, r.bits - SignBit(neg)); }
      case _ =>
    }
  }

  /** In radix 10 at least twenty significant digits are kept, as section 7.1.4.1.3 of ECMA-262 (RoundMVResult)
      demands: all of a number with no more, and of any other the first twenty, the rest being kept or
      replaced by zeros. */
  lemma TwentyDigits(ds: seq<int>)
    ensures var kept := KeptDigits(ds, 10);
      && |kept| == |ds| && (|ds| - LeadingZeros(ds) <= 20 ==> kept == ds)
      && (forall i :: 0 <= i < |ds| && i < LeadingZeros(ds) + 20 ==> kept[i] == ds[i])
      && (forall i :: 0 <= i < |ds| ==> kept[i] == ds[i] || kept[i] == 0)
  {
    TenParts();
    assert MaxKept(10) == 38;
    hide LeadingZeros, OddPart;
  }

  /** What a right result is: the pattern of the closest number, or infinity from the middle between
      the largest float and 2^1024 on, with the sign of the text. */
  lemma AtodClosest(s: string, radix: nat, r: Result)
    requires RadixReady(radix) && AtodIs(s, radix, r, true) && ParseNumber(s, radix, RadixBits(radix)).Numeral?
    requires Number(KeptDigits(ParseNumber(s, radix, RadixBits(radix)).split.digits, radix), radix) != 0
    ensures var p := ParseNumber(s, radix, RadixBits(radix));
      var ds := KeptDigits(p.split.digits, radix);
      var y := Magnitude(ds, FractionDigits(p.split), p.expn, p.bin, radix);
      var a := if p.neg then r.bits - 0x8000_0000_0000_0000 else r.bits;
      && 0 <= a <= 0x7ff0_0000_0000_0000 && (a == 0x7ff0_0000_0000_0000 <==> y >= OverflowStart())
      && (a < 0x7ff0_0000_0000_0000 ==>
            && IsNumber(a) && IsNumber(r.bits) && Value64(r.bits) == (if p.neg then -Value64(a) else Value64(a))
            && forall b: nat :: b < INFINITY_BITS && IsNumber(b) ==> Abs(y - Value64(a)) <= Abs(y - Value64(b)))
  {
    hide Number, OddPart, Ctz, NearestBits, Magnitude, KeptDigits, RadixReady, FractionDigits, ParseNumber, Value64, OverflowStart,
      UnderflowEnd, NumeralOk, IsNumber, Scale;
    ReadyParts(radix);
    var p := ParseNumber(s, radix, RadixBits(radix));
    var ds, frac := KeptDigits(p.split.digits, radix), FractionDigits(p.split);
    var y, a := Magnitude(ds, frac, p.expn, p.bin, radix), r.bits - SignBit(p.neg);
    ParsedOk(s, radix);
    ScaledEnds(ds, frac, p.expn, p.bin, radix, 0);
    ScaleZero(Base(radix), y);
    NearestAtMost(y, a);
    if a != INFINITY_BITS {
      SignValue(a);
      forall b: nat | b < INFINITY_BITS && IsNumber(b) ensures Abs(y - Value64(a)) <= Abs(y - Value64(b)) { NearestClosest(y, a, b); }
    } else {
      NearestUnique(y, a, INFINITY_BITS);
    }
    if y >= OverflowStart() { NearestUnique(y, a, INFINITY_BITS); }
  }

  /** What was read is a numeral. */
  lemma ParsedOk(s: string, radix: nat)
    requires RadixReady(radix) && ParseNumber(s, radix, RadixBits(radix)).Numeral?
    ensures var p := ParseNumber(s, radix, RadixBits(radix));
      var ds := KeptDigits(p.split.digits, radix);
      |ds| <= |s| && (Number(ds, radix) != 0 ==> NumeralOk(ds, FractionDigits(p.split), p.bin, radix))
  {
    hide Pow, Number, Scan, OddPart, Ctz, KeptDigits, MaxKept, OddRadix, ExponentsOk, AtodRoom, LeadingZeros, FractionDigits, Run;
    var split := ParseNumber(s, radix, RadixBits(radix)).split;
    FractionRange(split, s, AfterSign(s, 0), radix);
    ScanBelow(s, AfterSign(s, 0), AfterSign(s, 0), radix, [], -1);
    KeptIs(split.digits, radix);
  }

  lemma ZeroDigits(sc: Scanned, ds: seq<int>, radix: nat, v: int)
    requires 2 <= radix <= 36 && Kept(sc, ds, radix, v) && MaxKept(radix) >= 1
    ensures sc.digitCount == 0 <==> LeadingZeros(ds) == |ds|
  {
    hide Number, MaxKept;
    LeadingUnique(ds, sc.sigPos);
  }

  lemma FractionRange(split: Split, s: string, start: nat, radix: nat)
    requires radix <= 36 && start <= |s| && split == Scan(s, start, start, radix, [], -1)
    ensures 0 <= FractionDigits(split) <= |split.digits| <= |s|
  {
    ScanBelow(s, start, start, radix, [], -1);
  }

  // ----- radixes --------------------------------------------------------------------------------------

  lemma TenReady()
    ensures RadixReady(10)
  {
    Pow10Five();
    TenParts();
    hide Pow;
    PowAdd(10, 4, 5);
    assert DigitsPerLimb(10) == 9 && RadixBase(10) == 1000000000 && MaxKept(10) == 38;
    TenExponents();
    TenAtodRoom();
    hide OddRadix, ExponentsOk, AtodRoom;
  }

  lemma BinaryReady(b: nat)
    requires 1 <= b <= 5
    ensures RadixReady(Pow(2, b))
  {
    BinaryParts(b);
    BinaryBase(b);
    hide Pow, OddPart, Ctz, BaseOk, MaxKept;
  }

  lemma BinaryBase(b: nat)
    requires 1 <= b <= 5
    ensures 2 <= Pow(2, b) <= 32 && BaseOk(Pow(2, b)) && b * (MaxKept(Pow(2, b)) - 1) >= 55
  {
    hide Pow, BaseOk, MaxKept;
    SmallPowers();
    PowNextTwo(4);
    BaseTwo();
    BaseFour();
    BaseEight();
    BaseSixteen();
    BaseThirtyTwo();
  }

  lemma BaseTwo()
    ensures BaseOk(2) && MaxKept(2) == 64
  {
    Pow32();
    hide Pow;
    assert DigitsPerLimb(2) == 32 && RadixBase(2) == 0;
  }

  lemma BaseFour()
    ensures BaseOk(4) && MaxKept(4) == 32
  {
    hide Pow;
    SmallPowers();
    Pow32();
    PowMul(2, 2, 16);
    assert DigitsPerLimb(4) == 16 && RadixBase(4) == 0;
  }

  lemma BaseEight()
    ensures BaseOk(8) && MaxKept(8) == 21
  {
    hide Pow;
    SmallPowers();
    Pow30();
    PowMul(2, 3, 10);
    assert DigitsPerLimb(8) == 10 && RadixBase(8) == 0x40000000;
  }

  lemma BaseSixteen()
    ensures BaseOk(16) && MaxKept(16) == 16
  {
    hide Pow;
    SmallPowers();
    Pow32();
    PowMul(2, 4, 8);
    assert DigitsPerLimb(16) == 8 && RadixBase(16) == 0;
  }

  lemma BaseThirtyTwo()
    ensures BaseOk(32) && MaxKept(32) == 12
  {
    hide Pow;
    SmallPowers();
    PowNextTwo(4);
    Pow30();
    PowMul(2, 5, 6);
    assert DigitsPerLimb(32) == 6 && RadixBase(32) == 0x40000000;
  }

  lemma Pow30()
    ensures Pow(2, 30) == 0x40000000
  {
    hide Pow;
    Pow32();
    PowNextTwo(30);
    PowNextTwo(31);
  }
}
