/**
 The 64-bit patterns of floats as section 3.4 of IEEE 754 defines them, independently of how the
 code takes them apart and puts them together.
 */
module Ieee754 {
  import opened Limbs
  import opened Bignum
  import opened MulPow
  import opened RealPow
  import opened DoubleRounding
  import opened FloatSpacing
  import opened AtodRounding
  import opened FloatEnds

  /** The 11 bits of the exponent, the 52 bits of the fraction, and the sign bit. */
  function ExponentField(bits: nat): nat { bits / 0x10_0000_0000_0000 % 0x800 }

  function FractionField(bits: nat): nat { bits % 0x10_0000_0000_0000 }

  function SignField(bits: nat): nat { bits / 0x8000_0000_0000_0000 % 2 }

  predicate IsNumber(bits: nat) { bits < 0x1_0000_0000_0000_0000 && ExponentField(bits) < 0x7ff }

  /** The number that a pattern stands for. */
  function Value64(bits: nat): real
    requires IsNumber(bits)
  {
    var f, x := FractionField(bits), ExponentField(bits);
    var v := if x == 0 then Scale(2, f as real, -1074) else Scale(2, (0x10_0000_0000_0000 + f) as real, x - 1075);
    if SignField(bits) == 1 then -v else v
  }

  lemma Fields(x: nat, f: nat)
    requires x < 0x7ff && f < 0x10_0000_0000_0000
    ensures var bits := x * 0x10_0000_0000_0000 + f;
      && IsNumber(bits) && bits < INFINITY_BITS
      && ExponentField(bits) == x && FractionField(bits) == f && SignField(bits) == 0
  {
  }

  /** Every pattern below infinity consists of its fields. */
  lemma FieldsOf(bits: nat)
    requires bits < INFINITY_BITS
    ensures var x, f := bits / 0x10_0000_0000_0000, bits % 0x10_0000_0000_0000;
      x < 0x7ff && bits == x * 0x10_0000_0000_0000 + f
  {
  }

  /** The bits that js_atod builds and js_dtoa takes apart are those of the standard. */
  lemma FloatValue(m: int, e: int)
    requires Finite(m, e)
    ensures 0 < FloatBits(m, e) < INFINITY_BITS && IsNumber(FloatBits(m, e)) && Value64(FloatBits(m, e)) == ValueOf(m, e)
  {
    hide Scale, Pow, ExponentField, FractionField, SignField;
    BitsRange(m, e);
    if e < -1021 {
      var p := Pow(2, -1021 - e);
      var q := m / p;
      SubnormalQuotient(m, -1021 - e);
      Fields(0, q);
      ScaleInt(2, q, -1021 - e);
      ScaleScale(2, q as real, -1021 - e, e - 53);
    } else {
      Fields(e + 1022, m - M52);
    }
  }

  lemma SubnormalQuotient(m: nat, k: nat)
    requires M52 <= m < M53 && k >= 1 && m % Pow(2, k) == 0
    ensures m == m / Pow(2, k) * Pow(2, k) && m / Pow(2, k) < M52
  {
    hide Pow;
    var p := Pow(2, k);
    PowMono(2, 1, k);
    PowFirst(2);
    DivRange(m, p);
    DivUnique(m, p, m / p, m % p);
    if m / p >= M52 { Mono(M52, m / p, 2, p); assert false; }
  }

  lemma SignValue(bits: nat)
    requires bits < INFINITY_BITS
    ensures IsNumber(bits) && IsNumber(bits + SIGN_BIT) && Value64(bits + SIGN_BIT) == -Value64(bits)
  {
    hide Scale;
  }

  // ----- order ----------------------------------------------------------------------------------------

  /** The next pattern stands for a greater number. */
  lemma ValueStep(bits: nat)
    requires bits + 1 < INFINITY_BITS
    ensures IsNumber(bits) && IsNumber(bits + 1) && 0.0 <= Value64(bits) < Value64(bits + 1)
  {
    hide Scale, ExponentField, FractionField, SignField;
    FieldsOf(bits);
    var x, f := bits / 0x10_0000_0000_0000, bits % 0x10_0000_0000_0000;
    Fields(x, f);
    var k := if x == 0 then -1074 else x - 1075;
    var n := if x == 0 then f else M52 + f;
    ScaleNothing(2, k);
    ScaleMono(2, 0.0, n as real, k);
    ScaleMono(2, n as real, (n + 1) as real, k);
    if f + 1 < M52 {
      Fields(x, f + 1);
    } else {
      assert bits + 1 == (x + 1) * 0x10_0000_0000_0000 + 0;
      Fields(x + 1, 0);
      CarryOut(k + 53);
    }
  }

  lemma {:induction false} ValueMono(a: nat, b: nat)
    requires a < b < INFINITY_BITS
    ensures IsNumber(a) && IsNumber(b) && 0.0 <= Value64(a) < Value64(b)
    decreases b - a
  {
    hide Value64;
    ValueStep(b - 1);
    if a < b - 1 { ValueMono(a, b - 1); }
  }

  /** Bits order floats as their values do. */
  lemma BitsOrder(m1: int, e1: int, m2: int, e2: int)
    requires Finite(m1, e1) && Finite(m2, e2)
    ensures ValueOf(m1, e1) < ValueOf(m2, e2) <==> FloatBits(m1, e1) < FloatBits(m2, e2)
  {
    hide Value64, FloatBits, ValueOf, Finite;
    FloatValue(m1, e1);
    FloatValue(m2, e2);
    var a, b := FloatBits(m1, e1), FloatBits(m2, e2);
    if a < b { ValueMono(a, b); }
    if b < a { ValueMono(b, a); }
  }

  // ----- nearest --------------------------------------------------------------------------------------

  /** Every pattern below infinity is a float. */
  lemma PatternIsFloat(bits: nat)
    requires bits < INFINITY_BITS
    ensures IsNumber(bits) && IsFloat(Value64(bits))
  {
    hide Scale, ExponentField, FractionField, SignField;
    FieldsOf(bits);
    var x, f := bits / 0x10_0000_0000_0000, bits % 0x10_0000_0000_0000;
    Fields(x, f);
    var k := if x == 0 then -1074 else x - 1075;
    var n := if x == 0 then f else M52 + f;
    assert Value64(bits) == FloatAt(n, k);
  }

  /** A rounded number as a pattern. */
  lemma NearestValue(y: real, a: int) returns (e0: int)
    requires NearestBits(y, a) && a != INFINITY_BITS
    ensures 0 <= a < INFINITY_BITS && IsNumber(a) && Bracket(y, e0) && Value64(a) == Rounded(y, e0, RNDN)
  {
    hide Value64, FloatBits, ValueOf, Finite, Rounded, Bracket;
    var m, e :| RoundsTo(y, m, e, RNDN) &&
      if m == 0 then a == 0 else if e > 1024 then a == INFINITY_BITS else Finite(m, e) && a == FloatBits(m, e);
    e0 :| Bracket(y, e0) && ValueOf(m, e) == Rounded(y, e0, RNDN);
    if m == 0 { ZeroIs(e); } else { FloatValue(m, e); }
  }

  lemma ZeroIs(e: int)
    ensures IsNumber(0) && Value64(0) == 0.0 && ValueOf(0, e) == 0.0
  {
    hide Scale;
    ScaleNothing(2, -1074);
    ScaleNothing(2, e - 53);
  }

  /** The nearest float: no other pattern stands for a closer number. */
  lemma NearestClosest(y: real, a: int, b: nat)
    requires NearestBits(y, a) && a != INFINITY_BITS && b < INFINITY_BITS
    ensures 0 <= a < INFINITY_BITS && IsNumber(a) && IsNumber(b) && Abs(y - Value64(a)) <= Abs(y - Value64(b))
  {
    hide Value64, NearestBits, Rounded, Bracket, IsFloat;
    var e0 := NearestValue(y, a);
    PatternIsFloat(b);
    RoundedClosest(y, e0, Value64(b));
  }

  /** The nearest float grows with the number. */
  lemma NearestMono(y1: real, y2: real, a1: int, a2: int)
    requires NearestBits(y1, a1) && NearestBits(y2, a2) && y1 <= y2
    ensures a1 <= a2
  {
    hide Value64, NearestBits, OverflowStart;
    if y1 == y2 {
      NearestUnique(y1, a1, a2);
    } else if a2 == INFINITY_BITS {
      NearestAtMost(y1, a1);
    } else if a1 == INFINITY_BITS {
      InfinityUp(y1, y2, a2);
    } else {
      NearestClosest(y1, a1, 0);
      NearestClosest(y2, a2, 0);
      NearestClosest(y1, a1, a2);
      NearestClosest(y2, a2, a1);
      if a2 < a1 { ValueMono(a2, a1); }
    }
  }

  lemma NearestAtMost(y: real, a: int)
    requires NearestBits(y, a)
    ensures 0 <= a <= INFINITY_BITS
  {
    hide NearestBits;
    if a != INFINITY_BITS { NearestClosest(y, a, 0); }
  }

  lemma InfinityUp(y1: real, y2: real, a2: int)
    requires NearestBits(y1, INFINITY_BITS) && y1 <= y2 && NearestBits(y2, a2)
    ensures a2 == INFINITY_BITS
  {
    hide RoundsTo, OverflowStart, UnderflowEnd, FloatBits, Finite;
    var m1, e1 :| RoundsTo(y1, m1, e1, RNDN);
    var m2, e2 :| RoundsTo(y2, m2, e2, RNDN);
    NearestEnds(y1, m1, e1);
    NearestEnds(y2, m2, e2);
    NearestUnique(y2, INFINITY_BITS, a2);
  }
}
