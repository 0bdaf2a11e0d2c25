/**
 The constant tables of dtoa.c and the facts that the conversions need of them, proved for
 radix 10 and the powers of two.
 */
module RadixTables {
  import opened Limbs
  import opened Bignum
  import opened MulPow
  import opened RealPow
  import opened DoubleRounding

  // ----- radix = radix1 * 2^radixShift ----------------------------------------------------------------

  /** ctz32. */
  function Ctz(r: nat): nat
    requires r > 0
  {
    if r % 2 == 1 then 0 else 1 + Ctz(r / 2)
  }

  function OddPart(r: nat): (q: nat)
    requires r > 0
    ensures q > 0
  {
    if r % 2 == 1 then r else OddPart(r / 2)
  }

  lemma {:induction false} RadixParts(r: nat)
    requires r > 0
    ensures r == OddPart(r) * Pow(2, Ctz(r))
    decreases r
  {
    if r % 2 == 0 {
      RadixParts(r / 2);
      PowNextTwo(Ctz(r / 2));
      Assoc(OddPart(r / 2), 2, Pow(2, Ctz(r / 2)));
    }
  }

  /** Scaling by the two parts is scaling by the radix. */
  lemma DigitsIsScale(x: real, radix: nat, f: int)
    requires radix > 0
    ensures Digits(x, OddPart(radix), Ctz(radix), f) == Scale(radix, x, f)
  {
    hide RP, Pow, OddPart, Ctz;
    var r1, s := OddPart(radix), Ctz(radix);
    RadixParts(radix);
    RPBase(r1, Pow(2, s), f);
    RPTwo(s, f);
    assert s * f == f * s;
    RAssoc(x, RP(r1, f), RP(2, f * s));
  }

  // ----- tables ---------------------------------------------------------------------------------------

  const dtoaMaxDigitsTable: seq<nat> :=
    [54, 35, 28, 24, 22, 20, 19, 18, 17, 17, 16, 16, 15, 15, 15, 14, 14, 14, 14, 14, 13, 13, 13, 13, 13, 13, 13,
     12, 12, 12, 12, 12, 12, 12, 12]

  const mulLog2RadixTable: seq<nat> :=
    [0x000000, 0xa1849d, 0x000000, 0x6e40d2, 0x6308c9, 0x5b3065, 0x000000, 0x50c24e, 0x4d104d, 0x4a0027, 0x4768ce,
     0x452e54, 0x433d00, 0x418677, 0x000000, 0x3ea16b, 0x3d645a, 0x3c43c2, 0x3b3b9a, 0x3a4899, 0x39680b, 0x3897b3,
     0x37d5af, 0x372069, 0x367686, 0x35d6df, 0x354072, 0x34b261, 0x342bea, 0x33ac62, 0x000000, 0x32bfd9, 0x3251dd,
     0x31e8d6, 0x318465]

  /** Division that truncates towards zero. */
  function TruncDiv(a: int, b: int): int
    requires b > 0
  {
    if a >= 0 then a / b else -((-a) / b)
  }

  /** mul_log2_radix: meant to be the floor of a / log2(radix). */
  function MulLog2Radix(a: int, radix: nat): int
    requires 2 <= radix <= 36
  {
    if OddPart(radix) == 1 && Ctz(radix) > 0 then
      var bits := Ctz(radix);
      TruncDiv(if a < 0 then a - (bits - 1) else a, bits)
    else
      a * mulLog2RadixTable[radix - 2] / 0x100_0000
  }

  /** radix^k <= 2^a < radix^(k + 1) for the k that mul_log2_radix returns. */
  ghost predicate LogOk(radix: nat, a: int)
    requires 2 <= radix <= 36
  {
    var k := MulLog2Radix(a, radix);
    RP(radix, k) <= RP(2, a) < RP(radix, k + 1)
  }

  /** Largest number of digits that free format tries. */
  function MaxDigits(radix: nat): nat
    requires 2 <= radix <= 36
  {
    dtoaMaxDigitsTable[radix - 2]
  }

  /** More digits than 53 bits need, but fewer than 64 bits hold. */
  predicate MaxDigitsOk(radix: nat)
    requires 2 <= radix <= 36
  {
    var P := MaxDigits(radix);
    P >= 1 && 2 * Pow(radix, P) < B * B && (radix == 2 || Pow(radix, P - 1) > M53)
  }

  const DBIGNUM_LEN_MAX: nat := 52

  /** The buffer is large enough to scale m * 2^(e - 53) by radix^f, and to scale back. */
  predicate RoomOk(radix: nat, e: int, f: int)
    requires 2 <= radix <= 36 && OddRadix(OddPart(radix))
  {
    var r1, s := OddPart(radix), Ctz(radix);
    && RoundRoom(r1, s, e - 53, f) <= DBIGNUM_LEN_MAX
    && 2 + Growth(r1, s, -f, false, 55) + 2 <= DBIGNUM_LEN_MAX
  }

  /** What the conversions need of the tables for a radix. */
  ghost predicate RadixOk(radix: nat) {
    && 2 <= radix <= 36 && OddRadix(OddPart(radix)) && MaxDigitsOk(radix)
    && (forall a :: -1074 <= a <= 1023 ==> LogOk(radix, a))
    && (forall e, E, P :: -1073 <= e <= 1024 && 1 <= P <= MaxDigits(radix) && NearE(e, E, radix) ==>
          RoomAt(radix, e, E, P))
  }

  predicate RoomAt(radix: nat, e: int, E: int, P: int)
    requires 2 <= radix <= 36 && OddRadix(OddPart(radix))
  {
    RoomOk(radix, e, P - E)
  }

  /** E is the first exponent that free format tries, or the next one. */
  predicate NearE(e: int, E: int, radix: nat)
    requires 2 <= radix <= 36
  {
    var E0 := 1 + MulLog2Radix(e - 1, radix);
    E == E0 || E == E0 + 1
  }

  // ----- radix 10: 2^485 < 10^146 and 10^351 < 2^1166 -------------------------------------------------

  lemma SmallPowers()
    ensures Pow(2, 1) == 2 && Pow(2, 2) == 4 && Pow(2, 3) == 8 && Pow(2, 4) == 16 && Pow(2, 9) == 512
    ensures Pow(2, 16) == 0x10000 && Pow(2, 17) == 0x20000 && Pow(2, 18) == 0x40000
  {
    hide Pow;
    PowFirst(2);
    PowNextTwo(1);
    PowNextTwo(2);
    PowNextTwo(3);
    PowAdd(2, 4, 4);
    PowNextTwo(8);
    PowAdd(2, 8, 8);
    PowNextTwo(16);
    PowNextTwo(17);
  }

  /** 10^n <= u * 2^s gives a bound for 10^(2n). */
  lemma UpSquare(n: nat, u: nat, s: nat, u': nat, t: nat)
    requires Pow(10, n) <= u * Pow(2, s) && u * u <= u' * Pow(2, t)
    ensures Pow(10, 2 * n) <= u' * Pow(2, 2 * s + t)
  {
    hide Pow;
    PowAdd(10, n, n);
    PowAdd(2, s, s);
    PowAdd(2, 2 * s, t);
    var p := Pow(2, s);
    Mono(Pow(10, n), u * p, Pow(10, n), u * p);
    assert (u * p) * (u * p) == (u * u) * (p * p) by { Products(u, p, u, p); }
    Mono(u * u, u' * Pow(2, t), p * p, p * p);
    assert (u' * Pow(2, t)) * (p * p) == u' * ((p * p) * Pow(2, t)) by { Assoc(u', Pow(2, t), p * p); }
  }

  lemma UpTimes(n: nat, u: nat, s: nat, u': nat, t: nat)
    requires Pow(10, n) <= u * Pow(2, s) && 10 * u <= u' * Pow(2, t)
    ensures Pow(10, n + 1) <= u' * Pow(2, s + t)
  {
    assert Pow(10, n + 1) == 10 * Pow(10, n);
    hide Pow;
    PowAdd(2, s, t);
    var p := Pow(2, s);
    Mono(10 * u, u' * Pow(2, t), p, p);
    Assoc(10, u, p);
    Assoc(u', Pow(2, t), p);
  }

  lemma DownSquare(n: nat, u: nat, s: nat, u': nat, t: nat)
    requires Pow(10, n) >= u * Pow(2, s) && u * u >= u' * Pow(2, t)
    ensures Pow(10, 2 * n) >= u' * Pow(2, 2 * s + t)
  {
    hide Pow;
    PowAdd(10, n, n);
    PowAdd(2, s, s);
    PowAdd(2, 2 * s, t);
    var p := Pow(2, s);
    Mono(u * p, Pow(10, n), u * p, Pow(10, n));
    assert (u * p) * (u * p) == (u * u) * (p * p) by { Products(u, p, u, p); }
    Mono(u' * Pow(2, t), u * u, p * p, p * p);
    assert (u' * Pow(2, t)) * (p * p) == u' * ((p * p) * Pow(2, t)) by { Assoc(u', Pow(2, t), p * p); }
  }

  lemma DownTimes(n: nat, u: nat, s: nat, u': nat, t: nat)
    requires Pow(10, n) >= u * Pow(2, s) && 10 * u >= u' * Pow(2, t)
    ensures Pow(10, n + 1) >= u' * Pow(2, s + t)
  {
    assert Pow(10, n + 1) == 10 * Pow(10, n);
    hide Pow;
    PowAdd(2, s, t);
    var p := Pow(2, s);
    Mono(u' * Pow(2, t), 10 * u, p, p);
    Assoc(10, u, p);
    Assoc(u', Pow(2, t), p);
  }

  lemma Products(a: int, b: int, c: int, d: int)
    ensures (a * b) * (c * d) == (a * c) * (b * d)
  {
    Assoc(a * b, c, d);
    Assoc(a, b, c);
    Assoc(a, c, b);
    Assoc(a * c, b, d);
  }

  lemma Pow10Below()
    ensures Pow(10, 351) < Pow(2, 1166)
  {
    hide Pow;
    SmallPowers();
    Pow10Five();
    UpSquare(5, 100000, 0, 152588, 16);
    UpSquare(10, 152588, 16, 177636, 17);
    UpTimes(20, 177636, 49, 222045, 3);
    UpSquare(21, 222045, 52, 188080, 18);
    UpTimes(42, 188080, 122, 235100, 3);
    UpSquare(43, 235100, 125, 210846, 18);
    UpTimes(86, 210846, 268, 131779, 4);
    UpSquare(87, 131779, 272, 132490, 17);
    UpTimes(174, 132490, 561, 165613, 3);
    UpSquare(175, 165613, 564, 209257, 17);
    UpTimes(350, 209257, 1145, 261572, 3);
    PowAdd(2, 1148, 18);
    LeMul(261572, 0x40000, Pow(2, 1148));
  }

  lemma Pow10Five()
    ensures Pow(10, 4) == 10000 && Pow(10, 5) == 100000 && Pow(2, 0) == 1
  {
    assert Pow(10, 2) == 100;
    PowAdd(10, 2, 2);
  }

  lemma Pow10Above()
    ensures Pow(2, 485) < Pow(10, 146)
  {
    hide Pow;
    SmallPowers();
    Pow10Five();
    DownSquare(4, 10000, 0, 195312, 9);
    DownTimes(8, 195312, 9, 244140, 3);
    DownSquare(9, 244140, 12, 227372, 18);
    DownSquare(18, 227372, 42, 197212, 18);
    DownSquare(36, 197212, 102, 148363, 18);
    DownTimes(72, 148363, 222, 185453, 3);
    DownSquare(73, 185453, 225, 131198, 18);
    PowAdd(2, 468, 17);
    LeMul(0x20000, 131198, Pow(2, 468));
  }

  // ----- comparing 10^p with 2^q ----------------------------------------------------------------------

  lemma {:induction false} PowLess(x: nat, y: nat, n: nat)
    requires x < y && n > 0
    ensures Pow(x, n) < Pow(y, n)
    decreases n
  {
    if n == 1 {
      PowFirst(x);
      PowFirst(y);
    } else {
      PowLess(x, y, n - 1);
      Mono(x, x, Pow(x, n - 1), Pow(y, n - 1));
      LeMul(x, y, Pow(y, n - 1));
    }
  }

  /** x^a < y^b and a * q' <= ..., in exponents: x^(a*q) against y^(b*q). */
  lemma PowRatio(x: nat, a: nat, y: nat, b: nat, q: nat)
    requires Pow(x, a) < Pow(y, b) && q > 0
    ensures Pow(x, a * q) < Pow(y, b * q)
  {
    hide Pow;
    PowMul(x, a, q);
    PowMul(y, b, q);
    PowLess(Pow(x, a), Pow(y, b), q);
  }

  /** p / q <= 351 / 1166 is below log10(2). */
  lemma RatioBelow(p: nat, q: nat)
    requires 1166 * p <= 351 * q && q > 0
    ensures Pow(10, p) < Pow(2, q)
  {
    hide Pow;
    Pow10Below();
    PowRatio(10, 351, 2, 1166, q);
    PowMono(10, p * 1166, 351 * q);
    PowMul(10, p, 1166);
    PowMul(2, q, 1166);
    assert 1166 * q == q * 1166;
    if Pow(2, q) <= Pow(10, p) { PowBase(Pow(2, q), Pow(10, p), 1166); assert false; }
  }

  /** p / q >= 146 / 485 is above log10(2). */
  lemma RatioAbove(p: nat, q: nat)
    requires 485 * p >= 146 * q && q > 0
    ensures Pow(2, q) < Pow(10, p)
  {
    hide Pow;
    Pow10Above();
    PowRatio(2, 485, 10, 146, q);
    PowMono(10, 146 * q, p * 485);
    PowMul(10, p, 485);
    PowMul(2, q, 485);
    assert 485 * q == q * 485;
    if Pow(10, p) <= Pow(2, q) { PowBase(Pow(10, p), Pow(2, q), 485); assert false; }
  }

  /** No fraction with a denominator below 1651 lies strictly between 351/1166 and 146/485. */
  lemma Farey(p: int, q: int)
    requires 0 < q < 1651
    ensures 1166 * p <= 351 * q || 485 * p >= 146 * q
  {
    // 485 * (1166 p - 351 q) + 1166 * (146 q - 485 p) == q
  }

  /** mul_log2_radix is exact for radix 10. */
  lemma Log10Ok(a: int)
    requires -1074 <= a <= 1023
    ensures LogOk(10, a)
  {
    hide Pow;
    TenParts();
    var k := MulLog2Radix(a, 10);
    assert k == a * 5050445 / 0x100_0000;
    if a > 0 {
      Farey(k, a);
      Farey(k + 1, a);
      RatioBelow(k, a);
      RatioAbove(k + 1, a);
    } else if a < 0 {
      Farey(-k, -a);
      Farey(-k - 1, -a);
      RatioAbove(-k, -a);
      RatioBelow(-k - 1, -a);
      Reciprocal(10, -k, 2, -a);
      Reciprocal(2, -a, 10, -k - 1);
    } else {
      PowFirst(10);
      PowFirst(2);
    }
  }

  lemma TenParts()
    ensures OddPart(10) == 5 && Ctz(10) == 1
  {
    assert OddPart(5) == 5 && Ctz(5) == 0;
  }

  lemma Reciprocal(x: nat, m: nat, y: nat, n: nat)
    requires x > 0 && y > 0 && Pow(y, n) < Pow(x, m)
    ensures 1.0 / (Pow(x, m) as real) < 1.0 / (Pow(y, n) as real)
  {
    hide Pow;
    var u, v := Pow(x, m) as real, Pow(y, n) as real;
    RDivMul(1.0, u);
    RDivMul(1.0, v);
    RPositive(u);
    Inverses(u, v, 1.0 / u, 1.0 / v);
  }

  lemma RPositive(u: real)
    requires u > 0.0
    ensures 1.0 / u > 0.0
  {
  }

  lemma Inverses(u: real, v: real, a: real, b: real)
    requires 0.0 < v < u && a * u == 1.0 && b * v == 1.0 && a > 0.0
    ensures a < b
  {
    RMono(v, u, a);
    RAssoc(a, v, 1.0);
    RAssoc(a, u, 1.0);
    assert a * v < b * v;
    RMono(a, b, v);
  }

  // ----- radix 10 -------------------------------------------------------------------------------------

  lemma FiveDigits()
    ensures LimbDigits(5, 13) && OddRadix(5)
  {
    assert Pow(5, 3) == 125;
    hide Pow;
    PowAdd(5, 3, 3);
    PowAdd(5, 6, 6);
    PowFirst(5);
    PowAdd(5, 12, 1);
  }

  lemma TenDigits()
    ensures MaxDigitsOk(10)
  {
    Pow10Five();
    hide Pow;
    PowFirst(10);
    PowAdd(10, 4, 4);
    PowAdd(10, 8, 8);
    PowAdd(10, 16, 1);
  }

  lemma TenRoom(e: int, E: int, P: int)
    requires -1073 <= e <= 1024 && 1 <= P <= 17 && NearE(e, E, 10)
    ensures OddRadix(OddPart(10)) && RoomAt(10, e, E, P)
  {
    hide Pow;
    TenParts();
    FiveDigits();
    assert DigitsPerLimb(5) == 13;
    var a := e - 1;
    var k := MulLog2Radix(a, 10);
    assert k == a * 5050445 / 0x100_0000;
    TenRoomUp(e, P - E, k);
    TenRoomDown(e, P - E, k);
  }

  /** Scaling by 10^f. */
  lemma TenRoomUp(e: int, f: int, k: int)
    requires -1073 <= e <= 1024 && k == (e - 1) * 5050445 / 0x100_0000 && -1 - k <= f <= 16 - k && OddRadix(5)
    ensures RoundRoom(5, 1, e - 53, f) <= DBIGNUM_LEN_MAX
  {
    hide Pow, OddRadix;
    assert DigitsPerLimb(5) == 13;
    if f >= 0 {
      assert k <= 16;
      assert e <= 60;
      assert f <= 340;
      assert CeilDiv(f, 13) <= 27;
    } else {
      assert -f <= 309;
      var l := CeilDiv(-f, 13);
      assert l <= 24;
      assert Extension(5, 1, -f, true, e - 53, 0) <= 32 * 31;
    }
  }

  /** Scaling back by 10^-f. */
  lemma TenRoomDown(e: int, f: int, k: int)
    requires -1073 <= e <= 1024 && k == (e - 1) * 5050445 / 0x100_0000 && -1 - k <= f <= 16 - k && OddRadix(5)
    ensures 2 + Growth(5, 1, -f, false, 55) + 2 <= DBIGNUM_LEN_MAX
  {
    hide Pow, OddRadix;
    assert DigitsPerLimb(5) == 13;
    assert -309 <= f <= 341;
    if f <= 0 {
      assert CeilDiv(-f, 13) <= 24;
    } else {
      assert CeilDiv(f, 13) <= 27;
      assert Extension(5, 1, f, false, 55, 0) <= 32 * 29;
    }
  }

  lemma TenOk()
    ensures RadixOk(10)
  {
    hide Pow, LogOk, RoomAt, OddRadix, MaxDigitsOk;
    TenParts();
    FiveDigits();
    TenDigits();
    forall a | -1074 <= a <= 1023 ensures LogOk(10, a) { Log10Ok(a); }
    forall e, E, P | -1073 <= e <= 1024 && 1 <= P <= MaxDigits(10) && NearE(e, E, 10) ensures RoomAt(10, e, E, P) {
      TenRoom(e, E, P);
    }
  }

  // ----- powers of two --------------------------------------------------------------------------------

  lemma BinaryParts(b: nat)
    requires 1 <= b <= 5
    ensures 2 <= Pow(2, b) <= 32 && OddPart(Pow(2, b)) == 1 && Ctz(Pow(2, b)) == b
  {
    hide Pow;
    SmallPowers();
    PowNextTwo(4);
    assert OddPart(1) == 1 && Ctz(1) == 0;
    assert OddPart(2) == 1 && Ctz(2) == 1;
    assert OddPart(4) == 1 && Ctz(4) == 2;
    assert OddPart(8) == 1 && Ctz(8) == 3;
    assert OddPart(16) == 1 && Ctz(16) == 4;
    assert OddPart(32) == 1 && Ctz(32) == 5;
  }

  lemma BinaryLog(b: nat, a: int)
    requires 1 <= b <= 5
    ensures 2 <= Pow(2, b) <= 36
    ensures var k := MulLog2Radix(a, Pow(2, b)); b * k <= a < b * (k + 1)
  {
    hide Pow, OddPart, Ctz;
    BinaryParts(b);
    if a < 0 {
      FloorTrunc(a, b);
    } else {
      DivRange(a, b);
    }
  }

  lemma FloorTrunc(a: int, b: nat)
    requires 1 <= b <= 5 && a < 0
    ensures var k := TruncDiv(a - (b - 1), b); b * k <= a < b * (k + 1)
  {
    var n := -(a - (b - 1));
    DivRange(n, b);
    assert b * (n / b) == n / b * b;
    Distrib(- (n / b), 1, b);
  }

  lemma BinaryLogOk(b: nat, a: int)
    requires 1 <= b <= 5
    ensures 2 <= Pow(2, b) <= 36 && LogOk(Pow(2, b), a)
  {
    hide Pow, RP, MulLog2Radix;
    BinaryLog(b, a);
    var k := MulLog2Radix(a, Pow(2, b));
    RPTwo(b, k);
    RPTwo(b, k + 1);
    RPMono(2, b * k, a);
    RPMono(2, a + 1, b * (k + 1));
    RPNext(2, a);
  }

  lemma BinaryDigits(b: nat)
    requires 1 <= b <= 5
    ensures 2 <= Pow(2, b) <= 36 && MaxDigitsOk(Pow(2, b))
  {
    hide Pow, MaxDigits;
    BinaryTable(b);
    var P := MaxDigits(Pow(2, b));
    PowMul(2, b, P);
    PowMul(2, b, P - 1);
    PowMono(2, b * P, 60);
    Pow64();
    Constants();
    if b > 1 {
      PowMono(2, 54, b * (P - 1));
      PowNextTwo(53);
    } else {
      PowFirst(2);
    }
  }

  lemma Pow64()
    ensures 2 * Pow(2, 60) < B * B
  {
    hide Pow;
    PowNextTwo(60);
    PowMono(2, 61, 63);
    PowNextTwo(63);
    PowAdd(2, 32, 32);
    Pow32();
  }

  lemma BinaryTable(b: nat)
    requires 1 <= b <= 5
    ensures 2 <= Pow(2, b) <= 36
    ensures var P := MaxDigits(Pow(2, b)); P >= 2 && b * P <= 60 && (b > 1 ==> b * (P - 1) >= 54)
  {
    SmallPowers();
    PowNextTwo(4);
    hide Pow;
    if b == 1 { assert MaxDigits(2) == 54; }
    else if b == 2 { assert MaxDigits(4) == 28; }
    else if b == 3 { assert MaxDigits(8) == 19; }
    else if b == 4 { assert MaxDigits(16) == 15; }
    else { assert MaxDigits(32) == 12; }
  }

  lemma BinaryRoom(b: nat, e: int, E: int, P: int)
    requires 1 <= b <= 5 && 2 <= Pow(2, b) <= 36 && 1 <= P <= MaxDigits(Pow(2, b)) && NearE(e, E, Pow(2, b))
    ensures OddRadix(OddPart(Pow(2, b))) && RoomAt(Pow(2, b), e, E, P)
  {
    hide Pow, OddPart, Ctz, MaxDigits, MulLog2Radix, RoundRoom, Growth;
    BinaryParts(b);
    BinaryTable(b);
    BinaryLog(b, e - 1);
    var k := MulLog2Radix(e - 1, Pow(2, b));
    BinaryExponent(b, e, E, P, k, MaxDigits(Pow(2, b)));
    BinaryRoomAt(b, e, P - E);
  }

  lemma BinaryExponent(b: nat, e: int, E: int, P: int, k: int, M: int)
    requires 1 <= b && e - 1 < b * (k + 1) && E >= k + 1 && b * M <= 60 && P <= M
    ensures (P - E) * b <= 60 - e
  {
    LeMul(k + 1, E, b);
    LeMul(P, M, b);
    Distrib(P, -E, b);
  }

  lemma BinaryRoomAt(b: nat, e: int, f: int)
    requires f * b <= 60 - e
    ensures RoundRoom(1, b, e - 53, f) <= DBIGNUM_LEN_MAX && 2 + Growth(1, b, -f, false, 55) + 2 <= DBIGNUM_LEN_MAX
  {
  }

  lemma BinaryOk(b: nat)
    requires 1 <= b <= 5
    ensures RadixOk(Pow(2, b))
  {
    hide Pow, LogOk, RoomAt, MaxDigitsOk, MaxDigits;
    BinaryParts(b);
    BinaryDigits(b);
    forall a | -1074 <= a <= 1023 ensures LogOk(Pow(2, b), a) { BinaryLogOk(b, a); }
    forall e, E, P | -1073 <= e <= 1024 && 1 <= P <= MaxDigits(Pow(2, b)) && NearE(e, E, Pow(2, b))
      ensures RoomAt(Pow(2, b), e, E, P)
    {
      BinaryRoom(b, e, E, P);
    }
  }
}
