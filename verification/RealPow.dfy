/**
 Powers with integer exponents and rounding over the real numbers: the terms in which the
 conversions between binary and radix digits are specified.
 */
module RealPow {
  import opened Limbs
  import opened Bignum
  import opened MulPow

  /** b^k for an exponent of either sign. */
  function RP(b: nat, k: int): (r: real)
    requires b > 0
    ensures r > 0.0
  {
    if k >= 0 then Pow(b, k) as real else 1.0 / (Pow(b, -k) as real)
  }

  function Ratio(n: nat, d: nat): (r: real)
    requires d > 0
    ensures r >= 0.0
  {
    n as real / d as real
  }

  // ----- real arithmetic ------------------------------------------------------------------------------

  lemma RAssoc(x: real, y: real, z: real)
    ensures x * (y * z) == (x * y) * z && x * y == y * x
  {
  }

  lemma RDistrib(x: real, y: real, z: real)
    ensures (x + y) * z == x * z + y * z && (x - y) * z == x * z - y * z
  {
  }

  lemma RMono(x: real, y: real, z: real)
    requires z > 0.0
    ensures x < y <==> x * z < y * z
    ensures x <= y <==> x * z <= y * z
    ensures x == y <==> x * z == y * z
  {
    if x < y { RLess(x, y, z); } else if y < x { RLess(y, x, z); }
  }

  lemma RLess(x: real, y: real, z: real)
    requires z > 0.0 && x < y
    ensures x * z < y * z
  {
    assert (y - x) * z > 0.0;
    RDistrib(y, x, z);
  }

  lemma RDiv(x: real, y: real, z: real)
    requires y != 0.0
    ensures x / y * y == x
    ensures (x / y) * z == x * z / y
  {
    RDivMul(x, y);
    RDivMul(x * z, y);
    RAssoc(x / y, y, z);
    RAssoc(x / y, z, y);
    RCancel((x / y) * z, x * z / y, y);
  }

  lemma RDivMul(x: real, y: real)
    requires y != 0.0
    ensures x / y * y == x
  {
  }

  lemma RCancel(x: real, y: real, z: real)
    requires z != 0.0 && x * z == y * z
    ensures x == y
  {
    assert (x - y) * z == 0.0 by { RDistrib(x, y, z); }
    if x - y != 0.0 { RNonZero(x - y, z); assert false; }
  }

  lemma RNonZero(x: real, z: real)
    requires x != 0.0 && z != 0.0
    ensures x * z != 0.0
  {
    if x > 0.0 && z > 0.0 { assert x * z > 0.0; }
    else if x > 0.0 { assert x * (-z) > 0.0; }
    else if z > 0.0 { assert (-x) * z > 0.0; }
    else { assert (-x) * (-z) > 0.0; }
  }

  lemma RInt(x: int, y: int)
    ensures (x * y) as real == (x as real) * (y as real)
  {
  }

  // ----- powers ---------------------------------------------------------------------------------------

  lemma RPNext(b: nat, k: int)
    requires b > 0
    ensures RP(b, k + 1) == b as real * RP(b, k)
  {
    if k >= 0 {
      RInt(b, Pow(b, k));
      assert Pow(b, k + 1) == b * Pow(b, k);
    } else {
      var x, y, c := Pow(b, -k) as real, Pow(b, -k - 1) as real, b as real;
      assert Pow(b, -k) == b * Pow(b, -k - 1);
      RInt(b, Pow(b, -k - 1));
      assert x == c * y;
      assert k + 1 == 0 ==> y == 1.0;
      RDivMul(1.0, x);
      RDivMul(1.0, y);
      RAssoc(c, 1.0 / x, y);
      RAssoc(1.0 / x, c, y);
      RCancel(c * (1.0 / x), 1.0 / y, y);
    }
  }

  lemma {:induction false} RPAdd(b: nat, j: int, k: int)
    requires b > 0
    ensures RP(b, j + k) == RP(b, j) * RP(b, k)
    decreases if j >= 0 then j else -j
  {
    hide Pow, RP;
    if j > 0 {
      RPAdd(b, j - 1, k);
      RPNext(b, j - 1 + k);
      RPNext(b, j - 1);
      RAssoc(b as real, RP(b, j - 1), RP(b, k));
    } else if j < 0 {
      RPAdd(b, j + 1, k);
      RPNext(b, j + k);
      RPNext(b, j);
      RAssoc(b as real, RP(b, j), RP(b, k));
      RAssoc(RP(b, j + k), b as real, 1.0);
      RAssoc(RP(b, j) * RP(b, k), b as real, 1.0);
      RCancel(RP(b, j + k), RP(b, j) * RP(b, k), b as real);
    } else {
      RPZero(b);
    }
  }

  lemma RPZero(b: nat)
    requires b > 0
    ensures RP(b, 0) == 1.0 && RP(b, 1) == b as real
  {
    PowFirst(b);
  }

  lemma {:induction false} RPBase(b: nat, c: nat, k: int)
    requires b > 0 && c > 0
    ensures b * c > 0 && RP(b * c, k) == RP(b, k) * RP(c, k)
    decreases if k >= 0 then k else -k
  {
    hide Pow, RP;
    MulPos(b, c);
    if k > 0 {
      RPBase(b, c, k - 1);
      BaseUp(b, c, k - 1);
    } else if k < 0 {
      RPBase(b, c, k + 1);
      BaseDown(b, c, k);
    } else {
      RPZero(b);
      RPZero(c);
      RPZero(b * c);
    }
  }

  lemma BaseUp(b: nat, c: nat, k: int)
    requires b > 0 && c > 0 && b * c > 0 && RP(b * c, k) == RP(b, k) * RP(c, k)
    ensures RP(b * c, k + 1) == RP(b, k + 1) * RP(c, k + 1)
  {
    hide Pow, RP;
    RInt(b, c);
    RPNext(b * c, k);
    RPNext(b, k);
    RPNext(c, k);
    Swap(b as real, c as real, RP(b, k), RP(c, k));
  }

  lemma BaseDown(b: nat, c: nat, k: int)
    requires b > 0 && c > 0 && b * c > 0 && RP(b * c, k + 1) == RP(b, k + 1) * RP(c, k + 1)
    ensures RP(b * c, k) == RP(b, k) * RP(c, k)
  {
    hide Pow, RP;
    RInt(b, c);
    RPNext(b * c, k);
    RPNext(b, k);
    RPNext(c, k);
    SwapBack(b as real, c as real, RP(b, k), RP(c, k), RP(b * c, k));
  }

  lemma SwapBack(x: real, y: real, p: real, q: real, r: real)
    requires x > 0.0 && y > 0.0 && (x * y) * r == (x * p) * (y * q)
    ensures r == p * q
  {
    Swap(x, y, p, q);
    RAssoc(r, x * y, 1.0);
    RAssoc(p * q, x * y, 1.0);
    RCancel(r, p * q, x * y);
  }

  lemma Swap(x: real, y: real, p: real, q: real)
    ensures (x * y) * (p * q) == (x * p) * (y * q)
  {
    RAssoc(x * y, p, q);
    RAssoc(x, y, p);
    RAssoc(x, p, y);
    RAssoc(x * p, y, q);
  }

  lemma AtLeastOne(b: nat, k: nat)
    requires b > 0
    ensures RP(b, k) >= 1.0
  {
    hide Pow;
    PowMono(b, 0, k);
    PowFirst(b);
  }

  lemma SixIs()
    ensures RP(2, 6) == 64.0
  {
    assert Pow(2, 3) == 8;
    PowAdd(2, 3, 3);
  }


  lemma RPMono(b: nat, j: int, k: int)
    requires b > 0 && j <= k
    ensures RP(b, j) <= RP(b, k)
  {
    hide Pow, RP;
    RPAdd(b, k - j, j);
    AtLeastOne(b, k - j);
    var x, y := RP(b, k - j), RP(b, j);
    assert RP(b, k) == x * y;
    RMono(1.0, x, y);
    assert 1.0 * y == y;
  }

  /** A power of two as a radix. */
  lemma {:induction false} RPTwo(s: nat, k: int)
    ensures Pow(2, s) > 0 && RP(Pow(2, s), k) == RP(2, s * k)
    decreases s
  {
    hide Pow, RP;
    if s == 0 {
      PowZero();
      RPZero(2);
      RPOne(k);
      assert s * k == 0;
    } else {
      RPTwo(s - 1, k);
      PowNextTwo(s - 1);
      RPBase(2, Pow(2, s - 1), k);
      RPAdd(2, k, (s - 1) * k);
      Distrib(s - 1, 1, k);
      assert s * k == k + (s - 1) * k;
    }
  }

  lemma RPOne(k: int)
    ensures RP(1, k) == 1.0
  {
    PowOne(if k >= 0 then k else -k);
  }

  // ----- scaling --------------------------------------------------------------------------------------

  /** x * b^k. */
  function Scale(b: nat, x: real, k: int): real
    requires b > 0
  {
    x * RP(b, k)
  }

  lemma ScaleScale(b: nat, x: real, j: int, k: int)
    requires b > 0
    ensures Scale(b, Scale(b, x, j), k) == Scale(b, x, j + k)
  {
    hide RP;
    RPAdd(b, j, k);
    RAssoc(x, RP(b, j), RP(b, k));
  }

  /** Scaling in two bases commutes. */
  lemma ScaleSwap(b: nat, c: nat, x: real, j: int, k: int)
    requires b > 0 && c > 0
    ensures Scale(c, Scale(b, x, j), k) == Scale(b, Scale(c, x, k), j)
  {
    hide RP;
    RAssoc(x, RP(b, j), RP(c, k));
    RAssoc(x, RP(c, k), RP(b, j));
  }

  lemma ScaleMono(b: nat, x: real, y: real, k: int)
    requires b > 0
    ensures x < y <==> Scale(b, x, k) < Scale(b, y, k)
    ensures x <= y <==> Scale(b, x, k) <= Scale(b, y, k)
    ensures x == y <==> Scale(b, x, k) == Scale(b, y, k)
  {
    hide RP;
    RMono(x, y, RP(b, k));
  }

  lemma ScaleAdd(b: nat, x: real, y: real, k: int)
    requires b > 0
    ensures Scale(b, x + y, k) == Scale(b, x, k) + Scale(b, y, k)
    ensures Scale(b, x - y, k) == Scale(b, x, k) - Scale(b, y, k)
  {
    hide RP;
    RDistrib(x, y, RP(b, k));
  }

  lemma ScaleZero(b: nat, x: real)
    requires b > 0
    ensures Scale(b, x, 0) == x && Scale(b, 0.0, 0) == 0.0
  {
    RPZero(b);
  }

  lemma ScaleNothing(b: nat, k: int)
    requires b > 0
    ensures Scale(b, 0.0, k) == 0.0 && Scale(b, 1.0, k) == RP(b, k)
  {
  }

  lemma ScaleInt(b: nat, m: int, k: nat)
    requires b > 0
    ensures Scale(b, m as real, k) == (m * Pow(b, k)) as real
  {
    hide Pow;
    RInt(m, Pow(b, k));
  }

  // ----- rounding -------------------------------------------------------------------------------------

  function Abs(x: real): real { if x < 0.0 then -x else x }

  function RoundR(y: real, mode: Rounding): int {
    var q := y.Floor;
    var r := y - q as real;
    match mode
    case RNDZ => q
    case RNDNA => if r >= 0.5 then q + 1 else q
    case RNDN => if r > 0.5 || (r == 0.5 && q % 2 == 1) then q + 1 else q
  }

  /** What the rounding modes mean: down, nearest with ties to even, nearest with ties up. */
  lemma RoundMeans(y: real, k: int)
    ensures RoundR(y, RNDZ) as real <= y && (k as real <= y ==> k <= RoundR(y, RNDZ))
    ensures Abs(y - RoundR(y, RNDN) as real) <= Abs(y - k as real)
    ensures Abs(y - RoundR(y, RNDN) as real) == Abs(y - k as real) && k != RoundR(y, RNDN) ==> RoundR(y, RNDN) % 2 == 0
    ensures Abs(y - RoundR(y, RNDNA) as real) <= Abs(y - k as real)
    ensures Abs(y - RoundR(y, RNDNA) as real) == Abs(y - k as real) && k != RoundR(y, RNDNA) ==> RoundR(y, RNDNA) > k
  {
  }

  /** Rounding a fraction of integers. */
  lemma RoundFraction(n: nat, d: nat, mode: Rounding)
    requires d > 0
    ensures RoundR(Ratio(n, d), mode) == RoundDiv(n, d, mode)
  {
    var q, r := n / d, n % d;
    var y, D := n as real / d as real, d as real;
    RDivMul(n as real, D);
    RInt(q, d);
    assert n == q * d + r;
    var Q, R := q as real, r as real;
    assert y * D == Q * D + R;
    FloorParts(y, D, q, R);
  }

  /** y == q + R / D. */
  lemma FloorParts(y: real, D: real, q: int, R: real)
    requires D > 0.0 && y * D == q as real * D + R && 0.0 <= R < D
    ensures y.Floor == q
    ensures (y - q as real > 0.5 <==> 2.0 * R > D) && (y - q as real == 0.5 <==> 2.0 * R == D)
  {
    FloorBounds(y, D, q as real, R);
    HalfBounds(y, D, q as real, R);
  }

  lemma FloorBounds(y: real, D: real, Q: real, R: real)
    requires D > 0.0 && y * D == Q * D + R && 0.0 <= R < D
    ensures Q <= y < Q + 1.0
  {
    RMono(Q, y, D);
    RMono(y, Q + 1.0, D);
    assert (Q + 1.0) * D == Q * D + D;
  }

  lemma HalfBounds(y: real, D: real, Q: real, R: real)
    requires D > 0.0 && y * D == Q * D + R
    ensures (y - Q > 0.5 <==> 2.0 * R > D) && (y - Q == 0.5 <==> 2.0 * R == D)
  {
    RMono(Q + 0.5, y, D);
    assert (Q + 0.5) * D == Q * D + 0.5 * D;
  }

  /** The fraction that mul_pow_round rounds. */
  lemma FractionReal(m: nat, e2: int, radix1: nat, f: int)
    requires radix1 > 0
    ensures Den(e2, radix1, f) > 0
    ensures Ratio(Num(m, e2, radix1, f), Den(e2, radix1, f)) == Scale(radix1, Scale(2, m as real, e2), f)
  {
    hide Pow, RP;
    var a, b := Pow(2, MaxI(e2, 0)), Pow(radix1, MaxI(f, 0));
    var c, d := Pow(2, MaxI(-e2, 0)), Pow(radix1, MaxI(-f, 0));
    RInt(m, a);
    RInt(m * a, b);
    RInt(c, d);
    MulPos(c, d);
    PartQuotient(2, e2, a, c);
    PartQuotient(radix1, f, b, d);
    QuotientOfParts(m as real, RP(2, e2), RP(radix1, f), a as real, b as real, c as real, d as real);
  }

  lemma QuotientOfParts(m: real, x: real, y: real, a: real, b: real, c: real, d: real)
    requires a == x * c && b == y * d && c > 0.0 && d > 0.0
    ensures c * d > 0.0 && m * a * b / (c * d) == m * x * y
  {
    RNonZero(c, d);
    Swap(x, y, c, d);
    RAssoc(m, x * y, c * d);
    RAssoc(m, a, b);
    RAssoc(m, x, y);
    assert m * a * b == (m * x * y) * (c * d);
    RDivMul(m * a * b, c * d);
    RCancel(m * a * b / (c * d), m * x * y, c * d);
  }

  lemma PartQuotient(b: nat, e: int, p: nat, q: nat)
    requires b > 0 && p == Pow(b, MaxI(e, 0)) && q == Pow(b, MaxI(-e, 0))
    ensures p as real == RP(b, e) * q as real
  {
    hide Pow;
    PowFirst(b);
    if e < 0 { RDivMul(1.0, q as real); }
  }
}
