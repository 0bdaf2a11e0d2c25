/**
 The rounded float is the closest one, and a number close enough to a float rounds to it.
 */
module FloatSpacing {
  import opened Limbs
  import opened Bignum
  import opened MulPow
  import opened RealPow
  import opened DoubleRounding

  /** n * 2^k; the exponent has no upper limit. */
  ghost predicate IsFloat(v: real) {
    exists n: int, k: int :: 0 <= n <= M53 && k >= -1074 && v == FloatAt(n, k)
  }

  function FloatAt(n: int, k: int): real { Scale(2, n as real, k) }

  /** A finite non-zero float in the form that js_dtoa uses. */
  predicate Finite(m: int, e: int) {
    M52 <= m < M53 && -1073 <= e <= 1024 && (e < -1021 ==> m % Pow(2, -1021 - e) == 0)
  }

  lemma FiniteIsFloat(m: int, e: int)
    requires Finite(m, e)
    ensures IsFloat(ValueOf(m, e))
  {
    hide Scale, Pow;
    if e < -1021 {
      var p := Pow(2, -1021 - e);
      var n := m / p;
      assert m == n * p;
      ScaleInt(2, n, -1021 - e);
      ScaleScale(2, n as real, -1021 - e, e - 53);
      LeMul(n, 0, p);
      Mono(n, n, 1, p);
      assert ValueOf(m, e) == FloatAt(n, -1074);
    } else {
      assert ValueOf(m, e) == FloatAt(m, e - 53);
    }
  }

  // ----- closest --------------------------------------------------------------------------------------

  lemma RoundNearest(Y: real, t: int)
    ensures Abs(Y - RoundR(Y, RNDN) as real) <= Abs(Y - t as real)
    ensures Abs(Y - RoundR(Y, RNDN) as real) <= 0.5
    ensures Abs(Y - RoundR(Y, RNDN) as real) == 0.5 ==> RoundR(Y, RNDN) % 2 == 0
  {
    var k := Y.Floor;
    var r := Y - k as real;
    assert 0.0 <= r < 1.0;
    if t <= k { IntLe(t, k); } else { IntLe(k + 1, t); }
  }

  lemma IntLe(a: int, b: int)
    requires a <= b
    ensures a as real <= b as real
  {
  }

  /** Distances scale. */
  lemma AbsScale(x: real, y: real, k: int)
    ensures Abs(Scale(2, x, k) - Scale(2, y, k)) == Scale(2, Abs(x - y), k)
  {
    hide Scale;
    ScaleAdd(2, x, y, k);
    ScaleMono(2, x, y, k);
    ScaleAdd(2, y, x, k);
  }

  lemma ScaleBack(x: real, k: int)
    ensures Scale(2, Scale(2, x, -k), k) == x
  {
    hide Scale;
    ScaleScale(2, x, -k, k);
    ScaleZero(2, x);
  }

  /** The grid of y contains every float that could be closer. */
  lemma GridCovers(y: real, e: int, v: real) returns (t: int)
    requires Bracket(y, e) && IsFloat(v)
    ensures Abs(y - Scale(2, t as real, Grid(e))) <= Abs(y - v)
  {
    hide Scale, Pow, RP;
    var n: int, k: int :| 0 <= n <= M53 && k >= -1074 && v == FloatAt(n, k);
    var g := Grid(e);
    if k >= g {
      t := n * Pow(2, k - g);
      ScaleInt(2, n, k - g);
      ScaleScale(2, n as real, k - g, g);
    } else {
      // below the binade of y, the lower end of the binade is at least as close
      t := M52;
      BinadeStart(e);
      FloatBelow(n, k, e);
    }
  }

  lemma BinadeStart(e: int)
    ensures Scale(2, M52 as real, e - 53) == RP(2, e - 1)
  {
    hide Scale, Pow, RP;
    Constants();
    ScaleInt(2, 1, 52);
    ScaleScale(2, 1.0, 52, e - 53);
    ScaleNothing(2, e - 1);
  }

  lemma FloatBelow(n: int, k: int, e: int)
    requires n <= M53 && k < e - 53
    ensures Scale(2, n as real, k) <= RP(2, e - 1)
  {
    hide Scale, Pow, RP;
    ScaleMono(2, n as real, M53 as real, k);
    Constants();
    ScaleInt(2, 1, 53);
    ScaleScale(2, 1.0, 53, k);
    ScaleNothing(2, k + 53);
    RPMono(2, k + 53, e - 1);
  }

  /** No float is closer to y than the rounded one; on a tie the rounded mantissa is even. */
  lemma RoundedClosest(y: real, e: int, v: real)
    requires Bracket(y, e) && IsFloat(v)
    ensures Abs(y - Rounded(y, e, RNDN)) <= Abs(y - v)
    ensures Abs(y - Rounded(y, e, RNDN)) == Scale(2, 0.5, Grid(e)) ==> RoundR(Scale(2, y, -Grid(e)), RNDN) % 2 == 0
  {
    hide Scale, RoundR, IsFloat, Bracket;
    var t := GridCovers(y, e, v);
    var g := Grid(e);
    var Y := Scale(2, y, -g);
    var q := RoundR(Y, RNDN);
    ScaleBack(y, g);
    RoundNearest(Y, t);
    AbsScale(Y, q as real, g);
    AbsScale(Y, t as real, g);
    ScaleMono(2, Abs(Y - q as real), Abs(Y - t as real), g);
    ScaleMono(2, Abs(Y - q as real), 0.5, g);
  }

  lemma RoundedIsFloat(y: real, e: int)
    requires Bracket(y, e)
    ensures IsFloat(Rounded(y, e, RNDN))
  {
    hide Scale, RoundR, RP;
    var g := Grid(e);
    var Y := Scale(2, y, -g);
    BracketScale(y, e - 1, -g);
    RPMono(2, e - g, 53);
    ScaleNothing(2, 53);
    MantissaRange(Y, e - g, RoundR(Y, RNDN), RNDN);
    assert Rounded(y, e, RNDN) == FloatAt(RoundR(Y, RNDN), g);
  }

  // ----- spacing --------------------------------------------------------------------------------------

  /** Two different floats are apart by at least the spacing at the larger one, which is halved
      just below a power of two. */
  lemma FloatGap(m: int, e: int, v: real)
    requires M52 <= m < M53 && IsFloat(v) && v != ValueOf(m, e)
    ensures Abs(v - ValueOf(m, e)) >= Scale(2, if m > M52 then 1.0 else 0.5, e - 53)
  {
    hide Scale, Pow;
    var n: int, k: int :| 0 <= n <= M53 && k >= -1074 && v == FloatAt(n, k);
    var j := k + 53 - e;
    var V := Scale(2, n as real, j);
    ScaleScale(2, n as real, j, e - 53);
    AbsScale(V, m as real, e - 53);
    if j >= 0 {
      ScaleInt(2, n, j);
      IntGap(n * Pow(2, j), m);
    } else {
      SmallFloat(n, j);
    }
    ScaleMono(2, if m > M52 then 1.0 else 0.5, Abs(V - m as real), e - 53);
  }

  lemma IntGap(x: int, y: int)
    ensures x != y ==> Abs(x as real - y as real) >= 1.0
  {
  }

  lemma SmallFloat(n: int, j: int)
    requires 0 <= n <= M53 && j < 0
    ensures var V := Scale(2, n as real, j); V == M52 as real || V <= M52 as real - 0.5
  {
    hide Scale, RP;
    ScaleMono(2, n as real, M53 as real, j);
    Halving(n as real, j);
    Halving(M53 as real, j);
    if j <= -2 {
      RPMono(2, j, -2);
      Quarter(j);
    } else {
      Half(n);
    }
  }

  lemma Halving(x: real, j: int)
    ensures Scale(2, x, j) == x * RP(2, j)
  {
  }

  lemma Half(n: int)
    ensures Scale(2, n as real, -1) == n as real / 2.0
  {
    assert RP(2, -1) == 0.5;
  }

  lemma Quarter(j: int)
    requires j <= -2
    ensures Scale(2, M53 as real, j) <= M53 as real / 4.0
  {
    RPMono(2, j, -2);
    assert Pow(2, 2) == 4;
    assert RP(2, -2) == 0.25;
    hide RP;
    RMono(RP(2, j), 0.25, M53 as real);
    RAssoc(M53 as real, RP(2, j), 1.0);
  }

  lemma NormalUnique(m: int, e: int, m1: int, e1: int)
    requires M52 <= m < M53 && Normalised(m1) && ValueOf(m1, e1) == ValueOf(m, e)
    ensures m1 == m && e1 == e
  {
    hide Scale, Pow;
    if m1 == 0 {
      ZeroValue(e1, e);
      ScaleMono(2, 0.0, m as real, e - 53);
      assert false;
    } else if e1 >= e {
      SameBinade(m1, e1, m, e);
    } else {
      SameBinade(m, e, m1, e1);
    }
  }

  lemma ZeroValue(e1: int, e: int)
    ensures Scale(2, 0.0, e1 - 53) == 0.0 && Scale(2, 0.0, e - 53) == 0.0
  {
  }

  lemma SameBinade(m1: int, e1: int, m: int, e: int)
    requires M52 <= m < M53 && M52 <= m1 < M53 && e1 >= e && ValueOf(m1, e1) == ValueOf(m, e)
    ensures m1 == m && e1 == e
  {
    hide Scale, Pow;
    var d := e1 - e;
    ScaleInt(2, m1, d);
    ScaleScale(2, m1 as real, d, e - 53);
    ScaleMono(2, (m1 * Pow(2, d)) as real, m as real, e - 53);
    assert m1 * Pow(2, d) == m;
    PowFirst(2);
    if d > 0 {
      PowTwoAt(d);
      Mono(m1, m1, 2, Pow(2, d));
      assert false;
    }
  }

  // ----- close numbers round back ---------------------------------------------------------------------

  /** y is within half the spacing around the float (m, e). */
  predicate Near(y: real, m: int, e: int) {
    Abs(y - ValueOf(m, e)) < Scale(2, if m > M52 then 0.5 else 0.25, e - 53)
  }

  /** The binade of a number near a float. */
  lemma NearBracket(y: real, m: int, e: int)
    requires M52 <= m < M53 && Near(y, m, e)
    ensures Bracket(y, e) || Bracket(y, e - 1)
  {
    hide Scale, RP;
    var x, g := ValueOf(m, e), e - 53;
    ScaleMono(2, m as real, M52 as real, g);
    ScaleMono(2, M53 as real - 1.0, m as real, g);
    ScaleAdd(2, M53 as real, 1.0, g);
    ScaleMono(2, 0.5, 1.0, g);
    ScaleMono(2, 0.25, 0.5, g);
    BinadeStart(e);
    BinadeStart(e + 1);
    CarryOut(e);
    // below: x - y stays far above 2^(e - 2)
    ScaleAdd(2, M52 as real, 0.5, g);
    RPNext(2, e - 2);
    HalfBinade(e);
    ScaleMono(2, M52 as real / 2.0, M52 as real - 0.5, g);
  }

  lemma HalfBinade(e: int)
    ensures Scale(2, M52 as real / 2.0, e - 53) == RP(2, e - 2)
  {
    hide Scale, RP;
    BinadeStart(e - 1);
    Half(M52);
    ScaleScale(2, M52 as real, -1, e - 53);
  }

  /** A number near a float rounds to this float. */
  lemma NearConverts(y: real, m: int, e: int)
    requires Finite(m, e) && Near(y, m, e)
    ensures RoundsTo(y, m, e, RNDN)
  {
    hide Scale, RoundR, IsFloat, Bracket, Rounded;
    NearBracket(y, m, e);
    var e0 := if Bracket(y, e) then e else e - 1;
    var x, r := ValueOf(m, e), Rounded(y, e0, RNDN);
    FiniteIsFloat(m, e);
    RoundedClosest(y, e0, x);
    RoundedIsFloat(y, e0);
    var h := if m > M52 then 0.5 else 0.25;
    ScaleAdd(2, h, h, e - 53);
    if r != x {
      FloatGap(m, e, r);
      assert false;
    }
  }

  lemma ExactConverts(m: int, e: int)
    requires Finite(m, e)
    ensures RoundsTo(ValueOf(m, e), m, e, RNDN)
  {
    hide RoundsTo, Pow, RP;
    NearConverts(ValueOf(m, e), m, e);
  }

  lemma BracketUnique(y: real, e: int, e': int)
    requires Bracket(y, e) && Bracket(y, e')
    ensures e == e'
  {
    hide RP;
    if e < e' { RPMono(2, e, e' - 1); assert false; }
    if e' < e { RPMono(2, e', e - 1); assert false; }
  }

  /** The rounded float is unique. */
  lemma RoundsToUnique(y: real, m: int, e: int, m1: int, e1: int)
    requires RoundsTo(y, m, e, RNDN) && RoundsTo(y, m1, e1, RNDN) && m != 0
    ensures m1 == m && e1 == e
  {
    hide Scale, Bracket, Rounded;
    var e0 :| Bracket(y, e0) && ValueOf(m, e) == Rounded(y, e0, RNDN);
    var e0' :| Bracket(y, e0') && ValueOf(m1, e1) == Rounded(y, e0', RNDN);
    BracketUnique(y, e0, e0');
    NormalUnique(m, e, m1, e1);
  }
}
