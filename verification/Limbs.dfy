/**
 Multi-limb arithmetic on little-endian arrays of 32-bit limbs, as the mp_* functions of dtoa.c
 do it, always in place. Shifts and masks are written as divisions and remainders.
 */
module Limbs {

  const B: int := 0x1_0000_0000

  type limb = x: int | 0 <= x < 0x1_0000_0000

  function Pow(b: nat, n: nat): (r: nat)
    ensures b > 0 ==> r > 0
  {
    if n == 0 then 1 else b * Pow(b, n - 1)
  }

  /** The number a limb sequence stands for. */
  function Value(s: seq<limb>): nat { if s == [] then 0 else s[0] + B * Value(s[1..]) }

  // ----- powers ---------------------------------------------------------------------------------------

  lemma {:induction false} PowAdd(b: nat, m: nat, n: nat)
    ensures Pow(b, m + n) == Pow(b, m) * Pow(b, n)
    decreases m
  {
    if m > 0 {
      PowAdd(b, m - 1, n);
      Assoc(b, Pow(b, m - 1), Pow(b, n));
    }
  }

  lemma MulPos(x: int, y: int)
    requires x > 0 && y > 0
    ensures x * y > 0
  {
  }

  lemma Assoc(x: int, y: int, z: int)
    ensures x * (y * z) == (x * y) * z
  {
  }

  lemma Distrib(x: int, y: int, z: int)
    ensures (x + y) * z == x * z + y * z && x * (y + z) == x * y + x * z
  {
  }

  /** A number below B times p plus a carry, spread over two places. */
  lemma Carry(lo: int, hi: int, p: int)
    ensures (lo + B * hi) * p == lo * p + hi * (B * p)
  {
    Distrib(lo, B * hi, p);
    Assoc(hi, B, p);
  }

  // ----- values ---------------------------------------------------------------------------------------

  lemma {:induction false} ValueAppend(s: seq<limb>, t: seq<limb>)
    ensures Value(s + t) == Value(s) + Pow(B, |s|) * Value(t)
    decreases s
  {
    if s == [] {
      assert s + t == t;
    } else {
      assert (s + t)[1..] == s[1..] + t;
      ValueAppend(s[1..], t);
      var p, v := Pow(B, |s| - 1), Value(t);
      Distrib(B, Value(s[1..]), p * v);
      Assoc(B, p, v);
    }
  }

  lemma ValueSnoc(s: seq<limb>, x: limb)
    ensures Value(s + [x]) == Value(s) + x * Pow(B, |s|)
  {
    ValueOne(x);
    hide Value, Pow;
    ValueAppend(s, [x]);
  }

  lemma ValueOne(x: limb)
    ensures Value([x]) == x
  {
    assert [x][1..] == [];
  }

  lemma {:induction false} ValueBound(s: seq<limb>)
    ensures Value(s) < Pow(B, |s|)
    decreases s
  {
    if s != [] { ValueBound(s[1..]); }
  }

  /** One more limb of an array. */
  lemma ValueStep(a: array<limb>, i: nat)
    requires i < a.Length
    ensures Value(a[..i + 1]) == Value(a[..i]) + a[i] * Pow(B, i)
  {
    assert a[..i + 1] == a[..i] + [a[i]];
    ValueSnoc(a[..i], a[i]);
  }

  lemma ValueSplit(s: seq<limb>, i: nat)
    requires i <= |s|
    ensures Value(s) == Value(s[..i]) + Pow(B, i) * Value(s[i..])
  {
    assert s == s[..i] + s[i..];
    ValueAppend(s[..i], s[i..]);
  }

  // ----- addition and multiplication ------------------------------------------------------------------

  /** mp_add_ui: adds b to the lowest n limbs and returns the carry. */
  method MpAddUi(tab: array<limb>, b: limb, n: nat) returns (k: limb)
    requires n <= tab.Length
    modifies tab
    ensures Value(tab[..n]) + k * Pow(B, n) == old(Value(tab[..n])) + b
    ensures tab[n..] == old(tab[n..]) && (n > 0 && b <= 1 ==> k <= 1)
  {
    hide Value, Pow;
    k := b;
    var i := 0;
    ValueNone();
    while i < n && k != 0
      invariant i <= n && tab[i..] == old(tab[i..])
      invariant Value(tab[..i]) + k * Pow(B, i) == old(Value(tab[..i])) + b
      invariant b <= 1 ==> k <= 1
      decreases n - i
    {
      ghost var x: int, k0: int, w := tab[i], k, Value(tab[..i]);
      UntouchedStep(tab[..], old(tab[..]), i);
      ValueStepOld(old(tab[..]), i);
      var a: int := (tab[i] + k) % B;
      k := if a < k then 1 else 0;
      tab[i] := a;
      ValueStep(tab, i);
      CarryStep(w, old(Value(tab[..i])), x, a, k0, k, Pow(B, i), b);
      PowNext(B, i);
      i := i + 1;
    }
    if i < n { SameAbove(tab[..], old(tab[..]), i, n); }
  }

  /** Limbs that stay the same above i. */
  lemma SameAbove(s: seq<limb>, t: seq<limb>, i: nat, n: nat)
    requires i <= n <= |s| == |t| && s[i..] == t[i..]
    ensures Value(s[..n]) - Value(s[..i]) == Value(t[..n]) - Value(t[..i]) && s[n..] == t[n..]
  {
    hide Value, Pow;
    ValueSplit(s[..n], i);
    ValueSplit(t[..n], i);
    assert s[..n][..i] == s[..i] && t[..n][..i] == t[..i];
    assert s[..n][i..] == s[i..][..n - i] && t[..n][i..] == t[i..][..n - i];
    assert s[n..] == s[i..][n - i..] && t[n..] == t[i..][n - i..];
  }

  lemma UntouchedStep(s: seq<limb>, t: seq<limb>, i: nat)
    requires |s| == |t| && i < |s| && s[i..] == t[i..]
    ensures s[i] == t[i] && s[i + 1..] == t[i + 1..]
  {
    assert s[i..][1..] == s[i + 1..] && t[i..][1..] == t[i + 1..];
    assert s[i..][0] == t[i..][0];
  }

  lemma ValueNone()
    ensures Value([]) == 0 && Pow(B, 0) == 1
  {
  }

  lemma PowNext(b: nat, n: nat)
    ensures Pow(b, n + 1) == b * Pow(b, n)
  {
  }

  lemma ValueStepOld(s: seq<limb>, i: nat)
    requires i < |s|
    ensures Value(s[..i + 1]) == Value(s[..i]) + s[i] * Pow(B, i)
  {
    assert s[..i + 1] == s[..i] + [s[i]];
    ValueSnoc(s[..i], s[i]);
  }

  /** One limb of a sum: a and the carry k for the limb x and the carry k0. */
  lemma CarryStep(w: int, v: int, x: int, a: int, k0: int, k: int, p: int, b: int)
    requires w + k0 * p == v + b && a + k * B == x + k0
    ensures w + a * p + k * (B * p) == v + x * p + b
  {
    Distrib(x, k0, p);
    Carry(a, k, p);
  }

  /** mp_mul1: multiplies n limbs by b, adds l and returns the high carry. */
  method MpMul1(tab: array<limb>, n: nat, b: limb, l: limb) returns (h: limb)
    requires n <= tab.Length
    modifies tab
    ensures Value(tab[..n]) + h * Pow(B, n) == old(Value(tab[..n])) * b + l
    ensures tab[n..] == old(tab[n..]) && (l < b ==> h < b)
  {
    hide Value, Pow;
    h := l;
    var i := 0;
    ValueNone();
    while i < n
      invariant i <= n && tab[i..] == old(tab[i..]) && (l < b ==> h < b)
      invariant Value(tab[..i]) + h * Pow(B, i) == old(Value(tab[..i])) * b + l
    {
      ghost var x: int, h0: int, w := tab[i], h, Value(tab[..i]);
      UntouchedStep(tab[..], old(tab[..]), i);
      ValueStepOld(old(tab[..]), i);
      MulFits(tab[i], b, h);
      var t: int := tab[i] * b + h;
      h := t / B;
      tab[i] := t % B;
      ValueStep(tab, i);
      ProductStep(w, old(Value(tab[..i])), x, t % B, h0, t / B, b, Pow(B, i), l);
      PowNext(B, i);
      i := i + 1;
    }
  }

  lemma MulFits(x: limb, b: limb, h: limb)
    ensures 0 <= x * b + h < B * B && (x * b + h) / B < B && (h < b ==> (x * b + h) / B < b)
  {
    if b > 0 { LeMul(x, B - 1, b); }
    FitsBelow(x * b, b, h);
  }

  lemma FitsBelow(p: int, b: limb, h: limb)
    requires p <= (B - 1) * b
    ensures p + h < B * B && (p + h) / B < B && (h < b ==> (p + h) / B < b)
  {
  }

  lemma MulStep(v: int, x: int, b: int, h: int, p: int)
    ensures (v + x * p) * b + (h * p) == v * b + (x * b + h) * p
  {
    Distrib(v, x * p, b);
    Distrib(x * b, h, p);
    assert (x * p) * b == (x * b) * p by { Assoc(x, p, b); Assoc(x, b, p); }
  }

  /** One limb of a product by s: t and the carry l for the limb a and the carry l0. */
  lemma ProductStep(w: int, v: int, a: int, t: int, l0: int, l: int, s: int, p: int, low: int)
    requires w + l0 * p == v * s + low && t + l * B == a * s + l0
    ensures w + t * p + l * (B * p) == (v + a * p) * s + low
  {
    Carry(t, l, p);
    MulStep(v, a, s, l0, p);
  }

  // ----- division -------------------------------------------------------------------------------------

  /** mp_div1: divides n limbs, with r above them, by b and returns the remainder. */
  method MpDiv1(tab: array<limb>, n: nat, b: limb, r: limb) returns (rem: limb)
    requires n <= tab.Length && r < b
    modifies tab
    ensures old(Value(tab[..n])) + r * Pow(B, n) == Value(tab[..n]) * b + rem && rem < b
    ensures tab[n..] == old(tab[n..])
  {
    hide Value, Pow;
    rem := r;
    var i := n;
    ValueNone();
    assert tab[n..n] == [];
    while i > 0
      invariant 0 <= i <= n && tab[..i] == old(tab[..i]) && tab[n..] == old(tab[n..]) && rem < b
      invariant old(Value(tab[i..n])) + r * Pow(B, n - i) == Value(tab[i..n]) * b + rem
    {
      i := i - 1;
      ghost var x: int, r0: int, v, q0 := tab[i], rem, old(Value(tab[i + 1..n])), Value(tab[i + 1..n]);
      ghost var before := tab[..];
      LowStep(tab[..], old(tab[..]), i);
      ValueFront(old(tab[..]), i, n);
      var a1: int := rem * B + tab[i];
      DivFits(rem, tab[i], b);
      rem := a1 % b;
      tab[i] := a1 / b;
      ValueFront(tab[..], i, n);
      assert tab[i + 1..n] == before[i + 1..n];
      DivStep(v, r * Pow(B, n - i - 1), q0, b, r0, x);
      PowShift(r, n - i - 1);
    }
  }

  lemma PowShift(r: int, n: nat)
    ensures r * Pow(B, n + 1) == B * (r * Pow(B, n))
  {
    Assoc(r, B, Pow(B, n));
  }

  lemma LowStep(s: seq<limb>, t: seq<limb>, i: nat)
    requires |s| == |t| && i < |s| && s[..i + 1] == t[..i + 1]
    ensures s[i] == t[i] && s[..i] == t[..i]
  {
    assert s[..i + 1][i] == t[..i + 1][i];
    assert s[..i] == s[..i + 1][..i] && t[..i] == t[..i + 1][..i];
  }

  lemma ValueFront(s: seq<limb>, i: nat, n: nat)
    requires i < n <= |s|
    ensures Value(s[i..n]) == s[i] + B * Value(s[i + 1..n])
  {
    assert s[i..n][1..] == s[i + 1..n];
  }

  lemma DivFits(r: limb, x: limb, b: limb)
    requires r < b
    ensures 0 <= (r * B + x) / b < B
  {
    assert r * B + x < b * B;
  }

  /** The division step on the values of the upper limbs. */
  lemma DivStep(v: int, h: int, q: int, b: int, r: int, x: int)
    requires v + h == q * b + r && b > 0
    ensures var a := r * B + x; x + B * v + B * h == (a / b + B * q) * b + a % b
  {
    var a := r * B + x;
    Distrib(a / b, B * q, b);
    Assoc(B, q, b);
    Distrib(v, h, B);
  }

  /** udiv1norm_init: the reciprocal of a normalised divisor. */
  function Udiv1normInit(d: limb): (v: limb)
    requires 2 * d >= B
    ensures (v + B) * d <= B * B - 1 < (v + B + 1) * d
  {
    var a1: int := B - d - 1;
    var a0 := B - 1;
    InitBound(d);
    (a1 * B + a0) / d
  }

  lemma InitBound(d: limb)
    requires 2 * d >= B
    ensures var v := ((B - d - 1) * B + (B - 1)) / d; 0 <= v < B && (v + B) * d <= B * B - 1 < (v + B + 1) * d
  {
    var t: int := (B - d - 1) * B + (B - 1);
    var v := t / d;
    assert t == B * B - d * B - 1;
    DivRange(t, d);
    Distrib(v, B, d);
    Distrib(v + B, 1, d);
    LeMul(B, v, d);
    assert d * B >= B * B - d * B;
  }

  lemma DivRange(t: int, d: int)
    requires d > 0
    ensures t / d * d <= t < t / d * d + d
    ensures t >= 0 ==> t / d >= 0
  {
  }

  lemma LeMul(x: int, y: int, d: int)
    requires d > 0
    ensures x <= y ==> x * d <= y * d
    ensures x < y ==> x * d < y * d
  {
  }

  /** Truncation of an unsigned 32-bit and 64-bit result. */
  function Wrap32(x: int): limb { x % B }

  function Wrap64(x: int): (r: int)
    ensures 0 <= r < B * B
  {
    x % (B * B)
  }

  /** (dlimb_t)x * y. */
  function Wide(x: limb, y: limb): int { x * y }

  lemma WrapSmall(x: int)
    ensures 0 <= x < B ==> Wrap32(x) == x
    ensures 0 <= x < B * B ==> Wrap64(x) == x
  {
  }

  /** udiv1norm: (a1 * 2^32 + a0) / d by multiplication with the reciprocal. */
  method Udiv1norm(a1: limb, a0: limb, d: limb, dInv: limb) returns (q: limb, r: limb)
    requires 2 * d >= B && a1 < d && dInv == Udiv1normInit(d)
    ensures a1 * B + a0 == q * d + r && r < d
  {
    hide Udiv1normInit, Wrap64, Wrap32, Wide;
    // the mask n1m is all ones when the top bit of a0 is set
    var n1m := if 2 * a0 >= B then B - 1 else 0;
    var nAdj := Wrap32(a0 + (if n1m != 0 then d else 0));
    var a := Wrap64(Wide(dInv, Wrap32(a1 - n1m)) + nAdj);
    q := Wrap32(a / B + a1);
    Estimated(a1, a0, d, dInv, q);
    Corrected(a1 * B + a0, d, q);
    a := Wrap64(a1 * B + a0 - Wide(q, d) - d);
    var ah := a / B;
    q := Wrap32(q + 1 + ah);
    r := Wrap32(a % B + (if ah != 0 then d else 0));
  }

  /** The last step makes the estimate exact. */
  lemma Corrected(n: int, d: limb, q1: limb)
    requires 0 <= n - q1 * d < 2 * d && 0 < d && n < d * B
    ensures var a := Wrap64(n - Wide(q1, d) - d);
      var ah := a / B;
      var q, r: int := Wrap32(q1 + 1 + ah), Wrap32(a % B + (if ah != 0 then d else 0));
      n == q * d + r && r < d
  {
    var left := n - q1 * d - d;
    HighWord(left, Wrap64(left), d);
    Distrib(q1, 1, d);
    LeMul(B, q1 + 1, d);
    hide Wrap64;
  }

  /** The first estimate of the quotient, and that it fits in one limb. */
  lemma Estimated(a1: limb, a0: limb, d: limb, dInv: limb, q: limb)
    requires 2 * d >= B && a1 < d && dInv == Udiv1normInit(d)
    requires var n1m := if 2 * a0 >= B then B - 1 else 0;
      var nAdj := Wrap32(a0 + (if n1m != 0 then d else 0));
      q == Wrap32(Wrap64(Wide(dInv, Wrap32(a1 - n1m)) + nAdj) / B + a1)
    ensures 0 <= a1 * B + a0 - q * d < 2 * d && a1 * B + a0 < d * B
  {
    hide Udiv1normInit, Wrap32, Wrap64, Wide;
    var n1 := if 2 * a0 >= B then 1 else 0;
    var top := EstimateTop(a1, a0, d, dInv);
    EstimateGood(a1, a0, d, dInv, top);
    WrapSmall(top / B + a1);
  }

  /** The dividend of the estimate, free of wrap-around. */
  lemma EstimateTop(a1: limb, a0: limb, d: limb, dInv: limb) returns (top: int)
    requires 2 * d >= B && a1 < d
    ensures var n1m := if 2 * a0 >= B then B - 1 else 0;
      Wrap64(Wide(dInv, Wrap32(a1 - n1m)) + Wrap32(a0 + (if n1m != 0 then d else 0))) == top
    ensures var n1 := if 2 * a0 >= B then 1 else 0;
      top == dInv * (a1 + n1) + a0 + n1 * (d - B) && top >= 0
  {
    hide Wrap32, Wrap64;
    var n1 := if 2 * a0 >= B then 1 else 0;
    top := dInv * (a1 + n1) + a0 + n1 * (d - B);
    EstimateFits(a1, a0, d, dInv, n1);
    WrapSmall(top);
  }

  lemma EstimateGood(a1: limb, a0: limb, d: limb, dInv: limb, top: int)
    requires 2 * d >= B && a1 < d && dInv == Udiv1normInit(d) && top >= 0
    requires var n1 := if 2 * a0 >= B then 1 else 0; top == dInv * (a1 + n1) + a0 + n1 * (d - B)
    ensures var q := top / B + a1; 0 <= q < B && 0 <= a1 * B + a0 - q * d < 2 * d && a1 * B + a0 < d * B
  {
    hide Udiv1normInit;
    var k := B * B - 1 - (dInv + B) * d;
    Distrib(dInv + B, 1, d);
    Estimate(a1, a0, d, dInv, k, if 2 * a0 >= B then 1 else 0);
    QuotientFits(a1, a0, d, top / B + a1, top);
  }

  /** The estimated quotient is the quotient or one less. */
  lemma Estimate(a1: int, a0: int, d: int, v: int, k: int, n1: int)
    requires 0 <= a1 < d && 0 <= a0 < B && B <= 2 * d < 2 * B && 0 <= k < d
    requires k == B * B - 1 - (v + B) * d && n1 == if 2 * a0 >= B then 1 else 0
    ensures var q1 := (v * (a1 + n1) + a0 + n1 * (d - B)) / B + a1;
      0 <= a1 * B + a0 - q1 * d < 2 * d
  {
    var top := v * (a1 + n1) + a0 + n1 * (d - B);
    var q1 := top / B + a1;
    // the exact error of the estimate, scaled by B
    var delta := a1 * (1 + k) + a0 * (B - d) - n1 * ((B - d) * (B - d) - 1 - k);
    EstimateError(a1, a0, d, v, k, n1);
    EstimateRange(a1, a0, d, k, n1);
    var low := top % B;
    assert top == B * (top / B) + low;
    var left := a1 * B + a0 - q1 * d;
    assert B * left == delta + d * low by { EstimateScaled(a1, a0, d, top / B, low, delta); }
    ScaledRange(left, delta, d, low);
  }

  lemma ScaledRange(left: int, delta: int, d: int, low: int)
    requires B * left == delta + d * low && 0 <= delta < d * (B + 1) && 0 <= low < B && d > 0
    ensures 0 <= left < 2 * d
  {
    LeMul(0, low, d);
    LeMul(low, B - 1, d);
    assert d * (B + 1) + d * (B - 1) == B * (2 * d);
  }

  lemma EstimateError(a1: int, a0: int, d: int, v: int, k: int, n1: int)
    requires k == B * B - 1 - (v + B) * d && (n1 == 0 || n1 == 1)
    ensures var top := v * (a1 + n1) + a0 + n1 * (d - B);
      B * (a1 * B + a0) - d * (top + a1 * B) ==
      a1 * (1 + k) + a0 * (B - d) - n1 * ((B - d) * (B - d) - 1 - k)
  {
    Distrib(v, B, d);
    ErrorProducts(a1, a0, d, v * d, k);
    Square(d);
    if n1 == 0 { ErrorTop(a1, a0, d, v); } else { ErrorTopOne(a1, a0, d, v); }
  }

  lemma ErrorTop(a1: int, a0: int, d: int, v: int)
    ensures d * (v * a1 + a0 + a1 * B) == v * d * a1 + d * a0 + d * a1 * B
  {
    Distrib(v * a1, a0, d);
    Distrib(v * a1 + a0, a1 * B, d);
    Assoc(v, a1, d);
    Assoc(v, d, a1);
    Assoc(d, a1, B);
  }

  lemma ErrorTopOne(a1: int, a0: int, d: int, v: int)
    ensures d * (v * (a1 + 1) + a0 + (d - B) + a1 * B) == v * d * a1 + v * d + d * a0 + d * d - d * B + d * a1 * B
  {
    ErrorTop(a1, a0, d, v);
    Distrib(v * a1 + a0 + a1 * B, v + (d - B), d);
    Distrib(v, d - B, d);
    Distrib(d, -B, d);
    assert v * (a1 + 1) == v * a1 + v;
  }

  lemma ErrorProducts(a1: int, a0: int, d: int, vd: int, k: int)
    requires vd == B * B - 1 - k - B * d
    ensures vd * a1 == B * B * a1 - a1 - k * a1 - d * a1 * B
    ensures a1 * (1 + k) == a1 + k * a1 && a0 * (B - d) == B * a0 - d * a0
  {
    Distrib(B * B - 1, - k - B * d, a1);
    Distrib(- k, - B * d, a1);
    Assoc(d, a1, B);
  }

  lemma Square(d: int)
    ensures (B - d) * (B - d) == B * B - 2 * B * d + d * d
  {
  }

  lemma EstimateRange(a1: int, a0: int, d: int, k: int, n1: int)
    requires 0 <= a1 < d && 0 <= a0 < B && B <= 2 * d < 2 * B && 0 <= k < d
    requires n1 == if 2 * a0 >= B then 1 else 0
    ensures 0 <= a1 * (1 + k) + a0 * (B - d) - n1 * ((B - d) * (B - d) - 1 - k) < d * (B + 1)
  {
    var c := B - d;
    if n1 == 0 {
      assert 0 <= a1 * (1 + k) <= (d - 1) * d by { Mono(a1, d - 1, 1 + k, d); }
      assert 0 <= a0 * c <= d * c by { Mono(a0, d, c, c); }
      assert (d - 1) * d + d * c == d * (B - 1) by { Distrib(d - 1, c, d); }
    } else {
      assert a0 * c - c * c == (a0 - c) * c by { Distrib(a0, -c, c); }
      assert 0 <= (a0 - c) * c <= (d - 1) * c by { Mono(a0 - c, d - 1, c, c); }
      assert a1 * (1 + k) + 1 + k == (a1 + 1) * (1 + k) by { Distrib(a1, 1, 1 + k); }
      assert 0 <= (a1 + 1) * (1 + k) <= d * d by { Mono(a1 + 1, d, 1 + k, d); }
      assert (d - 1) * c + d * d == d * B - c by { Distrib(d, -1, c); Distrib(c, d, d); }
    }
  }

  lemma Mono(x: int, x': int, y: int, y': int)
    requires 0 <= x <= x' && 0 <= y <= y'
    ensures 0 <= x * y <= x' * y'
  {
    assert x * y <= x' * y;
    assert x' * y <= x' * y';
  }

  lemma EstimateScaled(a1: int, a0: int, d: int, t: int, low: int, delta: int)
    requires B * (a1 * B + a0) - d * ((B * t + low) + a1 * B) == delta
    ensures B * (a1 * B + a0 - (t + a1) * d) == delta + d * low
  {
    Distrib(B * t + low, a1 * B, d);
    Distrib(B * t, low, d);
    Distrib(t, a1, d);
    Assoc(B, t, d);
  }

  lemma EstimateFits(a1: int, a0: int, d: int, v: int, n1: int)
    requires 0 <= a1 < d && 0 <= a0 < B && B <= 2 * d < 2 * B && 0 <= v < B
    requires n1 == if 2 * a0 >= B then 1 else 0
    ensures Wrap32(a0 + n1 * d) == a0 + n1 * (d - B) && Wrap32(a1 - (if n1 == 1 then B - 1 else 0)) == a1 + n1
    ensures 0 <= v * (a1 + n1) + a0 + n1 * (d - B) < B * B
  {
    Mono(v, B - 1, a1 + n1, B - 1);
    if n1 == 1 { assert a0 + d >= B; assert a1 - (B - 1) + B == a1 + 1 < B; }
  }

  lemma QuotientFits(a1: int, a0: int, d: int, q1: int, top: int)
    requires 0 <= a1 < d && 0 <= a0 < B && 0 < d < B && 0 <= a1 * B + a0 - q1 * d < 2 * d
    requires top >= 0 && q1 == top / B + a1
    ensures 0 <= q1 < B && a1 * B + a0 < d * B
  {
    LeMul(B, q1, d);
    LeMul(a1 + 1, d, B);
  }

  lemma HighWord(left: int, a: int, d: int)
    requires -d <= left < d && 0 < d < B && a == Wrap64(left)
    ensures left >= 0 ==> a / B == 0 && a % B == left
    ensures left < 0 ==> a / B == B - 1 && a % B == left + B
  {
  }

  // ----- shifts ---------------------------------------------------------------------------------------

  /** 2^shift and 2^(32 - shift). */
  lemma Halves(shift: nat)
    requires shift <= 32
    ensures Pow(2, shift) * Pow(2, 32 - shift) == B && Pow(2, shift) > 0 && Pow(2, 32 - shift) > 0
    ensures shift > 0 ==> 2 * Pow(2, 32 - shift) <= B && 2 <= Pow(2, shift)
  {
    PowAdd(2, shift, 32 - shift);
    Pow32();
    if shift > 0 { Mono(2, Pow(2, shift), Pow(2, 32 - shift), Pow(2, 32 - shift)); }
  }

  lemma Pow32()
    ensures Pow(2, 32) == B
  {
    assert Pow(2, 4) == 16;
    PowAdd(2, 4, 4);
    PowAdd(2, 8, 8);
    PowAdd(2, 16, 16);
  }

  /** One limb shifted left by s == 2^shift, c == 2^(32 - shift), with the bits of l shifted in. */
  lemma ShlLimb(a: limb, l: int, s: nat, c: nat)
    requires s * c == B && 0 <= l < s && s > 0 && c > 0
    ensures 0 <= a * s % B + l < B && a * s + l == (a * s % B + l) + B * (a / c) && a / c < s
  {
    var h, low := a / c, a % c;
    assert a == c * h + low;
    assert a * s == B * h + low * s by { Distrib(c * h, low, s); Assoc(h, c, s); }
    assert 0 <= low * s <= (c - 1) * s by { Mono(low, c - 1, s, s); }
    Distrib(c, -1, s);
    ModUnique(a * s, h, low * s);
    LeMul(s, h, c);
  }

  lemma ModUnique(x: int, h: int, low: int)
    requires x == B * h + low && 0 <= low < B
    ensures x % B == low && x / B == h
  {
  }

  /** mp_shl: shifts n limbs left, low enters at the bottom; returns the bits shifted out. */
  method MpShl(tab: array<limb>, n: nat, shift: nat, low: limb) returns (l: limb)
    requires n <= tab.Length && 1 <= shift < 32 && low < Pow(2, shift)
    modifies tab
    ensures Value(tab[..n]) + l * Pow(B, n) == old(Value(tab[..n])) * Pow(2, shift) + low && l < Pow(2, shift)
    ensures tab[n..] == old(tab[n..])
  {
    hide Value, Pow;
    Halves(shift);
    var s, c := Pow(2, shift), Pow(2, 32 - shift);
    l := low;
    var i := 0;
    ValueNone();
    while i < n
      invariant 0 <= i <= n && tab[i..] == old(tab[i..]) && l < s
      invariant Value(tab[..i]) + l * Pow(B, i) == old(Value(tab[..i])) * s + low
    {
      ghost var l0: int, w := l, Value(tab[..i]);
      UntouchedStep(tab[..], old(tab[..]), i);
      ValueStepOld(old(tab[..]), i);
      var a: int := tab[i];
      ShlLimb(a, l, s, c);
      tab[i] := a * s % B + l;
      l := a / c;
      ValueStep(tab, i);
      ProductStep(w, old(Value(tab[..i])), a, tab[i], l0, l, s, Pow(B, i), low);
      PowNext(B, i);
      i := i + 1;
    }
  }

  lemma ShrLimb(a: limb, l: int, s: nat, c: nat)
    requires s * c == B && 0 <= l && s > 0 && c > 0
    ensures var q := a / s + l % s * c;
      0 <= q < B && (l % s) * B + a == q * s + a % s && l * c % B == l % s * c
  {
    var r := l % s;
    assert 0 <= r * c <= (s - 1) * c by { Mono(r, s - 1, c, c); }
    Distrib(s, -1, c);
    DivRange(a, s);
    LeMul(c, a / s, s);
    Distrib(a / s, r * c, s);
    Assoc(r, c, s);
    var h := l / s;
    assert l == s * h + r;
    assert l * c == B * h + r * c by { Distrib(s * h, r, c); Assoc(h, s, c); }
    ModUnique(l * c, h, r * c);
  }

  /** mp_shr: shifts n limbs right, high enters at the top; returns the bits shifted out. */
  method MpShr(tab: array<limb>, n: nat, shift: nat, high: limb) returns (rem: limb)
    requires n <= tab.Length && 1 <= shift < 32
    modifies tab
    ensures old(Value(tab[..n])) + (high % Pow(2, shift)) * Pow(B, n) == Value(tab[..n]) * Pow(2, shift) + rem
    ensures rem < Pow(2, shift) && tab[n..] == old(tab[n..])
  {
    hide Value, Pow;
    Halves(shift);
    var s, c := Pow(2, shift), Pow(2, 32 - shift);
    var l: limb := high;
    var i := n;
    ghost var r := high % s;
    ValueNone();
    assert tab[n..n] == [];
    while i > 0
      invariant 0 <= i <= n && tab[..i] == old(tab[..i]) && tab[n..] == old(tab[n..])
      invariant old(Value(tab[i..n])) + r * Pow(B, n - i) == Value(tab[i..n]) * s + l % s
    {
      i := i - 1;
      ghost var r0: int, v, q0 := l % s, old(Value(tab[i + 1..n])), Value(tab[i + 1..n]);
      ghost var before := tab[..];
      LowStep(tab[..], old(tab[..]), i);
      ValueFront(old(tab[..]), i, n);
      var a: int := tab[i];
      ShrLimb(a, l, s, c);
      tab[i] := a / s + l * c % B;
      l := a;
      ValueFront(tab[..], i, n);
      assert tab[i + 1..n] == before[i + 1..n];
      ShrStep(v, r * Pow(B, n - i - 1), q0, s, r0, a, tab[i]);
      PowShift(r, n - i - 1);
    }
    rem := l % s;
  }

  lemma ShrStep(v: int, h: int, q: int, s: int, r: int, x: int, y: int)
    requires s > 0 && v + h == q * s + r && r * B + x == y * s + x % s
    ensures x + B * v + B * h == (y + B * q) * s + x % s
  {
    Distrib(y, B * q, s);
    Assoc(B, q, s);
    Distrib(v, h, B);
  }

  // ----- division by a normalised divisor -------------------------------------------------------------

  /** The loop of mp_div1norm. */
  method DivNormalised(tab: array<limb>, n: nat, b: limb, r: limb, bInv: limb) returns (rem: limb)
    requires n <= tab.Length && 2 * b >= B && r < b && bInv == Udiv1normInit(b)
    modifies tab
    ensures old(Value(tab[..n])) + r * Pow(B, n) == Value(tab[..n]) * b + rem && rem < b
    ensures tab[n..] == old(tab[n..])
  {
    hide Value, Pow, Udiv1normInit;
    rem := r;
    var i := n;
    ValueNone();
    assert tab[n..n] == [];
    while i > 0
      invariant 0 <= i <= n && tab[..i] == old(tab[..i]) && tab[n..] == old(tab[n..]) && rem < b
      invariant old(Value(tab[i..n])) + r * Pow(B, n - i) == Value(tab[i..n]) * b + rem
    {
      i := i - 1;
      ghost var x: int, r0: int, v, q0 := tab[i], rem, old(Value(tab[i + 1..n])), Value(tab[i + 1..n]);
      ghost var before := tab[..];
      LowStep(tab[..], old(tab[..]), i);
      ValueFront(old(tab[..]), i, n);
      var q;
      q, rem := Udiv1norm(rem, tab[i], b, bInv);
      tab[i] := q;
      ValueFront(tab[..], i, n);
      assert tab[i + 1..n] == before[i + 1..n];
      NormStep(v, r * Pow(B, n - i - 1), q0, b, r0, x, q, rem);
      PowShift(r, n - i - 1);
    }
  }

  lemma NormStep(v: int, h: int, q: int, b: int, r: int, x: int, y: int, z: int)
    requires v + h == q * b + r && r * B + x == y * b + z
    ensures x + B * v + B * h == (y + B * q) * b + z
  {
    Distrib(y, B * q, b);
    Assoc(B, q, b);
    Distrib(v, h, B);
  }

  /** mp_div1norm: divides by b / 2^shift, where b is the divisor shifted until its top bit is
      set; the same quotient and remainder as MpDiv1 with the unshifted divisor. */
  method MpDiv1norm(tab: array<limb>, n: nat, b: limb, r: limb, bInv: limb, shift: nat, ghost d: limb) returns (rem: limb)
    requires n <= tab.Length && 2 * b >= B && shift < 32 && b == d * Pow(2, shift) && r < d && bInv == Udiv1normInit(b)
    modifies tab
    ensures old(Value(tab[..n])) + r * Pow(B, n) == Value(tab[..n]) * d + rem && rem < d
    ensures tab[n..] == old(tab[n..])
  {
    hide Value, Pow, Udiv1normInit;
    ghost var s, p, v0 := Pow(2, shift), Pow(B, n), Value(tab[..n]);
    Halves(shift);
    var r1: int := r;
    if shift != 0 {
      var h := MpShl(tab, n, shift, 0);
      ShiftedFits(r, d, s, h);
      r1 := r * Pow(2, shift) + h;
    } else {
      PowZero();
    }
    ghost var v1 := Value(tab[..n]);
    assert v1 + r1 * p == (v0 + r * p) * s by { ShiftedValue(v0, v1, r, r1, s, p); }
    rem := DivNormalised(tab, n, b, r1, bInv);
    Unshift(v0 + r * p, Value(tab[..n]), d, s, rem);
    rem := rem / Pow(2, shift);
  }

  lemma PowZero()
    ensures Pow(2, 0) == 1
  {
  }

  lemma ShiftedFits(r: int, d: int, s: int, h: int)
    requires 0 <= r < d && 0 <= h < s && d * s < B
    ensures 0 <= r * s + h < d * s
  {
    LeMul(r + 1, d, s);
    LeMul(0, r, if s > 0 then s else 1);
    Distrib(r, 1, s);
    Mono(0, r, 0, s);
  }

  lemma ShiftedValue(v0: int, v1: int, r: int, r1: int, s: int, p: int)
    requires (s == 1 && v1 == v0 && r1 == r) || (exists h: int :: r1 == r * s + h && v1 + h * p == v0 * s)
    ensures v1 + r1 * p == (v0 + r * p) * s
  {
    Distrib(v0, r * p, s);
    Assoc(r, p, s);
    Assoc(r, s, p);
    if !(s == 1 && v1 == v0 && r1 == r) {
      var h: int :| r1 == r * s + h && v1 + h * p == v0 * s;
      Distrib(r * s, h, p);
    }
  }

  lemma Unshift(v: int, q: int, d: int, s: int, rem: int)
    requires v * s == q * (d * s) + rem && 0 <= rem < d * s && s > 0
    ensures v == q * d + rem / s && 0 <= rem / s < d
  {
    Assoc(q, d, s);
    var t := v - q * d;
    assert rem == t * s by { Distrib(v, - q * d, s); }
    LeMul(t, -1, s);
    LeMul(d, t, s);
    MulDiv(t, s);
  }

  lemma MulDiv(t: int, s: int)
    requires s > 0
    ensures t * s / s == t
  {
    var q := t * s / s;
    DivRange(t * s, s);
    LeMul(t + 1, q, s);
    LeMul(q + 1, t, s);
    Distrib(t, 1, s);
    Distrib(q, 1, s);
  }

  /** Limbs are determined by their number and their value. */
  lemma {:induction false} ValueInjective(s: seq<limb>, t: seq<limb>)
    requires |s| == |t| && Value(s) == Value(t)
    ensures s == t
    decreases s
  {
    if s != [] {
      ModUnique(Value(s), Value(s[1..]), s[0]);
      ModUnique(Value(t), Value(t[1..]), t[0]);
      ValueInjective(s[1..], t[1..]);
      assert s == [s[0]] + s[1..] && t == [t[0]] + t[1..];
    }
  }

  /** Both divisions leave the same limbs and the same remainder. */
  lemma DivisionUnique(v: int, d: int, s: seq<limb>, r: int, t: seq<limb>, r': int)
    requires |s| == |t| && v == Value(s) * d + r == Value(t) * d + r' && 0 <= r < d && 0 <= r' < d
    ensures s == t && r == r'
  {
    hide Value;
    LeMul(Value(s) + 1, Value(t), d);
    LeMul(Value(t) + 1, Value(s), d);
    Distrib(Value(s), 1, d);
    Distrib(Value(t), 1, d);
    ValueInjective(s, t);
  }
}
