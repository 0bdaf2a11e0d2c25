/**
 Scaling by a power of the radix: mul_pow multiplies exactly, or divides limb by limb and keeps
 one sticky bit for everything that was cut off. Followed by mpb_shr_round this is exact
 rounding of m * 2^e * radix^f, for f of either sign and every rounding mode.
 */
module MulPow {
  import opened Limbs
  import opened Bignum
  import opened Pow5Tables

  // ----- powers of the radix --------------------------------------------------------------------------

  lemma {:induction false} PowMul(b: nat, m: nat, n: nat)
    ensures Pow(b, m * n) == Pow(Pow(b, m), n)
    decreases n
  {
    if n == 0 {
      assert m * n == 0;
    } else {
      PowMul(b, m, n - 1);
      Distrib(n - 1, 1, m);
      assert m * n == m + m * (n - 1);
      PowAdd(b, m, m * (n - 1));
    }
  }

  lemma {:induction false} PowBase(a: nat, b: nat, n: nat)
    requires a <= b
    ensures Pow(a, n) <= Pow(b, n)
    decreases n
  {
    if n > 0 {
      PowBase(a, b, n - 1);
      Mono(a, b, Pow(a, n - 1), Pow(b, n - 1));
    }
  }

  /** pow_ui: a^b by repeated squaring, from the top bit of the exponent down. */
  method PowUi(a: nat, b: nat) returns (r: nat)
    requires Pow(a, b) < B * B
    ensures r == Pow(a, b)
  {
    hide Pow, Log2;
    PowFirst(a);
    if b == 0 { return 1; }
    if b == 1 { return a; }
    if (a == 5 || a == 10) && b <= 17 {
      r := PowFromTable(a, b);
      return;
    }
    r := a;
    var i: int := Log2(b) - 1;
    TopIsOne(b);
    while i >= 0
      invariant -1 <= i < Log2(b) && r == Pow(a, b / Pow(2, i + 1))
    {
      SquareStep(a, b, i);
      r := r * r;
      if b / Pow(2, i) % 2 == 1 { r := r * a; }
      i := i - 1;
    }
    PowZero();
    DivUnique(b, 1, b, 0);
  }

  /** One more bit of the exponent. */
  lemma SquareStep(a: nat, b: nat, i: nat)
    ensures var p := Pow(a, b / Pow(2, i + 1));
      Pow(a, b / Pow(2, i)) == if b / Pow(2, i) % 2 == 1 then p * p * a else p * p
  {
    hide Pow;
    var e, e' := b / Pow(2, i + 1), b / Pow(2, i);
    PowNextTwo(i);
    DivDiv(b, Pow(2, i), 2);
    assert e' == e + e + e' % 2;
    PowAdd(a, e, e);
    PowAdd(a, e + e, e' % 2);
    PowFirst(a);
  }

  /** The table branch of pow_ui. */
  method PowFromTable(a: nat, b: nat) returns (r: nat)
    requires (a == 5 || a == 10) && 1 <= b <= 17
    ensures r == Pow(a, b)
  {
    hide Pow;
    Pow5Correct(b);
    r := pow5Table[b - 1];
    if b >= 14 { r := r + pow5hTable[b - 14] * 0x1_0000_0000; }
    if a == 10 {
      PowProduct(5, 2, b);
      r := r * Pow(2, b);
    }
  }

  lemma PowFirst(a: nat)
    ensures Pow(a, 0) == 1 && Pow(a, 1) == a
  {
    assert Pow(a, 1) == a * Pow(a, 0);
  }

  lemma TopIsOne(b: nat)
    requires b > 0
    ensures b / Pow(2, Log2(b)) == 1
  {
    hide Pow;
    DivUnique(b, Pow(2, Log2(b)), 1, b - Pow(2, Log2(b)));
  }

  /** digits_per_limb_table: that many digits fit in one limb. */
  predicate LimbDigits(radix1: nat, d: nat) { radix1 >= 2 && d >= 1 && Pow(radix1, d) < B }

  lemma PowFits(radix1: nat, d: nat, n: nat)
    requires LimbDigits(radix1, d) && n <= d
    ensures 0 < Pow(radix1, n) < B
  {
    PowMono(radix1, n, d);
  }

  /** pow_ui_inv: radix1^n shifted until its top bit is set, with its reciprocal. */
  method PowUiInv(radix1: nat, n: nat, ghost d: nat) returns (r: limb, rInv: limb, shift: nat)
    requires LimbDigits(radix1, d) && n <= d
    ensures shift < 32 && 2 * r >= B && r == Pow(radix1, n) * Pow(2, shift) && rInv == Udiv1normInit(r)
  {
    hide Pow, Log2, Udiv1normInit, LimbDigits;
    PowFits(radix1, d, n);
    if radix1 == 5 && 1 <= n <= 13 {
      r, rInv, shift := Pow5Inv(n);
      return;
    }
    var p := PowUi(radix1, n);
    Pow32();
    LogBelow(p, 32);
    shift := 31 - Log2(p);
    ShiftedTop(p);
    r := p * Pow(2, shift);
    rInv := Udiv1normInit(r);
  }

  /** The table branch of pow_ui_inv. */
  method Pow5Inv(n: nat) returns (r: limb, rInv: limb, shift: nat)
    requires 1 <= n <= 13
    ensures shift < 32 && 2 * r >= B && r == Pow(5, n) * Pow(2, shift) && rInv == Udiv1normInit(r)
  {
    hide Pow, Log2, Udiv1normInit, Shift5;
    Pow5InverseCorrect(n);
    Pow5Correct(n);
    shift := Shift5(n);
    r := pow5Table[n - 1] * Pow(2, shift);
    rInv := pow5InvTable[n - 1];
  }

  lemma ShiftedTop(p: nat)
    requires 0 < p < B && Log2(p) < 32
    ensures B <= 2 * (p * Pow(2, 31 - Log2(p))) && p * Pow(2, 31 - Log2(p)) < B
  {
    hide Pow, Log2;
    var k := Log2(p);
    var s := Pow(2, 31 - k);
    PowAdd(2, k, 31 - k);
    PowNextTwo(31);
    Pow32();
    LeMul(Pow(2, k), p, s);
    LeMul(p, 2 * Pow(2, k), s);
    Assoc(2, Pow(2, k), s);
  }

  // ----- truncated division with a sticky bit ---------------------------------------------------------

  /** The quotient, made odd when there is a remainder. */
  function StickyDiv(n: nat, d: nat): nat
    requires d > 0
  {
    if n % d == 0 || n / d % 2 == 1 then n / d else n / d + 1
  }

  /** When at least two more bits are cut off, the sticky bit replaces the lost remainder. */
  lemma StickyRound(n: nat, d: nat, s: nat, mode: Rounding)
    requires d > 0 && s >= 2
    ensures d * Pow(2, s) > 0
    ensures RoundDiv(StickyDiv(n, d), Pow(2, s), mode) == RoundDiv(n, d * Pow(2, s), mode)
  {
    hide Pow;
    var p, h := Pow(2, s), Pow(2, s - 2);
    PowNextTwo(s - 1);
    PowNextTwo(s - 2);
    var x, r := n / d, n % d;
    DivDiv(n, d, p);
    var q, w := x / p, x % p;
    StickyParts(x, h, r);
    var y := StickyDiv(n, d);
    StickyHalf(w, r, d, h);
  }

  /** Making x odd changes only its remainder modulo 4 * h. */
  lemma StickyParts(x: nat, h: nat, r: nat)
    requires h > 0
    ensures var y := if r == 0 || x % 2 == 1 then x else x + 1; var w := x % (4 * h);
      y / (4 * h) == x / (4 * h) && y % (4 * h) == if r == 0 || w % 2 == 1 then w else w + 1
  {
    var p := 4 * h;
    var q, w := x / p, x % p;
    assert x == q * p + w;
    assert q * p == 2 * (2 * (q * h)) by { Assoc(q, 4, h); }
    EvenAdd(w, 2 * (q * h));
    var y := if r == 0 || x % 2 == 1 then x else x + 1;
    DivUnique(y, p, q, y - q * p);
  }

  /** Comparison with one half, with the remainder r of d or with the sticky bit. */
  lemma StickyHalf(w: nat, r: nat, d: nat, h: nat)
    requires r < d && h > 0
    ensures var v := if r == 0 || w % 2 == 1 then w else w + 1; var t := w * d + r;
      && (2 * v > 4 * h <==> 2 * t > d * (4 * h))
      && (2 * v == 4 * h <==> 2 * t == d * (4 * h))
  {
    HalfCases(w, 2 * h, d, r);
    FourTimes(d, h);
  }

  lemma FourTimes(d: int, h: int)
    ensures d * (4 * h) == 2 * ((2 * h) * d)
  {
  }

  lemma HalfCases(w: int, k: int, d: int, r: int)
    requires 0 <= r < d
    ensures w < k ==> w * d + r < k * d
    ensures w == k ==> w * d == k * d
    ensures w > k ==> w * d + r > k * d
  {
    LeMul(w + 1, k, d);
    LeMul(k + 1, w, d);
    Distrib(w, 1, d);
    Distrib(k, 1, d);
  }

  /** One more division of a value whose earlier remainders add up to R. */
  lemma ChainStep(n: nat, v: nat, p: nat, R: nat, q: nat, b: nat, r: nat)
    requires Chain(n, v, p, R) && v == q * b + r && r < b
    ensures r * p + R >= 0 && Chain(n, q, b * p, r * p + R) && (r * p + R == 0 <==> r == 0 && R == 0)
  {
    Distrib(q * b, r, p);
    Assoc(q, b, p);
    Mono(r, b - 1, p, p);
    Distrib(b, -1, p);
    LeMul(1, r, p);
  }

  function CeilDiv(f: nat, d: nat): nat
    requires d > 0
  {
    (f + d - 1) / d
  }

  lemma ChunkCount(f: nat, d: nat)
    requires d > 0
    ensures f <= CeilDiv(f, d) * d
  {
    DivRange(f + d - 1, d);
  }

  function MinI(a: int, b: int): int { if a < b then a else b }

  function MaxI(a: int, b: int): int { if a > b then a else b }

  lemma ChunkStep(f: nat, d: nat)
    requires d > 0 && f > 0
    ensures CeilDiv(f - MinI(f, d), d) == CeilDiv(f, d) - 1
  {
    if f <= d {
      DivUnique(f + d - 1, d, 1, f - 1);
      DivUnique(d - 1, d, 0, d - 1);
    } else {
      var q, r := (f - 1) / d, (f - 1) % d;
      assert f - 1 == q * d + r;
      Distrib(q, 1, d);
      DivUnique(f + d - 1, d, q + 1, r);
      DivUnique(f - d + d - 1, d, q, r);
    }
  }

  // ----- mul_pow --------------------------------------------------------------------------------------

  /** Multiplies by one limb. */
  method MulLimb(a: Mpb, b: limb)
    requires a.Norm() && b > 0 && a.len + 1 <= a.tab.Length
    modifies a`len, a.tab
    ensures a.Norm() && a.Val() == old(a.Val()) * b && a.len <= old(a.len) + 1
  {
    hide Value, Pow;
    ghost var v, n := a.Val(), a.len;
    TopLimb(a.tab[..n]);
    var h := MpMul1(a.tab, a.len, b, 0);
    TopLimb(a.tab[..n]);
    if h != 0 {
      a.tab[a.len] := h;
      ValueStep(a.tab, n);
      a.len := a.len + 1;
    } else {
      Mono(v, v, 1, b);
    }
  }

  /** Multiplies by radix1^f, d digits at a time. */
  method MulUp(a: Mpb, radix1: nat, d: nat, f: nat)
    requires a.Norm() && LimbDigits(radix1, d) && a.len + CeilDiv(f, d) <= a.tab.Length
    modifies a`len, a.tab
    ensures a.Norm() && a.Val() == old(a.Val()) * Pow(radix1, f) && a.len <= old(a.len) + CeilDiv(f, d)
  {
    DivPositive(radix1, d);
    hide Value, Pow, CeilDiv, LimbDigits;
    var left: nat, b: limb, n0: nat := f, 0, 0;
    ghost var v := a.Val();
    PowFirst(radix1);
    while left != 0
      invariant 0 <= left <= f && a.Norm() && a.len + CeilDiv(left, d) <= old(a.len) + CeilDiv(f, d)
      invariant a.Val() == v * Pow(radix1, f - left)
      invariant n0 != 0 ==> b == Pow(radix1, n0) && b > 0
    {
      var n := MinI(left, d);
      if n != n0 {
        PowFits(radix1, d, n);
        b := PowUi(radix1, n);
        n0 := n;
      }
      ChunkStep(left, d);
      MulLimb(a, b);
      PowAdd(radix1, f - left, n);
      Assoc(v, Pow(radix1, f - left), Pow(radix1, n));
      left := left - n;
    }
  }

  /** Divides by one limb, given normalised with its reciprocal. */
  method DivLimb(a: Mpb, b: limb, bInv: limb, shift: nat, ghost d: limb) returns (r: limb)
    requires a.Norm() && 2 * b >= B && shift < 32 && b == d * Pow(2, shift) && d > 0 && bInv == Udiv1normInit(b)
    modifies a`len, a.tab
    ensures a.Norm() && old(a.Val()) == a.Val() * d + r && r < d && a.len <= old(a.len)
  {
    hide Value, Pow, Udiv1normInit;
    r := MpDiv1norm(a.tab, a.len, b, 0, bInv, shift, d);
    a.Renorm();
  }

  /** Divides by radix1^f, d digits at a time, and says whether anything was cut off. */
  method DivDown(a: Mpb, radix1: nat, d: nat, f: nat) returns (rest: bool)
    requires a.Norm() && LimbDigits(radix1, d)
    modifies a`len, a.tab
    ensures a.Norm() && a.Val() == old(a.Val()) / Pow(radix1, f) && a.len <= old(a.len)
    ensures rest <==> old(a.Val()) % Pow(radix1, f) != 0
  {
    DivPositive(radix1, d);
    hide Value, Pow, LimbDigits, Udiv1normInit, Chain, Divisor;
    var left: nat, b: limb, bInv: limb, shift: nat, n0: nat := f, 0, 0, 0, 0;
    rest := false;
    ghost var v, R: nat := a.Val(), 0;
    ChainStart(v, radix1);
    while left != 0
      invariant 0 <= left <= f && a.Norm() && a.len <= old(a.len)
      invariant Chain(v, a.Val(), Pow(radix1, f - left), R) && (rest <==> R != 0)
      invariant n0 <= d && (n0 != 0 ==> Divisor(Pow(radix1, n0), b, bInv, shift))
    {
      var n := MinI(left, d);
      if n != n0 {
        b, bInv, shift := PowUiInv(radix1, n, d);
        DivisorIs(Pow(radix1, n), b, bInv, shift);
        n0 := n;
      }
      PowFits(radix1, d, n);
      ghost var p, a0 := Pow(radix1, f - left), a.Val();
      DivisorIs(Pow(radix1, n), b, bInv, shift);
      var r := DivLimb(a, b, bInv, shift, Pow(radix1, n));
      rest := rest || r != 0;
      ChainStep(v, a0, p, R, a.Val(), Pow(radix1, n), r);
      R := r * p + R;
      PowAdd(radix1, n, f - left);
      left := left - n;
    }
    ChainEnd(v, a.Val(), Pow(radix1, f), R);
  }

  /** b is p shifted until its top bit is set, with its reciprocal. */
  predicate Divisor(p: nat, b: limb, bInv: limb, shift: nat) {
    shift < 32 && 2 * b >= B && b == p * Pow(2, shift) && bInv == Udiv1normInit(b)
  }

  lemma DivisorIs(p: nat, b: limb, bInv: limb, shift: nat)
    ensures Divisor(p, b, bInv, shift) <==> shift < 32 && 2 * b >= B && b == p * Pow(2, shift) && bInv == Udiv1normInit(b)
  {
  }

  /** v divided by p leaves R. */
  predicate Chain(v: nat, q: nat, p: nat, R: nat) { v == q * p + R && R < p }

  lemma ChainStart(v: nat, radix1: nat)
    ensures Chain(v, v, Pow(radix1, 0), 0)
  {
  }

  lemma ChainEnd(v: nat, q: nat, p: nat, R: nat)
    requires Chain(v, q, p, R)
    ensures p > 0 && v / p == q && v % p == R
  {
    DivUnique(v, p, q, R);
  }

  lemma DivPositive(radix1: nat, d: nat)
    requires LimbDigits(radix1, d)
    ensures d >= 1 && radix1 >= 2
  {
  }

  /** Sets the lowest bit. */
  method SetLowBit(a: Mpb)
    requires a.Norm()
    modifies a.tab
    ensures a.Norm() && a.Val() == if old(a.Val()) % 2 == 1 then old(a.Val()) else old(a.Val()) + 1
  {
    ghost var s := a.tab[..a.len];
    LowBit(s);
    if a.tab[0] % 2 == 0 {
      a.tab[0] := a.tab[0] + 1;
      assert a.tab[..a.len] == [a.tab[0]] + s[1..];
      assert s == [s[0]] + s[1..];
    }
  }

  lemma LowBit(s: seq<limb>)
    requires s != []
    ensures Value(s) % 2 == s[0] % 2
  {
    EvenAdd(s[0], 0x8000_0000 * Value(s[1..]));
  }

  const digitsPerLimbTable: seq<nat> :=
    [32, 20, 16, 13, 12, 11, 10, 10, 9, 9, 8, 8, 8, 8, 8, 7, 7, 7, 7, 7, 7, 7, 6, 6, 6, 6, 6, 6, 6, 6, 6, 6, 6, 6, 6]

  function DigitsPerLimb(radix: nat): nat
    requires 2 <= radix <= 36
  {
    digitsPerLimbTable[radix - 2]
  }

  /** The odd part of a radix, for which the table must be right; 1 for a power of two. */
  predicate OddRadix(radix1: nat) {
    radix1 == 1 || (2 <= radix1 <= 36 && LimbDigits(radix1, DigitsPerLimb(radix1)))
  }

  /** Bits by which the number is extended before it is divided by radix1^f. */
  function Extension(radix1: nat, radixShift: nat, f: nat, isInt: bool, e: int, log: int): nat
    requires 2 <= radix1 <= 36 && DigitsPerLimb(radix1) > 0
  {
    var l := CeilDiv(f, DigitsPerLimb(radix1));
    32 * l + (if isInt then MaxI(2 + e - (f * radixShift + 32 * l), 0) else MaxI(e - log, 0))
  }

  /** Upper bound of the limbs that mul_pow adds. */
  function Growth(radix1: nat, radixShift: nat, f: int, isInt: bool, e: int): nat
    requires OddRadix(radix1)
  {
    if radix1 == 1 then 0
    else if f >= 0 then CeilDiv(f, DigitsPerLimb(radix1))
    else Extension(radix1, radixShift, -f, isInt, e, 0) / 32 + 1
  }

  /** mul_pow: the value times (radix1 * 2^radixShift)^f, scaled by 2^eOffset. */
  method ScaleByPow(a: Mpb, radix1: nat, radixShift: nat, f: int, isInt: bool, e: int) returns (eOffset: int)
    requires a.Norm() && OddRadix(radix1) && a.Val() > 0
    requires a.len + Growth(radix1, radixShift, f, isInt, e) <= a.tab.Length && (!isInt ==> e >= 0)
    modifies a`len, a.tab
    ensures a.Norm() && a.len <= old(a.len) + Growth(radix1, radixShift, f, isInt, e)
    ensures radix1 == 1 || f >= 0 ==> eOffset == -f * radixShift && a.Val() == old(a.Val()) * Pow(radix1, MaxI(f, 0))
    ensures radix1 != 1 && f < 0 ==>
      && eOffset + f * radixShift >= 0
      && a.Val() == StickyDiv(old(a.Val()) * Pow(2, eOffset + f * radixShift), Pow(radix1, -f))
      && (if isInt then eOffset >= e + 2 else a.Val() >= Pow(2, e))
  {
    hide Value, Pow, CeilDiv, LimbDigits, StickyDiv;
    eOffset := -f * radixShift;
    if radix1 == 1 {
      PowOne(MaxI(f, 0));
      return;
    }
    var d := DigitsPerLimb(radix1);
    DivPositive(radix1, d);
    if f >= 0 {
      MulUp(a, radix1, d, f);
      return;
    }
    var l := CeilDiv(-f, d);
    eOffset := eOffset + l * 32;
    var log := a.FloorLog2();
    var extra := if isInt then MaxI(2 + e - eOffset, 0) else MaxI(e - log, 0);
    eOffset := eOffset + extra;
    ghost var v, k := a.Val(), l * 32 + extra;
    ExtensionMono(radix1, radixShift, -f, isInt, e, log);
    a.ShrRound(-(l * 32 + extra), RNDZ);
    var rest := DivDown(a, radix1, d, -f);
    if rest { SetLowBit(a); }
    StickyIs(v * Pow(2, k), Pow(radix1, -f));
    if !isInt { EnoughBits(v, log, e, radix1, d, -f, extra); }
  }

  lemma PowOne(n: nat)
    ensures Pow(1, n) == 1
  {
  }

  lemma ExtensionMono(radix1: nat, radixShift: nat, f: nat, isInt: bool, e: int, log: nat)
    requires 2 <= radix1 <= 36 && DigitsPerLimb(radix1) > 0
    ensures Extension(radix1, radixShift, f, isInt, e, log) <= Extension(radix1, radixShift, f, isInt, e, 0)
    ensures Extension(radix1, radixShift, f, isInt, e, log) / 32 <= Extension(radix1, radixShift, f, isInt, e, 0) / 32
  {
  }

  lemma StickyIs(n: nat, d: nat)
    requires d > 0
    ensures StickyDiv(n, d) == if n % d != 0 && n / d % 2 == 0 then n / d + 1 else n / d
    ensures StickyDiv(n, d) >= n / d
  {
  }

  /** The quotient keeps at least e bits. */
  lemma EnoughBits(v: nat, log: nat, e: nat, radix1: nat, d: nat, f: nat, extra: nat)
    requires LimbDigits(radix1, d) && Pow(2, log) <= v && extra == MaxI(e - log, 0)
    ensures Pow(radix1, f) > 0 && v * Pow(2, CeilDiv(f, d) * 32 + extra) / Pow(radix1, f) >= Pow(2, e)
  {
    DivPositive(radix1, d);
    hide Pow, CeilDiv;
    var l := CeilDiv(f, d);
    // radix1^f is at most 2^(32 * l)
    ChunkCount(f, d);
    PowMono(radix1, f, l * d);
    PowMul(radix1, d, l);
    assert d * l == l * d;
    PowBase(Pow(radix1, d), B, l);
    PowLimbs(l);
    assert Pow(radix1, f) <= Pow(2, l * 32);
    // v * 2^extra has e bits
    PowMono(2, e, log + extra);
    PowAdd(2, log, extra);
    LeMul(Pow(2, log), v, Pow(2, extra));
    PowAdd(2, l * 32, extra);
    var D, E, L := Pow(radix1, f), Pow(2, e), Pow(2, l * 32);
    assert v * (L * Pow(2, extra)) == (v * Pow(2, extra)) * L by { Assoc(v, Pow(2, extra), L); }
    Mono(E, v * Pow(2, extra), D, L);
    QuotientAtLeast(v * Pow(2, l * 32 + extra), D, E);
  }

  lemma QuotientAtLeast(n: int, d: int, q: int)
    requires d > 0 && n >= q * d
    ensures n / d >= q
  {
    DivRange(n, d);
    LeMul(n / d + 1, q, d);
    Distrib(n / d, 1, d);
  }

  // ----- exact rounding -------------------------------------------------------------------------------

  /** m * 2^e * radix1^f as a fraction. */
  function Num(m: nat, e: int, radix1: nat, f: int): nat { m * Pow(2, MaxI(e, 0)) * Pow(radix1, MaxI(f, 0)) }

  function Den(e: int, radix1: nat, f: int): (r: nat)
    ensures radix1 > 0 ==> r > 0
  {
    Pow(2, MaxI(-e, 0)) * Pow(radix1, MaxI(-f, 0))
  }

  lemma RoundScale(n: nat, d: nat, c: nat, mode: Rounding)
    requires d > 0 && c > 0
    ensures d * c > 0 && RoundDiv(n * c, d * c, mode) == RoundDiv(n, d, mode)
  {
    MulPos(d, c);
    var q, r := n / d, n % d;
    assert n == q * d + r;
    Distrib(q * d, r, c);
    Assoc(q, d, c);
    LeMul(r, d - 1, c);
    LeMul(0, r, c);
    Distrib(d, -1, c);
    DivUnique(n * c, d * c, q, r * c);
    LeMul(d, 2 * r, c);
    LeMul(2 * r, d, c);
    Assoc(2, r, c);
  }

  /** Limbs that mul_pow_round uses at most. */
  function RoundRoom(radix1: nat, radixShift: nat, e: int, f: int): nat
    requires OddRadix(radix1)
  {
    2 + Growth(radix1, radixShift, f, true, e) +
    (if radix1 == 1 || f >= 0 then MaxI(e + f * radixShift, 0) / 32 + 1 else 0)
  }

  /** mul_pow_round: m * 2^e * (radix1 * 2^radixShift)^f, rounded. */
  method MulPowRound(a: Mpb, m: nat, e: int, radix1: nat, radixShift: nat, f: int, mode: Rounding)
    requires a.Valid() && 0 < m < B * B && OddRadix(radix1)
    requires RoundRoom(radix1, radixShift, e, f) <= a.tab.Length
    modifies a`len, a.tab
    ensures var e2 := e + f * radixShift;
      a.Norm() && Den(e2, radix1, f) > 0 && a.Val() == RoundDiv(Num(m, e2, radix1, f), Den(e2, radix1, f), mode)
  {
    hide Value, Pow, StickyDiv, RoundDiv, Growth, Extension;
    a.SetU64(m);
    var eOffset := ScaleByPow(a, radix1, radixShift, f, true, e);
    ghost var e2, v := e + f * radixShift, a.Val();
    a.ShrRound(-e + eOffset, mode);
    if radix1 == 1 || f >= 0 {
      RoundExact(m, e2, radix1, f, mode);
    } else {
      RoundSticky(m, e2, radix1, f, eOffset + f * radixShift, eOffset - e, mode);
    }
  }

  lemma RoundExact(m: nat, e2: int, radix1: nat, f: int, mode: Rounding)
    requires radix1 == 1 || (f >= 0 && radix1 > 0)
    ensures RoundShift(m * Pow(radix1, MaxI(f, 0)), -e2, mode) == RoundDiv(Num(m, e2, radix1, f), Den(e2, radix1, f), mode)
  {
    hide Pow, RoundDiv;
    PowFirst(radix1);
    PowFirst(2);
    if radix1 == 1 { PowOne(MaxI(f, 0)); PowOne(MaxI(-f, 0)); }
    var p := m * Pow(radix1, MaxI(f, 0));
    Assoc(m, Pow(radix1, MaxI(f, 0)), Pow(2, MaxI(e2, 0)));
    Assoc(m, Pow(2, MaxI(e2, 0)), Pow(radix1, MaxI(f, 0)));
    if e2 >= 0 { RoundByOne(Num(m, e2, radix1, f), mode); }
  }

  lemma RoundByOne(n: nat, mode: Rounding)
    ensures RoundDiv(n, 1, mode) == n
  {
    DivUnique(n, 1, n, 0);
  }

  lemma RoundSticky(m: nat, e2: int, radix1: nat, f: int, k: nat, s: nat, mode: Rounding)
    requires radix1 > 0 && k == s + e2 && s >= 2 && f < 0
    ensures RoundDiv(StickyDiv(m * Pow(2, k), Pow(radix1, -f)), Pow(2, s), mode)
      == RoundDiv(Num(m, e2, radix1, f), Den(e2, radix1, f), mode)
  {
    hide Pow, RoundDiv, StickyDiv, Num, Den;
    var D := Pow(radix1, -f);
    StickyRound(m * Pow(2, k), D, s, mode);
    FractionDown(m, e2, radix1, f);
    if e2 >= 0 {
      PowAdd(2, e2, s);
      Assoc(m, Pow(2, e2), Pow(2, s));
      RoundScale(m * Pow(2, e2), D, Pow(2, s), mode);
    } else {
      PowAdd(2, -e2, k);
      Assoc(D, Pow(2, -e2), Pow(2, k));
      RoundScale(m, D * Pow(2, -e2), Pow(2, k), mode);
    }
  }

  lemma FractionDown(m: nat, e2: int, radix1: nat, f: int)
    requires f < 0
    ensures e2 >= 0 ==> Num(m, e2, radix1, f) == m * Pow(2, e2) && Den(e2, radix1, f) == Pow(radix1, -f)
    ensures e2 < 0 ==> Num(m, e2, radix1, f) == m && Den(e2, radix1, f) == Pow(radix1, -f) * Pow(2, -e2)
  {
    hide Pow;
    PowFirst(radix1);
    PowFirst(2);
  }
}
