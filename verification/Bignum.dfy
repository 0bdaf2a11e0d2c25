/**
 mpb_t: a natural number in a fixed buffer of limbs of which the lowest len are in use.
 */
module Bignum {
  import opened Limbs

  // ----- division of values ---------------------------------------------------------------------------

  lemma DivUnique(v: int, d: int, q: int, r: int)
    requires v == q * d + r && 0 <= r < d
    ensures v / d == q && v % d == r
  {
    DivRange(v, d);
    LeMul(q + 1, v / d, d);
    LeMul(v / d + 1, q, d);
    Distrib(q, 1, d);
    Distrib(v / d, 1, d);
  }

  /** Dividing by p and then by q. */
  lemma DivTwice(v: int, p: int, q: int)
    requires p > 0 && q > 0 && v >= 0
    ensures p * q > 0 && v == v / p / q * (p * q) + (v / p % q * p + v % p)
    ensures 0 <= v / p % q * p + v % p < p * q
  {
    MulPos(p, q);
    var a, r1 := v / p, v % p;
    var b, r2 := a / q, a % q;
    assert v == a * p + r1 && a == b * q + r2;
    Distrib(b * q, r2, p);
    Assoc(b, q, p);
    Mono(r2, q - 1, p, p);
    Distrib(q, -1, p);
  }

  lemma DivDiv(v: int, p: int, q: int)
    requires p > 0 && q > 0 && v >= 0
    ensures p * q > 0 && v / (p * q) == v / p / q && v % (p * q) == v / p % q * p + v % p
  {
    DivTwice(v, p, q);
    DivUnique(v, p * q, v / p / q, v / p % q * p + v % p);
  }

  /** Limbs below l contribute less than one unit of limb l. */
  lemma ValueDrop(s: seq<limb>, l: nat)
    requires l <= |s|
    ensures Value(s[l..]) == Value(s) / Pow(B, l) && Value(s[..l]) == Value(s) % Pow(B, l)
  {
    hide Value, Pow;
    ValueSplit(s, l);
    ValueBound(s[..l]);
    DivUnique(Value(s), Pow(B, l), Value(s[l..]), Value(s[..l]));
  }

  lemma PowSplit(k: nat)
    ensures Pow(2, k) == Pow(B, k / 32) * Pow(2, k % 32)
  {
    hide Pow;
    PowLimbs(k / 32);
    PowAdd(2, 32 * (k / 32), k % 32);
  }

  lemma {:induction false} PowLimbs(l: nat)
    ensures Pow(2, 32 * l) == Pow(B, l)
    decreases l
  {
    if l > 0 {
      hide Pow;
      PowLimbs(l - 1);
      PowAdd(2, 32, 32 * (l - 1));
      Pow32();
      PowNext(B, l - 1);
    } else {
      PowZero();
    }
  }

  lemma {:induction false} PowMono(b: nat, m: nat, n: nat)
    requires b > 0 && m <= n
    ensures Pow(b, m) <= Pow(b, n)
    decreases n
  {
    if m < n {
      PowMono(b, m, n - 1);
      Mono(1, b, Pow(b, n - 1), Pow(b, n - 1));
    }
  }

  /** The bits of a value from bit k on, limb by limb. */
  lemma ShiftLimbs(s: seq<limb>, k: nat)
    ensures var l, j := k / 32, k % 32;
      Value(s) / Pow(2, k) == if l >= |s| then 0 else Value(s[l..]) / Pow(2, j)
  {
    hide Value, Pow;
    var l, j := k / 32, k % 32;
    PowSplit(k);
    DivDiv(Value(s), Pow(B, l), Pow(2, j));
    if l < |s| {
      ValueDrop(s, l);
    } else {
      ValueBound(s);
      PowMono(B, |s|, l);
      DivUnique(Value(s), Pow(B, l), 0, Value(s));
      DivUnique(0, Pow(2, j), 0, 0);
    }
  }

  lemma FirstLimb(s: seq<limb>, p: int, c: int)
    requires s != [] && p > 0 && c > 0 && p * c == B
    ensures Value(s) / p == s[0] / p + c * Value(s[1..]) && Value(s) % p == s[0] % p
  {
    FirstPart(s[0], Value(s[1..]), p, c, Value(s));
  }

  lemma FirstPart(x: int, hi: int, p: int, c: int, v: int)
    requires p > 0 && v == x + (p * c) * hi
    ensures v / p == x / p + c * hi && v % p == x % p
  {
    var q, t := x / p, c * hi;
    Assoc(p, c, hi);
    assert x == q * p + x % p;
    Distrib(q, t, p);
    DivUnique(v, p, q + t, x % p);
  }

  /** mpb_get_bit reads bit k of the value. */
  lemma BitAt(s: seq<limb>, k: nat)
    ensures var l, j := k / 32, k % 32;
      Value(s) / Pow(2, k) % 2 == if l >= |s| then 0 else s[l] / Pow(2, j) % 2
  {
    hide Value, Pow;
    var l, j := k / 32, k % 32;
    ShiftLimbs(s, k);
    if l < |s| {
      Halves(j);
      FirstLimb(s[l..], Pow(2, j), Pow(2, 32 - j));
      PowNextTwo(32 - j - 1);
      var c := Pow(2, 32 - j - 1);
      Assoc(2, c, Value(s[l..][1..]));
      EvenAdd(s[l] / Pow(2, j), c * Value(s[l..][1..]));
    }
  }

  lemma PowNextTwo(n: nat)
    ensures Pow(2, n + 1) == 2 * Pow(2, n)
  {
  }

  lemma EvenAdd(x: int, y: int)
    ensures (x + 2 * y) % 2 == x % 2
  {
  }

  /** The bits below k are all zero. */
  lemma LowBits(s: seq<limb>, k: nat)
    ensures var l, j := k / 32, k % 32;
      Value(s) % Pow(2, k) == 0 <==>
      (forall i :: 0 <= i < l && i < |s| ==> s[i] == 0) && (l < |s| ==> s[l] % Pow(2, j) == 0)
  {
    hide Value, Pow;
    var l, j := k / 32, k % 32;
    PowSplit(k);
    var p, q := Pow(B, l), Pow(2, j);
    if l < |s| {
      ValueDrop(s, l);
      Halves(j);
      FirstLimb(s[l..], q, Pow(2, 32 - j));
      ModParts(Value(s), p, q);
      ZeroLimbs(s[..l]);
      assert forall i :: 0 <= i < l ==> s[..l][i] == s[i];
    } else {
      ValueBound(s);
      PowMono(B, |s|, l);
      Mono(1, q, p, p);
      DivUnique(Value(s), p * q, 0, Value(s));
      ZeroLimbs(s);
    }
  }

  lemma ModParts(v: int, p: int, q: int)
    requires p > 0 && q > 0 && v >= 0
    ensures p * q > 0 && (v % (p * q) == 0 <==> v % p == 0 && v / p % q == 0)
  {
    DivDiv(v, p, q);
    LeMul(1, v / p % q, p);
  }

  lemma {:induction false} ZeroLimbs(s: seq<limb>)
    ensures Value(s) == 0 <==> forall i :: 0 <= i < |s| ==> s[i] == 0
    decreases s
  {
    if s != [] {
      ZeroLimbs(s[1..]);
      assert forall i :: 1 <= i < |s| ==> s[i] == s[1..][i - 1];
    }
  }

  /** Normalised: the top limb is not zero. */
  lemma TopLimb(s: seq<limb>)
    requires s != []
    ensures s[|s| - 1] != 0 <==> Value(s) >= Pow(B, |s| - 1)
    ensures s[|s| - 1] == 0 ==> Value(s[..|s| - 1]) == Value(s)
  {
    hide Value, Pow;
    var n := |s| - 1;
    assert s == s[..n] + [s[n]];
    ValueSnoc(s[..n], s[n]);
    ValueBound(s[..n]);
    LeMul(1, s[n], Pow(B, n));
  }

  // ----- rounding -------------------------------------------------------------------------------------

  datatype Rounding = RNDN | RNDNA | RNDZ

  /** v / d rounded: to nearest with ties to even, to nearest with ties away, or down. */
  function RoundDiv(v: nat, d: nat, mode: Rounding): nat
    requires d > 0
  {
    var q, r := v / d, v % d;
    match mode
    case RNDZ => q
    case RNDNA => if 2 * r >= d then q + 1 else q
    case RNDN => if 2 * r > d || (2 * r == d && q % 2 == 1) then q + 1 else q
  }

  /** v / 2^shift rounded; shift may be negative. */
  function RoundShift(v: nat, shift: int, mode: Rounding): nat {
    if shift <= 0 then v * Pow(2, -shift) else RoundDiv(v, Pow(2, shift), mode)
  }

  /** What mpb_shr_round adds to the truncated value. */
  function AddOne(bit1: int, sticky: bool, bit0: int, mode: Rounding): int {
    match mode
    case RNDZ => 0
    case RNDNA => if bit1 != 0 then 1 else 0
    case RNDN => if bit1 != 0 then (if sticky then 1 else bit0) else 0
  }

  /** The round bit, the bits below it and the lowest kept bit decide the rounding. */
  lemma RoundByBits(v: nat, shift: nat, mode: Rounding)
    requires shift > 0
    ensures var h, d := Pow(2, shift - 1), Pow(2, shift);
      RoundDiv(v, d, mode) == v / d + AddOne(v / h % 2, v % h != 0, v / d % 2, mode)
  {
    hide Pow;
    var h, d := Pow(2, shift - 1), Pow(2, shift);
    PowNextTwo(shift - 1);
    DivDiv(v, h, 2);
    var a := v / h;
    assert a == 2 * (a / 2) + a % 2 && v == a * h + v % h;
    Distrib(2 * (a / 2), a % 2, h);
    Assoc(a / 2, 2, h);
    DivUnique(v, d, a / 2, (a % 2) * h + v % h);
  }

  /** Position of the top bit; clz32(v) == 31 - Log2(v). */
  function Log2(v: nat): (r: nat)
    requires v > 0
    ensures Pow(2, r) <= v < 2 * Pow(2, r)
  {
    if v == 1 then 0 else 1 + Log2(v / 2)
  }

  lemma LogBelow(v: nat, k: nat)
    requires 0 < v < Pow(2, k)
    ensures Log2(v) < k
  {
    if Log2(v) >= k { PowMono(2, k, Log2(v)); assert false; }
  }

  // ----- moving limbs ---------------------------------------------------------------------------------

  function Zeros(l: nat): (r: seq<limb>)
    ensures |r| == l && forall i :: 0 <= i < l ==> r[i] == 0
  {
    seq(l, i => 0)
  }

  lemma ValueShiftUp(s: seq<limb>, l: nat)
    ensures Value(Zeros(l) + s) == Value(s) * Pow(B, l)
  {
    hide Value, Pow;
    ValueAppend(Zeros(l), s);
    ZeroLimbs(Zeros(l));
  }

  /** Copies the lowest n limbs l places up, from the top down. */
  method MoveUp(tab: array<limb>, n: nat, l: nat)
    requires n + l <= tab.Length
    modifies tab
    ensures tab[l..n + l] == old(tab[..n])
  {
    var i := n;
    while i > 0
      invariant 0 <= i <= n && tab[..i] == old(tab[..i]) && tab[i + l..n + l] == old(tab[i..n])
    {
      i := i - 1;
      ghost var upper := tab[i + 1 + l..n + l];
      LowStep(tab[..], old(tab[..]), i);
      tab[i + l] := tab[i];
      assert tab[i + l..n + l] == [tab[i + l]] + upper;
      assert old(tab[i..n]) == [old(tab[i])] + old(tab[i + 1..n]);
    }
  }

  method ClearLow(tab: array<limb>, l: nat)
    requires l <= tab.Length
    modifies tab
    ensures tab[..l] == Zeros(l) && tab[l..] == old(tab[l..])
  {
    var i := 0;
    while i < l
      invariant 0 <= i <= l && tab[l..] == old(tab[l..]) && forall j :: 0 <= j < i ==> tab[j] == 0
    {
      tab[i] := 0;
      i := i + 1;
    }
  }

  /** Moves n limbs up and clears the lowest ones. */
  method ShiftLimbsUp(tab: array<limb>, n: nat, l: nat)
    requires n + l <= tab.Length
    modifies tab
    ensures tab[..n + l] == Zeros(l) + old(tab[..n])
  {
    hide Zeros;
    MoveUp(tab, n, l);
    ghost var moved := tab[..];
    ClearLow(tab, l);
    assert tab[l..n + l] == tab[l..][..n] == moved[l..][..n] == moved[l..n + l];
    assert tab[..n + l] == tab[..l] + tab[l..n + l];
  }

  /** Moves the limbs from l on down, from the bottom up. */
  method ShiftLimbsDown(tab: array<limb>, n: nat, l: nat)
    requires l <= n <= tab.Length
    modifies tab
    ensures tab[..n - l] == old(tab[l..n])
  {
    ghost var s := tab[..n];
    var i := 0;
    while i < n - l
      invariant 0 <= i <= n - l && tab[..i] == s[l..l + i] && tab[i + l..n] == s[i + l..]
    {
      assert tab[i + l] == tab[i + l..n][0] == s[i + l];
      ghost var low, high := tab[..i], tab[i + l..n];
      tab[i] := tab[i + l];
      assert tab[..i + 1] == low + [s[i + l]];
      assert tab[i + 1 + l..n] == high[1..];
      i := i + 1;
    }
  }

  lemma ShiftedLast(s: seq<limb>, l: nat)
    requires s != [] && Value(s) > 0 && (|s| == 1 || s[|s| - 1] != 0)
    ensures (Zeros(l) + s)[l + |s| - 1] != 0
  {
    hide Value;
    ZeroLimbs(s);
  }

  class Mpb {
    var len: nat
    const tab: array<limb>

    ghost predicate Valid()
      reads this
    {
      1 <= len <= tab.Length
    }

    /** The top limb is not zero, except for zero itself. */
    ghost predicate Norm()
      reads this, tab
    {
      Valid() && (len == 1 || tab[len - 1] != 0)
    }

    ghost function Val(): nat
      requires Valid()
      reads this, tab
    {
      Value(tab[..len])
    }

    constructor (capacity: nat)
      requires capacity >= 2
      ensures Norm() && Val() == 0 && fresh(tab) && tab.Length == capacity
    {
      tab := new limb[capacity](_ => 0);
      len := 1;
      new;
      assert tab[..1] == [0];
      ValueOne(0);
    }

    /** mpb_renorm. */
    method Renorm()
      requires Valid()
      modifies this`len
      ensures Norm() && Val() == old(Val()) && len <= old(len)
    {
      hide Value;
      while len > 1 && tab[len - 1] == 0
        invariant Valid() && Val() == old(Val()) && len <= old(len)
        decreases len
      {
        TopLimb(tab[..len]);
        assert tab[..len][..len - 1] == tab[..len - 1];
        len := len - 1;
      }
    }

    /** mpb_set_u64. */
    method SetU64(m: nat)
      requires Valid() && tab.Length >= 2 && m < B * B
      modifies this`len, tab
      ensures Norm() && Val() == m && len <= 2
    {
      tab[0] := m % B;
      tab[1] := m / B;
      len := if tab[1] == 0 then 1 else 2;
      ValueOne(m % B);
      if len == 1 {
        assert tab[..1] == [m % B];
      } else {
        assert tab[..2] == [m % B] + [tab[1]];
        ValueSnoc([m % B], tab[1]);
        assert Pow(B, 1) == B * Pow(B, 0);
      }
    }

    /** mpb_get_u64: the value modulo 2^64. */
    method GetU64() returns (m: nat)
      requires Norm()
      ensures m == Val() % (B * B)
    {
      hide Value, Pow;
      ValueOne(tab[0]);
      if len == 1 {
        m := tab[0];
        assert tab[..1] == [tab[0]];
      } else {
        m := tab[0] + tab[1] * B;
        ghost var s := tab[..len];
        assert s[..2] == [tab[0]] + [tab[1]];
        ValueSnoc([tab[0]], tab[1]);
        ValueDrop(s, 2);
        PowTwo();
      }
    }

    /** mpb_floor_log2: position of the top bit, -1 for zero. */
    method FloorLog2() returns (r: int)
      requires Norm()
      ensures Val() == 0 <==> r == -1
      ensures Val() > 0 ==> r >= 0 && Pow(2, r) <= Val() < 2 * Pow(2, r)
    {
      hide Value, Pow, Log2;
      var v: nat := tab[len - 1];
      ghost var n := len - 1;
      ValueStep(tab, n);
      ValueBound(tab[..n]);
      if v == 0 {
        assert n == 0 && tab[..0] == [];
        ValueNone();
        return -1;
      }
      Pow32();
      LogBelow(v, 32);
      var clz := 31 - Log2(v);
      r := len * 32 - 1 - clz;
      ghost var p, q := Pow(B, n), Pow(2, Log2(v));
      assert r == 32 * n + Log2(v);
      PowLimbs(n);
      PowAdd(2, 32 * n, Log2(v));
      TopBit(Value(tab[..n]), v, p, q);
    }

    /** mpb_get_bit. */
    method GetBit(k: nat) returns (b: nat)
      requires Valid()
      ensures b == Val() / Pow(2, k) % 2
    {
      hide Value, Pow;
      BitAt(tab[..len], k);
      var l := k / 32;
      if l >= len { return 0; }
      return tab[l] / Pow(2, k % 32) % 2;
    }

    /** Whether a bit below k is set. */
    method AnyBitBelow(k: nat) returns (any: bool)
      requires Valid()
      ensures any <==> Val() % Pow(2, k) != 0
    {
      hide Value, Pow;
      LowBits(tab[..len], k);
      var l := k / 32;
      any := false;
      var i := 0;
      while i < l && i < len
        invariant 0 <= i <= len && i <= l
        invariant any <==> exists j :: 0 <= j < i && tab[j] != 0
      {
        any := any || tab[i] != 0;
        i := i + 1;
      }
      assert forall j :: 0 <= j < len ==> tab[..len][j] == tab[j];
      if l < len { any := any || tab[l] % Pow(2, k % 32) != 0; }
    }

    /** Multiplies by 2^(32 * l). */
    method ShiftUp(l: nat)
      requires Norm() && Val() > 0 && len + l <= tab.Length
      modifies this`len, tab
      ensures Norm() && Val() == old(Val()) * Pow(B, l) && len == old(len) + l
    {
      hide Value, Pow;
      ghost var s := tab[..len];
      ShiftLimbsUp(tab, len, l);
      len := len + l;
      ValueShiftUp(s, l);
      ShiftedLast(s, l);
      assert tab[len - 1] == tab[..len][len - 1];
    }

    /** Drops the lowest l limbs. */
    method ShiftDown(l: nat)
      requires Norm() && l < len
      modifies this`len, tab
      ensures Norm() && Val() == old(Val()) / Pow(B, l) && len == old(len) - l
    {
      hide Value, Pow;
      ghost var s := tab[..len];
      ShiftLimbsDown(tab, len, l);
      len := len - l;
      assert tab[len - 1] == tab[..len][len - 1] == s[l..][len - 1] == s[|s| - 1];
      ValueDrop(s, l);
    }

    /** mpb_shr_round: divides by 2^shift and rounds; a negative shift multiplies. */
    method ShrRound(shift: int, mode: Rounding)
      requires Norm() && (shift < 0 ==> Val() > 0 && len + (-shift) / 32 + 1 <= tab.Length)
      modifies this`len, tab
      ensures Norm() && Val() == RoundShift(old(Val()), shift, mode)
      ensures len <= old(len) + (if shift < 0 then (-shift) / 32 + 1 else 0)
    {
      hide Value, Pow, RoundDiv;
      if shift == 0 {
        PowZero();
        return;
      }
      if shift < 0 {
        ShlBits(-shift);
      } else {
        var bit1 := GetBit(shift - 1);
        var sticky := false;
        if shift >= 2 { sticky := AnyBitBelow(shift - 1); } else { PowZero(); }
        var bit0 := GetBit(shift);
        var addOne := AddOne(bit1, sticky, bit0, mode);
        RoundByBits(Val(), shift, mode);
        ShrAdd(shift, addOne);
      }
    }

    /** Multiplies by 2^shift. */
    method ShlBits(shift: nat)
      requires Norm() && Val() > 0 && len + shift / 32 + 1 <= tab.Length
      modifies this`len, tab
      ensures Norm() && Val() == old(Val()) * Pow(2, shift) && len <= old(len) + shift / 32 + 1
    {
      hide Value, Pow;
      ghost var v := Val();
      var l, j := shift / 32, shift % 32;
      PowSplit(shift);
      Assoc(v, Pow(2, j), Pow(B, l));
      if j != 0 {
        var h := MpShl(tab, len, j, 0);
        tab[len] := h;
        ValueStep(tab, len);
        len := len + 1;
        Renorm();
        MulPos(v, Pow(2, j));
      } else {
        PowZero();
      }
      if l > 0 { ShiftUp(l); } else { ValueNone(); }
    }

    /** Divides by 2^shift, dropping the remainder, and adds addOne. */
    method ShrAdd(shift: nat, addOne: nat)
      requires Norm() && shift > 0 && addOne <= 1
      modifies this`len, tab
      ensures Norm() && Val() == old(Val()) / Pow(2, shift) + addOne && len <= old(len)
    {
      hide Value, Pow;
      ghost var v := Val();
      var l, j := shift / 32, shift % 32;
      PowSplit(shift);
      Halves(j);
      ValueBound(tab[..len]);
      DivDiv(v, Pow(B, l), Pow(2, j));
      if l >= len {
        ShiftLimbs(tab[..len], shift);
        len := 1;
        tab[0] := addOne;
        assert tab[..1] == [addOne];
        ValueOne(addOne);
        return;
      }
      if l > 0 { ShiftDown(l); } else { ValueNone(); DivUnique(v, 1, v, 0); }
      ghost var v1 := Val();
      if j != 0 {
        var r := MpShr(tab, len, j, 0);
        ShrQuotient(v1, Value(tab[..len]), Pow(2, j), r, Pow(B, len));
        Renorm();
      } else {
        PowZero();
        DivUnique(v1, 1, v1, 0);
      }
      if addOne != 0 {
        if len == old(len) { RoomForOne(v, Pow(2, j), len); }
        Increment(old(len));
      }
    }

    /** Adds one; the carry goes into a new limb. */
    method Increment(ghost bound: nat)
      requires Norm() && len <= bound <= tab.Length && (len == bound ==> Val() + 1 < Pow(B, len))
      modifies this`len, tab
      ensures Norm() && Val() == old(Val()) + 1 && len <= bound
    {
      hide Value, Pow;
      ghost var v := Val();
      TopLimb(tab[..len]);
      ghost var n := len;
      var a := MpAddUi(tab, 1, len);
      ValueBound(tab[..len]);
      if a != 0 {
        tab[len] := a;
        ValueStep(tab, len);
        len := len + 1;
      } else {
        assert tab[..len] != [];
        TopLimb(tab[..len]);
      }
    }
  }

  lemma PowTwo()
    ensures Pow(B, 1) == B && Pow(B, 2) == B * B
  {
    assert Pow(B, 1) == B * Pow(B, 0);
  }

  lemma TopBit(low: int, v: int, p: int, q: int)
    requires 0 <= low < p && q <= v < 2 * q && q > 0
    ensures p * q <= low + v * p < 2 * (p * q) && low + v * p > 0
  {
    LeMul(q, v, p);
    LeMul(v + 1, 2 * q, p);
    Distrib(v, 1, p);
    MulPos(p, q);
  }

  lemma RoomForOne(v: int, s: int, n: nat)
    requires 0 <= v < Pow(B, n) && s >= 2 && n >= 1
    ensures v / s + 1 < Pow(B, n)
  {
    hide Pow;
    PowMono(B, 1, n);
    PowTwo();
    DivRange(v, s);
    assert v / s * 2 <= v / s * s by { Mono(2, s, v / s, v / s); }
  }

  lemma ShrQuotient(v: int, q: int, s: int, r: int, p: int)
    requires s > 0 && v + 0 % s * p == q * s + r && 0 <= r < s
    ensures q == v / s
  {
    DivUnique(0, s, 0, 0);
    DivUnique(v, s, q, r);
  }
}
