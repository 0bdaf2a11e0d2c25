/**
 js_atod for a given radix, from a string to the bits of a float.
 */
module Atod {
  import opened Limbs
  import opened Bignum
  import opened MulPow
  import opened RealPow
  import opened DoubleRounding
  import opened FloatSpacing
  import opened RadixTables
  import opened AtodRounding
  import opened NumberText

  // ----- collecting digits ----------------------------------------------------------------------------

  const radixBaseTable: seq<nat> :=
    [0x00000000, 0xcfd41b91, 0x00000000, 0x48c27395, 0x81bf1000, 0x75db9c97, 0x40000000, 0xcfd41b91, 0x3b9aca00,
     0x8c8b6d2b, 0x19a10000, 0x309f1021, 0x57f6c100, 0x98c29b81, 0x00000000, 0x18754571, 0x247dbc80, 0x3547667b,
     0x4c4b4000, 0x6b5a6e1d, 0x94ace180, 0xcaf18367, 0x0b640000, 0x0e8d4a51, 0x1269ae40, 0x17179149, 0x1cb91000,
     0x23744899, 0x2b73a840, 0x34e63b41, 0x40000000, 0x4cfa3cc1, 0x5c13d840, 0x6d91b519, 0x81bf1000]

  /** A base of 0 stands for 2^32. */
  function BaseValue(base: nat): nat { if base == 0 then B else base }

  function RadixBase(radix: nat): nat
    requires 2 <= radix <= 36
  {
    radixBaseTable[radix - 2]
  }

  /** A limb of digits, and few enough of them. */
  predicate BaseOk(radix: nat) {
    && 2 <= radix <= 36 && DigitsPerLimb(radix) >= 1 && RadixBase(radix) < B
    && BaseValue(RadixBase(radix)) == Pow(radix, DigitsPerLimb(radix))
    && 1 <= MaxKept(radix) <= 4 * DigitsPerLimb(radix) + DigitsPerLimb(radix) - 1
  }

  /** mpb_mul1_base: the number times base plus a. */
  method MulBase(r: Mpb, base: limb, a: limb)
    requires r.Norm() && r.len + 2 <= r.tab.Length
    modifies r`len, r.tab
    ensures r.Norm() && r.Val() == old(r.Val()) * BaseValue(base) + a && r.len <= old(r.len) + 1
  {
    hide Value, Pow;
    ghost var v, n := r.Val(), r.len;
    if r.tab[0] == 0 && r.len == 1 {
      assert r.tab[..1] == [0];
      ValueOne(0);
      r.tab[0] := a;
      assert r.tab[..1] == [a];
      ValueOne(a);
      return;
    }
    if base == 0 {
      ghost var s := r.tab[..n];
      MoveUp(r.tab, r.len + 1, 1);
      r.tab[0] := a;
      r.len := r.len + 1;
      assert r.tab[..n + 1] == [a] + s by { assert r.tab[1..n + 2][..n] == s; }
      ValueFirst(a, s);
      r.Renorm();
    } else {
      var h := MpMul1(r.tab, r.len, base, a);
      r.tab[r.len] := h;
      ValueStep(r.tab, n);
      r.len := r.len + 1;
      r.Renorm();
    }
  }

  lemma ValueFirst(a: limb, s: seq<limb>)
    ensures Value([a] + s) == Value(s) * B + a
  {
    assert ([a] + s)[1..] == s;
  }

  /** One more kept digit; full limbs go into the number. */
  method KeepDigit(tmp: Mpb, cur: limb, count: nat, c: nat, radix: nat) returns (cur': limb, count': nat)
    requires tmp.Norm() && tmp.len + 2 <= tmp.tab.Length && BaseOk(radix) && c < radix
    requires count < DigitsPerLimb(radix) && cur < Pow(radix, count)
    modifies tmp`len, tmp.tab
    ensures tmp.Norm() && count' < DigitsPerLimb(radix) && cur' < Pow(radix, count')
    ensures Acc(tmp.Val(), radix, count', cur') == Acc(old(tmp.Val()), radix, count, cur) * radix + c
    ensures if count + 1 == DigitsPerLimb(radix) then count' == 0 && tmp.len <= old(tmp.len) + 1
            else count' == count + 1 && tmp.len == old(tmp.len)
  {
    hide Value, Pow, Acc, DigitsPerLimb, RadixBase, MaxKept;
    var d := DigitsPerLimb(radix);
    ghost var v := tmp.Val();
    LimbFull(radix, count);
    KeepStep(v, cur, count, c, radix);
    cur' := cur * radix + c;
    count' := count + 1;
    if count' == d {
      MulBase(tmp, RadixBase(radix), cur');
      AccFull(v, radix, d, cur');
      cur', count' := 0, 0;
      PowFirst(radix);
    }
  }

  /** The number v followed by count digits that make up cur. */
  function Acc(v: nat, radix: nat, count: nat, cur: nat): nat { v * Pow(radix, count) + cur }

  lemma AccFull(v: nat, radix: nat, d: nat, cur: nat)
    ensures Acc(v * Pow(radix, d) + cur, radix, 0, 0) == Acc(v, radix, d, cur)
  {
    hide Pow;
    PowFirst(radix);
  }

  lemma AccNothing(v: nat, radix: nat)
    ensures Acc(v, radix, 0, 0) == v
  {
    PowFirst(radix);
  }

  lemma LimbFull(radix: nat, count: nat)
    requires BaseOk(radix) && count < DigitsPerLimb(radix)
    ensures Pow(radix, count + 1) <= B
  {
    hide Pow;
    PowMono(radix, count + 1, DigitsPerLimb(radix));
  }

  lemma KeepStep(v: nat, cur: nat, count: nat, c: nat, radix: nat)
    requires cur < Pow(radix, count) && c < radix
    ensures 0 <= cur * radix + c < Pow(radix, count + 1)
    ensures Acc(v, radix, count + 1, cur * radix + c) == Acc(v, radix, count, cur) * radix + c
  {
    var p := Pow(radix, count);
    assert Pow(radix, count + 1) == radix * p;
    hide Pow;
    LeMul(cur, p - 1, radix);
    Distrib(p, -1, radix);
    Distrib(v * p, cur, radix);
    Assoc(v, p, radix);
  }

  /** What the digit loops leave behind. */
  datatype Scanned = Scanned(next: nat, pos: nat, sigPos: nat, digitCount: nat, dotPos: int, extra: bool)

  /** The kept digits, and whether anything else but zeros follows. */
  ghost predicate Kept(sc: Scanned, ds: seq<int>, radix: nat, v: int)
    requires 2 <= radix <= 36
  {
    && sc.pos == |ds| && sc.sigPos <= |ds| && AllBelow(ds, radix)
    && (forall i :: 0 <= i < sc.sigPos ==> ds[i] == 0) && (sc.sigPos < |ds| ==> ds[sc.sigPos] != 0)
    && sc.digitCount == MinI(|ds| - sc.sigPos, MaxKept(radix))
    && v == Number(ds[sc.sigPos..sc.sigPos + sc.digitCount], radix)
    && (sc.extra <==> exists i :: sc.sigPos + sc.digitCount <= i < |ds| && ds[i] != 0)
  }

  /** Skips leading zeros. */
  method SkipZeros(s: string, start: nat, radix: nat) returns (p: nat, pos: nat, dotPos: int, ghost ds: seq<int>)
    requires 2 <= radix <= 36 && start <= |s|
    ensures start <= p <= |s| && pos == |ds| && AllBelow(ds, radix) && (forall i :: 0 <= i < |ds| ==> ds[i] == 0)
    ensures Scan(s, start, start, radix, [], -1) == Scan(s, p, start, radix, ds, dotPos) && -1 <= dotPos <= pos
    ensures !(IsPoint(s, p, start, radix) && dotPos < 0) && ToDigit(CharAt(s, p)) != 0
  {
    p, pos, dotPos := start, 0, -1;
    ds := [];
    while true
      invariant start <= p <= |s| && pos == |ds| && AllBelow(ds, radix) && (forall i :: 0 <= i < |ds| ==> ds[i] == 0)
      invariant Scan(s, start, start, radix, [], -1) == Scan(s, p, start, radix, ds, dotPos) && -1 <= dotPos <= pos
      decreases |s| - p
    {
      InString(s, p, radix);
      if CharAt(s, p) == '.' && (p > start || ToDigit(CharAt(s, p + 1)) < radix) {
        if dotPos >= 0 { break; }
        dotPos := pos;
        p := p + 1;
        InString(s, p, radix);
      }
      if CharAt(s, p) != '0' { break; }
      ds := ds + [0];
      p := p + 1;
      pos := pos + 1;
    }
  }

  /** One more digit after the leading zeros. */
  lemma KeptStep(sc: Scanned, ds: seq<int>, c: int, radix: nat, v: int)
    requires 2 <= radix <= 36 && Kept(sc, ds, radix, v) && 0 <= c < radix && (sc.sigPos == |ds| ==> c != 0)
    ensures sc.digitCount < MaxKept(radix) ==>
      Kept(sc.(pos := sc.pos + 1, digitCount := sc.digitCount + 1), ds + [c], radix, v * radix + c)
    ensures sc.digitCount >= MaxKept(radix) ==>
      Kept(sc.(pos := sc.pos + 1, extra := sc.extra || c != 0), ds + [c], radix, v)
  {
    hide Number, MaxKept;
    var ds' := ds + [c];
    var k := sc.sigPos + sc.digitCount;
    if sc.digitCount < MaxKept(radix) {
      assert k == |ds|;
      assert ds'[sc.sigPos..k + 1] == ds[sc.sigPos..k] + [c];
      NumberSnoc(ds[sc.sigPos..k], c, radix);
    } else {
      assert ds'[sc.sigPos..k] == ds[sc.sigPos..k];
      if sc.extra {
        var i :| k <= i < |ds| && ds[i] != 0;
        assert ds'[i] != 0;
      }
      if c != 0 { assert ds'[|ds|] != 0; }
    }
  }

  /** The state of the digit loop: where the scan stands. */
  ghost predicate At(s: string, start: nat, radix: nat, sc: Scanned, ds: seq<int>)
    requires radix <= 36
  {
    && start <= sc.next <= |s| && -1 <= sc.dotPos
    && Scan(s, start, start, radix, [], -1) == Scan(s, sc.next, start, radix, ds, sc.dotPos)
    && (sc.sigPos == |ds| ==> !(IsPoint(s, sc.next, start, radix) && sc.dotPos < 0) && ToDigit(CharAt(s, sc.next)) != 0)
  }

  /** The state of the digit loop: what has been collected. */
  ghost predicate Collected(tmp: Mpb, radix: nat, sc: Scanned, cur: limb, count: nat, ds: seq<int>, full: nat)
    reads tmp, tmp.tab
  {
    && tmp.Norm() && BaseOk(radix) && count < DigitsPerLimb(radix) && cur < Pow(radix, count)
    && Kept(sc, ds, radix, Acc(tmp.Val(), radix, count, cur)) && sc.digitCount <= MaxKept(radix)
    && sc.digitCount == full * DigitsPerLimb(radix) + count && tmp.len <= 1 + full
  }

  /** Takes a point, if there is one; false at the end of the digits. */
  method TakePoint(s: string, start: nat, radix: nat, sc: Scanned, ghost ds: seq<int>) returns (more: bool, sc': Scanned)
    requires 2 <= radix <= 36 && At(s, start, radix, sc, ds) && sc.pos == |ds| && sc.sigPos <= |ds|
    ensures sc' == sc.(next := sc'.next, dotPos := sc'.dotPos) && sc.next <= sc'.next <= |s| && -1 <= sc'.dotPos
    ensures Scan(s, start, start, radix, [], -1) == Scan(s, sc'.next, start, radix, ds, sc'.dotPos)
    ensures !(IsPoint(s, sc'.next, start, radix) && sc'.dotPos < 0)
    ensures !more ==> !IsDigit(s, sc'.next, radix)
    ensures sc.sigPos == |ds| ==> ToDigit(CharAt(s, sc'.next)) != 0
  {
    hide Scan;
    sc' := sc;
    InString(s, sc.next, radix);
    if CharAt(s, sc.next) == '.' && (sc.next > start || ToDigit(CharAt(s, sc.next + 1)) < radix) {
      if sc.dotPos >= 0 { return false, sc; }
      ScanStep(s, sc.next, start, radix, ds, sc.dotPos);
      sc' := sc.(dotPos := sc.pos, next := sc.next + 1);
    }
    return true, sc';
  }

  /** Keeps the digit c, or only remembers that it was not zero. */
  method TakeDigit(tmp: Mpb, radix: nat, sc: Scanned, cur: limb, count: nat, c: nat, ghost ds: seq<int>, ghost full: nat)
    returns (sc': Scanned, cur': limb, count': nat, ghost full': nat)
    requires Collected(tmp, radix, sc, cur, count, ds, full) && c < radix && (sc.sigPos == |ds| ==> c != 0)
    requires tmp.tab.Length >= DBIGNUM_LEN_MAX
    modifies tmp`len, tmp.tab
    ensures Collected(tmp, radix, sc', cur', count', ds + [c], full')
    ensures sc'.next == sc.next && sc'.dotPos == sc.dotPos && sc'.sigPos == sc.sigPos
  {
    hide Value, Pow, Kept, Acc, DigitsPerLimb, RadixBase, MaxKept;
    cur', count', full' := cur, count, full;
    KeptStep(sc, ds, c, radix, Acc(tmp.Val(), radix, count, cur));
    FullLimbs(full, count, radix, sc.digitCount);
    if sc.digitCount < MaxKept(radix) {
      cur', count' := KeepDigit(tmp, cur, count, c, radix);
      if count' == 0 { full' := full + 1; }
      sc' := sc.(pos := sc.pos + 1, digitCount := sc.digitCount + 1);
    } else {
      sc' := sc.(pos := sc.pos + 1, extra := sc.extra || c != 0);
    }
  }

  /** Reads the digits and collects the first ones in tmp. */
  method ScanDigits(tmp: Mpb, s: string, start: nat, radix: nat) returns (sc: Scanned, ghost ds: seq<int>)
    requires tmp.Valid() && tmp.tab.Length >= DBIGNUM_LEN_MAX && BaseOk(radix) && start <= |s|
    modifies tmp`len, tmp.tab
    ensures tmp.Norm() && tmp.len <= MANT_LIMBS && Kept(sc, ds, radix, tmp.Val())
    ensures Scan(s, start, start, radix, [], -1) == Split(ds, sc.dotPos, sc.next) && start <= sc.next <= |s|
  {
    hide Value, Pow, Scan, Kept, Number, Acc, DigitsPerLimb, RadixBase, MaxKept, AllBelow;
    tmp.len := 1;
    tmp.tab[0] := 0;
    assert tmp.tab[..1] == [0];
    ValueOne(0);
    var p, pos, dotPos;
    p, pos, dotPos, ds := SkipZeros(s, start, radix);
    var cur: limb, count: nat := 0, 0;
    sc := Scanned(p, pos, pos, 0, dotPos, false);
    ghost var full: nat := 0;
    KeptStart(sc, ds, radix);
    PowFirst(radix);
    AccNothing(0, radix);
    while true
      invariant Collected(tmp, radix, sc, cur, count, ds, full) && At(s, start, radix, sc, ds)
      decreases |s| - sc.next
    {
      ghost var v := Acc(tmp.Val(), radix, count, cur);
      KeptSize(sc, ds, radix, v);
      var more, sc1 := TakePoint(s, start, radix, sc, ds);
      KeptDot(sc, ds, radix, v, sc1.dotPos, sc1.next);
      sc := sc1;
      ScanStep(s, sc.next, start, radix, ds, sc.dotPos);
      if !more { break; }
      var c := ToDigit(CharAt(s, sc.next));
      if c >= radix { break; }
      InString(s, sc.next, radix);
      sc, cur, count, full := TakeDigit(tmp, radix, sc, cur, count, c, ds, full);
      ds := ds + [c];
      KeptDot(sc, ds, radix, Acc(tmp.Val(), radix, count, cur), sc.dotPos, sc.next + 1);
      sc := sc.(next := sc.next + 1);
    }
    FlushDigits(tmp, radix, sc, cur, count, ds, full);
  }

  /** Adds the digits of the last, incomplete limb. */
  method FlushDigits(tmp: Mpb, radix: nat, sc: Scanned, cur: limb, count: nat, ghost ds: seq<int>, ghost full: nat)
    requires Collected(tmp, radix, sc, cur, count, ds, full) && tmp.tab.Length >= DBIGNUM_LEN_MAX
    modifies tmp`len, tmp.tab
    ensures tmp.Norm() && tmp.len <= MANT_LIMBS && Kept(sc, ds, radix, tmp.Val())
  {
    hide Value, Pow, Kept, Acc, DigitsPerLimb, RadixBase, MaxKept;
    FullLimbs(full, count, radix, sc.digitCount);
    if count != 0 {
      LimbFits(radix, count);
      var base := PowUi(radix, count);
      AccFull(tmp.Val(), radix, count, cur);
      MulBase(tmp, base, cur);
    } else {
      PowFirst(radix);
    }
    AccNothing(tmp.Val(), radix);
  }

  lemma KeptStart(sc: Scanned, ds: seq<int>, radix: nat)
    requires BaseOk(radix) && AllBelow(ds, radix) && sc.pos == sc.sigPos == |ds| && sc.digitCount == 0 && !sc.extra
    requires forall i :: 0 <= i < |ds| ==> ds[i] == 0
    ensures Kept(sc, ds, radix, 0)
  {
    assert ds[sc.sigPos..sc.sigPos + 0] == [];
  }

  lemma KeptSize(sc: Scanned, ds: seq<int>, radix: nat, v: int)
    requires 2 <= radix <= 36 && Kept(sc, ds, radix, v)
    ensures sc.pos == |ds| && sc.sigPos <= sc.sigPos + sc.digitCount <= |ds| && sc.digitCount <= MaxKept(radix)
    ensures AllBelow(ds, radix)
  {
  }

  /** Positions in the string do not matter for the kept digits. */
  lemma KeptDot(sc: Scanned, ds: seq<int>, radix: nat, v: int, dotPos: int, next: nat)
    requires 2 <= radix <= 36 && Kept(sc, ds, radix, v)
    ensures Kept(sc.(dotPos := dotPos, next := next), ds, radix, v)
  {
  }

  lemma ScanStep(s: string, p: nat, start: nat, radix: nat, ds: seq<int>, dot: int)
    requires radix <= 36
    ensures Scan(s, p, start, radix, ds, dot) ==
      if IsPoint(s, p, start, radix) && dot < 0 then Scan(s, p + 1, start, radix, ds, |ds|)
      else if IsDigit(s, p, radix) then Scan(s, p + 1, start, radix, ds + [ToDigit(CharAt(s, p))], dot)
      else Split(ds, dot, p)
  {
  }

  /** Room for one more limb. */
  lemma FullLimbs(full: nat, count: nat, radix: nat, digitCount: int)
    requires BaseOk(radix) && digitCount == full * DigitsPerLimb(radix) + count
    requires digitCount <= MaxKept(radix) && count < DigitsPerLimb(radix)
    ensures full <= 4
    ensures (full + 1) * DigitsPerLimb(radix) == full * DigitsPerLimb(radix) + DigitsPerLimb(radix)
  {
    var d := DigitsPerLimb(radix);
    LeMul(5, full, d);
    Distrib(full, 1, d);
  }

  lemma LimbFits(radix: nat, count: nat)
    requires BaseOk(radix) && count < DigitsPerLimb(radix)
    ensures 0 < Pow(radix, count) < B
  {
    hide Pow;
    var d := DigitsPerLimb(radix);
    PowNext(radix, count);
    PowMono(radix, count + 1, d);
    LeMul(2, radix, Pow(radix, count));
  }
}
