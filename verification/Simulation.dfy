/**
 Compiled code run by the machine produces exactly the results of the slot matcher, in order:
 the first one on arrival, each further one when the machine backtracks, and a failure of the
 saved states below once they are used up.
 */
module Simulation {
  import opened RegexpPattern
  import opened Bytecode
  import opened SlotMatcher
  import opened Codegen
  import opened Machine

  // ----- results produced one after the other ---------------------------------------------------

  function Abs(t: Th): St { St(t.pos, t.slots) }

  /** s is base with only split states on top of it. */
  ghost predicate Above(s: Stack, base: Stack)
    decreases s
  {
    s == base || (s.Push? && s.kind == KSplit && Above(s.rest, base))
  }

  lemma {:induction false} AboveTrans(a: Stack, b: Stack, c: Stack)
    requires Above(a, b) && Above(b, c)
    ensures Above(a, c)
    decreases a
  {
    if a != b { AboveTrans(a.rest, b, c); }
  }

  lemma {:induction false} PopAbove(s: Stack, base: Stack)
    requires base.Push? && base.kind != KSplit && Above(s, base)
    ensures PopTo(base.kind, s) == base
    decreases s
  {
    if s != base { PopAbove(s.rest, base); }
  }

  /** Where results arrive: at address end, with the registers below |lo| as in lo. */
  datatype Goal = Goal(P: Prog, end: nat, lo: seq<int>, rc: nat)

  ghost predicate Arrives(g: Goal, t: Th, y: St) { Abs(t) == y && g.lo <= t.regs && |t.regs| == g.rc }

  ghost predicate Hit(g: Goal, c: Cfg, base: Stack, y: St, t: Th, s: Stack) {
    Above(s, base) && Arrives(g, t, y) && Reaches(g.P, c, Run(g.end, t, s))
  }

  ghost predicate Yields(g: Goal, c: Cfg, base: Stack, R: seq<St>)
    decreases |R|
  {
    if R == [] then Reaches(g.P, c, Back(base))
    else exists t, s :: Hit(g, c, base, R[0], t, s) && Yields(g, Back(s), base, R[1..])
  }

  lemma YieldsNone(g: Goal, c: Cfg, base: Stack)
    requires Reaches(g.P, c, Back(base))
    ensures Yields(g, c, base, [])
  {
  }

  lemma YieldsCons(g: Goal, c: Cfg, base: Stack, t: Th, s: Stack, R: seq<St>)
    requires Hit(g, c, base, Abs(t), t, s) && Yields(g, Back(s), base, R)
    ensures Yields(g, c, base, [Abs(t)] + R)
  {
    hide Reaches;
    var R' := [Abs(t)] + R;
    assert R'[1..] == R;
    assert Hit(g, c, base, R'[0], t, s) && Yields(g, Back(s), base, R'[1..]);
  }

  lemma YieldsOne(g: Goal, c: Cfg, base: Stack, t: Th)
    requires g.lo <= t.regs && |t.regs| == g.rc && Reaches(g.P, c, Run(g.end, t, base))
    ensures Yields(g, c, base, [Abs(t)])
  {
    Refl(g.P, Back(base));
    YieldsNone(g, Back(base), base);
    YieldsCons(g, c, base, t, base, []);
    assert [Abs(t)] + [] == [Abs(t)];
  }

  lemma YieldsPrefix(g: Goal, c: Cfg, c': Cfg, base: Stack, R: seq<St>)
    requires Reaches(g.P, c, c') && Yields(g, c', base, R)
    ensures Yields(g, c, base, R)
  {
    hide Reaches;
    if R == [] {
      Trans(g.P, c, c', Back(base));
    } else {
      var t, s :| Hit(g, c', base, R[0], t, s) && Yields(g, Back(s), base, R[1..]);
      Trans(g.P, c, c', Run(g.end, t, s));
      assert Hit(g, c, base, R[0], t, s);
    }
  }

  lemma {:induction false} YieldsAppend(g: Goal, c: Cfg, mid: Stack, base: Stack, Ra: seq<St>, Rb: seq<St>)
    requires Above(mid, base) && Yields(g, c, mid, Ra) && Yields(g, Back(mid), base, Rb)
    ensures Yields(g, c, base, Ra + Rb)
    decreases Ra
  {
    hide Reaches;
    if Ra == [] {
      assert Ra + Rb == Rb;
      YieldsPrefix(g, c, Back(mid), base, Rb);
    } else {
      var t, s :| Hit(g, c, mid, Ra[0], t, s) && Yields(g, Back(s), mid, Ra[1..]);
      YieldsAppend(g, Back(s), mid, base, Ra[1..], Rb);
      AboveTrans(s, mid, base);
      YieldsCons(g, c, base, t, s, Ra[1..] + Rb);
      assert [Ra[0]] + (Ra[1..] + Rb) == Ra + Rb;
    }
  }

  /** Every thread that arrives at g1 with result y goes on to yield ys at g2. */
  ghost predicate Cont(g1: Goal, g2: Goal, base: Stack, y: St, ys: seq<St>) {
    forall t, s :: Above(s, base) && Arrives(g1, t, y) ==> Yields(g2, Run(g1.end, t, s), s, ys)
  }

  lemma {:induction false} YieldsFlat(g1: Goal, g2: Goal, c: Cfg, base: Stack, R: seq<St>, RR: seq<seq<St>>)
    requires g1.P == g2.P && |RR| == |R| && Yields(g1, c, base, R)
    requires forall i :: 0 <= i < |R| ==> Cont(g1, g2, base, R[i], RR[i])
    ensures Yields(g2, c, base, Flat(RR))
    decreases R
  {
    hide Reaches;
    if R == [] {
      assert Reaches(g1.P, c, Back(base));
    } else {
      var t, s :| Hit(g1, c, base, R[0], t, s) && Yields(g1, Back(s), base, R[1..]);
      assert Cont(g1, g2, base, R[0], RR[0]);
      assert Yields(g2, Run(g1.end, t, s), s, RR[0]);
      YieldsPrefix(g2, c, Run(g1.end, t, s), s, RR[0]);
      forall i | 0 <= i < |R[1..]| ensures Cont(g1, g2, base, R[1..][i], RR[1..][i]) {
        assert Cont(g1, g2, base, R[i + 1], RR[i + 1]);
      }
      YieldsFlat(g1, g2, Back(s), base, R[1..], RR[1..]);
      YieldsAppend(g2, c, s, base, RR[0], Flat(RR[1..]));
    }
  }

  /** Results that are passed on one by one. */
  lemma {:induction false} YieldsEach(g1: Goal, g2: Goal, c: Cfg, base: Stack, R: seq<St>, R': seq<St>)
    requires g1.P == g2.P && |R'| == |R| && Yields(g1, c, base, R)
    requires forall i :: 0 <= i < |R| ==> Cont(g1, g2, base, R[i], [R'[i]])
    ensures Yields(g2, c, base, R')
  {
    hide Yields, Cont;
    var RR := seq(|R'|, i requires 0 <= i < |R'| => [R'[i]]);
    YieldsFlat(g1, g2, c, base, R, RR);
    FlatSingles(R', RR);
  }

  lemma {:induction false} FlatSingles(R: seq<St>, RR: seq<seq<St>>)
    requires |R| == |RR| && forall i :: 0 <= i < |R| ==> RR[i] == [R[i]]
    ensures Flat(RR) == R
    decreases R
  {
    if R != [] {
      FlatSingles(R[1..], RR[1..]);
      assert [R[0]] + R[1..] == R;
    }
  }

  // ----- characters -------------------------------------------------------------------------------

  lemma EntryOfInterval(points: seq<int>, i: nat, c: int)
    requires Canonical(points) && i < |points| / 2 && 0 <= c < UINT32_MAX
    ensures var tab := RangeTab(IsWide(points), points);
      InInterval(points, i, c) <==>
      (InEntry(tab, i, c) || (!IsWide(points) && i == |points| / 2 - 1 && c >= 0xffff && tab[2 * i + 1] == 0xffff))
  {
    var wide := IsWide(points);
    var tab := RangeTab(wide, points);
    assert (2 * i + 1) % 2 == 1;
    assert tab[2 * i] == points[2 * i] && tab[2 * i + 1] == High(wide, points[2 * i + 1]);
    if i < |points| / 2 - 1 { assert points[2 * i + 1] < points[|points| - 2]; }
  }

  /** The binary search finds an entry whenever there is one. */
  lemma SearchFinds(tab: seq<int>, c: int, lo: nat, hi: int)
    requires Ascending(tab) && hi < |tab| / 2
    ensures Search(tab, c, lo, hi) <==> exists i :: lo <= i <= hi && InEntry(tab, i, c)
  {
    hide Search, InEntry, Ascending;
    if Search(tab, c, lo, hi) { var i := FoundEntry(tab, c, lo, hi); }
    if i :| lo <= i <= hi && InEntry(tab, i, c) { EntryFound(tab, c, lo, hi, i); }
  }

  lemma {:induction false} FoundEntry(tab: seq<int>, c: int, lo: nat, hi: int) returns (i: nat)
    requires hi < |tab| / 2 && Search(tab, c, lo, hi)
    ensures lo <= i <= hi && InEntry(tab, i, c)
    decreases hi - lo
  {
    var mid := (lo + hi) / 2;
    if c < tab[2 * mid] { i := FoundEntry(tab, c, lo, mid - 1); }
    else if c > tab[2 * mid + 1] { i := FoundEntry(tab, c, mid + 1, hi); }
    else { i := mid; }
  }

  lemma {:induction false} EntryFound(tab: seq<int>, c: int, lo: nat, hi: int, i: nat)
    requires Ascending(tab) && hi < |tab| / 2 && lo <= i <= hi && InEntry(tab, i, c)
    ensures Search(tab, c, lo, hi)
    decreases hi - lo
  {
    hide Ascending;
    var mid := (lo + hi) / 2;
    if c < tab[2 * mid] {
      Order(tab, 2 * mid, if i >= mid then 2 * i else 2 * mid);
      EntryFound(tab, c, lo, mid - 1, i);
    } else if c > tab[2 * mid + 1] {
      Order(tab, if i <= mid then 2 * i + 1 else 2 * mid + 1, 2 * mid + 1);
      EntryFound(tab, c, mid + 1, hi, i);
    }
  }

  lemma Order(tab: seq<int>, i: nat, j: nat)
    requires Ascending(tab) && i <= j < |tab|
    ensures tab[i] <= tab[j]
  {
  }

  lemma TabAscending(points: seq<int>)
    requires Canonical(points) && points != []
    ensures Ascending(RangeTab(IsWide(points), points))
  {
    var wide := IsWide(points);
    var tab := RangeTab(wide, points);
    forall i, j | 0 <= i <= j < |tab| ensures tab[i] <= tab[j] {
      assert tab[i] == if i % 2 == 0 then points[i] else High(wide, points[i]);
      assert tab[j] == if j % 2 == 0 then points[j] else High(wide, points[j]);
      if i < j { assert points[i] < points[j]; }
      if i < |points| - 2 { assert points[i] < points[|points| - 2]; }
    }
  }

  /** On ascending operands the search decides membership in some entry. */
  lemma RangeTestFinds(wide: bool, tab: seq<int>, c: int)
    requires Ascending(tab) && |tab| >= 2
    ensures RangeTest(wide, tab, c) <==>
      || (exists i :: 0 <= i < |tab| / 2 && InEntry(tab, i, c))
      || (!wide && c >= 0xffff && tab[0] <= c && tab[2 * (|tab| / 2) - 1] == 0xffff)
  {
    SearchFinds(tab, c, 0, |tab| / 2 - 1);
    hide Search;
    if i :| 0 <= i < |tab| / 2 && InEntry(tab, i, c) {
      assert tab[0] <= tab[2 * i] && tab[2 * i + 1] <= tab[2 * (|tab| / 2) - 1];
    }
  }

  /** The operands re_emit_range writes accept exactly the set. */
  lemma RangeTabCorrect(points: seq<int>, c: int)
    requires Canonical(points) && points != [] && 0 <= c < UINT32_MAX
    ensures RangeTest(IsWide(points), RangeTab(IsWide(points), points), c) <==> InPoints(points, c)
  {
    var tab := RangeTab(IsWide(points), points);
    forall i | 0 <= i < |points| / 2
      ensures InInterval(points, i, c) <==>
        (InEntry(tab, i, c) || (!IsWide(points) && i == |points| / 2 - 1 && c >= 0xffff && tab[2 * i + 1] == 0xffff))
    {
      EntryOfInterval(points, i, c);
    }
    TabAscending(points);
    RangeTestFinds(IsWide(points), tab, c);
    var k := |points| / 2 - 1;
    assert !IsWide(points) ==> tab[0] <= 0xffff by { assert tab[0] <= tab[2 * k]; }
    hide InInterval, InEntry, RangeTab, IsWide, RangeTest;
    assert InInterval(points, k, c) || !InInterval(points, k, c);
  }

  lemma CharInRange(env: Env, pos: nat)
    requires EnvOk(env) && pos < |env.units|
    ensures 0 <= CharAt(env, pos, |env.units|) < 0x110000
  {
  }

  lemma TestCharCorrect(env: Env, cs: CharSet, c: int)
    requires EnvOk(env) && WfSet(cs) && 0 <= c < 0x110000
    ensures IsCharOp(CharCode(env, cs))
    ensures TestChar(env, CharCode(env, cs), c) <==> Accepts(env, cs, c)
  {
    if cs.Cls? {
      var v := if cs.icase then env.canon(c) else c;
      if cs.points == [] {
        assert !InPoints(cs.points, v);
      } else {
        RangeTabCorrect(cs.points, v);
      }
    }
  }

  /** The machine has room for the groups and registers of n. */
  ghost predicate Room(n: Node, bw: bool, cc: nat, d: nat, t: Th) {
    && 2 * (cc + NumGroups(n)) <= |t.slots| && d + RegNeed(n, bw) <= |t.regs|
  }

  // ----- when the scan drops the advance check, the position moves ----------------------------------

  lemma {:induction false} Advances(env: Env, n: Node, bw: bool, cc: nat, x: St, k: nat)
    requires !ScanNode(n, bw).adv && k < |M(env, n, bw, cc, x)|
    ensures M(env, n, bw, cc, x)[k].pos != x.pos
    decreases n, 2
  {
    match n
    case Chr(cs) =>
    case Cat(_, _) => AdvancesCat(env, n, bw, cc, x, k);
    case Group(_) => AdvancesGroup(env, n, bw, cc, x, k);
    case Quant(_, _, _, _) => AdvancesQuant(env, n, bw, cc, x, k);
    case _ => assert false;
  }

  lemma AdvancesGroup(env: Env, n: Node, bw: bool, cc: nat, x: St, k: nat)
    requires n.Group? && !ScanNode(n, bw).adv && k < |M(env, n, bw, cc, x)|
    ensures M(env, n, bw, cc, x)[k].pos != x.pos
    decreases n, 0
  {
    hide M;
    MatchGroup(env, n, bw, cc, x);
    var x1 := x.(slots := SetSlot(x.slots, 2 * cc + (if bw then 1 else 0), x.pos));
    Advances(env, n.body, bw, cc + 1, x1, k);
  }

  lemma ScanOfCat(n: Node, bw: bool)
    requires n.Cat? && !ScanNode(n, bw).adv
    ensures !ScanNode(n.l, bw).adv || !ScanNode(n.r, bw).adv
  {
  }

  lemma AdvancesCat(env: Env, n: Node, bw: bool, cc: nat, x: St, k: nat)
    requires n.Cat? && !ScanNode(n, bw).adv && k < |M(env, n, bw, cc, x)|
    ensures M(env, n, bw, cc, x)[k].pos != x.pos
    decreases n, 1
  {
    hide M, MMap, Flat, ScanNode;
    ScanOfCat(n, bw);
    var cr := cc + NumGroups(n.l);
    MatchCat(env, n, bw, cc, x);
    if bw { AdvancesSeq(env, n, n.r, n.l, bw, cr, cc, x, k); }
    else { AdvancesSeq(env, n, n.l, n.r, bw, cc, cr, x, k); }
  }

  /** a is the part of n that runs first. */
  lemma AdvancesSeq(env: Env, n: Node, a: Node, b: Node, bw: bool, ca: nat, cb: nat, x: St, k: nat)
    requires n.Cat? && (a == n.l || a == n.r) && (b == n.l || b == n.r)
    requires !ScanNode(a, bw).adv || !ScanNode(b, bw).adv
    requires k < |Flat(MMap(env, b, bw, cb, x, M(env, a, bw, ca, x)))|
    ensures Flat(MMap(env, b, bw, cb, x, M(env, a, bw, ca, x)))[k].pos != x.pos
    decreases n, 0
  {
    hide M, MMap, ScanNode, Flat;
    var ys := M(env, a, bw, ca, x);
    var rr := MMap(env, b, bw, cb, x, ys);
    var i, j := FlatIndex(rr, k);
    assert Moves(env, bw, x, ys[i]) && rr[i] == M(env, b, bw, cb, ys[i]);
    assert Moves(env, bw, ys[i], rr[i][j]);
    if !ScanNode(a, bw).adv { Advances(env, a, bw, ca, x, i); } else { Advances(env, b, bw, cb, ys[i], j); }
  }

  lemma AdvancesQuant(env: Env, n: Node, bw: bool, cc: nat, x: St, k: nat)
    requires n.Quant? && !ScanNode(n, bw).adv && k < |M(env, n, bw, cc, x)|
    ensures M(env, n, bw, cc, x)[k].pos != x.pos
    decreases n, 0
  {
    var b, min, greedy := n.body, n.min, n.greedy;
    var init := ScanNode(b, bw).init;
    var xr := if init then x.(slots := Reset(x.slots, cc, NumGroups(b))) else x;
    var ys := M(env, b, bw, cc, xr);
    var rr := RepMap(env, b, bw, cc, init, greedy, min, EffMax(n, bw), x, ys);
    calc {
      M(env, n, bw, cc, x);
      Rep(env, b, bw, cc, init, greedy, min, EffMax(n, bw), x);
      Iter(env, b, bw, cc, init, greedy, min, EffMax(n, bw), x);
      Flat(rr);
    }
    var i, j := FlatIndex(rr, k);
    hide M, RepMap;
    assert Moves(env, bw, x, ys[i]) && Moves(env, bw, ys[i], rr[i][j]);
    Advances(env, b, bw, cc, xr, i);
  }

  /** Where the k-th element of a concatenation comes from. */
  lemma {:induction false} FlatIndex(rr: seq<seq<St>>, k: nat) returns (i: nat, j: nat)
    requires k < |Flat(rr)|
    ensures i < |rr| && j < |rr[i]| && Flat(rr)[k] == rr[i][j]
    decreases rr
  {
    if k < |rr[0]| {
      i, j := 0, k;
    } else {
      i, j := FlatIndex(rr[1..], k - |rr[0]|);
      i := i + 1;
    }
  }

  // ----- pieces of code -----------------------------------------------------------------------------

  lemma AtOne(code: seq<u8>, pc: nat, i: Instr)
    ensures At(code, pc, [i]) <==> Decode(code, pc) == Some(i)
    ensures Sz([i]) == Size(i)
  {
    hide Decode, Enc;
    assert EncAll([i]) == Enc(i) + EncAll([]);
  }

  lemma AtParts(code: seq<u8>, pc: nat, a: seq<Instr>, b: seq<Instr>)
    requires At(code, pc, a + b)
    ensures At(code, pc, a) && At(code, pc + Sz(a), b) && Sz(a + b) == Sz(a) + Sz(b)
  {
    hide At, EncAll;
    AtAppend(code, pc, a, b);
    EncAppend(a, b);
  }

  lemma AtThree(code: seq<u8>, pc: nat, a: seq<Instr>, b: seq<Instr>, c: seq<Instr>)
    requires At(code, pc, a + b + c)
    ensures At(code, pc, a) && At(code, pc + Sz(a), b) && At(code, pc + Sz(a) + Sz(b), c)
    ensures Sz(a + b + c) == Sz(a) + Sz(b) + Sz(c)
  {
    hide At, Sz;
    AtParts(code, pc, a + b, c);
    AtParts(code, pc, a, b);
  }

  // ----- statement ----------------------------------------------------------------------------------

  ghost predicate Ready(P: Prog, n: Node, bw: bool, cc: nat, d: nat, t: Th) {
    && EnvOk(P.env) && Wf(n) && RefsIn(n, |t.slots| / 2) && Room(n, bw, cc, d, t) && Boundary(P.env, t.pos)
  }

  function GoalAt(P: Prog, end: nat, d: nat, t: Th): Goal
    requires d <= |t.regs|
  {
    Goal(P, end, t.regs[..d], |t.regs|)
  }

  lemma GoalSame(P: Prog, end: nat, d: nat, t: Th, t': Th, y: St, g: Goal)
    requires d <= |g.lo| <= |t.regs| && g.lo[..d] == t.regs[..d] && g.rc == |t.regs| && Arrives(g, t', y)
    ensures d <= |t'.regs| && GoalAt(P, end, d, t') == GoalAt(P, end, d, t)
  {
    assert t'.regs[..d] == g.lo[..d];
  }
}
