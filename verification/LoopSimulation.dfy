/**
 The three loop shapes that the compiler emits for quantifiers, each shown to run the
 iterations that RepeatMatcher prescribes, in the same order.
 */
module LoopSimulation {
  import opened RegexpPattern
  import opened Bytecode
  import opened SlotMatcher
  import opened Codegen
  import opened Machine
  import opened Simulation

  /** The quantified atom b with its compile-time parameters. */
  datatype Atom = Atom(P: Prog, b: Node, bw: bool, cc: nat, init: bool, greedy: bool)

  /** The state in which an iteration from x starts. */
  function Start(a: Atom, x: St): St {
    if a.init then x.(slots := Reset(x.slots, a.cc, NumGroups(a.b))) else x
  }

  function IterOf(a: Atom, min: nat, max: int, x: St): seq<St> {
    Iter(a.P.env, a.b, a.bw, a.cc, a.init, a.greedy, min, max, x)
  }

  function RepOf(a: Atom, min: nat, max: int, x: St): seq<St> {
    Rep(a.P.env, a.b, a.bw, a.cc, a.init, a.greedy, min, max, x)
  }

  function Results(a: Atom, x: St): seq<St> { M(a.P.env, a.b, a.bw, a.cc, Start(a, x)) }

  /** The code of the atom stands between pa and pe and keeps the registers below d. */
  ghost predicate Body(a: Atom, d: nat, pa: nat, pe: nat) {
    forall t, s :: Ready(a.P, a.b, a.bw, a.cc, d, t) ==>
      Yields(GoalAt(a.P, pe, d, t), Run(pa, t, s), s, Results(a, Abs(t)))
  }

  /** What one iteration that ended in y contributes. */
  function After(a: Atom, min: nat, max: int, x: St, y: St): seq<St> {
    if min == 0 && y.pos == x.pos then [] else RepOf(a, if min == 0 then 0 else min - 1, Pred(max), y)
  }

  lemma ResultsMove(a: Atom, x: St, i: nat)
    requires i < |Results(a, x)|
    ensures Moves(a.P.env, a.bw, x, Results(a, x)[i])
  {
    hide M, Reset;
    assert Moves(a.P.env, a.bw, Start(a, x), Results(a, x)[i]);
  }

  /** One iteration, then whatever follows it. */
  lemma RunIter(a: Atom, min: nat, max: int, d: nat, pa: nat, pe: nat, g: Goal, t: Th, s: Stack)
    requires Body(a, d, pa, pe) && Ready(a.P, a.b, a.bw, a.cc, d, t) && g.P == a.P
    requires forall i :: 0 <= i < |Results(a, Abs(t))| ==>
      Cont(GoalAt(a.P, pe, d, t), g, s, Results(a, Abs(t))[i], After(a, min, max, Abs(t), Results(a, Abs(t))[i]))
    ensures Yields(g, Run(pa, t, s), s, IterOf(a, min, max, Abs(t)))
  {
    var x := Abs(t);
    var ys := Results(a, x);
    forall i | 0 <= i < |ys| ensures Moves(a.P.env, a.bw, x, ys[i]) { ResultsMove(a, x, i); }
    var rr := RepMap(a.P.env, a.b, a.bw, a.cc, a.init, a.greedy, min, max, x, ys);
    assert IterOf(a, min, max, x) == Flat(rr) by { hide M, Rep, RepMap, Flat; }
    hide M, Rep, RepMap, Flat, Yields, Cont, IterOf, Ready, Results;
    assert forall i :: 0 <= i < |ys| ==> rr[i] == After(a, min, max, x, ys[i]);
    assert Yields(GoalAt(a.P, pe, d, t), Run(pa, t, s), s, ys);
    YieldsFlat(GoalAt(a.P, pe, d, t), g, Run(pa, t, s), s, ys, rr);
  }

  ghost predicate Iterates(g: Goal, p: nat, t: Th, base: Stack, R: seq<St>) {
    forall s :: Above(s, base) ==> Yields(g, Run(p, t, s), s, R)
  }

  /** A split between iterating at p and leaving at g.end. */
  lemma RunFork(g: Goal, c: Cfg, p: nat, t: Th, base: Stack, greedy: bool, R: seq<St>)
    requires g.lo <= t.regs && |t.regs| == g.rc && Iterates(g, p, t, base, R)
    requires Reaches(g.P, c, if greedy then Run(p, t, Push(KSplit, g.end, t, base))
                             else Run(g.end, t, Push(KSplit, p, t, base)))
    ensures Yields(g, c, base, if greedy then R + [Abs(t)] else [Abs(t)] + R)
  {
    hide Reaches, Yields;
    if greedy {
      var s1 := Push(KSplit, g.end, t, base);
      assert Above(s1, base);
      OneBack(g.P, KSplit, g.end, t, base);
      YieldsOne(g, Back(s1), base, t);
      YieldsAppend(g, Run(p, t, s1), s1, base, R, [Abs(t)]);
      YieldsPrefix(g, c, Run(p, t, s1), base, R + [Abs(t)]);
    } else {
      var s1 := Push(KSplit, p, t, base);
      assert Above(base, base) && Above(s1, base);
      OneBack(g.P, KSplit, p, t, base);
      YieldsPrefix(g, Back(s1), Run(p, t, base), base, R);
      YieldsCons(g, c, base, t, s1, R);
    }
  }

  lemma RemLess(env: Env, bw: bool, x: St, y: St)
    requires Moves(env, bw, x, y) && y.pos != x.pos
    ensures Rem(env, bw, y.pos) < Rem(env, bw, x.pos)
  {
  }

  lemma ReadyAgain(a: Atom, d: nat, t: Th, t': Th, y: St, g: Goal)
    requires Ready(a.P, a.b, a.bw, a.cc, d, t) && Moves(a.P.env, a.bw, Abs(t), y)
    requires Arrives(g, t', y) && g.rc == |t.regs|
    ensures Ready(a.P, a.b, a.bw, a.cc, d, t')
  {
  }

  // ----- a? and a* ----------------------------------------------------------------------------------

  datatype StarLoop = StarLoop(a: Atom, adv: bool, star: bool, d: nat, pc: nat, pa: nat, pe: nat, end: nat) {
    function Regs(): nat { if adv then d + 1 else d }
    function Max(): int { if star then -1 else 1 }
    function Next(): nat { if adv then pe + 2 else pe }

    ghost predicate Laid() {
      && end >= pc + 5
      && Decode(a.P.code, pc) == Some(Split(a.greedy, end - (pc + 5)))
      && (if adv then pa == pc + 7 && Decode(a.P.code, pc + 5) == Some(SetCharPos(d))
                      && Decode(a.P.code, pe) == Some(CheckAdvance(d))
          else pa == pc + 5)
      && (if star then end == Next() + 5 && Decode(a.P.code, Next()) == Some(Goto(pc - end)) else end == Next())
      && Body(a, Regs(), pa, pe)
      && (adv || !ScanNode(a.b, a.bw).adv)
    }
  }

  lemma {:induction false} RunStar(L: StarLoop, t: Th, base: Stack)
    requires L.Laid() && Ready(L.a.P, L.a.b, L.a.bw, L.a.cc, L.Regs(), t)
    ensures Yields(GoalAt(L.a.P, L.end, L.d, t), Run(L.pc, t, base), base, RepOf(L.a, 0, L.Max(), Abs(t)))
    decreases Rem(L.a.P.env, L.a.bw, t.pos), 2
  {
    hide Decode, Enc, Size, Yields, Reaches, Iter, EnvOk, Wf, RefsIn, Body, ScanNode, Rem, M;
    var a := L.a;
    var g := GoalAt(a.P, L.end, L.d, t);
    Sizes();
    OneInstr(a.P, L.pc, Split(a.greedy, L.end - (L.pc + 5)), t, base);
    forall s | Above(s, base) ensures Yields(g, Run(L.pc + 5, t, s), s, IterOf(a, 0, L.Max(), Abs(t))) {
      RunStarBody(L, t, s);
    }
    RunFork(g, Run(L.pc, t, base), L.pc + 5, t, base, a.greedy, IterOf(a, 0, L.Max(), Abs(t)));
  }

  lemma RunStarBody(L: StarLoop, t: Th, s: Stack)
    requires L.Laid() && Ready(L.a.P, L.a.b, L.a.bw, L.a.cc, L.Regs(), t)
    ensures Yields(GoalAt(L.a.P, L.end, L.d, t), Run(L.pc + 5, t, s), s, IterOf(L.a, 0, L.Max(), Abs(t)))
    decreases Rem(L.a.P.env, L.a.bw, t.pos), 1
  {
    hide Decode, Enc, Size, Yields, Reaches, Iter, Body, ScanNode, Rem, EnvOk, Wf, RefsIn, M, IterOf, RepOf, Above;
    var a := L.a;
    var g := GoalAt(a.P, L.end, L.d, t);
    var t1 := if L.adv then SetReg(t, L.d, t.pos) else t;
    Sizes();
    if L.adv { OneInstr(a.P, L.pc + 5, SetCharPos(L.d), t, s); } else { Refl(a.P, Run(L.pc + 5, t, s)); }
    assert Reaches(a.P, Run(L.pc + 5, t, s), Run(L.pa, t1, s));
    var ys := Results(a, Abs(t1));
    var g1 := GoalAt(a.P, L.pe, L.Regs(), t1);
    forall i | 0 <= i < |ys| ensures Cont(g1, g, s, ys[i], After(a, 0, L.Max(), Abs(t), ys[i])) {
      ResultsMove(a, Abs(t), i);
      if !L.adv { Advances(a.P.env, a.b, a.bw, a.cc, Start(a, Abs(t)), i); }
      forall t', s' | Above(s', s) && Arrives(g1, t', ys[i])
        ensures Yields(g, Run(g1.end, t', s'), s', After(a, 0, L.Max(), Abs(t), ys[i]))
      {
        RunStarNext(L, t, t', s', ys[i]);
      }
    }
    RunIter(a, 0, L.Max(), L.Regs(), L.pa, L.pe, g, t1, s);
    YieldsPrefix(g, Run(L.pc + 5, t, s), Run(L.pa, t1, s), s, IterOf(a, 0, L.Max(), Abs(t)));
  }

  lemma RunStarNext(L: StarLoop, t: Th, t': Th, s: Stack, y: St)
    requires L.Laid() && Ready(L.a.P, L.a.b, L.a.bw, L.a.cc, L.Regs(), t) && Moves(L.a.P.env, L.a.bw, Abs(t), y)
    requires Arrives(GoalAt(L.a.P, L.pe, L.Regs(), if L.adv then SetReg(t, L.d, t.pos) else t), t', y)
    requires L.adv || y.pos != t.pos
    ensures Yields(GoalAt(L.a.P, L.end, L.d, t), Run(L.pe, t', s), s, After(L.a, 0, L.Max(), Abs(t), y))
    decreases Rem(L.a.P.env, L.a.bw, t.pos), 0
  {
    hide Decode, Enc, Size, Yields, Reaches, Iter, Body, ScanNode, Rem, EnvOk, Wf, RefsIn, M, Above;
    var a := L.a;
    var g := GoalAt(a.P, L.end, L.d, t);
    var t1 := if L.adv then SetReg(t, L.d, t.pos) else t;
    var g1 := GoalAt(a.P, L.pe, L.Regs(), t1);
    assert g1.lo[..L.d] == t.regs[..L.d];
    GoalSame(a.P, L.end, L.d, t, t', y, g1);
    Sizes();
    if L.adv {
      assert t'.regs[L.d] == g1.lo[L.d] == t.pos;
      OneInstr(a.P, L.pe, CheckAdvance(L.d), t', s);
    } else {
      Refl(a.P, Run(L.pe, t', s));
    }
    if y.pos == t.pos {
      YieldsNone(g, Run(L.pe, t', s), s);
    } else if L.star {
      assert Reaches(a.P, Run(L.pe, t', s), Run(L.Next(), t', s));
      OneInstr(a.P, L.Next(), Goto(L.pc - L.end), t', s);
      Trans(a.P, Run(L.pe, t', s), Run(L.Next(), t', s), Run(L.pc, t', s));
      RemLess(a.P.env, a.bw, Abs(t), y);
      ReadyAgain(a, L.Regs(), t, t', y, g1);
      RunStar(L, t', s);
      YieldsPrefix(g, Run(L.pe, t', s), Run(L.pc, t', s), s, RepOf(a, 0, -1, y));
    } else {
      YieldsOne(g, Run(L.pe, t', s), s, t');
    }
  }

  // ----- a+ without an advance check ----------------------------------------------------------------

  datatype PlusLoop = PlusLoop(a: Atom, d: nat, pa: nat, pe: nat) {
    ghost predicate Laid() {
      && Decode(a.P.code, pe) == Some(Split(!a.greedy, pa - (pe + 5)))
      && Body(a, d, pa, pe)
      && !ScanNode(a.b, a.bw).adv
    }
  }

  lemma {:induction false} RunPlus(L: PlusLoop, min: nat, t: Th, s: Stack)
    requires L.Laid() && Ready(L.a.P, L.a.b, L.a.bw, L.a.cc, L.d, t) && min <= 1
    ensures Yields(GoalAt(L.a.P, L.pe + 5, L.d, t), Run(L.pa, t, s), s, IterOf(L.a, min, -1, Abs(t)))
    decreases Rem(L.a.P.env, L.a.bw, t.pos), 1
  {
    hide Decode, Enc, Size, Yields, Reaches, Iter, Body, ScanNode, Rem, EnvOk, Wf, RefsIn, M, IterOf, RepOf, Above;
    var a := L.a;
    var g := GoalAt(a.P, L.pe + 5, L.d, t);
    var ys := Results(a, Abs(t));
    var g1 := GoalAt(a.P, L.pe, L.d, t);
    forall i | 0 <= i < |ys| ensures Cont(g1, g, s, ys[i], After(a, min, -1, Abs(t), ys[i])) {
      ResultsMove(a, Abs(t), i);
      Advances(a.P.env, a.b, a.bw, a.cc, Start(a, Abs(t)), i);
      forall t', s' | Above(s', s) && Arrives(g1, t', ys[i])
        ensures Yields(g, Run(g1.end, t', s'), s', After(a, min, -1, Abs(t), ys[i]))
      {
        RunPlusNext(L, t, t', s', ys[i]);
      }
    }
    RunIter(a, min, -1, L.d, L.pa, L.pe, g, t, s);
  }

  lemma RunPlusNext(L: PlusLoop, t: Th, t': Th, s: Stack, y: St)
    requires L.Laid() && Ready(L.a.P, L.a.b, L.a.bw, L.a.cc, L.d, t) && Moves(L.a.P.env, L.a.bw, Abs(t), y)
    requires Arrives(GoalAt(L.a.P, L.pe, L.d, t), t', y) && y.pos != t.pos
    ensures Yields(GoalAt(L.a.P, L.pe + 5, L.d, t), Run(L.pe, t', s), s, RepOf(L.a, 0, -1, y))
    decreases Rem(L.a.P.env, L.a.bw, t.pos), 0
  {
    hide Decode, Enc, Size, Yields, Reaches, Iter, Body, ScanNode, Rem, EnvOk, Wf, RefsIn, M;
    var a := L.a;
    var g := GoalAt(a.P, L.pe + 5, L.d, t);
    var g1 := GoalAt(a.P, L.pe, L.d, t);
    GoalSame(a.P, L.pe + 5, L.d, t, t', y, g1);
    RemLess(a.P.env, a.bw, Abs(t), y);
    ReadyAgain(a, L.d, t, t', y, g1);
    Sizes();
    OneInstr(a.P, L.pe, Split(!a.greedy, L.pa - (L.pe + 5)), t', s);
    forall s' | Above(s', s) ensures Yields(g, Run(L.pa, t', s'), s', IterOf(a, 0, -1, y)) {
      RunPlus(L, 0, t', s');
    }
    RunFork(g, Run(L.pe, t', s), L.pa, t', s, a.greedy, IterOf(a, 0, -1, y));
  }

  // ----- counted loops ------------------------------------------------------------------------------

  /** The loop after set_i32; register d counts down, register d + 1 holds the start of the iteration. */
  datatype CountLoop = CountLoop(a: Atom, adv: bool, simple: bool, limit: nat, d: nat, pc: nat, pa: nat, pe: nat) {
    function Regs(): nat { if adv then d + 2 else d + 1 }
    function End(): nat { if simple then pe + 6 else pe + 10 }

    ghost predicate Laid() {
      && (if adv then pa == pc + 2 && Decode(a.P.code, pc) == Some(SetCharPos(d + 1)) else pa == pc)
      && (if simple then limit == 0 && Decode(a.P.code, pe) == Some(Loop(d, pc - End()))
          else Decode(a.P.code, pe) == Some(LoopSplit(adv, !a.greedy, d, limit, pc - End())))
      && Body(a, Regs(), pa, pe)
      && (adv || simple || !ScanNode(a.b, a.bw).adv)
    }

    /** Mandatory iterations left when the counter is c. */
    function Left(c: nat): nat { if c > limit then c - limit else 0 }
  }

  lemma {:induction false} RunCount(L: CountLoop, c: nat, t: Th, s: Stack)
    requires L.Laid() && Ready(L.a.P, L.a.b, L.a.bw, L.a.cc, L.Regs(), t)
    requires t.regs[L.d] == c && 1 <= c <= INT32_MAX
    ensures Yields(GoalAt(L.a.P, L.End(), L.d, t), Run(L.pc, t, s), s, IterOf(L.a, L.Left(c), c, Abs(t)))
    decreases c, 1
  {
    hide Decode, Enc, Size, Yields, Reaches, Iter, Body, ScanNode, EnvOk, Wf, RefsIn, M, IterOf, RepOf, Above;
    var a := L.a;
    var g := GoalAt(a.P, L.End(), L.d, t);
    var t1 := if L.adv then SetReg(t, L.d + 1, t.pos) else t;
    Sizes();
    if L.adv { OneInstr(a.P, L.pc, SetCharPos(L.d + 1), t, s); } else { Refl(a.P, Run(L.pc, t, s)); }
    assert Reaches(a.P, Run(L.pc, t, s), Run(L.pa, t1, s));
    var ys := Results(a, Abs(t1));
    var g1 := GoalAt(a.P, L.pe, L.Regs(), t1);
    forall i | 0 <= i < |ys| ensures Cont(g1, g, s, ys[i], After(a, L.Left(c), c, Abs(t), ys[i])) {
      ResultsMove(a, Abs(t), i);
      if !L.adv && !L.simple { Advances(a.P.env, a.b, a.bw, a.cc, Start(a, Abs(t)), i); }
      forall t', s' | Above(s', s) && Arrives(g1, t', ys[i])
        ensures Yields(g, Run(g1.end, t', s'), s', After(a, L.Left(c), c, Abs(t), ys[i]))
      {
        RunCountNext(L, c, t, t', s', ys[i]);
      }
    }
    RunIter(a, L.Left(c), c, L.Regs(), L.pa, L.pe, g, t1, s);
    YieldsPrefix(g, Run(L.pc, t, s), Run(L.pa, t1, s), s, IterOf(a, L.Left(c), c, Abs(t)));
  }

  /** The instruction at the end of an iteration. */
  lemma CountStep(L: CountLoop, c: nat, t: Th, s: Stack)
    requires L.Laid() && L.Regs() <= |t.regs| && t.regs[L.d] == c && 1 <= c <= INT32_MAX
    ensures var v, t2 := c - 1, SetReg(t, L.d, c - 1);
      Reaches(L.a.P, Run(L.pe, t, s),
        if v > L.limit then Run(L.pc, t2, s)
        else if !L.simple && L.adv && t.regs[L.d + 1] == t.pos && v != L.limit then Back(s)
        else if v != 0 then Fork(L.End(), L.pc - L.End(), !L.a.greedy, t2, s)
        else Run(L.End(), t2, s))
  {
    hide Decode, Enc, Reaches, Body, ScanNode;
    Sizes();
    var last := if L.simple then Loop(L.d, L.pc - L.End()) else LoopSplit(L.adv, !L.a.greedy, L.d, L.limit, L.pc - L.End());
    OneInstr(L.a.P, L.pe, last, t, s);
  }

  lemma RunCountNext(L: CountLoop, c: nat, t: Th, t': Th, s: Stack, y: St)
    requires L.Laid() && Ready(L.a.P, L.a.b, L.a.bw, L.a.cc, L.Regs(), t) && Moves(L.a.P.env, L.a.bw, Abs(t), y)
    requires t.regs[L.d] == c && 1 <= c <= INT32_MAX
    requires Arrives(GoalAt(L.a.P, L.pe, L.Regs(), if L.adv then SetReg(t, L.d + 1, t.pos) else t), t', y)
    requires L.adv || L.simple || y.pos != t.pos
    ensures Yields(GoalAt(L.a.P, L.End(), L.d, t), Run(L.pe, t', s), s, After(L.a, L.Left(c), c, Abs(t), y))
    decreases c, 0
  {
    hide Decode, Enc, Size, Yields, Reaches, Iter, Body, ScanNode, EnvOk, Wf, RefsIn, M, Boundary, RegNeed, Exec;
    var a := L.a;
    var g := GoalAt(a.P, L.End(), L.d, t);
    var t1 := if L.adv then SetReg(t, L.d + 1, t.pos) else t;
    var g1 := GoalAt(a.P, L.pe, L.Regs(), t1);
    assert t'.regs[L.d] == g1.lo[L.d] == c;
    if L.adv { assert t'.regs[L.d + 1] == g1.lo[L.d + 1] == t.pos; }
    var v := c - 1;
    var t2 := SetReg(t', L.d, v);
    assert t2.regs[..L.d] == g1.lo[..L.d] == t.regs[..L.d];
    ReadyAgain(a, L.Regs(), t, t', y, g1);
    var start := Run(L.pe, t', s);
    CountStep(L, c, t', s);
    if v > L.limit {
      assert Reaches(a.P, start, Run(L.pc, t2, s));
      RunCount(L, v, t2, s);
      YieldsPrefix(g, start, Run(L.pc, t2, s), s, IterOf(a, L.Left(v), v, y));
    } else if !L.simple && L.adv && t.pos == y.pos && v != L.limit {
      YieldsNone(g, start, s);
    } else if v != 0 {
      forall s' | Above(s', s) ensures Yields(g, Run(L.pc, t2, s'), s', IterOf(a, 0, v, y)) {
        RunCount(L, v, t2, s');
      }
      RunFork(g, start, L.pc, t2, s, a.greedy, IterOf(a, 0, v, y));
    } else {
      YieldsOne(g, start, s, t2);
    }
  }
}
