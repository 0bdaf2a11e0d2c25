/**
 Compiler correctness at the level of one node: wherever the code of a node stands, running it
 yields exactly the results of the slot matcher, in order.
 */
module NodeSimulation {
  import opened RegexpPattern
  import opened Bytecode
  import opened SlotMatcher
  import opened Codegen
  import opened Machine
  import opened Simulation
  import opened LoopSimulation

  // ----- single characters and assertions -----------------------------------------------------------

  /** A node whose code is one instruction that either passes or fails. */
  lemma SimPass(P: Prog, i: Instr, d: nat, pc: nat, t: Th, t': Th, base: Stack, R: seq<St>)
    requires d <= |t.regs| && t'.regs == t.regs && At(P.code, pc, [i])
    requires Exec(P.env, i, pc + Size(i), t, base) == if R == [] then Back(base) else Run(pc + Size(i), t', base)
    requires R == [] || R == [Abs(t')]
    ensures Yields(GoalAt(P, pc + Sz([i]), d, t), Run(pc, t, base), base, R)
  {
    hide Exec, Decode, Enc;
    AtOne(P.code, pc, i);
    OneInstr(P, pc, i, t, base);
    if R == [] {
      YieldsNone(GoalAt(P, pc + Sz([i]), d, t), Run(pc, t, base), base);
    } else {
      YieldsOne(GoalAt(P, pc + Sz([i]), d, t), Run(pc, t, base), base, t');
    }
  }

  lemma ExecChar(env: Env, i: Instr, next: nat, t: Th, s: Stack)
    requires IsCharOp(i)
    ensures Exec(env, i, next, t, s) ==
      if t.pos < |env.units| && TestChar(env, i, CharAt(env, t.pos, |env.units|))
      then Run(next, t.(pos := t.pos + CharLen(env, t.pos, |env.units|)), s) else Back(s)
  {
  }

  /** The effect of the instruction for cs. */
  lemma ExecCharCode(env: Env, cs: CharSet, next: nat, t: Th, s: Stack)
    requires EnvOk(env) && WfSet(cs)
    ensures Exec(env, CharCode(env, cs), next, t, s) ==
      if t.pos < |env.units| && Accepts(env, cs, CharAt(env, t.pos, |env.units|))
      then Run(next, t.(pos := t.pos + CharLen(env, t.pos, |env.units|)), s) else Back(s)
  {
    var i := CharCode(env, cs);
    TestCharCorrect(env, cs, 0);
    ExecChar(env, i, next, t, s);
    hide Exec, CharCode, TestChar, Accepts, IsCharOp;
    if t.pos < |env.units| {
      CharInRange(env, t.pos);
      TestCharCorrect(env, cs, CharAt(env, t.pos, |env.units|));
    }
  }

  lemma SimChrForward(P: Prog, cs: CharSet, cc: nat, d: nat, pc: nat, t: Th, base: Stack)
    requires Ready(P, Chr(cs), false, cc, d, t) && At(P.code, pc, [CharCode(P.env, cs)])
    ensures Yields(GoalAt(P, pc + Sz([CharCode(P.env, cs)]), d, t), Run(pc, t, base), base,
                   M(P.env, Chr(cs), false, cc, Abs(t)))
  {
    hide Exec, CharCode, Accepts, At, EnvOk, Size;
    var i := CharCode(P.env, cs);
    var n := |P.env.units|;
    ExecCharCode(P.env, cs, pc + Size(i), t, base);
    var t' := if t.pos < n then t.(pos := t.pos + CharLen(P.env, t.pos, n)) else t;
    SimPass(P, i, d, pc, t, t', base, M(P.env, Chr(cs), false, cc, Abs(t)));
  }

  lemma ExecPrev(env: Env, next: nat, t: Th, s: Stack)
    ensures Size(Prev) == 1
    ensures Exec(env, Prev, next, t, s) ==
      if 0 < t.pos <= |env.units| then Run(next, t.(pos := t.pos - PrevLen(env, t.pos, 0)), s) else Back(s)
  {
  }

  /** prev, a character test and prev again move back over one character. */
  lemma StepBack(P: Prog, cs: CharSet, pc: nat, t: Th, base: Stack)
    requires EnvOk(P.env) && WfSet(cs) && Boundary(P.env, t.pos)
    requires Decode(P.code, pc) == Some(Prev)
    requires Decode(P.code, pc + 1) == Some(CharCode(P.env, cs))
    requires Decode(P.code, pc + 1 + Size(CharCode(P.env, cs))) == Some(Prev)
    ensures Reaches(P, Run(pc, t, base),
      if 0 < t.pos <= |P.env.units| && Accepts(P.env, cs, PrevChar(P.env, t.pos, 0))
      then Run(pc + 2 + Size(CharCode(P.env, cs)), t.(pos := t.pos - PrevLen(P.env, t.pos, 0)), base)
      else Back(base))
  {
    hide Decode, Enc, CharCode, Exec, Accepts, Reaches, PrevLen, CharLen, PrevChar, CharAt;
    var i := CharCode(P.env, cs);
    ExecPrev(P.env, pc + 1, t, base);
    OneInstr(P, pc, Prev, t, base);
    if 0 < t.pos <= |P.env.units| {
      var t1 := t.(pos := t.pos - PrevLen(P.env, t.pos, 0));
      ExecPrev(P.env, pc + 2 + Size(i), t, base);
      BackForward(P.env, t.pos);
      BackForwardPrev(P.env, t.pos);
      ExecCharCode(P.env, cs, pc + 1 + Size(i), t1, base);
      OneInstr(P, pc + 1, i, t1, base);
      Trans(P, Run(pc, t, base), Run(pc + 1, t1, base), Exec(P.env, i, pc + 1 + Size(i), t1, base));
      if Accepts(P.env, cs, PrevChar(P.env, t.pos, 0)) {
        OneInstr(P, pc + 1 + Size(i), Prev, t, base);
        Trans(P, Run(pc, t, base), Run(pc + 1 + Size(i), t, base), Run(pc + 2 + Size(i), t1, base));
      }
    }
  }

  lemma SimChrBackward(P: Prog, cs: CharSet, cc: nat, d: nat, pc: nat, t: Th, base: Stack)
    requires Ready(P, Chr(cs), true, cc, d, t) && At(P.code, pc, [Prev] + [CharCode(P.env, cs)] + [Prev])
    ensures Yields(GoalAt(P, pc + Sz([Prev] + [CharCode(P.env, cs)] + [Prev]), d, t), Run(pc, t, base), base,
                   M(P.env, Chr(cs), true, cc, Abs(t)))
  {
    hide Decode, Enc, CharCode, At, Sz, Accepts, EnvOk, Reaches, PrevLen, PrevChar;
    var i := CharCode(P.env, cs);
    AtThree(P.code, pc, [Prev], [i], [Prev]);
    AtOne(P.code, pc, Prev);
    ExecPrev(P.env, pc, t, base);
    AtOne(P.code, pc + 1, i);
    AtOne(P.code, pc + 1 + Size(i), Prev);
    var g := GoalAt(P, pc + 2 + Size(i), d, t);
    StepBack(P, cs, pc, t, base);
    if 0 < t.pos <= |P.env.units| && Accepts(P.env, cs, PrevChar(P.env, t.pos, 0)) {
      YieldsOne(g, Run(pc, t, base), base, t.(pos := t.pos - PrevLen(P.env, t.pos, 0)));
    } else {
      YieldsNone(g, Run(pc, t, base), base);
    }
  }

  lemma BackForwardPrev(env: Env, pos: nat)
    requires 0 < pos <= |env.units|
    ensures pos - PrevLen(env, pos, 0) < |env.units|
  {
  }

  lemma SimAssert(P: Prog, a: Assertion, bw: bool, cc: nat, d: nat, pc: nat, t: Th, base: Stack)
    requires Ready(P, Assert(a), bw, cc, d, t) && At(P.code, pc, [AssertCode(a)])
    ensures Yields(GoalAt(P, pc + Sz([AssertCode(a)]), d, t), Run(pc, t, base), base,
                   M(P.env, Assert(a), bw, cc, Abs(t)))
  {
    hide Exec, Holds, AssertCode, Size, Sz, At, Yields, EnvOk, Boundary;
    ExecAssert(P.env, a, pc + Size(AssertCode(a)), t, base);
    SimPass(P, AssertCode(a), d, pc, t, t, base, M(P.env, Assert(a), bw, cc, Abs(t)));
  }

  lemma ExecAssert(env: Env, a: Assertion, next: nat, t: Th, s: Stack)
    ensures Exec(env, AssertCode(a), next, t, s) == if t.pos <= |env.units| && Holds(env, a, t.pos) then Run(next, t, s) else Back(s)
  {
    hide Holds;
  }

  lemma SimBackRef(P: Prog, n: Node, bw: bool, cc: nat, d: nat, pc: nat, t: Th, base: Stack)
    requires n.BackRef? && Ready(P, n, bw, cc, d, t) && At(P.code, pc, [BackRefOp(bw, n.icase, n.idxs)])
    ensures Yields(GoalAt(P, pc + Sz([BackRefOp(bw, n.icase, n.idxs)]), d, t), Run(pc, t, base), base,
                   M(P.env, n, bw, cc, Abs(t)))
  {
    var p := BackRefPos(P.env, bw, n.icase, n.idxs, t.slots, t.pos);
    var t' := if p == NULL then t else t.(pos := p);
    SimPass(P, BackRefOp(bw, n.icase, n.idxs), d, pc, t, t', base, M(P.env, n, bw, cc, Abs(t)));
  }

  // ----- all nodes ----------------------------------------------------------------------------------

  ghost predicate SimAt(P: Prog, n: Node, bw: bool, cc: nat, d: nat, pc: nat, t: Th, base: Stack) {
    && d <= |t.regs|
    && Yields(GoalAt(P, pc + Sz(Code(P.env, n, bw, cc, d)), d, t), Run(pc, t, base), base, M(P.env, n, bw, cc, Abs(t)))
  }

  /** The code of every node, wherever it stands, yields the node's results in order. */
  lemma {:induction false} Sim(P: Prog, n: Node, bw: bool, cc: nat, d: nat, pc: nat, t: Th, base: Stack)
    requires Ready(P, n, bw, cc, d, t) && At(P.code, pc, Code(P.env, n, bw, cc, d))
    ensures SimAt(P, n, bw, cc, d, pc, t, base)
    decreases n, 3
  {
    hide Yields, Sz, EnvOk, At;
    match n
    case Empty => SimEmpty(P, bw, cc, d, pc, t, base);
    case Chr(cs) => SimChr(P, n, bw, cc, d, pc, t, base);
    case Assert(a) => SimAssert(P, a, bw, cc, d, pc, t, base);
    case Cat(_, _) => SimCat(P, n, bw, cc, d, pc, t, base);
    case Alt(_, _) => SimAlt(P, n, bw, cc, d, pc, t, base);
    case Group(_) => SimGroup(P, n, bw, cc, d, pc, t, base);
    case BackRef(_, _) => SimBackRef(P, n, bw, cc, d, pc, t, base);
    case Quant(_, _, _, _) => SimQuant(P, n, bw, cc, d, pc, t, base);
    case Look(_, _, _) => SimLook(P, n, bw, cc, d, pc, t, base);
  }

  lemma SimEmpty(P: Prog, bw: bool, cc: nat, d: nat, pc: nat, t: Th, base: Stack)
    requires d <= |t.regs|
    ensures SimAt(P, Empty, bw, cc, d, pc, t, base)
  {
    assert Code(P.env, Empty, bw, cc, d) == [] && M(P.env, Empty, bw, cc, Abs(t)) == [Abs(t)];
    Refl(P, Run(pc, t, base));
    YieldsOne(GoalAt(P, pc, d, t), Run(pc, t, base), base, t);
  }

  lemma SimChr(P: Prog, n: Node, bw: bool, cc: nat, d: nat, pc: nat, t: Th, base: Stack)
    requires n.Chr? && Ready(P, n, bw, cc, d, t) && At(P.code, pc, Code(P.env, n, bw, cc, d))
    ensures SimAt(P, n, bw, cc, d, pc, t, base)
  {
    hide At, Sz, CharCode, Yields;
    var i := CharCode(P.env, n.cs);
    if bw {
      assert Code(P.env, n, bw, cc, d) == [Prev] + [i] + [Prev];
      SimChrBackward(P, n.cs, cc, d, pc, t, base);
    } else {
      assert Code(P.env, n, bw, cc, d) == [i];
      SimChrForward(P, n.cs, cc, d, pc, t, base);
    }
  }

  /** The parts of a sequence or an alternative may run where the whole may. */
  lemma ReadyPair(P: Prog, n: Node, bw: bool, cc: nat, d: nat, t: Th)
    requires (n.Cat? || n.Alt?) && Ready(P, n, bw, cc, d, t)
    ensures Ready(P, n.l, bw, cc, d, t) && Ready(P, n.r, bw, cc + NumGroups(n.l), d, t)
    ensures d <= |t.regs|
  {
    hide EnvOk, Boundary;
  }

  lemma SimCat(P: Prog, n: Node, bw: bool, cc: nat, d: nat, pc: nat, t: Th, base: Stack)
    requires n.Cat? && Ready(P, n, bw, cc, d, t) && At(P.code, pc, Code(P.env, n, bw, cc, d))
    ensures SimAt(P, n, bw, cc, d, pc, t, base)
    decreases n, 2
  {
    hide At, Sz, M, MMap, Yields, Flat, Comp, Ready, NumGroups;
    ReadyPair(P, n, bw, cc, d, t);
    CompCat(P.env, n, bw, cc, false, d);
    MatchCat(P.env, n, bw, cc, Abs(t));
    if bw {
      AtParts(P.code, pc, Code(P.env, n.r, bw, cc + NumGroups(n.l), d), Code(P.env, n.l, bw, cc, d));
      RunCat(P, n, n.r, n.l, bw, cc + NumGroups(n.l), cc, d, pc, t, base);
    } else {
      AtParts(P.code, pc, Code(P.env, n.l, bw, cc, d), Code(P.env, n.r, bw, cc + NumGroups(n.l), d));
      RunCat(P, n, n.l, n.r, bw, cc, cc + NumGroups(n.l), d, pc, t, base);
    }
  }

  /** The code of a followed by the code of b. */
  lemma RunCat(P: Prog, n: Node, a: Node, b: Node, bw: bool, ca: nat, cb: nat, d: nat, pc: nat, t: Th, base: Stack)
    requires n.Cat? && (a == n.l || a == n.r) && (b == n.l || b == n.r)
    requires Ready(P, a, bw, ca, d, t) && At(P.code, pc, Code(P.env, a, bw, ca, d))
    requires Ready(P, b, bw, cb, d, t) && At(P.code, pc + Sz(Code(P.env, a, bw, ca, d)), Code(P.env, b, bw, cb, d))
    ensures Yields(GoalAt(P, pc + Sz(Code(P.env, a, bw, ca, d)) + Sz(Code(P.env, b, bw, cb, d)), d, t), Run(pc, t, base), base,
                   Flat(MMap(P.env, b, bw, cb, Abs(t), M(P.env, a, bw, ca, Abs(t)))))
    decreases n, 1
  {
    hide At, Code, Sz, M, MMap, Yields, EnvOk, Flat, Wf, RefsIn, Above;
    var mid := pc + Sz(Code(P.env, a, bw, ca, d));
    var g1, g2 := GoalAt(P, mid, d, t), GoalAt(P, mid + Sz(Code(P.env, b, bw, cb, d)), d, t);
    var ys := M(P.env, a, bw, ca, Abs(t));
    var rr := MMap(P.env, b, bw, cb, Abs(t), ys);
    Sim(P, a, bw, ca, d, pc, t, base);
    forall i | 0 <= i < |ys| ensures Cont(g1, g2, base, ys[i], rr[i]) {
      assert Moves(P.env, bw, Abs(t), ys[i]);
      forall t', s | Above(s, base) && Arrives(g1, t', ys[i])
        ensures Yields(g2, Run(g1.end, t', s), s, rr[i])
      {
        GoalSame(P, g2.end, d, t, t', ys[i], g1);
        Sim(P, b, bw, cb, d, mid, t', s);
      }
    }
    YieldsFlat(g1, g2, Run(pc, t, base), base, ys, rr);
  }

  /** Results that arrive at a goto arrive at its target. */
  lemma YieldsGoto(g1: Goal, g2: Goal, off: int, c: Cfg, base: Stack, R: seq<St>)
    requires g1.P == g2.P && g2.lo <= g1.lo && g1.rc == g2.rc && Yields(g1, c, base, R)
    requires Decode(g1.P.code, g1.end) == Some(Goto(off)) && g2.end == g1.end + 5 + off
    ensures Yields(g2, c, base, R)
  {
    hide Decode, Enc;
    Sizes();
    forall i | 0 <= i < |R| ensures Cont(g1, g2, base, R[i], [R[i]]) {
      forall t, s | Above(s, base) && Arrives(g1, t, R[i]) ensures Yields(g2, Run(g1.end, t, s), s, [R[i]]) {
        OneInstr(g1.P, g1.end, Goto(off), t, s);
        YieldsOne(g2, Run(g1.end, t, s), s, t);
      }
    }
    YieldsEach(g1, g2, c, base, R, R);
  }

  lemma SimAlt(P: Prog, n: Node, bw: bool, cc: nat, d: nat, pc: nat, t: Th, base: Stack)
    requires n.Alt? && Ready(P, n, bw, cc, d, t) && At(P.code, pc, Code(P.env, n, bw, cc, d))
    ensures SimAt(P, n, bw, cc, d, pc, t, base)
    decreases n, 2
  {
    hide At, Sz, Yields, Decode, Enc, Size, Comp, M, Ready, NumGroups;
    ReadyPair(P, n, bw, cc, d, t);
    CompAlt(P.env, n, bw, cc, false, d);
    MatchAlt(P.env, n, bw, cc, Abs(t));
    var lc, rc := Code(P.env, n.l, bw, cc, d), Code(P.env, n.r, bw, cc + NumGroups(n.l), d);
    var split, goto := Split(true, Sz(lc) + 5), Goto(Sz(rc));
    AtParts(P.code, pc, [split] + lc + [goto], rc);
    AtThree(P.code, pc, [split], lc, [goto]);
    AtOne(P.code, pc, split);
    AtOne(P.code, pc + 5 + Sz(lc), goto);
    Sizes();
    RunAlt(P, n, bw, cc, cc + NumGroups(n.l), d, pc, t, base, pc + 5 + Sz(lc));
  }

  lemma RunAlt(P: Prog, n: Node, bw: bool, cl: nat, cr: nat, d: nat, pc: nat, t: Th, base: Stack, pg: nat)
    requires n.Alt? && Ready(P, n.l, bw, cl, d, t) && Ready(P, n.r, bw, cr, d, t)
    requires At(P.code, pc + 5, Code(P.env, n.l, bw, cl, d)) && At(P.code, pg + 5, Code(P.env, n.r, bw, cr, d))
    requires pg == pc + 5 + Sz(Code(P.env, n.l, bw, cl, d))
    requires Decode(P.code, pc) == Some(Split(true, pg - pc))
    requires Decode(P.code, pg) == Some(Goto(Sz(Code(P.env, n.r, bw, cr, d))))
    ensures Yields(GoalAt(P, pg + 5 + Sz(Code(P.env, n.r, bw, cr, d)), d, t), Run(pc, t, base), base,
                   M(P.env, n.l, bw, cl, Abs(t)) + M(P.env, n.r, bw, cr, Abs(t)))
    decreases n, 1
  {
    hide At, Code, Sz, M, Yields, EnvOk, Wf, RefsIn, Decode, Enc, Size, Reaches;
    var pl, pr := pc + 5, pg + 5;
    var g := GoalAt(P, pr + Sz(Code(P.env, n.r, bw, cr, d)), d, t);
    var s1 := Push(KSplit, pr, t, base);
    var yl, yr := M(P.env, n.l, bw, cl, Abs(t)), M(P.env, n.r, bw, cr, Abs(t));
    Sizes();
    OneInstr(P, pc, Split(true, pg - pc), t, base);
    assert Reaches(P, Run(pc, t, base), Run(pl, t, s1));
    Sim(P, n.l, bw, cl, d, pl, t, s1);
    YieldsGoto(GoalAt(P, pg, d, t), g, Sz(Code(P.env, n.r, bw, cr, d)), Run(pl, t, s1), s1, yl);
    Sim(P, n.r, bw, cr, d, pr, t, base);
    OneBack(P, KSplit, pr, t, base);
    YieldsPrefix(g, Back(s1), Run(pr, t, base), base, yr);
    YieldsAppend(g, Run(pl, t, s1), s1, base, yl, yr);
    YieldsPrefix(g, Run(pc, t, base), Run(pl, t, s1), base, yl + yr);
  }

  lemma SimGroup(P: Prog, n: Node, bw: bool, cc: nat, d: nat, pc: nat, t: Th, base: Stack)
    requires n.Group? && Ready(P, n, bw, cc, d, t) && At(P.code, pc, Code(P.env, n, bw, cc, d))
    ensures SimAt(P, n, bw, cc, d, pc, t, base)
    decreases n, 2
  {
    hide At, Sz, Yields, EnvOk, Decode, Enc, Size, Comp, M;
    CompGroup(P.env, n, bw, cc, false, d);
    var bc := Code(P.env, n.body, bw, cc + 1, d);
    AtThree(P.code, pc, [Save(bw, cc)], bc, [Save(!bw, cc)]);
    AtOne(P.code, pc, Save(bw, cc));
    AtOne(P.code, pc + 2 + Sz(bc), Save(!bw, cc));
    Sizes();
    RunGroup(P, n, bw, cc, d, pc, t, base, pc + 2 + Sz(bc));
  }

  lemma RunGroup(P: Prog, n: Node, bw: bool, cc: nat, d: nat, pc: nat, t: Th, base: Stack, end: nat)
    requires n.Group? && Ready(P, n, bw, cc, d, t) && At(P.code, pc + 2, Code(P.env, n.body, bw, cc + 1, d))
    requires end == pc + 2 + Sz(Code(P.env, n.body, bw, cc + 1, d))
    requires Decode(P.code, pc) == Some(Save(bw, cc)) && Decode(P.code, end) == Some(Save(!bw, cc))
    ensures Yields(GoalAt(P, end + 2, d, t), Run(pc, t, base), base, M(P.env, n, bw, cc, Abs(t)))
    decreases n, 1
  {
    hide At, Code, Sz, M, Decode, Enc, Yields, Size, EnvOk, Reaches, SetSlot;
    var t1 := t.(slots := SetSlot(t.slots, 2 * cc + (if bw then 1 else 0), t.pos));
    var ys := M(P.env, n.body, bw, cc + 1, Abs(t1));
    var zs := M(P.env, n, bw, cc, Abs(t));
    MatchGroup(P.env, n, bw, cc, Abs(t));
    Sizes();
    OneInstr(P, pc, Save(bw, cc), t, base);
    assert Reaches(P, Run(pc, t, base), Run(pc + 2, t1, base));
    Sim(P, n.body, bw, cc + 1, d, pc + 2, t1, base);
    var g1, g2 := GoalAt(P, end, d, t), GoalAt(P, end + 2, d, t);
    YieldsPrefix(g1, Run(pc, t, base), Run(pc + 2, t1, base), base, ys);
    forall i | 0 <= i < |ys| ensures Cont(g1, g2, base, ys[i], [zs[i]]) {
      assert Moves(P.env, bw, Abs(t1), ys[i]);
      forall t', s | Above(s, base) && Arrives(g1, t', ys[i]) ensures Yields(g2, Run(end, t', s), s, [zs[i]]) {
        OneInstr(P, end, Save(!bw, cc), t', s);
        YieldsOne(g2, Run(end, t', s), s, t'.(slots := zs[i].slots));
      }
    }
    YieldsEach(g1, g2, Run(pc, t, base), base, ys, zs);
  }

  lemma SimLook(P: Prog, n: Node, bw: bool, cc: nat, d: nat, pc: nat, t: Th, base: Stack)
    requires n.Look? && Ready(P, n, bw, cc, d, t) && At(P.code, pc, Code(P.env, n, bw, cc, d))
    ensures SimAt(P, n, bw, cc, d, pc, t, base)
    decreases n, 2
  {
    hide At, Sz, Yields, EnvOk, Decode, Enc, Size, Comp, M;
    CompLook(P.env, n, bw, cc, false, d);
    MatchLook(P.env, n, bw, cc, Abs(t));
    var bc := Code(P.env, n.body, n.behind, cc, d);
    AtThree(P.code, pc, [LookOp(n.neg, Sz(bc) + 1)], bc, [LookMatch(n.neg)]);
    AtOne(P.code, pc, LookOp(n.neg, Sz(bc) + 1));
    AtOne(P.code, pc + 5 + Sz(bc), LookMatch(n.neg));
    Sizes();
    RunLook(P, n, cc, d, pc, t, base, pc + 5 + Sz(bc));
  }

  lemma LookStep(P: Prog, neg: bool, pc: nat, off: nat, t: Th, base: Stack)
    requires Decode(P.code, pc) == Some(LookOp(neg, off))
    ensures Reaches(P, Run(pc, t, base), Run(pc + 5, t, Push(if neg then KNegLook else KLook, pc + 5 + off, t, base)))
  {
    hide Decode, Enc, Reaches;
    Sizes();
    OneInstr(P, pc, LookOp(neg, off), t, base);
  }

  /** Ending a lookahead that was entered with t. */
  lemma LookMatchStep(P: Prog, neg: bool, pm: nat, t: Th, t': Th, base: Stack, s: Stack)
    requires Decode(P.code, pm) == Some(LookMatch(neg))
    requires PopTo(if neg then KNegLook else KLook, s) == Push(if neg then KNegLook else KLook, pm + 1, t, base)
    ensures Reaches(P, Run(pm, t', s), if neg then Back(base) else Run(pm + 1, t'.(pos := t.pos), base))
  {
    hide Decode, Enc, Reaches, PopTo;
    Sizes();
    OneInstr(P, pm, LookMatch(neg), t', s);
  }

  lemma RunLook(P: Prog, n: Node, cc: nat, d: nat, pc: nat, t: Th, base: Stack, pm: nat)
    requires n.Look? && Ready(P, n.body, n.behind, cc, d, t) && At(P.code, pc + 5, Code(P.env, n.body, n.behind, cc, d))
    requires pm == pc + 5 + Sz(Code(P.env, n.body, n.behind, cc, d))
    requires Decode(P.code, pc) == Some(LookOp(n.neg, pm + 1 - (pc + 5))) && Decode(P.code, pm) == Some(LookMatch(n.neg))
    ensures var ys := M(P.env, n.body, n.behind, cc, Abs(t));
      Yields(GoalAt(P, pm + 1, d, t), Run(pc, t, base), base,
             if n.neg then (if ys == [] then [Abs(t)] else [])
             else (if ys == [] then [] else [Abs(t).(slots := ys[0].slots)]))
    decreases n, 1
  {
    hide At, Code, Sz, M, Decode, Enc, Size, EnvOk, Wf, RefsIn, Reaches, Boundary, RegNeed, Exec, PopTo;
    var kind := if n.neg then KNegLook else KLook;
    var ys := M(P.env, n.body, n.behind, cc, Abs(t));
    var s1 := Push(kind, pm + 1, t, base);
    var g1, g2 := GoalAt(P, pm, d, t), GoalAt(P, pm + 1, d, t);
    var start := Run(pc, t, base);
    LookStep(P, n.neg, pc, pm + 1 - (pc + 5), t, base);
    Sim(P, n.body, n.behind, cc, d, pc + 5, t, s1);
    YieldsPrefix(g1, start, Run(pc + 5, t, s1), s1, ys);
    if ys == [] {
      OneBack(P, kind, pm + 1, t, base);
      Trans(P, start, Back(s1), if n.neg then Run(pm + 1, t, base) else Back(base));
      if n.neg { YieldsOne(g2, start, base, t); } else { YieldsNone(g2, start, base); }
    } else {
      var t', s :| Hit(g1, start, s1, ys[0], t', s) && Yields(g1, Back(s), s1, ys[1..]);
      PopAbove(s, s1);
      LookMatchStep(P, n.neg, pm, t, t', base, s);
      var t2 := t'.(pos := t.pos);
      Trans(P, start, Run(pm, t', s), if n.neg then Back(base) else Run(pm + 1, t2, base));
      if n.neg { YieldsNone(g2, start, base); } else { YieldsOne(g2, start, base, t2); }
    }
  }

  // ----- quantifiers --------------------------------------------------------------------------------

  function AtomOf(P: Prog, n: Node, bw: bool, cc: nat): Atom
    requires n.Quant?
  {
    Atom(P, n.body, bw, cc, ScanNode(n.body, bw).init, n.greedy)
  }

  /** Code of the atom including its own save_reset. */
  function AtomCode(a: Atom, d: nat): seq<Instr> {
    ResetCode(a.init, a.cc, NumGroups(a.b)) + Code(a.P.env, a.b, a.bw, a.cc, d)
  }

  function ResetIf(cond: bool, t: Th, cc: nat, g: nat): Th {
    if cond then t.(slots := Reset(t.slots, cc, g)) else t
  }

  lemma RunReset(P: Prog, cond: bool, cc: nat, g: nat, pc: nat, t: Th, s: Stack)
    requires At(P.code, pc, ResetCode(cond, cc, g)) && 2 * (cc + g) <= |t.slots|
    ensures Reaches(P, Run(pc, t, s), Run(pc + Sz(ResetCode(cond, cc, g)), ResetIf(cond, t, cc, g), s))
  {
    hide Decode, Enc, Size;
    if cond && g > 0 {
      AtOne(P.code, pc, SaveReset(cc, cc + g - 1));
      OneInstr(P, pc, SaveReset(cc, cc + g - 1), t, s);
    } else {
      Refl(P, Run(pc, t, s));
    }
  }

  lemma BodyOk(P: Prog, n: Node, bw: bool, cc: nat, d: nat, pa: nat)
    requires n.Quant? && At(P.code, pa, AtomCode(AtomOf(P, n, bw, cc), d))
    ensures Body(AtomOf(P, n, bw, cc), d, pa, pa + Sz(AtomCode(AtomOf(P, n, bw, cc), d)))
    decreases n, 0
  {
    hide At, Code, Sz, M, Yields, EnvOk, Wf, RefsIn, Reaches, ResetCode, ScanNode;
    var a := AtomOf(P, n, bw, cc);
    var g := NumGroups(n.body);
    var rc := ResetCode(a.init, cc, g);
    var pe := pa + Sz(AtomCode(a, d));
    AtParts(P.code, pa, rc, Code(P.env, n.body, bw, cc, d));
    forall t, s | Ready(P, n.body, bw, cc, d, t)
      ensures Yields(GoalAt(P, pe, d, t), Run(pa, t, s), s, Results(a, Abs(t)))
    {
      var t1 := ResetIf(a.init, t, cc, g);
      RunReset(P, a.init, cc, g, pa, t, s);
      Sim(P, n.body, bw, cc, d, pa + Sz(rc), t1, s);
      assert Abs(t1) == Start(a, Abs(t));
      YieldsPrefix(GoalAt(P, pe, d, t), Run(pa, t, s), Run(pa + Sz(rc), t1, s), s, Results(a, Abs(t)));
    }
  }

  lemma {:induction false} MatchQuant(P: Prog, n: Node, bw: bool, cc: nat, x: St)
    requires n.Quant?
    ensures var a := AtomOf(P, n, bw, cc);
      var x0 := if n.min == 0 && !a.init then x.(slots := Reset(x.slots, cc, NumGroups(n.body))) else x;
      M(P.env, n, bw, cc, x) == if n.max == 0 then [x0] else RepOf(a, n.min, EffMax(n, bw), x0)
  {
    hide Rep, ScanNode, Reset, EffMax;
  }

  ghost predicate SimRep(a: Atom, min: nat, max: int, d: nat, pc: nat, end: nat, t: Th, base: Stack) {
    && d <= |t.regs|
    && Yields(GoalAt(a.P, end, d, t), Run(pc, t, base), base, RepOf(a, min, max, Abs(t)))
  }

  lemma SimQuant(P: Prog, n: Node, bw: bool, cc: nat, d: nat, pc: nat, t: Th, base: Stack)
    requires n.Quant? && Ready(P, n, bw, cc, d, t) && At(P.code, pc, Code(P.env, n, bw, cc, d))
    ensures SimAt(P, n, bw, cc, d, pc, t, base)
    decreases n, 2
  {
    hide At, Comp, Sz, M, Yields, EnvOk, Reaches, ResetCode, Rep, ScanNode, CountCode, StarCode, PlusCode;
    var a := AtomOf(P, n, bw, cc);
    var adv := ScanNode(n.body, bw).adv;
    var g := NumGroups(n.body);
    var ac := AtomCode(a, d + QuantRegs(adv, n.min, n.max));
    var pre := ResetCode(!a.init, cc, g);
    CompQuant(P.env, n, bw, cc, false, d);
    MatchQuant(P, n, bw, cc, Abs(t));
    if n.min == 0 {
      var t0 := ResetIf(!a.init, t, cc, g);
      var goal := GoalAt(P, pc + Sz(Code(P.env, n, bw, cc, d)), d, t);
      var p0 := pc + Sz(pre);
      if n.max == 0 {
        RunReset(P, !a.init, cc, g, pc, t, base);
        YieldsOne(goal, Run(pc, t, base), base, t0);
      } else {
        if n.max == 1 || n.max == INT32_MAX {
          AtParts(P.code, pc, pre, StarCode(ac, adv, n.max == INT32_MAX, n.greedy, d));
          SimStar(P, n, bw, cc, d, p0, t0, base);
        } else {
          assert pre + [Split(n.greedy, 6 + Sz(CountCode(ac, adv, false, n.greedy, n.max, d, d + 1))), SetI32(d, n.max)]
                     + CountCode(ac, adv, false, n.greedy, n.max, d, d + 1)
              == pre + ([Split(n.greedy, 6 + Sz(CountCode(ac, adv, false, n.greedy, n.max, d, d + 1)))] + [SetI32(d, n.max)]
                     + CountCode(ac, adv, false, n.greedy, n.max, d, d + 1));
          AtParts(P.code, pc, pre, [Split(n.greedy, 6 + Sz(CountCode(ac, adv, false, n.greedy, n.max, d, d + 1)))] + [SetI32(d, n.max)]
                     + CountCode(ac, adv, false, n.greedy, n.max, d, d + 1));
          SimOptionalCount(P, n, bw, cc, d, p0, t0, base);
        }
        RunReset(P, !a.init, cc, g, pc, t, base);
        YieldsPrefix(goal, Run(pc, t, base), Run(p0, t0, base), base, M(P.env, n, bw, cc, Abs(t)));
      }
    } else if n.min == 1 && n.max == INT32_MAX && !adv {
      SimPlus(P, n, bw, cc, d, pc, t, base);
    } else {
      SimCount(P, n, bw, cc, d, pc, t, base);
    }
  }

  /** Where the parts of a StarCode stand. */
  lemma AtStar(code: seq<u8>, pc: nat, ac: seq<Instr>, adv: bool, star: bool, greedy: bool, reg: int)
    requires At(code, pc, StarCode(ac, adv, star, greedy, reg))
    ensures var pa := pc + (if adv then 7 else 5);
      var pe := pa + Sz(ac);
      var next := if adv then pe + 2 else pe;
      var end := if star then next + 5 else next;
      && Sz(StarCode(ac, adv, star, greedy, reg)) == end - pc
      && Decode(code, pc) == Some(Split(greedy, end - (pc + 5)))
      && At(code, pa, ac)
      && (adv ==> Decode(code, pc + 5) == Some(SetCharPos(reg)) && Decode(code, pe) == Some(CheckAdvance(reg)))
      && (star ==> Decode(code, next) == Some(Goto(pc - end)))
  {
    hide At, Decode, Enc, Size, Sz;
    var len := Sz(ac) + (if adv then 4 else 0) + (if star then 5 else 0);
    var i0, i1, i2, i3 := Split(greedy, len), SetCharPos(reg), CheckAdvance(reg), Goto(-5 - len);
    AtParts(code, pc, [i0] + Opt(adv, i1) + ac + Opt(adv, i2), Opt(star, i3));
    AtParts(code, pc, [i0] + Opt(adv, i1) + ac, Opt(adv, i2));
    AtThree(code, pc, [i0], Opt(adv, i1), ac);
    Sizes();
    AtOpt(code, pc + 5, adv, i1);
    AtOne(code, pc, i0);
    var pe := pc + (if adv then 7 else 5) + Sz(ac);
    AtOpt(code, pe, adv, i2);
    AtOpt(code, if adv then pe + 2 else pe, star, i3);
  }

  lemma AtOpt(code: seq<u8>, pc: nat, cond: bool, i: Instr)
    ensures Sz(Opt(cond, i)) == if cond then Size(i) else 0
    ensures cond && At(code, pc, Opt(cond, i)) ==> Decode(code, pc) == Some(i)
  {
    hide Decode, Enc;
    AtOne(code, pc, i);
  }

  lemma SimStar(P: Prog, n: Node, bw: bool, cc: nat, d: nat, pc: nat, t: Th, base: Stack)
    requires n.Quant? && Ready(P, n, bw, cc, d, t) && n.min == 0 && (n.max == 1 || n.max == INT32_MAX)
    requires At(P.code, pc, StarCode(AtomCode(AtomOf(P, n, bw, cc), d + QuantRegs(ScanNode(n.body, bw).adv, 0, n.max)),
                                     ScanNode(n.body, bw).adv, n.max == INT32_MAX, n.greedy, d))
    ensures SimRep(AtomOf(P, n, bw, cc), 0, EffMax(n, bw), d, pc,
      pc + Sz(StarCode(AtomCode(AtomOf(P, n, bw, cc), d + QuantRegs(ScanNode(n.body, bw).adv, 0, n.max)),
                       ScanNode(n.body, bw).adv, n.max == INT32_MAX, n.greedy, d)), t, base)
    decreases n, 1, 1
  {
    hide At, Code, Sz, M, Yields, EnvOk, ResetCode, Rep, ScanNode, StarCode, Decode;
    var adv, star := ScanNode(n.body, bw).adv, n.max == INT32_MAX;
    var a := AtomOf(P, n, bw, cc);
    var ac := AtomCode(a, d + QuantRegs(adv, 0, n.max));
    AtStar(P.code, pc, ac, adv, star, n.greedy, d);
    var pa := pc + (if adv then 7 else 5);
    var pe := pa + Sz(ac);
    var next := if adv then pe + 2 else pe;
    var L := StarLoop(a, adv, star, d, pc, pa, pe, if star then next + 5 else next);
    BodyOk(P, n, bw, cc, L.Regs(), pa);
    RunStar(L, t, base);
  }

  lemma SimPlus(P: Prog, n: Node, bw: bool, cc: nat, d: nat, pc: nat, t: Th, base: Stack)
    requires n.Quant? && Ready(P, n, bw, cc, d, t) && n.min == 1 && n.max == INT32_MAX && !ScanNode(n.body, bw).adv
    requires At(P.code, pc, PlusCode(AtomCode(AtomOf(P, n, bw, cc), d), n.greedy))
    ensures SimRep(AtomOf(P, n, bw, cc), 1, EffMax(n, bw), d, pc,
                   pc + Sz(PlusCode(AtomCode(AtomOf(P, n, bw, cc), d), n.greedy)), t, base)
    decreases n, 1, 1
  {
    hide At, Code, Sz, M, Yields, EnvOk, ResetCode, Iter, ScanNode, Decode, Enc, Size;
    var a := AtomOf(P, n, bw, cc);
    var ac := AtomCode(a, d);
    var split := Split(!n.greedy, -5 - Sz(ac));
    AtParts(P.code, pc, ac, [split]);
    AtOne(P.code, pc + Sz(ac), split);
    Sizes();
    BodyOk(P, n, bw, cc, d, pc);
    RunPlus(PlusLoop(a, d, pc, pc + Sz(ac)), 1, t, base);
  }

  lemma AtCount(code: seq<u8>, pc: nat, ac: seq<Instr>, adv: bool, simple: bool, greedy: bool, limit: int, reg: int, preg: int)
    requires At(code, pc, CountCode(ac, adv, simple, greedy, limit, reg, preg))
    ensures var pa := if adv then pc + 2 else pc;
      var pe := pa + Sz(ac);
      var end := if simple then pe + 6 else pe + 10;
      && Sz(CountCode(ac, adv, simple, greedy, limit, reg, preg)) == end - pc
      && At(code, pa, ac)
      && (adv ==> Decode(code, pc) == Some(SetCharPos(preg)))
      && Decode(code, pe) == Some(if simple then Loop(reg, pc - end) else LoopSplit(adv, !greedy, reg, limit, pc - end))
  {
    hide At, Decode, Enc, Size, Sz;
    var body := Opt(adv, SetCharPos(preg)) + ac;
    var last := if simple then Loop(reg, -6 - Sz(body)) else LoopSplit(adv, !greedy, reg, limit, -10 - Sz(body));
    AtParts(code, pc, body, [last]);
    AtParts(code, pc, Opt(adv, SetCharPos(preg)), ac);
    AtOpt(code, pc, adv, SetCharPos(preg));
    AtOne(code, pc + Sz(body), last);
    Sizes();
  }

  /** A counted loop whose counter register has just been set to the maximum. */
  lemma SimLoop(P: Prog, n: Node, bw: bool, cc: nat, d: nat, adv: bool, limit: nat, pc: nat, t: Th, base: Stack)
    requires n.Quant? && Ready(P, n.body, bw, cc, if adv then d + 2 else d + 1, t) && 1 <= n.max <= INT32_MAX
    requires t.regs[d] == n.max && (if n.min == 0 then limit == n.max else limit == n.max - n.min)
    requires n.min == n.max ==> !adv
    requires adv || n.min == n.max || !ScanNode(n.body, bw).adv
    requires At(P.code, pc, CountCode(AtomCode(AtomOf(P, n, bw, cc), if adv then d + 2 else d + 1),
                                      adv, n.min == n.max, n.greedy, limit, d, d + 1))
    ensures Yields(GoalAt(P, pc + Sz(CountCode(AtomCode(AtomOf(P, n, bw, cc), if adv then d + 2 else d + 1),
                                               adv, n.min == n.max, n.greedy, limit, d, d + 1)), d, t),
                   Run(pc, t, base), base, IterOf(AtomOf(P, n, bw, cc), n.min, n.max, Abs(t)))
    decreases n, 1, 1
  {
    hide At, Code, Sz, M, Yields, EnvOk, ResetCode, Iter, ScanNode, CountCode, Decode;
    var a := AtomOf(P, n, bw, cc);
    var ac := AtomCode(a, if adv then d + 2 else d + 1);
    AtCount(P.code, pc, ac, adv, n.min == n.max, n.greedy, limit, d, d + 1);
    var pa := if adv then pc + 2 else pc;
    var L := CountLoop(a, adv, n.min == n.max, limit, d, pc, pa, pa + Sz(ac));
    BodyOk(P, n, bw, cc, L.Regs(), pa);
    RunCount(L, n.max, t, base);
  }

  lemma SimCount(P: Prog, n: Node, bw: bool, cc: nat, d: nat, pc: nat, t: Th, base: Stack)
    requires n.Quant? && Ready(P, n, bw, cc, d, t) && n.min >= 1
    requires !(n.min == 1 && n.max == INT32_MAX && !ScanNode(n.body, bw).adv)
    requires At(P.code, pc, Code(P.env, n, bw, cc, d))
    ensures SimRep(AtomOf(P, n, bw, cc), n.min, EffMax(n, bw), d, pc, pc + Sz(Code(P.env, n, bw, cc, d)), t, base)
    decreases n, 1, 2
  {
    hide At, Comp, Sz, M, Yields, EnvOk, ResetCode, Iter, ScanNode, CountCode, Decode, Enc, Size, Reaches;
    var a := AtomOf(P, n, bw, cc);
    var adv := ScanNode(n.body, bw).adv && n.min != n.max;
    CompQuant(P.env, n, bw, cc, false, d);
    var loop := CountCode(AtomCode(a, if adv then d + 2 else d + 1), adv, n.min == n.max, n.greedy, n.max - n.min, d, d + 1);
    assert Code(P.env, n, bw, cc, d) == [SetI32(d, n.max)] + loop;
    AtParts(P.code, pc, [SetI32(d, n.max)], loop);
    AtOne(P.code, pc, SetI32(d, n.max));
    Sizes();
    var t1 := SetReg(t, d, n.max);
    OneInstr(P, pc, SetI32(d, n.max), t, base);
    SimLoop(P, n, bw, cc, d, adv, n.max - n.min, pc + 6, t1, base);
    assert t1.regs[..d] == t.regs[..d];
    var g := GoalAt(P, pc + 6 + Sz(loop), d, t);
    YieldsPrefix(g, Run(pc, t, base), Run(pc + 6, t1, base), base, IterOf(a, n.min, n.max, Abs(t)));
  }

  lemma SimOptionalCount(P: Prog, n: Node, bw: bool, cc: nat, d: nat, pc: nat, t: Th, base: Stack)
    requires n.Quant? && Ready(P, n, bw, cc, d, t) && n.min == 0 && 1 < n.max < INT32_MAX
    requires var loop := CountCode(AtomCode(AtomOf(P, n, bw, cc), d + QuantRegs(ScanNode(n.body, bw).adv, 0, n.max)),
                                   ScanNode(n.body, bw).adv, false, n.greedy, n.max, d, d + 1);
      At(P.code, pc, [Split(n.greedy, 6 + Sz(loop))] + [SetI32(d, n.max)] + loop)
    ensures var loop := CountCode(AtomCode(AtomOf(P, n, bw, cc), d + QuantRegs(ScanNode(n.body, bw).adv, 0, n.max)),
                                  ScanNode(n.body, bw).adv, false, n.greedy, n.max, d, d + 1);
      SimRep(AtomOf(P, n, bw, cc), 0, EffMax(n, bw), d, pc,
             pc + Sz([Split(n.greedy, 6 + Sz(loop))] + [SetI32(d, n.max)] + loop), t, base)
    decreases n, 1, 2
  {
    hide At, Code, Sz, M, Yields, EnvOk, ResetCode, Iter, ScanNode, CountCode, Decode, Enc, Size, Reaches, Above;
    var a := AtomOf(P, n, bw, cc);
    var adv := ScanNode(n.body, bw).adv;
    var loop := CountCode(AtomCode(a, d + QuantRegs(adv, 0, n.max)), adv, false, n.greedy, n.max, d, d + 1);
    var split := Split(n.greedy, 6 + Sz(loop));
    AtThree(P.code, pc, [split], [SetI32(d, n.max)], loop);
    AtOne(P.code, pc, split);
    AtOne(P.code, pc + 5, SetI32(d, n.max));
    Sizes();
    var t1 := SetReg(t, d, n.max);
    assert t1.regs[..d] == t.regs[..d];
    var g := GoalAt(P, pc + 11 + Sz(loop), d, t);
    OneInstr(P, pc, split, t, base);
    forall s | Above(s, base) ensures Yields(g, Run(pc + 5, t, s), s, IterOf(a, 0, n.max, Abs(t))) {
      OneInstr(P, pc + 5, SetI32(d, n.max), t, s);
      SimLoop(P, n, bw, cc, d, adv, n.max, pc + 11, t1, s);
      YieldsPrefix(g, Run(pc + 5, t, s), Run(pc + 11, t1, s), s, IterOf(a, 0, n.max, Abs(t)));
    }
    RunFork(g, Run(pc, t, base), pc + 5, t, base, n.greedy, IterOf(a, 0, n.max, Abs(t)));
  }
}
