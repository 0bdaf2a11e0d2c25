/**
 Whole patterns: the prologue that tries every start position, the code of the pattern and the
 epilogue. Every run ends with the first result of the slot matcher; where the counters of the
 code suffice, that is the result of RegExpBuiltinExec (section 22.2.7.2 of ECMA-262) for the
 matcher of section 22.2.2.
 */
module RegexpProgram {
  import opened RegexpPattern
  import opened Bytecode
  import opened Codegen
  import opened SlotMatcher
  import opened Machine
  import opened Simulation
  import opened NodeSimulation
  import E = EcmaMatcher
  import opened SlotRefinement
  import opened NodeRefinement

  // ----- meaning --------------------------------------------------------------------------------------

  datatype Outcome = NoMatch | Found(caps: seq<E.Capture>)

  function Unset(total: nat): (r: seq<E.Capture>)
    ensures |r| == total && forall k :: 0 <= k < total ==> r[k] == E.Undefined
  {
    seq(total, k => E.Undefined)
  }

  /** The search from character i on; the match at i is the matcher of the standard with the
      identity continuation. */
  function BuiltinExec(inp: E.Input, n: Node, sticky: bool, i: nat): Outcome
    decreases |inp.chars| - i
  {
    var r := E.Match(inp, n, false, 1, E.State(i, Unset(1 + NumGroups(n))), y => [y]);
    if r != [] then Found(E.SetCap(r[0].caps, 0, E.Span(i, r[0].pos)))
    else if sticky || i >= |inp.chars| then NoMatch
    else BuiltinExec(inp, n, sticky, i + 1)
  }

  /** How captures appear in the capture[] array. */
  ghost predicate SlotsOf(T: Text, caps: seq<E.Capture>, slots: seq<int>) {
    && |slots| == 2 * |caps|
    && forall k :: 0 <= k < |caps| ==> RelCap(T, false, caps[k], slots[2 * k], slots[2 * k + 1])
  }

  /** The machine result that reports outcome o. */
  ghost predicate Reports(T: Text, o: Outcome, c: Cfg) {
    match o
    case NoMatch => c == Done(false, [])
    case Found(caps) => c.Done? && c.matched && SlotsOf(T, caps, c.slots)
  }

  function NullSlots(total: nat): (r: seq<int>)
    ensures |r| == 2 * total && forall i :: 0 <= i < |r| ==> r[i] == NULL
  {
    seq(2 * total, i => NULL)
  }

  /** The slots at the start of an attempt at character i: group 0 is open. */
  function AttemptSlots(T: Text, n: Node, i: nat): seq<int>
    requires i < |T.off|
  {
    NullSlots(1 + NumGroups(n))[0 := T.off[i]]
  }

  /** The results of the code of the pattern at character i. */
  function Attempt(T: Text, n: Node, i: nat): (ys: seq<St>)
    requires i < |T.off|
    ensures forall k :: 0 <= k < |ys| ==> |ys[k].slots| == 2 * (1 + NumGroups(n))
  {
    var x := St(T.off[i], AttemptSlots(T, n, i));
    var ys := M(T.env, n, false, 1, x);
    assert forall k :: 0 <= k < |ys| ==> Moves(T.env, false, x, ys[k]);
    ys
  }

  /** What the program reports of the input from character i on: the first result of the first
      attempt that has one. */
  function CodeExec(T: Text, n: Node, sticky: bool, i: nat): (c: Cfg)
    requires |T.off| == |T.chars| + 1 && i < |T.off|
    ensures c == Done(false, []) || (c.Done? && c.matched && |c.slots| == 2 * (1 + NumGroups(n)))
    decreases |T.chars| - i
  {
    var ys := Attempt(T, n, i);
    if ys != [] then Done(true, ys[0].slots[1 := ys[0].pos])
    else if sticky || i >= |T.chars| then Done(false, [])
    else CodeExec(T, n, sticky, i + 1)
  }

  // ----- one attempt ----------------------------------------------------------------------------------

  ghost predicate Fresh(P: Prog, n: Node, t: Th) {
    && EnvOk(P.env) && Wf(n) && RefsIn(n, 1 + NumGroups(n)) && t.slots == NullSlots(1 + NumGroups(n))
    && RegNeed(n, false) <= |t.regs| && Boundary(P.env, t.pos)
  }

  /** Where the parts of an attempt stand. */
  lemma AttemptCode(P: Prog, nc: seq<Instr>, pc: nat)
    requires At(P.code, pc, [Save(false, 0)] + nc + [Save(true, 0), Match])
    ensures Decode(P.code, pc) == Some(Save(false, 0)) && At(P.code, pc + 2, nc)
    ensures Decode(P.code, pc + 2 + Sz(nc)) == Some(Save(true, 0)) && Decode(P.code, pc + 2 + Sz(nc) + 2) == Some(Match)
  {
    hide Decode, Enc, Size, Sz, At;
    assert [Save(true, 0), Match] == [Save(true, 0)] + [Match];
    AtThree(P.code, pc, [Save(false, 0)], nc, [Save(true, 0), Match]);
    AtOne(P.code, pc, Save(false, 0));
    Sizes();
    var end := pc + 2 + Sz(nc);
    AtParts(P.code, end, [Save(true, 0)], [Match]);
    AtOne(P.code, end, Save(true, 0));
    AtOne(P.code, end + 2, Match);
  }

  /** save_end 0 and match. */
  lemma FinishAttempt(P: Prog, end: nat, t: Th, s: Stack)
    requires Decode(P.code, end) == Some(Save(true, 0)) && Decode(P.code, end + 2) == Some(Match) && |t.slots| >= 2
    ensures Reaches(P, Run(end, t, s), Done(true, t.slots[1 := t.pos]))
  {
    hide Decode, Enc, Reaches;
    Sizes();
    var t2 := t.(slots := t.slots[1 := t.pos]);
    OneInstr(P, end, Save(true, 0), t, s);
    OneInstr(P, end + 2, Match, t2, s);
    Trans(P, Run(end, t, s), Run(end + 2, t2, s), Done(true, t2.slots));
  }

  /** The body of the program from save_start 0 on. */
  lemma RunAttempt(P: Prog, n: Node, pc: nat, t: Th, base: Stack)
    requires Fresh(P, n, t)
    requires At(P.code, pc, [Save(false, 0)] + Code(P.env, n, false, 1, 0) + [Save(true, 0), Match])
    ensures var ys := M(P.env, n, false, 1, St(t.pos, t.slots[0 := t.pos]));
      if ys == [] then Reaches(P, Run(pc, t, base), Back(base))
      else Reaches(P, Run(pc, t, base), Done(true, ys[0].slots[1 := ys[0].pos]))
  {
    hide Decode, Enc, Size, Code, M, Sz, At, EnvOk, Wf, RefsIn, Reaches, Boundary, RegNeed, Exec;
    var nc := Code(P.env, n, false, 1, 0);
    AttemptCode(P, nc, pc);
    var end := pc + 2 + Sz(nc);
    var t1 := t.(slots := t.slots[0 := t.pos]);
    SaveFirst(P, pc, t, base);
    Sim(P, n, false, 1, 0, pc + 2, t1, base);
    var ys := M(P.env, n, false, 1, Abs(t1));
    var g := GoalAt(P, end, 0, t1);
    YieldsPrefix(g, Run(pc, t, base), Run(pc + 2, t1, base), base, ys);
    if ys != [] {
      assert Moves(P.env, false, Abs(t1), ys[0]);
      var t', s :| Hit(g, Run(pc, t, base), base, ys[0], t', s) && Yields(g, Back(s), base, ys[1..]);
      FinishAttempt(P, end, t', s);
      Trans(P, Run(pc, t, base), Run(end, t', s), Done(true, t'.slots[1 := t'.pos]));
    }
  }

  lemma SaveFirst(P: Prog, pc: nat, t: Th, base: Stack)
    requires Decode(P.code, pc) == Some(Save(false, 0)) && |t.slots| >= 2
    ensures Reaches(P, Run(pc, t, base), Run(pc + 2, t.(slots := t.slots[0 := t.pos]), base))
  {
    hide Decode, Enc, Reaches;
    Sizes();
    OneInstr(P, pc, Save(false, 0), t, base);
  }

  /** The attempt at character i, seen from the standard. */
  lemma AttemptIs(T: Text, n: Node, i: nat)
    requires Ok(T) && NodeOk(n, false, 1 + NumGroups(n), |T.chars|) && i < |T.off|
    ensures var r := E.Match(T.Inp(), n, false, 1, E.State(i, Unset(1 + NumGroups(n))), y => [y]);
      var ys := Attempt(T, n, i);
      && (r == [] <==> ys == [])
      && (r != [] ==> SlotsOf(T, E.SetCap(r[0].caps, 0, E.Span(i, r[0].pos)), ys[0].slots[1 := ys[0].pos]))
  {
    hide Ok, M, E.Matches, E.Match, NodeOk;
    var total := 1 + NumGroups(n);
    var x1 := E.State(i, Unset(total));
    var x2 := St(T.off[i], AttemptSlots(T, n, i));
    E.MatchIsFirst(T.Inp(), n, false, 1, x1, y => [y]);
    var ys1, ys2 := E.Matches(T.Inp(), n, false, 1, x1), M(T.env, n, false, 1, x2);
    Refine(T, n, false, 1, {0}, x1, x2);
    if ys1 != [] {
      assert Out(T, {0}, 1, NumGroups(n), x1, x2, ys1[0], ys2[0]);
      assert E.Forward(T.Inp(), false, x1, ys1[0]);
      var caps := E.SetCap(ys1[0].caps, 0, E.Span(i, ys1[0].pos));
      var slots := ys2[0].slots[1 := ys2[0].pos];
      forall k | 0 <= k < |caps| ensures RelCap(T, false, caps[k], slots[2 * k], slots[2 * k + 1]) {
        assert RelCap(T, k in {0}, ys1[0].caps[k], ys2[0].slots[2 * k], ys2[0].slots[2 * k + 1]);
      }
    }
  }

  /** The whole search, seen from the standard. */
  lemma {:induction false} CodeExecIs(T: Text, n: Node, sticky: bool, i: nat)
    requires Ok(T) && NodeOk(n, false, 1 + NumGroups(n), |T.chars|) && i < |T.off|
    ensures |T.off| == |T.chars| + 1 && Reports(T, BuiltinExec(T.Inp(), n, sticky, i), CodeExec(T, n, sticky, i))
    decreases |T.chars| - i
  {
    hide Ok, NodeOk, E.Match, Attempt, SlotsOf;
    OffSize(T);
    AttemptIs(T, n, i);
    if Attempt(T, n, i) == [] && !sticky && i < |T.chars| { CodeExecIs(T, n, sticky, i + 1); }
  }

  // ----- the search -----------------------------------------------------------------------------------

  /** What the program does from character i on. */
  lemma {:induction false} RunProgram(P: Prog, T: Text, n: Node, sticky: bool, i: nat, t: Th)
    requires At(P.code, 0, Program(P.env, n, sticky, false)) && T.env == P.env && Ok(T)
    requires Fresh(P, n, t) && i < |T.off| && t.pos == T.off[i]
    ensures |T.off| == |T.chars| + 1 && Reaches(P, Run(0, t, Nil), CodeExec(T, n, sticky, i))
    decreases |T.chars| - i
  {
    hide Decode, Enc, Size, Code, M, Sz, At, EnvOk, Wf, RefsIn, Ok, Reaches, Exec, RegNeed, Boundary, CharLen;
    var body := [Save(false, 0)] + Code(P.env, n, false, 1, 0) + [Save(true, 0), Match];
    ProgramParts(P.env, n, sticky, false);
    AtParts(P.code, 0, Prologue(sticky), body);
    OffSize(T);
    var start, c := Run(0, t, Nil), CodeExec(T, n, sticky, i);
    if sticky {
      SzNone();
      RunAttempt(P, n, 0, t, Nil);
      if Attempt(T, n, i) == [] {
        OneNil(P);
        Trans(P, start, Back(Nil), c);
      }
    } else {
      AtPrologue(P.code);
      var s1 := Push(KSplit, 5, t, Nil);
      SplitFirst(P, t);
      RunAttempt(P, n, 11, t, s1);
      if Attempt(T, n, i) == [] {
        Trans(P, start, Run(11, t, s1), Back(s1));
        OneBack(P, KSplit, 5, t, Nil);
        Trans(P, start, Back(s1), Run(5, t, Nil));
        NextStart(P, T, n, i, t);
        if i < |T.chars| {
          var t' := t.(pos := T.off[i + 1]);
          Trans(P, start, Run(5, t, Nil), Run(0, t', Nil));
          RunProgram(P, T, n, sticky, i + 1, t');
          Trans(P, start, Run(0, t', Nil), c);
        } else {
          Trans(P, start, Run(5, t, Nil), c);
        }
      } else {
        Trans(P, start, Run(11, t, s1), c);
      }
    }
  }

  lemma SplitFirst(P: Prog, t: Th)
    requires Decode(P.code, 0) == Some(Split(false, 6))
    ensures Reaches(P, Run(0, t, Nil), Run(11, t, Push(KSplit, 5, t, Nil)))
  {
    hide Decode, Enc, Reaches;
    Sizes();
    OneInstr(P, 0, Split(false, 6), t, Nil);
  }

  /** Backtracking into the prologue moves on by one character, or fails at the end. */
  lemma NextStart(P: Prog, T: Text, n: Node, i: nat, t: Th)
    requires T.env == P.env && Ok(T) && i < |T.off| && t.pos == T.off[i] && Fresh(P, n, t)
    requires Decode(P.code, 5) == Some(AnyOp) && Decode(P.code, 6) == Some(Goto(-11))
    ensures |T.off| == |T.chars| + 1
    ensures i < |T.chars| ==> var t' := t.(pos := T.off[i + 1]); Reaches(P, Run(5, t, Nil), Run(0, t', Nil)) && Fresh(P, n, t')
    ensures i == |T.chars| ==> Reaches(P, Run(5, t, Nil), Done(false, []))
  {
    hide Decode, Enc, Size, EnvOk, Wf, RefsIn, Ok, Reaches, RegNeed, Boundary, CharLen, CharAt;
    Sizes();
    AtPos(T, i);
    OneInstr(P, 5, AnyOp, t, Nil);
    AnyForward(P.env, t, Nil);
    if i < |T.chars| {
      var t' := t.(pos := T.off[i + 1]);
      ForwardBack(P.env, t.pos);
      OneInstr(P, 6, Goto(-11), t', Nil);
      Trans(P, Run(5, t, Nil), Run(6, t', Nil), Run(0, t', Nil));
    } else {
      OneNil(P);
      Trans(P, Run(5, t, Nil), Back(Nil), Done(false, []));
    }
  }

  lemma ProgramParts(env: Env, n: Node, sticky: bool, zero: bool)
    ensures Program(env, n, sticky, zero) ==
      Prologue(sticky) + ([Save(false, 0)] + Comp(env, n, false, 1, zero, 0) + [Save(true, 0), Match])
    ensures !zero ==> Comp(env, n, false, 1, zero, 0) == Code(env, n, false, 1, 0)
  {
    hide Comp;
  }

  lemma SzNone()
    ensures Sz([]) == 0
  {
  }

  lemma AtPrologue(code: seq<u8>)
    requires At(code, 0, Prologue(false))
    ensures Sz(Prologue(false)) == 11
    ensures Decode(code, 0) == Some(Split(false, 6)) && Decode(code, 5) == Some(AnyOp) && Decode(code, 6) == Some(Goto(-11))
  {
    hide Decode, At, Sz;
    assert Size(AnyOp) == 1;
    Sizes();
    hide Enc;
    assert Prologue(false) == [Split(false, 6)] + [AnyOp] + [Goto(-11)];
    AtThree(code, 0, [Split(false, 6)], [AnyOp], [Goto(-11)]);
    AtOne(code, 0, Split(false, 6));
    AtOne(code, 5, AnyOp);
    AtOne(code, 6, Goto(-11));
  }

  lemma AnyForward(env: Env, t: Th, s: Stack)
    ensures Size(AnyOp) == 1
    ensures Exec(env, AnyOp, 6, t, s) ==
      if t.pos < |env.units| then Run(6, t.(pos := t.pos + CharLen(env, t.pos, |env.units|)), s) else Back(s)
  {
  }

  lemma OneNil(P: Prog)
    ensures Reaches(P, Back(Nil), Done(false, []))
  {
    hide Decode, Exec;
    One(P, Back(Nil));
  }
}
