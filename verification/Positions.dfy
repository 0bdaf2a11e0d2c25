/**
 Every position that a run of the machine reaches, saves or captures lies inside the input and
 does not split a surrogate pair, whatever the code; captures and registers keep their number.
 */
module Positions {
  import opened RegexpPattern
  import opened Bytecode
  import opened SlotMatcher
  import opened Machine

  predicate PosOk(env: Env, p: int) { 0 <= p <= |env.units| && Boundary(env, p) }

  predicate SlotsOk(env: Env, slots: seq<int>) {
    forall i :: 0 <= i < |slots| ==> slots[i] == NULL || PosOk(env, slots[i])
  }

  /** Threads with room for ns capture slots and nr registers. */
  predicate ThOk(env: Env, ns: nat, nr: nat, t: Th) {
    PosOk(env, t.pos) && SlotsOk(env, t.slots) && |t.slots| == ns && |t.regs| == nr
  }

  predicate StackOk(env: Env, ns: nat, nr: nat, s: Stack) {
    s.Push? ==> ThOk(env, ns, nr, s.t) && StackOk(env, ns, nr, s.rest)
  }

  predicate CfgOk(env: Env, ns: nat, nr: nat, c: Cfg) {
    match c
    case Run(_, t, s) => ThOk(env, ns, nr, t) && StackOk(env, ns, nr, s)
    case Back(s) => StackOk(env, ns, nr, s)
    case Done(matched, slots) => matched ==> SlotsOk(env, slots) && |slots| == ns
    case Stuck => true
  }

  lemma {:induction false} PopOk(env: Env, ns: nat, nr: nat, k: Kind, s: Stack)
    requires StackOk(env, ns, nr, s)
    ensures StackOk(env, ns, nr, PopTo(k, s))
    decreases s
  {
    if s.Push? { PopOk(env, ns, nr, k, s.rest); }
  }

  lemma ExecOk(env: Env, ns: nat, nr: nat, i: Instr, next: nat, t: Th, s: Stack)
    requires ThOk(env, ns, nr, t) && StackOk(env, ns, nr, s)
    ensures CfgOk(env, ns, nr, Exec(env, i, next, t, s))
  {
    hide Exec, CfgOk, ThOk, StackOk;
    if IsCharOp(i) || i.Prev? {
      ExecOkChar(env, ns, nr, i, next, t, s);
    } else if i.LookMatch? || i.LookOp? || i.Goto? || i.Split? || i.Loop? || i.LoopSplit? {
      ExecOkJump(env, ns, nr, i, next, t, s);
    } else {
      ExecOkRest(env, ns, nr, i, next, t, s);
    }
  }

  lemma ExecOkChar(env: Env, ns: nat, nr: nat, i: Instr, next: nat, t: Th, s: Stack)
    requires ThOk(env, ns, nr, t) && StackOk(env, ns, nr, s) && (IsCharOp(i) || i.Prev?)
    ensures CfgOk(env, ns, nr, Exec(env, i, next, t, s))
  {
    hide TestChar, Boundary;
    if i.Prev? {
      if 0 < t.pos { BackForward(env, t.pos); }
    } else {
      if t.pos < |env.units| { ForwardBack(env, t.pos); }
    }
  }

  lemma ExecOkJump(env: Env, ns: nat, nr: nat, i: Instr, next: nat, t: Th, s: Stack)
    requires ThOk(env, ns, nr, t) && StackOk(env, ns, nr, s)
    requires i.LookMatch? || i.LookOp? || i.Goto? || i.Split? || i.Loop? || i.LoopSplit?
    ensures CfgOk(env, ns, nr, Exec(env, i, next, t, s))
  {
    hide Boundary;
    if i.LookMatch? { PopOk(env, ns, nr, if i.neg then KNegLook else KLook, s); }
  }

  lemma ExecOkRest(env: Env, ns: nat, nr: nat, i: Instr, next: nat, t: Th, s: Stack)
    requires ThOk(env, ns, nr, t) && StackOk(env, ns, nr, s) && !IsCharOp(i)
    requires !(i.Prev? || i.LookMatch? || i.LookOp? || i.Goto? || i.Split? || i.Loop? || i.LoopSplit?)
    ensures CfgOk(env, ns, nr, Exec(env, i, next, t, s))
  {
    hide BackRefPos, Boundary, Holds, StackOk;
  }

  /** One step keeps all positions on boundaries. */
  lemma StepOk(P: Prog, ns: nat, nr: nat, c: Cfg)
    requires CfgOk(P.env, ns, nr, c)
    ensures CfgOk(P.env, ns, nr, Step(P, c))
  {
    hide Exec, Decode, Size;
    if c.Run? && Decode(P.code, c.pc).Some? {
      var i := Decode(P.code, c.pc).value;
      ExecOk(P.env, ns, nr, i, c.pc + Size(i), c.t, c.stk);
    }
  }

  /** Whole runs. */
  lemma {:induction false} RunOk(P: Prog, ns: nat, nr: nat, c: Cfg, n: nat)
    requires CfgOk(P.env, ns, nr, c)
    ensures CfgOk(P.env, ns, nr, StepN(P, c, n))
    decreases n
  {
    hide Step;
    if n > 0 {
      StepOk(P, ns, nr, c);
      RunOk(P, ns, nr, Step(P, c), n - 1);
    }
  }
}
