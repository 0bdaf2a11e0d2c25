/**
 The backtracking machine in its simple form: every saved state carries a full copy of the
 captures and registers. ExecBacktrack refines it with one flat stack of undo entries.
 */
module Machine {
  import opened RegexpPattern
  import opened Bytecode
  import opened SlotMatcher

  /** A thread: position, capture slots and loop registers. */
  datatype Th = Th(pos: nat, slots: seq<int>, regs: seq<int>)

  datatype Kind = KSplit | KLook | KNegLook

  datatype Stack = Nil | Push(kind: Kind, pc: nat, t: Th, rest: Stack)

  datatype Cfg =
    | Run(pc: nat, t: Th, stk: Stack)
    | Back(stk: Stack)
    | Done(matched: bool, slots: seq<int>)
    | Stuck

  datatype Prog = Prog(env: Env, code: seq<u8>)

  /** Whether the operands of a range instruction accept c, as the binary search finds it; in
      the 16-bit form a last bound of 0xffff means infinity. */
  predicate RangeTest(wide: bool, tab: seq<int>, c: int)
    requires |tab| >= 2
  {
    var n := |tab| / 2;
    && tab[0] <= c
    && ((!wide && c >= 0xffff && tab[2 * n - 1] == 0xffff) || (c <= tab[2 * n - 1] && Search(tab, c, 0, n - 1)))
  }

  /** The binary search among the entries lo .. hi. */
  predicate Search(tab: seq<int>, c: int, lo: nat, hi: int)
    requires hi < |tab| / 2
    decreases hi - lo
  {
    lo <= hi &&
    var mid := (lo + hi) / 2;
    if c < tab[2 * mid] then Search(tab, c, lo, mid - 1)
    else if c > tab[2 * mid + 1] then Search(tab, c, mid + 1, hi)
    else true
  }

  predicate InEntry(tab: seq<int>, i: nat, c: int)
    requires i < |tab| / 2
  {
    tab[2 * i] <= c <= tab[2 * i + 1]
  }

  /** Instructions that test one character; a range has at least one entry. */
  predicate IsCharOp(i: Instr) {
    match i
    case Range(_, _, tab) => |tab| >= 2
    case _ => i.Char? || i.DotOp? || i.AnyOp? || i.SpaceOp? || i.NotSpaceOp?
  }

  /** The test of a single-character instruction. */
  predicate TestChar(env: Env, i: Instr, c: int)
    requires IsCharOp(i)
  {
    match i
    case Char(_, icase, v) => v == if icase then env.canon(c) else c
    case DotOp => !IsLineTerminator(c)
    case AnyOp => true
    case SpaceOp => env.space(c)
    case NotSpaceOp => !env.space(c)
    case Range(wide, icase, tab) => RangeTest(wide, tab, if icase then env.canon(c) else c)
  }

  function Jump(pc: nat, off: int, t: Th, s: Stack): Cfg {
    if pc + off < 0 then Stuck else Run(pc + off, t, s)
  }

  /** Continue at one of next and next + off; the other one is saved. */
  function Fork(next: nat, off: int, nextFirst: bool, t: Th, s: Stack): Cfg {
    if next + off < 0 then Stuck
    else if nextFirst then Run(next, t, Push(KSplit, next + off, t, s))
    else Run(next + off, t, Push(KSplit, next, t, s))
  }

  function SetReg(t: Th, r: int, v: int): Th
    requires 0 <= r < |t.regs|
  {
    t.(regs := t.regs[r := v])
  }

  /** The topmost saved state of kind k. */
  function PopTo(k: Kind, s: Stack): Stack {
    match s
    case Nil => Nil
    case Push(kind, _, _, rest) => if kind == k then s else PopTo(k, rest)
  }

  function Pass(ok: bool, next: nat, t: Th, s: Stack): Cfg {
    if ok then Run(next, t, s) else Back(s)
  }

  /** One instruction i of the thread t; next is the address after i. */
  function Exec(env: Env, i: Instr, next: nat, t: Th, s: Stack): Cfg {
    match i
    case Match => Done(true, t.slots)
    case LookMatch(neg) =>
      (match PopTo(if neg then KNegLook else KLook, s)
       case Nil => Stuck
       case Push(_, pc, t0, rest) => if neg then Back(rest) else Run(pc, t.(pos := t0.pos), rest))
    case Goto(off) => Jump(next, off, t, s)
    case Split(nf, off) => Fork(next, off, nf, t, s)
    case LookOp(neg, off) =>
      if next + off < 0 then Stuck
      else Run(next, t, Push(if neg then KNegLook else KLook, next + off, t, s))
    case LineStartOp(m) => Pass(t.pos <= |env.units| && Holds(env, LineStart(m), t.pos), next, t, s)
    case LineEndOp(m) => Pass(t.pos <= |env.units| && Holds(env, LineEnd(m), t.pos), next, t, s)
    case WordBoundaryOp(neg, ic) =>
      Pass(t.pos <= |env.units| && Holds(env, WordBoundary(neg, ic), t.pos), next, t, s)
    case Save(end, idx) =>
      if idx < 0 || 2 * idx + 1 >= |t.slots| then Stuck
      else Run(next, t.(slots := SetSlot(t.slots, 2 * idx + B(end), t.pos)), s)
    case SaveReset(lo, hi) =>
      if lo < 0 || hi < lo || 2 * hi + 1 >= |t.slots| then Stuck
      else Run(next, t.(slots := Reset(t.slots, lo, hi - lo + 1)), s)
    case SetI32(r, v) => if !(0 <= r < |t.regs|) then Stuck else Run(next, SetReg(t, r, v), s)
    case SetCharPos(r) => if !(0 <= r < |t.regs|) then Stuck else Run(next, SetReg(t, r, t.pos), s)
    case CheckAdvance(r) => if !(0 <= r < |t.regs|) then Stuck else Pass(t.regs[r] != t.pos, next, t, s)
    case Loop(r, off) =>
      if !(0 <= r < |t.regs|) then Stuck
      else
        var v := (t.regs[r] - 1) % 0x1_0000_0000;
        if v != 0 then Jump(next, off, SetReg(t, r, v), s) else Run(next, SetReg(t, r, v), s)
    case LoopSplit(check, nf, r, limit, off) =>
      if !(0 <= r < |t.regs|) || (check && r + 1 >= |t.regs|) then Stuck
      else
        var v := (t.regs[r] - 1) % 0x1_0000_0000;
        var t' := SetReg(t, r, v);
        if v > limit then Jump(next, off, t', s)
        else if check && t.regs[r + 1] == t.pos && v != limit then Back(s)
        else if v != 0 then Fork(next, off, nf, t', s)
        else Run(next, t', s)
    case BackRefOp(bw, ic, idxs) =>
      var p := BackRefPos(env, bw, ic, idxs, t.slots, t.pos);
      if p == NULL then Back(s) else Run(next, t.(pos := p), s)
    case Prev =>
      if 0 < t.pos <= |env.units| then Run(next, t.(pos := t.pos - PrevLen(env, t.pos, 0)), s) else Back(s)
    case _ =>
      if !IsCharOp(i) then Stuck
      else if t.pos < |env.units| && TestChar(env, i, CharAt(env, t.pos, |env.units|))
      then Run(next, t.(pos := t.pos + CharLen(env, t.pos, |env.units|)), s) else Back(s)
  }

  function Step(P: Prog, c: Cfg): Cfg {
    match c
    case Run(pc, t, s) =>
      (match Decode(P.code, pc)
       case None => Stuck
       case Some(i) => Exec(P.env, i, pc + Size(i), t, s))
    case Back(Nil) => Done(false, [])
    case Back(Push(kind, pc, t, rest)) => if kind == KLook then Back(rest) else Run(pc, t, rest)
    case _ => c
  }

  function StepN(P: Prog, c: Cfg, n: nat): Cfg
    decreases n
  {
    if n == 0 then c else StepN(P, Step(P, c), n - 1)
  }

  ghost predicate Reaches(P: Prog, c: Cfg, c': Cfg) { exists n: nat :: StepN(P, c, n) == c' }

  lemma {:induction false} StepAdd(P: Prog, c: Cfg, m: nat, n: nat)
    ensures StepN(P, c, m + n) == StepN(P, StepN(P, c, m), n)
    decreases m
  {
    hide Step;
    if m > 0 { StepAdd(P, Step(P, c), m - 1, n); }
  }

  lemma Trans(P: Prog, a: Cfg, b: Cfg, c: Cfg)
    requires Reaches(P, a, b) && Reaches(P, b, c)
    ensures Reaches(P, a, c)
  {
    hide Step;
    var m: nat :| StepN(P, a, m) == b;
    var n: nat :| StepN(P, b, n) == c;
    StepAdd(P, a, m, n);
  }

  lemma Refl(P: Prog, a: Cfg)
    ensures Reaches(P, a, a)
  {
    assert StepN(P, a, 0) == a;
  }

  lemma One(P: Prog, a: Cfg)
    ensures Reaches(P, a, Step(P, a))
  {
    hide Step;
    assert StepN(P, a, 1) == StepN(P, Step(P, a), 0);
  }

  /** One instruction of code that stands at pc. */
  lemma OneInstr(P: Prog, pc: nat, i: Instr, t: Th, s: Stack)
    requires Decode(P.code, pc) == Some(i)
    ensures Reaches(P, Run(pc, t, s), Exec(P.env, i, pc + Size(i), t, s))
  {
    hide Decode, Exec, Enc;
    One(P, Run(pc, t, s));
  }

  lemma OneBack(P: Prog, k: Kind, pc: nat, t: Th, s: Stack)
    ensures Reaches(P, Back(Push(k, pc, t, s)), if k == KLook then Back(s) else Run(pc, t, s))
  {
    hide Decode, Exec, Enc;
    One(P, Back(Push(k, pc, t, s)));
  }
}
