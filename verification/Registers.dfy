/**
 Loop registers of compiled code: the code of a node uses only registers of its own range, and
 the atom of a loop only registers above those of the loop, so loops that are live at the same
 time never share one.
 */
module Registers {
  import opened RegexpPattern
  import opened Bytecode
  import opened Codegen
  import opened CodeScan

  /** The registers of i lie between lo and hi. */
  predicate RegIn(i: Instr, lo: int, hi: int) {
    match i
    case Loop(reg, _) => lo <= reg < hi
    case LoopSplit(check, _, reg, _, _) => lo <= reg && reg + (if check then 1 else 0) < hi
    case SetI32(reg, _) => lo <= reg < hi
    case SetCharPos(reg) => lo <= reg < hi
    case CheckAdvance(reg) => lo <= reg < hi
    case _ => true
  }

  ghost predicate RegsIn(ops: seq<Instr>, lo: int, hi: int) { forall k :: 0 <= k < |ops| ==> RegIn(ops[k], lo, hi) }

  lemma RegsAppend(a: seq<Instr>, b: seq<Instr>, lo: int, hi: int)
    requires RegsIn(a, lo, hi) && RegsIn(b, lo, hi)
    ensures RegsIn(a + b, lo, hi)
  {
  }

  lemma RegsWiden(a: seq<Instr>, lo: int, hi: int, lo': int, hi': int)
    requires RegsIn(a, lo, hi) && lo' <= lo && hi <= hi'
    ensures RegsIn(a, lo', hi')
  {
  }

  lemma RegsOne(i: Instr, lo: int, hi: int)
    requires RegIn(i, lo, hi)
    ensures RegsIn([i], lo, hi)
  {
  }

  lemma RegsOpt(cond: bool, i: Instr, lo: int, hi: int)
    requires cond ==> RegIn(i, lo, hi)
    ensures RegsIn(Opt(cond, i), lo, hi)
  {
  }

  lemma RegsReset(cond: bool, cc: nat, g: nat, lo: int, hi: int)
    ensures RegsIn(ResetCode(cond, cc, g), lo, hi)
  {
  }

  lemma RegsStar(a: seq<Instr>, adv: bool, star: bool, greedy: bool, d: nat, hi: int)
    requires RegsIn(a, d, hi) && (adv ==> d < hi)
    ensures RegsIn(StarCode(a, adv, star, greedy, d), d, hi)
  {
    hide Sz, RegsIn;
    var len := Sz(a) + (if adv then 4 else 0) + (if star then 5 else 0);
    var i0, i1, i2, i3 := Split(greedy, len), SetCharPos(d), CheckAdvance(d), Goto(-5 - len);
    RegsOne(i0, d, hi);
    RegsOpt(adv, i1, d, hi);
    RegsOpt(adv, i2, d, hi);
    RegsOpt(star, i3, d, hi);
    RegsAppend([i0], Opt(adv, i1), d, hi);
    RegsAppend([i0] + Opt(adv, i1), a, d, hi);
    RegsAppend([i0] + Opt(adv, i1) + a, Opt(adv, i2), d, hi);
    RegsAppend([i0] + Opt(adv, i1) + a + Opt(adv, i2), Opt(star, i3), d, hi);
  }

  lemma RegsCount(a: seq<Instr>, adv: bool, simple: bool, greedy: bool, limit: int, d: nat, hi: int)
    requires RegsIn(a, d, hi) && d + (if adv then 1 else 0) < hi
    ensures RegsIn(CountCode(a, adv, simple, greedy, limit, d, d + 1), d, hi)
  {
    hide Sz, RegsIn;
    var body := Opt(adv, SetCharPos(d + 1)) + a;
    var last := if simple then Loop(d, -6 - Sz(body)) else LoopSplit(adv, !greedy, d, limit, -10 - Sz(body));
    RegsOpt(adv, SetCharPos(d + 1), d, hi);
    RegsAppend(Opt(adv, SetCharPos(d + 1)), a, d, hi);
    RegsOne(last, d, hi);
    RegsAppend(body, [last], d, hi);
  }

  lemma RegsShape(a: seq<Instr>, pre: seq<Instr>, adv: bool, min: nat, max: nat, greedy: bool, d: nat, hi: int)
    requires max > 0 ==> RegsIn(a, d, hi) && d + QuantRegs(adv, min, max) <= hi
    requires RegsIn(pre, d, hi) && min <= max <= INT32_MAX
    ensures RegsIn(QuantCode(a, pre, adv, min, max, greedy, d, d + 1), d, hi)
  {
    hide Sz, RegsIn, StarCode, CountCode;
    if max == 0 {
    } else if min == 0 {
      if max == 1 || max == INT32_MAX {
        RegsStar(a, adv, max == INT32_MAX, greedy, d, hi);
        RegsAppend(pre, StarCode(a, adv, max == INT32_MAX, greedy, d), d, hi);
      } else {
        var loop := CountCode(a, adv, false, greedy, max, d, d + 1);
        var split := Split(greedy, 6 + Sz(loop));
        RegsCount(a, adv, false, greedy, max, d, hi);
        RegsOne(split, d, hi);
        RegsOne(SetI32(d, max), d, hi);
        RegsAppend(pre, [split], d, hi);
        RegsAppend(pre + [split], [SetI32(d, max)], d, hi);
        RegsAppend(pre + [split] + [SetI32(d, max)], loop, d, hi);
        assert pre + [split, SetI32(d, max)] + loop == pre + [split] + [SetI32(d, max)] + loop;
      }
    } else if min == 1 && max == INT32_MAX && !adv {
      RegsOne(Split(!greedy, -5 - Sz(a)), d, hi);
      RegsAppend(a, [Split(!greedy, -5 - Sz(a))], d, hi);
    } else {
      RegsCount(a, adv && min != max, min == max, greedy, max - min, d, hi);
      RegsOne(SetI32(d, max), d, hi);
      RegsAppend([SetI32(d, max)], CountCode(a, adv && min != max, min == max, greedy, max - min, d, d + 1), d, hi);
    }
  }

  /** The code of a node uses the registers from d on, as many as it needs. */
  lemma {:induction false} RegsComp(env: Env, n: Node, bw: bool, cc: nat, d: nat)
    requires Wf(n)
    ensures RegsIn(Comp(env, n, bw, cc, false, d), d, d + RegNeed(n, bw))
    decreases n, 1
  {
    hide Comp, Sz, RegsIn, QuantCode, ResetCode, ScanNode, CharCode;
    var hi := d + RegNeed(n, bw);
    match n
    case Cat(l, r) =>
      var lc, rc := Comp(env, l, bw, cc, false, d), Comp(env, r, bw, cc + NumGroups(l), false, d);
      CompCat(env, n, bw, cc, false, d);
      RegsComp(env, l, bw, cc, d);
      RegsComp(env, r, bw, cc + NumGroups(l), d);
      RegsWiden(lc, d, d + RegNeed(l, bw), d, hi);
      RegsWiden(rc, d, d + RegNeed(r, bw), d, hi);
      RegsAppend(lc, rc, d, hi);
      RegsAppend(rc, lc, d, hi);
    case Alt(_, _) => RegsAlt(env, n, bw, cc, d);
    case Group(b) =>
      var bc := Comp(env, b, bw, cc + 1, false, d);
      CompGroup(env, n, bw, cc, false, d);
      RegsComp(env, b, bw, cc + 1, d);
      RegsWrap(Save(bw, cc), bc, Save(!bw, cc), d, hi);
    case Look(behind, neg, b) =>
      var bc := Comp(env, b, behind, cc, false, d);
      CompLook(env, n, bw, cc, false, d);
      RegsComp(env, b, behind, cc, d);
      RegsWrap(LookOp(neg, Sz(bc) + 1), bc, LookMatch(neg), d, hi);
    case Quant(_, _, _, _) => RegsQuant(env, n, bw, cc, d);
    case _ => RegsPlain(env, n, bw, cc, d, hi);
  }

  lemma RegsAlt(env: Env, n: Node, bw: bool, cc: nat, d: nat)
    requires n.Alt? && Wf(n)
    ensures RegsIn(Comp(env, n, bw, cc, false, d), d, d + RegNeed(n, bw))
    decreases n, 0
  {
    hide Comp, Sz, RegsIn;
    var l, r, hi := n.l, n.r, d + RegNeed(n, bw);
    var lc, rc := Comp(env, l, bw, cc, false, d), Comp(env, r, bw, cc + NumGroups(l), false, d);
    CompAlt(env, n, bw, cc, false, d);
    RegsComp(env, l, bw, cc, d);
    RegsComp(env, r, bw, cc + NumGroups(l), d);
    RegsWiden(lc, d, d + RegNeed(l, bw), d, hi);
    RegsWiden(rc, d, d + RegNeed(r, bw), d, hi);
    RegsWrap(Split(true, Sz(lc) + 5), lc, Goto(Sz(rc)), d, hi);
    RegsAppend([Split(true, Sz(lc) + 5)] + lc + [Goto(Sz(rc))], rc, d, hi);
  }

  lemma RegsQuant(env: Env, n: Node, bw: bool, cc: nat, d: nat)
    requires n.Quant? && Wf(n)
    ensures RegsIn(Comp(env, n, bw, cc, false, d), d, d + RegNeed(n, bw))
    decreases n, 0
  {
    hide Comp, Sz, RegsIn, QuantCode, ResetCode, ScanNode, RegNeed, QuantRegs, Wf, NumGroups;
    QuantParts(n, bw);
    var b, min, max := n.body, n.min, n.max;
    var hi := d + RegNeed(n, bw);
    var s, g := ScanNode(b, bw), NumGroups(b);
    var d' := d + QuantRegs(s.adv, min, max);
    var bc := Comp(env, b, bw, cc, false, d');
    CompQuant(env, n, bw, cc, false, d);
    RegsComp(env, b, bw, cc, d');
    RegsReset(s.init, cc, g, d, hi);
    RegsReset(!s.init, cc, g, d, hi);
    if max > 0 {
      RegsWiden(bc, d', d' + RegNeed(b, bw), d, hi);
      RegsAppend(ResetCode(s.init, cc, g), bc, d, hi);
    }
    RegsShape(ResetCode(s.init, cc, g) + bc, ResetCode(!s.init, cc, g), s.adv, min, max, n.greedy, d, hi);
  }

  lemma RegsWrap(i: Instr, a: seq<Instr>, j: Instr, lo: int, hi: int)
    requires RegIn(i, lo, hi) && RegIn(j, lo, hi) && RegsIn(a, lo, hi)
    ensures RegsIn([i] + a + [j], lo, hi)
  {
  }

  lemma RegsPlain(env: Env, n: Node, bw: bool, cc: nat, d: nat, hi: int)
    requires n.Empty? || n.Chr? || n.Assert? || n.BackRef?
    ensures RegsIn(Comp(env, n, bw, cc, false, d), d, hi)
  {
    hide RangeTab, IsWide;
  }

  /** Every register of a compiled pattern is below the count in its header. */
  lemma RegsProgram(env: Env, n: Node, sticky: bool)
    requires Wf(n)
    ensures RegsIn(Program(env, n, sticky, false), 0, RegNeed(n, false))
  {
    hide Comp, RegsIn, RegNeed, Prologue;
    var hi := RegNeed(n, false);
    var nc := Comp(env, n, false, 1, false, 0);
    RegsComp(env, n, false, 1, 0);
    RegsPrologue(sticky, hi);
    RegsOne(Save(false, 0), 0, hi);
    RegsOne(Save(true, 0), 0, hi);
    RegsOne(Match, 0, hi);
    RegsAppend([Save(false, 0)], nc, 0, hi);
    RegsAppend([Save(true, 0)], [Match], 0, hi);
    assert [Save(true, 0), Match] == [Save(true, 0)] + [Match];
    RegsAppend([Save(false, 0)] + nc, [Save(true, 0), Match], 0, hi);
    RegsAppend(Prologue(sticky), [Save(false, 0)] + nc + [Save(true, 0), Match], 0, hi);
  }

  lemma RegsPrologue(sticky: bool, hi: int)
    ensures RegsIn(Prologue(sticky), 0, hi)
  {
  }
}
