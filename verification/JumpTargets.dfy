/**
 Control flow of compiled code stays on instruction boundaries: after every insertion and patch,
 each jump leads to the start of an instruction of the same code or to its end.
 */
module JumpTargets {
  import opened RegexpPattern
  import opened Bytecode
  import opened Codegen
  import opened CodeScan
  import opened Compiler

  /** The address p, counted from the start of ops, is where an instruction starts or ops ends. */
  ghost predicate Start(ops: seq<Instr>, p: int) {
    exists k :: 0 <= k <= |ops| && StartsAt(ops, k, p)
  }

  ghost predicate StartsAt(ops: seq<Instr>, k: int, p: int)
    requires 0 <= k <= |ops|
  {
    Sz(ops[..k]) == p
  }

  predicate IsJump(i: Instr) { i.Goto? || i.Split? || i.LookOp? || i.Loop? || i.LoopSplit? }

  function Offset(i: Instr): int
    requires IsJump(i)
  {
    match i
    case Goto(off) => off
    case Split(_, off) => off
    case LookOp(_, off) => off
    case Loop(_, off) => off
    case LoopSplit(_, _, _, _, off) => off
  }

  /** Where the k-th instruction jumps to. */
  ghost predicate Lands(ops: seq<Instr>, k: int)
    requires 0 <= k < |ops|
  {
    IsJump(ops[k]) ==> Start(ops, Sz(ops[..k]) + Size(ops[k]) + Offset(ops[k]))
  }

  ghost predicate Closed(ops: seq<Instr>) { forall k :: 0 <= k < |ops| ==> Lands(ops, k) }

  lemma StartOf(ops: seq<Instr>, a: seq<Instr>, b: seq<Instr>)
    requires ops == a + b
    ensures Start(ops, Sz(a))
  {
    assert ops[..|a|] == a;
    assert StartsAt(ops, |a|, Sz(a));
  }

  lemma StartLeft(a: seq<Instr>, b: seq<Instr>, p: int)
    requires Start(a, p)
    ensures Start(a + b, p)
  {
    var k :| 0 <= k <= |a| && StartsAt(a, k, p);
    assert (a + b)[..k] == a[..k];
    assert StartsAt(a + b, k, p);
  }

  lemma StartRight(a: seq<Instr>, b: seq<Instr>, p: int)
    requires Start(b, p)
    ensures Start(a + b, Sz(a) + p)
  {
    hide Sz;
    var k :| 0 <= k <= |b| && StartsAt(b, k, p);
    assert (a + b)[..|a| + k] == a + b[..k];
    SzAppend(a, b[..k]);
    assert StartsAt(a + b, |a| + k, Sz(a) + p);
  }

  lemma ClosedAppend(a: seq<Instr>, b: seq<Instr>)
    requires Closed(a) && Closed(b)
    ensures Closed(a + b)
  {
    hide Sz, Enc, Start;
    var ops := a + b;
    forall k | 0 <= k < |ops| ensures Lands(ops, k) {
      if k < |a| {
        assert ops[..k] == a[..k];
        assert Lands(a, k);
        if IsJump(ops[k]) { StartLeft(a, b, Sz(a[..k]) + Size(a[k]) + Offset(a[k])); }
      } else {
        var j := k - |a|;
        assert ops[..k] == a + b[..j];
        assert Lands(b, j);
        SzAppend(a, b[..j]);
        if IsJump(ops[k]) { StartRight(a, b, Sz(b[..j]) + Size(b[j]) + Offset(b[j])); }
      }
    }
  }

  lemma ClosedOne(i: Instr)
    requires !IsJump(i)
    ensures Closed([i])
  {
  }

  lemma ClosedNone()
    ensures Closed([])
  {
  }

  /** Adding one jump in front of, or behind, closed code. */
  lemma ClosedWith(a: seq<Instr>, i: Instr, b: seq<Instr>)
    requires Closed(a) && Closed(b) && IsJump(i) && Start(a + [i] + b, Sz(a) + Size(i) + Offset(i))
    ensures Closed(a + [i] + b)
  {
    hide Sz, Enc, Start;
    var ops := a + [i] + b;
    forall k | 0 <= k < |ops| ensures Lands(ops, k) {
      if k < |a| {
        assert ops[..k] == a[..k] && ops == a + ([i] + b);
        assert Lands(a, k);
        if IsJump(ops[k]) { StartLeft(a, [i] + b, Sz(a[..k]) + Size(a[k]) + Offset(a[k])); }
      } else if k == |a| {
        assert ops[..k] == a;
      } else {
        var j := k - |a| - 1;
        assert ops[..k] == (a + [i]) + b[..j];
        assert Lands(b, j);
        SzAppend(a + [i], b[..j]);
        if IsJump(ops[k]) { StartRight(a + [i], b, Sz(b[..j]) + Size(b[j]) + Offset(b[j])); }
      }
    }
  }

  lemma ClosedOpt(cond: bool, i: Instr)
    requires !IsJump(i)
    ensures Closed(Opt(cond, i))
  {
    hide Closed;
    ClosedOne(i);
    ClosedNone();
  }

  lemma ClosedReset(cond: bool, cc: nat, g: nat)
    ensures Closed(ResetCode(cond, cc, g))
  {
    hide Closed;
    if cond && g > 0 { ClosedOne(SaveReset(cc, cc + g - 1)); } else { ClosedNone(); }
  }

  lemma ClosedAlt(l: seq<Instr>, r: seq<Instr>)
    requires Closed(l) && Closed(r)
    ensures Closed(AltCode(l, r))
  {
    hide Sz, Enc, Closed, Start;
    Sizes();
    var split, goto := Split(true, Sz(l) + 5), Goto(Sz(r));
    var tail := l + [goto] + r;
    // the goto leads to the end
    StartOf(tail, tail, []);
    assert tail == tail + [];
    SzAppend(l + [goto], r);
    SzAppend(l, [goto]);
    SzOne(goto);
    ClosedWith(l, goto, r);
    // the split leads behind the goto
    ClosedNone();
    SzNil();
    assert [] + [split] + tail == ([split] + l + [goto]) + r;
    StartOf([] + [split] + tail, [split] + l + [goto], r);
    SzWrap(split, l, goto);
    ClosedWith([], split, tail);
    assert AltCode(l, r) == [] + [split] + tail;
  }

  lemma SzNil()
    ensures Sz([]) == 0
  {
  }

  lemma ClosedLook(neg: bool, b: seq<Instr>)
    requires Closed(b)
    ensures Closed(LookCode(neg, b))
  {
    hide Sz, Enc, Closed, Start;
    Sizes();
    var look := LookOp(neg, Sz(b) + 1);
    ClosedOne(LookMatch(neg));
    ClosedAppend(b, [LookMatch(neg)]);
    ClosedNone();
    SzNil();
    var ops := [] + [look] + (b + [LookMatch(neg)]);
    assert ops == LookCode(neg, b);
    StartOf(ops, ops, []);
    SzWrap(look, b, LookMatch(neg));
    ClosedWith([], look, b + [LookMatch(neg)]);
  }

  lemma ClosedStar(a: seq<Instr>, adv: bool, star: bool, greedy: bool, reg: int)
    requires Closed(a)
    ensures Closed(StarCode(a, adv, star, greedy, reg))
  {
    hide Sz, Enc, Closed, Start;
    Sizes();
    var len := Sz(a) + (if adv then 4 else 0) + (if star then 5 else 0);
    var split, goto := Split(greedy, len), Goto(-5 - len);
    var m := Opt(adv, SetCharPos(reg)) + a + Opt(adv, CheckAdvance(reg));
    ClosedOpt(adv, SetCharPos(reg));
    ClosedOpt(adv, CheckAdvance(reg));
    ClosedAppend(Opt(adv, SetCharPos(reg)), a);
    ClosedAppend(Opt(adv, SetCharPos(reg)) + a, Opt(adv, CheckAdvance(reg)));
    SzOpt(adv, SetCharPos(reg));
    SzOpt(adv, CheckAdvance(reg));
    SzAppend(Opt(adv, SetCharPos(reg)), a);
    SzAppend(Opt(adv, SetCharPos(reg)) + a, Opt(adv, CheckAdvance(reg)));
    SzStar(a, adv, star, greedy, reg);
    SzNil();
    ClosedNone();
    var ops := StarCode(a, adv, star, greedy, reg);
    if star {
      assert ops == [split] + m + [goto];
      ClosedTwo(split, m, goto);
    } else {
      assert ops == [] + [split] + m;
      StartOf(ops, ops, []);
      ClosedWith([], split, m);
    }
  }

  /** A loop: a split over the body and a goto back to it. */
  lemma LandsInside(i: Instr, m: seq<Instr>, j: Instr, k: nat)
    requires Closed(m) && 1 <= k <= |m|
    ensures Lands([i] + m + [j], k)
  {
    hide Sz, Enc, Start;
    var ops := [i] + m + [j];
    assert ops[..k] == [i] + m[..k - 1];
    assert Lands(m, k - 1);
    SzAppend([i], m[..k - 1]);
    if IsJump(ops[k]) {
      StartRight([i], m, Sz(m[..k - 1]) + Size(m[k - 1]) + Offset(m[k - 1]));
      StartLeft([i] + m, [j], Sz([i]) + (Sz(m[..k - 1]) + Size(m[k - 1]) + Offset(m[k - 1])));
    }
  }

  lemma ClosedTwo(i: Instr, m: seq<Instr>, j: Instr)
    requires Closed(m) && IsJump(i) && IsJump(j)
    requires Size(i) + Offset(i) == Size(i) + Sz(m) + Size(j) && Size(i) + Sz(m) + Size(j) + Offset(j) == 0
    ensures Closed([i] + m + [j])
  {
    hide Sz, Enc;
    var ops := [i] + m + [j];
    SzWrap(i, m, j);
    StartOf(ops, ops, []);
    StartOf(ops, [], ops);
    SzNil();
    forall k | 0 <= k < |ops| ensures Lands(ops, k) {
      if k == 0 {
        assert ops[..0] == [];
      } else if k <= |m| {
        LandsInside(i, m, j, k);
      } else {
        assert ops[..k] == [i] + m;
        SzAppend([i], m);
        SzOne(i);
      }
    }
  }

  lemma ClosedCount(a: seq<Instr>, adv: bool, simple: bool, greedy: bool, limit: int, reg: int, preg: int)
    requires Closed(a)
    ensures Closed(CountCode(a, adv, simple, greedy, limit, reg, preg))
  {
    hide Sz, Enc, Closed, Start;
    Sizes();
    var body := Opt(adv, SetCharPos(preg)) + a;
    var last := if simple then Loop(reg, -6 - Sz(body)) else LoopSplit(adv, !greedy, reg, limit, -10 - Sz(body));
    ClosedOpt(adv, SetCharPos(preg));
    ClosedAppend(Opt(adv, SetCharPos(preg)), a);
    ClosedNone();
    SzNil();
    var ops := body + [last] + [];
    assert ops == CountCode(a, adv, simple, greedy, limit, reg, preg);
    StartOf(ops, [], ops);
    ClosedWith(body, last, []);
  }

  lemma ClosedShape(a: seq<Instr>, pre: seq<Instr>, adv: bool, min: nat, max: nat, greedy: bool, reg: int, preg: int)
    requires Closed(a) && Closed(pre)
    ensures Closed(QuantCode(a, pre, adv, min, max, greedy, reg, preg))
  {
    hide Sz, Enc, Closed, Start, StarCode, CountCode;
    Sizes();
    SzNil();
    ClosedNone();
    ClosedOne(SetI32(reg, max));
    if min == 0 {
      if max == 1 || max == INT32_MAX {
        ClosedStar(a, adv, max == INT32_MAX, greedy, reg);
        ClosedAppend(pre, StarCode(a, adv, max == INT32_MAX, greedy, reg));
      } else if max > 1 {
        var loop := CountCode(a, adv, false, greedy, max, reg, preg);
        var split := Split(greedy, 6 + Sz(loop));
        ClosedCount(a, adv, false, greedy, max, reg, preg);
        ClosedAppend([SetI32(reg, max)], loop);
        SzAppend([SetI32(reg, max)], loop);
        SzOne(SetI32(reg, max));
        var ops := [] + [split] + ([SetI32(reg, max)] + loop);
        SzAppend([] + [split], [SetI32(reg, max)] + loop);
        assert [] + [split] == [split];
        SzOne(split);
        StartOf(ops, ops, []);
        ClosedWith([], split, [SetI32(reg, max)] + loop);
        ClosedAppend(pre, ops);
        assert pre + [split, SetI32(reg, max)] + loop == pre + ops;
      }
    } else if min == 1 && max == INT32_MAX && !adv {
      var split := Split(!greedy, -5 - Sz(a));
      var ops := a + [split] + [];
      assert ops == PlusCode(a, greedy);
      StartOf(ops, [], ops);
      ClosedWith(a, split, []);
    } else {
      ClosedCount(a, adv && min != max, min == max, greedy, max - min, reg, preg);
      ClosedAppend([SetI32(reg, max)], CountCode(a, adv && min != max, min == max, greedy, max - min, reg, preg));
    }
  }

  lemma {:induction false} ClosedComp(env: Env, n: Node, bw: bool, cc: nat, zero: bool, d: nat)
    ensures Closed(Comp(env, n, bw, cc, zero, d))
    decreases n
  {
    hide Comp, Sz, Closed, ScanNode, CharCode, QuantCode, AltCode, LookCode;
    match n
    case Chr(cs) =>
      CompChr(env, n, bw, cc, zero, d);
      ClosedOpt(bw, Prev);
      ClosedChar(env, cs);
      ClosedAppend(Opt(bw, Prev), [CharCode(env, cs)]);
      ClosedAppend(Opt(bw, Prev) + [CharCode(env, cs)], Opt(bw, Prev));
    case Cat(l, r) =>
      var lc, rc := Comp(env, l, bw, cc, zero, d), Comp(env, r, bw, cc + NumGroups(l), zero, d);
      CompCat(env, n, bw, cc, zero, d);
      ClosedComp(env, l, bw, cc, zero, d);
      ClosedComp(env, r, bw, cc + NumGroups(l), zero, d);
      ClosedAppend(lc, rc);
      ClosedAppend(rc, lc);
    case Alt(l, r) =>
      CompAlt(env, n, bw, cc, zero, d);
      ClosedComp(env, l, bw, cc, zero, d);
      ClosedComp(env, r, bw, cc + NumGroups(l), zero, d);
      ClosedAlt(Comp(env, l, bw, cc, zero, d), Comp(env, r, bw, cc + NumGroups(l), zero, d));
    case Group(b) =>
      var bc := Comp(env, b, bw, cc + 1, zero, d);
      CompGroup(env, n, bw, cc, zero, d);
      ClosedComp(env, b, bw, cc + 1, zero, d);
      ClosedOne(Save(bw, cc));
      ClosedOne(Save(!bw, cc));
      ClosedAppend([Save(bw, cc)], bc);
      ClosedAppend([Save(bw, cc)] + bc, [Save(!bw, cc)]);
    case Look(behind, neg, b) =>
      CompLook(env, n, bw, cc, zero, d);
      ClosedComp(env, b, behind, cc, zero, d);
      ClosedLook(neg, Comp(env, b, behind, cc, zero, d));
    case Quant(b, min, max, greedy) =>
      var s, g := ScanNode(b, bw), NumGroups(b);
      var bc := Comp(env, b, bw, cc, zero, d + QuantRegs(s.adv, min, max));
      CompQuant(env, n, bw, cc, zero, d);
      ClosedComp(env, b, bw, cc, zero, d + QuantRegs(s.adv, min, max));
      ClosedReset(s.init, cc, g);
      ClosedReset(!s.init, cc, g);
      ClosedAppend(ResetCode(s.init, cc, g), bc);
      ClosedShape(ResetCode(s.init, cc, g) + bc, ResetCode(!s.init, cc, g), s.adv, min, max, greedy,
                  if zero then 0 else d, if zero then 0 else d + 1);
    case _ => ClosedPlain(env, n, bw, cc, zero, d);
  }

  lemma ClosedChar(env: Env, cs: CharSet)
    ensures Closed([CharCode(env, cs)])
  {
    hide Closed;
    ClosedOne(CharCode(env, cs));
  }

  lemma ClosedPlain(env: Env, n: Node, bw: bool, cc: nat, zero: bool, d: nat)
    requires n.Empty? || n.Assert? || n.BackRef?
    ensures Closed(Comp(env, n, bw, cc, zero, d))
  {
    hide Closed;
    ClosedNone();
    if n.Assert? { ClosedOne(AssertCode(n.a)); }
    if n.BackRef? { ClosedOne(BackRefOp(bw, n.icase, n.idxs)); }
  }

  /** All jumps of a compiled pattern stay on instruction boundaries. */
  lemma ClosedProgram(env: Env, n: Node, sticky: bool, zero: bool)
    ensures Closed(Program(env, n, sticky, zero))
  {
    hide Comp, Closed;
    var nc := Comp(env, n, false, 1, zero, 0);
    ClosedComp(env, n, false, 1, zero, 0);
    ClosedOne(Save(false, 0));
    ClosedOne(Save(true, 0));
    ClosedOne(Match);
    ClosedAppend([Save(false, 0)], nc);
    ClosedAppend([Save(true, 0)], [Match]);
    assert [Save(true, 0), Match] == [Save(true, 0)] + [Match];
    ClosedAppend([Save(false, 0)] + nc, [Save(true, 0), Match]);
    ClosedPrologue(sticky);
    ClosedAppend(Prologue(sticky), [Save(false, 0)] + nc + [Save(true, 0), Match]);
  }

  lemma ClosedPrologue(sticky: bool)
    ensures Closed(Prologue(sticky))
  {
    if sticky {
      ClosedNone();
    } else {
      assert Size(AnyOp) == 1;
      hide Enc, Sz, Closed, Start;
      Sizes();
      SzOne(AnyOp);
      ClosedOne(AnyOp);
      ClosedTwo(Split(false, 6), [AnyOp], Goto(-11));
      assert Prologue(sticky) == [Split(false, 6)] + [AnyOp] + [Goto(-11)];
    }
  }
}
