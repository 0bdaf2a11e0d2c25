/**
 The two passes that libregexp makes over emitted code: the advance / capture-init analysis of
 an atom, and the allocation of registers.
 */
module CodeScan {
  import opened RegexpPattern
  import opened Bytecode
  import opened Codegen

  const REGISTER_COUNT_MAX: nat := 255

  // ----- need_check_adv and need_capture_init -------------------------------------------------------

  function ScanOp(i: Instr): Scan {
    match i
    case Char(_, _, _) => Scan(false, false, false)
    case Range(_, _, _) => Scan(false, false, false)
    case DotOp => Scan(false, false, false)
    case AnyOp => Scan(false, false, false)
    case SpaceOp => Scan(false, false, false)
    case NotSpaceOp => Scan(false, false, false)
    case LineStartOp(_) => SCAN_NOTHING
    case LineEndOp(_) => SCAN_NOTHING
    case SetI32(_, _) => SCAN_NOTHING
    case SetCharPos(_) => SCAN_NOTHING
    case WordBoundaryOp(_, _) => SCAN_NOTHING
    case Prev => SCAN_NOTHING
    case Save(_, _) => SCAN_NOTHING
    case SaveReset(_, _) => SCAN_NOTHING
    case BackRefOp(_, _, _) => Scan(true, true, false)
    case _ => SCAN_STOP
  }

  function ScanOps(ops: seq<Instr>): Scan {
    if ops == [] then SCAN_NOTHING else Then(ScanOp(ops[0]), ScanOps(ops[1..]))
  }

  lemma {:induction false} ScanAppend(a: seq<Instr>, b: seq<Instr>)
    ensures ScanOps(a + b) == Then(ScanOps(a), ScanOps(b))
    decreases a
  {
    if a == [] {
      assert a + b == b;
    } else {
      assert (a + b)[1..] == a[1..] + b;
      ScanAppend(a[1..], b);
    }
  }

  lemma ScanOne(i: Instr)
    ensures ScanOps([i]) == ScanOp(i)
  {
    assert ScanOps([i]) == Then(ScanOp(i), ScanOps([]));
  }

  lemma ScanThree(a: seq<Instr>, b: seq<Instr>, c: seq<Instr>)
    ensures ScanOps(a + b + c) == Then(Then(ScanOps(a), ScanOps(b)), ScanOps(c))
  {
    ScanAppend(a + b, c);
    ScanAppend(a, b);
  }

  /** The analysis of the emitted code is the analysis of the pattern. */
  lemma {:induction false} ScanComp(env: Env, n: Node, bw: bool, cc: nat, zero: bool, d: nat)
    requires Wf(n)
    ensures ScanOps(Comp(env, n, bw, cc, zero, d)) == ScanNode(n, bw)
    decreases n, 1
  {
    hide Comp, ScanOps, Sz, CharCode;
    match n
    case Empty => ScanPlain(env, n, bw, cc, zero, d);
    case Chr(cs) => CompChr(env, n, bw, cc, zero, d); ScanChr(env, cs, bw);
    case Assert(a) => ScanPlain(env, n, bw, cc, zero, d);
    case BackRef(idxs, icase) => ScanPlain(env, n, bw, cc, zero, d);
    case Cat(l, r) =>
      var lc, rc := Comp(env, l, bw, cc, zero, d), Comp(env, r, bw, cc + NumGroups(l), zero, d);
      CompCat(env, n, bw, cc, zero, d);
      ScanComp(env, l, bw, cc, zero, d);
      ScanComp(env, r, bw, cc + NumGroups(l), zero, d);
      if bw { ScanAppend(rc, lc); } else { ScanAppend(lc, rc); }
    case Alt(l, r) =>
      var lc, rc := Comp(env, l, bw, cc, zero, d), Comp(env, r, bw, cc + NumGroups(l), zero, d);
      CompAlt(env, n, bw, cc, zero, d);
      ScanFirst(Split(true, Sz(lc) + 5), lc + [Goto(Sz(rc))] + rc);
      assert AltCode(lc, rc) == [Split(true, Sz(lc) + 5)] + (lc + [Goto(Sz(rc))] + rc);
    case Group(b) =>
      CompGroup(env, n, bw, cc, zero, d);
      ScanThree([Save(bw, cc)], Comp(env, b, bw, cc + 1, zero, d), [Save(!bw, cc)]);
      ScanOne(Save(bw, cc));
      ScanOne(Save(!bw, cc));
      ScanComp(env, b, bw, cc + 1, zero, d);
    case Look(behind, neg, b) =>
      var bc := Comp(env, b, behind, cc, zero, d);
      CompLook(env, n, bw, cc, zero, d);
      ScanFirst(LookOp(neg, Sz(bc) + 1), bc + [LookMatch(neg)]);
      assert LookCode(neg, bc) == [LookOp(neg, Sz(bc) + 1)] + (bc + [LookMatch(neg)]);
    case Quant(_, _, _, _) => ScanQuant(env, n, bw, cc, zero, d);
  }

  lemma ScanPlain(env: Env, n: Node, bw: bool, cc: nat, zero: bool, d: nat)
    requires n.Empty? || n.Assert? || n.BackRef?
    ensures ScanOps(Comp(env, n, bw, cc, zero, d)) == ScanNode(n, bw)
  {
    if n.Assert? { ScanOne(AssertCode(n.a)); }
    if n.BackRef? { ScanOne(BackRefOp(bw, n.icase, n.idxs)); }
  }

  lemma ScanChr(env: Env, cs: CharSet, bw: bool)
    ensures ScanOps(Opt(bw, Prev) + [CharCode(env, cs)] + Opt(bw, Prev)) == Scan(false, false, false)
  {
    hide ScanOps;
    ScanThree(Opt(bw, Prev), [CharCode(env, cs)], Opt(bw, Prev));
    ScanOne(CharCode(env, cs));
    ScanOne(Prev);
    ScanNone();
  }

  lemma ScanNone()
    ensures ScanOps([]) == SCAN_NOTHING
  {
  }

  lemma ScanFirst(i: Instr, rest: seq<Instr>)
    requires ScanOp(i).stop
    ensures ScanOps([i] + rest) == ScanOp(i)
  {
    ScanAppend([i], rest);
    ScanOne(i);
  }

  lemma ScanReset(cond: bool, cc: nat, g: nat)
    ensures ScanOps(ResetCode(cond, cc, g)) == SCAN_NOTHING
  {
    if cond && g > 0 { ScanOne(SaveReset(cc, cc + g - 1)); }
  }

  lemma ScanCount(a: seq<Instr>, adv: bool, simple: bool, greedy: bool, limit: int, reg: int, preg: int)
    ensures ScanOps(CountCode(a, adv, simple, greedy, limit, reg, preg)) == Then(ScanOps(a), SCAN_STOP)
  {
    hide Sz, ScanOps;
    ScanNone();
    var pos := SetCharPos(preg);
    var body := Opt(adv, pos) + a;
    var last := if simple then Loop(reg, -6 - Sz(body)) else LoopSplit(adv, !greedy, reg, limit, -10 - Sz(body));
    ScanThree(Opt(adv, pos), a, [last]);
    ScanOne(pos);
    ScanOne(last);
  }

  lemma ScanQuant(env: Env, n: Node, bw: bool, cc: nat, zero: bool, d: nat)
    requires n.Quant? && Wf(n)
    ensures ScanOps(Comp(env, n, bw, cc, zero, d)) == ScanNode(n, bw)
    decreases n, 0
  {
    hide Sz, QuantCode, Comp, ResetCode, ScanOps;
    CompQuant(env, n, bw, cc, zero, d);
    var s, g := ScanNode(n.body, bw), NumGroups(n.body);
    var bc := Comp(env, n.body, bw, cc, zero, d + QuantRegs(s.adv, n.min, n.max));
    ScanComp(env, n.body, bw, cc, zero, d + QuantRegs(s.adv, n.min, n.max));
    ScanReset(s.init, cc, g);
    ScanReset(!s.init, cc, g);
    ScanAppend(ResetCode(s.init, cc, g), bc);
    ScanQuantCode(ResetCode(s.init, cc, g) + bc, ResetCode(!s.init, cc, g), s, n.min, n.max, n.greedy,
                  if zero then 0 else d, if zero then 0 else d + 1);
  }

  /** The code of a quantifier around the code a of its atom. */
  lemma ScanQuantCode(a: seq<Instr>, pre: seq<Instr>, s: Scan, min: nat, max: nat, greedy: bool, reg: int, preg: int)
    requires ScanOps(a) == s && ScanOps(pre) == SCAN_NOTHING && min <= max
    ensures ScanOps(QuantCode(a, pre, s.adv, min, max, greedy, reg, preg)) ==
      if max == 0 then SCAN_NOTHING else if min == 0 then SCAN_STOP else Then(s, SCAN_STOP)
  {
    hide Sz, CountCode, StarCode, ScanOps;
    if min == 0 && max > 0 {
      if max == 1 || max == INT32_MAX {
        ScanAppend(pre, StarCode(a, s.adv, max == INT32_MAX, greedy, reg));
        ScanStar(a, s.adv, max == INT32_MAX, greedy, reg);
      } else {
        var loop := CountCode(a, s.adv, false, greedy, max, reg, preg);
        var head := Split(greedy, 6 + Sz(loop));
        assert pre + [head, SetI32(reg, max)] + loop == pre + ([head] + ([SetI32(reg, max)] + loop));
        ScanAppend(pre, [head] + ([SetI32(reg, max)] + loop));
        ScanFirst(head, [SetI32(reg, max)] + loop);
      }
    } else if min == 1 && max == INT32_MAX && !s.adv {
      ScanAppend(a, [Split(!greedy, -5 - Sz(a))]);
      ScanOne(Split(!greedy, -5 - Sz(a)));
    } else if min > 0 {
      var adv := s.adv && min != max;
      ScanAppend([SetI32(reg, max)], CountCode(a, adv, min == max, greedy, max - min, reg, preg));
      ScanOne(SetI32(reg, max));
      ScanCount(a, adv, min == max, greedy, max - min, reg, preg);
    }
  }

  lemma ScanStar(a: seq<Instr>, adv: bool, star: bool, greedy: bool, reg: int)
    ensures ScanOps(StarCode(a, adv, star, greedy, reg)) == SCAN_STOP
  {
    hide Sz;
    var len := Sz(a) + (if adv then 4 else 0) + (if star then 5 else 0);
    var rest := Opt(adv, SetCharPos(reg)) + a + Opt(adv, CheckAdvance(reg)) + Opt(star, Goto(-5 - len));
    assert StarCode(a, adv, star, greedy, reg) == [Split(greedy, len)] + rest;
    ScanFirst(Split(greedy, len), rest);
  }

  /** What the opcode byte alone tells the scan. */
  function ScanByte(op: u8): Scan {
    if 1 <= op <= 8 || 36 <= op <= 39 then Scan(false, false, false)
    else if 9 <= op <= 12 || 19 <= op <= 21 || 27 <= op <= 31 || op == 42 || op == 44 then SCAN_NOTHING
    else if 32 <= op <= 35 then Scan(true, true, false)
    else SCAN_STOP
  }

  lemma ScanByteIs(i: Instr)
    ensures ScanByte(Enc(i)[0]) == ScanOp(i)
  {
  }

  /** re_need_check_adv_and_capture_init. */
  method NeedCheckAdvAndCaptureInit(bc: seq<u8>, ghost ops: seq<Instr>) returns (needCheckAdv: bool, needCaptureInit: bool)
    requires bc == EncAll(ops) && SizedAll(ops)
    ensures needCheckAdv == ScanOps(ops).adv && needCaptureInit == ScanOps(ops).init
  {
    hide Enc, SizeAt, FixedSize, ScanOp, ScanByte;
    needCheckAdv, needCaptureInit := true, false;
    var pos := 0;
    ghost var k := 0;
    assert ops[0..] == ops;
    while pos < |bc|
      invariant 0 <= pos <= |bc| && 0 <= k <= |ops| && bc[pos..] == EncAll(ops[k..])
      invariant k < |ops| ==> pos < |bc|
      invariant ScanOps(ops) == Then(Scan(needCheckAdv, needCaptureInit, false), ScanOps(ops[k..]))
      decreases |bc| - pos
    {
      assert ops[k..][1..] == ops[k + 1..];
      StandsAt(bc, pos, ops[k], ops[k + 1..]);
      SizeAtEnc(bc, pos, ops[k]);
      ScanByteIs(ops[k]);
      var what := ScanByte(bc[pos]);
      var len := SizeAt(bc, pos);
      if what.stop {
        ScanOpStop(ops[k]);
        needCaptureInit := true;
        return;
      }
      needCheckAdv, needCaptureInit := needCheckAdv && what.adv, needCaptureInit || what.init;
      pos, k := pos + len, k + 1;
    }
  }

  lemma ScanOpStop(i: Instr)
    requires ScanOp(i).stop
    ensures ScanOp(i) == SCAN_STOP
  {
  }

  lemma StandsAt(bc: seq<u8>, pos: nat, i: Instr, rest: seq<Instr>)
    requires pos <= |bc| && bc[pos..] == Enc(i) + EncAll(rest)
    ensures Stands(bc, pos, i) && pos + Size(i) <= |bc| && bc[pos + Size(i)..] == EncAll(rest)
  {
    hide Enc, EncAll;
    var t := bc[pos..];
    assert t[..Size(i)] == bc[pos..pos + Size(i)] && t[Size(i)..] == bc[pos + Size(i)..];
  }

  // ----- registers ----------------------------------------------------------------------------------

  /** Outcome of allocating registers: the rewritten code, the registers live after it and the
      largest number live at once; or more than REGISTER_COUNT_MAX; or a failed assertion. */
  datatype RegRes = RegOk(ops: seq<Instr>, size: nat, max: nat) | TooMany | AssertFails

  function PushReg(i: Instr, size: nat, max: nat): RegRes {
    if size + 1 <= max then RegOk([i], size + 1, max)
    else if size + 1 > REGISTER_COUNT_MAX then TooMany
    else RegOk([i], size + 1, size + 1)
  }

  function PopReg(i: Instr, k: nat, size: nat, max: nat): RegRes {
    if size < k then AssertFails else RegOk([i], size - k, max)
  }

  function RegOp(i: Instr, size: nat, max: nat): RegRes {
    match i
    case SetI32(_, v) => PushReg(SetI32(size, v), size, max)
    case SetCharPos(_) => PushReg(SetCharPos(size), size, max)
    case CheckAdvance(_) => PopReg(CheckAdvance(size - 1), 1, size, max)
    case Loop(_, off) => PopReg(Loop(size - 1, off), 1, size, max)
    case LoopSplit(check, nf, _, limit, off) =>
      var k := if check then 2 else 1;
      PopReg(LoopSplit(check, nf, size - k, limit, off), k, size, max)
    case _ => RegOk([i], size, max)
  }

  function RegOps(ops: seq<Instr>, size: nat, max: nat): RegRes {
    if ops == [] then RegOk([], size, max)
    else
      match RegOp(ops[0], size, max)
      case RegOk(o, s, m) =>
        (match RegOps(ops[1..], s, m)
         case RegOk(o', s', m') => RegOk(o + o', s', m')
         case e => e)
      case e => e
  }

  lemma {:induction false} RegAppend(a: seq<Instr>, b: seq<Instr>, size: nat, max: nat)
    ensures RegOps(a + b, size, max) ==
      match RegOps(a, size, max)
      case RegOk(o, s, m) =>
        (match RegOps(b, s, m)
         case RegOk(o', s', m') => RegOk(o + o', s', m')
         case e => e)
      case e => e
    decreases a
  {
    hide RegOp;
    if a == [] {
      assert a + b == b;
      if RegOps(b, size, max).RegOk? { assert [] + RegOps(b, size, max).ops == RegOps(b, size, max).ops; }
    } else {
      assert (a + b)[1..] == a[1..] + b;
      match RegOp(a[0], size, max) {
        case RegOk(o, s, m) =>
          RegAppend(a[1..], b, s, m);
          if RegOps(a[1..], s, m).RegOk? {
            var r := RegOps(a[1..], s, m);
            if RegOps(b, r.size, r.max).RegOk? {
              assert o + (r.ops + RegOps(b, r.size, r.max).ops) == (o + r.ops) + RegOps(b, r.size, r.max).ops;
            }
          }
        case _ =>
      }
    }
  }

  /** Code that needs `need` more registers and leaves none live, rewritten to to. */
  ghost predicate Balanced(ops: seq<Instr>, to: seq<Instr>, size: nat, need: nat) {
    forall max: nat :: size <= max <= REGISTER_COUNT_MAX ==>
      RegOps(ops, size, max) == if size + need <= REGISTER_COUNT_MAX then RegOk(to, size, Max(max, size + need)) else TooMany
  }

  lemma BalancedSeq(a: seq<Instr>, a': seq<Instr>, b: seq<Instr>, b': seq<Instr>, size: nat, na: nat, nb: nat)
    requires Balanced(a, a', size, na) && Balanced(b, b', size, nb)
    ensures Balanced(a + b, a' + b', size, Max(na, nb))
  {
    hide RegOps;
    forall max: nat | size <= max <= REGISTER_COUNT_MAX
      ensures RegOps(a + b, size, max) ==
        if size + Max(na, nb) <= REGISTER_COUNT_MAX then RegOk(a' + b', size, Max(max, size + Max(na, nb))) else TooMany
    {
      RegAppend(a, b, size, max);
    }
  }

  /** An instruction that touches no register. */
  lemma BalancedOne(i: Instr, size: nat)
    requires !i.SetI32? && !i.SetCharPos? && !i.CheckAdvance? && !i.Loop? && !i.LoopSplit?
    ensures Balanced([i], [i], size, 0)
  {
    forall max: nat | size <= max <= REGISTER_COUNT_MAX ensures RegOps([i], size, max) == RegOk([i], size, max) {
      assert RegOps([i][1..], size, max) == RegOk([], size, max);
    }
  }

  lemma BalancedNone(size: nat)
    ensures Balanced([], [], size, 0)
  {
  }

  /** Registers that i takes, as a loop opener. */
  lemma BalancedLoop(open: seq<Instr>, open': seq<Instr>, a: seq<Instr>, a': seq<Instr>, close: Instr, close': Instr,
                     size: nat, k: nat, need: nat)
    requires Opens(open, open', size, k) && Balanced(a, a', size + k, need) && Closes(close, close', size, k)
    ensures Balanced(open + a + [close], open' + a' + [close'], size, k + need)
  {
    hide RegOps, RegOp;
    forall max: nat | size <= max <= REGISTER_COUNT_MAX
      ensures RegOps(open + a + [close], size, max) ==
        if size + k + need <= REGISTER_COUNT_MAX then RegOk(open' + a' + [close'], size, Max(max, size + k + need)) else TooMany
    {
      RegAppend(open + a, [close], size, max);
      RegAppend(open, a, size, max);
      if size + k <= REGISTER_COUNT_MAX {
        var m1 := Max(max, size + k);
        assert RegOps(open, size, max) == RegOk(open', size + k, m1);
        if size + k + need <= REGISTER_COUNT_MAX {
          var m2 := Max(m1, size + k + need);
          assert RegOps(a, size + k, m1) == RegOk(a', size + k, m2);
          RegSingle(close, size + k, m2);
          assert RegOp(close, size + k, m2) == RegOk([close'], size, m2);
          assert [close'] + [] == [close'];
        }
      }
    }
  }

  lemma RegSingle(i: Instr, size: nat, max: nat)
    ensures RegOps([i], size, max) ==
      match RegOp(i, size, max) case RegOk(o, s, m) => RegOk(o + [], s, m) case e => e
  {
    hide RegOp;
    assert forall s: nat, m: nat :: RegOps([i][1..], s, m) == RegOk([], s, m);
  }

  ghost predicate Opens(open: seq<Instr>, open': seq<Instr>, size: nat, k: nat) {
    forall max: nat :: size <= max <= REGISTER_COUNT_MAX ==>
      RegOps(open, size, max) == if size + k <= REGISTER_COUNT_MAX then RegOk(open', size + k, Max(max, size + k)) else TooMany
  }

  ghost predicate Closes(close: Instr, close': Instr, size: nat, k: nat) {
    forall max: nat :: RegOp(close, size + k, max) == RegOk([close'], size, max)
  }

  lemma BalancedReset(cond: bool, cc: nat, g: nat, size: nat)
    ensures Balanced(ResetCode(cond, cc, g), ResetCode(cond, cc, g), size, 0)
  {
    hide Balanced;
    if cond && g > 0 { BalancedOne(SaveReset(cc, cc + g - 1), size); } else { BalancedNone(size); }
  }

  /** Register allocation turns the emitted code into the code with nested registers; it fails
      exactly when more than REGISTER_COUNT_MAX would be live, and none of its assertions fails. */
  lemma {:induction false} RegComp(env: Env, n: Node, bw: bool, cc: nat, d: nat)
    requires Wf(n)
    ensures Balanced(Comp(env, n, bw, cc, true, 0), Comp(env, n, bw, cc, false, d), d, RegNeed(n, bw))
    decreases n, 1
  {
    hide Comp, Balanced, Sz, CharCode;
    match n
    case Empty => RegPlain(env, n, bw, cc, d);
    case Assert(_) => RegPlain(env, n, bw, cc, d);
    case BackRef(_, _) => RegPlain(env, n, bw, cc, d);
    case Chr(cs) => CompChr(env, n, bw, cc, true, 0); CompChr(env, n, bw, cc, false, d); RegChr(env, cs, bw, d);
    case Cat(l, r) =>
      var cr := cc + NumGroups(l);
      CompCat(env, n, bw, cc, true, 0);
      CompCat(env, n, bw, cc, false, d);
      RegComp(env, l, bw, cc, d);
      RegComp(env, r, bw, cr, d);
      var l0, l1 := Comp(env, l, bw, cc, true, 0), Comp(env, l, bw, cc, false, d);
      var r0, r1 := Comp(env, r, bw, cr, true, 0), Comp(env, r, bw, cr, false, d);
      if bw { BalancedSeq(r0, r1, l0, l1, d, RegNeed(r, bw), RegNeed(l, bw)); }
      else { BalancedSeq(l0, l1, r0, r1, d, RegNeed(l, bw), RegNeed(r, bw)); }
    case Alt(l, r) =>
      var cr := cc + NumGroups(l);
      CompAlt(env, n, bw, cc, true, 0);
      CompAlt(env, n, bw, cc, false, d);
      RegComp(env, l, bw, cc, d);
      RegComp(env, r, bw, cr, d);
      var l0, l1 := Comp(env, l, bw, cc, true, 0), Comp(env, l, bw, cc, false, d);
      var r0, r1 := Comp(env, r, bw, cr, true, 0), Comp(env, r, bw, cr, false, d);
      CompSize(env, l, bw, cc, d);
      CompSize(env, r, bw, cr, d);
      var split, goto := Split(true, Sz(l0) + 5), Goto(Sz(r0));
      BalancedOne(split, d);
      BalancedOne(goto, d);
      BalancedSeq([split], [split], l0, l1, d, 0, RegNeed(l, bw));
      BalancedSeq([split] + l0, [split] + l1, [goto], [goto], d, RegNeed(l, bw), 0);
      BalancedSeq([split] + l0 + [goto], [split] + l1 + [goto], r0, r1, d, RegNeed(l, bw), RegNeed(r, bw));
    case Group(b) =>
      CompGroup(env, n, bw, cc, true, 0);
      CompGroup(env, n, bw, cc, false, d);
      RegComp(env, b, bw, cc + 1, d);
      BalancedOne(Save(bw, cc), d);
      BalancedOne(Save(!bw, cc), d);
      RegWrap(Save(bw, cc), Comp(env, b, bw, cc + 1, true, 0), Comp(env, b, bw, cc + 1, false, d), Save(!bw, cc), d, RegNeed(b, bw));
    case Look(behind, neg, b) =>
      CompLook(env, n, bw, cc, true, 0);
      CompLook(env, n, bw, cc, false, d);
      RegComp(env, b, behind, cc, d);
      CompSize(env, b, behind, cc, d);
      var b0, b1 := Comp(env, b, behind, cc, true, 0), Comp(env, b, behind, cc, false, d);
      BalancedOne(LookOp(neg, Sz(b0) + 1), d);
      BalancedOne(LookMatch(neg), d);
      RegWrap(LookOp(neg, Sz(b0) + 1), b0, b1, LookMatch(neg), d, RegNeed(b, behind));
    case Quant(_, _, _, _) => RegQuant(env, n, bw, cc, d);
  }

  lemma RegPlain(env: Env, n: Node, bw: bool, cc: nat, d: nat)
    requires n.Empty? || n.Assert? || n.BackRef?
    ensures Balanced(Comp(env, n, bw, cc, true, 0), Comp(env, n, bw, cc, false, d), d, RegNeed(n, bw))
  {
    hide Balanced;
    BalancedNone(d);
    if n.Assert? { BalancedOne(AssertCode(n.a), d); }
    if n.BackRef? { BalancedOne(BackRefOp(bw, n.icase, n.idxs), d); }
  }

  lemma RegWrap(i: Instr, a: seq<Instr>, a': seq<Instr>, j: Instr, d: nat, need: nat)
    requires Balanced(a, a', d, need) && Balanced([i], [i], d, 0) && Balanced([j], [j], d, 0)
    ensures Balanced([i] + a + [j], [i] + a' + [j], d, need)
  {
    hide Balanced;
    BalancedSeq([i], [i], a, a', d, 0, need);
    BalancedSeq([i] + a, [i] + a', [j], [j], d, need, 0);
  }

  lemma RegChr(env: Env, cs: CharSet, bw: bool, d: nat)
    ensures var c := Opt(bw, Prev) + [CharCode(env, cs)] + Opt(bw, Prev); Balanced(c, c, d, 0)
  {
    var i := CharCode(env, cs);
    BalancedOne(i, d);
    hide Balanced, CharCode;
    BalancedOne(Prev, d);
    BalancedNone(d);
    BalancedSeq(Opt(bw, Prev), Opt(bw, Prev), [i], [i], d, 0, 0);
    BalancedSeq(Opt(bw, Prev) + [i], Opt(bw, Prev) + [i], Opt(bw, Prev), Opt(bw, Prev), d, 0, 0);
  }

  // ----- sizes do not depend on registers -------------------------------------------------------------

  lemma {:induction false} CompSize(env: Env, n: Node, bw: bool, cc: nat, d: nat)
    ensures Sz(Comp(env, n, bw, cc, true, 0)) == Sz(Comp(env, n, bw, cc, false, d))
    decreases n, 1
  {
    CompSizes(env, n, bw, cc, true, 0, false, d);
  }

  lemma SzAppend(a: seq<Instr>, b: seq<Instr>)
    ensures Sz(a + b) == Sz(a) + Sz(b)
  {
    hide EncAll;
    EncAppend(a, b);
  }

  lemma SzOne(i: Instr)
    ensures Sz([i]) == Size(i)
  {
    hide Enc;
    EncOne(i);
  }

  lemma {:induction false} CompSizes(env: Env, n: Node, bw: bool, cc: nat, z: bool, d: nat, z': bool, d': nat)
    ensures Sz(Comp(env, n, bw, cc, z, d)) == Sz(Comp(env, n, bw, cc, z', d'))
    decreases n
  {
    hide Comp, Sz, Enc, CharCode;
    match n
    case Chr(_) => CompChr(env, n, bw, cc, z, d); CompChr(env, n, bw, cc, z', d');
    case Cat(l, r) =>
      var cr := cc + NumGroups(l);
      CompCat(env, n, bw, cc, z, d);
      CompCat(env, n, bw, cc, z', d');
      CompSizes(env, l, bw, cc, z, d, z', d');
      CompSizes(env, r, bw, cr, z, d, z', d');
      SzAppend(Comp(env, l, bw, cc, z, d), Comp(env, r, bw, cr, z, d));
      SzAppend(Comp(env, r, bw, cr, z, d), Comp(env, l, bw, cc, z, d));
      SzAppend(Comp(env, l, bw, cc, z', d'), Comp(env, r, bw, cr, z', d'));
      SzAppend(Comp(env, r, bw, cr, z', d'), Comp(env, l, bw, cc, z', d'));
    case Alt(l, r) =>
      var cr := cc + NumGroups(l);
      CompAlt(env, n, bw, cc, z, d);
      CompAlt(env, n, bw, cc, z', d');
      CompSizes(env, l, bw, cc, z, d, z', d');
      CompSizes(env, r, bw, cr, z, d, z', d');
      SzAlt(Comp(env, l, bw, cc, z, d), Comp(env, r, bw, cr, z, d));
      SzAlt(Comp(env, l, bw, cc, z', d'), Comp(env, r, bw, cr, z', d'));
    case Group(b) =>
      CompGroup(env, n, bw, cc, z, d);
      CompGroup(env, n, bw, cc, z', d');
      CompSizes(env, b, bw, cc + 1, z, d, z', d');
      SzWrap(Save(bw, cc), Comp(env, b, bw, cc + 1, z, d), Save(!bw, cc));
      SzWrap(Save(bw, cc), Comp(env, b, bw, cc + 1, z', d'), Save(!bw, cc));
    case Look(behind, neg, b) =>
      CompLook(env, n, bw, cc, z, d);
      CompLook(env, n, bw, cc, z', d');
      CompSizes(env, b, behind, cc, z, d, z', d');
      SzWrap(LookOp(neg, Sz(Comp(env, b, behind, cc, z, d)) + 1), Comp(env, b, behind, cc, z, d), LookMatch(neg));
      SzWrap(LookOp(neg, Sz(Comp(env, b, behind, cc, z', d')) + 1), Comp(env, b, behind, cc, z', d'), LookMatch(neg));
    case Quant(b, min, max, greedy) =>
      var k := QuantRegs(ScanNode(b, bw).adv, min, max);
      CompQuant(env, n, bw, cc, z, d);
      CompQuant(env, n, bw, cc, z', d');
      CompSizes(env, b, bw, cc, z, d + k, z', d' + k);
      SzQuantOf(env, n, bw, cc, z, d);
      SzQuantOf(env, n, bw, cc, z', d');
    case _ => CompSizesPlain(env, n, bw, cc, z, d, z', d');
  }

  lemma CompSizesPlain(env: Env, n: Node, bw: bool, cc: nat, z: bool, d: nat, z': bool, d': nat)
    requires n.Empty? || n.Assert? || n.BackRef?
    ensures Sz(Comp(env, n, bw, cc, z, d)) == Sz(Comp(env, n, bw, cc, z', d'))
  {
    hide Sz;
  }

  lemma SzWrap(i: Instr, a: seq<Instr>, j: Instr)
    ensures Sz([i] + a + [j]) == Size(i) + Sz(a) + Size(j)
  {
    hide Sz, Enc;
    SzAppend([i] + a, [j]);
    SzAppend([i], a);
    SzOne(i);
    SzOne(j);
  }

  lemma SzAlt(l: seq<Instr>, r: seq<Instr>)
    ensures Sz(AltCode(l, r)) == 10 + Sz(l) + Sz(r)
  {
    var split, goto := Split(true, Sz(l) + 5), Goto(Sz(r));
    assert Size(split) == 5 && Size(goto) == 5;
    hide Sz, Enc;
    SzWrap(split, l, goto);
    SzAppend([split] + l + [goto], r);
  }

  /** The size of a quantifier's code from the size of its atom. */
  function QuantSize(a: nat, pre: nat, adv: bool, min: nat, max: nat): nat {
    if min == 0 then
      if max == 0 then pre
      else if max == 1 || max == INT32_MAX then pre + 5 + a + (if adv then 4 else 0) + (if max == INT32_MAX then 5 else 0)
      else pre + 11 + a + (if adv then 2 else 0) + 10
    else if min == 1 && max == INT32_MAX && !adv then a + 5
    else 6 + a + (if adv && min != max then 2 else 0) + (if min == max then 6 else 10)
  }

  lemma SzOpt(cond: bool, i: Instr)
    ensures Sz(Opt(cond, i)) == if cond then Size(i) else 0
  {
    hide Enc;
    SzOne(i);
  }

  lemma SzStar(a: seq<Instr>, adv: bool, star: bool, greedy: bool, reg: int)
    ensures Sz(StarCode(a, adv, star, greedy, reg)) == 5 + Sz(a) + (if adv then 4 else 0) + (if star then 5 else 0)
  {
    hide Sz, Enc, EncAll;
    Sizes();
    var len := Sz(a) + (if adv then 4 else 0) + (if star then 5 else 0);
    var i0, i1, i2, i3 := Split(greedy, len), SetCharPos(reg), CheckAdvance(reg), Goto(-5 - len);
    SzAppend([i0] + Opt(adv, i1) + a + Opt(adv, i2), Opt(star, i3));
    SzAppend([i0] + Opt(adv, i1) + a, Opt(adv, i2));
    SzAppend([i0] + Opt(adv, i1), a);
    SzAppend([i0], Opt(adv, i1));
    SzOne(i0);
    SzOpt(adv, i1);
    SzOpt(adv, i2);
    SzOpt(star, i3);
  }

  lemma SzCount(a: seq<Instr>, adv: bool, simple: bool, greedy: bool, limit: int, reg: int, preg: int)
    ensures Sz(CountCode(a, adv, simple, greedy, limit, reg, preg)) == Sz(a) + (if adv then 2 else 0) + (if simple then 6 else 10)
  {
    hide Sz, Enc;
    Sizes();
    var pos := SetCharPos(preg);
    var body := Opt(adv, pos) + a;
    var last := if simple then Loop(reg, -6 - Sz(body)) else LoopSplit(adv, !greedy, reg, limit, -10 - Sz(body));
    SzAppend(body, [last]);
    SzAppend(Opt(adv, pos), a);
    SzOpt(adv, pos);
    SzOne(last);
  }

  lemma SzQuant(a: seq<Instr>, pre: seq<Instr>, adv: bool, min: nat, max: nat, greedy: bool, reg: int, preg: int)
    ensures Sz(QuantCode(a, pre, adv, min, max, greedy, reg, preg)) == QuantSize(Sz(a), Sz(pre), adv, min, max)
  {
    hide Sz, Enc, StarCode, CountCode;
    Sizes();
    if min == 0 {
      if max == 1 || max == INT32_MAX {
        SzStar(a, adv, max == INT32_MAX, greedy, reg);
        SzAppend(pre, StarCode(a, adv, max == INT32_MAX, greedy, reg));
      } else if max > 1 {
        var loop := CountCode(a, adv, false, greedy, max, reg, preg);
        var split := Split(greedy, 6 + Sz(loop));
        SzCount(a, adv, false, greedy, max, reg, preg);
        assert [split, SetI32(reg, max)] == [split] + [SetI32(reg, max)];
        SzAppend([split], [SetI32(reg, max)]);
        SzOne(split);
        SzOne(SetI32(reg, max));
        SzAppend(pre + [split, SetI32(reg, max)], loop);
        SzAppend(pre, [split, SetI32(reg, max)]);
      }
    } else if min == 1 && max == INT32_MAX && !adv {
      SzAppend(a, [Split(!greedy, -5 - Sz(a))]);
      SzOne(Split(!greedy, -5 - Sz(a)));
    } else {
      SzCount(a, adv && min != max, min == max, greedy, max - min, reg, preg);
      SzAppend([SetI32(reg, max)], CountCode(a, adv && min != max, min == max, greedy, max - min, reg, preg));
      SzOne(SetI32(reg, max));
    }
  }

  lemma SzQuantOf(env: Env, n: Node, bw: bool, cc: nat, z: bool, d: nat)
    requires n.Quant?
    ensures var s, g := ScanNode(n.body, bw), NumGroups(n.body);
      Sz(Comp(env, n, bw, cc, z, d)) ==
      QuantSize(Sz(ResetCode(s.init, cc, g)) + Sz(Comp(env, n.body, bw, cc, z, d + QuantRegs(s.adv, n.min, n.max))),
                Sz(ResetCode(!s.init, cc, g)), s.adv, n.min, n.max)
  {
    hide Sz, Comp, QuantCode, ResetCode, ScanNode;
    var s, g := ScanNode(n.body, bw), NumGroups(n.body);
    var bc := Comp(env, n.body, bw, cc, z, d + QuantRegs(s.adv, n.min, n.max));
    CompQuant(env, n, bw, cc, z, d);
    SzQuant(ResetCode(s.init, cc, g) + bc, ResetCode(!s.init, cc, g), s.adv, n.min, n.max, n.greedy, if z then 0 else d, if z then 0 else d + 1);
    SzAppend(ResetCode(s.init, cc, g), bc);
  }

  // ----- registers of quantifiers -----------------------------------------------------------------------

  lemma OpensOne(i: Instr, i': Instr, size: nat)
    requires (i.SetI32? && i' == SetI32(size, i.val)) || (i.SetCharPos? && i' == SetCharPos(size))
    ensures Opens([i], [i'], size, 1)
  {
    forall max: nat | size <= max <= REGISTER_COUNT_MAX
      ensures RegOps([i], size, max) ==
        if size + 1 <= REGISTER_COUNT_MAX then RegOk([i'], size + 1, Max(max, size + 1)) else TooMany
    {
      RegSingle(i, size, max);
      assert [i'] + [] == [i'];
    }
  }

  lemma OpensBoth(v: int, size: nat)
    ensures Opens([SetI32(0, v)] + [SetCharPos(0)], [SetI32(size, v)] + [SetCharPos(size + 1)], size, 2)
  {
    OpensOne(SetI32(0, v), SetI32(size, v), size);
    OpensOne(SetCharPos(0), SetCharPos(size + 1), size + 1);
    hide RegOps, RegOp;
    forall max: nat | size <= max <= REGISTER_COUNT_MAX
      ensures RegOps([SetI32(0, v)] + [SetCharPos(0)], size, max) ==
        if size + 2 <= REGISTER_COUNT_MAX then RegOk([SetI32(size, v)] + [SetCharPos(size + 1)], size + 2, Max(max, size + 2)) else TooMany
    {
      RegAppend([SetI32(0, v)], [SetCharPos(0)], size, max);
    }
  }

  lemma RegStar(a: seq<Instr>, a': seq<Instr>, adv: bool, star: bool, greedy: bool, d: nat, need: nat)
    requires Sz(a) == Sz(a') && Balanced(a, a', if adv then d + 1 else d, need)
    ensures Balanced(StarCode(a, adv, star, greedy, 0), StarCode(a', adv, star, greedy, d), d, (if adv then 1 else 0) + need)
  {
    hide Balanced, Opens, Closes, Sz;
    var len := Sz(a) + (if adv then 4 else 0) + (if star then 5 else 0);
    var split, goto := Split(greedy, len), Goto(-5 - len);
    BalancedOne(split, d);
    BalancedOne(goto, d);
    BalancedNone(d);
    if adv {
      OpensOne(SetCharPos(0), SetCharPos(d), d);
      ClosesCheck(d);
      BalancedLoop([SetCharPos(0)], [SetCharPos(d)], a, a', CheckAdvance(0), CheckAdvance(d), d, 1, need);
      var m, m' := [SetCharPos(0)] + a + [CheckAdvance(0)], [SetCharPos(d)] + a' + [CheckAdvance(d)];
      BalancedSeq([split], [split], m, m', d, 0, 1 + need);
      BalancedSeq([split] + m, [split] + m', Opt(star, goto), Opt(star, goto), d, 1 + need, 0);
      assert StarCode(a, adv, star, greedy, 0) == [split] + m + Opt(star, goto);
      assert StarCode(a', adv, star, greedy, d) == [split] + m' + Opt(star, goto);
    } else {
      BalancedSeq([split], [split], a, a', d, 0, need);
      BalancedSeq([split] + a, [split] + a', Opt(star, goto), Opt(star, goto), d, need, 0);
      assert StarCode(a, adv, star, greedy, 0) == [split] + a + Opt(star, goto);
      assert StarCode(a', adv, star, greedy, d) == [split] + a' + Opt(star, goto);
    }
  }

  lemma ClosesCheck(d: nat)
    ensures Closes(CheckAdvance(0), CheckAdvance(d), d, 1)
  {
  }

  lemma ClosesLoop(adv: bool, simple: bool, greedy: bool, limit: int, off: int, d: nat)
    requires simple ==> !adv
    ensures if simple then Closes(Loop(0, off), Loop(d, off), d, 1)
            else Closes(LoopSplit(adv, greedy, 0, limit, off), LoopSplit(adv, greedy, d, limit, off), d, if adv then 2 else 1)
  {
  }

  /** set_i32 and the counted loop after it. */
  lemma RegCount(v: int, a: seq<Instr>, a': seq<Instr>, adv: bool, simple: bool, greedy: bool, limit: int, d: nat, need: nat)
    requires Sz(a) == Sz(a') && Balanced(a, a', if adv then d + 2 else d + 1, need) && (simple ==> !adv)
    ensures Balanced([SetI32(0, v)] + CountCode(a, adv, simple, greedy, limit, 0, 0),
                     [SetI32(d, v)] + CountCode(a', adv, simple, greedy, limit, d, d + 1), d, (if adv then 2 else 1) + need)
  {
    hide Balanced, Opens, Closes, Sz;
    var size: int := Sz(Opt(adv, SetCharPos(0)) + a);
    SzAppend(Opt(adv, SetCharPos(0)), a);
    SzAppend(Opt(adv, SetCharPos(d + 1)), a');
    SzOpt(adv, SetCharPos(0));
    SzOpt(adv, SetCharPos(d + 1));
    assert Size(SetCharPos(0)) == Size(SetCharPos(d + 1));
    var off: int := if simple then -6 - size else -10 - size;
    ClosesLoop(adv, simple, !greedy, limit, off, d);
    var last := if simple then Loop(0, off) else LoopSplit(adv, !greedy, 0, limit, off);
    var last' := if simple then Loop(d, off) else LoopSplit(adv, !greedy, d, limit, off);
    if adv {
      OpensBoth(v, d);
      BalancedLoop([SetI32(0, v)] + [SetCharPos(0)], [SetI32(d, v)] + [SetCharPos(d + 1)], a, a', last, last', d, 2, need);
      assert [SetI32(0, v)] + CountCode(a, adv, simple, greedy, limit, 0, 0) == [SetI32(0, v)] + [SetCharPos(0)] + a + [last];
      assert [SetI32(d, v)] + CountCode(a', adv, simple, greedy, limit, d, d + 1) == [SetI32(d, v)] + [SetCharPos(d + 1)] + a' + [last'];
    } else {
      OpensOne(SetI32(0, v), SetI32(d, v), d);
      BalancedLoop([SetI32(0, v)], [SetI32(d, v)], a, a', last, last', d, 1, need);
      assert [SetI32(0, v)] + CountCode(a, adv, simple, greedy, limit, 0, 0) == [SetI32(0, v)] + a + [last];
      assert [SetI32(d, v)] + CountCode(a', adv, simple, greedy, limit, d, d + 1) == [SetI32(d, v)] + a' + [last'];
    }
  }

  lemma RegOptional(pre: seq<Instr>, a0: seq<Instr>, a1: seq<Instr>, adv: bool, max: nat, greedy: bool, d: nat, need: nat)
    requires Sz(a0) == Sz(a1) && Balanced(a0, a1, if adv then d + 2 else d + 1, need) && Balanced(pre, pre, d, 0)
    requires 1 < max < INT32_MAX
    ensures Balanced(QuantCode(a0, pre, adv, 0, max, greedy, 0, 0), QuantCode(a1, pre, adv, 0, max, greedy, d, d + 1),
                     d, (if adv then 2 else 1) + need)
  {
    hide Balanced, Sz, CountCode;
    var k := if adv then 2 else 1;
    RegCount(max, a0, a1, adv, false, greedy, max, d, need);
    var l0, l1 := CountCode(a0, adv, false, greedy, max, 0, 0), CountCode(a1, adv, false, greedy, max, d, d + 1);
    SzCount(a0, adv, false, greedy, max, 0, 0);
    SzCount(a1, adv, false, greedy, max, d, d + 1);
    var split := Split(greedy, 6 + Sz(l0));
    BalancedOne(split, d);
    BalancedSeq([split], [split], [SetI32(0, max)] + l0, [SetI32(d, max)] + l1, d, 0, k + need);
    BalancedSeq(pre, pre, [split] + ([SetI32(0, max)] + l0), [split] + ([SetI32(d, max)] + l1), d, 0, k + need);
    assert pre + [split, SetI32(0, max)] + l0 == pre + ([split] + ([SetI32(0, max)] + l0));
    assert pre + [split, SetI32(d, max)] + l1 == pre + ([split] + ([SetI32(d, max)] + l1));
  }

  lemma QuantParts(n: Node, bw: bool)
    requires n.Quant? && Wf(n)
    ensures Wf(n.body) && n.min <= n.max <= INT32_MAX
    ensures RegNeed(n, bw) == if n.max == 0 then 0 else QuantRegs(ScanNode(n.body, bw).adv, n.min, n.max) + RegNeed(n.body, bw)
  {
  }

  lemma RegQuant(env: Env, n: Node, bw: bool, cc: nat, d: nat)
    requires n.Quant? && Wf(n)
    ensures Balanced(Comp(env, n, bw, cc, true, 0), Comp(env, n, bw, cc, false, d), d, RegNeed(n, bw))
    decreases n, 0
  {
    hide Comp, Balanced, Sz, ResetCode, QuantCode, ScanNode, QuantRegs, RegNeed, NumGroups, Wf;
    var s, g := ScanNode(n.body, bw), NumGroups(n.body);
    var k := QuantRegs(s.adv, n.min, n.max);
    var need := RegNeed(n.body, bw);
    QuantParts(n, bw);
    var rc, pre := ResetCode(s.init, cc, g), ResetCode(!s.init, cc, g);
    CompQuant(env, n, bw, cc, true, 0);
    CompQuant(env, n, bw, cc, false, d);
    var b0, b1 := Comp(env, n.body, bw, cc, true, k), Comp(env, n.body, bw, cc, false, d + k);
    CompZero(env, n.body, bw, cc, k);
    RegComp(env, n.body, bw, cc, d + k);
    BalancedReset(s.init, cc, g, d + k);
    BalancedReset(!s.init, cc, g, d);
    BalancedSeq(rc, rc, b0, b1, d + k, 0, need);
    var a0, a1 := rc + b0, rc + b1;
    CompSizes(env, n.body, bw, cc, true, k, false, d + k);
    SzAppend(rc, b0);
    SzAppend(rc, b1);
    RegShape(a0, a1, pre, s.adv, n.min, n.max, n.greedy, d, need);
  }

  /** The code around an atom takes and gives back its own registers. */
  lemma RegShape(a0: seq<Instr>, a1: seq<Instr>, pre: seq<Instr>, adv: bool, min: nat, max: nat, greedy: bool, d: nat, need: nat)
    requires Sz(a0) == Sz(a1) && min <= max <= INT32_MAX
    requires Balanced(a0, a1, d + QuantRegs(adv, min, max), need) && Balanced(pre, pre, d, 0)
    ensures Balanced(QuantCode(a0, pre, adv, min, max, greedy, 0, 0), QuantCode(a1, pre, adv, min, max, greedy, d, d + 1),
                     d, if max == 0 then 0 else QuantRegs(adv, min, max) + need)
  {
    hide Balanced, Sz, StarCode, CountCode;
    if min == 0 {
      if max == 0 {
      } else if max == 1 || max == INT32_MAX {
        var star := max == INT32_MAX;
        RegStar(a0, a1, adv, star, greedy, d, need);
        BalancedSeq(pre, pre, StarCode(a0, adv, star, greedy, 0), StarCode(a1, adv, star, greedy, d),
                    d, 0, QuantRegs(adv, min, max) + need);
      } else {
        RegOptional(pre, a0, a1, adv, max, greedy, d, need);
      }
    } else if min == 1 && max == INT32_MAX && !adv {
      var split := Split(!greedy, -5 - Sz(a0));
      BalancedOne(split, d);
      BalancedSeq(a0, a1, [split], [split], d, need, 0);
    } else {
      RegCount(max, a0, a1, adv && min != max, min == max, greedy, max - min, d, need);
    }
  }

  /** With zero set, the depth plays no role. */
  lemma {:induction false} CompZero(env: Env, n: Node, bw: bool, cc: nat, d: nat)
    ensures Comp(env, n, bw, cc, true, d) == Comp(env, n, bw, cc, true, 0)
    decreases n
  {
    hide Comp, AltCode, LookCode, QuantCode, ScanNode;
    match n
    case Chr(_) => CompChr(env, n, bw, cc, true, d); CompChr(env, n, bw, cc, true, 0);
    case Cat(l, r) =>
      CompCat(env, n, bw, cc, true, d); CompCat(env, n, bw, cc, true, 0);
      CompZero(env, l, bw, cc, d);
      CompZero(env, r, bw, cc + NumGroups(l), d);
    case Alt(l, r) =>
      CompAlt(env, n, bw, cc, true, d); CompAlt(env, n, bw, cc, true, 0);
      CompZero(env, l, bw, cc, d);
      CompZero(env, r, bw, cc + NumGroups(l), d);
    case Group(b) => CompGroup(env, n, bw, cc, true, d); CompGroup(env, n, bw, cc, true, 0); CompZero(env, b, bw, cc + 1, d);
    case Look(behind, _, b) => CompLook(env, n, bw, cc, true, d); CompLook(env, n, bw, cc, true, 0); CompZero(env, b, behind, cc, d);
    case Quant(b, min, max, _) =>
      var k := QuantRegs(ScanNode(b, bw).adv, min, max);
      CompQuant(env, n, bw, cc, true, d); CompQuant(env, n, bw, cc, true, 0);
      CompZero(env, b, bw, cc, d + k);
      CompZero(env, b, bw, cc, k);
    case _ => CompZeroPlain(env, n, bw, cc, d);
  }

  lemma CompZeroPlain(env: Env, n: Node, bw: bool, cc: nat, d: nat)
    requires n.Empty? || n.Assert? || n.BackRef?
    ensures Comp(env, n, bw, cc, true, d) == Comp(env, n, bw, cc, true, 0)
  {
  }

  // ----- whole patterns ---------------------------------------------------------------------------------

  lemma RegProgram(env: Env, n: Node, sticky: bool)
    requires Wf(n)
    ensures Balanced(Program(env, n, sticky, true), Program(env, n, sticky, false), 0, RegNeed(n, false))
  {
    hide Comp, Balanced;
    var b0, b1 := Comp(env, n, false, 1, true, 0), Comp(env, n, false, 1, false, 0);
    var need := RegNeed(n, false);
    RegComp(env, n, false, 1, 0);
    BalancedOne(Save(false, 0), 0);
    BalancedOne(Save(true, 0), 0);
    BalancedOne(Match, 0);
    BalancedSeq([Save(true, 0)], [Save(true, 0)], [Match], [Match], 0, 0, 0);
    assert [Save(true, 0), Match] == [Save(true, 0)] + [Match];
    BalancedSeq([Save(false, 0)], [Save(false, 0)], b0, b1, 0, 0, need);
    BalancedSeq([Save(false, 0)] + b0, [Save(false, 0)] + b1, [Save(true, 0), Match], [Save(true, 0), Match], 0, need, 0);
    RegPrologue(sticky);
    BalancedSeq(Prologue(sticky), Prologue(sticky), [Save(false, 0)] + b0 + [Save(true, 0), Match],
                [Save(false, 0)] + b1 + [Save(true, 0), Match], 0, 0, need);
  }

  lemma RegPrologue(sticky: bool)
    ensures Balanced(Prologue(sticky), Prologue(sticky), 0, 0)
  {
    hide Balanced;
    BalancedNone(0);
    BalancedOne(Split(false, 6), 0);
    BalancedOne(AnyOp, 0);
    BalancedOne(Goto(-11), 0);
    BalancedSeq([Split(false, 6)], [Split(false, 6)], [AnyOp], [AnyOp], 0, 0, 0);
    BalancedSeq([Split(false, 6)] + [AnyOp], [Split(false, 6)] + [AnyOp], [Goto(-11)], [Goto(-11)], 0, 0, 0);
    assert [Split(false, 6), AnyOp, Goto(-11)] == [Split(false, 6)] + [AnyOp] + [Goto(-11)];
  }

  lemma ProgramSize(env: Env, n: Node, sticky: bool)
    ensures Sz(Program(env, n, sticky, true)) == Sz(Program(env, n, sticky, false))
  {
    hide Comp, Sz;
    var b0, b1 := Comp(env, n, false, 1, true, 0), Comp(env, n, false, 1, false, 0);
    CompSizes(env, n, false, 1, true, 0, false, 0);
    SzAppend(Prologue(sticky), [Save(false, 0)] + b0 + [Save(true, 0), Match]);
    SzAppend(Prologue(sticky), [Save(false, 0)] + b1 + [Save(true, 0), Match]);
    SzAppend([Save(false, 0)] + b0, [Save(true, 0), Match]);
    SzAppend([Save(false, 0)] + b1, [Save(true, 0), Match]);
    SzAppend([Save(false, 0)], b0);
    SzAppend([Save(false, 0)], b1);
  }
}
