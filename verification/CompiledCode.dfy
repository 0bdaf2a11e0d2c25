/**
 lre_compile as a whole, and the well-formedness of what it produces: every operand survives
 its encoding, so the instructions of the pattern stand at their addresses.
 */
module CompiledCode {
  import opened RegexpPattern
  import opened Bytecode
  import opened Codegen
  import opened CodeScan
  import opened Compiler
  import opened Simulation

  const MAX_CODE: int := INT32_MAX / 2

  // ----- operands fit ---------------------------------------------------------------------------------

  lemma FitsAppend(a: seq<Instr>, b: seq<Instr>)
    requires FitsAll(a) && FitsAll(b)
    ensures FitsAll(a + b)
  {
  }

  lemma FitsOne(i: Instr)
    requires Fits(i)
    ensures FitsAll([i])
  {
  }

  lemma FitsOpt(cond: bool, i: Instr)
    requires cond ==> Fits(i)
    ensures FitsAll(Opt(cond, i))
  {
  }

  lemma FitsRange(points: seq<int>, icase: bool)
    requires Canonical(points) && points != [] && |points| / 2 < 65535
    ensures Fits(Range(IsWide(points), icase, RangeTab(IsWide(points), points)))
  {
    var wide := IsWide(points);
    var tab := RangeTab(wide, points);
    var bound := if wide then 0x1_0000_0000 else 0x10000;
    forall k | 0 <= k < |tab| ensures 0 <= tab[k] < bound {
      assert tab[k] == if k % 2 == 0 then points[k] else High(wide, points[k]);
      if k % 2 == 1 { assert points[k - 1] < points[k]; }
      if k < |points| - 2 { assert points[k] < points[|points| - 2]; }
      if k < |points| - 1 { assert points[k] < points[|points| - 1]; }
    }
  }

  lemma FitsChar(env: Env, cs: CharSet)
    requires EnvOk(env) && WfSet(cs) && (cs.Cls? ==> |cs.points| / 2 < 65535)
    ensures Fits(CharCode(env, cs))
  {
    if cs.Cls? && cs.points != [] { FitsRange(cs.points, cs.icase); }
  }

  /** Registers and groups of n fit their bytes. */
  ghost predicate Small(n: Node, bw: bool, cc: nat, d: nat) {
    cc + NumGroups(n) <= 255 && d + RegNeed(n, bw) <= 255
  }

  lemma {:induction false} FitsComp(env: Env, n: Node, bw: bool, cc: nat, d: nat, total: nat)
    requires EnvOk(env) && Wf(n) && RefsIn(n, total) && Emittable(n) && total <= 255 && Small(n, bw, cc, d)
    requires Sz(Code(env, n, bw, cc, d)) <= MAX_CODE
    ensures FitsAll(Code(env, n, bw, cc, d))
    decreases n, 1
  {
    hide Comp, Sz, FitsAll, CharCode, EnvOk, Enc, ScanNode;
    match n
    case Empty => FitsPlain(env, n, bw, cc, d, total);
    case Assert(_) => FitsPlain(env, n, bw, cc, d, total);
    case BackRef(_, _) => FitsPlain(env, n, bw, cc, d, total);
    case Chr(cs) =>
      CompChr(env, n, bw, cc, false, d);
      FitsChar(env, cs);
      FitsOpt(bw, Prev);
      FitsOne(CharCode(env, cs));
      FitsAppend(Opt(bw, Prev), [CharCode(env, cs)]);
      FitsAppend(Opt(bw, Prev) + [CharCode(env, cs)], Opt(bw, Prev));
    case Cat(l, r) =>
      var lc, rc := Code(env, l, bw, cc, d), Code(env, r, bw, cc + NumGroups(l), d);
      CompCat(env, n, bw, cc, false, d);
      SzAppend(lc, rc);
      SzAppend(rc, lc);
      FitsComp(env, l, bw, cc, d, total);
      FitsComp(env, r, bw, cc + NumGroups(l), d, total);
      FitsAppend(lc, rc);
      FitsAppend(rc, lc);
    case Alt(_, _) => FitsAlt(env, n, bw, cc, d, total);
    case Group(b) =>
      CompGroup(env, n, bw, cc, false, d);
      SzWrap(Save(bw, cc), Code(env, b, bw, cc + 1, d), Save(!bw, cc));
      FitsComp(env, b, bw, cc + 1, d, total);
      FitsWrap(Save(bw, cc), Code(env, b, bw, cc + 1, d), Save(!bw, cc));
    case Look(behind, neg, b) =>
      var bc := Code(env, b, behind, cc, d);
      CompLook(env, n, bw, cc, false, d);
      SzWrap(LookOp(neg, Sz(bc) + 1), bc, LookMatch(neg));
      FitsComp(env, b, behind, cc, d, total);
      FitsWrap(LookOp(neg, Sz(bc) + 1), bc, LookMatch(neg));
    case Quant(_, _, _, _) => FitsQuant(env, n, bw, cc, d, total);
  }

  lemma FitsAlt(env: Env, n: Node, bw: bool, cc: nat, d: nat, total: nat)
    requires n.Alt? && EnvOk(env) && Wf(n) && RefsIn(n, total) && Emittable(n) && total <= 255 && Small(n, bw, cc, d)
    requires Sz(Code(env, n, bw, cc, d)) <= MAX_CODE
    ensures FitsAll(Code(env, n, bw, cc, d))
    decreases n, 0
  {
    hide Comp, Sz, FitsAll, EnvOk, Enc;
    var l, r := n.l, n.r;
    var lc, rc := Code(env, l, bw, cc, d), Code(env, r, bw, cc + NumGroups(l), d);
    CompAlt(env, n, bw, cc, false, d);
    SzAlt(lc, rc);
    FitsComp(env, l, bw, cc, d, total);
    FitsComp(env, r, bw, cc + NumGroups(l), d, total);
    FitsWrap(Split(true, Sz(lc) + 5), lc, Goto(Sz(rc)));
    FitsAppend([Split(true, Sz(lc) + 5)] + lc + [Goto(Sz(rc))], rc);
  }

  lemma FitsPlain(env: Env, n: Node, bw: bool, cc: nat, d: nat, total: nat)
    requires (n.Empty? || n.Assert? || n.BackRef?) && Wf(n) && RefsIn(n, total) && Emittable(n) && total <= 255
    ensures FitsAll(Code(env, n, bw, cc, d))
  {
  }

  lemma FitsWrap(i: Instr, a: seq<Instr>, j: Instr)
    requires Fits(i) && Fits(j) && FitsAll(a)
    ensures FitsAll([i] + a + [j])
  {
  }

  lemma FitsReset(cond: bool, cc: nat, g: nat)
    requires cc + g <= 255
    ensures FitsAll(ResetCode(cond, cc, g))
  {
  }

  lemma FitsQuant(env: Env, n: Node, bw: bool, cc: nat, d: nat, total: nat)
    requires n.Quant? && EnvOk(env) && Wf(n) && RefsIn(n, total) && Emittable(n) && total <= 255 && Small(n, bw, cc, d)
    requires Sz(Code(env, n, bw, cc, d)) <= MAX_CODE
    ensures FitsAll(Code(env, n, bw, cc, d))
    decreases n, 0
  {
    hide Comp, Sz, FitsAll, EnvOk, QuantCode, ResetCode, ScanNode;
    var s, g := ScanNode(n.body, bw), NumGroups(n.body);
    var bc := Code(env, n.body, bw, cc, d + QuantRegs(s.adv, n.min, n.max));
    var rc, pre := ResetCode(s.init, cc, g), ResetCode(!s.init, cc, g);
    CompQuant(env, n, bw, cc, false, d);
    SzQuantOf(env, n, bw, cc, false, d);
    SzAppend(rc, bc);
    FitsReset(s.init, cc, g);
    FitsReset(!s.init, cc, g);
    SzQuant(rc + bc, pre, s.adv, n.min, n.max, n.greedy, d, d + 1);
    if n.max == 0 {
      FitsNever(rc + bc, pre, s.adv, n.greedy, d);
    } else {
      FitsComp(env, n.body, bw, cc, d + QuantRegs(s.adv, n.min, n.max), total);
      FitsAppend(rc, bc);
      FitsShape(rc + bc, pre, s.adv, n.min, n.max, n.greedy, d);
    }
  }

  lemma FitsNever(a: seq<Instr>, pre: seq<Instr>, adv: bool, greedy: bool, d: nat)
    requires FitsAll(pre)
    ensures FitsAll(QuantCode(a, pre, adv, 0, 0, greedy, d, d + 1))
  {
  }

  lemma FitsStar(a: seq<Instr>, adv: bool, star: bool, greedy: bool, d: nat)
    requires FitsAll(a) && d + (if adv then 1 else 0) <= 255 && Sz(StarCode(a, adv, star, greedy, d)) <= MAX_CODE
    ensures FitsAll(StarCode(a, adv, star, greedy, d))
  {
    hide Sz, FitsAll;
    SzStar(a, adv, star, greedy, d);
    var len := Sz(a) + (if adv then 4 else 0) + (if star then 5 else 0);
    var i0, i1, i2, i3 := Split(greedy, len), SetCharPos(d), CheckAdvance(d), Goto(-5 - len);
    FitsOne(i0);
    FitsOpt(adv, i1);
    FitsOpt(adv, i2);
    FitsOpt(star, i3);
    FitsAppend([i0], Opt(adv, i1));
    FitsAppend([i0] + Opt(adv, i1), a);
    FitsAppend([i0] + Opt(adv, i1) + a, Opt(adv, i2));
    FitsAppend([i0] + Opt(adv, i1) + a + Opt(adv, i2), Opt(star, i3));
  }

  lemma FitsCount(a: seq<Instr>, adv: bool, simple: bool, greedy: bool, limit: nat, d: nat)
    requires FitsAll(a) && d + (if adv then 2 else 1) <= 255 && limit <= INT32_MAX
    requires Sz(CountCode(a, adv, simple, greedy, limit, d, d + 1)) <= MAX_CODE
    ensures FitsAll(CountCode(a, adv, simple, greedy, limit, d, d + 1))
  {
    hide Sz, FitsAll;
    SzCount(a, adv, simple, greedy, limit, d, d + 1);
    var pos := SetCharPos(d + 1);
    var body := Opt(adv, pos) + a;
    SzAppend(Opt(adv, pos), a);
    SzOpt(adv, pos);
    Sizes();
    var last := if simple then Loop(d, -6 - Sz(body)) else LoopSplit(adv, !greedy, d, limit, -10 - Sz(body));
    FitsOpt(adv, pos);
    FitsAppend(Opt(adv, pos), a);
    FitsOne(last);
    FitsAppend(body, [last]);
  }

  lemma FitsShape(a: seq<Instr>, pre: seq<Instr>, adv: bool, min: nat, max: nat, greedy: bool, d: nat)
    requires FitsAll(a) && FitsAll(pre) && 1 <= max <= INT32_MAX && min <= max && d + QuantRegs(adv, min, max) <= 255
    requires Sz(QuantCode(a, pre, adv, min, max, greedy, d, d + 1)) <= MAX_CODE
    ensures FitsAll(QuantCode(a, pre, adv, min, max, greedy, d, d + 1))
  {
    hide Sz, FitsAll, StarCode, CountCode;
    SzQuant(a, pre, adv, min, max, greedy, d, d + 1);
    if min == 0 {
      if max == 1 || max == INT32_MAX {
        SzStar(a, adv, max == INT32_MAX, greedy, d);
        FitsStar(a, adv, max == INT32_MAX, greedy, d);
        FitsAppend(pre, StarCode(a, adv, max == INT32_MAX, greedy, d));
      } else {
        var loop := CountCode(a, adv, false, greedy, max, d, d + 1);
        SzCount(a, adv, false, greedy, max, d, d + 1);
        FitsCount(a, adv, false, greedy, max, d);
        var split := Split(greedy, 6 + Sz(loop));
        FitsTwo(split, SetI32(d, max));
        FitsAppend(pre, [split, SetI32(d, max)]);
        FitsAppend(pre + [split, SetI32(d, max)], loop);
      }
    } else if min == 1 && max == INT32_MAX && !adv {
      FitsOne(Split(!greedy, -5 - Sz(a)));
      FitsAppend(a, [Split(!greedy, -5 - Sz(a))]);
    } else {
      var check := adv && min != max;
      SzCount(a, check, min == max, greedy, max - min, d, d + 1);
      FitsCount(a, check, min == max, greedy, max - min, d);
      FitsOne(SetI32(d, max));
      FitsAppend([SetI32(d, max)], CountCode(a, check, min == max, greedy, max - min, d, d + 1));
    }
  }

  lemma FitsTwo(i: Instr, j: Instr)
    requires Fits(i) && Fits(j)
    ensures FitsAll([i, j])
  {
  }

  lemma FitsProgram(env: Env, n: Node, sticky: bool)
    requires EnvOk(env) && Wf(n) && RefsIn(n, 1 + NumGroups(n)) && Emittable(n) && 1 + NumGroups(n) <= 255 && RegNeed(n, false) <= 255
    requires Sz(Program(env, n, sticky, false)) <= MAX_CODE
    ensures FitsAll(Program(env, n, sticky, false))
  {
    hide Comp, Sz, FitsAll, EnvOk, Wf, RefsIn, Emittable;
    var nc := Code(env, n, false, 1, 0);
    var tail := [Save(true, 0), Match];
    SzAppend(Prologue(sticky), [Save(false, 0)] + nc + tail);
    SzAppend([Save(false, 0)] + nc, tail);
    SzAppend([Save(false, 0)], nc);
    FitsComp(env, n, false, 1, 0, 1 + NumGroups(n));
    FitsOne(Save(false, 0));
    FitsTwo(Save(true, 0), Match);
    FitsAppend([Save(false, 0)], nc);
    FitsAppend([Save(false, 0)] + nc, tail);
    FitsPrologue(sticky);
    FitsAppend(Prologue(sticky), [Save(false, 0)] + nc + tail);
  }

  lemma FitsPrologue(sticky: bool)
    ensures FitsAll(Prologue(sticky))
  {
  }

  // ----- lre_compile ------------------------------------------------------------------------------------

  function Header(flags: nat, captures: nat, registers: nat, len: nat): (h: seq<u8>)
    ensures |h| == RE_HEADER_LEN
  {
    U16(flags) + [captures % 256, registers % 256] + U32(len)
  }

  /** The patterns that lre_compile accepts. */
  ghost predicate Accepted(env: Env, n: Node, sticky: bool) {
    && 1 + NumGroups(n) <= CAPTURE_COUNT_MAX && Emittable(n) && RegNeed(n, false) <= REGISTER_COUNT_MAX
    && RE_HEADER_LEN + Sz(Program(env, n, sticky, false)) <= MAX_CODE
  }

  /** Everything up to register allocation. */
  method EmitProgram(s: ParseState, n: Node, sticky: bool, flags: nat) returns (ok: bool)
    requires Wf(n) && s.byteCode == [] && s.captureCount == 1
    modifies s
    ensures ok <==> 1 + NumGroups(n) <= CAPTURE_COUNT_MAX && Emittable(n)
    ensures ok ==> s.captureCount == 1 + NumGroups(n)
    ensures ok ==> s.byteCode == Header(flags, 0, 0, 0) + EncAll(Program(s.env, n, sticky, true))
  {
    hide Enc, EncAll, Comp, U16, U32;
    ghost var hdr := Header(flags, 0, 0, 0);
    s.byteCode := U16(flags) + [0, 0] + U32(0);
    if !sticky {
      s.Emit(Split(false, 6));
      s.Emit(AnyOp);
      s.Emit(Goto(-11));
    }
    PrologueBytes(sticky);
    assert s.byteCode == hdr + EncAll(Prologue(sticky));
    s.Emit(Save(false, 0));
    ok := s.Parse(n, false);
    if ok {
      s.Emit(Save(true, 0));
      s.Emit(Match);
      ProgramBytes(s.env, n, sticky);
      Regroup(hdr, EncAll(Prologue(sticky)), Enc(Save(false, 0)), EncAll(Comp(s.env, n, false, 1, true, 0)),
              Enc(Save(true, 0)), Enc(Match));
    }
  }

  /** What register allocation does to the code of a pattern. */
  lemma RegResult(env: Env, n: Node, sticky: bool)
    requires Wf(n)
    ensures RegOps(Program(env, n, sticky, true), 0, 0) ==
      if RegNeed(n, false) <= REGISTER_COUNT_MAX then RegOk(Program(env, n, sticky, false), 0, RegNeed(n, false)) else TooMany
  {
    hide RegOps, Program;
    RegProgram(env, n, sticky);
  }

  /** lre_compile: fails exactly on patterns beyond its limits. */
  method LreCompile(env: Env, n: Node, sticky: bool, flags: nat) returns (bc: Option<seq<u8>>)
    requires Wf(n)
    ensures bc.Some? <==> Accepted(env, n, sticky)
    ensures bc.Some? ==> bc.value == CompiledBytes(env, n, sticky, flags)
  {
    hide EncAll, Program, U16, U32, RegOps, Header, Wf, Emittable, RegNeed, NumGroups;
    var s := new ParseState(env);
    var ok := EmitProgram(s, n, sticky, flags);
    if !ok { return None; }
    ghost var ops := Program(env, n, sticky, true);
    SizedProgram(env, n, sticky);
    RegResult(env, n, sticky);
    ProgramSize(env, n, sticky);
    assert s.byteCode[RE_HEADER_LEN..] == EncAll(ops) && s.byteCode[..RE_HEADER_LEN] == Header(flags, 0, 0, 0);
    var len := |s.byteCode| - RE_HEADER_LEN;
    if |s.byteCode| > MAX_CODE { return None; }
    var count := s.ComputeRegisterCount(ops);
    if count < 0 { return None; }
    s.byteCode := s.byteCode[2 := s.captureCount];
    s.byteCode := s.byteCode[3 := count];
    s.Write(4, U32(len));
    HeaderBytes(flags, s.captureCount, count, len, EncAll(Program(env, n, sticky, false)));
    bc := Some(s.byteCode);
  }

  function CompiledBytes(env: Env, n: Node, sticky: bool, flags: nat): seq<u8> {
    var code := Program(env, n, sticky, false);
    Header(flags, 1 + NumGroups(n), RegNeed(n, false), Sz(code)) + EncAll(code)
  }

  lemma HeaderBytes(flags: nat, captures: nat, registers: nat, len: nat, code: seq<u8>)
    requires captures < 256 && registers < 256
    ensures var b := (Header(flags, 0, 0, 0) + code)[2 := captures][3 := registers];
      b[..4] + U32(len) + b[8..] == Header(flags, captures, registers, len) + code
  {
    hide U16, U32;
  }

  lemma PrologueBytes(sticky: bool)
    ensures EncAll(Prologue(sticky)) == if sticky then [] else Enc(Split(false, 6)) + Enc(AnyOp) + Enc(Goto(-11))
  {
    hide Enc;
    if !sticky {
      assert Prologue(sticky) == [Split(false, 6)] + [AnyOp] + [Goto(-11)];
      EncParts([Split(false, 6)], [AnyOp], [Goto(-11)]);
      EncOne(Split(false, 6));
      EncOne(AnyOp);
      EncOne(Goto(-11));
    }
  }

  lemma ProgramBytes(env: Env, n: Node, sticky: bool)
    ensures EncAll(Program(env, n, sticky, true)) ==
      EncAll(Prologue(sticky)) + Enc(Save(false, 0)) + EncAll(Comp(env, n, false, 1, true, 0)) + Enc(Save(true, 0)) + Enc(Match)
  {
    hide Enc, EncAll, Comp, Prologue;
    var nc := Comp(env, n, false, 1, true, 0);
    assert [Save(true, 0), Match] == [Save(true, 0)] + [Match];
    EncAppend(Prologue(sticky), [Save(false, 0)] + nc + [Save(true, 0), Match]);
    EncParts([Save(false, 0)], nc, [Save(true, 0), Match]);
    EncAppend([Save(true, 0)], [Match]);
    EncOne(Save(false, 0));
    EncOne(Save(true, 0));
    EncOne(Match);
    Regroup(EncAll(Prologue(sticky)), Enc(Save(false, 0)), EncAll(nc), Enc(Save(true, 0)), Enc(Match), []);
    Regroup(Enc(Save(false, 0)), EncAll(nc), Enc(Save(true, 0)), Enc(Match), [], []);
    Regroup(Enc(Save(false, 0)) + EncAll(nc), Enc(Save(true, 0)), Enc(Match), [], [], []);
  }

  lemma SizedProgram(env: Env, n: Node, sticky: bool)
    requires Wf(n) && Emittable(n)
    ensures SizedAll(Program(env, n, sticky, true))
  {
    SizedComp(env, n, false, 1, true, 0);
    hide Comp;
  }
}
