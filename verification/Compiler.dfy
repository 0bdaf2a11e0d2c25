/**
 The compiler of libregexp: one pass over the pattern that grows byte_code, inserts code in
 front of code already emitted, patches jumps and reorders terms, followed by register
 allocation in place.
 */
module Compiler {
  import opened RegexpPattern
  import opened Bytecode
  import opened Codegen
  import opened CodeScan

  const CAPTURE_COUNT_MAX: nat := 255

  /** Every class keeps to the range limit. */
  predicate Emittable(n: Node) {
    match n
    case Chr(cs) => cs.Cls? ==> |cs.points| / 2 < 65535
    case Cat(l, r) => Emittable(l) && Emittable(r)
    case Alt(l, r) => Emittable(l) && Emittable(r)
    case Group(b) => Emittable(b)
    case Quant(b, _, _, _) => Emittable(b)
    case Look(_, _, b) => Emittable(b)
    case _ => true
  }

  lemma {:induction false} SizedComp(env: Env, n: Node, bw: bool, cc: nat, zero: bool, d: nat)
    requires Wf(n) && Emittable(n)
    ensures SizedAll(Comp(env, n, bw, cc, zero, d))
    decreases n
  {
    hide Comp, Sz, SizedAll, QuantCode, AltCode, ScanNode, QuantRegs, ResetCode;
    match n
    case Cat(l, r) =>
      var lc, rc := Comp(env, l, bw, cc, zero, d), Comp(env, r, bw, cc + NumGroups(l), zero, d);
      CompCat(env, n, bw, cc, zero, d);
      SizedComp(env, l, bw, cc, zero, d);
      SizedComp(env, r, bw, cc + NumGroups(l), zero, d);
      if bw { SizedAppend(rc, lc); } else { SizedAppend(lc, rc); }
    case Alt(l, r) =>
      CompAlt(env, n, bw, cc, zero, d);
      SizedComp(env, l, bw, cc, zero, d);
      SizedComp(env, r, bw, cc + NumGroups(l), zero, d);
      SizedAlt(Comp(env, l, bw, cc, zero, d), Comp(env, r, bw, cc + NumGroups(l), zero, d));
    case Group(b) =>
      CompGroup(env, n, bw, cc, zero, d);
      SizedComp(env, b, bw, cc + 1, zero, d);
      SizedWrap(Save(bw, cc), Comp(env, b, bw, cc + 1, zero, d), Save(!bw, cc));
    case Look(behind, neg, b) =>
      var bc := Comp(env, b, behind, cc, zero, d);
      CompLook(env, n, bw, cc, zero, d);
      SizedComp(env, b, behind, cc, zero, d);
      SizedWrap(LookOp(neg, Sz(bc) + 1), bc, LookMatch(neg));
    case Quant(b, min, max, greedy) =>
      var s, g := ScanNode(b, bw), NumGroups(b);
      var bc := Comp(env, b, bw, cc, zero, d + QuantRegs(s.adv, min, max));
      CompQuant(env, n, bw, cc, zero, d);
      SizedComp(env, b, bw, cc, zero, d + QuantRegs(s.adv, min, max));
      SizedReset(s.init, cc, g);
      SizedReset(!s.init, cc, g);
      SizedAppend(ResetCode(s.init, cc, g), bc);
      SizedQuant(ResetCode(s.init, cc, g) + bc, ResetCode(!s.init, cc, g), s.adv, min, max, greedy,
                 if zero then 0 else d, if zero then 0 else d + 1);
    case _ => SizedPlain(env, n, bw, cc, zero, d);
  }

  lemma LookParts(n: Node)
    requires n.Look? && Wf(n)
    ensures Wf(n.body) && (Emittable(n) <==> Emittable(n.body)) && NumGroups(n) == NumGroups(n.body)
  {
  }

  lemma SizedAppend(a: seq<Instr>, b: seq<Instr>)
    requires SizedAll(a) && SizedAll(b)
    ensures SizedAll(a + b)
  {
  }

  lemma SizedAlt(l: seq<Instr>, r: seq<Instr>)
    requires SizedAll(l) && SizedAll(r)
    ensures SizedAll(AltCode(l, r))
  {
    hide Sz;
  }

  lemma SizedWrap(i: Instr, a: seq<Instr>, j: Instr)
    requires Sized(i) && Sized(j) && SizedAll(a)
    ensures SizedAll([i] + a + [j])
  {
  }

  lemma SizedReset(cond: bool, cc: nat, g: nat)
    ensures SizedAll(ResetCode(cond, cc, g))
  {
  }

  lemma SizedQuant(a: seq<Instr>, pre: seq<Instr>, adv: bool, min: nat, max: nat, greedy: bool, reg: int, preg: int)
    requires SizedAll(a) && SizedAll(pre)
    ensures SizedAll(QuantCode(a, pre, adv, min, max, greedy, reg, preg))
  {
    hide Sz, SizedAll, Sized;
    SizedStar(a, adv, max == INT32_MAX, greedy, reg);
    SizedCount(a, adv, false, greedy, max, reg, preg);
    SizedCount(a, adv && min != max, min == max, greedy, max - min, reg, preg);
    SizedFixed();
    if min == 0 {
      if max == 1 || max == INT32_MAX {
        SizedAppend(pre, StarCode(a, adv, max == INT32_MAX, greedy, reg));
      } else if max > 1 {
        var loop := CountCode(a, adv, false, greedy, max, reg, preg);
        var split := Split(greedy, 6 + Sz(loop));
        assert pre + [split, SetI32(reg, max)] + loop == pre + [split] + [SetI32(reg, max)] + loop;
        SizedAppend(pre, [split]);
        SizedAppend(pre + [split], [SetI32(reg, max)]);
        SizedAppend(pre + [split] + [SetI32(reg, max)], loop);
      }
    } else if min == 1 && max == INT32_MAX && !adv {
      SizedAppend(a, [Split(!greedy, -5 - Sz(a))]);
    } else {
      SizedAppend([SetI32(reg, max)], CountCode(a, adv && min != max, min == max, greedy, max - min, reg, preg));
    }
  }

  lemma QuantCases(a: seq<Instr>, pre: seq<Instr>, adv: bool, min: nat, max: nat, greedy: bool)
    ensures min == 1 && max == INT32_MAX && !adv ==> QuantCode(a, pre, adv, min, max, greedy, 0, 0) == PlusCode(a, greedy)
    ensures min > 0 && !(min == 1 && max == INT32_MAX && !adv) ==>
      QuantCode(a, pre, adv, min, max, greedy, 0, 0)
      == [SetI32(0, max)] + CountCode(a, adv && min != max, min == max, greedy, max - min, 0, 0)
  {
    hide PlusCode, CountCode;
  }

  /** Instructions without a variable part. */
  lemma SizedFixed()
    ensures SizedAll([]) && forall i: Instr :: !i.BackRefOp? && !i.Range? ==> SizedAll([i])
  {
  }

  lemma SizedStar(a: seq<Instr>, adv: bool, star: bool, greedy: bool, reg: int)
    requires SizedAll(a)
    ensures SizedAll(StarCode(a, adv, star, greedy, reg))
  {
    hide Sz;
  }

  lemma SizedCount(a: seq<Instr>, adv: bool, simple: bool, greedy: bool, limit: int, reg: int, preg: int)
    requires SizedAll(a)
    ensures SizedAll(CountCode(a, adv, simple, greedy, limit, reg, preg))
  {
    hide Sz;
  }

  lemma SizedPlain(env: Env, n: Node, bw: bool, cc: nat, zero: bool, d: nat)
    requires Wf(n) && Emittable(n) && (n.Empty? || n.Chr? || n.Assert? || n.BackRef?)
    ensures SizedAll(Comp(env, n, bw, cc, zero, d))
  {
  }

  lemma EncParts(a: seq<Instr>, b: seq<Instr>, c: seq<Instr>)
    ensures EncAll(a + b + c) == EncAll(a) + EncAll(b) + EncAll(c)
  {
    hide EncAll;
    EncAppend(a + b, c);
    EncAppend(a, b);
  }

  /** The bytes of a list of instructions, spelled out. */
  lemma EncStar(a: seq<Instr>, adv: bool, star: bool, greedy: bool)
    ensures var len := Sz(a) + (if adv then 4 else 0) + (if star then 5 else 0);
      EncAll(StarCode(a, adv, star, greedy, 0)) ==
      Enc(Split(greedy, len)) + (if adv then Enc(SetCharPos(0)) else []) + EncAll(a)
      + (if adv then Enc(CheckAdvance(0)) else []) + (if star then Enc(Goto(-5 - len)) else [])
  {
    hide Sz, EncAll, Enc;
    var len := Sz(a) + (if adv then 4 else 0) + (if star then 5 else 0);
    var i0, i1, i2, i3 := Split(greedy, len), SetCharPos(0), CheckAdvance(0), Goto(-5 - len);
    EncAppend([i0] + Opt(adv, i1) + a + Opt(adv, i2), Opt(star, i3));
    EncAppend([i0] + Opt(adv, i1) + a, Opt(adv, i2));
    EncParts([i0], Opt(adv, i1), a);
    EncOne(i0);
    EncOpt(adv, i1);
    EncOpt(adv, i2);
    EncOpt(star, i3);
  }

  lemma EncOpt(cond: bool, i: Instr)
    ensures EncAll(Opt(cond, i)) == if cond then Enc(i) else []
  {
    hide Enc;
    EncOne(i);
  }

  lemma EncCount(a: seq<Instr>, adv: bool, simple: bool, greedy: bool, limit: int)
    ensures var size := Sz(a) + if adv then 2 else 0;
      EncAll(CountCode(a, adv, simple, greedy, limit, 0, 0)) ==
      (if adv then Enc(SetCharPos(0)) else []) + EncAll(a)
      + Enc(if simple then Loop(0, -6 - size) else LoopSplit(adv, !greedy, 0, limit, -10 - size))
  {
    hide Sz, EncAll, Enc;
    Sizes();
    var body := Opt(adv, SetCharPos(0)) + a;
    SzAppend(Opt(adv, SetCharPos(0)), a);
    SzOpt(adv, SetCharPos(0));
    var last := if simple then Loop(0, -6 - Sz(body)) else LoopSplit(adv, !greedy, 0, limit, -10 - Sz(body));
    EncAppend(body, [last]);
    EncAppend(Opt(adv, SetCharPos(0)), a);
    EncOpt(adv, SetCharPos(0));
    EncOne(last);
  }

  lemma WordsAppend(wide: bool, a: seq<int>, b: seq<int>)
    ensures Words(wide, a + b) == Words(wide, a) + Words(wide, b)
  {
    hide U16, U32;
    if a == [] {
      assert a + b == b;
    } else {
      assert (a + b)[1..] == a[1..] + b;
      WordsAppend(wide, a[1..], b);
    }
  }

  lemma WordsNone(wide: bool)
    ensures Words(wide, []) == []
  {
  }

  lemma RangeBytes(wide: bool, icase: bool, tab: seq<int>)
    ensures Enc(Range(wide, icase, tab)) == [36 + 2 * B(wide) + B(icase)] + U16(|tab| / 2) + Words(wide, tab)
  {
    hide U16, Words;
  }

  lemma WordsTwo(wide: bool, x: int, y: int)
    ensures Words(wide, [x, y]) == if wide then U32(x) + U32(y) else U16(x) + U16(y)
  {
    hide U16, U32;
    assert [x, y][1..] == [y] && [y][1..] == [];
    assert Words(wide, []) == [];
    assert Words(wide, [y]) == if wide then U32(y) else U16(y);
  }

  class ParseState {
    var byteCode: seq<u8>
    var captureCount: nat
    const env: Env

    constructor (env: Env)
      ensures byteCode == [] && captureCount == 1 && this.env == env
    {
      byteCode := [];
      captureCount := 1;
      this.env := env;
    }

    /** dbuf_put and the re_emit_op family. */
    method Emit(i: Instr)
      modifies this`byteCode
      ensures byteCode == old(byteCode) + Enc(i)
    {
      byteCode := byteCode + Enc(i);
    }

    /** dbuf_insert: what the gap holds is not specified. */
    method Insert(pos: nat, len: nat)
      requires pos <= |byteCode|
      modifies this`byteCode
      ensures |byteCode| == |old(byteCode)| + len
      ensures byteCode[..pos] == old(byteCode)[..pos] && byteCode[pos + len..] == old(byteCode)[pos..]
    {
      byteCode := byteCode[..pos] + seq(len, i => 0) + byteCode[pos..];
    }

    /** Stores into the buffer, put_u32 included. */
    method Write(pos: nat, bytes: seq<u8>)
      requires pos + |bytes| <= |byteCode|
      modifies this`byteCode
      ensures byteCode == old(byteCode)[..pos] + bytes + old(byteCode)[pos + |bytes|..]
    {
      byteCode := byteCode[..pos] + bytes + byteCode[pos + |bytes|..];
    }

    /** Insert an instruction at pos: dbuf_insert followed by the stores that fill the gap. */
    method InsertInstr(pos: nat, i: Instr, ghost pre: seq<u8>, ghost rest: seq<u8>)
      requires byteCode == pre + rest && |pre| == pos
      modifies this`byteCode
      ensures byteCode == pre + Enc(i) + rest
    {
      hide Enc;
      Insert(pos, Size(i));
      Write(pos, Enc(i));
    }

    /** Two instructions inserted with one dbuf_insert. */
    method InsertTwo(pos: nat, i: Instr, j: Instr, ghost pre: seq<u8>, ghost rest: seq<u8>)
      requires byteCode == pre + rest && |pre| == pos
      modifies this`byteCode
      ensures byteCode == pre + Enc(i) + Enc(j) + rest
    {
      hide Enc;
      Insert(pos, Size(i) + Size(j));
      assert byteCode[pos + Size(i) + Size(j)..] == rest && byteCode[..pos] == pre;
      Write(pos, Enc(i));
      assert byteCode[pos + Size(i) + Size(j)..] == rest && byteCode[..pos + Size(i)] == pre + Enc(i);
      Write(pos + Size(i), Enc(j));
    }

    /** re_emit_goto and its variants: target is an address in byte_code. */
    method EmitGoto(target: nat)
      modifies this`byteCode
      ensures byteCode == old(byteCode) + Enc(Goto(target - (|old(byteCode)| + 5)))
    {
      Emit(Goto(target - (|byteCode| + 5)));
    }

    // ----- single characters ------------------------------------------------------------------------

    /** The operands of a range instruction, two per interval. */
    method EmitTable(wide: bool, points: seq<int>)
      modifies this`byteCode
      ensures byteCode == old(byteCode) + Words(wide, RangeTab(wide, points))
    {
      hide U16, U32, Words;
      ghost var tab := RangeTab(wide, points);
      WordsNone(wide);
      assert tab[..0] == [];
      for i := 0 to |points| / 2
        invariant byteCode == old(byteCode) + Words(wide, tab[..2 * i])
      {
        var lo, hi := points[2 * i], High(wide, points[2 * i + 1]);
        ghost var before := byteCode;
        if wide { byteCode := byteCode + U32(lo) + U32(hi); } else { byteCode := byteCode + U16(lo) + U16(hi); }
        assert (2 * i + 1) % 2 == 1;
        assert tab[..2 * (i + 1)] == tab[..2 * i] + [lo, hi];
        WordsAppend(wide, tab[..2 * i], [lo, hi]);
        WordsTwo(wide, lo, hi);
        assert byteCode == before + Words(wide, [lo, hi]);
      }
      assert tab[..2 * (|points| / 2)] == tab;
    }

    /** re_emit_range: fails when there are too many ranges. */
    method EmitRange(points: seq<int>, icase: bool) returns (ok: bool)
      modifies this`byteCode
      ensures ok <==> |points| / 2 < 65535
      ensures ok ==> byteCode == old(byteCode) + Enc(CharCode(env, Cls(points, icase)))
    {
      hide Enc, U16, Words;
      var len := |points| / 2;
      if len >= 65535 { return false; }
      if len == 0 {
        Emit(Char(true, false, UINT32_MAX));
        return true;
      }
      var wide := IsWide(points);
      byteCode := byteCode + [36 + 2 * B(wide) + B(icase)] + U16(len);
      EmitTable(wide, points);
      RangeBytes(wide, icase, RangeTab(wide, points));
      return true;
    }

    method EmitCharSet(cs: CharSet) returns (ok: bool)
      modifies this`byteCode
      ensures ok <==> (cs.Cls? ==> |cs.points| / 2 < 65535)
      ensures ok ==> byteCode == old(byteCode) + Enc(CharCode(env, cs))
    {
      if cs.Cls? {
        ok := EmitRange(cs.points, cs.icase);
      } else {
        Emit(CharCode(env, cs));
        ok := true;
      }
    }

    // ----- quantifiers --------------------------------------------------------------------------------

    /** a? and a* around the atom that stands from start on. */
    method EmitStar(start: nat, adv: bool, star: bool, greedy: bool, ghost pre: seq<u8>, ghost a: seq<Instr>)
      requires byteCode == pre + EncAll(a) && |pre| == start
      modifies this`byteCode
      ensures byteCode == pre + EncAll(StarCode(a, adv, star, greedy, 0))
    {
      hide Enc, EncAll, StarCode;
      Sizes();
      var len := |byteCode| - start;
      var off := len + (if star then 5 else 0) + (if adv then 4 else 0);
      ghost var split, goto := Enc(Split(greedy, off)), if star then Enc(Goto(-5 - off)) else [];
      ghost var open, close := if adv then Enc(SetCharPos(0)) else [], if adv then Enc(CheckAdvance(0)) else [];
      if adv {
        InsertTwo(start, Split(greedy, off), SetCharPos(0), pre, EncAll(a));
        Emit(CheckAdvance(0));
      } else {
        InsertInstr(start, Split(greedy, off), pre, EncAll(a));
      }
      assert byteCode == pre + split + open + EncAll(a) + close;
      if star { EmitGoto(start); }
      assert byteCode == pre + split + open + EncAll(a) + close + goto;
      EncStar(a, adv, star, greedy);
      Regroup(pre, split, open, EncAll(a), close, goto);
    }

    /** a+ without advance check. */
    method EmitPlus(start: nat, greedy: bool, ghost pre: seq<u8>, ghost a: seq<Instr>)
      requires byteCode == pre + EncAll(a) && |pre| == start
      modifies this`byteCode
      ensures byteCode == pre + EncAll(PlusCode(a, greedy))
    {
      hide Enc, EncAll;
      var split := Split(!greedy, start - (|byteCode| + 5));
      Emit(split);
      EncAppend(a, [split]);
      EncOne(split);
    }

    /** The part of a counted loop that follows set_i32; the atom stands from start on. */
    method EmitLoop(start: nat, adv: bool, simple: bool, greedy: bool, limit: nat, ghost pre: seq<u8>, ghost a: seq<Instr>)
      requires byteCode == pre + (if adv then Enc(SetCharPos(0)) else []) + EncAll(a) && |pre| == start
      modifies this`byteCode
      ensures byteCode == pre + EncAll(CountCode(a, adv, simple, greedy, limit, 0, 0))
    {
      hide Enc, EncAll, CountCode;
      Sizes();
      var n := |byteCode|;
      var last := if simple then Loop(0, start - (n + 6)) else LoopSplit(adv, !greedy, 0, limit, start - (n + 10));
      Emit(last);
      EncCount(a, adv, simple, greedy, limit);
      ghost var open := if adv then Enc(SetCharPos(0)) else [];
      assert byteCode == pre + open + EncAll(a) + Enc(last);
      Regroup(pre, open, EncAll(a), Enc(last), [], []);
    }

    /** a{min,max} with min >= 1. */
    method EmitCount(start: nat, adv: bool, min: nat, max: nat, greedy: bool, ghost pre: seq<u8>, ghost a: seq<Instr>)
      requires byteCode == pre + EncAll(a) && |pre| == start && min <= max
      modifies this`byteCode
      ensures byteCode == pre + EncAll([SetI32(0, max)] + CountCode(a, adv && min != max, min == max, greedy, max - min, 0, 0))
    {
      hide Enc, EncAll, CountCode;
      Sizes();
      var check := adv && min != max;
      ghost var count, open := Enc(SetI32(0, max)), if check then Enc(SetCharPos(0)) else [];
      if check { InsertTwo(start, SetI32(0, max), SetCharPos(0), pre, EncAll(a)); }
      else { InsertInstr(start, SetI32(0, max), pre, EncAll(a)); }
      assert byteCode == (pre + count) + open + EncAll(a);
      EmitLoop(start + 6, check, min == max, greedy, max - min, pre + count, a);
      ghost var loop := CountCode(a, check, min == max, greedy, max - min, 0, 0);
      EncAppend([SetI32(0, max)], loop);
      EncOne(SetI32(0, max));
      assert pre + count + EncAll(loop) == pre + (count + EncAll(loop));
    }

    /** a{0,max} with 1 < max < INT32_MAX. */
    method EmitOptionalCount(start: nat, adv: bool, max: nat, greedy: bool, ghost pre: seq<u8>, ghost a: seq<Instr>)
      requires byteCode == pre + EncAll(a) && |pre| == start
      modifies this`byteCode
      ensures var loop := CountCode(a, adv, false, greedy, max, 0, 0);
        byteCode == pre + EncAll([Split(greedy, 6 + Sz(loop)), SetI32(0, max)] + loop)
    {
      hide Enc, EncAll, CountCode;
      Sizes();
      var len := |byteCode| - start;
      var split := Split(greedy, 6 + (if adv then 2 else 0) + len + 10);
      ghost var count, open := Enc(SetI32(0, max)), if adv then Enc(SetCharPos(0)) else [];
      if adv { InsertInstr(start, SetCharPos(0), pre, EncAll(a)); }
      assert byteCode == pre + (open + EncAll(a));
      InsertTwo(start, split, SetI32(0, max), pre, open + EncAll(a));
      assert byteCode == (pre + Enc(split) + count) + open + EncAll(a);
      EmitLoop(start + 11, adv, false, greedy, max, pre + Enc(split) + count, a);
      ghost var loop := CountCode(a, adv, false, greedy, max, 0, 0);
      SzCount(a, adv, false, greedy, max, 0, 0);
      assert [split, SetI32(0, max)] + loop == [split] + [SetI32(0, max)] + loop;
      EncParts([split], [SetI32(0, max)], loop);
      EncOne(split);
      EncOne(SetI32(0, max));
      Regroup(pre, Enc(split), count, EncAll(loop), [], []);
    }

    /** The quantifier part of re_parse_term, for the atom that stands from start0 on. */
    method EmitQuantifier(start0: nat, lastCaptureCount: nat, min: nat, max: nat, greedy: bool,
                          ghost pre: seq<u8>, ghost ops: seq<Instr>)
      requires byteCode == pre + EncAll(ops) && |pre| == start0 && SizedAll(ops)
      requires lastCaptureCount <= captureCount && min <= max <= INT32_MAX
      modifies this`byteCode
      ensures var s, g := ScanOps(ops), captureCount - lastCaptureCount;
        byteCode == pre + EncAll(QuantCode(ResetCode(s.init, lastCaptureCount, g) + ops,
                                           ResetCode(!s.init, lastCaptureCount, g), s.adv, min, max, greedy, 0, 0))
    {
      hide Enc, EncAll, CountCode, StarCode, PlusCode, QuantCode, ResetCode, SizedAll, ScanOps, Sz;
      var start := start0;
      assert byteCode[start..] == EncAll(ops);
      var adv, init := NeedCheckAdvAndCaptureInit(byteCode[start..], ops);
      ghost var g := captureCount - lastCaptureCount;
      ghost var rc, pc := ResetCode(init, lastCaptureCount, g), ResetCode(!init, lastCaptureCount, g);
      ghost var a := rc + ops;
      var _ := InsertReset(start, init, lastCaptureCount, pre, ops);
      EncAppend(rc, ops);
      Regroup(pre, EncAll(rc), EncAll(ops), [], [], []);
      QuantCases(a, pc, adv, min, max, greedy);
      if min == 0 {
        start := InsertReset(start, !init, lastCaptureCount, pre, a);
        EmitFromZero(start, adv, max, greedy, pre, pc, a);
      } else if min == 1 && max == INT32_MAX && !adv {
        EmitPlus(start, greedy, pre, a);
      } else {
        EmitCount(start, adv, min, max, greedy, pre, a);
      }
    }

    /** Inserts a save_reset of the captures of the atom, if there are any and cond holds; returns
        the address behind it. */
    method InsertReset(start: nat, cond: bool, lastCaptureCount: nat, ghost pre: seq<u8>, ghost a: seq<Instr>) returns (next: nat)
      requires byteCode == pre + EncAll(a) && |pre| == start && lastCaptureCount <= captureCount
      modifies this`byteCode
      ensures var rc := ResetCode(cond, lastCaptureCount, captureCount - lastCaptureCount);
        byteCode == pre + EncAll(rc) + EncAll(a) && next == |pre + EncAll(rc)|
    {
      hide Enc, EncAll;
      EncReset(cond, lastCaptureCount, captureCount - lastCaptureCount);
      next := start;
      if cond && lastCaptureCount != captureCount {
        InsertInstr(start, SaveReset(lastCaptureCount, captureCount - 1), pre, EncAll(a));
        next := start + 3;
      }
    }

    /** The code for a quantifier with minimum 0, behind the reset of the captures pc. */
    method EmitFromZero(start: nat, adv: bool, max: nat, greedy: bool, ghost pre: seq<u8>, ghost pc: seq<Instr>, ghost a: seq<Instr>)
      requires byteCode == pre + EncAll(pc) + EncAll(a) && start == |pre + EncAll(pc)| && max <= INT32_MAX
      modifies this`byteCode
      ensures byteCode == pre + EncAll(QuantCode(a, pc, adv, 0, max, greedy, 0, 0))
    {
      hide Enc, EncAll, CountCode, StarCode, PlusCode, Sz;
      ghost var pre' := pre + EncAll(pc);
      if max == 0 {
        byteCode := byteCode[..start];
        assert byteCode == pre';
      } else if max == 1 || max == INT32_MAX {
        EmitStar(start, adv, max == INT32_MAX, greedy, pre', a);
        EncAppend(pc, StarCode(a, adv, max == INT32_MAX, greedy, 0));
        Regroup(pre, EncAll(pc), EncAll(StarCode(a, adv, max == INT32_MAX, greedy, 0)), [], [], []);
      } else {
        EmitOptionalCount(start, adv, max, greedy, pre', a);
        ghost var loop := CountCode(a, adv, false, greedy, max, 0, 0);
        ghost var head := [Split(greedy, 6 + Sz(loop)), SetI32(0, max)];
        assert pc + head + loop == pc + (head + loop);
        EncAppend(pc, head + loop);
        Regroup(pre, EncAll(pc), EncAll(head + loop), [], [], []);
      }
    }

    // ----- terms, alternatives and disjunctions -------------------------------------------------------

    /** Lookbehind: the term that was just emitted, from termStart on, moves in front of the terms
        emitted since start. */
    method ReverseTerm(start: nat, termStart: nat)
      requires start <= termStart <= |byteCode|
      modifies this`byteCode
      ensures byteCode == old(byteCode)[..start] + old(byteCode)[termStart..] + old(byteCode)[start..termStart]
    {
      var end := |byteCode|;
      var termSize := end - termStart;
      // memmove makes room in front, memcpy fills it with the last termSize bytes
      var buf := byteCode[..start] + seq(termSize, i => 0) + byteCode[start..end];
      assert buf[end..end + termSize] == byteCode[termStart..];
      buf := buf[..start] + buf[end..end + termSize] + buf[start + termSize..];
      byteCode := buf[..end];
    }

    /** Whether the pattern keeps to the limits of the compiler. */
    predicate Within(n: Node, cc: nat) { cc + NumGroups(n) <= CAPTURE_COUNT_MAX && Emittable(n) }

    /** re_parse_disjunction, re_parse_alternative and re_parse_term. */
    method Parse(n: Node, backward: bool) returns (ok: bool)
      requires Wf(n) && captureCount <= CAPTURE_COUNT_MAX
      modifies this`byteCode, this`captureCount
      ensures ok <==> Within(n, old(captureCount))
      ensures ok ==> captureCount == old(captureCount) + NumGroups(n)
      ensures ok ==> byteCode == old(byteCode) + EncAll(Comp(env, n, backward, old(captureCount), true, 0))
      decreases n
    {
      hide Enc, EncAll, Comp, Sz, CharCode;
      ghost var code := Comp(env, n, backward, captureCount, true, 0);
      ghost var before := byteCode;
      match n
      case Empty => CompPlain(env, n, backward, captureCount); return true;
      case Assert(a) =>
        Emit(AssertCode(a));
        CompPlain(env, n, backward, captureCount);
        EncOne(AssertCode(a));
        return true;
      case BackRef(idxs, icase) =>
        Emit(BackRefOp(backward, icase, idxs));
        CompPlain(env, n, backward, captureCount);
        EncOne(BackRefOp(backward, icase, idxs));
        return true;
      case Chr(cs) =>
        if backward { Emit(Prev); }
        ok := EmitCharSet(cs);
        if ok {
          if backward { Emit(Prev); }
          CompChr(env, n, backward, captureCount, true, 0);
          EncParts(Opt(backward, Prev), [CharCode(env, cs)], Opt(backward, Prev));
          EncOpt(backward, Prev);
          EncOne(CharCode(env, cs));
          Regroup(before, EncAll(Opt(backward, Prev)), Enc(CharCode(env, cs)), EncAll(Opt(backward, Prev)), [], []);
        }
      case Cat(l, r) => ok := ParseCat(n, backward);
      case Alt(l, r) => ok := ParseAlt(n, backward);
      case Group(b) => ok := ParseGroup(n, backward);
      case Look(behind, neg, b) => ok := ParseLook(n, backward);
      case Quant(b, min, max, greedy) =>
        var start, last := |byteCode|, captureCount;
        ok := Parse(b, backward);
        if ok {
          ghost var bc := Comp(env, b, backward, last, true, 0);
          SizedComp(env, b, backward, last, true, 0);
          ScanComp(env, b, backward, last, true, 0);
          EmitQuantifier(start, last, min, max, greedy, before, bc);
          CompQuant(env, n, backward, last, true, 0);
          CompZero(env, b, backward, last, QuantRegs(ScanNode(b, backward).adv, min, max));
        }
    }

    method ParseCat(n: Node, backward: bool) returns (ok: bool)
      requires n.Cat? && Wf(n) && captureCount <= CAPTURE_COUNT_MAX
      modifies this`byteCode, this`captureCount
      ensures ok <==> Within(n, old(captureCount))
      ensures ok ==> captureCount == old(captureCount) + NumGroups(n)
      ensures ok ==> byteCode == old(byteCode) + EncAll(Comp(env, n, backward, old(captureCount), true, 0))
      decreases n, 0
    {
      hide Enc, EncAll, Comp, Sz;
      ghost var before, cc := byteCode, captureCount;
      ghost var lc, rc := Comp(env, n.l, backward, cc, true, 0), Comp(env, n.r, backward, cc + NumGroups(n.l), true, 0);
      var start := |byteCode|;
      ok := Parse(n.l, backward);
      if ok {
        var termStart := |byteCode|;
        ok := Parse(n.r, backward);
        if ok {
          CompCat(env, n, backward, cc, true, 0);
          assert byteCode == before + EncAll(lc) + EncAll(rc);
          if backward {
            ReverseTerm(start, termStart);
            EncAppend(rc, lc);
            Regroup(before, EncAll(rc), EncAll(lc), [], [], []);
          } else {
            EncAppend(lc, rc);
            Regroup(before, EncAll(lc), EncAll(rc), [], [], []);
          }
        }
      }
    }

    method ParseAlt(n: Node, backward: bool) returns (ok: bool)
      requires n.Alt? && Wf(n) && captureCount <= CAPTURE_COUNT_MAX
      modifies this`byteCode, this`captureCount
      ensures ok <==> Within(n, old(captureCount))
      ensures ok ==> captureCount == old(captureCount) + NumGroups(n)
      ensures ok ==> byteCode == old(byteCode) + EncAll(Comp(env, n, backward, old(captureCount), true, 0))
      decreases n, 0
    {
      hide Enc, EncAll, Comp, Sz;
      ghost var before, cc := byteCode, captureCount;
      ghost var lc, rc := Comp(env, n.l, backward, cc, true, 0), Comp(env, n.r, backward, cc + NumGroups(n.l), true, 0);
      var start := |byteCode|;
      ok := Parse(n.l, backward);
      if ok {
        Sizes();
        var len := |byteCode| - start;
        SzIs(lc);
        var split := Split(true, len + 5);
        // the split jumps past the goto that follows the left side
        InsertInstr(start, split, before, EncAll(lc));
        var pos := |byteCode| + 1;
        Emit(Goto(0));
        ghost var mid := before + Enc(split) + EncAll(lc);
        ok := Parse(n.r, backward);
        if ok {
          // with the size of the right side the goto is the one of AltCode
          var off := |byteCode| - (pos + 4);
          SzIs(rc);
          assert byteCode == mid + Enc(Goto(0)) + EncAll(rc);
          GotoBytes(0);
          GotoBytes(off);
          PatchBytes(mid, 13, U32(0), U32(off), EncAll(rc));
          Write(pos, U32(off));
          assert byteCode == mid + Enc(Goto(off)) + EncAll(rc);
          CompAlt(env, n, backward, cc, true, 0);
          EncAlt(lc, rc);
          Regroup(before, Enc(split), EncAll(lc), Enc(Goto(off)), EncAll(rc), []);
        }
      }
    }

    method ParseGroup(n: Node, backward: bool) returns (ok: bool)
      requires n.Group? && Wf(n) && captureCount <= CAPTURE_COUNT_MAX
      modifies this`byteCode, this`captureCount
      ensures ok <==> Within(n, old(captureCount))
      ensures ok ==> captureCount == old(captureCount) + NumGroups(n)
      ensures ok ==> byteCode == old(byteCode) + EncAll(Comp(env, n, backward, old(captureCount), true, 0))
      decreases n, 0
    {
      hide Enc, EncAll, Comp, Sz;
      if captureCount >= CAPTURE_COUNT_MAX { return false; }
      ghost var before := byteCode;
      var k := captureCount;
      captureCount := captureCount + 1;
      Emit(Save(backward, k));
      ok := Parse(n.body, backward);
      if ok {
        ghost var bc := Comp(env, n.body, backward, k + 1, true, 0);
        Emit(Save(!backward, k));
        CompGroup(env, n, backward, k, true, 0);
        EncParts([Save(backward, k)], bc, [Save(!backward, k)]);
        EncOne(Save(backward, k));
        EncOne(Save(!backward, k));
        Regroup(before, Enc(Save(backward, k)), EncAll(bc), Enc(Save(!backward, k)), [], []);
      }
    }

    method ParseLook(n: Node, backward: bool) returns (ok: bool)
      requires n.Look? && Wf(n) && captureCount <= CAPTURE_COUNT_MAX
      modifies this`byteCode, this`captureCount
      ensures ok <==> Within(n, old(captureCount))
      ensures ok ==> captureCount == old(captureCount) + NumGroups(n)
      ensures ok ==> byteCode == old(byteCode) + EncAll(Comp(env, n, backward, old(captureCount), true, 0))
      decreases n, 0
    {
      hide Enc, EncAll, Comp, Sz, Wf, Emittable, NumGroups, CharCode;
      LookParts(n);
      ghost var before, cc := byteCode, captureCount;
      ghost var bc := Comp(env, n.body, n.behind, cc, true, 0);
      var pos := |byteCode| + 1;
      Emit(LookOp(n.neg, 0));
      ok := Parse(n.body, n.behind);
      if ok {
        Emit(LookMatch(n.neg));
        Sizes();
        SzIs(bc);
        // the operand that LookCode has: past the LookMatch
        var off := |byteCode| - (pos + 4);
        assert byteCode == before + Enc(LookOp(n.neg, 0)) + (EncAll(bc) + Enc(LookMatch(n.neg)));
        LookBytes(n.neg, 0);
        LookBytes(n.neg, off);
        PatchBytes(before, 40 + B(n.neg), U32(0), U32(off), EncAll(bc) + Enc(LookMatch(n.neg)));
        Write(pos, U32(off));
        CompLook(env, n, backward, cc, true, 0);
        EncParts([LookOp(n.neg, off)], bc, [LookMatch(n.neg)]);
        EncOne(LookOp(n.neg, off));
        EncOne(LookMatch(n.neg));
        Regroup(before, Enc(LookOp(n.neg, off)), EncAll(bc), Enc(LookMatch(n.neg)), [], []);
      }
    }

    // ----- registers --------------------------------------------------------------------------------------

    /** One instruction of compute_register_count; false when there are too many registers. */
    method NumberRegister(pos: nat, size: nat, max: nat, ghost pre: seq<u8>, ghost i: Instr, ghost rest: seq<u8>)
      returns (ok: bool, size': nat, max': nat, len: nat)
      requires byteCode == pre + (Enc(i) + rest) && |pre| == pos && Sized(i) && size <= max <= REGISTER_COUNT_MAX
      requires !RegOp(i, size, max).AssertFails?
      modifies this`byteCode
      ensures ok <==> RegOp(i, size, max).RegOk?
      ensures ok ==> var r := RegOp(i, size, max);
        && size' == r.size && max' == r.max && |r.ops| == 1 && len == Size(r.ops[0]) == Size(i)
        && byteCode == pre + (Enc(r.ops[0]) + rest) && size' <= max' <= REGISTER_COUNT_MAX
    {
      hide Enc, SizeAt, FixedSize, RegOp, RegByte;
      RegStep(i, size, max);
      assert byteCode[pos..] == Enc(i) + rest;
      assert byteCode[pos..pos + Size(i)] == Enc(i);
      SizeAtEnc(byteCode, pos, i);
      len := SizeAt(byteCode, pos);
      var what := RegByte(byteCode[pos]);
      size', max' := size, max;
      if what > 0 {
        if size + 1 > max && size + 1 > REGISTER_COUNT_MAX {
          return false, size, max, len;
        }
        byteCode := byteCode[pos + 1 := size];
        size' := size + 1;
        if size' > max { max' := size'; }
        ReplaceByte(pre, Enc(i), rest, size);
      } else if what < 0 {
        assert size >= -what;
        size' := size + what;
        byteCode := byteCode[pos + 1 := size'];
        ReplaceByte(pre, Enc(i), rest, size');
      }
      ok := true;
    }

    /** compute_register_count: numbers the registers in place; -1 when there are too many. */
    method ComputeRegisterCount(ghost ops: seq<Instr>) returns (count: int)
      requires |byteCode| >= RE_HEADER_LEN && byteCode[RE_HEADER_LEN..] == EncAll(ops) && SizedAll(ops)
      requires !RegOps(ops, 0, 0).AssertFails?
      modifies this`byteCode
      ensures RegOps(ops, 0, 0).TooMany? ==> count == -1
      ensures RegOps(ops, 0, 0).RegOk? ==>
        count == RegOps(ops, 0, 0).max && byteCode == old(byteCode)[..RE_HEADER_LEN] + EncAll(RegOps(ops, 0, 0).ops)
    {
      hide Enc, RegOp, Sized;
      var size: nat, max: nat, pos: nat := 0, 0, RE_HEADER_LEN;
      ghost var k, done: seq<Instr> := 0, [];
      ghost var hdr := byteCode[..RE_HEADER_LEN];
      assert ops[0..] == ops;
      AfterNone(RegOps(ops, 0, 0));
      while pos < |byteCode|
        invariant k <= |ops| && size <= max <= REGISTER_COUNT_MAX
        invariant byteCode == hdr + EncAll(done) + EncAll(ops[k..]) && pos == RE_HEADER_LEN + |EncAll(done)|
        invariant k < |ops| ==> pos < |byteCode|
        invariant RegOps(ops, 0, 0) == AfterReg(done, RegOps(ops[k..], size, max))
        decreases |ops| - k
      {
        ghost var i, rest := ops[k], EncAll(ops[k + 1..]);
        assert ops[k..][1..] == ops[k + 1..];
        assert EncAll(ops[k..]) == Enc(i) + rest;
        ghost var r := RegOp(i, size, max);
        var ok, size', max', len := NumberRegister(pos, size, max, hdr + EncAll(done), i, rest);
        if !ok { return -1; }
        ghost var i' := r.ops[0];
        RegNext(ops[k..], size, max, i');
        EncAppend(done, [i']);
        EncOne(i');
        Regroup(hdr, EncAll(done), Enc(i'), rest, [], []);
        assert byteCode == hdr + EncAll(done + [i']) + rest;
        AfterStep(done, i', RegOps(ops[k + 1..], size', max'));
        done, k := done + [i'], k + 1;
        size, max, pos := size', max', pos + len;
        assert k < |ops| ==> EncAll(ops[k..]) != [];
      }
      assert ops[k..] == [];
      assert done + [] == done;
      count := max;
    }
  }

  /** Registers an opcode takes (1) or gives back (-1, -2). */
  function RegByte(op: u8): int {
    if op == 27 || op == 42 then 1
    else if op == 43 || op == 22 || op == 23 || op == 24 then -1
    else if op == 25 || op == 26 then -2
    else 0
  }

  /** What a register instruction does to the allocation state and to its own bytes. */
  lemma RegStep(i: Instr, size: nat, max: nat)
    requires size <= max <= REGISTER_COUNT_MAX
    ensures var w, r := RegByte(Enc(i)[0]), RegOp(i, size, max);
      && (w > 0 ==> w == 1 && (r.TooMany? <==> size + 1 > max && size + 1 > REGISTER_COUNT_MAX)
                    && (r.RegOk? ==> r.size == size + 1 && r.max == if size + 1 > max then size + 1 else max))
      && (w < 0 ==> (r.AssertFails? <==> size < -w) && (r.RegOk? ==> r.size == size + w && r.max == max))
      && (w == 0 ==> r == RegOk([i], size, max))
      && (w > 0 ==> !r.AssertFails?) && (w < 0 ==> !r.TooMany?)
      && (r.RegOk? ==> |r.ops| == 1)
      && (w != 0 ==> Size(i) >= 2)
      && (w != 0 && r.RegOk? ==> Enc(r.ops[0]) == Enc(i)[1 := if w > 0 then size else size + w])
  {
  }

  /** The result once the code before it has been rewritten to done. */
  function AfterReg(done: seq<Instr>, r: RegRes): RegRes {
    match r case RegOk(o, s, m) => RegOk(done + o, s, m) case e => e
  }

  lemma AfterNone(r: RegRes)
    ensures AfterReg([], r) == r
  {
    if r.RegOk? { assert [] + r.ops == r.ops; }
  }

  lemma AfterStep(done: seq<Instr>, i: Instr, r: RegRes)
    ensures AfterReg(done + [i], r) == AfterReg(done, AfterReg([i], r))
  {
    if r.RegOk? { assert done + [i] + r.ops == done + ([i] + r.ops); }
  }

  lemma ReplaceByte(p: seq<u8>, e: seq<u8>, rest: seq<u8>, v: u8)
    requires |e| >= 2
    ensures (p + (e + rest))[|p| + 1 := v] == p + (e[1 := v] + rest)
  {
  }

  lemma RegNext(ops: seq<Instr>, size: nat, max: nat, i': Instr)
    requires ops != [] && RegOp(ops[0], size, max).RegOk? && RegOp(ops[0], size, max).ops == [i']
    ensures var r := RegOp(ops[0], size, max); RegOps(ops, size, max) == AfterReg([i'], RegOps(ops[1..], r.size, r.max))
  {
    hide RegOp;
  }

  const RE_HEADER_LEN: nat := 8

  lemma SzIs(ops: seq<Instr>)
    ensures Sz(ops) == |EncAll(ops)|
  {
  }

  lemma GotoBytes(off: int)
    ensures Enc(Goto(off)) == [13] + U32(off)
  {
  }

  lemma LookBytes(neg: bool, off: int)
    ensures Enc(LookOp(neg, off)) == [40 + B(neg)] + U32(off)
  {
  }

  /** Overwriting the operand that follows the opcode at |p|. */
  lemma PatchBytes(p: seq<u8>, op: u8, x: seq<u8>, y: seq<u8>, r: seq<u8>)
    requires |x| == |y|
    ensures var b := p + ([op] + x) + r;
      b[..|p| + 1] + y + b[|p| + 1 + |y|..] == p + ([op] + y) + r
  {
  }

  lemma EncAlt(l: seq<Instr>, r: seq<Instr>)
    ensures EncAll(AltCode(l, r)) == Enc(Split(true, Sz(l) + 5)) + EncAll(l) + Enc(Goto(Sz(r))) + EncAll(r)
  {
    hide Enc, EncAll, Sz;
    var split, goto := Split(true, Sz(l) + 5), Goto(Sz(r));
    EncAppend([split] + l + [goto], r);
    EncParts([split], l, [goto]);
    EncOne(split);
    EncOne(goto);
  }

  lemma CompPlain(env: Env, n: Node, bw: bool, cc: nat)
    requires n.Empty? || n.Assert? || n.BackRef?
    ensures Comp(env, n, bw, cc, true, 0) ==
      if n.Empty? then [] else if n.Assert? then [AssertCode(n.a)] else [BackRefOp(bw, n.icase, n.idxs)]
    ensures n.Empty? ==> EncAll(Comp(env, n, bw, cc, true, 0)) == []
  {
  }

  lemma Regroup(p: seq<u8>, a: seq<u8>, b: seq<u8>, c: seq<u8>, d: seq<u8>, e: seq<u8>)
    ensures p + a + b + c + d + e == p + (a + b + c + d + e)
    ensures p + a + b + c + d == p + (a + b + c + d) && p + a + b + c == p + (a + b + c) && p + a + b == p + (a + b)
  {
  }

  lemma EncReset(cond: bool, cc: nat, g: nat)
    ensures EncAll(ResetCode(cond, cc, g)) == if cond && g > 0 then Enc(SaveReset(cc, cc + g - 1)) else []
    ensures cond && g > 0 ==> Size(SaveReset(cc, cc + g - 1)) == 3
  {
    if cond && g > 0 { EncOne(SaveReset(cc, cc + g - 1)); }
  }
}
