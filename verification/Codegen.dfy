/**
 The code of a pattern: what the re_parse_* functions leave in byte_code, as a relocatable
 instruction sequence. With zero set, every register operand is 0 (before
 compute_register_count); otherwise registers are numbered from d upwards by nesting.
 */
module Codegen {
  import opened RegexpPattern
  import opened Bytecode

  // ----- character classes ----------------------------------------------------------------------

  /** re_emit_range uses 16-bit operands when the last finite point fits. */
  predicate IsWide(points: seq<int>)
    requires |points| >= 2
  {
    (if points[|points| - 1] == UINT32_MAX then points[|points| - 2] else points[|points| - 1]) > 0xffff
  }

  function High(wide: bool, p: int): int {
    if !wide && p == UINT32_MAX then 0xffff else p - 1
  }

  /** Inclusive bounds, as re_emit_range writes them. */
  function RangeTab(wide: bool, points: seq<int>): (tab: seq<int>)
    ensures |tab| == 2 * (|points| / 2)
    ensures forall k :: 0 <= k < |tab| ==> tab[k] == if k % 2 == 0 then points[k] else High(wide, points[k])
  {
    seq(2 * (|points| / 2), k requires 0 <= k < |points| => if k % 2 == 0 then points[k] else High(wide, points[k]))
  }

  function CharCode(env: Env, cs: CharSet): Instr
  {
    match cs
    case Lit(c, icase) =>
      var v := if icase then env.canon(c) else c;
      Char(v > 0xffff, icase, v)
    case Dot => DotOp
    case Any => AnyOp
    case Space => SpaceOp
    case NotSpace => NotSpaceOp
    case Cls(points, icase) =>
      if |points| < 2 then Char(true, false, UINT32_MAX)
      else Range(IsWide(points), icase, RangeTab(IsWide(points), points))
  }

  function AssertCode(a: Assertion): Instr {
    match a
    case LineStart(m) => LineStartOp(m)
    case LineEnd(m) => LineEndOp(m)
    case WordBoundary(neg, icase) => WordBoundaryOp(neg, icase)
  }

  // ----- nodes ----------------------------------------------------------------------------------

  function ResetCode(cond: bool, cc: nat, g: nat): seq<Instr> {
    if cond && g > 0 then [SaveReset(cc, cc + g - 1)] else []
  }

  function Opt(cond: bool, i: Instr): seq<Instr> { if cond then [i] else [] }

  function AltCode(l: seq<Instr>, r: seq<Instr>): seq<Instr> {
    [Split(true, Sz(l) + 5)] + l + [Goto(Sz(r))] + r
  }

  function LookCode(neg: bool, b: seq<Instr>): seq<Instr> {
    [LookOp(neg, Sz(b) + 1)] + b + [LookMatch(neg)]
  }

  /** a? and a*, with the zero-advance check when adv is set. */
  function StarCode(a: seq<Instr>, adv: bool, star: bool, greedy: bool, reg: int): seq<Instr> {
    var len := Sz(a) + (if adv then 4 else 0) + (if star then 5 else 0);
    [Split(greedy, len)] + Opt(adv, SetCharPos(reg)) + a + Opt(adv, CheckAdvance(reg)) + Opt(star, Goto(-5 - len))
  }

  /** a+ when the advance check is not needed. */
  function PlusCode(a: seq<Instr>, greedy: bool): seq<Instr> {
    a + [Split(!greedy, -5 - Sz(a))]
  }

  /** The counted loop from the instruction after set_i32 on; simple when min == max. reg counts,
      preg holds the position where the iteration began. */
  function CountCode(a: seq<Instr>, adv: bool, simple: bool, greedy: bool, limit: int, reg: int, preg: int): seq<Instr> {
    var body := Opt(adv, SetCharPos(preg)) + a;
    body + (if simple then [Loop(reg, -6 - Sz(body))] else [LoopSplit(adv, !greedy, reg, limit, -10 - Sz(body))])
  }

  function QuantCode(a: seq<Instr>, pre: seq<Instr>, adv: bool, min: nat, max: nat, greedy: bool, reg: int, preg: int): seq<Instr> {
    if min == 0 then
      if max == 0 then pre
      else if max == 1 || max == INT32_MAX then pre + StarCode(a, adv, max == INT32_MAX, greedy, reg)
      else
        var loop := CountCode(a, adv, false, greedy, max, reg, preg);
        pre + [Split(greedy, 6 + Sz(loop)), SetI32(reg, max)] + loop
    else if min == 1 && max == INT32_MAX && !adv then PlusCode(a, greedy)
    else
      [SetI32(reg, max)] + CountCode(a, adv && min != max, min == max, greedy, max - min, reg, preg)
  }

  /** Registers that the code of a quantifier keeps live while its body runs. */
  function QuantRegs(adv: bool, min: nat, max: nat): nat {
    if max == 0 then 0
    else if min == 0 && (max == 1 || max == INT32_MAX) then (if adv then 1 else 0)
    else if min == 1 && max == INT32_MAX && !adv then 0
    else if adv && min != max then 2
    else 1
  }

  function Comp(env: Env, n: Node, bw: bool, cc: nat, zero: bool, d: nat): seq<Instr>
    decreases n
  {
    match n
    case Empty => []
    case Chr(cs) => Opt(bw, Prev) + [CharCode(env, cs)] + Opt(bw, Prev)
    case Assert(a) => [AssertCode(a)]
    case Cat(l, r) =>
      var lc := Comp(env, l, bw, cc, zero, d);
      var rc := Comp(env, r, bw, cc + NumGroups(l), zero, d);
      if bw then rc + lc else lc + rc
    case Alt(l, r) =>
      AltCode(Comp(env, l, bw, cc, zero, d), Comp(env, r, bw, cc + NumGroups(l), zero, d))
    case Group(b) => [Save(bw, cc)] + Comp(env, b, bw, cc + 1, zero, d) + [Save(!bw, cc)]
    case BackRef(idxs, icase) => [BackRefOp(bw, icase, idxs)]
    case Quant(b, min, max, greedy) =>
      var scan := ScanNode(b, bw);
      var g := NumGroups(b);
      var a := ResetCode(scan.init, cc, g) + Comp(env, b, bw, cc, zero, d + QuantRegs(scan.adv, min, max));
      QuantCode(a, ResetCode(!scan.init, cc, g), scan.adv, min, max, greedy, if zero then 0 else d, if zero then 0 else d + 1)
    case Look(behind, neg, b) => LookCode(neg, Comp(env, b, behind, cc, zero, d))
  }

  /** Largest number of registers live at once inside n. */
  function RegNeed(n: Node, bw: bool): nat {
    match n
    case Cat(l, r) => Max(RegNeed(l, bw), RegNeed(r, bw))
    case Alt(l, r) => Max(RegNeed(l, bw), RegNeed(r, bw))
    case Group(b) => RegNeed(b, bw)
    case Quant(b, min, max, _) =>
      if max == 0 then 0 else QuantRegs(ScanNode(b, bw).adv, min, max) + RegNeed(b, bw)
    case Look(behind, _, b) => RegNeed(b, behind)
    case _ => 0
  }

  // ----- whole patterns ---------------------------------------------------------------------------------

  function Prologue(sticky: bool): seq<Instr> {
    if sticky then [] else [Split(false, 6), AnyOp, Goto(-11)]
  }

  /** What lre_compile emits; capture 0 is the whole match. */
  function Program(env: Env, n: Node, sticky: bool, zero: bool): seq<Instr> {
    Prologue(sticky) + ([Save(false, 0)] + Comp(env, n, false, 1, zero, 0) + [Save(true, 0), Match])
  }

  // ----- unfolding equations ------------------------------------------------------------------------

  lemma CompChr(env: Env, n: Node, bw: bool, cc: nat, zero: bool, d: nat)
    requires n.Chr?
    ensures Comp(env, n, bw, cc, zero, d) == Opt(bw, Prev) + [CharCode(env, n.cs)] + Opt(bw, Prev)
  {
    hide CharCode;
  }

  lemma CompCat(env: Env, n: Node, bw: bool, cc: nat, zero: bool, d: nat)
    requires n.Cat?
    ensures var lc, rc := Comp(env, n.l, bw, cc, zero, d), Comp(env, n.r, bw, cc + NumGroups(n.l), zero, d);
      Comp(env, n, bw, cc, zero, d) == if bw then rc + lc else lc + rc
  {
    hide AltCode, QuantCode, LookCode, Sz;
  }

  lemma CompAlt(env: Env, n: Node, bw: bool, cc: nat, zero: bool, d: nat)
    requires n.Alt?
    ensures Comp(env, n, bw, cc, zero, d) ==
      AltCode(Comp(env, n.l, bw, cc, zero, d), Comp(env, n.r, bw, cc + NumGroups(n.l), zero, d))
  {
    hide AltCode, QuantCode, LookCode, Sz;
  }

  lemma CompGroup(env: Env, n: Node, bw: bool, cc: nat, zero: bool, d: nat)
    requires n.Group?
    ensures Comp(env, n, bw, cc, zero, d) == [Save(bw, cc)] + Comp(env, n.body, bw, cc + 1, zero, d) + [Save(!bw, cc)]
  {
    hide AltCode, QuantCode, LookCode, Sz;
  }

  lemma CompLook(env: Env, n: Node, bw: bool, cc: nat, zero: bool, d: nat)
    requires n.Look?
    ensures Comp(env, n, bw, cc, zero, d) == LookCode(n.neg, Comp(env, n.body, n.behind, cc, zero, d))
  {
    hide AltCode, QuantCode, LookCode, Sz;
  }

  lemma CompQuant(env: Env, n: Node, bw: bool, cc: nat, zero: bool, d: nat)
    requires n.Quant?
    ensures var scan, g := ScanNode(n.body, bw), NumGroups(n.body);
      Comp(env, n, bw, cc, zero, d) ==
      QuantCode(ResetCode(scan.init, cc, g) + Comp(env, n.body, bw, cc, zero, d + QuantRegs(scan.adv, n.min, n.max)),
                ResetCode(!scan.init, cc, g), scan.adv, n.min, n.max, n.greedy, if zero then 0 else d, if zero then 0 else d + 1)
  {
    hide AltCode, QuantCode, LookCode, Sz, ScanNode;
  }

  /** The code with its final registers. */
  function Code(env: Env, n: Node, bw: bool, cc: nat, d: nat): seq<Instr> { Comp(env, n, bw, cc, false, d) }

  function Max(a: nat, b: nat): nat { if a < b then b else a }
}
