/**
 lre_exec on the bytes that lre_compile produced: the whole way from a pattern and an input to
 the first result of the slot matcher, and from there to the captures of the standard.
 */
module RegexpExec {
  import opened RegexpPattern
  import opened Bytecode
  import opened Codegen
  import opened SlotMatcher
  import opened Machine
  import opened Simulation
  import opened SlotRefinement
  import opened NodeRefinement
  import opened RegexpProgram
  import opened Compiler
  import opened CompiledCode
  import opened Positions
  import opened UndoLog
  import opened ExecBacktrack

  // ----- flags ----------------------------------------------------------------------------------------

  predicate Flag(flags: nat, mask: nat)
    requires mask > 0
  {
    flags / mask % 2 == 1
  }

  const LRE_FLAG_UNICODE: nat := 16
  const LRE_FLAG_STICKY: nat := 32
  const LRE_FLAG_UNICODE_SETS: nat := 256

  predicate IsUnicode(flags: nat) { Flag(flags, LRE_FLAG_UNICODE) || Flag(flags, LRE_FLAG_UNICODE_SETS) }

  /** The flags word with the bits g i m s u y d, named groups and v, from the lowest on. */
  function FlagsOf(g: bool, i: bool, m: bool, s: bool, u: bool, y: bool, d: bool, named: bool, v: bool): nat {
    B(g) + 2 * (B(i) + 2 * (B(m) + 2 * (B(s) + 2 * (B(u) + 2 * (B(y) + 2 * (B(d) + 2 * (B(named) + 2 * B(v))))))))
  }

  /** Only the bits of u, y and v are read. */
  lemma FlagsAre(g: bool, i: bool, m: bool, s: bool, u: bool, y: bool, d: bool, named: bool, v: bool)
    ensures var flags := FlagsOf(g, i, m, s, u, y, d, named, v);
      flags < 512 && IsUnicode(flags) == (u || v) && Flag(flags, LRE_FLAG_STICKY) == y
  {
    var x4: int := B(u) + 2 * (B(y) + 2 * (B(d) + 2 * (B(named) + 2 * B(v))));
    var x5: int := B(y) + 2 * (B(d) + 2 * (B(named) + 2 * B(v)));
    var flags: int := FlagsOf(g, i, m, s, u, y, d, named, v);
    assert flags / 16 == x4 && flags / 32 == x5 && flags / 256 == B(v);
  }

  function AllocCount(bc: seq<u8>): nat
    requires |bc| >= RE_HEADER_LEN
  {
    var captures: int, registers: int := bc[2], bc[3];
    captures * 2 + registers
  }

  // ----- the code does not depend on the input --------------------------------------------------------

  lemma {:induction false} CompEnv(env: Env, env': Env, n: Node, bw: bool, cc: nat, d: nat)
    requires env.canon == env'.canon
    ensures Comp(env, n, bw, cc, false, d) == Comp(env', n, bw, cc, false, d)
    decreases n
  {
    hide Comp, Sz, AltCode, LookCode, QuantCode, ScanNode;
    match n
    case Chr(cs) =>
      CompChr(env, n, bw, cc, false, d);
      CompChr(env', n, bw, cc, false, d);
    case Cat(l, r) =>
      CompCat(env, n, bw, cc, false, d);
      CompCat(env', n, bw, cc, false, d);
      CompEnv(env, env', l, bw, cc, d);
      CompEnv(env, env', r, bw, cc + NumGroups(l), d);
    case Alt(l, r) =>
      CompAlt(env, n, bw, cc, false, d);
      CompAlt(env', n, bw, cc, false, d);
      CompEnv(env, env', l, bw, cc, d);
      CompEnv(env, env', r, bw, cc + NumGroups(l), d);
    case Group(b) =>
      CompGroup(env, n, bw, cc, false, d);
      CompGroup(env', n, bw, cc, false, d);
      CompEnv(env, env', b, bw, cc + 1, d);
    case Look(behind, _, b) =>
      CompLook(env, n, bw, cc, false, d);
      CompLook(env', n, bw, cc, false, d);
      CompEnv(env, env', b, behind, cc, d);
    case Quant(b, min, max, _) =>
      CompQuant(env, n, bw, cc, false, d);
      CompQuant(env', n, bw, cc, false, d);
      CompEnv(env, env', b, bw, cc, d + QuantRegs(ScanNode(b, bw).adv, min, max));
    case _ => CompEnvPlain(env, env', n, bw, cc, d);
  }

  lemma CompEnvPlain(env: Env, env': Env, n: Node, bw: bool, cc: nat, d: nat)
    requires n.Empty? || n.Assert? || n.BackRef?
    ensures Comp(env, n, bw, cc, false, d) == Comp(env', n, bw, cc, false, d)
  {
  }

  /** What lre_compile knows of the environment: only the case folding. */
  function CompileEnv(canon: int -> int, space: int -> bool): Env { Env([], false, canon, space) }

  lemma ProgramEnv(env: Env, n: Node, sticky: bool)
    ensures Program(CompileEnv(env.canon, env.space), n, sticky, false) == Program(env, n, sticky, false)
  {
    hide Comp;
    CompEnv(env, CompileEnv(env.canon, env.space), n, false, 1, 0);
  }

  // ----- reading the compiled bytes -------------------------------------------------------------------

  lemma HeaderFields(flags: nat, captures: nat, registers: nat, len: nat, code: seq<u8>)
    requires flags < 0x10000 && captures < 256 && registers < 256
    ensures var bc := Header(flags, captures, registers, len) + code;
      Get16(bc, 0) == flags && bc[2] == captures && bc[3] == registers && bc[RE_HEADER_LEN..] == code
  {
    hide U32, Get16;
    var bc := Header(flags, captures, registers, len) + code;
    assert bc[0..2] == U16(flags);
    Get16Of(bc, 0, flags);
  }

  /** The instructions of the pattern stand behind the header. */
  lemma CodeStands(env: Env, n: Node, sticky: bool)
    requires EnvOk(env) && Wf(n) && RefsIn(n, 1 + NumGroups(n)) && Accepted(env, n, sticky)
    ensures At(EncAll(Program(env, n, sticky, false)), 0, Program(env, n, sticky, false))
  {
    hide Program, EnvOk, Wf, RefsIn, At;
    FitsProgram(env, n, sticky);
    var ops := Program(env, n, sticky, false);
    hide FitsAll;
    assert EncAll(ops)[0..0 + Sz(ops)] == EncAll(ops);
    hide EncAll;
    EncAt(EncAll(ops), 0, ops);
  }

  // ----- the start position ---------------------------------------------------------------------------

  /** A start inside a surrogate pair is moved before it. */
  function Adjust(env: Env, p: nat): (r: nat)
    ensures Boundary(env, r) && r <= p
  {
    if Boundary(env, p) then p else p - 1
  }

  /** Index of the character that starts at unit p, counted from unit pos. */
  function CharIndex(env: Env, pos: nat, p: nat): nat
    decreases |env.units| - pos
  {
    if pos >= p || pos >= |env.units| then 0 else 1 + CharIndex(env, pos + CharLen(env, pos, |env.units|), p)
  }

  /** Every boundary is the start of a character, or the end. */
  lemma {:induction false} CharIndexAt(env: Env, pos: nat, p: nat)
    requires pos <= p <= |env.units| && Boundary(env, p)
    ensures CharIndex(env, pos, p) < |Offsets(env, pos)| && Offsets(env, pos)[CharIndex(env, pos, p)] == p
    decreases |env.units| - pos
  {
    if pos < p {
      CharIndexAt(env, pos + CharLen(env, pos, |env.units|), p);
    }
  }

  // ----- lre_exec -------------------------------------------------------------------------------------

  function ExecEnv(bc: seq<u8>, units: seq<int>, cbufType: nat, canon: bool -> int -> int, space: int -> bool): Env
    requires |bc| >= RE_HEADER_LEN
  {
    var isUnicode := IsUnicode(Get16(bc, 0));
    Env(units, cbufType == 1 && isUnicode, canon(isUnicode), space)
  }

  /** bc is what lre_compile returns for n. */
  ghost predicate Compiled(bc: seq<u8>, n: Node, flags: nat, canon: bool -> int -> int, space: int -> bool) {
    var env, sticky := CompileEnv(canon(IsUnicode(flags)), space), Flag(flags, LRE_FLAG_STICKY);
    flags < 0x10000 && Accepted(env, n, sticky) && bc == CompiledBytes(env, n, sticky, flags)
  }

  /** The character at which the search from unit cindex starts. */
  function StartIndex(env: Env, cindex: nat): (i: nat)
    requires cindex <= |env.units|
    ensures var T := TextOf(env); Ok(T) && |T.off| == |T.chars| + 1 && i < |T.off| && T.off[i] == Adjust(env, cindex)
  {
    TextOk(env);
    CharIndexAt(env, 0, Adjust(env, cindex));
    CharIndex(env, 0, Adjust(env, cindex))
  }

  /** What the compiled program reports from unit cindex on. */
  function Actual(env: Env, n: Node, flags: nat, cindex: nat): (c: Cfg)
    requires cindex <= |env.units|
    ensures c == Done(false, []) || (c.Done? && c.matched && |c.slots| == 2 * (1 + NumGroups(n)))
  {
    CodeExec(TextOf(env), n, Flag(flags, LRE_FLAG_STICKY), StartIndex(env, cindex))
  }

  /** What the standard says of matching n from unit cindex on. */
  function Expected(env: Env, n: Node, flags: nat, cindex: nat): Outcome
    requires cindex <= |env.units|
  {
    BuiltinExec(TextOf(env).Inp(), n, Flag(flags, LRE_FLAG_STICKY), StartIndex(env, cindex))
  }

  /** They are the same where the counters of the code suffice. */
  lemma ActualIsExpected(env: Env, n: Node, flags: nat, cindex: nat)
    requires cindex <= |env.units| && NodeOk(n, false, 1 + NumGroups(n), |TextOf(env).chars|)
    ensures match Expected(env, n, flags, cindex)
      case NoMatch => Actual(env, n, flags, cindex) == Done(false, [])
      case Found(caps) => Actual(env, n, flags, cindex).matched && |caps| == 1 + NumGroups(n)
                          && SlotsOf(TextOf(env), caps, Actual(env, n, flags, cindex).slots)
  {
    hide NodeOk, BuiltinExec, CodeExec, TextOf, Chars, Offsets, CharIndex;
    CodeExecIs(TextOf(env), n, Flag(flags, LRE_FLAG_STICKY), StartIndex(env, cindex));
  }

  /** The compiled bytes as lre_exec reads them. */
  lemma ReadCompiled(bc: seq<u8>, n: Node, flags: nat, canon: bool -> int -> int, space: int -> bool, env: Env)
    requires Compiled(bc, n, flags, canon, space)
    requires EnvOk(env) && env.canon == canon(IsUnicode(flags)) && env.space == space && Wf(n) && RefsIn(n, 1 + NumGroups(n))
    ensures |bc| >= RE_HEADER_LEN && Get16(bc, 0) == flags && bc[2] == 1 + NumGroups(n) && bc[3] == RegNeed(n, false)
    ensures At(bc[RE_HEADER_LEN..], 0, Program(env, n, Flag(flags, LRE_FLAG_STICKY), false))
  {
    hide Program, EncAll, Header, EnvOk, Wf, RefsIn, At, Get16;
    var sticky := Flag(flags, LRE_FLAG_STICKY);
    ProgramEnv(env, n, sticky);
    var code := Program(env, n, sticky, false);
    HeaderFields(flags, 1 + NumGroups(n), RegNeed(n, false), Sz(code), EncAll(code));
    CodeStands(env, n, sticky);
  }

  /** Every run of compiled code ends, with the first result of the slot matcher. */
  lemma MachineEnds(P: Prog, n: Node, flags: nat, cindex: nat, t: Th) returns (steps: nat)
    requires cindex <= |P.env.units| && At(P.code, 0, Program(P.env, n, Flag(flags, LRE_FLAG_STICKY), false))
    requires Fresh(P, n, t) && t.pos == Adjust(P.env, cindex)
    ensures StepN(P, Run(0, t, Nil), steps) == Actual(P.env, n, flags, cindex)
  {
    hide Program, At, Fresh, Step, CodeExec, Chars, Offsets, CharIndex, Ok;
    RunProgram(P, TextOf(P.env), n, Flag(flags, LRE_FLAG_STICKY), StartIndex(P.env, cindex), t);
    steps :| StepN(P, Run(0, t, Nil), steps) == Actual(P.env, n, flags, cindex);
  }

  /** lre_exec: 1 with the slots of the first result in capture[], or 0; where the counters suffice,
      the captures of the standard. */
  method LreExec(capture: array<int>, bc: seq<u8>, units: seq<int>, cindex: nat, cbufType: nat,
                 canon: bool -> int -> int, space: int -> bool, ghost n: Node, ghost flags: nat) returns (ret: int)
    requires |bc| >= RE_HEADER_LEN && AllocCount(bc) <= capture.Length && cindex <= |units|
    requires Compiled(bc, n, flags, canon, space) && EnvOk(ExecEnv(bc, units, cbufType, canon, space))
    requires Wf(n) && RefsIn(n, 1 + NumGroups(n))
    modifies capture
    ensures 2 * (1 + NumGroups(n)) <= capture.Length
    ensures var c := Actual(ExecEnv(bc, units, cbufType, canon, space), n, flags, cindex);
      if c.matched then ret == 1 && capture[..2 * (1 + NumGroups(n))] == c.slots else ret == 0
    ensures var env := ExecEnv(bc, units, cbufType, canon, space);
      CountersFit(n, false, |TextOf(env).chars|) ==>
      match Expected(env, n, flags, cindex)
      case NoMatch => ret == 0
      case Found(caps) => ret == 1 && |caps| == 1 + NumGroups(n) && SlotsOf(TextOf(env), caps, capture[..2 * |caps|])
  {
    hide Program, EncAll, EnvOk, Wf, RefsIn, At, CountersFit, Actual, Expected, Step, StepN, Get16, Compiled, RegNeed, Layout,
      Base, Snap, InBounds, CfgOk, TextOf, SlotsOf, Boundary;
    ghost var env0 := ExecEnv(bc, units, cbufType, canon, space);
    CompiledFlags(bc, n, flags, canon, space);
    ReadCompiled(bc, n, flags, canon, space, env0);
    var isUnicode := IsUnicode(Get16(bc, 0));
    var env := Env(units, cbufType == 1 && isUnicode, canon(isUnicode), space);
    var captureCount: nat := bc[2];
    ClearCaptures(capture, captureCount);
    var cptr := StartPosition(env, cindex);
    var s := new REExecContext(env, bc[RE_HEADER_LEN..], captureCount, capture, cptr);
    ghost var P := Prog(env, s.code);
    ghost var t := s.Current();
    StartOk(env, t);
    ghost var steps := MachineEnds(P, n, flags, cindex, t);
    var matched := s.Backtrack(steps);
    if CountersFit(n, false, |TextOf(env).chars|) { ActualIsExpected(env, n, flags, cindex); }
    return if matched then 1 else 0;
  }

  method ClearCaptures(capture: array<int>, captureCount: nat)
    requires 2 * captureCount <= capture.Length
    modifies capture
    ensures capture[..2 * captureCount] == NullSlots(captureCount)
    ensures capture[2 * captureCount..] == old(capture[2 * captureCount..])
  {
    var i := 0;
    while i < 2 * captureCount
      invariant 0 <= i <= 2 * captureCount && forall k :: 0 <= k < i ==> capture[k] == NULL
      invariant capture[2 * captureCount..] == old(capture[2 * captureCount..])
    {
      capture[i] := NULL;
      i := i + 1;
    }
  }

  method StartPosition(env: Env, cindex: nat) returns (cptr: nat)
    requires cindex <= |env.units|
    ensures cptr == Adjust(env, cindex)
  {
    cptr := cindex;
    if 0 < cindex < |env.units| && env.utf16 {
      if IsLoSurrogate(env.units[cptr]) && IsHiSurrogate(env.units[cptr - 1]) { cptr := cptr - 1; }
    }
  }

  lemma StartOk(env: Env, t: Th)
    requires t.pos <= |env.units| && Boundary(env, t.pos) && forall i :: 0 <= i < |t.slots| ==> t.slots[i] == NULL
    ensures CfgOk(env, |t.slots|, |t.regs|, Run(0, t, Nil))
  {
  }

  lemma CompiledFlags(bc: seq<u8>, n: Node, flags: nat, canon: bool -> int -> int, space: int -> bool)
    requires Compiled(bc, n, flags, canon, space)
    ensures |bc| >= RE_HEADER_LEN && Get16(bc, 0) == flags
  {
    hide Program, EncAll, Header, Get16;
    var sticky := Flag(flags, LRE_FLAG_STICKY);
    var code := Program(CompileEnv(canon(IsUnicode(flags)), space), n, sticky, false);
    HeaderFields(flags, 1 + NumGroups(n), RegNeed(n, false), Sz(code), EncAll(code));
  }
}
