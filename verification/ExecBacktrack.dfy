/**
 lre_exec_backtrack: the backtracking machine with one flat stack and a log of overwritten
 captures and registers instead of copies.
 */
module ExecBacktrack {
  import opened RegexpPattern
  import opened Bytecode
  import opened SlotMatcher
  import opened Machine
  import opened Positions
  import opened UndoLog

  /** What an instruction leads to: the next one, the label no_match, or the end of the run. */
  datatype Next = Continue | Fail | Accept

  /** Binary search among the operands of a range instruction. The indexes are unsigned: that
      they are nat says that they never wrap. */
  method TestRange(wide: bool, tab: seq<int>, c: int) returns (ok: bool)
    requires |tab| >= 2
    ensures ok <==> RangeTest(wide, tab, c)
  {
    hide Search;
    var n := |tab| / 2;
    if c < tab[0] { return false; }
    var idxMin: nat, idxMax: nat := 0, n - 1;
    var high := tab[2 * idxMax + 1];
    if !wide && c >= 0xffff && high == 0xffff { return true; }
    if c > high { return false; }
    while idxMin <= idxMax
      invariant idxMax < n && Search(tab, c, 0, n - 1) == Search(tab, c, idxMin, idxMax)
      decreases idxMax - idxMin
    {
      SearchStep(tab, c, idxMin, idxMax);
      var idx := (idxMin + idxMax) / 2;
      if c < tab[2 * idx] {
        idxMax := idx - 1;
      } else if c > tab[2 * idx + 1] {
        idxMin := idx + 1;
      } else {
        return true;
      }
    }
    SearchStep(tab, c, idxMin, idxMax);
    return false;
  }

  lemma SearchStep(tab: seq<int>, c: int, lo: nat, hi: nat)
    requires hi < |tab| / 2
    ensures var mid := (lo + hi) / 2;
      Search(tab, c, lo, hi) <==>
        lo <= hi && (if c < tab[2 * mid] then Search(tab, c, lo, mid - 1)
                     else c <= tab[2 * mid + 1] || Search(tab, c, mid + 1, hi))
  {
  }

  /** GET_CHAR. */
  method GetChar(env: Env, pos: nat, end: nat) returns (c: int, pos': nat)
    requires pos < end <= |env.units|
    ensures c == CharAt(env, pos, end) && pos' == pos + CharLen(env, pos, end)
  {
    c, pos' := env.units[pos], pos + 1;
    if IsHiSurrogate(c) && env.utf16 {
      if pos' < end && IsLoSurrogate(env.units[pos']) {
        c := FromSurrogate(c, env.units[pos']);
        pos' := pos' + 1;
      }
    }
  }

  /** GET_PREV_CHAR. */
  method GetPrevChar(env: Env, pos: nat, start: nat) returns (c: int, pos': nat)
    requires start < pos <= |env.units|
    ensures c == PrevChar(env, pos, start) && pos' == pos - PrevLen(env, pos, start)
  {
    pos' := pos - 1;
    c := env.units[pos'];
    if IsLoSurrogate(c) && env.utf16 {
      if pos' > start && IsHiSurrogate(env.units[pos' - 1]) {
        pos' := pos' - 1;
        c := FromSurrogate(env.units[pos'], c);
      }
    }
  }

  /** The comparison loop of a forward back reference to the units [start, end). */
  method CompareForward(env: Env, icase: bool, start: nat, end: nat, pos: nat) returns (pos': int)
    requires start <= |env.units| && end <= |env.units|
    ensures pos' == MatchForward(env, icase, start, end, pos)
  {
    pos' := pos;
    var p := start;
    while p < end
      invariant p <= |env.units| && pos' >= 0
      invariant MatchForward(env, icase, p, end, pos') == MatchForward(env, icase, start, end, pos)
      decreases |env.units| - p
    {
      if pos' >= |env.units| { return NULL; }
      var c1, c2;
      c1, p := GetChar(env, p, end);
      c2, pos' := GetChar(env, pos', |env.units|);
      if icase { c1, c2 := env.canon(c1), env.canon(c2); }
      if c1 != c2 { return NULL; }
    }
  }

  method CompareBackward(env: Env, icase: bool, start: nat, end: nat, pos: nat) returns (pos': int)
    requires start <= |env.units| && end <= |env.units| && pos <= |env.units|
    ensures pos' == MatchBackward(env, icase, start, end, pos)
  {
    pos' := pos;
    var p := end;
    while p > start
      invariant p <= |env.units| && 0 <= pos' <= |env.units|
      invariant MatchBackward(env, icase, start, p, pos') == MatchBackward(env, icase, start, end, pos)
      decreases p
    {
      if pos' == 0 { return NULL; }
      var c1, c2;
      c1, p := GetPrevChar(env, p, start);
      c2, pos' := GetPrevChar(env, pos', 0);
      if icase { c1, c2 := env.canon(c1), env.canon(c2); }
      if c1 != c2 { return NULL; }
    }
  }

  /** The word and line assertions. */
  method TestAssertion(env: Env, a: Assertion, pos: nat) returns (ok: bool)
    requires pos <= |env.units|
    ensures ok <==> Holds(env, a, pos)
  {
    var c;
    match a
    case LineStart(multi) =>
      if pos == 0 { return true; }
      if !multi { return false; }
      c := PrevChar(env, pos, 0);
      return IsLineTerminator(c);
    case LineEnd(multi) =>
      if pos == |env.units| { return true; }
      if !multi { return false; }
      c := CharAt(env, pos, |env.units|);
      return IsLineTerminator(c);
    case WordBoundary(neg, icase) =>
      var v1, v2 := false, false;
      if pos != 0 {
        c := PrevChar(env, pos, 0);
        v1 := IsWordChar(c, icase);
      }
      if pos < |env.units| {
        c := CharAt(env, pos, |env.units|);
        v2 := IsWordChar(c, icase);
      }
      return !((v1 != v2) != !neg);
  }

  class REExecContext {
    const env: Env
    const code: seq<u8>
    const captureCount: nat
    /** Two slots per capture, then the registers. */
    const capture: array<int>

    var stack: seq<Elem>
    var bp: nat
    var pc: nat
    var cptr: nat
    ghost var log: Log

    ghost predicate Valid()
      reads this, capture
    {
      && 2 * captureCount <= capture.Length
      && stack == Layout(log) && bp == Base(log) && InBounds(log, capture.Length)
    }

    /** The saved states, each with its own captures and registers. */
    ghost function Saved(): Stack
      requires Valid()
      reads this, capture
    {
      Snap(2 * captureCount, capture[..], log)
    }

    ghost function Current(): Th
      requires Valid()
      reads this, capture
    {
      Thread(2 * captureCount, cptr, capture[..])
    }

    constructor (env: Env, code: seq<u8>, captureCount: nat, capture: array<int>, cptr: nat)
      requires 2 * captureCount <= capture.Length
      ensures Valid() && this.env == env && this.code == code && this.captureCount == captureCount && this.capture == capture
      ensures pc == 0 && this.cptr == cptr && stack == [] && Saved() == Nil
    {
      this.env, this.code, this.captureCount, this.capture := env, code, captureCount, capture;
      this.stack, this.bp, this.pc, this.cptr := [], 0, 0, cptr;
      this.log := Bottom([]);
    }

    // ----- saving ---------------------------------------------------------------------------------------

    /** SAVE_CAPTURE. */
    method SaveCapture(idx: nat, value: int)
      requires Valid() && idx < capture.Length
      modifies this`stack, this`log, capture
      ensures Valid() && capture[..] == old(capture[..])[idx := value] && Saved() == old(Saved())
    {
      hide Layout, Base, Snap, Undo, InBounds;
      ghost var before := capture[..];
      ghost var u := log.undo + [Entry(idx, capture[idx])];
      LayoutTop(log);
      ElemsSnoc(log.undo, Entry(idx, capture[idx]));
      BoundsTop(log, capture.Length);
      LayoutWith(log, u, capture.Length);
      stack := stack + [Val(idx), Val(capture[idx])];
      assert stack == Layout(log)[..bp] + Elems(u);
      capture[idx] := value;
      UndoSave(before, log.undo, idx, value);
      SnapWith(2 * captureCount, before, log, capture[..], u);
      log := WithUndo(log, u);
    }

    /** SAVE_CAPTURE_CHECK: an index saved since the last saved state is not saved again. */
    method SaveCaptureCheck(idx: nat, value: int)
      requires Valid() && idx < capture.Length
      modifies this`stack, this`log, capture
      ensures Valid() && capture[..] == old(capture[..])[idx := value] && Saved() == old(Saved())
    {
      hide Layout, Base, Snap, Undo, InBounds, Elems;
      LayoutTop(log);
      var sp1 := |stack|;
      while sp1 > bp && stack[sp1 - 2] != Val(idx)
        invariant bp <= sp1 <= |stack| && (sp1 - bp) % 2 == 0
        invariant forall k :: 0 <= k < |log.undo| && bp + 2 * k >= sp1 ==> log.undo[k].idx != idx
      {
        assert stack[sp1 - 2] == stack[bp..][2 * ((sp1 - bp) / 2 - 1)];
        sp1 := sp1 - 2;
      }
      if sp1 > bp {
        ghost var k := (sp1 - bp) / 2 - 1;
        assert stack[sp1 - 2] == stack[bp..][2 * k] && log.undo[k].idx == idx;
        UndoKnown(capture[..], log.undo, idx, value);
        SnapWith(2 * captureCount, capture[..], log, capture[..][idx := value], log.undo);
        WithSame(log);
        capture[idx] := value;
        assert capture[..] == old(capture[..])[idx := value];
      } else {
        SaveCapture(idx, value);
      }
    }

    /** Saves a state of the given kind that goes on at address pc1. */
    method PushState(kind: Kind, pc1: nat)
      requires Valid()
      modifies this`stack, this`bp, this`log
      ensures Valid() && Saved() == Push(kind, pc1, Current(), old(Saved()))
    {
      stack := stack + [Val(pc1), Val(cptr), Bp(bp, kind)];
      bp := |stack|;
      log := Seg(kind, pc1, cptr, log, []);
    }

    // ----- restoring ------------------------------------------------------------------------------------

    /** Undoes the modifications to capture[] since the last saved state. */
    method Unwind()
      requires Valid()
      modifies this`stack, this`log, capture
      ensures Valid() && stack == old(stack)[..bp] && log == WithUndo(old(log), [])
      ensures capture[..] == Undo(old(capture[..]), old(log).undo)
    {
      hide Layout, Base, InBounds, Elems, Undo;
      LayoutTop(log);
      LayoutWith(log, [], capture.Length);
      BoundsTop(log, capture.Length);
      ghost var u := log.undo;
      while |stack| > bp
        invariant log == old(log) && |stack| >= bp && stack == old(stack)[..|stack|] && |u| <= |old(log).undo| && u == old(log).undo[..|u|]
        invariant |stack| == bp + 2 * |u|
        invariant Undo(capture[..], u) == Undo(old(capture[..]), old(log).undo)
        decreases |stack|
      {
        var sp := |stack|;
        ghost var k := |u| - 1;
        assert old(stack)[sp - 2] == old(stack)[bp..][2 * k] && old(stack)[sp - 1] == old(stack)[bp..][2 * k + 1];
        assert u[..k] == old(log).undo[..k] && old(log).undo[k].idx < capture.Length;
        UndoLast(capture[..], u);
        capture[stack[sp - 2].v] := stack[sp - 1].v;
        stack := stack[..sp - 2];
        u := u[..k];
      }
      UndoNone(capture[..]);
      log := WithUndo(log, []);
    }

    /** Unwinds and takes the topmost saved state off the stack. */
    method PopState() returns (kind: Kind)
      requires Valid() && log.Seg?
      modifies this`stack, this`bp, this`pc, this`cptr, this`log, capture
      ensures Valid() && log == old(log).below && old(Saved()) == Push(kind, pc, Current(), Saved())
    {
      hide Layout, Base, InBounds, Undo;
      ghost var ns := 2 * captureCount;
      SnapTop(ns, capture[..], log);
      LayoutTop(log);
      Unwind();
      LayoutFrame(log);
      BoundsBelow(log, capture.Length);
      var sp := |stack|;
      assert sp == bp;
      pc := stack[sp - 3].v;
      cptr := stack[sp - 2].v;
      kind := stack[sp - 1].kind;
      bp := stack[sp - 1].bp;
      stack := stack[..sp - 3];
      log := log.below;
    }

    /** The label no_match: resumes the latest saved state that is not a lookahead; fails when
        there is none. */
    method NoMatch() returns (ok: bool)
      requires Valid()
      modifies this`stack, this`bp, this`pc, this`cptr, this`log, capture
      ensures Valid() && AfterBack(old(Saved())) == if ok then Run(pc, Current(), Saved()) else Done(false, [])
    {
      while true
        invariant Valid() && AfterBack(Saved()) == AfterBack(old(Saved()))
        decreases log
      {
        LayoutTop(log);
        if bp == 0 { return false; }
        var kind := PopState();
        if kind != KLook { return true; }
      }
    }

    /** negative_lookahead_match, up to the jump to no_match. */
    method NegativeLookaheadMatch()
      requires Valid() && PopTo(KNegLook, Saved()).Push?
      modifies this`stack, this`bp, this`pc, this`cptr, this`log, capture
      ensures Valid() && Saved() == PopTo(KNegLook, old(Saved())).rest
    {
      while true
        invariant Valid() && PopTo(KNegLook, Saved()) == PopTo(KNegLook, old(Saved()))
        decreases log
      {
        var kind := PopState();
        if kind == KNegLook { return; }
      }
    }

    // ----- lookahead_match: states are given up, their undo entries are kept ----------------------------

    /** The stack while states are given up from the top: cur is what is left, ps what was above. */
    ghost predicate Linked(sp: nat, cur: Log, ps: seq<Piece>)
      reads this, capture
    {
      && sp == |Layout(cur)| && bp == Base(cur) && InBounds(cur, capture.Length)
      && stack == Layout(cur) + Chain(ps, sp) && Below(Merged(ps), capture.Length)
    }

    /** Gives up the topmost state and stores where its entries end. */
    method GiveUp(sp: nat, ghost cur: Log, ghost ps: seq<Piece>) returns (sp': nat, kind: Kind)
      requires Linked(sp, cur, ps) && cur.Seg?
      modifies this`stack, this`bp, this`pc, this`cptr
      ensures kind == cur.kind && pc == cur.pc && cptr == cur.pos && |stack| == old(|stack|)
      ensures Linked(sp', cur.below, [Piece(pc, cptr, cur.undo)] + ps)
    {
      hide Layout, Base, InBounds, Chain, Merged, Elems;
      LayoutTop(cur);
      LayoutFrame(cur);
      BoundsTop(cur, capture.Length);
      BoundsBelow(cur, capture.Length);
      ghost var before, b := Layout(cur), bp;
      sp' := bp;
      assert forall k :: 0 <= k < sp ==> stack[k] == before[k];
      pc := stack[sp' - 3].v;
      cptr := stack[sp' - 2].v;
      kind := stack[sp' - 1].kind;
      bp := stack[sp' - 1].bp;
      stack := stack[sp' - 1 := Val(sp)];
      sp' := sp' - 3;
      ChainCons(Piece(pc, cptr, cur.undo), ps, sp');
      assert before == before[..b - 3] + [before[b - 3], before[b - 2], before[b - 1]] + before[b..];
    }

    /** Copies [sp1, next) down to sp. */
    method CopyDown(sp: nat, sp1: nat, next: nat) returns (sp': nat)
      requires sp <= sp1 <= next <= |stack|
      modifies this`stack
      ensures sp' == sp + (next - sp1) && |stack| == old(|stack|)
      ensures stack[..sp'] == old(stack)[..sp] + old(stack)[sp1..next] && stack[next..] == old(stack)[next..]
    {
      sp' := sp;
      var from := sp1;
      while from < next
        invariant sp1 <= from <= next && sp' - sp == from - sp1 && |stack| == old(|stack|)
        invariant stack[..sp'] == old(stack)[..sp] + old(stack)[sp1..from]
        invariant stack[from..] == old(stack)[from..]
      {
        assert stack[from] == stack[from..][0] && old(stack)[from] == old(stack)[from..][0];
        ghost var before := stack;
        stack := stack[sp' := stack[from]];
        assert stack[from + 1..] == before[from..][1..] && stack[..sp' + 1] == before[..sp'] + [before[from]];
        assert old(stack)[sp1..from + 1] == old(stack)[sp1..from] + [old(stack)[from]];
        sp', from := sp' + 1, from + 1;
      }
    }

    /** Moves the undo entries of the given up states down to sp, where base ends. */
    method Slide(sp: nat, ghost base: Log, ghost ps: seq<Piece>) returns (sp': nat)
      requires sp == |Layout(base)| && stack == Layout(base) + Chain(ps, sp)
      modifies this`stack
      ensures sp' <= |stack| && stack[..sp'] == Layout(base) + Elems(Merged(ps))
    {
      hide Layout, Chain, Merged, Elems;
      var spTop, sp1 := |stack|, sp;
      sp' := sp;
      ghost var rest, done := ps, [];
      ChainNone(sp);
      while sp1 < spTop
        invariant sp' <= sp1 <= spTop == |stack| && stack[..sp'] == Layout(base) + Elems(done)
        invariant stack[sp1..] == Chain(rest, sp1) && done + Merged(rest) == Merged(ps)
      {
        ChainTop(rest, sp1);
        ghost var u, tail := rest[0].undo, Chain(rest, sp1);
        assert stack[sp1 + 2] == stack[sp1..][2];
        var next := stack[sp1 + 2].v;
        SliceOf(stack, sp1, tail, 3, next - sp1);
        sp' := CopyDown(sp', sp1 + 3, next);
        sp1 := next;
        ElemsAppend(done, u);
        done, rest := done + u, rest[1..];
      }
      ChainEmpty(rest, sp1);
      ChainNone(sp1);
      assert done + [] == done;
    }

    /** lookahead_match. */
    method LookaheadMatch()
      requires Valid() && PopTo(KLook, Saved()).Push?
      modifies this`stack, this`bp, this`pc, this`cptr, this`log
      ensures Valid()
      ensures var f := PopTo(KLook, old(Saved())); pc == f.pc && cptr == f.t.pos && Saved() == f.rest
    {
      hide Layout, Base, InBounds, Chain, Merged, Elems, Snap, Undo;
      ghost var ns, caps, cur, ps := 2 * captureCount, capture[..], log, [];
      ghost var f := PopTo(KLook, Saved());
      var sp: nat, kind := |stack|, KSplit;
      ChainNone(sp);
      UndoNone(caps);
      while kind != KLook
        invariant Linked(sp, cur, ps)
        invariant kind != KLook ==> PopTo(KLook, Snap(ns, Undo(caps, Merged(ps)), cur)) == f
        invariant kind == KLook ==> pc == f.pc && cptr == f.t.pos && Snap(ns, Undo(caps, Merged(ps)), cur) == f.rest
        decreases kind != KLook, cur
      {
        ghost var c := Undo(caps, Merged(ps));
        SnapNil(ns, c, cur);
        SnapTop(ns, c, cur);
        sp, kind := GiveUp(sp, cur, ps);
        UndoAppend(caps, cur.undo, Merged(ps));
        ChainCons(Piece(pc, cptr, cur.undo), ps, sp);
        cur, ps := cur.below, [Piece(pc, cptr, cur.undo)] + ps;
      }
      ghost var u := cur.undo + Merged(ps);
      LayoutTop(cur);
      BoundsTop(cur, capture.Length);
      if sp != 0 {
        // the state below still needs the entries to restore its captures
        sp := Slide(sp, cur, ps);
        stack := stack[..sp];
        ElemsAppend(cur.undo, Merged(ps));
        LayoutWith(cur, u, capture.Length);
        SnapMerge(ns, caps, cur, Merged(ps));
        log := WithUndo(cur, u);
      } else {
        stack := [];
        LayoutEmpty(cur);
        SnapBottom(ns, caps, cur);
        SnapBottom(ns, Undo(caps, Merged(ps)), cur);
        log := cur;
      }
    }

    // ----- instructions ---------------------------------------------------------------------------------

    /** The configuration of the machine that this state stands for. */
    ghost function Conf(): Cfg
      requires Valid()
      reads this, capture
    {
      Run(pc, Current(), Saved())
    }

    /** The state after an instruction with outcome r stands for c. */
    ghost predicate Leads(r: Next, c: Cfg)
      requires Valid()
      reads this, capture
    {
      match r
      case Continue => c == Conf()
      case Fail => c == Back(Saved())
      case Accept => c == Done(true, Current().slots)
    }

    /** char, dot, any, space and range instructions. */
    method ExecChar(i: Instr) returns (r: Next)
      requires Valid() && IsCharOp(i) && cptr <= |env.units|
      modifies this`cptr
      ensures Valid() && Leads(r, Exec(env, i, pc, old(Current()), old(Saved())))
    {
      if cptr >= |env.units| { return Fail; }
      var c;
      c, cptr := GetChar(env, cptr, |env.units|);
      var ok;
      match i {
        case Char(_, icase, val) =>
          if icase { c := env.canon(c); }
          ok := val == c;
        case DotOp => ok := !IsLineTerminator(c);
        case AnyOp => ok := true;
        case SpaceOp => ok := env.space(c);
        case NotSpaceOp => ok := !env.space(c);
        case Range(wide, icase, tab) =>
          if icase { c := env.canon(c); }
          ok := TestRange(wide, tab, c);
      }
      return if ok then Continue else Fail;
    }

    /** back_reference: the first capture that is set decides; NULL when it does not match. */
    method FindBackRef(bw: bool, icase: bool, idxs: seq<int>) returns (p: int)
      requires Valid() && cptr <= |env.units| && SlotsOk(env, Current().slots)
      requires forall k :: 0 <= k < |idxs| ==> 0 <= idxs[k]
      ensures p == BackRefPos(env, bw, icase, idxs, Current().slots, cptr)
    {
      hide Layout, Base, InBounds, MatchForward, MatchBackward;
      var i := 0;
      ghost var slots := Current().slots;
      while i < |idxs|
        invariant 0 <= i <= |idxs|
        invariant BackRefPos(env, bw, icase, idxs[i..], slots, cptr) == BackRefPos(env, bw, icase, idxs, slots, cptr)
      {
        var val := idxs[i];
        if val >= captureCount { return NULL; }
        var start, end := capture[2 * val], capture[2 * val + 1];
        assert start == slots[2 * val] && end == slots[2 * val + 1];
        assert idxs[i..][1..] == idxs[i + 1..];
        if start != NULL && end != NULL {
          if bw { p := CompareBackward(env, icase, start, end, cptr); } else { p := CompareForward(env, icase, start, end, cptr); }
          return;
        }
        i := i + 1;
      }
      return cptr;
    }

    /** save_reset. */
    method ExecReset(lo: nat, hi: nat)
      requires Valid() && lo <= hi < captureCount
      modifies this`stack, this`log, capture
      ensures Valid() && Saved() == old(Saved())
      ensures Current() == old(Current()).(slots := Reset(old(Current()).slots, lo, hi - lo + 1))
    {
      hide Layout, Base, InBounds, Snap;
      var val := lo;
      while val <= hi
        invariant lo <= val <= hi + 1 && Valid() && Saved() == old(Saved())
        invariant forall i :: 0 <= i < capture.Length ==> capture[i] == if 2 * lo <= i < 2 * val then NULL else old(capture[i])
      {
        SaveCapture(2 * val, NULL);
        SaveCapture(2 * val + 1, NULL);
        val := val + 1;
      }
      assert capture[..2 * captureCount] == Reset(old(capture[..2 * captureCount]), lo, hi - lo + 1);
      assert capture[2 * captureCount..] == old(capture[2 * captureCount..]);
    }

    /** loop_split: decrements the counter and goes on below, at or above the limit. */
    method ExecLoopSplit(check: bool, nextFirst: bool, reg: nat, limit: int, off: int) returns (r: Next)
      requires Valid() && Exec(env, LoopSplit(check, nextFirst, reg, limit, off), pc, Current(), Saved()) != Stuck
      modifies this`stack, this`bp, this`pc, this`log, capture
      ensures Valid()
      ensures Leads(r, Exec(env, LoopSplit(check, nextFirst, reg, limit, off), old(pc), old(Current()), old(Saved())))
    {
      hide Layout, Base, InBounds, Snap;
      var idx := 2 * captureCount + reg;
      ThreadSet(2 * captureCount, cptr, capture[..], idx, (capture[idx] - 1) % 0x1_0000_0000);
      var val2 := (capture[idx] - 1) % 0x1_0000_0000;
      SaveCaptureCheck(idx, val2);
      if val2 > limit {
        pc := pc + off;
      } else {
        if check && capture[idx + 1] == cptr && val2 != limit { return Fail; }
        if val2 != 0 {
          var pc1;
          if nextFirst { pc1 := pc + off; } else { pc1 := pc; pc := pc + off; }
          PushState(KSplit, pc1);
        }
      }
      return Continue;
    }

    /** Jumps and saved states. */
    method ExecControl(i: Instr) returns (r: Next)
      requires Valid() && (i.Goto? || i.Split? || i.LookOp? || i.LookMatch?)
      requires Exec(env, i, pc, Current(), Saved()) != Stuck
      modifies this`stack, this`bp, this`pc, this`cptr, this`log, capture
      ensures Valid() && Leads(r, Exec(env, i, old(pc), old(Current()), old(Saved())))
    {
      hide Layout, Base, InBounds, Snap, PopTo;
      match i {
        case Goto(off) => pc := pc + off;
        case Split(nextFirst, off) =>
          var pc1;
          if nextFirst { pc1 := pc + off; } else { pc1 := pc; pc := pc + off; }
          PushState(KSplit, pc1);
        case LookOp(neg, off) => PushState(if neg then KNegLook else KLook, pc + off);
        case LookMatch(neg) =>
          if neg {
            NegativeLookaheadMatch();
            return Fail;
          }
          LookaheadMatch();
      }
      return Continue;
    }

    /** Captures and registers. */
    method ExecCells(i: Instr) returns (r: Next)
      requires Valid() && (i.Save? || i.SetI32? || i.SetCharPos? || i.CheckAdvance?)
      requires Exec(env, i, pc, Current(), Saved()) != Stuck
      modifies this`stack, this`log, capture
      ensures Valid() && Leads(r, Exec(env, i, pc, old(Current()), old(Saved())))
    {
      hide Layout, Base, InBounds, Snap;
      ghost var ns, caps := 2 * captureCount, capture[..];
      match i {
        case Save(end, val) =>
          ThreadSet(ns, cptr, caps, 2 * val + B(end), cptr);
          SaveCapture(2 * val + B(end), cptr);
        case SetI32(reg, val) =>
          ThreadSet(ns, cptr, caps, ns + reg, val);
          SaveCaptureCheck(2 * captureCount + reg, val);
        case SetCharPos(reg) =>
          ThreadSet(ns, cptr, caps, ns + reg, cptr);
          SaveCaptureCheck(2 * captureCount + reg, cptr);
        case CheckAdvance(reg) =>
          if capture[2 * captureCount + reg] == cptr { return Fail; }
      }
      return Continue;
    }

    /** loop: decrements the counter and goes back unless it is zero. */
    method ExecLoop(reg: int, off: int)
      requires Valid() && Exec(env, Loop(reg, off), pc, Current(), Saved()) != Stuck
      modifies this`stack, this`pc, this`log, capture
      ensures Valid() && Leads(Continue, Exec(env, Loop(reg, off), old(pc), old(Current()), old(Saved())))
    {
      hide Layout, Base, InBounds, Snap;
      var idx := 2 * captureCount + reg;
      var val2 := (capture[idx] - 1) % 0x1_0000_0000;
      ThreadSet(2 * captureCount, cptr, capture[..], idx, val2);
      SaveCaptureCheck(idx, val2);
      if val2 != 0 { pc := pc + off; }
    }

    /** The instruction i; pc is behind it. */
    method Execute(i: Instr) returns (r: Next)
      requires Valid() && PosOk(env, cptr) && SlotsOk(env, Current().slots)
      requires Exec(env, i, pc, Current(), Saved()) != Stuck
      requires i.BackRefOp? ==> forall k :: 0 <= k < |i.idxs| ==> 0 <= i.idxs[k]
      modifies this`stack, this`bp, this`pc, this`cptr, this`log, capture
      ensures Valid() && Leads(r, Exec(env, i, old(pc), old(Current()), old(Saved())))
    {
      hide Layout, Base, InBounds, Snap, PopTo, TestChar, BackRefPos, Holds, Boundary;
      match i
      case Match => return Accept;
      case LineStartOp(m) =>
        var ok := TestAssertion(env, LineStart(m), cptr);
        return if ok then Continue else Fail;
      case LineEndOp(m) =>
        var ok := TestAssertion(env, LineEnd(m), cptr);
        return if ok then Continue else Fail;
      case WordBoundaryOp(neg, icase) =>
        var ok := TestAssertion(env, WordBoundary(neg, icase), cptr);
        return if ok then Continue else Fail;
      case SaveReset(lo, hi) =>
        ExecReset(lo, hi);
        return Continue;
      case BackRefOp(bw, icase, idxs) =>
        var p := FindBackRef(bw, icase, idxs);
        if p == NULL { return Fail; }
        cptr := p;
        return Continue;
      case Prev =>
        if cptr == 0 { return Fail; }
        var _, p := GetPrevChar(env, cptr, 0);
        cptr := p;
        return Continue;
      case LoopSplit(check, nextFirst, reg, limit, off) => r := ExecLoopSplit(check, nextFirst, reg, limit, off);
      case Goto(_) => r := ExecControl(i);
      case Split(_, _) => r := ExecControl(i);
      case LookOp(_, _) => r := ExecControl(i);
      case LookMatch(_) => r := ExecControl(i);
      case Save(_, _) => r := ExecCells(i);
      case SetI32(_, _) => r := ExecCells(i);
      case SetCharPos(_) => r := ExecCells(i);
      case CheckAdvance(_) => r := ExecCells(i);
      case Loop(reg, off) =>
        ExecLoop(reg, off);
        return Continue;
      case _ => r := ExecChar(i);
    }

    /** lre_exec_backtrack: ends like the machine with full copies, which needs n steps. */
    method Backtrack(ghost n: nat) returns (matched: bool)
      requires Valid() && CfgOk(env, 2 * captureCount, capture.Length - 2 * captureCount, Conf())
      requires StepN(Prog(env, code), Conf(), n).Done?
      modifies this`stack, this`bp, this`pc, this`cptr, this`log, capture
      ensures Valid()
      ensures var c := StepN(Prog(env, code), old(Conf()), n);
        matched == c.matched && (matched ==> capture[..2 * captureCount] == c.slots)
    {
      hide Layout, Base, InBounds, Snap, Exec, Decode, Size, SlotsOk, Boundary, AfterBack;
      ghost var P := Prog(env, code);
      ghost var ns, nr, c := 2 * captureCount, capture.Length - 2 * captureCount, StepN(P, Conf(), n);
      ghost var m := n;
      while true
        invariant Valid() && CfgOk(env, ns, nr, Conf()) && c == StepN(P, Conf(), m)
        decreases m
      {
        ghost var before := Conf();
        NotStuck(P, before, m);
        var i := Decode(code, pc).value;
        pc := pc + Size(i);
        StepOk(P, ns, nr, before);
        ghost var after := Step(P, before);
        var r := Execute(i);
        m := m - 1;
        if r == Accept {
          DoneStays(P, after, m);
          return true;
        }
        if r == Fail {
          m := BackSteps(P, Saved(), m);
          BackOk(env, ns, nr, Saved());
          var ok := NoMatch();
          if !ok {
            DoneStays(P, Done(false, []), m);
            return false;
          }
        }
      }
    }
  }

  lemma SliceOf(s: seq<Elem>, p: nat, tail: seq<Elem>, a: nat, b: nat)
    requires p <= |s| && s[p..] == tail && a <= b <= |tail|
    ensures s[p + a..p + b] == tail[a..b] && s[p + b..] == tail[b..]
  {
    assert forall k :: 0 <= k < |tail| ==> s[p + k] == s[p..][k];
  }

  /** A run that ends decodes its next instruction and is not stuck after it. */
  lemma NotStuck(P: Prog, c: Cfg, n: nat)
    requires c.Run? && StepN(P, c, n).Done?
    ensures n > 0 && Decode(P.code, c.pc).Some?
    ensures var i := Decode(P.code, c.pc).value;
      && Step(P, c) == Exec(P.env, i, c.pc + Size(i), c.t, c.stk) && Step(P, c) != Stuck
      && (i.BackRefOp? ==> forall k :: 0 <= k < |i.idxs| ==> 0 <= i.idxs[k])
  {
    hide Exec, Size, Decode;
    DecodedRefs(P.code, c.pc);
    DoneStays(P, Stuck, if n > 0 then n - 1 else 0);
  }

  lemma DecodedRefs(s: seq<u8>, p: nat)
    ensures Decode(s, p).Some? && Decode(s, p).value.BackRefOp? ==>
      var idxs := Decode(s, p).value.idxs; forall k :: 0 <= k < |idxs| ==> 0 <= idxs[k]
  {
  }

  lemma {:induction false} BackOk(env: Env, ns: nat, nr: nat, s: Stack)
    requires StackOk(env, ns, nr, s)
    ensures CfgOk(env, ns, nr, AfterBack(s))
    decreases s
  {
    if s.Push? { BackOk(env, ns, nr, s.rest); }
  }
}
