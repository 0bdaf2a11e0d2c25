/**
 The flat stack of lre_exec_backtrack: saved states of three elements each, with the undo
 entries (index, old value) made since a state was saved lying above it. A log is the same
 stack with its structure visible; Snap replays it into the saved states of the machine, each
 with the captures and registers it was created with.
 */
module UndoLog {
  import opened RegexpPattern
  import opened Bytecode
  import opened SlotMatcher
  import opened Machine

  datatype Elem = Val(v: int) | Bp(bp: nat, kind: Kind)

  datatype Entry = Entry(idx: nat, val: int)

  /** undo holds the entries above the topmost saved state. */
  datatype Log = Bottom(undo: seq<Entry>) | Seg(kind: Kind, pc: nat, pos: nat, below: Log, undo: seq<Entry>)

  // ----- layout ---------------------------------------------------------------------------------------

  function Elems(u: seq<Entry>): (r: seq<Elem>)
    ensures |r| == 2 * |u|
    ensures forall k :: 0 <= k < |u| ==> r[2 * k] == Val(u[k].idx) && r[2 * k + 1] == Val(u[k].val)
  {
    if u == [] then [] else Elems(u[..|u| - 1]) + [Val(u[|u| - 1].idx), Val(u[|u| - 1].val)]
  }

  function Base(log: Log): nat { if log.Bottom? then 0 else |Layout(log.below)| + 3 }

  function Layout(log: Log): (r: seq<Elem>)
    ensures |r| >= 2 * |log.undo|
  {
    match log
    case Bottom(u) => Elems(u)
    case Seg(kind, pc, pos, below, u) => Layout(below) + [Val(pc), Val(pos), Bp(Base(below), kind)] + Elems(u)
  }

  function WithUndo(log: Log, u: seq<Entry>): Log {
    match log
    case Bottom(_) => Bottom(u)
    case Seg(kind, pc, pos, below, _) => Seg(kind, pc, pos, below, u)
  }

  lemma {:induction false} ElemsAppend(u: seq<Entry>, v: seq<Entry>)
    ensures Elems(u + v) == Elems(u) + Elems(v)
    decreases v
  {
    if v == [] {
      assert u + v == u;
    } else {
      assert (u + v)[..|u + v| - 1] == u + v[..|v| - 1];
      ElemsAppend(u, v[..|v| - 1]);
    }
  }

  lemma ElemsSnoc(u: seq<Entry>, e: Entry)
    ensures Elems(u + [e]) == Elems(u) + [Val(e.idx), Val(e.val)]
  {
    assert (u + [e])[..|u|] == u;
  }

  lemma BoundsTop(log: Log, len: nat)
    requires InBounds(log, len)
    ensures Below(log.undo, len)
  {
  }

  lemma BoundsBelow(log: Log, len: nat)
    requires InBounds(log, len) && log.Seg?
    ensures InBounds(log.below, len)
  {
  }

  lemma WithSame(log: Log)
    ensures WithUndo(log, log.undo) == log
  {
  }

  /** The top of the stack is the undo part. */
  lemma LayoutTop(log: Log)
    ensures Layout(log)[Base(log)..] == Elems(log.undo) && |Layout(log)| == Base(log) + 2 * |log.undo|
  {
  }

  /** Changing the undo part of the stack only. */
  lemma LayoutWith(log: Log, u: seq<Entry>, len: nat)
    requires InBounds(log, len) && Below(u, len)
    ensures Base(WithUndo(log, u)) == Base(log) <= |Layout(log)|
    ensures Layout(WithUndo(log, u)) == Layout(log)[..Base(log)] + Elems(u) && InBounds(WithUndo(log, u), len)
  {
  }

  /** The saved state below the undo part. */
  lemma LayoutFrame(log: Log)
    requires log.Seg?
    ensures var b := Base(log); var s := Layout(log);
      && 3 <= b <= |s| && s[b - 3] == Val(log.pc) && s[b - 2] == Val(log.pos)
      && s[b - 1] == Bp(Base(log.below), log.kind) && s[..b - 3] == Layout(log.below)
  {
  }

  predicate Below(u: seq<Entry>, len: nat) { forall k :: 0 <= k < |u| ==> u[k].idx < len }

  /** All entries refer to existing cells. */
  predicate InBounds(log: Log, len: nat) {
    Below(log.undo, len) && (log.Seg? ==> InBounds(log.below, len))
  }

  // ----- replay ---------------------------------------------------------------------------------------

  /** Captures and registers after the entries of u are undone, the latest first. */
  function Undo(caps: seq<int>, u: seq<Entry>): (r: seq<int>)
    ensures |r| == |caps|
    decreases |u|
  {
    if u == [] then caps
    else
      var e := u[|u| - 1];
      Undo(SetSlot(caps, e.idx, e.val), u[..|u| - 1])
  }

  lemma UndoNone(caps: seq<int>)
    ensures Undo(caps, []) == caps
  {
  }

  lemma UndoLast(caps: seq<int>, u: seq<Entry>)
    requires u != [] && u[|u| - 1].idx < |caps|
    ensures Undo(caps, u) == Undo(caps[u[|u| - 1].idx := u[|u| - 1].val], u[..|u| - 1])
  {
  }

  /** Saving before a write makes the write undoable. */
  lemma UndoSave(caps: seq<int>, u: seq<Entry>, idx: nat, v: int)
    requires idx < |caps|
    ensures Undo(caps[idx := v], u + [Entry(idx, caps[idx])]) == Undo(caps, u)
  {
    var u' := u + [Entry(idx, caps[idx])];
    assert u'[..|u'| - 1] == u;
    assert caps[idx := v][idx := caps[idx]] == caps;
  }

  /** A write to an index that is already saved needs no new entry. */
  lemma {:induction false} UndoKnown(caps: seq<int>, u: seq<Entry>, idx: nat, v: int)
    requires idx < |caps| && exists k :: 0 <= k < |u| && u[k].idx == idx
    ensures Undo(caps[idx := v], u) == Undo(caps, u)
    decreases |u|
  {
    var e := u[|u| - 1];
    if e.idx == idx {
      assert caps[idx := v][idx := e.val] == caps[idx := e.val];
    } else {
      var k :| 0 <= k < |u| && u[k].idx == idx;
      assert u[..|u| - 1][k].idx == idx;
      var caps' := SetSlot(caps, e.idx, e.val);
      assert SetSlot(caps[idx := v], e.idx, e.val) == caps'[idx := v];
      UndoKnown(caps', u[..|u| - 1], idx, v);
    }
  }

  lemma {:induction false} UndoAppend(caps: seq<int>, u: seq<Entry>, v: seq<Entry>)
    ensures Undo(caps, u + v) == Undo(Undo(caps, v), u)
    decreases |v|
  {
    if v == [] {
      assert u + v == u;
    } else {
      var e := v[|v| - 1];
      assert (u + v)[..|u + v| - 1] == u + v[..|v| - 1];
      UndoAppend(SetSlot(caps, e.idx, e.val), u, v[..|v| - 1]);
    }
  }

  /** The first ns cells are capture slots, the others registers. */
  function Thread(ns: nat, pos: nat, caps: seq<int>): Th
    requires ns <= |caps|
  {
    Th(pos, caps[..ns], caps[ns..])
  }

  lemma ThreadSet(ns: nat, pos: nat, caps: seq<int>, idx: nat, v: int)
    requires ns <= |caps| && idx < |caps|
    ensures var t := Thread(ns, pos, caps);
      Thread(ns, pos, caps[idx := v]) == if idx < ns then t.(slots := t.slots[idx := v]) else t.(regs := t.regs[idx - ns := v])
  {
    if idx < ns {
      assert caps[idx := v][..ns] == caps[..ns][idx := v] && caps[idx := v][ns..] == caps[ns..];
    } else {
      assert caps[idx := v][..ns] == caps[..ns] && caps[idx := v][ns..] == caps[ns..][idx - ns := v];
    }
  }

  /** The saved states that log stands for when the cells hold caps. */
  function Snap(ns: nat, caps: seq<int>, log: Log): Stack
    requires ns <= |caps|
    decreases log
  {
    match log
    case Bottom(_) => Nil
    case Seg(kind, pc, pos, below, u) =>
      var caps0 := Undo(caps, u);
      Push(kind, pc, Thread(ns, pos, caps0), Snap(ns, caps0, below))
  }

  lemma SnapTop(ns: nat, caps: seq<int>, log: Log)
    requires ns <= |caps| && log.Seg?
    ensures var caps0 := Undo(caps, log.undo);
      Snap(ns, caps, log) == Push(log.kind, log.pc, Thread(ns, log.pos, caps0), Snap(ns, caps0, log.below))
  {
  }

  /** Only the undo part above the topmost saved state depends on how the cells changed. */
  lemma SnapWith(ns: nat, caps: seq<int>, log: Log, caps': seq<int>, u: seq<Entry>)
    requires ns <= |caps| == |caps'| && Undo(caps', u) == Undo(caps, log.undo)
    ensures Snap(ns, caps', WithUndo(log, u)) == Snap(ns, caps, log)
  {
  }

  /** Entries taken over from states that are given up. */
  lemma SnapMerge(ns: nat, caps: seq<int>, log: Log, u: seq<Entry>)
    requires ns <= |caps|
    ensures Snap(ns, caps, WithUndo(log, log.undo + u)) == Snap(ns, Undo(caps, u), log)
  {
    UndoAppend(caps, log.undo, u);
  }

  // ----- states given up by a lookahead ---------------------------------------------------------------

  /** A saved state whose third element has been replaced by the address of the next one. */
  datatype Piece = Piece(pc: int, pos: int, undo: seq<Entry>)

  function Chain(ps: seq<Piece>, from: nat): (r: seq<Elem>)
    ensures |r| >= 3 * |ps|
    decreases |ps|
  {
    if ps == [] then []
    else
      var next := from + 3 + 2 * |ps[0].undo|;
      [Val(ps[0].pc), Val(ps[0].pos), Val(next)] + Elems(ps[0].undo) + Chain(ps[1..], next)
  }

  function Merged(ps: seq<Piece>): seq<Entry> {
    if ps == [] then [] else ps[0].undo + Merged(ps[1..])
  }

  lemma ChainCons(p: Piece, ps: seq<Piece>, from: nat)
    ensures var next := from + 3 + 2 * |p.undo|;
      Chain([p] + ps, from) == [Val(p.pc), Val(p.pos), Val(next)] + Elems(p.undo) + Chain(ps, next)
    ensures Merged([p] + ps) == p.undo + Merged(ps)
  {
    assert ([p] + ps)[1..] == ps;
  }

  lemma ChainNone(from: nat)
    ensures Chain([], from) == [] && Merged([]) == []
  {
  }

  lemma ChainEmpty(ps: seq<Piece>, from: nat)
    requires Chain(ps, from) == []
    ensures ps == []
  {
  }

  lemma ChainTop(ps: seq<Piece>, from: nat)
    requires Chain(ps, from) != []
    ensures ps != [] && Merged(ps) == ps[0].undo + Merged(ps[1..])
    ensures var u := ps[0].undo; var r := Chain(ps, from); var n := 3 + 2 * |u|;
      && n <= |r| && r[2] == Val(from + n) && r[3..n] == Elems(u) && r[n..] == Chain(ps[1..], from + n)
  {
    ChainNone(from);
  }

  lemma SnapNil(ns: nat, caps: seq<int>, log: Log)
    requires ns <= |caps|
    ensures Snap(ns, caps, log) == Nil <==> log.Bottom?
  {
  }

  lemma SnapBottom(ns: nat, caps: seq<int>, log: Log)
    requires ns <= |caps| && log.Bottom?
    ensures Snap(ns, caps, log) == Nil
  {
  }

  lemma LayoutEmpty(log: Log)
    requires |Layout(log)| == 0
    ensures log.Bottom? && Layout(log) == []
  {
  }

  // ----- backtracking ---------------------------------------------------------------------------------

  /** Where the machine goes on when the current thread fails. */
  function AfterBack(s: Stack): Cfg {
    match s
    case Nil => Done(false, [])
    case Push(kind, pc, t, rest) => if kind == KLook then AfterBack(rest) else Run(pc, t, rest)
  }

  lemma {:induction false} DoneStays(P: Prog, c: Cfg, n: nat)
    requires c.Done? || c.Stuck?
    ensures StepN(P, c, n) == c
    decreases n
  {
    if n > 0 { DoneStays(P, c, n - 1); }
  }

  /** The steps left once the failed thread is given up. */
  lemma {:induction false} BackSteps(P: Prog, s: Stack, n: nat) returns (m: nat)
    requires StepN(P, Back(s), n).Done?
    ensures m <= n && StepN(P, AfterBack(s), m) == StepN(P, Back(s), n)
    decreases n
  {
    hide Decode, Exec;
    assert n > 0;
    match s
    case Nil =>
      DoneStays(P, Done(false, []), n - 1);
      m := n - 1;
    case Push(kind, pc, t, rest) =>
      if kind == KLook { m := BackSteps(P, rest, n - 1); } else { m := n - 1; }
  }
}
