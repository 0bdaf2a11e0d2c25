/**
 For every node, the slot matcher produces the outcomes of ECMA-262 section 22.2.2, in order.
 */
module NodeRefinement {
  import opened RegexpPattern
  import E = EcmaMatcher
  import opened SlotMatcher
  import opened SlotRefinement
  import opened LinearAtoms
  import Simulation

  /** A quantifier without upper bound for which the compiler emits a counted loop all the same. */
  predicate Counted(n: Node, bw: bool)
    requires n.Quant?
  {
    n.max == INT32_MAX && EffMax(n, bw) >= 0
  }

  /** No run on len characters uses up a counter of INT32_MAX iterations: at most len of them move,
      and an atom that need not move can spend the mandatory ones in place. */
  predicate CounterFits(n: Node, bw: bool, len: nat)
    requires n.Quant?
  {
    Counted(n, bw) ==> (if ScanNode(n.body, bw).adv then n.min else 0) + len <= INT32_MAX
  }

  predicate CountersFit(n: Node, bw: bool, len: nat) {
    match n
    case Cat(l, r) => CountersFit(l, bw, len) && CountersFit(r, bw, len)
    case Alt(l, r) => CountersFit(l, bw, len) && CountersFit(r, bw, len)
    case Group(b) => CountersFit(b, bw, len)
    case Quant(b, _, max, _) => max == 0 || (CountersFit(b, bw, len) && CounterFits(n, bw, len))
    case Look(behind, _, b) => CountersFit(b, behind, len)
    case _ => true
  }

  predicate NodeOk(n: Node, bw: bool, total: nat, len: nat) {
    Wf(n) && RefsIn(n, total) && CountersFit(n, bw, len)
  }

  ghost predicate Pre(T: Text, n: Node, bw: bool, cc: nat, O: set<nat>, x1: E.State, x2: St) {
    && Ok(T) && NodeOk(n, bw, |x1.caps|, |T.chars|) && Rel(T, O, x1, x2) && Clean(O, cc, NumGroups(n), x1)
  }

  ghost predicate Post(T: Text, n: Node, bw: bool, cc: nat, O: set<nat>, x1: E.State, x2: St) {
    RelAll(T, O, cc, NumGroups(n), x1, x2, E.Matches(T.Inp(), n, bw, cc, x1), M(T.env, n, bw, cc, x2))
  }

  lemma {:induction false} Refine(T: Text, n: Node, bw: bool, cc: nat, O: set<nat>, x1: E.State, x2: St)
    requires Pre(T, n, bw, cc, O, x1, x2)
    ensures Post(T, n, bw, cc, O, x1, x2)
    decreases n, 2, 0, 0, 0
  {
    match n
    case Empty =>
    case Chr(cs) => RefineChr(T, cs, bw, cc, O, x1, x2);
    case Assert(a) => RefineAssert(T, a, bw, cc, O, x1, x2);
    case Cat(_, _) => RefineCat(T, n, bw, cc, O, x1, x2);
    case Alt(_, _) => RefineAlt(T, n, bw, cc, O, x1, x2);
    case Group(_) => RefineGroup(T, n, bw, cc, O, x1, x2);
    case BackRef(_, _) => RefineBackRef(T, n, bw, cc, O, x1, x2);
    case Quant(_, _, _, _) => RefineQuant(T, n, bw, cc, O, x1, x2);
    case Look(_, _, _) => RefineLook(T, n, bw, cc, O, x1, x2);
  }

  lemma CleanPart(O: set<nat>, lo: nat, g: nat, lo': nat, g': nat, x1: E.State)
    requires Clean(O, lo, g, x1) && lo <= lo' && lo' + g' <= lo + g
    ensures Clean(O, lo', g', x1)
  {
  }

  lemma RefineCat(T: Text, n: Node, bw: bool, cc: nat, O: set<nat>, x1: E.State, x2: St)
    requires n.Cat? && Pre(T, n, bw, cc, O, x1, x2)
    ensures Post(T, n, bw, cc, O, x1, x2)
    decreases n, 1, 0, 0, 0
  {
    hide Ok, M, MMap, Flat, E.Matches, E.MatchesEach, E.Concat, Rel, Clean, RelAll;
    var cr := cc + NumGroups(n.l);
    E.MatchesCat(T.Inp(), n, bw, cc, x1);
    MatchCat(T.env, n, bw, cc, x2);
    CleanPart(O, cc, NumGroups(n), cc, NumGroups(n.l), x1);
    CleanPart(O, cc, NumGroups(n), cr, NumGroups(n.r), x1);
    if bw { RefineSeq(T, n, n.r, n.l, bw, cr, cc, cc, O, x1, x2); }
    else { RefineSeq(T, n, n.l, n.r, bw, cc, cr, cc, O, x1, x2); }
  }

  /** a runs before b; their groups lie side by side. */
  lemma RefineSeq(T: Text, n: Node, a: Node, b: Node, bw: bool, ca: nat, cb: nat, cc: nat, O: set<nat>, x1: E.State, x2: St)
    requires n.Cat? && (a == n.l || a == n.r) && (b == n.l || b == n.r)
    requires Pre(T, a, bw, ca, O, x1, x2) && Pre(T, b, bw, cb, O, x1, x2)
    requires cc <= ca && ca + NumGroups(a) <= cc + NumGroups(n) && cc <= cb && cb + NumGroups(b) <= cc + NumGroups(n)
    requires ca + NumGroups(a) <= cb || cb + NumGroups(b) <= ca
    ensures RelAll(T, O, cc, NumGroups(n), x1, x2,
      E.Concat(E.MatchesEach(T.Inp(), b, bw, cb, x1, E.Matches(T.Inp(), a, bw, ca, x1))),
      Flat(MMap(T.env, b, bw, cb, x2, M(T.env, a, bw, ca, x2))))
    decreases n, 0, 0, 0, 0
  {
    hide Ok, M, MMap, Flat, E.Matches, E.MatchesEach, E.Concat, Rel, Clean, NodeOk, NumGroups;
    var ys1, ys2 := E.Matches(T.Inp(), a, bw, ca, x1), M(T.env, a, bw, ca, x2);
    var rr1, rr2 := E.MatchesEach(T.Inp(), b, bw, cb, x1, ys1), MMap(T.env, b, bw, cb, x2, ys2);
    Refine(T, a, bw, ca, O, x1, x2);
    forall i | 0 <= i < |ys1| ensures RelAll(T, O, cc, NumGroups(n), x1, x2, rr1[i], rr2[i]) {
      assert Out(T, O, ca, NumGroups(a), x1, x2, ys1[i], ys2[i]);
      CleanAfter(T, O, ca, NumGroups(a), cb, NumGroups(b), x1, x2, ys1[i], ys2[i]);
      Refine(T, b, bw, cb, O, ys1[i], ys2[i]);
      RelWiden(T, O, cb, NumGroups(b), cc, NumGroups(n), x1, x2, ys1[i], ys2[i], rr1[i], rr2[i]);
    }
    RelConcat(T, O, cc, NumGroups(n), x1, x2, rr1, rr2);
  }

  lemma FrameSelf(lo: nat, g: nat, x1: E.State, x2: St)
    requires |x2.slots| == 2 * |x1.caps|
    ensures Frame(lo, g, x1, x2, x1, x2)
  {
  }

  lemma RefineAlt(T: Text, n: Node, bw: bool, cc: nat, O: set<nat>, x1: E.State, x2: St)
    requires n.Alt? && Pre(T, n, bw, cc, O, x1, x2)
    ensures Post(T, n, bw, cc, O, x1, x2)
    decreases n, 1, 0, 0, 0
  {
    hide Ok, M, E.Matches, RelAll;
    var cr := cc + NumGroups(n.l);
    E.MatchesAlt(T.Inp(), n, bw, cc, x1);
    MatchAlt(T.env, n, bw, cc, x2);
    CleanPart(O, cc, NumGroups(n), cc, NumGroups(n.l), x1);
    CleanPart(O, cc, NumGroups(n), cr, NumGroups(n.r), x1);
    FrameSelf(cc, NumGroups(n), x1, x2);
    Refine(T, n.l, bw, cc, O, x1, x2);
    Refine(T, n.r, bw, cr, O, x1, x2);
    var l1, l2 := E.Matches(T.Inp(), n.l, bw, cc, x1), M(T.env, n.l, bw, cc, x2);
    var r1, r2 := E.Matches(T.Inp(), n.r, bw, cr, x1), M(T.env, n.r, bw, cr, x2);
    RelWiden(T, O, cc, NumGroups(n.l), cc, NumGroups(n), x1, x2, x1, x2, l1, l2);
    RelWiden(T, O, cr, NumGroups(n.r), cc, NumGroups(n), x1, x2, x1, x2, r1, r2);
    RelAppend(T, O, cc, NumGroups(n), x1, x2, l1, l2, r1, r2);
  }

  /** Entering group k: it is open from here on. */
  lemma EnterGroup(T: Text, O: set<nat>, k: nat, i: nat, x1: E.State, x2: St)
    requires Rel(T, O, x1, x2) && k < |x1.caps| && k !in O && x1.caps[k] == E.Undefined && (i == 2 * k || i == 2 * k + 1)
    ensures Rel(T, O + {k}, x1, x2.(slots := SetSlot(x2.slots, i, x2.pos)))
  {
    var x2' := x2.(slots := SetSlot(x2.slots, i, x2.pos));
    assert RelCap(T, k in O, x1.caps[k], x2.slots[2 * k], x2.slots[2 * k + 1]);
    forall m | 0 <= m < |x1.caps|
      ensures RelCap(T, m in O + {k}, x1.caps[m], x2'.slots[2 * m], x2'.slots[2 * m + 1])
    {
      assert RelCap(T, m in O, x1.caps[m], x2.slots[2 * m], x2.slots[2 * m + 1]);
    }
  }

  /** Leaving group k, entered at x1. */
  lemma LeaveGroup(T: Text, O: set<nat>, k: nat, bw: bool, x1: E.State, x2: St, y1: E.State, y2: St)
    requires Ok(T) && Rel(T, O + {k}, y1, y2) && k !in O && k < |y1.caps| && E.Forward(T.Inp(), bw, x1, y1)
    requires x1.pos < |T.off| && y2.slots[2 * k + (if bw then 1 else 0)] == T.off[x1.pos]
    ensures Rel(T, O, y1.(caps := E.SetCap(y1.caps, k, E.Spanned(bw, x1, y1))),
                y2.(slots := SetSlot(y2.slots, 2 * k + (if bw then 0 else 1), y2.pos)))
  {
    hide Ok;
    var y1' := y1.(caps := E.SetCap(y1.caps, k, E.Spanned(bw, x1, y1)));
    var y2' := y2.(slots := SetSlot(y2.slots, 2 * k + (if bw then 0 else 1), y2.pos));
    forall m | 0 <= m < |y1'.caps|
      ensures RelCap(T, m in O, y1'.caps[m], y2'.slots[2 * m], y2'.slots[2 * m + 1])
    {
      assert RelCap(T, m in O + {k}, y1.caps[m], y2.slots[2 * m], y2.slots[2 * m + 1]);
    }
  }

  lemma RefineGroup(T: Text, n: Node, bw: bool, cc: nat, O: set<nat>, x1: E.State, x2: St)
    requires n.Group? && Pre(T, n, bw, cc, O, x1, x2)
    ensures Post(T, n, bw, cc, O, x1, x2)
    decreases n, 1, 0, 0, 0
  {
    hide Ok, M, E.Matches, E.SetCap, E.Spanned, Rel;
    var i := 2 * cc + (if bw then 1 else 0);
    var x2' := x2.(slots := SetSlot(x2.slots, i, x2.pos));
    E.MatchesGroup(T.Inp(), n, bw, cc, x1);
    MatchGroup(T.env, n, bw, cc, x2);
    RelShape(T, O, x1, x2);
    EnterGroup(T, O, cc, i, x1, x2);
    Refine(T, n.body, bw, cc + 1, O + {cc}, x1, x2');
    var ys1, ys2 := E.Matches(T.Inp(), n.body, bw, cc + 1, x1), M(T.env, n.body, bw, cc + 1, x2');
    var zs1, zs2 := E.Matches(T.Inp(), n, bw, cc, x1), M(T.env, n, bw, cc, x2);
    forall k | 0 <= k < |zs1| ensures Out(T, O, cc, NumGroups(n), x1, x2, zs1[k], zs2[k]) {
      assert Out(T, O + {cc}, cc + 1, NumGroups(n.body), x1, x2', ys1[k], ys2[k]);
      assert E.Forward(T.Inp(), bw, x1, ys1[k]);
      LeaveGroup(T, O, cc, bw, x1, x2, ys1[k], ys2[k]);
      GroupFrame(cc, NumGroups(n.body), bw, x1, x2, ys1[k], ys2[k]);
    }
  }

  lemma RelShape(T: Text, O: set<nat>, x1: E.State, x2: St)
    requires Rel(T, O, x1, x2)
    ensures x1.pos < |T.off| && x2.pos == T.off[x1.pos] && |x2.slots| == 2 * |x1.caps|
  {
  }

  lemma GroupFrame(cc: nat, g: nat, bw: bool, x1: E.State, x2: St, y1: E.State, y2: St)
    requires |x2.slots| == 2 * |x1.caps|
    requires Frame(cc + 1, g, x1, x2.(slots := SetSlot(x2.slots, 2 * cc + (if bw then 1 else 0), x2.pos)), y1, y2)
    ensures Frame(cc, g + 1, x1, x2, y1.(caps := E.SetCap(y1.caps, cc, E.Spanned(bw, x1, y1))),
                  y2.(slots := SetSlot(y2.slots, 2 * cc + (if bw then 0 else 1), y2.pos)))
  {
  }

  lemma RefineLook(T: Text, n: Node, bw: bool, cc: nat, O: set<nat>, x1: E.State, x2: St)
    requires n.Look? && Pre(T, n, bw, cc, O, x1, x2)
    ensures Post(T, n, bw, cc, O, x1, x2)
    decreases n, 1, 0, 0, 0
  {
    hide Ok, M, E.Matches;
    E.MatchesLook(T.Inp(), n, bw, cc, x1);
    MatchLook(T.env, n, bw, cc, x2);
    FrameSelf(cc, NumGroups(n), x1, x2);
    Refine(T, n.body, n.behind, cc, O, x1, x2);
    var ys1, ys2 := E.Matches(T.Inp(), n.body, n.behind, cc, x1), M(T.env, n.body, n.behind, cc, x2);
    if ys1 != [] { assert Out(T, O, cc, NumGroups(n), x1, x2, ys1[0], ys2[0]); }
  }

  // ----- quantifiers --------------------------------------------------------------------------------

  /** A bound that no run can reach is as good as none. */
  lemma {:induction false} RepeatBounded(inp: E.Input, b: Node, bw: bool, cc: nat, greedy: bool, min: nat, max: nat, x: E.State)
    requires max >= min + E.Remaining(inp, bw, x.pos)
    ensures E.Repeat(inp, b, bw, cc, greedy, min, -1, x) == E.Repeat(inp, b, bw, cc, greedy, min, max, x)
    decreases min, E.Remaining(inp, bw, x.pos)
  {
    hide E.Matches, E.Repeat, E.RepeatEach;
    var xr := x.(caps := E.ResetCaps(x.caps, cc, NumGroups(b)));
    var ys := E.Matches(inp, b, bw, cc, xr);
    forall i | 0 <= i < |ys| ensures E.Forward(inp, bw, x, ys[i]) {
      assert E.Forward(inp, bw, xr, ys[i]);
    }
    var r1 := E.RepeatEach(inp, b, bw, cc, greedy, min, -1, x, ys);
    var r2 := E.RepeatEach(inp, b, bw, cc, greedy, min, max, x, ys);
    if max == 0 {
      assert forall i :: 0 <= i < |ys| ==> r1[i] == [];
      ConcatEmpty(r1);
    } else {
      forall i | 0 <= i < |ys| ensures r1[i] == r2[i] {
        assert E.Forward(inp, bw, x, ys[i]);
        if !(min == 0 && ys[i].pos == x.pos) {
          RepeatBounded(inp, b, bw, cc, greedy, if min == 0 then 0 else min - 1, max - 1, ys[i]);
        }
      }
      assert r1 == r2;
    }
    RepeatIs(inp, b, bw, cc, greedy, min, -1, x);
    RepeatIs(inp, b, bw, cc, greedy, min, max, x);
  }

  lemma RepeatIs(inp: E.Input, b: Node, bw: bool, cc: nat, greedy: bool, min: nat, max: int, x: E.State)
    ensures var xr := x.(caps := E.ResetCaps(x.caps, cc, NumGroups(b)));
      var ys := E.Concat(E.RepeatEach(inp, b, bw, cc, greedy, min, max, x, E.Matches(inp, b, bw, cc, xr)));
      E.Repeat(inp, b, bw, cc, greedy, min, max, x) ==
      if max == 0 then [x] else if min > 0 then ys else if greedy then ys + [x] else [x] + ys
  {
    hide E.Matches, E.RepeatEach, E.Concat;
  }

  lemma RepIs(env: Env, b: Node, bw: bool, cc: nat, init: bool, greedy: bool, min: nat, max: int, x: St)
    ensures var xr := if init then x.(slots := Reset(x.slots, cc, NumGroups(b))) else x;
      var ys := Flat(RepMap(env, b, bw, cc, init, greedy, min, max, x, M(env, b, bw, cc, xr)));
      Rep(env, b, bw, cc, init, greedy, min, max, x) ==
      if max == 0 then [x] else if min > 0 then ys else if greedy then ys + [x] else [x] + ys
  {
    hide M, RepMap, Flat;
  }

  lemma {:induction false} ConcatEmpty(rr: seq<seq<E.State>>)
    requires forall i :: 0 <= i < |rr| ==> rr[i] == []
    ensures E.Concat(rr) == []
    decreases rr
  {
    if rr != [] { ConcatEmpty(rr[1..]); }
  }

  lemma ResetRel(T: Text, O: set<nat>, lo: nat, g: nat, x1: E.State, x2: St)
    requires Rel(T, O, x1, x2) && lo + g <= |x1.caps| && forall k :: lo <= k < lo + g ==> k !in O
    ensures var x1', x2' := x1.(caps := E.ResetCaps(x1.caps, lo, g)), x2.(slots := Reset(x2.slots, lo, g));
      Rel(T, O, x1', x2') && Clean(O, lo, g, x1') && Frame(lo, g, x1, x2, x1', x2')
  {
    var x1', x2' := x1.(caps := E.ResetCaps(x1.caps, lo, g)), x2.(slots := Reset(x2.slots, lo, g));
    forall m | 0 <= m < |x1'.caps| ensures RelCap(T, m in O, x1'.caps[m], x2'.slots[2 * m], x2'.slots[2 * m + 1]) {
      assert RelCap(T, m in O, x1.caps[m], x2.slots[2 * m], x2.slots[2 * m + 1]);
    }
  }

  ghost predicate RepPre(T: Text, b: Node, bw: bool, cc: nat, O: set<nat>, x1: E.State, x2: St) {
    && Ok(T) && NodeOk(b, bw, |x1.caps|, |T.chars|) && Rel(T, O, x1, x2)
    && cc + NumGroups(b) <= |x1.caps| && (forall k :: cc <= k < cc + NumGroups(b) ==> k !in O)
    && (!ScanNode(b, bw).init ==> DeadUnset(b, bw, cc, x2))
  }

  /** The results of one iteration on both sides. */
  lemma RefineIteration(T: Text, b: Node, bw: bool, cc: nat, O: set<nat>, x1: E.State, x2: St)
    requires RepPre(T, b, bw, cc, O, x1, x2)
    ensures var init := ScanNode(b, bw).init;
      var ys1 := E.Matches(T.Inp(), b, bw, cc, x1.(caps := E.ResetCaps(x1.caps, cc, NumGroups(b))));
      var ys2 := M(T.env, b, bw, cc, if init then x2.(slots := Reset(x2.slots, cc, NumGroups(b))) else x2);
      && RelAll(T, O, cc, NumGroups(b), x1, x2, ys1, ys2)
      && forall i :: 0 <= i < |ys1| ==> RepPre(T, b, bw, cc, O, ys1[i], ys2[i])
    decreases b, 3, 0, 0, 0
  {
    hide Ok, M, E.Matches, ScanNode, NodeOk, DeadUnset, Rel;
    var g := NumGroups(b);
    var x1', x2' := x1.(caps := E.ResetCaps(x1.caps, cc, g)), x2.(slots := Reset(x2.slots, cc, g));
    ResetRel(T, O, cc, g, x1, x2);
    Refine(T, b, bw, cc, O, x1', x2');
    if !ScanNode(b, bw).init { LinearReset(T.env, b, bw, cc, x2); }
    var ys1, ys2 := E.Matches(T.Inp(), b, bw, cc, x1'), M(T.env, b, bw, cc, x2');
    RelWiden(T, O, cc, g, cc, g, x1, x2, x1', x2', ys1, ys2);
    forall i | 0 <= i < |ys1| ensures RepPre(T, b, bw, cc, O, ys1[i], ys2[i]) {
      assert Out(T, O, cc, g, x1', x2', ys1[i], ys2[i]);
      if !ScanNode(b, bw).init { DeadStaysUnset(T.env, b, bw, cc, x2, i); }
    }
  }

  lemma SamePos(T: Text, O: set<nat>, x1: E.State, x2: St, y1: E.State, y2: St)
    requires Ok(T) && Rel(T, O, x1, x2) && Rel(T, O, y1, y2)
    ensures x1.pos == y1.pos <==> x2.pos == y2.pos
  {
    if x1.pos < y1.pos { assert T.off[x1.pos] < T.off[y1.pos]; }
    if y1.pos < x1.pos { assert T.off[y1.pos] < T.off[x1.pos]; }
  }

  lemma RelEach(T: Text, O: set<nat>, lo: nat, g: nat, x1: E.State, x2: St, R1: seq<E.State>, R2: seq<St>)
    requires RelAll(T, O, lo, g, x1, x2, R1, R2)
    ensures |R1| == |R2| && forall i :: 0 <= i < |R1| ==> Out(T, O, lo, g, x1, x2, R1[i], R2[i])
  {
    hide Out;
  }

  lemma RelNone(T: Text, O: set<nat>, lo: nat, g: nat, x1: E.State, x2: St)
    ensures RelAll(T, O, lo, g, x1, x2, [], [])
  {
  }

  lemma {:induction false} RefineRep(T: Text, b: Node, bw: bool, cc: nat, O: set<nat>, greedy: bool, min: nat, max: int,
                                     x1: E.State, x2: St)
    requires RepPre(T, b, bw, cc, O, x1, x2)
    ensures RelAll(T, O, cc, NumGroups(b), x1, x2, E.Repeat(T.Inp(), b, bw, cc, greedy, min, max, x1),
                   Rep(T.env, b, bw, cc, ScanNode(b, bw).init, greedy, min, max, x2))
    decreases b, 4, min, E.Remaining(T.Inp(), bw, x1.pos), 0
  {
    hide Ok, M, E.Matches, ScanNode, NodeOk, DeadUnset, E.Repeat, E.RepeatEach, RepMap, Rep, E.Concat, Flat, Rel, NumGroups, RelAll;
    RelShape(T, O, x1, x2);
    var g := NumGroups(b);
    var init := ScanNode(b, bw).init;
    var xr1 := x1.(caps := E.ResetCaps(x1.caps, cc, g));
    var xr2 := if init then x2.(slots := Reset(x2.slots, cc, g)) else x2;
    var ys1, ys2 := E.Matches(T.Inp(), b, bw, cc, xr1), M(T.env, b, bw, cc, xr2);
    RefineIteration(T, b, bw, cc, O, x1, x2);
    forall i | 0 <= i < |ys1| ensures E.Forward(T.Inp(), bw, x1, ys1[i]) { assert E.Forward(T.Inp(), bw, xr1, ys1[i]); }
    forall i | 0 <= i < |ys2| ensures Moves(T.env, bw, x2, ys2[i]) { assert Moves(T.env, bw, xr2, ys2[i]); }
    RelEach(T, O, cc, g, x1, x2, ys1, ys2);
    var rr1 := E.RepeatEach(T.Inp(), b, bw, cc, greedy, min, max, x1, ys1);
    var rr2 := RepMap(T.env, b, bw, cc, init, greedy, min, max, x2, ys2);
    if max != 0 {
      forall i | 0 <= i < |ys1| ensures RelAll(T, O, cc, g, x1, x2, rr1[i], rr2[i]) {
        assert Out(T, O, cc, g, x1, x2, ys1[i], ys2[i]) && E.Forward(T.Inp(), bw, x1, ys1[i]);
        SamePos(T, O, x1, x2, ys1[i], ys2[i]);
        if !(min == 0 && ys1[i].pos == x1.pos) {
          RefineRep(T, b, bw, cc, O, greedy, if min == 0 then 0 else min - 1, Pred(max), ys1[i], ys2[i]);
          RelWiden(T, O, cc, g, cc, g, x1, x2, ys1[i], ys2[i], rr1[i], rr2[i]);
        } else {
          RelNone(T, O, cc, g, x1, x2);
        }
      }
      RelConcat(T, O, cc, g, x1, x2, rr1, rr2);
    }
    RepeatIs(T.Inp(), b, bw, cc, greedy, min, max, x1);
    RepIs(T.env, b, bw, cc, init, greedy, min, max, x2);
    FrameSelf(cc, g, x1, x2);
    RelOne(T, O, cc, g, x1, x2);
    if max != 0 {
      RelAppend(T, O, cc, g, x1, x2, E.Concat(rr1), Flat(rr2), [x1], [x2]);
      RelAppend(T, O, cc, g, x1, x2, [x1], [x2], E.Concat(rr1), Flat(rr2));
    }
  }

  /** An atom without advance check moves in every iteration. */
  lemma IterationMoves(T: Text, b: Node, bw: bool, cc: nat, O: set<nat>, x1: E.State, x2: St)
    requires RepPre(T, b, bw, cc, O, x1, x2) && !ScanNode(b, bw).adv
    ensures var ys1 := E.Matches(T.Inp(), b, bw, cc, x1.(caps := E.ResetCaps(x1.caps, cc, NumGroups(b))));
      forall i :: 0 <= i < |ys1| ==>
        E.Forward(T.Inp(), bw, x1, ys1[i]) && E.Remaining(T.Inp(), bw, ys1[i].pos) < E.Remaining(T.Inp(), bw, x1.pos)
    decreases b, 4, 0, 0, 0
  {
    hide Ok, M, E.Matches, ScanNode, NodeOk, DeadUnset, Rel, NumGroups;
    var xr1 := x1.(caps := E.ResetCaps(x1.caps, cc, NumGroups(b)));
    var xr2 := if ScanNode(b, bw).init then x2.(slots := Reset(x2.slots, cc, NumGroups(b))) else x2;
    var ys1, ys2 := E.Matches(T.Inp(), b, bw, cc, xr1), M(T.env, b, bw, cc, xr2);
    RefineIteration(T, b, bw, cc, O, x1, x2);
    PosInside(T, O, x1, x2);
    forall i | 0 <= i < |ys1|
      ensures E.Forward(T.Inp(), bw, x1, ys1[i]) && E.Remaining(T.Inp(), bw, ys1[i].pos) < E.Remaining(T.Inp(), bw, x1.pos)
    {
      assert E.Forward(T.Inp(), bw, xr1, ys1[i]) && Out(T, O, cc, NumGroups(b), x1, x2, ys1[i], ys2[i]);
      Simulation.Advances(T.env, b, bw, cc, xr2, i);
      SamePos(T, O, x1, x2, ys1[i], ys2[i]);
    }
  }

  /** When every iteration moves, a bound of as many iterations as there are characters left is as
      good as none. */
  lemma {:induction false} RepeatMoving(T: Text, b: Node, bw: bool, cc: nat, O: set<nat>, greedy: bool, min: nat, max: nat,
                                        x1: E.State, x2: St)
    requires RepPre(T, b, bw, cc, O, x1, x2) && !ScanNode(b, bw).adv
    requires max >= min && max >= E.Remaining(T.Inp(), bw, x1.pos)
    ensures E.Repeat(T.Inp(), b, bw, cc, greedy, min, -1, x1) == E.Repeat(T.Inp(), b, bw, cc, greedy, min, max, x1)
    decreases b, 5, max, 0, 0
  {
    hide Ok, M, E.Matches, ScanNode, NodeOk, DeadUnset, E.Repeat, E.RepeatEach, E.Concat, Rel, NumGroups, RepPre, RelAll, Out;
    var xr1 := x1.(caps := E.ResetCaps(x1.caps, cc, NumGroups(b)));
    var xr2 := if ScanNode(b, bw).init then x2.(slots := Reset(x2.slots, cc, NumGroups(b))) else x2;
    var ys1, ys2 := E.Matches(T.Inp(), b, bw, cc, xr1), M(T.env, b, bw, cc, xr2);
    RefineIteration(T, b, bw, cc, O, x1, x2);
    IterationMoves(T, b, bw, cc, O, x1, x2);
    RelEach(T, O, cc, NumGroups(b), x1, x2, ys1, ys2);
    var r1 := E.RepeatEach(T.Inp(), b, bw, cc, greedy, min, -1, x1, ys1);
    var r2 := E.RepeatEach(T.Inp(), b, bw, cc, greedy, min, max, x1, ys1);
    assert ys1 != [] ==> E.Remaining(T.Inp(), bw, ys1[0].pos) < E.Remaining(T.Inp(), bw, x1.pos);
    if max == 0 {
      ConcatEmpty(r1);
    } else {
      forall i | 0 <= i < |ys1| ensures r1[i] == r2[i] {
        RepeatMoving(T, b, bw, cc, O, greedy, if min == 0 then 0 else min - 1, max - 1, ys1[i], ys2[i]);
      }
      assert r1 == r2;
    }
    RepeatIs(T.Inp(), b, bw, cc, greedy, min, -1, x1);
    RepeatIs(T.Inp(), b, bw, cc, greedy, min, max, x1);
  }

  /** On unset captures a reset does nothing. */
  lemma ResetClean(T: Text, O: set<nat>, lo: nat, g: nat, x1: E.State, x2: St)
    requires Rel(T, O, x1, x2) && Clean(O, lo, g, x1)
    ensures Reset(x2.slots, lo, g) == x2.slots
    ensures forall i :: 0 <= i < |x2.slots| && lo <= i / 2 < lo + g ==> x2.slots[i] == NULL
  {
    forall i | 0 <= i < |x2.slots| && lo <= i / 2 < lo + g ensures x2.slots[i] == NULL {
      var k := i / 2;
      assert RelCap(T, k in O, x1.caps[k], x2.slots[2 * k], x2.slots[2 * k + 1]);
      assert i == 2 * k || i == 2 * k + 1;
    }
    forall i | 0 <= i < |x2.slots| ensures Reset(x2.slots, lo, g)[i] == x2.slots[i] {
      assert lo <= i / 2 < lo + g <==> 2 * lo <= i < 2 * (lo + g);
    }
  }

  lemma RefineQuant(T: Text, n: Node, bw: bool, cc: nat, O: set<nat>, x1: E.State, x2: St)
    requires n.Quant? && Pre(T, n, bw, cc, O, x1, x2)
    ensures Post(T, n, bw, cc, O, x1, x2)
    decreases n, 1, 0, 0, 0
  {
    hide Ok, E.Repeat, Rep, ScanNode, RelAll, Rel, NumGroups;
    var b := n.body;
    assert NumGroups(n) == NumGroups(b) by { GroupsOfQuant(n); }
    ResetClean(T, O, cc, NumGroups(b), x1, x2);
    GroupsOfQuant(n);
    QuantIs(T, n, bw, cc, x1, x2);
    RelShape(T, O, x1, x2);
    if n.max == 0 {
      FrameSelf(cc, NumGroups(b), x1, x2);
      RelOne(T, O, cc, NumGroups(b), x1, x2);
    } else {
      RefineRep(T, b, bw, cc, O, n.greedy, n.min, EffMax(n, bw), x1, x2);
      if Counted(n, bw) {
        PosInside(T, O, x1, x2);
        if ScanNode(b, bw).adv {
          RepeatBounded(T.Inp(), b, bw, cc, n.greedy, n.min, INT32_MAX, x1);
        } else {
          RepeatMoving(T, b, bw, cc, O, n.greedy, n.min, INT32_MAX, x1, x2);
        }
      }
    }
  }

  lemma GroupsOfQuant(n: Node)
    requires n.Quant?
    ensures NumGroups(n) == NumGroups(n.body)
  {
  }

  lemma RelOne(T: Text, O: set<nat>, lo: nat, g: nat, x1: E.State, x2: St)
    requires Rel(T, O, x1, x2) && Frame(lo, g, x1, x2, x1, x2)
    ensures RelAll(T, O, lo, g, x1, x2, [x1], [x2])
  {
  }

  lemma PosInside(T: Text, O: set<nat>, x1: E.State, x2: St)
    requires Ok(T) && Rel(T, O, x1, x2)
    ensures x1.pos <= |T.chars|
  {
  }

  lemma QuantIs(T: Text, n: Node, bw: bool, cc: nat, x1: E.State, x2: St)
    requires n.Quant? && Reset(x2.slots, cc, NumGroups(n.body)) == x2.slots
    ensures E.Matches(T.Inp(), n, bw, cc, x1) == E.Repeat(T.Inp(), n.body, bw, cc, n.greedy, n.min, E.Bound(n.max), x1)
    ensures n.max == 0 ==> E.Matches(T.Inp(), n, bw, cc, x1) == [x1]
    ensures M(T.env, n, bw, cc, x2) ==
      if n.max == 0 then [x2]
      else Rep(T.env, n.body, bw, cc, ScanNode(n.body, bw).init, n.greedy, n.min, EffMax(n, bw), x2)
  {
    hide Rep, ScanNode, E.Again;
  }
}
