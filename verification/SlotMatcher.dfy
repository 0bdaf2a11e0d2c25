/**
 What a compiled node does, as the ordered list of all the states in which it can finish. A
 state holds a code-unit position and two slots per group; slots are reset exactly where the
 compiler emits a save_reset.
 */
module SlotMatcher {
  import opened RegexpPattern

  const NULL: int := -1

  datatype St = St(pos: nat, slots: seq<int>)

  function Flat(rr: seq<seq<St>>): seq<St> {
    if rr == [] then [] else rr[0] + Flat(rr[1..])
  }

  function SetSlot(slots: seq<int>, i: nat, v: int): (r: seq<int>)
    ensures |r| == |slots|
  {
    if i < |slots| then slots[i := v] else slots
  }

  /** save_reset lo .. lo + n - 1. */
  function Reset(slots: seq<int>, lo: nat, n: nat): (r: seq<int>)
    ensures |r| == |slots|
    ensures forall i :: 0 <= i < |slots| ==> r[i] == if 2 * lo <= i < 2 * (lo + n) then NULL else slots[i]
    decreases n
  {
    if n == 0 then slots else Reset(SetSlot(SetSlot(slots, 2 * lo, NULL), 2 * lo + 1, NULL), lo + 1, n - 1)
  }

  /** Compares the captured units [s, e) with the input at pos, character by character. */
  function MatchForward(env: Env, icase: bool, s: int, e: int, pos: nat): (r: int)
    ensures r != NULL ==> pos <= r && (pos < r ==> r <= |env.units|)
    ensures r != NULL && Boundary(env, pos) ==> Boundary(env, r)
    decreases e - s
  {
    if !(0 <= s < e <= |env.units|) then pos
    else if pos >= |env.units| then NULL
    else
      var c1 := CharAt(env, s, e);
      var c2 := CharAt(env, pos, |env.units|);
      if (if icase then env.canon(c1) != env.canon(c2) else c1 != c2) then NULL
      else MatchForward(env, icase, s + CharLen(env, s, e), e, pos + CharLen(env, pos, |env.units|))
  }

  function MatchBackward(env: Env, icase: bool, s: int, e: int, pos: nat): (r: int)
    ensures r != NULL ==> 0 <= r <= pos
    ensures r != NULL && Boundary(env, pos) ==> Boundary(env, r)
    decreases e - s
  {
    if !(0 <= s < e <= |env.units|) then pos
    else if pos == 0 || pos > |env.units| then NULL
    else
      var c1 := PrevChar(env, e, s);
      var c2 := PrevChar(env, pos, 0);
      if (if icase then env.canon(c1) != env.canon(c2) else c1 != c2) then NULL
      else MatchBackward(env, icase, s, e - PrevLen(env, e, s), pos - PrevLen(env, pos, 0))
  }

  /** Position after a back reference: the first index whose two slots are set decides. */
  function BackRefPos(env: Env, bw: bool, icase: bool, idxs: seq<int>, slots: seq<int>, pos: nat): (r: int)
    ensures r != NULL ==> if bw then 0 <= r <= pos else pos <= r && (pos < r ==> r <= |env.units|)
    ensures r != NULL && Boundary(env, pos) ==> Boundary(env, r)
  {
    if idxs == [] then pos
    else
      var k := idxs[0];
      if !(0 <= k && 2 * k + 1 < |slots|) then NULL
      else if slots[2 * k] != NULL && slots[2 * k + 1] != NULL then
        if bw then MatchBackward(env, icase, slots[2 * k], slots[2 * k + 1], pos)
        else MatchForward(env, icase, slots[2 * k], slots[2 * k + 1], pos)
      else BackRefPos(env, bw, icase, idxs[1..], slots, pos)
  }

  /** y can be reached from x by moving in direction bw. */
  predicate Moves(env: Env, bw: bool, x: St, y: St) {
    && |y.slots| == |x.slots|
    && (Boundary(env, x.pos) ==> Boundary(env, y.pos))
    && if bw then y.pos <= x.pos else x.pos <= y.pos && (x.pos < y.pos ==> y.pos <= |env.units|)
  }

  predicate AllMove(env: Env, bw: bool, x: St, ys: seq<St>) {
    forall i :: 0 <= i < |ys| ==> Moves(env, bw, x, ys[i])
  }

  lemma MoveTrans(env: Env, bw: bool, x: St, y: St, zs: seq<St>)
    requires Moves(env, bw, x, y) && AllMove(env, bw, y, zs)
    ensures AllMove(env, bw, x, zs)
  {
  }

  /** The iteration bound the code for a quantifier enforces; negative when it has none. */
  function EffMax(n: Node, bw: bool): int
    requires n.Quant?
  {
    if n.max == INT32_MAX && (n.min == 0 || (n.min == 1 && !ScanNode(n.body, bw).adv)) then -1 else n.max
  }

  function Pred(max: int): int { if max < 0 then max else max - 1 }

  function M(env: Env, n: Node, bw: bool, cc: nat, x: St): (ys: seq<St>)
    ensures AllMove(env, bw, x, ys)
    decreases n, 0, 0, 0, 0, 0
  {
    match n
    case Empty => [x]
    case Chr(cs) =>
      if bw then
        if 0 < x.pos <= |env.units| && Accepts(env, cs, PrevChar(env, x.pos, 0))
        then [x.(pos := x.pos - PrevLen(env, x.pos, 0))] else []
      else
        if x.pos < |env.units| && Accepts(env, cs, CharAt(env, x.pos, |env.units|))
        then [x.(pos := x.pos + CharLen(env, x.pos, |env.units|))] else []
    case Assert(a) => if x.pos <= |env.units| && Holds(env, a, x.pos) then [x] else []
    case Cat(l, r) =>
      if bw then
        Flat(MMap(env, l, bw, cc, x, M(env, r, bw, cc + NumGroups(l), x)))
      else
        Flat(MMap(env, r, bw, cc + NumGroups(l), x, M(env, l, bw, cc, x)))
    case Alt(l, r) => M(env, l, bw, cc, x) + M(env, r, bw, cc + NumGroups(l), x)
    case Group(b) =>
      SetAll(env, bw, x, 2 * cc + (if bw then 0 else 1),
        M(env, b, bw, cc + 1, x.(slots := SetSlot(x.slots, 2 * cc + (if bw then 1 else 0), x.pos))))
    case BackRef(idxs, icase) =>
      var p := BackRefPos(env, bw, icase, idxs, x.slots, x.pos);
      if p == NULL then [] else [x.(pos := p)]
    case Quant(b, min, max, greedy) =>
      var init := ScanNode(b, bw).init;
      var x0 := if min == 0 && !init then x.(slots := Reset(x.slots, cc, NumGroups(b))) else x;
      if max == 0 then [x0] else Rep(env, b, bw, cc, init, greedy, min, EffMax(n, bw), x0)
    case Look(behind, neg, b) =>
      var ys := M(env, b, behind, cc, x);
      if neg then (if ys == [] then [x] else [])
      else (if ys == [] then [] else [x.(slots := ys[0].slots)])
  }

  /** M of every state of xs, all of which were reached from x. */
  function MMap(env: Env, n: Node, bw: bool, cc: nat, ghost x: St, xs: seq<St>): (rr: seq<seq<St>>)
    requires AllMove(env, bw, x, xs)
    ensures |rr| == |xs|
    ensures forall i :: 0 <= i < |rr| ==> rr[i] == M(env, n, bw, cc, xs[i])
    ensures AllMove(env, bw, x, Flat(rr))
    decreases n, 1, 0, 0, 0, |xs|
  {
    if xs == [] then [] else
      MoveTrans(env, bw, x, xs[0], M(env, n, bw, cc, xs[0]));
      assert AllMove(env, bw, x, xs[1..]);
      var rest := MMap(env, n, bw, cc, x, xs[1..]);
      var rr := [M(env, n, bw, cc, xs[0])] + rest;
      assert rr[1..] == rest;
      rr
  }

  function SetAll(env: Env, bw: bool, ghost x: St, i: nat, ys: seq<St>): (r: seq<St>)
    requires AllMove(env, bw, x, ys)
    ensures AllMove(env, bw, x, r)
    ensures |r| == |ys|
    ensures forall k :: 0 <= k < |ys| ==> r[k] == ys[k].(slots := SetSlot(ys[k].slots, i, ys[k].pos))
  {
    if ys == [] then [] else
      var head := ys[0].(slots := SetSlot(ys[0].slots, i, ys[0].pos));
      var rest := SetAll(env, bw, x, i, ys[1..]);
      assert Moves(env, bw, x, ys[0]);
      [head] + rest
  }

  /** One or more iterations of b from x, the first of which is mandatory. */
  function Iter(env: Env, b: Node, bw: bool, cc: nat, init: bool, greedy: bool, min: nat, max: int, x: St): (ys: seq<St>)
    ensures AllMove(env, bw, x, ys)
    decreases b, 2, min, Rem(env, bw, x.pos), 1, 0
  {
    var xr := if init then x.(slots := Reset(x.slots, cc, NumGroups(b))) else x;
    Flat(RepMap(env, b, bw, cc, init, greedy, min, max, x, M(env, b, bw, cc, xr)))
  }

  function Rep(env: Env, b: Node, bw: bool, cc: nat, init: bool, greedy: bool, min: nat, max: int, x: St): (ys: seq<St>)
    ensures AllMove(env, bw, x, ys)
    decreases b, 2, min, Rem(env, bw, x.pos), 2, 0
  {
    if max == 0 then [x]
    else
      var ys := Iter(env, b, bw, cc, init, greedy, min, max, x);
      if min > 0 then ys else if greedy then ys + [x] else [x] + ys
  }

  function RepMap(env: Env, b: Node, bw: bool, cc: nat, init: bool, greedy: bool, min: nat, max: int,
                  x: St, ys: seq<St>): (rr: seq<seq<St>>)
    requires AllMove(env, bw, x, ys)
    ensures |rr| == |ys|
    ensures forall i :: 0 <= i < |rr| ==>
      rr[i] == if min == 0 && ys[i].pos == x.pos then []
               else Rep(env, b, bw, cc, init, greedy, if min == 0 then 0 else min - 1, Pred(max), ys[i])
    ensures AllMove(env, bw, x, Flat(rr))
    decreases b, 2, min, Rem(env, bw, x.pos), 0, |ys|
  {
    if ys == [] then [] else
      assert Moves(env, bw, x, ys[0]);
      assert AllMove(env, bw, x, ys[1..]);
      var head := if min == 0 && ys[0].pos == x.pos then []
                  else Rep(env, b, bw, cc, init, greedy, if min == 0 then 0 else min - 1, Pred(max), ys[0]);
      assert AllMove(env, bw, x, head) by {
        if !(min == 0 && ys[0].pos == x.pos) { MoveTrans(env, bw, x, ys[0], head); }
      }
      var rest := RepMap(env, b, bw, cc, init, greedy, min, max, x, ys[1..]);
      var rr := [head] + rest;
      assert rr[1..] == rest;
      rr
  }

  // ----- unfolding equations ------------------------------------------------------------------------

  lemma MatchCat(env: Env, n: Node, bw: bool, cc: nat, x: St)
    requires n.Cat?
    ensures var cr := cc + NumGroups(n.l);
      M(env, n, bw, cc, x) ==
      if bw then Flat(MMap(env, n.l, bw, cc, x, M(env, n.r, bw, cr, x)))
      else Flat(MMap(env, n.r, bw, cr, x, M(env, n.l, bw, cc, x)))
  {
    hide MMap, Flat;
  }

  lemma MatchAlt(env: Env, n: Node, bw: bool, cc: nat, x: St)
    requires n.Alt?
    ensures M(env, n, bw, cc, x) == M(env, n.l, bw, cc, x) + M(env, n.r, bw, cc + NumGroups(n.l), x)
  {
  }

  lemma MatchGroup(env: Env, n: Node, bw: bool, cc: nat, x: St)
    requires n.Group?
    ensures var x1 := x.(slots := SetSlot(x.slots, 2 * cc + (if bw then 1 else 0), x.pos));
      var ys, zs := M(env, n.body, bw, cc + 1, x1), M(env, n, bw, cc, x);
      |zs| == |ys| && forall k :: 0 <= k < |ys| ==>
        zs[k] == ys[k].(slots := SetSlot(ys[k].slots, 2 * cc + (if bw then 0 else 1), ys[k].pos))
  {
  }

  lemma MatchLook(env: Env, n: Node, bw: bool, cc: nat, x: St)
    requires n.Look?
    ensures var ys := M(env, n.body, n.behind, cc, x);
      M(env, n, bw, cc, x) ==
      if n.neg then (if ys == [] then [x] else [])
      else (if ys == [] then [] else [x.(slots := ys[0].slots)])
  {
  }
}
