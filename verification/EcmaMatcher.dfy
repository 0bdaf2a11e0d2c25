/**
 The meaning of patterns after section 22.2.2 of ECMA-262 (Pattern Semantics), on an input of
 characters. Match is the continuation-passing matcher of the standard; Matches lists all the
 end states it tries, in the order in which it tries them.
 */
module EcmaMatcher {
  import opened RegexpPattern

  datatype Capture = Undefined | Span(from: nat, to: nat)

  /** A MatchState: end index and captures. */
  datatype State = State(pos: nat, caps: seq<Capture>)

  /** The input characters; env supplies Canonicalize and the white-space set. */
  datatype Input = Input(env: Env, chars: seq<int>)

  type Result = r: seq<State> | |r| <= 1 witness []

  // ----- atoms and assertions -------------------------------------------------------------------------

  predicate HoldsAt(inp: Input, a: Assertion, pos: nat) {
    match a
    case LineStart(multi) => pos == 0 || (multi && pos <= |inp.chars| && IsLineTerminator(inp.chars[pos - 1]))
    case LineEnd(multi) => pos >= |inp.chars| || (multi && IsLineTerminator(inp.chars[pos]))
    case WordBoundary(neg, icase) =>
      var v1 := 0 < pos <= |inp.chars| && IsWordChar(inp.chars[pos - 1], icase);
      var v2 := pos < |inp.chars| && IsWordChar(inp.chars[pos], icase);
      (v1 != v2) != neg
  }

  /** CharacterSetMatcher: the states after one character. */
  function Step(inp: Input, cs: CharSet, bw: bool, x: State): Result {
    if bw then
      if 0 < x.pos <= |inp.chars| && Accepts(inp.env, cs, inp.chars[x.pos - 1]) then [x.(pos := x.pos - 1)] else []
    else
      if x.pos < |inp.chars| && Accepts(inp.env, cs, inp.chars[x.pos]) then [x.(pos := x.pos + 1)] else []
  }

  function Fold(inp: Input, icase: bool, c: int): int { if icase then inp.env.canon(c) else c }

  predicate SameChars(inp: Input, icase: bool, p: nat, q: nat, len: nat)
    requires p + len <= |inp.chars| && q + len <= |inp.chars|
  {
    forall i :: p <= i < p + len ==> Fold(inp, icase, inp.chars[i]) == Fold(inp, icase, inp.chars[i - p + q])
  }

  /** The capture a back reference refers to: the first defined one. */
  function Referent(idxs: seq<nat>, caps: seq<Capture>): Capture {
    if idxs == [] then Undefined
    else if idxs[0] < |caps| && caps[idxs[0]].Span? then caps[idxs[0]]
    else Referent(idxs[1..], caps)
  }

  /** BackreferenceMatcher. */
  function BackStep(inp: Input, idxs: seq<nat>, icase: bool, bw: bool, x: State): Result {
    match Referent(idxs, x.caps)
    case Undefined => [x]
    case Span(rs, re) =>
      if re < rs then [] else
      var len := re - rs;
      var f := if bw then x.pos - len else x.pos + len;
      if f < 0 || f > |inp.chars| || x.pos > |inp.chars| || re > |inp.chars| then []
      else if SameChars(inp, icase, rs, if bw then f else x.pos, len) then [x.(pos := f)]
      else []
  }

  function ResetCaps(caps: seq<Capture>, lo: nat, n: nat): (r: seq<Capture>)
    ensures |r| == |caps|
    ensures forall k :: 0 <= k < |caps| ==> r[k] == if lo <= k < lo + n then Undefined else caps[k]
  {
    seq(|caps|, k requires 0 <= k < |caps| => if lo <= k < lo + n then Undefined else caps[k])
  }

  function SetCap(caps: seq<Capture>, k: nat, c: Capture): (r: seq<Capture>)
    ensures |r| == |caps|
  {
    if k < |caps| then caps[k := c] else caps
  }

  /** The capture of a group entered at x and left at y. */
  function Spanned(bw: bool, x: State, y: State): Capture {
    if bw then Span(y.pos, x.pos) else Span(x.pos, y.pos)
  }

  function Remaining(inp: Input, bw: bool, pos: nat): nat {
    if bw then pos else if pos <= |inp.chars| then |inp.chars| - pos else 0
  }

  /** The quantifier bound of the standard; negative for infinity. */
  function Bound(max: nat): int { if max == INT32_MAX then -1 else max }

  function Pred(max: int): int { if max < 0 then max else max - 1 }

  // ----- all outcomes, in order -----------------------------------------------------------------------

  predicate Forward(inp: Input, bw: bool, x: State, y: State) {
    && |y.caps| == |x.caps|
    && if bw then y.pos <= x.pos else x.pos <= y.pos && (x.pos < y.pos ==> y.pos <= |inp.chars|)
  }

  predicate AllForward(inp: Input, bw: bool, x: State, ys: seq<State>) {
    forall i :: 0 <= i < |ys| ==> Forward(inp, bw, x, ys[i])
  }

  function Concat(rr: seq<seq<State>>): seq<State> {
    if rr == [] then [] else rr[0] + Concat(rr[1..])
  }

  lemma ForwardTrans(inp: Input, bw: bool, x: State, y: State, zs: seq<State>)
    requires Forward(inp, bw, x, y) && AllForward(inp, bw, y, zs)
    ensures AllForward(inp, bw, x, zs)
  {
  }

  function Matches(inp: Input, n: Node, bw: bool, cc: nat, x: State): (ys: seq<State>)
    ensures AllForward(inp, bw, x, ys)
    decreases n, 0, 0, 0, 0, 0
  {
    match n
    case Empty => [x]
    case Chr(cs) => Step(inp, cs, bw, x)
    case Assert(a) => if HoldsAt(inp, a, x.pos) then [x] else []
    case Cat(l, r) =>
      if bw then Concat(MatchesEach(inp, l, bw, cc, x, Matches(inp, r, bw, cc + NumGroups(l), x)))
      else Concat(MatchesEach(inp, r, bw, cc + NumGroups(l), x, Matches(inp, l, bw, cc, x)))
    case Alt(l, r) => Matches(inp, l, bw, cc, x) + Matches(inp, r, bw, cc + NumGroups(l), x)
    case Group(b) => Close(inp, bw, cc, x, Matches(inp, b, bw, cc + 1, x))
    case BackRef(idxs, icase) => BackStep(inp, idxs, icase, bw, x)
    case Quant(b, min, max, greedy) => Repeat(inp, b, bw, cc, greedy, min, Bound(max), x)
    case Look(behind, neg, b) =>
      var ys := Matches(inp, b, behind, cc, x);
      if neg then (if ys == [] then [x] else [])
      else (if ys == [] then [] else [x.(caps := ys[0].caps)])
  }

  function MatchesEach(inp: Input, n: Node, bw: bool, cc: nat, ghost x: State, xs: seq<State>): (rr: seq<seq<State>>)
    requires AllForward(inp, bw, x, xs)
    ensures |rr| == |xs|
    ensures forall i :: 0 <= i < |rr| ==> rr[i] == Matches(inp, n, bw, cc, xs[i])
    ensures AllForward(inp, bw, x, Concat(rr))
    decreases n, 1, 0, 0, 0, |xs|
  {
    if xs == [] then [] else
      ForwardTrans(inp, bw, x, xs[0], Matches(inp, n, bw, cc, xs[0]));
      assert AllForward(inp, bw, x, xs[1..]);
      var rest := MatchesEach(inp, n, bw, cc, x, xs[1..]);
      var rr := [Matches(inp, n, bw, cc, xs[0])] + rest;
      assert rr[1..] == rest;
      rr
  }

  function Close(inp: Input, bw: bool, k: nat, x: State, ys: seq<State>): (r: seq<State>)
    requires AllForward(inp, bw, x, ys)
    ensures |r| == |ys| && AllForward(inp, bw, x, r)
    ensures forall i :: 0 <= i < |ys| ==> r[i] == ys[i].(caps := SetCap(ys[i].caps, k, Spanned(bw, x, ys[i])))
  {
    if ys == [] then [] else
      var head := ys[0].(caps := SetCap(ys[0].caps, k, Spanned(bw, x, ys[0])));
      assert Forward(inp, bw, x, ys[0]);
      [head] + Close(inp, bw, k, x, ys[1..])
  }

  /** RepeatMatcher (section 22.2.2.3.1). */
  function Repeat(inp: Input, b: Node, bw: bool, cc: nat, greedy: bool, min: nat, max: int, x: State): (ys: seq<State>)
    ensures AllForward(inp, bw, x, ys)
    decreases b, 2, min, Remaining(inp, bw, x.pos), 2, 0
  {
    if max == 0 then [x]
    else
      var ys := Again(inp, b, bw, cc, greedy, min, max, x);
      if min > 0 then ys else if greedy then ys + [x] else [x] + ys
  }

  /** Its continuation d: an iteration from x, then the rest. */
  function Again(inp: Input, b: Node, bw: bool, cc: nat, greedy: bool, min: nat, max: int, x: State): (ys: seq<State>)
    ensures AllForward(inp, bw, x, ys)
    decreases b, 2, min, Remaining(inp, bw, x.pos), 1, 0
  {
    var xr := x.(caps := ResetCaps(x.caps, cc, NumGroups(b)));
    Concat(RepeatEach(inp, b, bw, cc, greedy, min, max, x, Matches(inp, b, bw, cc, xr)))
  }

  function RepeatEach(inp: Input, b: Node, bw: bool, cc: nat, greedy: bool, min: nat, max: int,
                      x: State, ys: seq<State>): (rr: seq<seq<State>>)
    requires AllForward(inp, bw, x, ys)
    ensures |rr| == |ys|
    ensures forall i :: 0 <= i < |rr| ==>
      rr[i] == if min == 0 && ys[i].pos == x.pos then []
               else Repeat(inp, b, bw, cc, greedy, if min == 0 then 0 else min - 1, Pred(max), ys[i])
    ensures AllForward(inp, bw, x, Concat(rr))
    decreases b, 2, min, Remaining(inp, bw, x.pos), 0, |ys|
  {
    if ys == [] then [] else
      assert Forward(inp, bw, x, ys[0]);
      assert AllForward(inp, bw, x, ys[1..]);
      var head := if min == 0 && ys[0].pos == x.pos then []
                  else Repeat(inp, b, bw, cc, greedy, if min == 0 then 0 else min - 1, Pred(max), ys[0]);
      assert AllForward(inp, bw, x, head) by {
        if !(min == 0 && ys[0].pos == x.pos) { ForwardTrans(inp, bw, x, ys[0], head); }
      }
      var rest := RepeatEach(inp, b, bw, cc, greedy, min, max, x, ys[1..]);
      var rr := [head] + rest;
      assert rr[1..] == rest;
      rr
  }

  // ----- the matcher of the standard ------------------------------------------------------------------

  /** The Matcher that CompileSubpattern returns for n, applied to x and the continuation c; the
      empty result is failure. */
  function Match(inp: Input, n: Node, bw: bool, cc: nat, x: State, c: State -> Result): Result
    decreases n, 0, 0, 0
  {
    match n
    case Empty => c(x)
    case Chr(cs) => var y := Step(inp, cs, bw, x); if y == [] then [] else c(y[0])
    case Assert(a) => if HoldsAt(inp, a, x.pos) then c(x) else []
    case Cat(l, r) =>
      var cr := cc + NumGroups(l);
      if bw then Match(inp, r, bw, cr, x, y => Match(inp, l, bw, cc, y, c))
      else Match(inp, l, bw, cc, x, y => Match(inp, r, bw, cr, y, c))
    case Alt(l, r) =>
      var z := Match(inp, l, bw, cc, x, c);
      if z != [] then z else Match(inp, r, bw, cc + NumGroups(l), x, c)
    case Group(b) =>
      Match(inp, b, bw, cc + 1, x, (y: State) => c(y.(caps := SetCap(y.caps, cc, Spanned(bw, x, y)))))
    case BackRef(idxs, icase) => var y := BackStep(inp, idxs, icase, bw, x); if y == [] then [] else c(y[0])
    case Quant(b, min, max, greedy) => RepeatMatcher(inp, b, bw, cc, greedy, min, Bound(max), x, c)
    case Look(behind, neg, b) =>
      var r := Match(inp, b, behind, cc, x, y => [y]);
      if neg then (if r == [] then c(x) else [])
      else (if r == [] then [] else c(x.(caps := r[0].caps)))
  }

  /** RepeatMatcher (section 22.2.2.3.1). The standard rejects an optional iteration that ends where
      it began; no iteration ends further back, so the test here also rejects those. */
  function RepeatMatcher(inp: Input, b: Node, bw: bool, cc: nat, greedy: bool, min: nat, max: int,
                         x: State, c: State -> Result): Result
    decreases b, 1, min, Remaining(inp, bw, x.pos)
  {
    if max == 0 then c(x)
    else
      var d := (y: State) =>
        if min == 0 && Remaining(inp, bw, y.pos) >= Remaining(inp, bw, x.pos) then []
        else RepeatMatcher(inp, b, bw, cc, greedy, if min == 0 then 0 else min - 1, Pred(max), y, c);
      var xr := x.(caps := ResetCaps(x.caps, cc, NumGroups(b)));
      if min > 0 then Match(inp, b, bw, cc, xr, d)
      else if greedy then
        var z := Match(inp, b, bw, cc, xr, d); if z != [] then z else c(x)
      else
        var z := c(x); if z != [] then z else Match(inp, b, bw, cc, xr, d)
  }

  /** The first outcome that the continuation accepts. */
  function First(ys: seq<State>, c: State -> Result): Result {
    if ys == [] then [] else
      var z := c(ys[0]); if z != [] then z else First(ys[1..], c)
  }

  lemma {:induction false} FirstAppend(a: seq<State>, b: seq<State>, c: State -> Result)
    ensures First(a + b, c) == if First(a, c) != [] then First(a, c) else First(b, c)
    decreases a
  {
    if a == [] {
      assert a + b == b;
    } else {
      assert (a + b)[1..] == a[1..] + b;
      FirstAppend(a[1..], b, c);
    }
  }

  lemma {:induction false} FirstConcat(ys: seq<State>, rr: seq<seq<State>>, k: State -> Result, c: State -> Result)
    requires |rr| == |ys| && forall i :: 0 <= i < |ys| ==> k(ys[i]) == First(rr[i], c)
    ensures First(ys, k) == First(Concat(rr), c)
    decreases ys
  {
    if ys != [] {
      FirstConcat(ys[1..], rr[1..], k, c);
      FirstAppend(rr[0], Concat(rr[1..]), c);
    }
  }

  lemma {:induction false} FirstSame(ys: seq<State>, zs: seq<State>, k: State -> Result, c: State -> Result)
    requires |zs| == |ys| && forall i :: 0 <= i < |ys| ==> k(ys[i]) == c(zs[i])
    ensures First(ys, k) == First(zs, c)
    decreases ys
  {
    if ys != [] { FirstSame(ys[1..], zs[1..], k, c); }
  }

  lemma {:induction false} FirstOne(x: State, c: State -> Result)
    ensures First([x], c) == c(x)
  {
    assert First([], c) == [];
  }

  /** The matcher of the standard succeeds with the first of the listed outcomes that its
      continuation accepts, and fails when there is none. */
  lemma {:induction false} MatchIsFirst(inp: Input, n: Node, bw: bool, cc: nat, x: State, c: State -> Result)
    ensures Match(inp, n, bw, cc, x, c) == First(Matches(inp, n, bw, cc, x), c)
    decreases n, 0, 0, 1
  {
    match n
    case Empty => FirstOne(x, c);
    case Chr(cs) => var y := Step(inp, cs, bw, x); if y != [] { FirstOne(y[0], c); }
    case Assert(_) => FirstOne(x, c);
    case Cat(_, _) => CatIsFirst(inp, n, bw, cc, x, c);
    case Alt(_, _) => AltIsFirst(inp, n, bw, cc, x, c);
    case Group(_) => GroupIsFirst(inp, n, bw, cc, x, c);
    case BackRef(idxs, icase) => var y := BackStep(inp, idxs, icase, bw, x); if y != [] { FirstOne(y[0], c); }
    case Quant(b, min, max, greedy) => RepeatIsFirst(inp, b, bw, cc, greedy, min, Bound(max), x, c);
    case Look(_, _, _) => LookIsFirst(inp, n, bw, cc, x, c);
  }

  lemma CatIsFirst(inp: Input, n: Node, bw: bool, cc: nat, x: State, c: State -> Result)
    requires n.Cat?
    ensures Match(inp, n, bw, cc, x, c) == First(Matches(inp, n, bw, cc, x), c)
    decreases n, 0, 0, 0
  {
    var cr := cc + NumGroups(n.l);
    var (n1, n2) := if bw then (n.r, n.l) else (n.l, n.r);
    var (c1, c2) := if bw then (cr, cc) else (cc, cr);
    var ys := Matches(inp, n1, bw, c1, x);
    var rr := MatchesEach(inp, n2, bw, c2, x, ys);
    var k := y => Match(inp, n2, bw, c2, y, c);
    assert Match(inp, n, bw, cc, x, c) == Match(inp, n1, bw, c1, x, k);
    assert Matches(inp, n, bw, cc, x) == Concat(rr);
    hide Match, Matches, MatchesEach, Concat;
    MatchIsFirst(inp, n1, bw, c1, x, k);
    forall i | 0 <= i < |ys| ensures k(ys[i]) == First(rr[i], c) {
      MatchIsFirst(inp, n2, bw, c2, ys[i], c);
    }
    FirstConcat(ys, rr, k, c);
  }

  lemma AltIsFirst(inp: Input, n: Node, bw: bool, cc: nat, x: State, c: State -> Result)
    requires n.Alt?
    ensures Match(inp, n, bw, cc, x, c) == First(Matches(inp, n, bw, cc, x), c)
    decreases n, 0, 0, 0
  {
    MatchIsFirst(inp, n.l, bw, cc, x, c);
    MatchIsFirst(inp, n.r, bw, cc + NumGroups(n.l), x, c);
    FirstAppend(Matches(inp, n.l, bw, cc, x), Matches(inp, n.r, bw, cc + NumGroups(n.l), x), c);
  }

  lemma GroupIsFirst(inp: Input, n: Node, bw: bool, cc: nat, x: State, c: State -> Result)
    requires n.Group?
    ensures Match(inp, n, bw, cc, x, c) == First(Matches(inp, n, bw, cc, x), c)
    decreases n, 0, 0, 0
  {
    var k := (y: State) => c(y.(caps := SetCap(y.caps, cc, Spanned(bw, x, y))));
    MatchIsFirst(inp, n.body, bw, cc + 1, x, k);
    var ys := Matches(inp, n.body, bw, cc + 1, x);
    FirstSame(ys, Close(inp, bw, cc, x, ys), k, c);
  }

  lemma LookIsFirst(inp: Input, n: Node, bw: bool, cc: nat, x: State, c: State -> Result)
    requires n.Look?
    ensures Match(inp, n, bw, cc, x, c) == First(Matches(inp, n, bw, cc, x), c)
    decreases n, 0, 0, 0
  {
    var ys := Matches(inp, n.body, n.behind, cc, x);
    MatchIsFirst(inp, n.body, n.behind, cc, x, y => [y]);
    if n.neg {
      if ys == [] { FirstOne(x, c); }
    } else {
      if ys != [] { FirstOne(x.(caps := ys[0].caps), c); }
    }
  }

  lemma {:induction false} RepeatIsFirst(inp: Input, b: Node, bw: bool, cc: nat, greedy: bool, min: nat, max: int,
                                         x: State, c: State -> Result)
    ensures RepeatMatcher(inp, b, bw, cc, greedy, min, max, x, c)
         == First(Repeat(inp, b, bw, cc, greedy, min, max, x), c)
    decreases b, 1, min, Remaining(inp, bw, x.pos)
  {
    FirstOne(x, c);
    if max != 0 {
      var d := (y: State) =>
        if min == 0 && Remaining(inp, bw, y.pos) >= Remaining(inp, bw, x.pos) then []
        else RepeatMatcher(inp, b, bw, cc, greedy, if min == 0 then 0 else min - 1, Pred(max), y, c);
      var xr := x.(caps := ResetCaps(x.caps, cc, NumGroups(b)));
      var ys := Matches(inp, b, bw, cc, xr);
      var rr := RepeatEach(inp, b, bw, cc, greedy, min, max, x, ys);
      MatchIsFirst(inp, b, bw, cc, xr, d);
      forall i | 0 <= i < |ys| ensures d(ys[i]) == First(rr[i], c) {
        assert Forward(inp, bw, xr, ys[i]);
        if !(min == 0 && ys[i].pos == x.pos) {
          RepeatIsFirst(inp, b, bw, cc, greedy, if min == 0 then 0 else min - 1, Pred(max), ys[i], c);
        }
      }
      FirstConcat(ys, rr, d, c);
      FirstAppend(Again(inp, b, bw, cc, greedy, min, max, x), [x], c);
      FirstAppend([x], Again(inp, b, bw, cc, greedy, min, max, x), c);
    }
  }

  // ----- unfolding equations ------------------------------------------------------------------------

  lemma MatchesCat(inp: Input, n: Node, bw: bool, cc: nat, x: State)
    requires n.Cat?
    ensures var cr := cc + NumGroups(n.l);
      Matches(inp, n, bw, cc, x) ==
      if bw then Concat(MatchesEach(inp, n.l, bw, cc, x, Matches(inp, n.r, bw, cr, x)))
      else Concat(MatchesEach(inp, n.r, bw, cr, x, Matches(inp, n.l, bw, cc, x)))
  {
    hide MatchesEach, Concat;
  }

  lemma MatchesAlt(inp: Input, n: Node, bw: bool, cc: nat, x: State)
    requires n.Alt?
    ensures Matches(inp, n, bw, cc, x) == Matches(inp, n.l, bw, cc, x) + Matches(inp, n.r, bw, cc + NumGroups(n.l), x)
  {
  }

  lemma MatchesGroup(inp: Input, n: Node, bw: bool, cc: nat, x: State)
    requires n.Group?
    ensures var ys, zs := Matches(inp, n.body, bw, cc + 1, x), Matches(inp, n, bw, cc, x);
      |zs| == |ys| && forall k :: 0 <= k < |ys| ==>
        zs[k] == ys[k].(caps := SetCap(ys[k].caps, cc, Spanned(bw, x, ys[k])))
  {
  }

  lemma MatchesLook(inp: Input, n: Node, bw: bool, cc: nat, x: State)
    requires n.Look?
    ensures var ys := Matches(inp, n.body, n.behind, cc, x);
      Matches(inp, n, bw, cc, x) ==
      if n.neg then (if ys == [] then [x] else []) else (if ys == [] then [] else [x.(caps := ys[0].caps)])
  {
  }
}
