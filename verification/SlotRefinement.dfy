/**
 The slot matcher refines the matcher of ECMA-262: character positions become code-unit
 offsets, a capture becomes two slots written one after the other, and the resets and checks
 that the compiler leaves out make no difference.
 */
module SlotRefinement {
  import opened RegexpPattern
  import E = EcmaMatcher
  import opened SlotMatcher

  // ----- characters of the input ----------------------------------------------------------------------

  /** The characters from unit position pos on: code points in UTF-16 mode, units otherwise. */
  function Chars(env: Env, pos: nat): seq<int>
    decreases |env.units| - pos
  {
    if pos >= |env.units| then [] else [CharAt(env, pos, |env.units|)] + Chars(env, pos + CharLen(env, pos, |env.units|))
  }

  /** Unit offset of every character, and of the end. */
  function Offsets(env: Env, pos: nat): (r: seq<nat>)
    ensures |r| >= 1 && r[0] == pos
    decreases |env.units| - pos
  {
    if pos >= |env.units| then [pos] else [pos] + Offsets(env, pos + CharLen(env, pos, |env.units|))
  }

  datatype Text = Text(env: Env, chars: seq<int>, off: seq<nat>) {
    function Inp(): E.Input { E.Input(env, chars) }
  }

  /** Character i of T occupies the units from off[i] to off[i + 1]. */
  ghost predicate OkAt(T: Text, i: nat)
    requires i + 1 < |T.off| && i < |T.chars|
  {
    && T.off[i] < |T.env.units| && T.off[i + 1] == T.off[i] + CharLen(T.env, T.off[i], |T.env.units|)
    && T.chars[i] == CharAt(T.env, T.off[i], |T.env.units|)
  }

  /** off maps character positions to unit positions, from pos to the end of the input. */
  ghost predicate OkFrom(T: Text, pos: nat) {
    && |T.off| == |T.chars| + 1 && T.off[0] == pos && T.off[|T.chars|] == |T.env.units|
    && (forall i :: 0 <= i < |T.chars| ==> OkAt(T, i))
    && (forall i :: 0 <= i < |T.off| ==> Boundary(T.env, T.off[i]))
    && Increasing(T.off)
  }

  ghost predicate Increasing(off: seq<nat>) { forall i, j :: 0 <= i < j < |off| ==> off[i] < off[j] }

  ghost predicate Ok(T: Text) { OkFrom(T, 0) }

  function TextFrom(env: Env, pos: nat): Text { Text(env, Chars(env, pos), Offsets(env, pos)) }

  function TextOf(env: Env): Text { TextFrom(env, 0) }

  lemma IncreasingCons(p: nat, off: seq<nat>)
    requires Increasing(off) && |off| > 0 && p < off[0]
    ensures Increasing([p] + off)
  {
    forall i, j | 0 <= i < j < |[p] + off| ensures ([p] + off)[i] < ([p] + off)[j] {
      assert off[0] <= off[j - 1];
    }
  }

  lemma {:induction false} OffsetsFrom(env: Env, pos: nat)
    requires pos <= |env.units| && Boundary(env, pos)
    ensures OkFrom(TextFrom(env, pos), pos)
    decreases |env.units| - pos
  {
    var T := TextFrom(env, pos);
    if pos < |env.units| {
      var next := pos + CharLen(env, pos, |env.units|);
      ForwardBack(env, pos);
      OffsetsFrom(env, next);
      var T' := TextFrom(env, next);
      assert T.chars == [CharAt(env, pos, |env.units|)] + T'.chars && T.off == [pos] + T'.off;
      hide Boundary, CharLen, CharAt, Chars, Offsets, Increasing;
      IncreasingCons(pos, T'.off);
      forall i | 0 <= i < |T.chars| ensures OkAt(T, i) {
        if i > 0 { assert OkAt(T', i - 1); }
      }
      forall i | 0 <= i < |T.off| ensures Boundary(env, T.off[i]) {
        if i > 0 { assert Boundary(env, T'.off[i - 1]); }
      }
    }
  }

  lemma TextOk(env: Env)
    ensures Ok(TextOf(env))
  {
    OffsetsFrom(env, 0);
  }

  // ----- related states -------------------------------------------------------------------------------

  /** How a capture shows in the two slots of its group; a group that is still open is undefined
      and has at most one slot set. */
  ghost predicate RelCap(T: Text, open: bool, c: E.Capture, s: int, e: int) {
    match c
    case Undefined => if open then s == NULL || e == NULL else s == NULL && e == NULL
    case Span(p, q) => !open && p <= q < |T.off| && s == T.off[p] && e == T.off[q]
  }

  ghost predicate Rel(T: Text, O: set<nat>, x1: E.State, x2: St) {
    && x1.pos < |T.off| && x2.pos == T.off[x1.pos] && |x2.slots| == 2 * |x1.caps|
    && forall k :: 0 <= k < |x1.caps| ==> RelCap(T, k in O, x1.caps[k], x2.slots[2 * k], x2.slots[2 * k + 1])
  }

  /** Nothing outside the groups lo .. lo + g - 1 has changed. */
  ghost predicate Frame(lo: nat, g: nat, x1: E.State, x2: St, y1: E.State, y2: St) {
    && |y1.caps| == |x1.caps| && |y2.slots| == |x2.slots| == 2 * |x1.caps|
    && forall k :: 0 <= k < |x1.caps| && !(lo <= k < lo + g) ==>
         y1.caps[k] == x1.caps[k] && y2.slots[2 * k] == x2.slots[2 * k] && y2.slots[2 * k + 1] == x2.slots[2 * k + 1]
  }

  ghost predicate Out(T: Text, O: set<nat>, lo: nat, g: nat, x1: E.State, x2: St, y1: E.State, y2: St) {
    Rel(T, O, y1, y2) && Frame(lo, g, x1, x2, y1, y2)
  }

  ghost predicate RelAll(T: Text, O: set<nat>, lo: nat, g: nat, x1: E.State, x2: St, R1: seq<E.State>, R2: seq<St>) {
    |R1| == |R2| && forall i :: 0 <= i < |R1| ==> Out(T, O, lo, g, x1, x2, R1[i], R2[i])
  }

  /** The groups lo .. lo + g - 1 are closed and undefined. */
  ghost predicate Clean(O: set<nat>, lo: nat, g: nat, x1: E.State) {
    lo + g <= |x1.caps| && forall k :: lo <= k < lo + g ==> k !in O && x1.caps[k] == E.Undefined
  }

  lemma {:induction false} RelConcat(T: Text, O: set<nat>, lo: nat, g: nat, x1: E.State, x2: St,
                                     RR1: seq<seq<E.State>>, RR2: seq<seq<St>>)
    requires |RR1| == |RR2| && forall i :: 0 <= i < |RR1| ==> RelAll(T, O, lo, g, x1, x2, RR1[i], RR2[i])
    ensures RelAll(T, O, lo, g, x1, x2, E.Concat(RR1), Flat(RR2))
    decreases RR1
  {
    hide Out;
    if RR1 != [] {
      RelConcat(T, O, lo, g, x1, x2, RR1[1..], RR2[1..]);
      assert RelAll(T, O, lo, g, x1, x2, RR1[0], RR2[0]);
    }
  }

  lemma RelAppend(T: Text, O: set<nat>, lo: nat, g: nat, x1: E.State, x2: St,
                  A1: seq<E.State>, A2: seq<St>, B1: seq<E.State>, B2: seq<St>)
    requires RelAll(T, O, lo, g, x1, x2, A1, A2) && RelAll(T, O, lo, g, x1, x2, B1, B2)
    ensures RelAll(T, O, lo, g, x1, x2, A1 + B1, A2 + B2)
  {
    hide Out;
  }

  /** Results reached from y1, y2 are results reached from x1, x2, within a larger range. */
  lemma RelWiden(T: Text, O: set<nat>, lo: nat, g: nat, lo': nat, g': nat,
                 x1: E.State, x2: St, y1: E.State, y2: St, R1: seq<E.State>, R2: seq<St>)
    requires lo' <= lo && lo + g <= lo' + g'
    requires Frame(lo', g', x1, x2, y1, y2) && RelAll(T, O, lo, g, y1, y2, R1, R2)
    ensures RelAll(T, O, lo', g', x1, x2, R1, R2)
  {
    forall i | 0 <= i < |R1| ensures Out(T, O, lo', g', x1, x2, R1[i], R2[i]) {
      assert Out(T, O, lo, g, y1, y2, R1[i], R2[i]);
    }
  }

  lemma CleanAfter(T: Text, O: set<nat>, lo: nat, g: nat, lo': nat, g': nat, x1: E.State, x2: St, y1: E.State, y2: St)
    requires Clean(O, lo', g', x1) && Frame(lo, g, x1, x2, y1, y2) && (lo + g <= lo' || lo' + g' <= lo)
    ensures Clean(O, lo', g', y1)
  {
  }

  // ----- characters, assertions and back references ---------------------------------------------------

  lemma AtPos(T: Text, i: nat)
    requires Ok(T) && i < |T.off|
    ensures |T.off| == |T.chars| + 1 && T.off[i] <= |T.env.units| && (i < |T.chars| <==> T.off[i] < |T.env.units|) && (i > 0 <==> T.off[i] > 0)
    ensures i < |T.chars| ==>
      CharAt(T.env, T.off[i], |T.env.units|) == T.chars[i]
      && T.off[i] + CharLen(T.env, T.off[i], |T.env.units|) == T.off[i + 1]
    ensures i > 0 ==>
      PrevChar(T.env, T.off[i], 0) == T.chars[i - 1]
      && T.off[i] - PrevLen(T.env, T.off[i], 0) == T.off[i - 1]
  {
    if i < |T.chars| {
      assert OkAt(T, i);
      assert T.off[i] < T.off[|T.chars|];
    }
    if i > 0 {
      assert OkAt(T, i - 1);
      ForwardBack(T.env, T.off[i - 1]);
    }
  }

  lemma RefineChr(T: Text, cs: CharSet, bw: bool, cc: nat, O: set<nat>, x1: E.State, x2: St)
    requires Ok(T) && Rel(T, O, x1, x2)
    ensures RelAll(T, O, cc, 0, x1, x2, E.Matches(T.Inp(), Chr(cs), bw, cc, x1), M(T.env, Chr(cs), bw, cc, x2))
  {
    AtPos(T, x1.pos);
    hide Ok, Accepts, CharLen, PrevLen;
  }

  lemma RefineAssert(T: Text, a: Assertion, bw: bool, cc: nat, O: set<nat>, x1: E.State, x2: St)
    requires Ok(T) && Rel(T, O, x1, x2)
    ensures RelAll(T, O, cc, 0, x1, x2, E.Matches(T.Inp(), Assert(a), bw, cc, x1), M(T.env, Assert(a), bw, cc, x2))
  {
    AtPos(T, x1.pos);
    hide Ok, CharLen, PrevLen, PrevChar, CharAt, IsLineTerminator, IsWordChar;
    assert E.HoldsAt(T.Inp(), a, x1.pos) <==> Holds(T.env, a, x2.pos);
  }

  /** Reading inside a captured span sees the characters of the input. */
  lemma InSpan(T: Text, p: nat, q: nat)
    requires Ok(T) && p < q < |T.off|
    ensures T.off[p] < T.off[q] <= |T.env.units|
    ensures CharAt(T.env, T.off[p], T.off[q]) == T.chars[p] && T.off[p] + CharLen(T.env, T.off[p], T.off[q]) == T.off[p + 1]
    ensures PrevChar(T.env, T.off[q], T.off[p]) == T.chars[q - 1] && T.off[q] - PrevLen(T.env, T.off[q], T.off[p]) == T.off[q - 1]
  {
    AtPos(T, p);
    AtPos(T, q);
    assert p + 1 < q ==> T.off[p + 1] < T.off[q];
    assert p < q - 1 ==> T.off[p] < T.off[q - 1];
  }

  lemma ForwardStep(env: Env, icase: bool, s: int, e: int, pos: nat)
    ensures MatchForward(env, icase, s, e, pos) ==
      if !(0 <= s < e <= |env.units|) then pos
      else if pos >= |env.units| then NULL
      else
        var c1, c2 := CharAt(env, s, e), CharAt(env, pos, |env.units|);
        if (if icase then env.canon(c1) != env.canon(c2) else c1 != c2) then NULL
        else MatchForward(env, icase, s + CharLen(env, s, e), e, pos + CharLen(env, pos, |env.units|))
  {
    hide CharAt, CharLen;
  }

  lemma BackwardStep(env: Env, icase: bool, s: int, e: int, pos: nat)
    ensures MatchBackward(env, icase, s, e, pos) ==
      if !(0 <= s < e <= |env.units|) then pos
      else if pos == 0 || pos > |env.units| then NULL
      else
        var c1, c2 := PrevChar(env, e, s), PrevChar(env, pos, 0);
        if (if icase then env.canon(c1) != env.canon(c2) else c1 != c2) then NULL
        else MatchBackward(env, icase, s, e - PrevLen(env, e, s), pos - PrevLen(env, pos, 0))
  {
    hide PrevChar, PrevLen;
  }

  lemma {:induction false} ForwardIs(T: Text, icase: bool, p: nat, q: nat, pos: nat)
    requires Ok(T) && p <= q <= |T.chars| && pos <= |T.chars| && |T.off| == |T.chars| + 1
    ensures MatchForward(T.env, icase, T.off[p], T.off[q], T.off[pos]) ==
      if pos + (q - p) <= |T.chars| && E.SameChars(T.Inp(), icase, p, pos, q - p) then T.off[pos + (q - p)] else NULL
    decreases q - p
  {
    hide Ok, CharLen, CharAt, E.SameChars, MatchForward;
    AtPos(T, pos);
    AtPos(T, p);
    SameCharsNone(T.Inp(), icase, p, pos);
    ForwardStep(T.env, icase, T.off[p], T.off[q], T.off[pos]);
    if p < q {
      InSpan(T, p, q);
      if pos < |T.chars| {
        ForwardIs(T, icase, p + 1, q, pos + 1);
        if pos + (q - p) <= |T.chars| {
          SameCharsFirst(T.Inp(), icase, p, pos, q - p);
        }
      }
    }
  }

  lemma SameCharsNone(inp: E.Input, icase: bool, p: nat, q: nat)
    requires p <= |inp.chars| && q <= |inp.chars|
    ensures E.SameChars(inp, icase, p, q, 0)
  {
  }

  lemma SameCharsFirst(inp: E.Input, icase: bool, p: nat, q: nat, len: nat)
    requires 0 < len && p + len <= |inp.chars| && q + len <= |inp.chars|
    ensures E.SameChars(inp, icase, p, q, len) <==>
      E.Fold(inp, icase, inp.chars[p]) == E.Fold(inp, icase, inp.chars[q]) && E.SameChars(inp, icase, p + 1, q + 1, len - 1)
    ensures E.SameChars(inp, icase, p, q, len) <==>
      E.Fold(inp, icase, inp.chars[p + len - 1]) == E.Fold(inp, icase, inp.chars[q + len - 1])
      && E.SameChars(inp, icase, p, q, len - 1)
  {
    hide E.Fold;
    assert inp.chars[p - p + q] == inp.chars[q] && inp.chars[p + len - 1 - p + q] == inp.chars[q + len - 1];
    if E.SameChars(inp, icase, p + 1, q + 1, len - 1) && E.Fold(inp, icase, inp.chars[p]) == E.Fold(inp, icase, inp.chars[q]) {
      forall i | p <= i < p + len ensures E.Fold(inp, icase, inp.chars[i]) == E.Fold(inp, icase, inp.chars[i - p + q]) {
        if i > p { assert inp.chars[i - (p + 1) + (q + 1)] == inp.chars[i - p + q]; }
      }
    }
    if E.SameChars(inp, icase, p, q, len) {
      forall i | p + 1 <= i < p + len
        ensures E.Fold(inp, icase, inp.chars[i]) == E.Fold(inp, icase, inp.chars[i - (p + 1) + (q + 1)])
      {
        assert inp.chars[i - (p + 1) + (q + 1)] == inp.chars[i - p + q];
      }
    }
  }

  lemma {:induction false} BackwardIs(T: Text, icase: bool, p: nat, q: nat, pos: nat)
    requires Ok(T) && p <= q <= |T.chars| && pos <= |T.chars| && |T.off| == |T.chars| + 1
    ensures MatchBackward(T.env, icase, T.off[p], T.off[q], T.off[pos]) ==
      if pos >= q - p && E.SameChars(T.Inp(), icase, p, pos - (q - p), q - p) then T.off[pos - (q - p)] else NULL
    decreases q - p
  {
    hide Ok, PrevLen, PrevChar, E.SameChars, MatchBackward;
    AtPos(T, pos);
    AtPos(T, p);
    SameCharsNone(T.Inp(), icase, p, pos);
    BackwardStep(T.env, icase, T.off[p], T.off[q], T.off[pos]);
    if p < q {
      InSpan(T, p, q);
      if pos > 0 {
        BackwardIs(T, icase, p, q - 1, pos - 1);
        if pos >= q - p {
          SameCharsFirst(T.Inp(), icase, p, pos - (q - p), q - p);
        }
      }
    }
  }

  lemma {:induction false} BackRefIs(T: Text, bw: bool, icase: bool, idxs: seq<nat>, O: set<nat>, x1: E.State, x2: St)
    requires Ok(T) && Rel(T, O, x1, x2) && forall k :: 0 <= k < |idxs| ==> idxs[k] < |x1.caps|
    ensures var r1 := E.BackStep(T.Inp(), idxs, icase, bw, x1);
      var p := BackRefPos(T.env, bw, icase, idxs, x2.slots, x2.pos);
      (r1 == [] <==> p == NULL) && (r1 != [] ==> r1[0].pos < |T.off| && p == T.off[r1[0].pos] && r1[0].caps == x1.caps)
    decreases idxs
  {
    hide Ok, MatchForward, MatchBackward, E.SameChars, Boundary, PrevLen, PrevChar, CharLen;
    if idxs != [] {
      var k := idxs[0];
      assert RelCap(T, k in O, x1.caps[k], x2.slots[2 * k], x2.slots[2 * k + 1]);
      OffSize(T);
      match x1.caps[k] {
        case Undefined => BackRefIs(T, bw, icase, idxs[1..], O, x1, x2);
        case Span(p, q) =>
          if bw { BackwardIs(T, icase, p, q, x1.pos); } else { ForwardIs(T, icase, p, q, x1.pos); }
      }
    }
  }

  lemma OffSize(T: Text)
    requires Ok(T)
    ensures |T.off| == |T.chars| + 1
  {
  }

  lemma RefineBackRef(T: Text, n: Node, bw: bool, cc: nat, O: set<nat>, x1: E.State, x2: St)
    requires n.BackRef? && Ok(T) && Rel(T, O, x1, x2) && forall k :: 0 <= k < |n.idxs| ==> n.idxs[k] < |x1.caps|
    ensures RelAll(T, O, cc, 0, x1, x2, E.Matches(T.Inp(), n, bw, cc, x1), M(T.env, n, bw, cc, x2))
  {
    BackRefIs(T, bw, n.icase, n.idxs, O, x1, x2);
    hide Ok, E.BackStep, BackRefPos;
  }
}
