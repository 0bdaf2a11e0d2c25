/**
 Where a 31-bit iteration counter is too small. The compiler turns {min,} into a counted loop of
 at most INT32_MAX iterations unless a plain loop does. Code and standard agree on every atom and
 every input exactly as long as the counter suffices; beyond that there are patterns on which
 they find different matches.
 */
module CounterLimit {
  import opened RegexpPattern
  import E = EcmaMatcher
  import opened SlotMatcher
  import opened Machine
  import opened SlotRefinement
  import opened NodeRefinement
  import opened RegexpProgram

  /** Two atoms: (?:|x), whose mandatory iterations stay in place, and x, which always moves. */
  function Atom(adv: bool, cs: CharSet): Node { if adv then Alt(Empty, Chr(cs)) else Chr(cs) }

  predicate AllIn(inp: E.Input, cs: CharSet) { forall i :: 0 <= i < |inp.chars| ==> Accepts(inp.env, cs, inp.chars[i]) }

  /** How far the repeated atom gets with room characters left. */
  function Advance(adv: bool, min: nat, max: int, room: nat): int {
    var most := if adv then max - min else max;
    if max < 0 || most >= room then room else most
  }

  lemma AtomMatches(inp: E.Input, adv: bool, cs: CharSet, cc: nat, x: E.State)
    requires AllIn(inp, cs) && x.pos <= |inp.chars|
    ensures E.Matches(inp, Atom(adv, cs), false, cc, x) ==
      (if adv then [x] else []) + (if x.pos < |inp.chars| then [x.(pos := x.pos + 1)] else [])
  {
    assert E.Matches(inp, Chr(cs), false, cc, x) == E.Step(inp, cs, false, x);
    if adv {
      E.MatchesAlt(inp, Atom(adv, cs), false, cc, x);
      assert E.Matches(inp, Empty, false, cc, x) == [x];
    }
  }

  /** The first outcome of the repetition. */
  lemma {:induction false} FirstEnd(inp: E.Input, adv: bool, cs: CharSet, cc: nat, min: nat, max: int, x: E.State)
    requires AllIn(inp, cs) && x.pos <= |inp.chars| && (max < 0 || min <= max) && (!adv ==> min <= |inp.chars| - x.pos)
    ensures var ys := E.Repeat(inp, Atom(adv, cs), false, cc, true, min, max, x);
      ys != [] && ys[0].pos == x.pos + Advance(adv, min, max, |inp.chars| - x.pos)
    decreases min, |inp.chars| - x.pos
  {
    hide E.Matches, E.Repeat, E.RepeatEach;
    var b := Atom(adv, cs);
    var xr := x.(caps := E.ResetCaps(x.caps, cc, NumGroups(b)));
    var ys := E.Matches(inp, b, false, cc, xr);
    AtomMatches(inp, adv, cs, cc, xr);
    RepeatIs(inp, b, false, cc, true, min, max, x);
    if max != 0 {
      assert forall i :: 0 <= i < |ys| ==> E.Forward(inp, false, xr, ys[i]);
      var rr := E.RepeatEach(inp, b, false, cc, true, min, max, x, ys);
      var m := if min == 0 then 0 else min - 1;
      if min > 0 {
        FirstEnd(inp, adv, cs, cc, m, E.Pred(max), ys[0]);
      } else if x.pos < |inp.chars| {
        FirstEnd(inp, adv, cs, cc, m, E.Pred(max), ys[|ys| - 1]);
      }
      assert rr != [] ==> E.Concat(rr) == rr[0] + E.Concat(rr[1..]);
      assert |rr| == 2 ==> E.Concat(rr[1..]) == rr[1] + E.Concat(rr[2..]);
      assert |rr| <= 2;
    }
  }

  function Pattern(adv: bool, cs: CharSet, min: nat): Node { Quant(Atom(adv, cs), min, INT32_MAX, true) }

  /** The condition on a counted quantifier: its counter suffices for inputs of len characters. */
  predicate Suffices(adv: bool, min: nat, len: nat) { (if adv then min else 0) + len <= INT32_MAX }

  /** A minimum from which on the compiler counts, given its analysis of the atom. */
  predicate CountedMin(adv: bool, min: nat) { 1 <= min <= INT32_MAX && (min == 1 ==> adv) }

  lemma AtomOk(adv: bool, cs: CharSet, len: nat)
    requires WfSet(cs)
    ensures NodeOk(Atom(adv, cs), false, 1, len) && NumGroups(Atom(adv, cs)) == 0 && ScanNode(Atom(adv, cs), false).adv == adv
  {
    assert NodeOk(Chr(cs), false, 1, len) && NodeOk(Empty, false, 1, len);
  }

  lemma AttemptSpan(T: Text, adv: bool, cs: CharSet, min: nat)
    requires Ok(T) && AllIn(T.Inp(), cs) && WfSet(cs) && CountedMin(adv, min) && (!adv ==> min <= |T.chars|)
    ensures |T.off| == |T.chars| + 1
    ensures var len, n := |T.chars|, Pattern(adv, cs, min);
      var end := Advance(adv, min, INT32_MAX, len);
      && NumGroups(n) == 0 && 0 <= end <= len
      && (var r := E.Match(T.Inp(), n, false, 1, E.State(0, Unset(1)), y => [y]); r != [] && r[0].pos == len && |r[0].caps| == 1)
      && Attempt(T, n, 0) != [] && Attempt(T, n, 0)[0] == St(T.off[end], [T.off[0], NULL])
  {
    hide Ok, M, E.Matches, E.Match, E.Repeat, Rep, Accepts;
    OffSize(T);
    var b, n, len := Atom(adv, cs), Pattern(adv, cs, min), |T.chars|;
    var x1, x2 := E.State(0, Unset(1)), St(T.off[0], AttemptSlots(T, n, 0));
    FirstEnd(T.Inp(), adv, cs, 1, min, -1, x1);
    FirstEnd(T.Inp(), adv, cs, 1, min, INT32_MAX, x1);
    E.MatchIsFirst(T.Inp(), n, false, 1, x1, y => [y]);
    QuantIs(T, n, false, 1, x1, x2);
    AtomOk(adv, cs, len);
    RefineRep(T, b, false, 1, {0}, true, min, INT32_MAX, x1, x2);
    var ys1, ys2 := E.Repeat(T.Inp(), b, false, 1, true, min, INT32_MAX, x1), Attempt(T, n, 0);
    assert Out(T, {0}, 1, 0, x1, x2, ys1[0], ys2[0]);
  }

  ghost predicate Agree(T: Text, n: Node, sticky: bool, i: nat)
    requires |T.off| == |T.chars| + 1 && i < |T.off|
  {
    Reports(T, BuiltinExec(T.Inp(), n, sticky, i), CodeExec(T, n, sticky, i))
  }

  /** Beyond the limit the standard takes all of the input and the code stops before its end. */
  lemma StopsShort(T: Text, adv: bool, cs: CharSet, min: nat, sticky: bool)
    requires Ok(T) && AllIn(T.Inp(), cs) && WfSet(cs) && CountedMin(adv, min) && !Suffices(adv, min, |T.chars|)
    ensures |T.off| == |T.chars| + 1
    ensures var n, end := Pattern(adv, cs, min), INT32_MAX - (if adv then min else 0);
      && BuiltinExec(T.Inp(), n, sticky, 0) == Found([E.Span(0, |T.chars|)])
      && 0 <= end < |T.chars| && CodeExec(T, n, sticky, 0) == Done(true, [T.off[0], T.off[end]])
      && !Agree(T, n, sticky, 0)
  {
    hide Ok, E.Match, Attempt, AllIn;
    AttemptSpan(T, adv, cs, min);
    OffGrows(T, INT32_MAX - (if adv then min else 0));
    var caps := [E.Span(0, |T.chars|)];
    assert BuiltinExec(T.Inp(), Pattern(adv, cs, min), sticky, 0) == Found(caps);
    assert [T.off[0], NULL][1 := T.off[INT32_MAX - (if adv then min else 0)]] == CodeExec(T, Pattern(adv, cs, min), sticky, 0).slots;
    assert caps[0] == E.Span(0, |T.chars|);
  }

  lemma OffGrows(T: Text, i: nat)
    requires Ok(T) && i < |T.chars|
    ensures |T.off| == |T.chars| + 1 && T.off[i] < T.off[|T.chars|]
  {
  }

  /** len times the letter a. */
  function Letters(len: nat): (T: Text)
    ensures |T.chars| == len && |T.off| == len + 1 && forall i :: 0 <= i <= len ==> T.off[i] == i
  {
    var units: seq<int> := seq(len, i => 'a' as int);
    Text(Env(units, false, c => c, c => false), units, seq(len + 1, i => i))
  }

  const LetterA := Lit('a' as int, false)

  lemma LettersOk(len: nat)
    ensures Ok(Letters(len)) && AllIn(Letters(len).Inp(), LetterA)
  {
    var T := Letters(len);
    forall i | 0 <= i < len ensures OkAt(T, i) { }
  }

  /** The pattern (?:|a){2147483646,} on aaa: the standard matches aaa, the code a. */
  lemma ThreeLetters(sticky: bool)
    ensures var T, n := Letters(3), Quant(Alt(Empty, Chr(LetterA)), 2147483646, INT32_MAX, true);
      && BuiltinExec(T.Inp(), n, sticky, 0) == Found([E.Span(0, 3)])
      && CodeExec(T, n, sticky, 0) == Done(true, [0, 1])
  {
    hide BuiltinExec, CodeExec, Ok, AllIn;
    LettersOk(3);
    StopsShort(Letters(3), true, LetterA, 2147483646, sticky);
  }

  /** What the compiler and the parser know of an atom; its own counters suffice. */
  predicate AtomFits(b: Node, adv: bool, len: nat) {
    NodeOk(b, false, 1 + NumGroups(b), len) && ScanNode(b, false).adv == adv
  }

  /** Code and standard agree on every atom repeated at least min times, on every input of len
      characters, from every start. */
  ghost predicate AlwaysAgree(adv: bool, min: nat, len: nat) {
    forall T: Text, b: Node, greedy: bool, sticky: bool, i: nat
      | |T.off| == |T.chars| + 1 && i < |T.off| && Ok(T) && |T.chars| == len && AtomFits(b, adv, len)
      :: Agree(T, Quant(b, min, INT32_MAX, greedy), sticky, i)
  }

  /** They do exactly when the counter suffices. */
  lemma CounterExact(adv: bool, min: nat, len: nat)
    requires CountedMin(adv, min)
    ensures AlwaysAgree(adv, min, len) <==> Suffices(adv, min, len)
  {
    hide Ok, BuiltinExec, CodeExec;
    if Suffices(adv, min, len) {
      forall T: Text, b: Node, greedy: bool, sticky: bool, i: nat
        | |T.off| == |T.chars| + 1 && i < |T.off| && Ok(T) && |T.chars| == len && AtomFits(b, adv, len)
        ensures Agree(T, Quant(b, min, INT32_MAX, greedy), sticky, i)
      {
        CodeExecIs(T, Quant(b, min, INT32_MAX, greedy), sticky, i);
      }
    } else {
      LettersOk(len);
      AtomOk(adv, LetterA, len);
      StopsShort(Letters(len), adv, LetterA, min, true);
      assert !Agree(Letters(len), Quant(Atom(adv, LetterA), min, INT32_MAX, true), true, 0);
    }
  }
}
