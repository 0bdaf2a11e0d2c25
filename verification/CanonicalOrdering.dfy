/**
 sort_cc: canonical ordering (section 3.11 of the Unicode Standard). Characters with a combining
 class are sorted by it, stably, and never move past a starter.
 */
module CanonicalOrdering {

  /** Combining classes; 0 for starters. */
  type Class = int -> nat

  /** The class of a character. */
  function Of(cc: Class, x: int): nat { cc(x) }

  // ----- specification --------------------------------------------------------------------------------

  /** x inserted behind the last character that it may not pass. */
  function Insert(cc: Class, t: seq<int>, x: int): (r: seq<int>)
    ensures |r| == |t| + 1
    decreases |t|
  {
    if Stays(cc, t, x) then t + [x] else Insert(cc, t[..|t| - 1], x) + [t[|t| - 1]]
  }

  /** x may stand behind t as it is. */
  predicate Stays(cc: Class, t: seq<int>, x: int) { t == [] || Of(cc, x) == 0 || Of(cc, t[|t| - 1]) <= Of(cc, x) }

  /** The characters inserted one after the other. */
  function Reorder(cc: Class, s: seq<int>): (r: seq<int>)
    ensures |r| == |s|
  {
    if s == [] then [] else Insert(cc, Reorder(cc, s[..|s| - 1]), s[|s| - 1])
  }

  /** No character stands before one of a smaller class that is not a starter. */
  ghost predicate Ordered(cc: Class, s: seq<int>) { forall i :: 0 < i < |s| ==> InOrder(cc, s, i) }

  predicate InOrder(cc: Class, s: seq<int>, i: nat)
    requires 0 < i < |s|
  {
    Of(cc, s[i]) == 0 || Of(cc, s[i - 1]) <= Of(cc, s[i])
  }

  /** The characters of class v, in order. */
  function OfClass(cc: Class, s: seq<int>, v: nat): seq<int> {
    if s == [] then [] else OfClass(cc, s[..|s| - 1], v) + if Of(cc, s[|s| - 1]) == v then [s[|s| - 1]] else []
  }

  lemma {:induction false} InsertPermutes(cc: Class, t: seq<int>, x: int)
    ensures multiset(Insert(cc, t, x)) == multiset(t) + multiset{x}
    decreases |t|
  {
    hide Of;
    if !Stays(cc, t, x) {
      InsertPermutes(cc, t[..|t| - 1], x);
      assert t == t[..|t| - 1] + [t[|t| - 1]];
    }
  }

  /** No character is lost or added. */
  lemma {:induction false} ReorderPermutes(cc: Class, s: seq<int>)
    ensures multiset(Reorder(cc, s)) == multiset(s)
    decreases |s|
  {
    hide Of;
    if s != [] {
      ReorderPermutes(cc, s[..|s| - 1]);
      InsertPermutes(cc, Reorder(cc, s[..|s| - 1]), s[|s| - 1]);
      assert s == s[..|s| - 1] + [s[|s| - 1]];
    }
  }

  // ----- properties -----------------------------------------------------------------------------------

  /** Inserting keeps the order, and the last class is that of x or of the last character. */
  lemma {:induction false} InsertOrdered(cc: Class, t: seq<int>, x: int)
    requires Ordered(cc, t)
    ensures Ordered(cc, Insert(cc, t, x))
    decreases |t|
  {
    var r := Insert(cc, t, x);
    if Stays(cc, t, x) {
      forall i | 0 < i < |r| ensures InOrder(cc, r, i) { if i < |t| { assert InOrder(cc, t, i); } }
    } else {
      var n := |t| - 1;
      var u, y := t[..n], t[n];
      forall i | 0 < i < |u| ensures InOrder(cc, u, i) { assert InOrder(cc, t, i); }
      InsertOrdered(cc, u, x);
      var w := Insert(cc, u, x);
      LastClass(cc, u, x);
      if n > 0 { assert InOrder(cc, t, n); }
      forall i | 0 < i < |r| ensures InOrder(cc, r, i) { if i < |w| { assert InOrder(cc, w, i); } }
    }
  }

  lemma LastClass(cc: Class, t: seq<int>, x: int)
    ensures var r := Insert(cc, t, x); r[|r| - 1] == x || (t != [] && r[|r| - 1] == t[|t| - 1])
  {
  }

  lemma OrderedMeans(cc: Class, r: seq<int>)
    requires Ordered(cc, r)
    ensures forall i :: 0 < i < |r| ==> !(cc(r[i - 1]) > cc(r[i]) > 0)
  {
    forall i | 0 < i < |r| ensures !(cc(r[i - 1]) > cc(r[i]) > 0) { assert InOrder(cc, r, i); }
  }

  lemma {:induction false} ReorderOrdered(cc: Class, s: seq<int>)
    ensures Ordered(cc, Reorder(cc, s))
    ensures var r := Reorder(cc, s); forall i :: 0 < i < |r| ==> !(cc(r[i - 1]) > cc(r[i]) > 0)
    decreases |s|
  {
    if s != [] {
      ReorderOrdered(cc, s[..|s| - 1]);
      InsertOrdered(cc, Reorder(cc, s[..|s| - 1]), s[|s| - 1]);
    }
    OrderedMeans(cc, Reorder(cc, s));
  }

  /** What is in order stays as it is. */
  lemma {:induction false} OrderedFixed(cc: Class, s: seq<int>)
    requires Ordered(cc, s)
    ensures Reorder(cc, s) == s
    decreases |s|
  {
    if s != [] {
      var n := |s| - 1;
      forall i | 0 < i < n ensures InOrder(cc, s[..n], i) { assert InOrder(cc, s, i); }
      OrderedFixed(cc, s[..n]);
      if n > 0 { assert InOrder(cc, s, n); }
      hide Reorder;
      ReorderLast(cc, s);
      assert Stays(cc, s[..n], s[n]);
    }
  }

  lemma ReorderLast(cc: Class, s: seq<int>)
    requires s != []
    ensures Reorder(cc, s) == Insert(cc, Reorder(cc, s[..|s| - 1]), s[|s| - 1])
  {
    hide Insert;
  }

  /** A second pass changes nothing. */
  lemma ReorderIdempotent(cc: Class, s: seq<int>)
    ensures Reorder(cc, Reorder(cc, s)) == Reorder(cc, s)
  {
    ReorderOrdered(cc, s);
    OrderedFixed(cc, Reorder(cc, s));
  }

  /** Starters neither move nor are replaced. */
  lemma {:induction false} InsertStarters(cc: Class, t: seq<int>, x: int, i: nat)
    requires i < |t|
    ensures Of(cc, t[i]) == 0 ==> Insert(cc, t, x)[i] == t[i]
    ensures Of(cc, Insert(cc, t, x)[i]) == 0 ==> Insert(cc, t, x)[i] == t[i]
    decreases |t|
  {
    if !Stays(cc, t, x) {
      var n := |t| - 1;
      if i < n { InsertStarters(cc, t[..n], x, i); } else { LastClass(cc, t[..n], x); }
    }
  }

  lemma OfIs(cc: Class, x: int)
    ensures Of(cc, x) == cc(x)
  {
  }

  lemma {:induction false} ReorderStarters(cc: Class, s: seq<int>, i: nat)
    requires i < |s|
    ensures cc(s[i]) == 0 || cc(Reorder(cc, s)[i]) == 0 ==> Reorder(cc, s)[i] == s[i]
    decreases |s|
  {
    OfIs(cc, s[i]);
    OfIs(cc, Reorder(cc, s)[i]);
    hide Of, Insert, Reorder;
    ReorderLast(cc, s);
    var n := |s| - 1;
    var t, x := Reorder(cc, s[..n]), s[n];
    if i < n {
      ReorderStarters(cc, s[..n], i);
      InsertStarters(cc, t, x, i);
    } else {
      LastClass(cc, t, x);
      LastStarter(cc, t, x);
    }
  }

  /** A starter comes last only when it was put there. */
  lemma LastStarter(cc: Class, t: seq<int>, x: int)
    ensures var r := Insert(cc, t, x);
      (Of(cc, x) == 0 ==> r[|r| - 1] == x) && (Of(cc, r[|r| - 1]) == 0 ==> r[|r| - 1] == x)
  {
  }

  /** Characters of the same class keep their order. */
  lemma {:induction false} InsertStable(cc: Class, t: seq<int>, x: int, v: nat)
    ensures OfClass(cc, Insert(cc, t, x), v) == OfClass(cc, t, v) + if Of(cc, x) == v then [x] else []
    decreases |t|
  {
    if Stays(cc, t, x) {
      assert (t + [x])[..|t|] == t;
    } else {
      var n := |t| - 1;
      InsertStable(cc, t[..n], x, v);
      var w := Insert(cc, t[..n], x);
      assert (w + [t[n]])[..|w|] == w;
    }
  }

  lemma {:induction false} ReorderStable(cc: Class, s: seq<int>, v: nat)
    ensures OfClass(cc, Reorder(cc, s), v) == OfClass(cc, s, v)
    decreases |s|
  {
    if s != [] {
      ReorderStable(cc, s[..|s| - 1], v);
      InsertStable(cc, Reorder(cc, s[..|s| - 1]), s[|s| - 1], v);
    }
  }

  /** The parts before and after a starter are reordered on their own. */
  lemma {:induction false} ReorderParts(cc: Class, a: seq<int>, x: int, b: seq<int>)
    requires Of(cc, x) == 0
    ensures Reorder(cc, a + [x] + b) == Reorder(cc, a) + [x] + Reorder(cc, b)
    decreases |b|
  {
    var s := a + [x] + b;
    if b == [] {
      assert s[..|s| - 1] == a;
      assert Reorder(cc, a) + [x] + [] == Reorder(cc, a) + [x];
    } else {
      var n := |b| - 1;
      assert s[..|s| - 1] == a + [x] + b[..n];
      ReorderParts(cc, a, x, b[..n]);
      InsertBehind(cc, Reorder(cc, a) + [x], Reorder(cc, b[..n]), b[n]);
    }
  }

  /** Insertion stops at a starter. */
  lemma {:induction false} InsertBehind(cc: Class, p: seq<int>, t: seq<int>, x: int)
    requires p != [] && Of(cc, p[|p| - 1]) == 0
    ensures Insert(cc, p + t, x) == p + Insert(cc, t, x)
    decreases |t|
  {
    if t == [] {
      assert p + t == p;
    } else {
      assert (p + t)[..|p + t| - 1] == p + t[..|t| - 1];
      InsertBehind(cc, p, t[..|t| - 1], x);
    }
  }

  // ----- sort_cc --------------------------------------------------------------------------------------

  /** Characters of t above k have moved one place up. */
  ghost predicate Shifted(b: seq<int>, t: seq<int>, k: int) {
    && -1 <= k < |t| < |b| && b[..k + 1] == t[..k + 1] && b[k + 2..|t| + 1] == t[k + 1..]
  }

  lemma ShiftedStart(b: seq<int>, t: seq<int>)
    requires |t| < |b| && b[..|t|] == t
    ensures Shifted(b, t, |t| - 1)
  {
  }

  lemma ShiftedStep(b: seq<int>, t: seq<int>, k: nat)
    requires Shifted(b, t, k)
    ensures b[k] == t[k] && Shifted(b[k + 1 := b[k]], t, k - 1) && b[k + 1 := b[k]][|t| + 1..] == b[|t| + 1..]
  {
    assert b[..k + 1][k] == t[..k + 1][k];
    var c := b[k + 1 := b[k]];
    assert c[k + 1..|t| + 1] == [t[k]] + b[k + 2..|t| + 1];
    assert c[..k] == b[..k + 1][..k] && t[..k] == t[..k + 1][..k];
  }

  lemma ShiftedEnd(b: seq<int>, t: seq<int>, k: int, x: int)
    requires Shifted(b, t, k)
    ensures b[k + 1 := x][..|t| + 1] == t[..k + 1] + [x] + t[k + 1..] && b[k + 1 := x][|t| + 1..] == b[|t| + 1..]
    ensures k >= 0 ==> b[k] == t[k]
  {
    if k >= 0 { assert b[..k + 1][k] == t[..k + 1][k]; }
    var c := b[k + 1 := x];
    assert c[..|t| + 1] == b[..k + 1] + [x] + b[k + 2..|t| + 1];
  }

  /** Moves buf[j] down to its place behind start. */
  method InsertAt(cc: Class, buf: array<int>, start: nat, j: nat, ghost t: seq<int>)
    requires start <= j < buf.Length && buf[..j] == t && Of(cc, buf[j]) != 0 && (start > 0 ==> Of(cc, t[start - 1]) == 0)
    modifies buf
    ensures buf[..j + 1] == Insert(cc, t, old(buf[j])) && buf[j + 1..] == old(buf[j + 1..])
  {
    hide Of, Insert, Shifted;
    var ch1 := buf[j];
    var cc1 := Of(cc, ch1);
    var k: int := j - 1;
    ghost var high := buf[j + 1..];
    ShiftedStart(buf[..], t);
    WholeInsert(cc, t, ch1);
    while k >= start && Of(cc, buf[k]) > cc1
      invariant start - 1 <= k < j == |t| && Shifted(buf[..], t, k) && buf[..][j + 1..] == high
      invariant Insert(cc, t, ch1) == Insert(cc, t[..k + 1], ch1) + t[k + 1..]
    {
      ghost var b := buf[..];
      ShiftedStep(b, t, k);
      InsertPast(cc, t, k, ch1);
      buf[k + 1] := buf[k];
      assert buf[..] == b[k + 1 := b[k]];
      k := k - 1;
    }
    ghost var b := buf[..];
    ShiftedEnd(b, t, k, ch1);
    InsertHere(cc, t, k + 1, ch1);
    buf[k + 1] := ch1;
    assert buf[..] == b[k + 1 := ch1];
    assert buf[..j + 1] == buf[..][..j + 1] && buf[j + 1..] == buf[..][j + 1..];
  }

  lemma WholeInsert(cc: Class, t: seq<int>, x: int)
    ensures Insert(cc, t, x) == Insert(cc, t[..|t|], x) + t[|t|..]
  {
    hide Insert;
    assert t[..|t|] == t && t[|t|..] == [];
  }

  lemma InsertPast(cc: Class, t: seq<int>, k: nat, x: int)
    requires k < |t| && Of(cc, x) != 0 && Of(cc, t[k]) > Of(cc, x)
    requires Insert(cc, t, x) == Insert(cc, t[..k + 1], x) + t[k + 1..]
    ensures Insert(cc, t, x) == Insert(cc, t[..k], x) + t[k..]
  {
    var u := t[..k + 1];
    assert u[..k] == t[..k] && !Stays(cc, u, x);
    InsertUnfold(cc, u, x);
    hide Insert;
    assert [t[k]] + t[k + 1..] == t[k..];
  }

  lemma InsertUnfold(cc: Class, t: seq<int>, x: int)
    ensures Insert(cc, t, x) == if Stays(cc, t, x) then t + [x] else Insert(cc, t[..|t| - 1], x) + [t[|t| - 1]]
  {
  }

  lemma InsertHere(cc: Class, t: seq<int>, k: nat, x: int)
    requires k <= |t| && (k > 0 ==> Of(cc, t[k - 1]) <= Of(cc, x)) && Insert(cc, t, x) == Insert(cc, t[..k], x) + t[k..]
    ensures Insert(cc, t, x) == t[..k] + [x] + t[k..]
  {
    hide Insert;
    InsertUnfold(cc, t[..k], x);
  }

  /** The first j characters are reordered, the others as they were. */
  ghost predicate Done(cc: Class, s: seq<int>, b: seq<int>, j: nat) {
    j <= |s| == |b| && b[..j] == Reorder(cc, s[..j]) && b[j..] == s[j..]
  }

  /** The next character stays where it is. */
  lemma DoneStays(cc: Class, s: seq<int>, b: seq<int>, j: nat)
    requires Done(cc, s, b, j) && j < |s| && (j == 0 || Of(cc, b[j]) == 0 || Of(cc, b[j - 1]) == 0)
    ensures Done(cc, s, b, j + 1)
  {
    hide Of, Reorder, Insert;
    assert b[j] == b[j..][0] == s[j..][0] == s[j];
    ReorderSnoc(cc, s, j);
    InsertUnfold(cc, b[..j], s[j]);
    assert b[..j + 1] == b[..j] + [b[j]];
    assert b[j + 1..] == b[j..][1..] && s[j + 1..] == s[j..][1..];
  }

  /** The next character has been inserted. */
  lemma DoneInsert(cc: Class, s: seq<int>, b: seq<int>, j: nat, b': seq<int>)
    requires Done(cc, s, b, j) && j < |s| && |b'| == |b|
    requires b'[..j + 1] == Insert(cc, b[..j], b[j]) && b'[j + 1..] == b[j + 1..]
    ensures Done(cc, s, b', j + 1)
  {
    hide Of, Reorder, Insert;
    assert b[j] == b[j..][0] == s[j..][0] == s[j];
    ReorderSnoc(cc, s, j);
    assert b[j + 1..] == b[j..][1..] && s[j + 1..] == s[j..][1..];
  }

  lemma ReorderSnoc(cc: Class, s: seq<int>, j: nat)
    requires j < |s|
    ensures Reorder(cc, s[..j + 1]) == Insert(cc, Reorder(cc, s[..j]), s[j])
  {
    hide Insert;
    assert s[..j + 1][..j] == s[..j];
  }

  /** Sorts the characters from start up to the next starter. */
  method SortRun(cc: Class, buf: array<int>, start: nat, ghost s: seq<int>) returns (j: nat)
    requires start < buf.Length && Done(cc, s, buf[..], start) && (start > 0 ==> Of(cc, buf[start - 1]) == 0)
    modifies buf
    ensures start < j <= buf.Length && Done(cc, s, buf[..], j) && (j < buf.Length ==> Of(cc, buf[j]) == 0)
  {
    hide Of, Done, Insert;
    DoneSize(cc, s, buf[..], start);
    DoneStays(cc, s, buf[..], start);
    ghost var low := buf[..start];
    j := start + 1;
    while j < buf.Length && Of(cc, buf[j]) != 0
      invariant start < j <= buf.Length == |s| && Done(cc, s, buf[..], j) && buf[..start] == low
    {
      ghost var b := buf[..];
      ghost var t := buf[..j];
      assert start > 0 ==> t[start - 1] == low[start - 1];
      KeepsLow(cc, t, start, buf[j]);
      InsertAt(cc, buf, start, j, t);
      DoneInsert(cc, s, b, j, buf[..]);
      assert buf[..start] == buf[..j + 1][..start];
      j := j + 1;
    }
  }

  lemma DoneSize(cc: Class, s: seq<int>, b: seq<int>, j: nat)
    requires Done(cc, s, b, j)
    ensures |s| == |b| && j <= |s|
  {
  }

  /** Nothing up to a starter moves. */
  lemma KeepsLow(cc: Class, t: seq<int>, start: nat, x: int)
    requires start <= |t| && (start > 0 ==> Of(cc, t[start - 1]) == 0)
    ensures Insert(cc, t, x)[..start] == t[..start]
  {
    hide Insert;
    if start > 0 {
      assert t == t[..start] + t[start..];
      InsertBehind(cc, t[..start], t[start..], x);
    }
  }

  /** sort_cc. */
  method SortCc(cc: Class, buf: array<int>)
    modifies buf
    ensures buf[..] == Reorder(cc, old(buf[..]))
  {
    hide Of, Done, Reorder;
    ghost var s := buf[..];
    DoneNone(cc, s);
    var i: nat := 0;
    while i < buf.Length
      invariant |s| == buf.Length && Done(cc, s, buf[..], if i <= buf.Length then i else buf.Length)
      invariant 0 < i <= buf.Length ==> Of(cc, buf[i - 1]) == 0
      decreases buf.Length - i
    {
      if Of(cc, buf[i]) != 0 { i := SortRun(cc, buf, i, s); }
      if i < buf.Length { DoneStays(cc, s, buf[..], i); }
      i := i + 1;
    }
    DoneAll(cc, s, buf[..]);
  }

  lemma DoneNone(cc: Class, s: seq<int>)
    ensures Done(cc, s, s, 0)
  {
  }

  lemma DoneAll(cc: Class, s: seq<int>, b: seq<int>)
    requires Done(cc, s, b, |s|)
    ensures b == Reorder(cc, s)
  {
    assert b[..|s|] == b && s[..|s|] == s;
  }
}
