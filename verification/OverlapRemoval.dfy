/**
 cr_sort_and_remove_overlap: intervals in any order, overlapping or touching, become a sorted
 list of intervals apart from each other with the same characters.
 */
module OverlapRemoval {
  import opened RegexpPattern
  import opened Sorting
  import opened Rqsort
  import opened CharRanges

  datatype Pair = Pair(start: int, end: int)

  /** point_cmp: by the first point. */
  function PointCmp(p: Pair, q: Pair): int {
    (if p.start > q.start then 1 else 0) - (if p.start < q.start then 1 else 0)
  }

  lemma PointPreorder()
    ensures Preorder(PointCmp)
  {
  }

  /** Every interval ends no earlier than it starts. */
  ghost predicate Forward(p: seq<int>) { forall i :: 0 <= i < |p| / 2 ==> Proper(p, i) }

  predicate Proper(p: seq<int>, i: nat)
    requires i < |p| / 2
  {
    p[2 * i] <= p[2 * i + 1]
  }

  /** Intervals by ascending start. */
  ghost predicate ByStart(p: seq<int>) { forall i, j :: 0 <= i < j < |p| / 2 ==> NotAfter(p, i, j) }

  predicate NotAfter(p: seq<int>, i: nat, j: nat)
    requires i < |p| / 2 && j < |p| / 2
  {
    p[2 * i] <= p[2 * j]
  }

  lemma InAppend(p: seq<int>, q: seq<int>, c: int)
    requires |p| % 2 == 0
    ensures InPoints(p + q, c) <==> InPoints(p, c) || InPoints(q, c)
  {
    var r, n := p + q, |p| / 2;
    if InPoints(r, c) {
      var i :| 0 <= i < |r| / 2 && InInterval(r, i, c);
      if i < n { assert InInterval(p, i, c); } else { assert InInterval(q, i - n, c); }
    }
    if InPoints(p, c) {
      var i :| 0 <= i < |p| / 2 && InInterval(p, i, c);
      assert InInterval(r, i, c);
    }
    if InPoints(q, c) {
      var i :| 0 <= i < |q| / 2 && InInterval(q, i, c);
      assert InInterval(r, n + i, c);
    }
  }

  // ----- sorting --------------------------------------------------------------------------------------

  function Pairs(p: seq<int>): (r: seq<Pair>)
    ensures |r| == |p| / 2
    ensures forall i :: 0 <= i < |r| ==> r[i] == Pair(p[2 * i], p[2 * i + 1])
  {
    seq(|p| / 2, i requires 0 <= i < |p| / 2 => Pair(p[2 * i], p[2 * i + 1]))
  }

  predicate Has(q: Pair, c: int) { q.start <= c < q.end }

  lemma InPairs(p: seq<int>, c: int)
    ensures InPoints(p, c) <==> exists q :: q in multiset(Pairs(p)) && Has(q, c)
  {
    var r := Pairs(p);
    if InPoints(p, c) {
      var i :| 0 <= i < |p| / 2 && InInterval(p, i, c);
      assert r[i] in multiset(r) && Has(r[i], c);
    }
    if q :| q in multiset(r) && Has(q, c) {
      var i :| 0 <= i < |r| && r[i] == q;
      assert InInterval(p, i, c);
    }
  }

  /** The same intervals in another order. */
  lemma SamePairs(p: seq<int>, q: seq<int>)
    requires multiset(Pairs(p)) == multiset(Pairs(q)) && Forward(p)
    ensures Forward(q) && forall c :: InPoints(q, c) <==> InPoints(p, c)
  {
    forall c ensures InPoints(q, c) <==> InPoints(p, c) {
      InPairs(p, c);
      InPairs(q, c);
    }
    var r, t := Pairs(p), Pairs(q);
    forall i | 0 <= i < |q| / 2 ensures Proper(q, i) {
      assert t[i] in multiset(t);
      assert t[i] in multiset(r);
      var k :| 0 <= k < |r| && r[k] == t[i];
      assert Proper(p, k);
    }
  }

  /** The rqsort call: sorts the intervals by their first points. */
  method SortIntervals(p: seq<int>) returns (q: seq<int>)
    requires |p| % 2 == 0
    ensures |q| == |p| && multiset(Pairs(q)) == multiset(Pairs(p)) && ByStart(q)
  {
    hide Preorder, Sorted, Ord, ByStart;
    var a := new Pair[|p| / 2](i requires 0 <= i < |p| / 2 => Pair(p[2 * i], p[2 * i + 1]));
    assert a[..] == Pairs(p);
    PointPreorder();
    Sort(a, PointCmp);
    q := Unpair(a);
    SortedPairs(q, a[..]);
  }

  /** The points of the intervals, one after the other. */
  method Unpair(a: array<Pair>) returns (q: seq<int>)
    ensures |q| == 2 * a.Length && Pairs(q) == a[..]
  {
    hide Pairs;
    q := [];
    PairsNone();
    var i := 0;
    while i < a.Length
      invariant 0 <= i <= a.Length && |q| == 2 * i && Pairs(q) == a[..i]
    {
      PairsSnoc(q, a[i]);
      q := q + [a[i].start, a[i].end];
      i := i + 1;
    }
  }

  lemma PairsNone()
    ensures Pairs([]) == []
  {
  }

  lemma PairsSnoc(q: seq<int>, x: Pair)
    requires |q| % 2 == 0
    ensures Pairs(q + [x.start, x.end]) == Pairs(q) + [x]
  {
    var r := q + [x.start, x.end];
    forall i | 0 <= i < |Pairs(r)| ensures Pairs(r)[i] == (Pairs(q) + [x])[i] {
      if i < |q| / 2 { assert r[2 * i] == q[2 * i] && r[2 * i + 1] == q[2 * i + 1]; }
    }
  }

  lemma SortedPairs(q: seq<int>, r: seq<Pair>)
    requires Pairs(q) == r && Sorted(r, PointCmp)
    ensures ByStart(q)
  {
    forall i, j | 0 <= i < j < |q| / 2 ensures NotAfter(q, i, j) {
      assert Ord(PointCmp, r[i], r[j]) <= 0;
    }
  }

  // ----- merging --------------------------------------------------------------------------------------

  /** Ascending points, with a gap between the end of an interval and the next one. */
  ghost predicate Gapped(p: seq<int>) {
    |p| % 2 == 0 && Ascending(p) && forall i :: 0 < i < |p| / 2 ==> Gap(p, i)
  }

  predicate Gap(p: seq<int>, i: nat)
    requires 0 < i < |p| / 2
  {
    p[2 * i - 1] < p[2 * i]
  }

  /** The state of the merge: out is done, the intervals from i on are still to be read. */
  ghost predicate MergedTo(s: seq<int>, out: seq<int>, i: nat) {
    && i <= |s| && i % 2 == 0 && |out| <= i && Gapped(out) && (out != [] && i < |s| ==> out[|out| - 1] < s[i])
    && forall c :: InPoints(out + s[i..], c) <==> InPoints(s, c)
  }

  /** A current interval besides. */
  ghost predicate Growing(s: seq<int>, out: seq<int>, start: int, end: int, i: nat) {
    && i <= |s| && i % 2 == 0 && |out| + 2 <= i && Gapped(out) && (out != [] ==> out[|out| - 1] < start) && start <= end
    && (forall j :: i / 2 <= j < |s| / 2 ==> StartsAfter(s, j, start))
    && forall c :: InPoints(out + [start, end] + s[i..], c) <==> InPoints(s, c)
  }

  predicate StartsAfter(s: seq<int>, j: nat, start: int)
    requires j < |s| / 2
  {
    start <= s[2 * j]
  }

  lemma GrowStart(s: seq<int>, out: seq<int>, i: nat)
    requires MergedTo(s, out, i) && |s| % 2 == 0 && ByStart(s) && Forward(s) && i < |s|
    ensures Growing(s, out, s[i], s[i + 1], i + 2)
  {
    assert Proper(s, i / 2);
    forall j | (i + 2) / 2 <= j < |s| / 2 ensures StartsAfter(s, j, s[i]) { assert NotAfter(s, i / 2, j); }
    assert out + [s[i], s[i + 1]] + s[i + 2..] == out + s[i..];
  }

  /** The next interval overlaps or touches. */
  lemma GrowStep(s: seq<int>, out: seq<int>, start: int, end: int, i: nat)
    requires Growing(s, out, start, end, i) && |s| % 2 == 0 && Forward(s) && i < |s| && s[i] <= end
    ensures Growing(s, out, start, if s[i + 1] <= end then end else s[i + 1], i + 2)
  {
    var end' := if s[i + 1] <= end then end else s[i + 1];
    assert StartsAfter(s, i / 2, start) && Proper(s, i / 2);
    forall c ensures InPoints(out + [start, end'] + s[i + 2..], c) <==> InPoints(s, c) {
      InThree(out, start, end, s[i..], c);
      InThree(out, start, end', s[i + 2..], c);
      assert s[i..] == [s[i], s[i + 1]] + s[i + 2..];
      InAppend([s[i], s[i + 1]], s[i + 2..], c);
      OneInterval(s[i], s[i + 1], c);
      assert InPoints(out + [start, end] + s[i..], c) <==> InPoints(s, c);
    }
  }

  lemma InThree(out: seq<int>, start: int, end: int, q: seq<int>, c: int)
    requires |out| % 2 == 0
    ensures InPoints(out + [start, end] + q, c) <==> InPoints(out, c) || start <= c < end || InPoints(q, c)
  {
    hide InPoints;
    InAppend(out + [start, end], q, c);
    InAppend(out, [start, end], c);
    OneInterval(start, end, c);
  }

  lemma GrowEnd(s: seq<int>, out: seq<int>, start: int, end: int, i: nat)
    requires Growing(s, out, start, end, i) && (i < |s| ==> s[i] > end)
    ensures MergedTo(s, out + [start, end], i)
  {
    var out' := out + [start, end];
    forall k | 0 < k < |out'| / 2 ensures Gap(out', k) {
      if k < |out| / 2 { assert Gap(out, k); }
    }
  }

  lemma MergeDone(s: seq<int>, out: seq<int>)
    requires MergedTo(s, out, |s|)
    ensures Gapped(out) && forall c :: InPoints(out, c) <==> InPoints(s, c)
  {
    assert out + s[|s|..] == out;
  }

  /** cr_sort_and_remove_overlap. */
  method SortAndRemoveOverlap(cr: CharRange)
    requires |cr.points| % 2 == 0 && Forward(cr.points)
    modifies cr
    ensures Gapped(cr.points) && forall c :: InPoints(cr.points, c) <==> InPoints(old(cr.points), c)
  {
    hide InPoints, MergedTo, Growing, Gapped, ByStart, Forward;
    var sorted := SortIntervals(cr.points);
    SamePairs(cr.points, sorted);
    cr.points := sorted;
    ghost var s, out := cr.points, [];
    var i, j, len := 0, 0, |cr.points|;
    MergeStart(s);
    while i < len
      invariant len == |s| == |cr.points| && j == |out| <= i <= len && i % 2 == 0 && MergedTo(s, out, i)
      invariant cr.points[..j] == out && cr.points[i..] == s[i..]
      decreases len - i
    {
      TailAt(cr.points, s, i);
      GrowStart(s, out, i);
      var start, end;
      start, end, i := GrowInterval(cr.points, i, s, out);
      ghost var before := cr.points;
      cr.points := cr.points[j := start];
      cr.points := cr.points[j + 1 := end];
      WritePair(before, cr.points, j, i, start, end, s);
      out := out + [start, end];
      j := j + 2;
    }
    cr.points := cr.points[..j];
    MergeDone(s, out);
  }

  lemma MergeStart(s: seq<int>)
    ensures MergedTo(s, [], 0)
  {
    assert [] + s[0..] == s;
  }

  lemma WritePair(before: seq<int>, after: seq<int>, j: nat, i: nat, start: int, end: int, s: seq<int>)
    requires |before| == |s| && j + 2 <= i <= |s| && before[i..] == s[i..] && after == before[j := start][j + 1 := end]
    ensures |after| == |s| && after[..j + 2] == before[..j] + [start, end] && after[i..] == s[i..]
  {
    TailAt(before, s, i);
  }

  /** The interval at i together with all the following ones that overlap or touch it. */
  method GrowInterval(p: seq<int>, i0: nat, ghost s: seq<int>, ghost out: seq<int>) returns (start: int, end: int, i: nat)
    requires |p| == |s| && |s| % 2 == 0 && Forward(s) && i0 + 1 < |s| && p[i0..] == s[i0..] && i0 % 2 == 0
    requires Growing(s, out, s[i0], s[i0 + 1], i0 + 2)
    ensures i0 + 2 <= i <= |s| && i % 2 == 0 && MergedTo(s, out + [start, end], i) && |out| + 2 <= i && p[i..] == s[i..]
  {
    hide InPoints, Growing, Forward, MergedTo;
    TailAt(p, s, i0);
    start, end, i := p[i0], p[i0 + 1], i0 + 2;
    while i < |p|
      invariant i0 + 2 <= i <= |s| && i % 2 == 0 && Growing(s, out, start, end, i)
    {
      var start1, end1 := p[i], p[i + 1];
      if start1 > end { break; }
      GrowStep(s, out, start, end, i);
      if end1 > end { end := end1; }
      i := i + 2;
    }
    GrowEnd(s, out, start, end, i);
    GrowSize(s, out, start, end, i);
    assert p[i..] == p[i0..][i - i0..];
    assert s[i..] == s[i0..][i - i0..];
  }

  lemma GrowSize(s: seq<int>, out: seq<int>, start: int, end: int, i: nat)
    requires Growing(s, out, start, end, i)
    ensures |out| + 2 <= i
  {
  }
}
