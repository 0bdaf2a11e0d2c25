/**
 Character sets as lists of boundary points (libunicode.c): a list of ascending points stands
 for the intervals between its even and odd members.
 */
module CharRanges {
  import opened RegexpPattern
  import opened Sorting
  import Rqsort

  // ----- membership by counting -----------------------------------------------------------------------

  /** How many points are not above c. */
  function Rank(p: seq<int>, c: int): nat {
    if p == [] then 0 else Rank(p[..|p| - 1], c) + if p[|p| - 1] <= c then 1 else 0
  }

  /** c lies behind an odd number of points. */
  predicate Odd(p: seq<int>, c: int) { Rank(p, c) % 2 == 1 }

  lemma {:induction false} RankAppend(p: seq<int>, q: seq<int>, c: int)
    ensures Rank(p + q, c) == Rank(p, c) + Rank(q, c)
    decreases q
  {
    if q == [] {
      assert p + q == p;
    } else {
      assert (p + q)[..|p + q| - 1] == p + q[..|q| - 1];
      RankAppend(p, q[..|q| - 1], c);
    }
  }

  lemma RankOne(x: int, c: int)
    ensures Rank([x], c) == if x <= c then 1 else 0
  {
    assert [x][..0] == [];
  }

  lemma {:induction false} RankAll(p: seq<int>, c: int)
    requires forall i :: 0 <= i < |p| ==> p[i] <= c
    ensures Rank(p, c) == |p|
    decreases p
  {
    if p != [] { RankAll(p[..|p| - 1], c); }
  }

  lemma {:induction false} RankNone(p: seq<int>, c: int)
    requires forall i :: 0 <= i < |p| ==> p[i] > c
    ensures Rank(p, c) == 0
    decreases p
  {
    if p != [] { RankNone(p[..|p| - 1], c); }
  }

  /** Two equal neighbours cancel. */
  lemma PairDrops(p: seq<int>, x: int, q: seq<int>, c: int)
    ensures Odd(p + [x] + ([x] + q), c) == Odd(p + q, c)
  {
    hide Rank;
    RankAppend(p + [x], [x] + q, c);
    RankAppend(p, [x], c);
    RankAppend([x], q, c);
    RankAppend(p, q, c);
  }

  /** For ascending points, counting decides membership. */
  lemma {:induction false} OddIsIn(p: seq<int>, c: int)
    requires Ascending(p) && |p| % 2 == 0
    ensures Odd(p, c) <==> InPoints(p, c)
    decreases |p|
  {
    if p != [] {
      var n := |p| - 2;
      var q, x, y := p[..n], p[n], p[n + 1];
      OddIsIn(q, c);
      assert p == (q + [x]) + [y];
      hide Rank;
      RankAppend(q + [x], [y], c);
      RankAppend(q, [x], c);
      RankOne(x, c);
      RankOne(y, c);
      if x <= c { RankAll(q, c); }
      LastInterval(p, c);
    }
  }

  lemma LastInterval(p: seq<int>, c: int)
    requires |p| >= 2 && |p| % 2 == 0
    ensures InPoints(p, c) <==> InPoints(p[..|p| - 2], c) || p[|p| - 2] <= c < p[|p| - 1]
  {
    var n := |p| - 2;
    var q := p[..n];
    if InPoints(p, c) {
      var i :| 0 <= i < |p| / 2 && InInterval(p, i, c);
      if i < n / 2 { assert InInterval(q, i, c); }
    }
    if InPoints(q, c) {
      var i :| 0 <= i < |q| / 2 && InInterval(q, i, c);
      assert InInterval(p, i, c);
    }
    if p[n] <= c < p[n + 1] { assert InInterval(p, n / 2, c); }
  }

  ghost predicate Strict(p: seq<int>) { forall i, j :: 0 <= i < j < |p| ==> p[i] < p[j] }

  /** Points of 32-bit unsigned integers. */
  ghost predicate Bounded(p: seq<int>) { forall i :: 0 <= i < |p| ==> 0 <= p[i] <= UINT32_MAX }

  lemma StrictCanonical(p: seq<int>)
    requires Strict(p) && |p| % 2 == 0
    ensures Bounded(p) <==> Canonical(p)
  {
  }

  /** Points taken from bounded lists. */
  lemma BoundedFrom(p: seq<int>, a: seq<int>, b: seq<int>)
    requires Bounded(a) && Bounded(b) && forall k :: 0 <= k < |p| ==> p[k] in a + b
    ensures Bounded(p)
  {
  }

  /** Strictly ascending points are as bounded as their set. */
  lemma StrictBounded(p: seq<int>)
    requires Strict(p) && |p| % 2 == 0 && forall c :: InPoints(p, c) ==> 0 <= c < UINT32_MAX
    ensures Bounded(p)
  {
    forall i | 0 <= i < |p| ensures 0 <= p[i] <= UINT32_MAX {
      var k := i / 2;
      assert p[2 * k] < p[2 * k + 1];
      assert InInterval(p, k, p[2 * k]) && InInterval(p, k, p[2 * k + 1] - 1);
      assert InPoints(p, p[2 * k]) && InPoints(p, p[2 * k + 1] - 1);
      assert i == 2 * k || i == 2 * k + 1;
    }
  }

  // ----- set operations -------------------------------------------------------------------------------

  datatype SetOp = CR_OP_UNION | CR_OP_INTER | CR_OP_XOR | CR_OP_SUB

  predicate Combine(op: SetOp, a: bool, b: bool) {
    match op
    case CR_OP_UNION => a || b
    case CR_OP_INTER => a && b
    case CR_OP_XOR => a != b
    case CR_OP_SUB => a && !b
  }

  lemma CombineMeans(op: SetOp)
    ensures match op
      case CR_OP_UNION => forall x, y :: Combine(op, x, y) == (x || y)
      case CR_OP_INTER => forall x, y :: Combine(op, x, y) == (x && y)
      case CR_OP_XOR => forall x, y :: Combine(op, x, y) == (x != y)
      case CR_OP_SUB => forall x, y :: Combine(op, x, y) == (x && !y)
  {
  }

  /** All points of p are at most v. */
  ghost predicate UpTo(p: seq<int>, v: int) { forall i :: 0 <= i < |p| ==> p[i] <= v }

  /** One more point v of a or b or both, in ascending order, and its effect on the result. */
  lemma OpStep(op: SetOp, a: seq<int>, b: seq<int>, r: seq<int>, v: int, a': seq<int>, b': seq<int>, r': seq<int>)
    requires UpTo(a, v) && UpTo(b, v) && UpTo(r, v)
    requires (a' == a || a' == a + [v]) && (b' == b || b' == b + [v]) && (r' == r || r' == r + [v])
    requires (|r'| % 2 == 1) == Combine(op, |a'| % 2 == 1, |b'| % 2 == 1)
    requires forall c :: Odd(r, c) == Combine(op, Odd(a, c), Odd(b, c))
    ensures forall c :: Odd(r', c) == Combine(op, Odd(a', c), Odd(b', c))
  {
    hide Combine;
    forall c ensures Odd(r', c) == Combine(op, Odd(a', c), Odd(b', c)) {
      if c < v {
        Beyond(a, v, c);
        Beyond(b, v, c);
        Beyond(r, v, c);
        assert Odd(r, c) == Combine(op, Odd(a, c), Odd(b, c));
      } else {
        RankAll(a', c);
        RankAll(b', c);
        RankAll(r', c);
      }
    }
  }

  lemma Beyond(p: seq<int>, v: int, c: int)
    requires c < v
    ensures Rank(p + [v], c) == Rank(p, c)
  {
    hide Rank;
    RankAppend(p, [v], c);
    RankOne(v, c);
  }

  // ----- compression ----------------------------------------------------------------------------------

  /** The state of cr_compress: out is done, the points from i on are still to be read. */
  ghost predicate Compressed(s: seq<int>, out: seq<int>, i: nat) {
    && i <= |s| && i % 2 == 0 && Strict(out) && |out| % 2 == 0 && |out| <= i
    && (out != [] && i < |s| ==> out[|out| - 1] < s[i])
    && (forall k :: 0 <= k < |out| ==> out[k] in s)
    && forall c :: Odd(out + s[i..], c) == Odd(s, c)
  }

  lemma CompressedStart(s: seq<int>)
    ensures Compressed(s, [], 0)
  {
    assert [] + s[0..] == s;
  }

  /** An empty interval is dropped. */
  lemma CompressedEmpty(s: seq<int>, out: seq<int>, i: nat)
    requires Compressed(s, out, i) && Ascending(s) && |s| % 2 == 0 && i + 1 < |s| && s[i] == s[i + 1]
    ensures Compressed(s, out, i + 2)
  {
    hide Rank;
    var q := s[i + 2..];
    forall c ensures Odd(out + q, c) == Odd(s, c) {
      PairDrops(out, s[i], q, c);
      assert out + s[i..] == out + [s[i]] + ([s[i]] + q);
      assert Odd(out + s[i..], c) == Odd(s, c);
    }
  }

  /** Intervals that touch, up to the one that starts at j. */
  ghost predicate Touching(s: seq<int>, i: nat, j: nat) {
    && i <= j && (j - i) % 2 == 0 && j + 1 < |s|
    && forall k :: i <= k < j && (k - i) % 2 == 0 ==> Joined(s, k)
  }

  predicate Joined(s: seq<int>, k: nat) { k + 2 < |s| && s[k + 1] == s[k + 2] }

  /** Only the outer points of touching intervals count. */
  lemma {:induction false} TouchingRank(s: seq<int>, i: nat, j: nat, p: seq<int>, c: int)
    requires Touching(s, i, j)
    ensures Odd(p + s[i..], c) == Odd(p + [s[i]] + s[j + 1..], c)
    decreases j - i
  {
    hide Rank;
    if i == j {
      assert p + s[i..] == p + [s[i]] + s[i + 1..];
    } else {
      assert Joined(s, i);
      var x, q := s[i + 1], s[i + 3..];
      assert p + s[i..] == (p + [s[i]]) + [x] + ([x] + q);
      PairDrops(p + [s[i]], x, q, c);
      // the same list, seen from the next interval with s[i] in front
      assert Touching(s, i + 2, j);
      TouchingRank(s, i + 2, j, p + [s[i]] + [x], c);
      assert p + [s[i]] + [x] + s[i + 2..] == p + s[i..] by { assert s[i..] == [s[i]] + [x] + s[i + 2..]; }
      var r := s[j + 1..];
      assert p + [s[i]] + [x] + [s[i + 2]] + r == (p + [s[i]]) + [x] + ([x] + r);
      PairDrops(p + [s[i]], x, r, c);
    }
  }

  lemma CompressedMerge(s: seq<int>, out: seq<int>, i: nat, j: nat)
    requires Compressed(s, out, i) && Ascending(s) && |s| % 2 == 0 && Touching(s, i, j) && s[i] != s[i + 1]
    requires j + 3 < |s| ==> s[j + 1] != s[j + 2]
    ensures Compressed(s, out + [s[i], s[j + 1]], j + 2)
  {
    hide Rank;
    var out' := out + [s[i], s[j + 1]];
    assert s[i] < s[i + 1] <= s[j + 1];
    forall c ensures Odd(out' + s[j + 2..], c) == Odd(s, c) {
      TouchingRank(s, i, j, out, c);
      assert out + [s[i]] + s[j + 1..] == out' + s[j + 2..];
      assert Odd(out + s[i..], c) == Odd(s, c);
    }
  }

  lemma CompressedEnd(s: seq<int>, out: seq<int>, i: nat)
    requires Compressed(s, out, i) && i >= |s| && |s| % 2 == 0 && Ascending(s)
    ensures Strict(out) && |out| % 2 == 0 && forall c :: InPoints(out, c) <==> InPoints(s, c)
  {
    hide Rank;
    assert out + s[i..] == out;
    forall c ensures InPoints(out, c) <==> InPoints(s, c) {
      assert Odd(out + s[i..], c) == Odd(s, c);
      OddIsIn(out, c);
      OddIsIn(s, c);
    }
  }

  class CharRange {
    var points: seq<int>

    constructor ()
      ensures points == []
    {
      points := [];
    }

    /** cr_add_interval. */
    method AddInterval(c1: int, c2: int)
      modifies this
      ensures points == old(points) + [c1, c2]
    {
      points := points + [c1, c2];
    }

    /** cr_compress: merges and removes intervals in place until the points ascend strictly. */
    method Compress()
      requires Ascending(points) && |points| % 2 == 0
      modifies this
      ensures Strict(points) && |points| % 2 == 0 && forall k :: 0 <= k < |points| ==> points[k] in old(points)
      ensures forall c :: InPoints(points, c) <==> InPoints(old(points), c)
    {
      hide Compressed, Touching, Strict, Ascending, InPoints;
      ghost var s, out := points, [];
      var len, i, k := |points|, 0, 0;
      CompressedStart(s);
      CompressedSize(s, [], 0);
      while i + 1 < len
        invariant len == |s| == |points| && k == |out| <= i <= len && i % 2 == 0 && Compressed(s, out, i)
        invariant points[..k] == out && points[i..] == s[i..]
      {
        TailAt(points, s, i);
        if points[i] == points[i + 1] {
          CompressedEmpty(s, out, i);
          i := i + 2;
        } else {
          var j := FindEnd(points, i, s);
          CompressedMerge(s, out, i, j);
          ghost var before := points;
          points := points[k := points[i]];
          points := points[k + 1 := points[j + 1]];
          InPlace(before, points, k, i, j, s);
          out := out + [s[i], s[j + 1]];
          k := k + 2;
          i := j + 2;
        }
        CompressedSize(s, out, i);
      }
      points := points[..k];
      CompressedEnd(s, out, i);
      CompressedPoints(s, out, i);
    }

    /** cr_op: the union, intersection, symmetric difference or difference of two sets. */
    method Op(a: seq<int>, b: seq<int>, op: SetOp)
      requires points == [] && Ascending(a) && Ascending(b) && |a| % 2 == 0 && |b| % 2 == 0
      modifies this
      ensures Strict(points) && |points| % 2 == 0 && forall k :: 0 <= k < |points| ==> points[k] in a + b
      ensures forall c :: InPoints(points, c) <==> Combine(op, InPoints(a, c), InPoints(b, c))
      ensures match op
        case CR_OP_UNION => forall c :: InPoints(points, c) <==> InPoints(a, c) || InPoints(b, c)
        case CR_OP_INTER => forall c :: InPoints(points, c) <==> InPoints(a, c) && InPoints(b, c)
        case CR_OP_XOR => forall c :: InPoints(points, c) <==> InPoints(a, c) != InPoints(b, c)
        case CR_OP_SUB => forall c :: InPoints(points, c) <==> InPoints(a, c) && !InPoints(b, c)
    {
      hide Merged, Strict, Ascending, InPoints, Combine, Odd;
      var ai, bi := 0, 0;
      MergedStart(op, a, b);
      while ai < |a| || bi < |b|
        invariant 0 <= ai <= |a| && 0 <= bi <= |b| && Merged(op, a, b, ai, bi, points)
        decreases |a| - ai + |b| - bi
      {
        // v is the least point not yet read
        ghost var ai0, bi0 := ai, bi;
        var v;
        if ai < |a| && bi < |b| {
          if a[ai] < b[bi] {
            v, ai := a[ai], ai + 1;
          } else if a[ai] == b[bi] {
            v, ai, bi := a[ai], ai + 1, bi + 1;
          } else {
            v, bi := b[bi], bi + 1;
          }
        } else if ai < |a| {
          v, ai := a[ai], ai + 1;
        } else {
          v, bi := b[bi], bi + 1;
        }
        // an odd number of points means that the characters just below v are in the result
        var isIn := Combine(op, ai % 2 == 1, bi % 2 == 1);
        MergedStep(op, a, b, ai0, bi0, points, v, ai, bi, if isIn != (|points| % 2 == 1) then points + [v] else points);
        if isIn != (|points| % 2 == 1) { points := points + [v]; }
      }
      MergedEnd(op, a, b, points);
      ghost var raw := points;
      Compress();
      CombineMeans(op);
    }

    /** cr_op1. */
    method Op1(b: seq<int>, op: SetOp)
      requires Ascending(points) && Ascending(b) && |points| % 2 == 0 && |b| % 2 == 0
      modifies this
      ensures Strict(points) && |points| % 2 == 0 && forall k :: 0 <= k < |points| ==> points[k] in old(points) + b
      ensures forall c :: InPoints(points, c) <==> Combine(op, InPoints(old(points), c), InPoints(b, c))
    {
      var a := points;
      points := [];
      Op(a, b, op);
    }

    /** cr_union_interval: adds the characters c1 to c2; c2 + 1 must be a 32-bit number. */
    method UnionInterval(c1: int, c2: int)
      requires Ascending(points) && Bounded(points) && |points| % 2 == 0 && 0 <= c1 <= c2 < UINT32_MAX
      modifies this
      ensures Strict(points) && Bounded(points) && |points| % 2 == 0
      ensures forall c :: InPoints(points, c) <==> InPoints(old(points), c) || c1 <= c <= c2
    {
      hide Strict, InPoints;
      var b := [c1, c2 + 1];
      forall c ensures InPoints(b, c) <==> c1 <= c <= c2 { OneInterval(c1, c2 + 1, c); }
      Op1(b, CR_OP_UNION);
    }

    /** cr_invert: the complement below UINT32_MAX. */
    method Invert()
      requires Ascending(points) && Bounded(points) && |points| % 2 == 0
      modifies this
      ensures Strict(points) && Bounded(points) && |points| % 2 == 0
      ensures forall c :: 0 <= c < UINT32_MAX ==> (InPoints(points, c) <==> !InPoints(old(points), c))
      ensures forall c :: InPoints(points, c) ==> 0 <= c < UINT32_MAX
    {
      hide Strict, InPoints;
      ghost var s := points;
      points := [0] + points + [UINT32_MAX];
      ghost var t := points;
      forall c ensures 0 <= c < UINT32_MAX ==> (InPoints(t, c) <==> !InPoints(s, c))
               ensures InPoints(t, c) ==> 0 <= c < UINT32_MAX { Complement(s, c); }
      Compress();
    }
  }

  lemma CompressedSize(s: seq<int>, out: seq<int>, i: nat)
    requires Compressed(s, out, i)
    ensures |out| <= i <= |s| && i % 2 == 0
  {
  }

  lemma CompressedPoints(s: seq<int>, out: seq<int>, i: nat)
    requires Compressed(s, out, i)
    ensures forall k :: 0 <= k < |out| ==> out[k] in s
  {
  }

  lemma TailAt(p: seq<int>, s: seq<int>, i: nat)
    requires |p| == |s| && i <= |s| && p[i..] == s[i..]
    ensures forall k :: i <= k < |s| ==> p[k] == s[k]
  {
    forall k | i <= k < |s| ensures p[k] == s[k] { assert p[k] == p[i..][k - i] == s[i..][k - i] == s[k]; }
  }

  /** The interval up to which the ones from i on touch. */
  method FindEnd(p: seq<int>, i: nat, ghost s: seq<int>) returns (j: nat)
    requires |p| == |s| && i + 1 < |s| && |s| % 2 == 0 && i % 2 == 0 && p[i..] == s[i..]
    ensures Touching(s, i, j) && (j + 3 < |s| ==> s[j + 1] != s[j + 2]) && j % 2 == 0
  {
    TailAt(p, s, i);
    j := i;
    while j + 3 < |p| && p[j + 1] == p[j + 2]
      invariant Touching(s, i, j) && j % 2 == 0
      decreases |p| - j
    {
      assert Joined(s, j);
      j := j + 2;
    }
  }

  /** Writing two points below what is still to be read. */
  lemma InPlace(before: seq<int>, after: seq<int>, k: nat, i: nat, j: nat, s: seq<int>)
    requires |before| == |s| && k <= i <= j && j + 1 < |s| && before[i..] == s[i..]
    requires after == before[k := before[i]][k + 1 := before[k := before[i]][j + 1]]
    ensures |after| == |s| && after[..k + 2] == before[..k] + [s[i], s[j + 1]] && after[j + 2..] == s[j + 2..]
  {
    TailAt(before, s, i);
  }

  // ----- proofs about cr_op ---------------------------------------------------------------------------

  /** The points before ai and bi have been merged into r, and all the others lie above. */
  ghost predicate Merged(op: SetOp, a: seq<int>, b: seq<int>, ai: nat, bi: nat, r: seq<int>) {
    && ai <= |a| && bi <= |b| && Ascending(r)
    && (forall k :: 0 <= k < |r| ==> r[k] in a + b)
    && (ai < |a| ==> UpTo(a[..ai], a[ai]) && UpTo(b[..bi], a[ai]) && UpTo(r, a[ai]))
    && (bi < |b| ==> UpTo(a[..ai], b[bi]) && UpTo(b[..bi], b[bi]) && UpTo(r, b[bi]))
    && ((|r| % 2 == 1) == Combine(op, ai % 2 == 1, bi % 2 == 1))
    && forall c :: Odd(r, c) == Combine(op, Odd(a[..ai], c), Odd(b[..bi], c))
  }

  lemma MergedStart(op: SetOp, a: seq<int>, b: seq<int>)
    ensures Merged(op, a, b, 0, 0, [])
  {
    assert a[..0] == [] && b[..0] == [];
    assert forall c :: !Odd([], c);
  }

  lemma MergedStep(op: SetOp, a: seq<int>, b: seq<int>, ai: nat, bi: nat, r: seq<int>, v: int, ai': nat, bi': nat, r': seq<int>)
    requires Merged(op, a, b, ai, bi, r) && Ascending(a) && Ascending(b)
    requires ai' <= |a| && bi' <= |b| && (ai' == ai || ai' == ai + 1) && (bi' == bi || bi' == bi + 1) && ai' + bi' > ai + bi
    requires (ai' > ai ==> a[ai] == v) && (bi' > bi ==> b[bi] == v)
    requires (ai' == ai && ai < |a| ==> v < a[ai]) && (bi' == bi && bi < |b| ==> v < b[bi])
    requires r' == if Combine(op, ai' % 2 == 1, bi' % 2 == 1) != (|r| % 2 == 1) then r + [v] else r
    ensures Merged(op, a, b, ai', bi', r')
  {
    hide Combine, Odd;
    assert ai' > ai ==> a[..ai'] == a[..ai] + [v];
    assert bi' > bi ==> b[..bi'] == b[..bi] + [v];
    assert UpTo(a[..ai], v) && UpTo(b[..bi], v) && UpTo(r, v);
    OpStep(op, a[..ai], b[..bi], r, v, a[..ai'], b[..bi'], r');
    assert v in a + b by { if ai' > ai { assert (a + b)[ai] == v; } else { assert (a + b)[|a| + bi] == v; } }
  }

  lemma MergedEnd(op: SetOp, a: seq<int>, b: seq<int>, r: seq<int>)
    requires Merged(op, a, b, |a|, |b|, r) && Ascending(a) && Ascending(b) && |a| % 2 == 0 && |b| % 2 == 0
    ensures Ascending(r) && |r| % 2 == 0 && forall k :: 0 <= k < |r| ==> r[k] in a + b
    ensures forall c :: InPoints(r, c) <==> Combine(op, InPoints(a, c), InPoints(b, c))
  {
    assert !Combine(op, false, false);
    hide Odd, Combine, InPoints;
    assert a[..|a|] == a && b[..|b|] == b;
    forall c ensures InPoints(r, c) <==> Combine(op, InPoints(a, c), InPoints(b, c)) {
      OddIsIn(r, c);
      OddIsIn(a, c);
      OddIsIn(b, c);
      assert Odd(r, c) == Combine(op, Odd(a[..|a|], c), Odd(b[..|b|], c));
    }
  }

  lemma OneInterval(x: int, y: int, c: int)
    ensures InPoints([x, y], c) <==> x <= c < y
  {
    LastInterval([x, y], c);
    assert [x, y][..0] == [];
  }

  // ----- proofs about cr_invert -----------------------------------------------------------------------

  lemma Complement(s: seq<int>, c: int)
    requires Ascending(s) && Bounded(s) && |s| % 2 == 0
    ensures var t := [0] + s + [UINT32_MAX];
      && Ascending(t) && |t| % 2 == 0 && (0 <= c < UINT32_MAX ==> (InPoints(t, c) <==> !InPoints(s, c)))
      && (InPoints(t, c) ==> 0 <= c < UINT32_MAX)
  {
    var t := [0] + s + [UINT32_MAX];
    assert Ascending(t);
    hide Rank, InPoints;
    OddIsIn(s, c);
    OddIsIn(t, c);
    RankAppend([0] + s, [UINT32_MAX], c);
    RankAppend([0], s, c);
    RankOne(0, c);
    RankOne(UINT32_MAX, c);
    if c >= UINT32_MAX { RankAll(s, c); }
    if c < 0 { RankNone(s, c); }
  }

  /** Canonical lists are determined by their sets. */
  lemma {:induction false} CanonicalUnique(p: seq<int>, q: seq<int>)
    requires Strict(p) && Strict(q) && Bounded(p) && Bounded(q) && |p| % 2 == |q| % 2
    requires forall c :: 0 <= c < UINT32_MAX ==> Odd(p, c) == Odd(q, c)
    ensures p == q
    decreases |p| + |q|
  {
    hide Rank;
    if p != [] && q != [] {
      if p[0] < q[0] { FirstDiffers(p, q); assert false; }
      if q[0] < p[0] { FirstDiffers(q, p); assert false; }
      forall c | 0 <= c < UINT32_MAX ensures Odd(p[1..], c) == Odd(q[1..], c) {
        assert Odd(p, c) == Odd(q, c);
        Without(p, c);
        Without(q, c);
      }
      CanonicalUnique(p[1..], q[1..]);
      assert p == [p[0]] + p[1..] && q == [q[0]] + q[1..];
    } else if p != [] {
      OnlyFirst(p);
    } else if q != [] {
      OnlyFirst(q);
    }
  }

  lemma Without(p: seq<int>, c: int)
    requires p != []
    ensures Rank(p, c) == Rank(p[1..], c) + if p[0] <= c then 1 else 0
  {
    hide Rank;
    assert p == [p[0]] + p[1..];
    RankAppend([p[0]], p[1..], c);
    RankOne(p[0], c);
  }

  /** The smaller first point belongs to one set only. */
  lemma FirstDiffers(p: seq<int>, q: seq<int>)
    requires Strict(p) && Strict(q) && Bounded(p) && Bounded(q) && p != [] && q != [] && p[0] < q[0]
    ensures 0 <= p[0] < UINT32_MAX && Odd(p, p[0]) && !Odd(q, p[0])
  {
    hide Rank;
    Without(p, p[0]);
    RankNone(p[1..], p[0]);
    RankNone(q, p[0]);
  }

  lemma OnlyFirst(p: seq<int>)
    requires Strict(p) && Bounded(p) && |p| % 2 == 0 && p != []
    ensures 0 <= p[0] < UINT32_MAX && Odd(p, p[0]) && !Odd([], p[0])
  {
    hide Rank;
    assert p[0] < p[1];
    Without(p, p[0]);
    RankNone(p[1..], p[0]);
    RankNone([], p[0]);
  }

  /** Inverting twice gives the list back, point by point. */
  lemma InvertTwice(p: seq<int>, q: seq<int>, r: seq<int>)
    requires Strict(p) && Strict(q) && Strict(r) && Bounded(p) && Bounded(q) && Bounded(r)
    requires |p| % 2 == 0 && |q| % 2 == 0 && |r| % 2 == 0
    requires forall c :: 0 <= c < UINT32_MAX ==> (InPoints(q, c) <==> !InPoints(p, c))
    requires forall c :: 0 <= c < UINT32_MAX ==> (InPoints(r, c) <==> !InPoints(q, c))
    ensures r == p
  {
    hide Odd, InPoints;
    forall c | 0 <= c < UINT32_MAX ensures Odd(p, c) == Odd(r, c) {
      OddIsIn(p, c);
      OddIsIn(r, c);
      assert InPoints(q, c) <==> !InPoints(p, c);
    }
    CanonicalUnique(p, r);
  }

  /** cr_invert undoes itself. */
  method InvertBack(cr: CharRange)
    requires Strict(cr.points) && Bounded(cr.points) && |cr.points| % 2 == 0
    modifies cr
    ensures cr.points == old(cr.points)
  {
    hide InPoints;
    ghost var p := cr.points;
    cr.Invert();
    ghost var q := cr.points;
    cr.Invert();
    InvertTwice(p, q, cr.points);
  }
}
