/**
 rqsort itself: the parts still to be sorted lie on a stack of fixed size.
 */
module Rqsort {
  import opened Sorting

  /** A part of the array that is still to be sorted. */
  datatype Seg = Seg(base: nat, count: nat, depth: nat)

  const STACK_SIZE: nat := 50
  const MAX_DEPTH: nat := 50

  predicate Inside(g: Seg, i: nat) { g.base <= i < g.base + g.count }

  ghost predicate Together(stack: seq<Seg>, i: nat, j: nat) {
    exists k :: 0 <= k < |stack| && Inside(stack[k], i) && Inside(stack[k], j)
  }

  /** Any two elements are in order unless they lie in the same part of the stack or both in the
      part from lo to hi. */
  ghost predicate Settled<T>(s: seq<T>, stack: seq<Seg>, lo: nat, hi: nat, cmp: (T, T) -> int) {
    forall i, j :: 0 <= i < j < |s| ==> Together(stack, i, j) || (lo <= i && j < hi) || Ord(cmp, s[i], s[j]) <= 0
  }

  /** The parts on the stack do not overlap each other or the part from lo to hi. */
  ghost predicate Apart(stack: seq<Seg>, lo: nat, hi: nat, n: nat) {
    && (forall k :: 0 <= k < |stack| ==> Clear(stack[k], lo, hi) && stack[k].base + stack[k].count <= n)
    && (forall k, m :: 0 <= k < m < |stack| ==> Clear(stack[m], stack[k].base, stack[k].base + stack[k].count))
  }

  predicate Clear(g: Seg, lo: nat, hi: nat) { g.base + g.count <= lo || hi <= g.base || g.count == 0 || lo >= hi }

  /** Entries are at least as deep as their place on the stack. */
  ghost predicate Deep(stack: seq<Seg>) { forall k :: 0 <= k < |stack| ==> stack[k].depth >= k }

  function Weight(stack: seq<Seg>): nat {
    if stack == [] then 0 else Weight(stack[..|stack| - 1]) + 2 * stack[|stack| - 1].count + 1
  }

  // ----- median of three ------------------------------------------------------------------------------

  /** med3: the position of an element that is neither smaller nor greater than both others. */
  method Med3<T(!new)>(a: array<T>, x: nat, y: nat, z: nat, cmp: (T, T) -> int) returns (m: nat)
    requires x < a.Length && y < a.Length && z < a.Length && Preorder(cmp)
    ensures m in {x, y, z}
    ensures exists p, q :: {m, p, q} == {x, y, z} && p < a.Length && q < a.Length
                           && Ord(cmp, a[p], a[m]) <= 0 && Ord(cmp, a[m], a[q]) <= 0
  {
    hide Ord;
    if Ord(cmp, a[x], a[y]) < 0 {
      if Ord(cmp, a[y], a[z]) < 0 { return y; }
      if Ord(cmp, a[x], a[z]) < 0 { return z; }
      return x;
    }
    if Ord(cmp, a[y], a[z]) > 0 { return y; }
    if Ord(cmp, a[x], a[z]) < 0 { return x; }
    return z;
  }

  // ----- keeping what is settled ----------------------------------------------------------------------

  /** Elements outside the current part are in order with everything inside it. */
  lemma SettledOutside<T(!new)>(s: seq<T>, t: seq<T>, stack: seq<Seg>, lo: nat, hi: nat, cmp: (T, T) -> int, i: nat, j: nat)
    requires Settled(s, stack, lo, hi, cmp) && Apart(stack, lo, hi, |s|) && Permutes(s, t, lo, hi)
    requires i < j < |s| && !(lo <= i && j < hi)
    ensures Together(stack, i, j) || Ord(cmp, t[i], t[j]) <= 0
  {
    hide Ord;
    OutsideSame(s, t, lo, hi);
    if lo <= i < hi {
      forall k | lo <= k < hi ensures Ord(cmp, s[k], s[j]) <= 0 { NotTogether(stack, lo, hi, |s|, k, j); }
      PermutesKeeps(s, t, lo, hi, x => Ord(cmp, x, s[j]) <= 0);
    } else if lo <= j < hi {
      forall k | lo <= k < hi ensures Ord(cmp, s[i], s[k]) <= 0 { NotTogether(stack, lo, hi, |s|, k, i); }
      PermutesKeeps(s, t, lo, hi, x => Ord(cmp, s[i], x) <= 0);
    }
  }

  lemma OutsideSame<T>(s: seq<T>, t: seq<T>, lo: nat, hi: nat)
    requires Permutes(s, t, lo, hi)
    ensures forall k :: 0 <= k < |s| && !(lo <= k < hi) ==> t[k] == s[k]
  {
    forall k | 0 <= k < |s| && !(lo <= k < hi) ensures t[k] == s[k] {
      if k < lo {
        assert t[k] == t[..lo][k] == s[..lo][k] == s[k];
      } else {
        assert t[k] == t[hi..][k - hi] == s[hi..][k - hi] == s[k];
      }
    }
  }

  lemma SameLength<T>(s: seq<T>, t: seq<T>, lo: nat, hi: nat)
    requires Permutes(s, t, lo, hi)
    ensures |s| == |t|
  {
  }

  lemma NotTogether(stack: seq<Seg>, lo: nat, hi: nat, n: nat, k: nat, j: nat)
    requires Apart(stack, lo, hi, n) && lo <= k < hi
    ensures !Together(stack, k, j) && !Together(stack, j, k)
  {
  }

  /** The current part is sorted. */
  lemma SettledSorted<T(!new)>(s: seq<T>, t: seq<T>, stack: seq<Seg>, lo: nat, hi: nat, cmp: (T, T) -> int)
    requires Settled(s, stack, lo, hi, cmp) && Apart(stack, lo, hi, |s|) && Permutes(s, t, lo, hi) && SortedPart(t, lo, hi, cmp)
    ensures Settled(t, stack, 0, 0, cmp)
  {
    hide Ord, Permutes;
    SameLength(s, t, lo, hi);
    forall i, j | 0 <= i < j < |t| ensures Together(stack, i, j) || Ord(cmp, t[i], t[j]) <= 0 {
      if !(lo <= i && j < hi) { SettledOutside(s, t, stack, lo, hi, cmp, i, j); }
    }
  }

  /** Elements of different groups of a partition are in order. */
  lemma ThreeOrder<T(!new)>(t: seq<T>, x: T, lo: nat, l: nat, g: nat, hi: nat, cmp: (T, T) -> int, i: nat, j: nat)
    requires Three(t, x, lo, l, g, hi, cmp) && Preorder(cmp) && lo <= i < j < hi && !(j < l) && !(g <= i)
    ensures Ord(cmp, t[i], t[j]) <= 0
  {
    hide Ord;
    assert Ord(cmp, x, t[i]) >= 0 && Ord(cmp, x, t[j]) <= 0;
  }

  /** The current part is partitioned; the left part goes on the stack or the right one. */
  lemma SettledThree<T(!new)>(s: seq<T>, t: seq<T>, stack: seq<Seg>, x: T, lo: nat, l: nat, g: nat, hi: nat, d: nat, cmp: (T, T) -> int)
    requires Settled(s, stack, lo, hi, cmp) && Apart(stack, lo, hi, |s|) && Permutes(s, t, lo, hi)
    requires Three(t, x, lo, l, g, hi, cmp) && Preorder(cmp)
    ensures lo <= l < g <= hi
    ensures Settled(t, stack + [Seg(lo, l - lo, d)], g, hi, cmp)
    ensures Settled(t, stack + [Seg(g, hi - g, d)], lo, l, cmp)
  {
    hide Ord, Permutes;
    SameLength(s, t, lo, hi);
    ThreeRange(t, x, lo, l, g, hi, cmp);
    hide Three, Preorder;
    var st1, st2 := stack + [Seg(lo, l - lo, d)], stack + [Seg(g, hi - g, d)];
    forall i, j | 0 <= i < j < |t|
      ensures Together(st1, i, j) || (g <= i && j < hi) || Ord(cmp, t[i], t[j]) <= 0
      ensures Together(st2, i, j) || (lo <= i && j < l) || Ord(cmp, t[i], t[j]) <= 0
    {
      TogetherMore(stack, Seg(lo, l - lo, d), i, j);
      TogetherMore(stack, Seg(g, hi - g, d), i, j);
      if !(lo <= i && j < hi) {
        SettledOutside(s, t, stack, lo, hi, cmp, i, j);
      } else if !(j < l) && !(g <= i) {
        ThreeOrder(t, x, lo, l, g, hi, cmp, i, j);
      }
    }
  }

  lemma TogetherMore(stack: seq<Seg>, g: Seg, i: nat, j: nat)
    ensures Together(stack, i, j) ==> Together(stack + [g], i, j)
    ensures Inside(g, i) && Inside(g, j) ==> Together(stack + [g], i, j)
  {
    var st := stack + [g];
    if Together(stack, i, j) {
      var k :| 0 <= k < |stack| && Inside(stack[k], i) && Inside(stack[k], j);
      assert Inside(st[k], i);
    }
    if Inside(g, i) && Inside(g, j) { assert Inside(st[|stack|], i); }
  }

  lemma ApartPush(stack: seq<Seg>, lo: nat, hi: nat, n: nat, g: Seg, lo': nat, hi': nat)
    requires Apart(stack, lo, hi, n) && hi <= n && lo <= g.base && g.base + g.count <= hi && lo <= lo' <= hi' <= hi
    requires g.base + g.count <= lo' || hi' <= g.base
    ensures Apart(stack + [g], lo', hi', n)
  {
  }

  /** Takes the top of the stack as the current part. */
  lemma PopSeg<T>(s: seq<T>, stack: seq<Seg>, cmp: (T, T) -> int)
    requires stack != [] && Settled(s, stack, 0, 0, cmp) && Apart(stack, 0, 0, |s|)
    ensures var g := stack[|stack| - 1]; var rest := stack[..|stack| - 1];
      Settled(s, rest, g.base, g.base + g.count, cmp) && Apart(rest, g.base, g.base + g.count, |s|)
  {
    hide Ord;
    var g, rest := stack[|stack| - 1], stack[..|stack| - 1];
    forall i, j | 0 <= i < j < |s|
      ensures Together(rest, i, j) || (g.base <= i && j < g.base + g.count) || Ord(cmp, s[i], s[j]) <= 0
    {
      if Together(stack, i, j) && !(g.base <= i && j < g.base + g.count) {
        var k :| 0 <= k < |stack| && Inside(stack[k], i) && Inside(stack[k], j);
        assert Inside(rest[k], i);
      }
    }
    forall k | 0 <= k < |rest| ensures Clear(rest[k], g.base, g.base + g.count) {
      assert Clear(stack[|stack| - 1], stack[k].base, stack[k].base + stack[k].count);
    }
  }

  lemma WeightPush(stack: seq<Seg>, g: Seg)
    ensures Weight(stack + [g]) == Weight(stack) + 2 * g.count + 1
  {
    assert (stack + [g])[..|stack|] == stack;
  }

  // ----- rqsort ---------------------------------------------------------------------------------------

  /** What holds between two steps: everything outside the pending parts is in place. */
  ghost predicate Pending<T>(s: seq<T>, t: seq<T>, stack: seq<Seg>, lo: nat, hi: nat, depth: nat, cmp: (T, T) -> int) {
    && Permutes(s, t, 0, |s|) && |t| == |s| && lo <= hi <= |s|
    && Settled(t, stack, lo, hi, cmp) && Apart(stack, lo, hi, |s|)
    && Deep(stack) && |stack| <= depth
  }

  lemma PendingPop<T>(s: seq<T>, t: seq<T>, stack: seq<Seg>, cmp: (T, T) -> int)
    requires stack != [] && Permutes(s, t, 0, |s|) && |t| == |s| && Settled(t, stack, 0, 0, cmp) && Apart(stack, 0, 0, |s|) && Deep(stack)
    ensures var g := stack[|stack| - 1];
      Pending(s, t, stack[..|stack| - 1], g.base, g.base + g.count, g.depth, cmp)
    ensures Weight(stack) == Weight(stack[..|stack| - 1]) + 2 * stack[|stack| - 1].count + 1
  {
    hide Permutes, Settled, Ord;
    PopSeg(t, stack, cmp);
    var g, rest := stack[|stack| - 1], stack[..|stack| - 1];
    forall k | 0 <= k < |rest| ensures rest[k].depth >= k { assert stack[k].depth >= k; }
  }

  lemma PendingSplit<T(!new)>(s: seq<T>, t: seq<T>, u: seq<T>, stack: seq<Seg>, x: T, lo: nat, l: nat, g: nat, hi: nat, d: nat, cmp: (T, T) -> int)
    requires Pending(s, t, stack, lo, hi, d, cmp) && Permutes(t, u, lo, hi) && Three(u, x, lo, l, g, hi, cmp) && Preorder(cmp)
    ensures lo <= l < g <= hi
    ensures Pending(s, u, stack + [Seg(lo, l - lo, d + 1)], g, hi, d + 1, cmp)
    ensures Pending(s, u, stack + [Seg(g, hi - g, d + 1)], lo, l, d + 1, cmp)
  {
    hide Permutes, Settled, Ord, Three, Preorder;
    SameLength(t, u, lo, hi);
    PermutesWiden(t, u, lo, hi, 0, |s|);
    PermutesTrans(s, t, u, 0, |s|);
    SettledThree(t, u, stack, x, lo, l, g, hi, d + 1, cmp);
    ApartPush(stack, lo, hi, |s|, Seg(lo, l - lo, d + 1), g, hi);
    ApartPush(stack, lo, hi, |s|, Seg(g, hi - g, d + 1), lo, l);
    DeepPush(stack, Seg(lo, l - lo, d + 1));
    DeepPush(stack, Seg(g, hi - g, d + 1));
  }

  lemma DeepPush(stack: seq<Seg>, g: Seg)
    requires Deep(stack) && g.depth >= |stack|
    ensures Deep(stack + [g])
  {
  }

  lemma PendingSorted<T(!new)>(s: seq<T>, t: seq<T>, u: seq<T>, stack: seq<Seg>, lo: nat, hi: nat, d: nat, cmp: (T, T) -> int)
    requires Pending(s, t, stack, lo, hi, d, cmp) && Permutes(t, u, lo, hi) && SortedPart(u, lo, hi, cmp)
    ensures Permutes(s, u, 0, |s|) && |u| == |s| && Settled(u, stack, 0, 0, cmp) && Apart(stack, 0, 0, |s|) && Deep(stack)
  {
    hide Permutes, Settled, Ord, SortedPart;
    SameLength(t, u, lo, hi);
    PermutesWiden(t, u, lo, hi, 0, |s|);
    PermutesTrans(s, t, u, 0, |s|);
    SettledSorted(t, u, stack, lo, hi, cmp);
  }

  /** Chooses a pivot and partitions a[lo..hi] around it. */
  method Split<T(!new)>(a: array<T>, lo: nat, hi: nat, cmp: (T, T) -> int) returns (l: nat, g: nat, ghost x: T)
    requires lo + 6 < hi <= a.Length && Preorder(cmp)
    modifies a
    ensures Permutes(old(a[..]), a[..], lo, hi) && Three(a[..], x, lo, l, g, hi, cmp) && lo <= l < g <= hi
  {
    hide Ord, Swapped, Permutes, Parts, Three, Preorder;
    ghost var s := a[..];
    var m4 := (hi - lo) / 4;
    var m := Med3(a, lo + m4, lo + 2 * m4, lo + 3 * m4, cmp);
    Swap(a, lo, m, lo, hi);
    ghost var t := a[..];
    var plt, pi, pgt := Partition(a, lo, hi, cmp);
    PermutesTrans(s, t, a[..], lo, hi);
    x := a[lo];
    t := a[..];
    l, g := GatherEqual(a, lo, plt, pi, pgt, hi, cmp, x);
    PermutesTrans(s, t, a[..], lo, hi);
  }

  /** Sorts one part, putting what is left for later on the stack. */
  method SortSeg<T(!new)>(a: array<T>, ptr0: nat, nmemb0: nat, depth0: nat, stack0: seq<Seg>, cmp: (T, T) -> int, ghost s: seq<T>)
    returns (stack: seq<Seg>)
    requires Preorder(cmp) && Pending(s, a[..], stack0, ptr0, ptr0 + nmemb0, depth0, cmp) && |stack0| < STACK_SIZE
    modifies a
    ensures |stack| <= STACK_SIZE && Weight(stack) < Weight(stack0) + 2 * nmemb0 + 1
    ensures Permutes(s, a[..], 0, |s|) && Settled(a[..], stack, 0, 0, cmp) && Apart(stack, 0, 0, |s|) && Deep(stack) && |s| == a.Length
  {
    hide Ord, Permutes, Settled, Apart, Three, SortedPart, Preorder, Weight, Deep;
    var ptr: nat, nmemb: nat, depth: nat := ptr0, nmemb0, depth0;
    stack := stack0;
    while nmemb > 6
      invariant Pending(s, a[..], stack, ptr, ptr + nmemb, depth, cmp) && |stack| <= STACK_SIZE
      invariant Weight(stack) + 2 * nmemb + 1 <= Weight(stack0) + 2 * nmemb0 + 1
      decreases nmemb
    {
      depth := depth + 1;
      if depth > MAX_DEPTH {
        // depth bounds the stack; past it heapsort finishes the part
        ghost var t := a[..];
        HeapSort(a, ptr, ptr + nmemb, cmp);
        PendingSorted(s, t, a[..], stack, ptr, ptr + nmemb, depth - 1, cmp);
        return;
      }
      ghost var t := a[..];
      var l, g, x := Split(a, ptr, ptr + nmemb, cmp);
      PendingSplit(s, t, a[..], stack, x, ptr, l, g, ptr + nmemb, depth - 1, cmp);
      var lt, high := l - ptr, ptr + nmemb - g;
      if lt > high {
        WeightPush(stack, Seg(ptr, lt, depth));
        stack := stack + [Seg(ptr, lt, depth)];
        ptr := g;
        nmemb := high;
      } else {
        WeightPush(stack, Seg(g, high, depth));
        stack := stack + [Seg(g, high, depth)];
        nmemb := lt;
      }
    }
    ghost var t := a[..];
    InsertionSort(a, ptr, ptr + nmemb, cmp);
    PendingSorted(s, t, a[..], stack, ptr, ptr + nmemb, depth, cmp);
  }

  lemma AllSettled<T>(s: seq<T>, cmp: (T, T) -> int)
    requires Settled(s, [], 0, 0, cmp)
    ensures Sorted(s, cmp)
  {
    hide Ord;
    forall i, j | 0 <= i < j < |s| ensures Ord(cmp, s[i], s[j]) <= 0 { assert !Together([], i, j); }
  }

  lemma StartSettled<T>(s: seq<T>, cmp: (T, T) -> int)
    ensures var stack := [Seg(0, |s|, 0)];
      Settled(s, stack, 0, 0, cmp) && Apart(stack, 0, 0, |s|) && Deep(stack) && Permutes(s, s, 0, |s|)
  {
    hide Ord;
    var stack := [Seg(0, |s|, 0)];
    forall i: nat, j: nat | 0 <= i < j < |s| ensures Together(stack, i, j) { assert Inside(stack[0], i) && Inside(stack[0], j); }
  }

  /** rqsort: sorts any array by any total preorder. */
  method Sort<T(!new)>(a: array<T>, cmp: (T, T) -> int)
    requires Preorder(cmp)
    modifies a
    ensures Sorted(a[..], cmp) && multiset(a[..]) == multiset(old(a[..]))
    ensures forall i, j :: 0 <= i < j < a.Length ==> cmp(a[i], a[j]) <= 0
  {
    if a.Length < 2 { return; }
    hide Ord, Permutes, Settled, Apart, Preorder, Deep;
    ghost var s := a[..];
    var stack := [Seg(0, a.Length, 0)];
    StartSettled(s, cmp);
    while stack != []
      invariant |stack| <= STACK_SIZE && Permutes(s, a[..], 0, |s|) && |s| == a.Length
      invariant Settled(a[..], stack, 0, 0, cmp) && Apart(stack, 0, 0, |s|) && Deep(stack)
      decreases Weight(stack)
    {
      var g := stack[|stack| - 1];
      PendingPop(s, a[..], stack, cmp);
      stack := SortSeg(a, g.base, g.count, g.depth, stack[..|stack| - 1], cmp, s);
    }
    AllSettled(a[..], cmp);
    WholeMultiset(s, a[..]);
    SortedMeans(a[..], cmp);
    assert forall i :: 0 <= i < a.Length ==> a[i] == a[..][i];
  }

  lemma SortedMeans<T>(s: seq<T>, cmp: (T, T) -> int)
    requires Sorted(s, cmp)
    ensures forall i, j :: 0 <= i < j < |s| ==> cmp(s[i], s[j]) <= 0
  {
    forall i, j | 0 <= i < j < |s| ensures cmp(s[i], s[j]) <= 0 { assert Ord(cmp, s[i], s[j]) <= 0; }
  }

  lemma WholeMultiset<T>(s: seq<T>, t: seq<T>)
    requires Permutes(s, t, 0, |s|)
    ensures multiset(s) == multiset(t)
  {
    assert s[0..|s|] == s && t[0..|s|] == t;
  }
}
