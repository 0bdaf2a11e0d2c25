/**
 rqsort: a three-way quicksort with an explicit stack, a switch to heap sort when it goes too
 deep, and insertion sort for small parts. Elements are exchanged in place.
 */
module Sorting {

  // ----- order and permutation ------------------------------------------------------------------------

  /** The comparison function applied. */
  function Ord<T>(cmp: (T, T) -> int, x: T, y: T): int { cmp(x, y) }

  /** cmp is a total preorder: negative, zero or positive like a comparison. */
  ghost predicate Preorder<T(!new)>(cmp: (T, T) -> int) {
    && (forall x, y :: Ord(cmp, x, y) <= 0 <==> Ord(cmp, y, x) >= 0)
    && (forall x, y, z :: Ord(cmp, x, y) <= 0 && Ord(cmp, y, z) <= 0 ==> Ord(cmp, x, z) <= 0)
  }

  ghost predicate Sorted<T>(s: seq<T>, cmp: (T, T) -> int) {
    forall i, j :: 0 <= i < j < |s| ==> Ord(cmp, s[i], s[j]) <= 0
  }

  /** Only the part from lo to hi has changed, and there only the order. */
  ghost predicate Permutes<T>(s: seq<T>, t: seq<T>, lo: nat, hi: nat) {
    && lo <= hi <= |s| == |t| && s[..lo] == t[..lo] && s[hi..] == t[hi..]
    && multiset(s[lo..hi]) == multiset(t[lo..hi])
  }

  lemma PermutesTrans<T>(s: seq<T>, t: seq<T>, u: seq<T>, lo: nat, hi: nat)
    requires Permutes(s, t, lo, hi) && Permutes(t, u, lo, hi)
    ensures Permutes(s, u, lo, hi)
  {
  }

  /** A change inside a part is a change of the whole. */
  lemma PermutesWiden<T>(s: seq<T>, t: seq<T>, lo: nat, hi: nat, lo': nat, hi': nat)
    requires Permutes(s, t, lo, hi) && lo' <= lo && hi <= hi' <= |s|
    ensures Permutes(s, t, lo', hi')
  {
    assert s[lo'..hi'] == s[lo'..lo] + s[lo..hi] + s[hi..hi'];
    assert t[lo'..hi'] == t[lo'..lo] + t[lo..hi] + t[hi..hi'];
    assert s[lo'..lo] == s[..lo][lo'..] && t[lo'..lo] == t[..lo][lo'..];
    assert s[hi..hi'] == s[hi..][..hi' - hi] && t[hi..hi'] == t[hi..][..hi' - hi];
    assert s[..lo'] == s[..lo][..lo'] && t[..lo'] == t[..lo][..lo'];
    assert s[hi'..] == s[hi..][hi' - hi..] && t[hi'..] == t[hi..][hi' - hi..];
  }

  /** A property of all elements of a part survives its permutation. */
  lemma PermutesKeeps<T(!new)>(s: seq<T>, t: seq<T>, lo: nat, hi: nat, p: T -> bool)
    requires Permutes(s, t, lo, hi) && forall i :: lo <= i < hi ==> p(s[i])
    ensures forall i :: lo <= i < hi ==> p(t[i])
  {
    forall i | lo <= i < hi ensures p(t[i]) {
      assert t[i] == t[lo..hi][i - lo];
      assert t[i] in multiset(t[lo..hi]);
      assert t[i] in multiset(s[lo..hi]);
      var k :| 0 <= k < |s[lo..hi]| && s[lo..hi][k] == t[i];
      assert s[lo + k] == t[i];
    }
  }

  function Swapped<T>(s: seq<T>, i: nat, j: nat): seq<T>
    requires i < |s| && j < |s|
  {
    s[i := s[j]][j := s[i]]
  }

  /** Exchanges two elements of the part from lo to hi. */
  method Swap<T>(a: array<T>, i: nat, j: nat, ghost lo: nat, ghost hi: nat)
    requires lo <= i < hi && lo <= j < hi <= a.Length
    modifies a
    ensures a[..] == Swapped(old(a[..]), i, j) && Permutes(old(a[..]), a[..], lo, hi)
  {
    ghost var s := a[..];
    a[i], a[j] := a[j], a[i];
    assert a[..] == s[i := s[j]][j := s[i]];
    SwapPermutes(s, i, j, lo, hi);
  }

  lemma SwappedOther<T>(s: seq<T>, i: nat, j: nat, k: nat)
    requires i < |s| && j < |s| && k < |s| && k != i && k != j
    ensures Swapped(s, i, j)[k] == s[k]
  {
  }

  lemma SwapPermutes<T>(s: seq<T>, i: nat, j: nat, lo: nat, hi: nat)
    requires lo <= i < hi && lo <= j < hi <= |s|
    ensures Permutes(s, Swapped(s, i, j), lo, hi)
  {
    var t := s[i := s[j]][j := s[i]];
    var u := s[lo..hi];
    assert t[lo..hi] == u[i - lo := u[j - lo]][j - lo := u[i - lo]];
  }

  // ----- insertion sort -------------------------------------------------------------------------------

  /** The tail of rqsort: sorts a[lo..hi] by insertion. */
  method InsertionSort<T(!new)>(a: array<T>, lo: nat, hi: nat, cmp: (T, T) -> int)
    requires lo <= hi <= a.Length && Preorder(cmp)
    modifies a
    ensures Permutes(old(a[..]), a[..], lo, hi) && SortedPart(a[..], lo, hi, cmp)
  {
    hide Ord, Swapped, Permutes;
    ghost var s := a[..];
    PermutesRefl(s, lo, hi);
    var pi := lo + 1;
    while pi < hi
      invariant lo + 1 <= pi && (pi <= hi || hi == lo) && Permutes(s, a[..], lo, hi)
      invariant SortedPart(a[..], lo, if pi <= hi then pi else hi, cmp)
    {
      ghost var t := a[..];
      Insert(a, lo, pi, hi, cmp);
      PermutesTrans(s, t, a[..], lo, hi);
      pi := pi + 1;
    }
  }

  lemma PermutesRefl<T>(s: seq<T>, lo: nat, hi: nat)
    requires lo <= hi <= |s|
    ensures Permutes(s, s, lo, hi)
  {
  }

  ghost predicate SortedPart<T>(s: seq<T>, lo: nat, hi: nat, cmp: (T, T) -> int)
    requires hi <= |s|
  {
    forall i, j :: lo <= i < j < hi ==> Ord(cmp, s[i], s[j]) <= 0
  }

  /** The part up to pi is sorted but for the element at k, which may be too small for its place. */
  ghost predicate Moving<T>(s: seq<T>, lo: nat, k: nat, pi: nat, cmp: (T, T) -> int)
    requires lo <= k <= pi < |s|
  {
    && (forall i, j :: lo <= i < j <= pi && i != k && j != k ==> Ord(cmp, s[i], s[j]) <= 0)
    && (forall j :: k < j <= pi ==> Ord(cmp, s[k], s[j]) <= 0)
  }

  lemma MovingStep<T(!new)>(s: seq<T>, lo: nat, k: nat, pi: nat, cmp: (T, T) -> int)
    requires lo < k <= pi < |s| && Moving(s, lo, k, pi, cmp) && Ord(cmp, s[k - 1], s[k]) > 0 && Preorder(cmp)
    ensures Moving(Swapped(s, k, k - 1), lo, k - 1, pi, cmp)
  {
  }

  lemma MovingDone<T(!new)>(s: seq<T>, lo: nat, k: nat, pi: nat, cmp: (T, T) -> int)
    requires lo <= k <= pi < |s| && Moving(s, lo, k, pi, cmp) && Preorder(cmp)
    requires k == lo || Ord(cmp, s[k - 1], s[k]) <= 0
    ensures SortedPart(s, lo, pi + 1, cmp)
  {
    forall i, j | lo <= i < j < pi + 1 ensures Ord(cmp, s[i], s[j]) <= 0 {
      if j == k && i < k - 1 { assert Ord(cmp, s[i], s[k - 1]) <= 0; }
    }
  }

  method Insert<T(!new)>(a: array<T>, lo: nat, pi: nat, ghost hi: nat, cmp: (T, T) -> int)
    requires lo <= pi < hi <= a.Length && Preorder(cmp) && SortedPart(a[..], lo, pi, cmp)
    modifies a
    ensures Permutes(old(a[..]), a[..], lo, hi) && SortedPart(a[..], lo, pi + 1, cmp)
  {
    hide Ord, Swapped, Permutes, Preorder, Moving, SortedPart;
    ghost var s := a[..];
    PermutesRefl(s, lo, hi);
    MovingStart(s, lo, pi, cmp);
    var pj := pi;
    while pj > lo && Ord(cmp, a[pj - 1], a[pj]) > 0
      invariant lo <= pj <= pi < hi && Permutes(s, a[..], lo, hi) && Moving(a[..], lo, pj, pi, cmp)
    {
      ghost var t := a[..];
      MoveLeft(a, lo, pj, pi, hi, cmp);
      PermutesTrans(s, t, a[..], lo, hi);
      pj := pj - 1;
    }
    MovingDone(a[..], lo, pj, pi, cmp);
  }

  method MoveLeft<T(!new)>(a: array<T>, ghost lo: nat, k: nat, ghost pi: nat, ghost hi: nat, cmp: (T, T) -> int)
    requires lo < k <= pi < hi <= a.Length && Moving(a[..], lo, k, pi, cmp) && Ord(cmp, a[k - 1], a[k]) > 0 && Preorder(cmp)
    modifies a
    ensures Permutes(old(a[..]), a[..], lo, hi) && Moving(a[..], lo, k - 1, pi, cmp)
  {
    hide Ord, Swapped, Permutes, Moving, Preorder;
    MovingStep(a[..], lo, k, pi, cmp);
    Swap(a, k, k - 1, lo, hi);
  }

  lemma MovingStart<T>(s: seq<T>, lo: nat, pi: nat, cmp: (T, T) -> int)
    requires lo <= pi < |s| && SortedPart(s, lo, pi, cmp)
    ensures Moving(s, lo, pi, pi, cmp)
  {
  }

  // ----- three-way partition --------------------------------------------------------------------------

  /** Around the pivot x: equal up to plt, smaller up to pi, unknown up to pj, greater up to pgt,
      equal up to hi. */
  ghost predicate Parts<T>(s: seq<T>, x: T, lo: nat, plt: nat, pi: nat, pj: nat, pgt: nat, hi: nat, cmp: (T, T) -> int) {
    && lo < plt <= pi <= pj <= pgt <= hi <= |s| && s[lo] == x
    && (forall k :: lo <= k < plt ==> Ord(cmp, x, s[k]) == 0) && (forall k :: plt <= k < pi ==> Ord(cmp, x, s[k]) > 0)
    && (forall k :: pj <= k < pgt ==> Ord(cmp, x, s[k]) < 0) && (forall k :: pgt <= k < hi ==> Ord(cmp, x, s[k]) == 0)
  }

  lemma PartsStart<T(!new)>(s: seq<T>, lo: nat, hi: nat, cmp: (T, T) -> int)
    requires lo < hi <= |s| && Preorder(cmp)
    ensures Parts(s, s[lo], lo, lo + 1, lo + 1, hi, hi, hi, cmp)
  {
  }

  lemma PartsLow<T>(s: seq<T>, x: T, lo: nat, plt: nat, pi: nat, pj: nat, pgt: nat, hi: nat, cmp: (T, T) -> int)
    requires Parts(s, x, lo, plt, pi, pj, pgt, hi, cmp) && pi < pj && Ord(cmp, x, s[pi]) >= 0
    ensures Ord(cmp, x, s[pi]) > 0 ==> Parts(s, x, lo, plt, pi + 1, pj, pgt, hi, cmp)
    ensures Ord(cmp, x, s[pi]) == 0 ==> Parts(Swapped(s, plt, pi), x, lo, plt + 1, pi + 1, pj, pgt, hi, cmp)
  {
  }

  lemma PartsHigh<T>(s: seq<T>, x: T, lo: nat, plt: nat, pi: nat, pj: nat, pgt: nat, hi: nat, cmp: (T, T) -> int)
    requires Parts(s, x, lo, plt, pi, pj + 1, pgt, hi, cmp) && pi <= pj && Ord(cmp, x, s[pj]) <= 0
    ensures Ord(cmp, x, s[pj]) < 0 ==> Parts(s, x, lo, plt, pi, pj, pgt, hi, cmp)
    ensures Ord(cmp, x, s[pj]) == 0 ==>
      Parts(Swapped(s, pgt - 1, pj), x, lo, plt, pi, pj, pgt - 1, hi, cmp)
  {
  }

  lemma PartsSwap<T>(s: seq<T>, x: T, lo: nat, plt: nat, pi: nat, pj: nat, pgt: nat, hi: nat, cmp: (T, T) -> int)
    requires Parts(s, x, lo, plt, pi, pj + 1, pgt, hi, cmp) && pi < pj && Ord(cmp, x, s[pi]) < 0 && Ord(cmp, x, s[pj]) > 0
    ensures Parts(Swapped(s, pi, pj), x, lo, plt, pi + 1, pj, pgt, hi, cmp)
  {
  }

  lemma PartsRange<T>(s: seq<T>, x: T, lo: nat, plt: nat, pi: nat, pj: nat, pgt: nat, hi: nat, cmp: (T, T) -> int)
    requires Parts(s, x, lo, plt, pi, pj, pgt, hi, cmp)
    ensures lo < plt <= pi <= pj <= pgt <= hi <= |s| && s[lo] == x
  {
  }

  /** The scan from the left, over elements that are not greater than the pivot. */
  method ScanUp<T(!new)>(a: array<T>, lo: nat, plt0: nat, pi0: nat, pj: nat, ghost pgt: nat, ghost hi: nat, cmp: (T, T) -> int)
    returns (plt: nat, pi: nat)
    requires hi <= a.Length && lo < hi && Parts(a[..], a[lo], lo, plt0, pi0, pj, pgt, hi, cmp)
    modifies a
    ensures Permutes(old(a[..]), a[..], lo, hi) && a[lo] == old(a[lo]) && pi0 <= pi
    ensures Parts(a[..], a[lo], lo, plt, pi, pj, pgt, hi, cmp) && (pi < pj ==> Ord(cmp, a[lo], a[pi]) < 0)
  {
    hide Ord, Swapped, Permutes, Parts;
    ghost var s, x := a[..], a[lo];
    plt, pi := plt0, pi0;
    PermutesRefl(s, lo, hi);
    PartsRange(a[..], x, lo, plt, pi, pj, pgt, hi, cmp);
    while pi < pj && Ord(cmp, a[lo], a[pi]) >= 0
      invariant Permutes(s, a[..], lo, hi) && Parts(a[..], x, lo, plt, pi, pj, pgt, hi, cmp) && pi0 <= pi
      invariant lo < plt <= pi <= pj <= pgt <= hi && a[lo] == x
    {
      ghost var t := a[..];
      PartsLow(t, x, lo, plt, pi, pj, pgt, hi, cmp);
      if Ord(cmp, a[lo], a[pi]) == 0 {
        Swap(a, plt, pi, lo, hi);
        PermutesTrans(s, t, a[..], lo, hi);
        plt := plt + 1;
      }
      pi := pi + 1;
      PartsRange(a[..], x, lo, plt, pi, pj, pgt, hi, cmp);
    }
  }

  /** Moves the boundary of the greater elements over a[pj]. */
  method TakeHigh<T(!new)>(a: array<T>, lo: nat, ghost plt: nat, pi: nat, pj: nat, pgt0: nat, ghost hi: nat, cmp: (T, T) -> int)
    returns (pgt: nat)
    requires hi <= a.Length && lo < hi && lo < pi <= pj < hi && Parts(a[..], a[lo], lo, plt, pi, pj + 1, pgt0, hi, cmp)
    requires Ord(cmp, a[lo], a[pj]) <= 0 && Ord(cmp, a[lo], a[pi]) < 0
    modifies a
    ensures Permutes(old(a[..]), a[..], lo, hi) && a[lo] == old(a[lo]) && Ord(cmp, a[lo], a[pi]) < 0
    ensures Parts(a[..], a[lo], lo, plt, pi, pj, pgt, hi, cmp)
  {
    hide Ord, Swapped, Permutes, Parts;
    ghost var t := a[..];
    PartsRange(t, t[lo], lo, plt, pi, pj + 1, pgt0, hi, cmp);
    PartsHigh(t, t[lo], lo, plt, pi, pj, pgt0, hi, cmp);
    PermutesRefl(t, lo, hi);
    pgt := pgt0;
    if Ord(cmp, a[lo], a[pj]) == 0 {
      pgt := pgt - 1;
      SwappedOther(t, pgt, pj, pi);
      Swap(a, pgt, pj, lo, hi);
      assert a[pi] == a[..][pi];
      PartsRange(a[..], t[lo], lo, plt, pi, pj, pgt, hi, cmp);
    }
  }

  /** The scan from the right, over elements that are not smaller than the pivot. */
  method ScanDown<T(!new)>(a: array<T>, lo: nat, ghost plt: nat, pi: nat, pj0: nat, pgt0: nat, ghost hi: nat, cmp: (T, T) -> int)
    returns (pj: nat, pgt: nat)
    requires hi <= a.Length && lo < hi && Parts(a[..], a[lo], lo, plt, pi, pj0, pgt0, hi, cmp)
    requires pi < pj0 ==> Ord(cmp, a[lo], a[pi]) < 0
    modifies a
    ensures Permutes(old(a[..]), a[..], lo, hi) && a[lo] == old(a[lo]) && pj < pj0
    ensures pi < pj ==> Parts(a[..], a[lo], lo, plt, pi, pj + 1, pgt, hi, cmp) && Ord(cmp, a[lo], a[pi]) < 0 && Ord(cmp, a[lo], a[pj]) > 0
    ensures pi >= pj ==> Parts(a[..], a[lo], lo, plt, pi, pi, pgt, hi, cmp)
  {
    hide Ord, Swapped, Permutes, Parts;
    ghost var s := a[..];
    PermutesRefl(s, lo, hi);
    PartsRange(s, a[lo], lo, plt, pi, pj0, pgt0, hi, cmp);
    pj, pgt := pj0 - 1, pgt0;
    while pi < pj && Ord(cmp, a[lo], a[pj]) <= 0
      invariant Permutes(s, a[..], lo, hi) && lo < pi <= pj + 1 <= pj0 <= hi
      invariant Parts(a[..], a[lo], lo, plt, pi, pj + 1, pgt, hi, cmp)
      invariant a[lo] == old(a[lo]) && (pi <= pj ==> Ord(cmp, a[lo], a[pi]) < 0)
      decreases pj
    {
      ghost var t := a[..];
      pgt := TakeHigh(a, lo, plt, pi, pj, pgt, hi, cmp);
      PermutesTrans(s, t, a[..], lo, hi);
      pj := pj - 1;
    }
    if pi == pj { PartsHigh(a[..], a[lo], lo, plt, pi, pj, pgt, hi, cmp); }
  }

  /** The partition loop of rqsort; the pivot is a[lo]. */
  method Partition<T(!new)>(a: array<T>, lo: nat, hi: nat, cmp: (T, T) -> int) returns (plt: nat, pi: nat, pgt: nat)
    requires lo < hi <= a.Length && Preorder(cmp)
    modifies a
    ensures Permutes(old(a[..]), a[..], lo, hi) && a[lo] == old(a[lo])
    ensures Parts(a[..], a[lo], lo, plt, pi, pi, pgt, hi, cmp)
  {
    hide Ord, Swapped, Permutes, Parts, Preorder;
    ghost var s, x := a[..], a[lo];
    PermutesRefl(s, lo, hi);
    PartsStart(s, lo, hi, cmp);
    var pj := hi;
    plt, pi, pgt := lo + 1, lo + 1, hi;
    while true
      invariant Permutes(s, a[..], lo, hi) && a[lo] == x && Parts(a[..], x, lo, plt, pi, pj, pgt, hi, cmp)
      decreases pj
    {
      ghost var t := a[..];
      plt, pi := ScanUp(a, lo, plt, pi, pj, pgt, hi, cmp);
      PermutesTrans(s, t, a[..], lo, hi);
      t := a[..];
      pj, pgt := ScanDown(a, lo, plt, pi, pj, pgt, hi, cmp);
      PermutesTrans(s, t, a[..], lo, hi);
      if pi >= pj { break; }
      PartsRange(a[..], x, lo, plt, pi, pj + 1, pgt, hi, cmp);
      t := a[..];
      ExchangePair(a, lo, plt, pi, pj, pgt, hi, cmp);
      PermutesTrans(s, t, a[..], lo, hi);
      pi := pi + 1;
    }
  }

  /** Exchanges a greater element on the left with a smaller one on the right. */
  method ExchangePair<T(!new)>(a: array<T>, lo: nat, ghost plt: nat, pi: nat, pj: nat, ghost pgt: nat, ghost hi: nat, cmp: (T, T) -> int)
    requires lo < pi < pj < hi <= a.Length && Parts(a[..], a[lo], lo, plt, pi, pj + 1, pgt, hi, cmp)
    requires Ord(cmp, a[lo], a[pi]) < 0 && Ord(cmp, a[lo], a[pj]) > 0
    modifies a
    ensures Permutes(old(a[..]), a[..], lo, hi) && a[lo] == old(a[lo])
    ensures Parts(a[..], a[lo], lo, plt, pi + 1, pj, pgt, hi, cmp)
  {
    hide Ord, Swapped, Permutes, Parts;
    ghost var t := a[..];
    PartsSwap(t, t[lo], lo, plt, pi, pj, pgt, hi, cmp);
    Swap(a, pi, pj, lo, hi);
    PartsRange(a[..], t[lo], lo, plt, pi + 1, pj, pgt, hi, cmp);
  }

  // ----- bringing equal elements to the middle --------------------------------------------------------

  /** s with the n elements from x and the n elements from y exchanged. */
  function Exchanged<T>(s: seq<T>, x: nat, y: nat, n: nat): (t: seq<T>)
    requires x + n <= y && y + n <= |s|
    ensures |t| == |s|
    ensures forall k :: 0 <= k < |s| ==>
      t[k] == if x <= k < x + n then s[k + (y - x)] else if y <= k < y + n then s[k - (y - x)] else s[k]
  {
    s[..x] + s[y..y + n] + s[x + n..y] + s[x..x + n] + s[y + n..]
  }

  /** swap_block: exchanges two blocks that do not overlap. */
  method SwapBlock<T>(a: array<T>, x: nat, y: nat, n: nat, ghost lo: nat, ghost hi: nat)
    requires lo <= x && x + n <= y && y + n <= hi <= a.Length
    modifies a
    ensures a[..] == Exchanged(old(a[..]), x, y, n) && Permutes(old(a[..]), a[..], lo, hi)
  {
    hide Swapped, Permutes, Exchanged;
    ghost var s := a[..];
    PermutesRefl(s, lo, hi);
    ExchangedNone(s, x, y);
    var k := 0;
    while k < n
      invariant 0 <= k <= n && a[..] == Exchanged(s, x, y, k) && Permutes(s, a[..], lo, hi)
    {
      ghost var t := a[..];
      ExchangedStep(s, x, y, k);
      Swap(a, x + k, y + k, lo, hi);
      PermutesTrans(s, t, a[..], lo, hi);
      k := k + 1;
    }
  }

  lemma ExchangedNone<T>(s: seq<T>, x: nat, y: nat)
    requires x <= y <= |s|
    ensures Exchanged(s, x, y, 0) == s
  {
  }

  lemma ExchangedStep<T>(s: seq<T>, x: nat, y: nat, k: nat)
    requires x + k + 1 <= y && y + k + 1 <= |s|
    ensures var t := Exchanged(s, x, y, k); Exchanged(s, x, y, k + 1) == Swapped(t, x + k, y + k)
  {
    hide Exchanged;
    var t, u := Exchanged(s, x, y, k), Exchanged(s, x, y, k + 1);
    var w := Swapped(t, x + k, y + k);
    ExchangedAt(s, x, y, k, x + k);
    ExchangedAt(s, x, y, k, y + k);
    forall i | 0 <= i < |s| ensures u[i] == w[i] {
      ExchangedAt(s, x, y, k, i);
      ExchangedAt(s, x, y, k + 1, i);
    }
  }

  lemma ExchangedAt<T>(s: seq<T>, x: nat, y: nat, n: nat, i: nat)
    requires x + n <= y && y + n <= |s| && i < |s|
    ensures Exchanged(s, x, y, n)[i] == if x <= i < x + n then s[i + (y - x)] else if y <= i < y + n then s[i - (y - x)] else s[i]
  {
  }

  /** Smaller than x up to l, equal up to g, greater up to hi. */
  ghost predicate Three<T>(s: seq<T>, x: T, lo: nat, l: nat, g: nat, hi: nat, cmp: (T, T) -> int) {
    && lo <= l < g <= hi <= |s|
    && (forall k :: lo <= k < l ==> Ord(cmp, x, s[k]) > 0) && (forall k :: l <= k < g ==> Ord(cmp, x, s[k]) == 0)
    && (forall k :: g <= k < hi ==> Ord(cmp, x, s[k]) < 0)
  }

  /** After the exchange on the left: smaller up to l, equal up to pi. */
  ghost predicate LowDone<T>(s: seq<T>, x: T, lo: nat, l: nat, pi: nat, pgt: nat, hi: nat, cmp: (T, T) -> int) {
    && lo <= l < pi <= pgt <= hi <= |s|
    && (forall k :: lo <= k < l ==> Ord(cmp, x, s[k]) > 0) && (forall k :: l <= k < pi ==> Ord(cmp, x, s[k]) == 0)
    && (forall k :: pi <= k < pgt ==> Ord(cmp, x, s[k]) < 0) && (forall k :: pgt <= k < hi ==> Ord(cmp, x, s[k]) == 0)
  }

  function Less(a: int, b: int): int { if a < b then a else b }

  lemma RegroupLow<T>(s: seq<T>, x: T, lo: nat, plt: nat, pi: nat, pgt: nat, hi: nat, cmp: (T, T) -> int)
    requires Parts(s, x, lo, plt, pi, pi, pgt, hi, cmp)
    ensures var span := Less(plt - lo, pi - plt);
      LowDone(Exchanged(s, lo, pi - span, span), x, lo, lo + (pi - plt), pi, pgt, hi, cmp)
  {
    hide Ord;
  }

  lemma RegroupHigh<T>(s: seq<T>, x: T, lo: nat, l: nat, pi: nat, pgt: nat, hi: nat, cmp: (T, T) -> int)
    requires LowDone(s, x, lo, l, pi, pgt, hi, cmp)
    ensures var span := Less(hi - pgt, pgt - pi);
      Three(Exchanged(s, pi, hi - span, span), x, lo, l, hi - (pgt - pi), hi, cmp)
  {
    hide Ord;
  }

  /** Moves the elements equal to the pivot to the middle. */
  method GatherEqual<T(!new)>(a: array<T>, lo: nat, plt: nat, pi: nat, pgt: nat, hi: nat, cmp: (T, T) -> int, ghost x: T)
    returns (l: nat, g: nat)
    requires hi <= a.Length && Parts(a[..], x, lo, plt, pi, pi, pgt, hi, cmp)
    modifies a
    ensures Permutes(old(a[..]), a[..], lo, hi) && Three(a[..], x, lo, l, g, hi, cmp) && lo <= l < g <= hi
  {
    hide Ord, Swapped, Permutes, Parts, LowDone, Three, Exchanged;
    ghost var s := a[..];
    PartsRange(s, x, lo, plt, pi, pi, pgt, hi, cmp);
    RegroupLow(s, x, lo, plt, pi, pgt, hi, cmp);
    var span := Less(plt - lo, pi - plt);
    SwapBlock(a, lo, pi - span, span, lo, hi);
    ghost var t := a[..];
    l := lo + (pi - plt);
    RegroupHigh(t, x, lo, l, pi, pgt, hi, cmp);
    span := Less(hi - pgt, pgt - pi);
    SwapBlock(a, pi, hi - span, span, lo, hi);
    PermutesTrans(s, t, a[..], lo, hi);
    g := hi - (pgt - pi);
    ThreeRange(a[..], x, lo, l, g, hi, cmp);
  }

  lemma ThreeRange<T>(s: seq<T>, x: T, lo: nat, l: nat, g: nat, hi: nat, cmp: (T, T) -> int)
    requires Three(s, x, lo, l, g, hi, cmp)
    ensures lo <= l < g <= hi <= |s|
  {
  }

  // ----- heap sort ------------------------------------------------------------------------------------

  function Parent(k: int): int { (k - 1) / 2 }

  /** The n elements from lo form a heap, as far as parents from `from` on are concerned; the
      element at r may be too small for its place. */
  ghost predicate HeapBut<T>(s: seq<T>, lo: nat, from: nat, n: nat, r: int, cmp: (T, T) -> int)
    requires lo + n <= |s|
  {
    && (forall k :: 1 <= k < n && Parent(k) >= from && Parent(k) != r ==> Above(s, lo, Parent(k), k, cmp))
    && (forall k :: 1 <= k < n && Parent(k) == r && r >= 1 && Parent(r) >= from ==> Above(s, lo, Parent(r), k, cmp))
  }

  ghost predicate Above<T>(s: seq<T>, lo: nat, p: int, k: int, cmp: (T, T) -> int)
    requires 0 <= p && 0 <= k && lo + p < |s| && lo + k < |s|
  {
    Ord(cmp, s[lo + k], s[lo + p]) <= 0
  }

  lemma SiftStep<T(!new)>(s: seq<T>, lo: nat, from: nat, n: nat, r: nat, c: nat, cmp: (T, T) -> int)
    requires lo + n <= |s| && HeapBut(s, lo, from, n, r, cmp) && Preorder(cmp) && from <= r
    requires 1 <= c < n && Parent(c) == r && Ord(cmp, s[lo + r], s[lo + c]) <= 0
    requires forall k :: 1 <= k < n && Parent(k) == r ==> Above(s, lo, c, k, cmp)
    ensures HeapBut(Swapped(s, lo + r, lo + c), lo, from, n, c, cmp)
  {
    hide Ord;
    var t := Swapped(s, lo + r, lo + c);
    forall k | 1 <= k < n && Parent(k) >= from && Parent(k) != c ensures Above(t, lo, Parent(k), k, cmp) {
      if Parent(k) == r {
        assert Above(s, lo, c, k, cmp);
      } else if k == r {
        assert Above(s, lo, Parent(r), c, cmp);
      } else {
        assert Above(s, lo, Parent(k), k, cmp);
      }
    }
    forall k | 1 <= k < n && Parent(k) == c ensures Above(t, lo, Parent(c), k, cmp) {
      assert Above(s, lo, c, k, cmp);
    }
  }

  /** No element below r is greater. */
  lemma SiftDone<T(!new)>(s: seq<T>, lo: nat, from: nat, n: nat, r: nat, cmp: (T, T) -> int)
    requires lo + n <= |s| && HeapBut(s, lo, from, n, r, cmp)
    requires forall k :: 1 <= k < n && Parent(k) == r ==> Above(s, lo, r, k, cmp)
    ensures HeapBut(s, lo, from, n, -1, cmp)
  {
    hide Ord;
  }

  /** The larger child of r, or none. */
  method LargerChild<T(!new)>(a: array<T>, lo: nat, r: nat, n: nat, cmp: (T, T) -> int) returns (c: nat)
    requires lo + n <= a.Length && Preorder(cmp) && 2 * r + 1 < n
    ensures c < n && c > r && Parent(c) == r && forall k :: 1 <= k < n && Parent(k) == r ==> Above(a[..], lo, c, k, cmp)
  {
    hide Ord;
    c := 2 * r + 1;
    if c < n - 1 && Ord(cmp, a[lo + c], a[lo + c + 1]) <= 0 { c := c + 1; }
  }

  /** Lets the element at r sink to its place. */
  method SiftDown<T(!new)>(a: array<T>, lo: nat, from: nat, n: nat, cmp: (T, T) -> int)
    requires lo + n <= a.Length && from < n && Preorder(cmp) && HeapBut(a[..], lo, from, n, from, cmp)
    modifies a
    ensures Permutes(old(a[..]), a[..], lo, lo + n) && HeapBut(a[..], lo, from, n, -1, cmp)
  {
    hide Ord, Swapped, Permutes, HeapBut, Preorder, Above;
    ghost var s := a[..];
    PermutesRefl(s, lo, lo + n);
    var r := from;
    while 2 * r + 1 < n
      invariant from <= r < n && Permutes(s, a[..], lo, lo + n) && HeapBut(a[..], lo, from, n, r, cmp)
      decreases n - r
    {
      var c := LargerChild(a, lo, r, n, cmp);
      if Ord(cmp, a[lo + r], a[lo + c]) > 0 {
        NoGreaterChild(a[..], lo, n, r, c, cmp);
        SiftDone(a[..], lo, from, n, r, cmp);
        return;
      }
      ghost var t := a[..];
      SiftStep(t, lo, from, n, r, c, cmp);
      Swap(a, lo + r, lo + c, lo, lo + n);
      PermutesTrans(s, t, a[..], lo, lo + n);
      r := c;
    }
    SiftDone(a[..], lo, from, n, r, cmp);
  }

  lemma NoGreaterChild<T(!new)>(s: seq<T>, lo: nat, n: nat, r: nat, c: nat, cmp: (T, T) -> int)
    requires lo + n <= |s| && Preorder(cmp) && r < n && c < n && Ord(cmp, s[lo + r], s[lo + c]) > 0
    requires forall k :: 1 <= k < n && Parent(k) == r ==> Above(s, lo, c, k, cmp)
    ensures forall k :: 1 <= k < n && Parent(k) == r ==> Above(s, lo, r, k, cmp)
  {
    hide Ord;
    forall k | 1 <= k < n && Parent(k) == r ensures Above(s, lo, r, k, cmp) {
      assert Above(s, lo, c, k, cmp);
    }
  }

  /** The root of a heap is a greatest element. */
  lemma {:induction false} HeapMax<T(!new)>(s: seq<T>, lo: nat, n: nat, k: nat, cmp: (T, T) -> int)
    requires lo + n <= |s| && HeapBut(s, lo, 0, n, -1, cmp) && Preorder(cmp) && k < n
    ensures Ord(cmp, s[lo + k], s[lo]) <= 0
    decreases k
  {
    hide Ord;
    if k > 0 {
      assert Above(s, lo, Parent(k), k, cmp);
      HeapMax(s, lo, n, Parent(k), cmp);
    }
  }

  /** The elements from i on are in their final places. */
  ghost predicate TailDone<T>(s: seq<T>, lo: nat, i: nat, hi: nat, cmp: (T, T) -> int)
    requires hi <= |s|
  {
    forall j, k :: lo <= j < k < hi && i <= k ==> Ord(cmp, s[j], s[k]) <= 0
  }

  lemma TailStep<T(!new)>(s: seq<T>, lo: nat, n: nat, hi: nat, cmp: (T, T) -> int)
    requires lo + n <= hi <= |s| && n >= 1 && HeapBut(s, lo, 0, n, -1, cmp) && Preorder(cmp) && TailDone(s, lo, lo + n, hi, cmp)
    ensures TailDone(Swapped(s, lo, lo + n - 1), lo, lo + n - 1, hi, cmp)
    ensures HeapBut(Swapped(s, lo, lo + n - 1), lo, 0, n - 1, 0, cmp)
  {
    hide Ord;
    var t := Swapped(s, lo, lo + n - 1);
    forall j, k | lo <= j < k < hi && lo + n - 1 <= k ensures Ord(cmp, t[j], t[k]) <= 0 {
      var i := if j == lo then lo + n - 1 else if j == lo + n - 1 then lo else j;
      assert t[j] == s[i];
      if k == lo + n - 1 {
        assert t[k] == s[lo];
        HeapMax(s, lo, n, i - lo, cmp);
      } else {
        assert t[k] == s[k];
        assert Ord(cmp, s[i], s[k]) <= 0;
      }
    }
    forall k | 1 <= k < n - 1 && Parent(k) >= 0 && Parent(k) != 0 ensures Above(t, lo, Parent(k), k, cmp) {
      assert Above(s, lo, Parent(k), k, cmp);
    }
  }

  /** Reordering what is left of the heap does not matter to the tail. */
  lemma TailKeeps<T(!new)>(s: seq<T>, t: seq<T>, lo: nat, i: nat, hi: nat, cmp: (T, T) -> int)
    requires lo <= i <= hi <= |s| && Permutes(s, t, lo, i) && TailDone(s, lo, i, hi, cmp)
    ensures TailDone(t, lo, i, hi, cmp)
  {
    hide Ord;
    forall j, k | lo <= j < k < hi && i <= k ensures Ord(cmp, t[j], t[k]) <= 0 {
      assert t[k] == t[i..][k - i] == s[i..][k - i] == s[k];
      if j < i {
        PermutesKeeps(s, t, lo, i, x => Ord(cmp, x, s[k]) <= 0);
      } else {
        assert t[j] == t[i..][j - i] == s[i..][j - i] == s[j];
      }
    }
  }

  /** heapsortx. */
  method HeapSort<T(!new)>(a: array<T>, lo: nat, hi: nat, cmp: (T, T) -> int)
    requires lo <= hi <= a.Length && Preorder(cmp)
    modifies a
    ensures Permutes(old(a[..]), a[..], lo, hi) && SortedPart(a[..], lo, hi, cmp)
  {
    hide Ord, Swapped, Permutes, HeapBut, Preorder, TailDone, SortedPart;
    ghost var s := a[..];
    PermutesRefl(s, lo, hi);
    var n := hi - lo;
    if n <= 1 { FewSorted(s, lo, hi, cmp); return; }
    BuildHeap(a, lo, n, cmp);
    var i := n - 1;
    TailStart(a[..], lo, hi, cmp);
    while i > 0
      invariant 0 <= i < n && Permutes(s, a[..], lo, hi)
      invariant HeapBut(a[..], lo, 0, i + 1, -1, cmp) && TailDone(a[..], lo, lo + i + 1, hi, cmp)
    {
      ghost var t := a[..];
      TailStep(t, lo, i + 1, hi, cmp);
      Swap(a, lo, lo + i, lo, hi);
      PermutesTrans(s, t, a[..], lo, hi);
      t := a[..];
      SiftDown(a, lo, 0, i, cmp);
      PermutesWiden(t, a[..], lo, lo + i, lo, hi);
      PermutesTrans(s, t, a[..], lo, hi);
      TailKeeps(t, a[..], lo, lo + i, hi, cmp);
      i := i - 1;
    }
    TailSorted(a[..], lo, hi, cmp);
  }

  lemma FewSorted<T>(s: seq<T>, lo: nat, hi: nat, cmp: (T, T) -> int)
    requires lo <= hi <= lo + 1 && hi <= |s|
    ensures SortedPart(s, lo, hi, cmp)
  {
  }

  lemma TailStart<T>(s: seq<T>, lo: nat, hi: nat, cmp: (T, T) -> int)
    requires hi <= |s|
    ensures TailDone(s, lo, hi, hi, cmp)
  {
  }

  lemma TailSorted<T>(s: seq<T>, lo: nat, hi: nat, cmp: (T, T) -> int)
    requires lo < hi <= |s| && TailDone(s, lo, lo + 1, hi, cmp)
    ensures SortedPart(s, lo, hi, cmp)
  {
    hide Ord;
  }

  /** The first phase: every subtree becomes a heap, from the last one up. */
  method BuildHeap<T(!new)>(a: array<T>, lo: nat, n: nat, cmp: (T, T) -> int)
    requires lo + n <= a.Length && n > 1 && Preorder(cmp)
    modifies a
    ensures Permutes(old(a[..]), a[..], lo, lo + n) && HeapBut(a[..], lo, 0, n, -1, cmp)
  {
    hide Ord, Swapped, Permutes, HeapBut, Preorder;
    ghost var s := a[..];
    PermutesRefl(s, lo, lo + n);
    var i := n / 2;
    LeavesOnly(s, lo, n, cmp);
    while i > 0
      invariant 0 <= i <= n / 2 && Permutes(s, a[..], lo, lo + n) && HeapBut(a[..], lo, i, n, -1, cmp)
    {
      i := i - 1;
      ghost var t := a[..];
      OneMore(t, lo, i, n, cmp);
      SiftDown(a, lo, i, n, cmp);
      PermutesTrans(s, t, a[..], lo, lo + n);
    }
  }

  lemma LeavesOnly<T>(s: seq<T>, lo: nat, n: nat, cmp: (T, T) -> int)
    requires lo + n <= |s|
    ensures HeapBut(s, lo, n / 2, n, -1, cmp)
  {
  }

  lemma OneMore<T>(s: seq<T>, lo: nat, i: nat, n: nat, cmp: (T, T) -> int)
    requires lo + n <= |s| && HeapBut(s, lo, i + 1, n, -1, cmp)
    ensures HeapBut(s, lo, i, n, i, cmp)
  {
    hide Ord;
  }
}
