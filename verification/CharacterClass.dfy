/**
 Character classes of patterns. The parser collects the characters of a class, folded when case is
 ignored, and the machine folds the character that it tests; together they decide as
 CharacterSetMatcher does in section 22.2.2.7.1 of ECMA-262, which compares folded characters on
 both sides.
 */
module CharacterClass {
  import opened RegexpPattern
  import opened CharRanges
  import opened CaseFolding

  /** One operand of a class: a character, a range, or the set of an escape or a nested class. */
  datatype Item = Single(c: int) | Range(lo: int, hi: int) | Chars(points: seq<int>)

  predicate ItemOk(it: Item) {
    match it
    case Single(c) => 0 <= c < 0x110000
    case Range(lo, hi) => 0 <= lo <= hi < 0x110000
    case Chars(p) => Canonical(p)
  }

  predicate Member(it: Item, c: int) {
    match it
    case Single(x) => c == x
    case Range(lo, hi) => lo <= c <= hi
    case Chars(p) => InPoints(p, c)
  }

  ghost predicate InClass(items: seq<Item>, c: int) { exists k :: 0 <= k < |items| && Member(items[k], c) }

  // ----- the parser -----------------------------------------------------------------------------------

  /** The case folding of a class: table, u or v flag, and whether case is ignored. */
  datatype Folding = Folding(tab: Table, unicode: bool, icase: bool)

  ghost function Folded(f: Folding, c: int): int { if f.icase then Canon(f.tab, c, f.unicode) else c }

  /** d is what an operand adds to the class: sets are taken as they are. */
  ghost predicate Adds(f: Folding, it: Item, d: int) {
    if it.Chars? then InPoints(it.points, d) else exists a :: Member(it, a) && Folded(f, a) == d
  }

  ghost predicate AddedUpTo(f: Folding, items: seq<Item>, k: nat, d: int)
    requires k <= |items|
  {
    exists i :: 0 <= i < k && Adds(f, items[i], d)
  }

  ghost predicate Collected(f: Folding, items: seq<Item>, d: int) { AddedUpTo(f, items, |items|, d) }

  lemma AddedNext(f: Folding, items: seq<Item>, k: nat, d: int)
    requires k < |items|
    ensures AddedUpTo(f, items, k + 1, d) <==> AddedUpTo(f, items, k, d) || Adds(f, items[k], d)
  {
  }

  lemma AddsSingle(f: Folding, c: int, d: int)
    ensures Adds(f, Single(c), d) <==> d == Folded(f, c)
  {
    hide Folded;
    assert Member(Single(c), c);
  }

  lemma AddsRange(f: Folding, lo: int, hi: int, d: int)
    requires !f.icase
    ensures Adds(f, Range(lo, hi), d) <==> lo <= d <= hi
  {
    assert Member(Range(lo, hi), d) <==> lo <= d <= hi;
  }

  /** Adds one operand. */
  method AddItem(cr: CharRange, f: Folding, it: Item)
    requires TableOk(f.tab) && ItemOk(it) && Strict(cr.points) && Canonical(cr.points)
    modifies cr
    ensures Strict(cr.points) && Canonical(cr.points)
    ensures forall d :: InPoints(cr.points, d) <==> InPoints(old(cr.points), d) || Adds(f, it, d)
  {
    hide InPoints, Canon, TableOk, Strict, Bounded, Canonical;
    ghost var before := cr.points;
    CanonicalParts(before);
    match it {
      case Single(c) =>
        CanonInRange(f.tab, c, f.unicode);
        var c1 := c;
        if f.icase { c1 := LreCanonicalize(f.tab, c, f.unicode); }
        cr.UnionInterval(c1, c1);
        forall d ensures InPoints(cr.points, d) <==> InPoints(before, d) || Adds(f, it, d) { AddsSingle(f, c, d); }
      case Range(lo, hi) =>
        if f.icase {
          var cr2 := new CharRange();
          cr2.AddInterval(lo, hi + 1);
          ghost var s := cr2.points;
          AscendingPair(lo, hi + 1);
          assert s == [lo, hi + 1];
          RegexpCanonicalize(cr2, f.tab, f.unicode);
          CanonicalParts(cr2.points);
          cr.Op1(cr2.points, CR_OP_UNION);
          BoundedFrom(cr.points, before, cr2.points);
          forall d ensures InPoints(cr.points, d) <==> InPoints(before, d) || Adds(f, it, d) {
            forall a ensures InPoints(s, a) <==> Member(it, a) { OneInterval(lo, hi + 1, a); }
          }
        } else {
          cr.UnionInterval(lo, hi);
          forall d ensures InPoints(cr.points, d) <==> InPoints(before, d) || Adds(f, it, d) { AddsRange(f, lo, hi, d); }
        }
      case Chars(p) =>
        CanonicalParts(p);
        cr.Op1(p, CR_OP_UNION);
        BoundedFrom(cr.points, before, p);
    }
    StrictCanonical(cr.points);
  }

  lemma AscendingPair(x: int, y: int)
    requires 0 <= x <= y <= UINT32_MAX
    ensures Ascending([x, y]) && Bounded([x, y])
  {
  }

  lemma CanonicalParts(p: seq<int>)
    requires Canonical(p)
    ensures Ascending(p) && Bounded(p) && |p| % 2 == 0
  {
  }

  /** re_parse_nested_class: the operands of a class one after the other, then the inversion. */
  method NestedClass(f: Folding, items: seq<Item>, invert: bool) returns (points: seq<int>)
    requires TableOk(f.tab) && forall k :: 0 <= k < |items| ==> ItemOk(items[k])
    ensures Canonical(points)
    ensures forall d :: 0 <= d < UINT32_MAX ==> (InPoints(points, d) <==> Collected(f, items, d) != invert)
  {
    hide InPoints, TableOk, Strict, Bounded, Canonical, Adds, AddedUpTo;
    var cr := new CharRange();
    NoPoints(f, items);
    var k := 0;
    while k < |items|
      invariant 0 <= k <= |items| && fresh(cr) && Strict(cr.points) && Canonical(cr.points)
      invariant forall d :: InPoints(cr.points, d) <==> AddedUpTo(f, items, k, d)
    {
      AddItem(cr, f, items[k]);
      forall d ensures InPoints(cr.points, d) <==> AddedUpTo(f, items, k + 1, d) { AddedNext(f, items, k, d); }
      k := k + 1;
    }
    if invert {
      CanonicalParts(cr.points);
      cr.Invert();
      StrictCanonical(cr.points);
    }
    points := cr.points;
  }

  lemma NoPoints(f: Folding, items: seq<Item>)
    ensures Strict([]) && Canonical([]) && forall d :: InPoints([], d) <==> AddedUpTo(f, items, 0, d)
  {
  }

  // ----- the matcher ----------------------------------------------------------------------------------

  /** The points p, tested with folded characters, decide as the set q does in the standard. */
  ghost predicate Stands(f: Folding, p: seq<int>, q: seq<int>) {
    forall ch :: 0 <= ch < 0x110000 ==>
      (InPoints(p, Canon(f.tab, ch, f.unicode)) <==> SomeFolds(f, q, Canon(f.tab, ch, f.unicode)))
  }

  /** A set that may be added without folding it. */
  ghost predicate FoldClosed(f: Folding, p: seq<int>) { Stands(f, p, p) }

  ghost predicate SomeFolds(f: Folding, p: seq<int>, d: int) { exists a :: InPoints(p, a) && Canon(f.tab, a, f.unicode) == d }

  /** Folding twice is folding once. */
  ghost predicate Idempotent(f: Folding) {
    forall c :: 0 <= c < 0x110000 ==> FoldedOnce(f, c)
  }

  ghost predicate FoldedOnce(f: Folding, c: int) {
    Canon(f.tab, Canon(f.tab, c, f.unicode), f.unicode) == Canon(f.tab, c, f.unicode)
  }

  /** Then it is enough, and necessary, that folding does not lead out of the set. */
  lemma FoldClosedIs(f: Folding, p: seq<int>)
    requires TableOk(f.tab) && Idempotent(f)
    ensures FoldClosed(f, p) <==> forall c :: 0 <= c < 0x110000 && InPoints(p, c) ==> InPoints(p, Canon(f.tab, c, f.unicode))
  {
    hide InPoints, Canon, TableOk;
    if FoldClosed(f, p) {
      forall c | 0 <= c < 0x110000 && InPoints(p, c) ensures InPoints(p, Canon(f.tab, c, f.unicode)) {
        assert SomeFolds(f, p, Canon(f.tab, c, f.unicode));
      }
    }
    if forall c :: 0 <= c < 0x110000 && InPoints(p, c) ==> InPoints(p, Canon(f.tab, c, f.unicode)) {
      forall ch | 0 <= ch < 0x110000
        ensures InPoints(p, Canon(f.tab, ch, f.unicode)) <==> SomeFolds(f, p, Canon(f.tab, ch, f.unicode))
      {
        var d := Canon(f.tab, ch, f.unicode);
        CanonInRange(f.tab, ch, f.unicode);
        assert FoldedOnce(f, ch);
        if a :| InPoints(p, a) && Canon(f.tab, a, f.unicode) == d { CanonOutside(f.tab, a, f.unicode); }
      }
    }
  }

  lemma CanonOutside(tab: Table, c: int, unicode: bool)
    requires TableOk(tab)
    ensures !(0 <= c < 0x110000) ==> Canon(tab, c, unicode) == c
  {
    hide FoldEntry, AsciiOk, RangeOk;
    var k := FindRun(tab.runs, c, 0);
    if k < |tab.runs| { assert RunOk(tab.runs[k]); }
  }

  /** CharacterSetMatcher: some character of the class, folded, is the folded ch. */
  ghost predicate ClassMatches(f: Folding, items: seq<Item>, invert: bool, ch: int) {
    (exists a :: InClass(items, a) && Folded(f, a) == Folded(f, ch)) != invert
  }

  /** The operands of the standard that the collected ones stand for: the same characters and ranges,
      and sets that may differ where folding makes up for it. */
  ghost predicate MeantBy(f: Folding, items: seq<Item>, meant: seq<Item>) {
    |meant| == |items| && forall k :: 0 <= k < |items| ==> ItemMeans(f, items[k], meant[k])
  }

  ghost predicate ItemMeans(f: Folding, it: Item, m: Item) {
    if it.Chars? && f.icase then m.Chars? && Stands(f, it.points, m.points) else m == it
  }

  /** What was collected decides as the standard does. */
  lemma CollectedDecides(f: Folding, items: seq<Item>, meant: seq<Item>, ch: int)
    requires 0 <= ch < 0x110000 && MeantBy(f, items, meant)
    ensures Collected(f, items, Folded(f, ch)) <==> exists a :: InClass(meant, a) && Folded(f, a) == Folded(f, ch)
  {
    hide InPoints, Canon;
    var d := Folded(f, ch);
    if Collected(f, items, d) {
      var k :| 0 <= k < |items| && Adds(f, items[k], d);
      var a := SomeMember(f, items[k], meant[k], ch);
      assert InClass(meant, a);
    }
    if a :| InClass(meant, a) && Folded(f, a) == d {
      var k :| 0 <= k < |meant| && Member(meant[k], a);
      assert ItemMeans(f, items[k], meant[k]);
      if items[k].Chars? && f.icase { assert SomeFolds(f, meant[k].points, d); }
      assert Adds(f, items[k], d);
    }
  }

  lemma SomeMember(f: Folding, it: Item, m: Item, ch: int) returns (a: int)
    requires 0 <= ch < 0x110000 && Adds(f, it, Folded(f, ch)) && ItemMeans(f, it, m)
    ensures Member(m, a) && Folded(f, a) == Folded(f, ch)
  {
    hide InPoints, Canon;
    if it.Chars? {
      if f.icase {
        assert SomeFolds(f, m.points, Canon(f.tab, ch, f.unicode));
        a :| InPoints(m.points, a) && Canon(f.tab, a, f.unicode) == Canon(f.tab, ch, f.unicode);
      } else {
        a := ch;
      }
    } else {
      a :| Member(it, a) && Folded(f, a) == Folded(f, ch);
    }
  }

  /** The class that the parser emits is tested as CharacterSetMatcher demands. */
  lemma ClassAccepts(f: Folding, items: seq<Item>, meant: seq<Item>, invert: bool, points: seq<int>, env: Env, ch: int)
    requires TableOk(f.tab) && 0 <= ch < 0x110000 && env.canon(ch) == Canon(f.tab, ch, f.unicode)
    requires forall d :: 0 <= d < UINT32_MAX ==> (InPoints(points, d) <==> Collected(f, items, d) != invert)
    requires MeantBy(f, items, meant)
    ensures Accepts(env, Cls(points, f.icase), ch) <==> ClassMatches(f, meant, invert, ch)
  {
    hide InPoints, Canon, TableOk, Collected, InClass, MeantBy;
    CanonInRange(f.tab, ch, f.unicode);
    CollectedDecides(f, items, meant, ch);
    assert 0 <= Folded(f, ch) < UINT32_MAX;
  }

  /** With u and i the points of \W contain the long s and the Kelvin sign, which fold to s and k: the set
      may not be added as it is, yet it decides as the \W of the standard, which lacks the two. */
  lemma NotWordStands(f: Folding, p: seq<int>, q: seq<int>)
    requires TableOk(f.tab) && Idempotent(f)
    requires Canon(f.tab, 0x17f, f.unicode) == 's' as int && Canon(f.tab, 0x212a, f.unicode) == 'k' as int
    requires forall c :: InPoints(p, c) <==> 0 <= c < UINT32_MAX && !IsWordByte(c)
    requires forall c :: InPoints(q, c) <==> InPoints(p, c) && c != 0x17f && c != 0x212a
    requires forall c :: 0 <= c < 0x110000 && InPoints(q, c) ==> !IsWordByte(Canon(f.tab, c, f.unicode))
    ensures Stands(f, p, q) && !FoldClosed(f, p)
  {
    hide InPoints, Canon, TableOk;
    forall ch | 0 <= ch < 0x110000
      ensures InPoints(p, Canon(f.tab, ch, f.unicode)) <==> SomeFolds(f, q, Canon(f.tab, ch, f.unicode))
    {
      var d := Canon(f.tab, ch, f.unicode);
      CanonInRange(f.tab, ch, f.unicode);
      assert FoldedOnce(f, ch);
      if a :| InPoints(q, a) && Canon(f.tab, a, f.unicode) == d { CanonOutside(f.tab, a, f.unicode); }
    }
    assert InPoints(p, 0x17f);
    assert SomeFolds(f, p, 's' as int);
  }

  /** The image of one set, plain or inverted. */
  lemma ImageAccepts(f: Folding, set0: seq<int>, image: seq<int>, inverted: seq<int>, env: Env, ch: int)
    requires TableOk(f.tab) && 0 <= ch < 0x110000 && env.canon(ch) == Canon(f.tab, ch, f.unicode)
    requires forall d :: InPoints(image, d) <==> SomeFolds(f, set0, d)
    requires forall d :: 0 <= d < UINT32_MAX ==> (InPoints(inverted, d) <==> !InPoints(image, d))
    ensures Accepts(env, Cls(image, true), ch) <==> exists a :: InPoints(set0, a) && Canon(f.tab, a, f.unicode) == env.canon(ch)
    ensures Accepts(env, Cls(inverted, true), ch) <==> !Accepts(env, Cls(image, true), ch)
  {
    hide InPoints, Canon, TableOk;
    CanonInRange(f.tab, ch, f.unicode);
    assert Accepts(env, Cls(image, true), ch) <==> SomeFolds(f, set0, env.canon(ch));
  }
}
