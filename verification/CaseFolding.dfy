/**
 Case folding by the run table of libunicode.c, for one character and for whole sets. The
 generated data is a parameter: any table whose runs are sorted, disjoint and of the lengths
 that their types imply.
 */
module CaseFolding {
  import opened RegexpPattern
  import opened CharRanges
  import opened OverlapRemoval

  // ----- the table ------------------------------------------------------------------------------------

  datatype RunType =
    | U | L | UF | LF | UL | LSU | U2L_399_EXT2 | UF_D20 | UF_D1_EXT | U_EXT | LF_EXT | UF_EXT2 | LF_EXT2 | UF_EXT3

  /** The characters from code to code + len - 1 are converted in the same way. */
  datatype Run = Run(code: nat, len: nat, typ: RunType, data: nat)

  /** case_conv_table1 with case_conv_table2, and case_conv_ext. */
  datatype Table = Table(runs: seq<Run>, ext: nat -> int)

  predicate Contains(r: Run, c: int) { r.code <= c < r.code + r.len }

  datatype Conversion = ToUpper | ToLower | Fold

  /** Codes of the run that data refers to. */
  function CodeAt(tab: Table, data: nat): int { if data < |tab.runs| then tab.runs[data].code else 0 }

  /** lre_case_conv_entry: the single character that c becomes, or -1 for several ones. */
  function Convert(tab: Table, c: int, conv: Conversion, r: Run): int {
    var lower := conv != ToUpper;
    var a := c - r.code;
    match r.typ
    case U => if conv == ToUpper then a + CodeAt(tab, r.data) else c
    case L => if conv == ToLower then a + CodeAt(tab, r.data) else c
    case UF => if conv == ToUpper || conv == Fold then a + CodeAt(tab, r.data) else c
    case LF => if conv == ToLower || conv == Fold then a + CodeAt(tab, r.data) else c
    case UL => if a % 2 != (if lower then 0 else 1) then c else if a % 2 == 0 then c + 1 else c - 1
    case LSU =>
      if a == 1 then (if lower then c + 1 else c - 1)
      else if a == (if lower then 0 else 2) then (if lower then c + 2 else c - 2)
      else c
    case U2L_399_EXT2 => if !lower then -1 else a + tab.ext(r.data % 64)
    case UF_D20 => if conv == ToLower then c else r.data + (if conv == Fold then 0x20 else 0)
    case UF_D1_EXT => if conv == ToLower then c else tab.ext(r.data) + (if conv == Fold then 1 else 0)
    case U_EXT => if lower then c else tab.ext(r.data)
    case LF_EXT => if !lower then c else tab.ext(r.data)
    case LF_EXT2 => if !lower then c else -1
    case UF_EXT2 => if conv == ToLower then c else -1
    case UF_EXT3 => if conv == ToLower then c else -1
  }

  function AsciiUpper(c: int): int { if 'a' as int <= c <= 'z' as int then c - 32 else c }

  function AsciiLower(c: int): int { if 'A' as int <= c <= 'Z' as int then c + 32 else c }

  /** lre_case_folding_entry. */
  function FoldEntry(tab: Table, c: int, r: Run, unicode: bool): int {
    if unicode then
      var d := Convert(tab, c, Fold, r);
      if d != -1 then d
      else if c == 0xfb06 then 0xfb05 else if c == 0x1fd3 then 0x390 else if c == 0x1fe3 then 0x3b0 else c
    else if c < 128 then AsciiUpper(c)
    else
      var d := Convert(tab, c, ToUpper, r);
      if d != -1 && d >= 128 then d else c
  }

  /** The first run from i on that contains c, or the number of runs. */
  function FindRun(runs: seq<Run>, c: int, i: nat): (k: nat)
    requires i <= |runs|
    ensures i <= k <= |runs| && (k < |runs| ==> Contains(runs[k], c)) && forall j :: i <= j < k ==> !Contains(runs[j], c)
    decreases |runs| - i
  {
    if i == |runs| || Contains(runs[i], c) then i else FindRun(runs, c, i + 1)
  }

  /** What the table makes of c. */
  function Canon(tab: Table, c: int, unicode: bool): int {
    var k := FindRun(tab.runs, c, 0);
    if k == |tab.runs| then c else FoldEntry(tab, c, tab.runs[k], unicode)
  }

  // ----- well-formed tables ---------------------------------------------------------------------------

  predicate Before(r: Run, s: Run) { r.code + r.len <= s.code }

  ghost predicate SortedRuns(runs: seq<Run>) { forall i, j :: 0 <= i < j < |runs| ==> Before(runs[i], runs[j]) }

  /** unicode_case1: the run types that change characters. */
  predicate Changes(t: RunType, unicode: bool) {
    if unicode then !(t.U? || t.L? || t.U_EXT?)
    else !(t.L? || t.LF? || t.LF_EXT? || t.LF_EXT2?)
  }

  /** The characters of a run that unicode_case1 selects. */
  predicate Selected(r: Run, c: int, unicode: bool) {
    Contains(r, c) && Changes(r.typ, unicode) &&
    match r.typ
    case UL => (c - r.code) % 2 == if unicode then 0 else 1
    case LSU => if unicode then c - r.code != 2 else c - r.code != 0
    case _ => true
  }

  predicate RunOk(r: Run) {
    r.len > 0 && (r.typ.UL? ==> r.len % 2 == 0) && (r.typ.LSU? ==> r.len == 3) && r.code + r.len <= 0x110000
  }

  /** ASCII letters are folded by the table as by the short cut, and selected when they change. */
  ghost predicate AsciiOk(tab: Table) {
    forall c, unicode :: 0 <= c < 128 ==> AsciiAt(tab, c, unicode)
  }

  ghost predicate AsciiAt(tab: Table, c: int, unicode: bool) {
    var d := if unicode then AsciiLower(c) else AsciiUpper(c);
    Canon(tab, c, unicode) == d && (d != c ==> InMask(tab, c, unicode))
  }

  /** Converted characters are characters. */
  ghost predicate RangeOk(tab: Table) {
    forall k, c, unicode :: 0 <= k < |tab.runs| && Contains(tab.runs[k], c) ==>
      0 <= FoldEntry(tab, c, tab.runs[k], unicode) < 0x110000
  }

  ghost predicate TableOk(tab: Table) {
    SortedRuns(tab.runs) && (forall k :: 0 <= k < |tab.runs| ==> RunOk(tab.runs[k])) && AsciiOk(tab) && RangeOk(tab)
  }

  ghost predicate InMask(tab: Table, c: int, unicode: bool) {
    exists k :: 0 <= k < |tab.runs| && Selected(tab.runs[k], c, unicode)
  }

  /** A character lies in one run only. */
  lemma RunUnique(runs: seq<Run>, c: int, k: nat)
    requires SortedRuns(runs) && k < |runs| && Contains(runs[k], c)
    ensures FindRun(runs, c, 0) == k
  {
    var m := FindRun(runs, c, 0);
    var apart := m < k ==> Before(runs[m], runs[k]);
  }

  /** Characters of a run that are not selected stay as they are. */
  lemma Unselected(tab: Table, c: int, k: nat, unicode: bool)
    requires TableOk(tab) && k < |tab.runs| && Contains(tab.runs[k], c) && !Selected(tab.runs[k], c, unicode)
    ensures FoldEntry(tab, c, tab.runs[k], unicode) == c
  {
    var r := tab.runs[k];
    assert RunOk(r);
    if !unicode && c < 128 {
      RunUnique(tab.runs, c, k);
      assert AsciiAt(tab, c, unicode);
      if AsciiUpper(c) != c {
        var j :| 0 <= j < |tab.runs| && Selected(tab.runs[j], c, unicode);
        RunUnique(tab.runs, c, j);
        assert false;
      }
    }
  }

  /** Outside the mask nothing changes; inside it, the run decides. */
  lemma CanonByMask(tab: Table, c: int, unicode: bool)
    requires TableOk(tab)
    ensures !InMask(tab, c, unicode) ==> Canon(tab, c, unicode) == c
    ensures InMask(tab, c, unicode) ==> FindRun(tab.runs, c, 0) < |tab.runs|
  {
    hide FoldEntry;
    var k := FindRun(tab.runs, c, 0);
    if k < |tab.runs| && !InMask(tab, c, unicode) { Unselected(tab, c, k, unicode); }
  }

  // ----- one character --------------------------------------------------------------------------------

  /** lre_canonicalize. */
  method LreCanonicalize(tab: Table, c: int, unicode: bool) returns (d: int)
    requires TableOk(tab) && c >= 0
    ensures d == Canon(tab, c, unicode)
  {
    hide FoldEntry, AsciiLower, AsciiUpper;
    if c < 128 {
      assert AsciiAt(tab, c, unicode);
      return if unicode then AsciiLower(c) else AsciiUpper(c);
    }
    var idxMin, idxMax := 0, |tab.runs| - 1;
    while idxMin <= idxMax
      invariant 0 <= idxMin <= idxMax + 1 <= |tab.runs|
      invariant forall k :: 0 <= k < idxMin ==> !Contains(tab.runs[k], c)
      invariant forall k :: idxMax < k < |tab.runs| ==> !Contains(tab.runs[k], c)
      decreases idxMax - idxMin
    {
      var idx := (idxMax + idxMin) / 2;
      var r := tab.runs[idx];
      if c < r.code {
        AllAbove(tab.runs, idx, c);
        idxMax := idx - 1;
      } else if c >= r.code + r.len {
        AllBelowRun(tab.runs, idx, c);
        idxMin := idx + 1;
      } else {
        RunUnique(tab.runs, c, idx);
        return FoldEntry(tab, c, r, unicode);
      }
    }
    return c;
  }

  lemma AllAbove(runs: seq<Run>, idx: nat, c: int)
    requires SortedRuns(runs) && idx < |runs| && c < runs[idx].code
    ensures forall k :: idx <= k < |runs| ==> !Contains(runs[k], c)
  {
    forall k | idx <= k < |runs| ensures !Contains(runs[k], c) { if k > idx { assert Before(runs[idx], runs[k]); } }
  }

  lemma AllBelowRun(runs: seq<Run>, idx: nat, c: int)
    requires SortedRuns(runs) && idx < |runs| && c >= runs[idx].code + runs[idx].len
    ensures forall k :: 0 <= k <= idx ==> !Contains(runs[k], c)
  {
    forall k | 0 <= k <= idx ensures !Contains(runs[k], c) { if k < idx { assert Before(runs[k], runs[idx]); } }
  }

  // ----- unicode_case1 --------------------------------------------------------------------------------

  /** Ascending points between lo and hi. */
  ghost predicate Between(p: seq<int>, lo: int, hi: int) {
    |p| % 2 == 0 && Ascending(p) && forall i :: 0 <= i < |p| ==> lo <= p[i] <= hi
  }

  lemma BetweenAppend(p: seq<int>, lo: int, mid: int, q: seq<int>, hi: int)
    requires Between(p, lo, mid) && Between(q, mid, hi) && lo <= mid <= hi
    ensures Between(p + q, lo, hi)
  {
  }

  /** Every other character of a run, from the given one on. */
  method AlternatePoints(first: int, len: nat) returns (q: seq<int>)
    requires len % 2 == 0 && len > 0
    ensures Between(q, first, first + len - 1)
    ensures forall c :: InPoints(q, c) <==> Alternate(c, first, len)
  {
    hide InPoints;
    q := [];
    var i := 0;
    EmptySet();
    while i < len
      invariant 0 <= i <= len && i % 2 == 0 && Between(q, first, if i == 0 then first else first + i - 1)
      invariant forall c :: InPoints(q, c) <==> Alternate(c, first, i)
    {
      var p := [first + i, first + i + 1];
      forall c ensures InPoints(q + p, c) <==> Alternate(c, first, i + 2) {
        InAppend(q, p, c);
        OneInterval(first + i, first + i + 1, c);
      }
      q := q + p;
      i := i + 2;
    }
  }

  predicate Alternate(c: int, first: int, len: int) { first <= c < first + len && (c - first) % 2 == 0 }

  lemma EmptySet()
    ensures forall c :: !InPoints([], c)
  {
  }

  /** The points that unicode_case1 adds for one run. */
  method RunPoints(r: Run, unicode: bool) returns (q: seq<int>)
    requires RunOk(r)
    ensures Between(q, r.code, r.code + r.len) && forall c :: InPoints(q, c) <==> Selected(r, c, unicode)
  {
    hide InPoints;
    EmptySet();
    q := [];
    if !Changes(r.typ, unicode) { return; }
    if r.typ.UL? {
      if unicode {
        q := AlternatePoints(r.code, r.len);
      } else {
        q := AlternatePoints(r.code + 1, r.len);
        OddOffsets(r, q);
      }
    } else if r.typ.LSU? {
      var a := if unicode then r.code else r.code + 1;
      q := [a, a + 1] + [a + 1, a + 2];
      forall c ensures InPoints(q, c) <==> Selected(r, c, unicode) {
        InAppend([a, a + 1], [a + 1, a + 2], c);
        OneInterval(a, a + 1, c);
        OneInterval(a + 1, a + 2, c);
      }
    } else {
      q := [r.code, r.code + r.len];
      forall c ensures InPoints(q, c) <==> Selected(r, c, unicode) { OneInterval(r.code, r.code + r.len, c); }
    }
  }

  /** The odd offsets of a run of even length end with the run. */
  lemma OddOffsets(r: Run, q: seq<int>)
    requires r.typ.UL? && RunOk(r) && Between(q, r.code + 1, r.code + r.len)
    requires forall c :: InPoints(q, c) <==> Alternate(c, r.code + 1, r.len)
    ensures forall c :: InPoints(q, c) <==> Selected(r, c, false)
  {
    hide InPoints;
    forall c ensures InPoints(q, c) <==> Selected(r, c, false) {
      assert InPoints(q, c) <==> Alternate(c, r.code + 1, r.len);
    }
  }

  /** unicode_case1 for one kind of change: the characters that it affects. */
  method UnicodeCase1(cr: CharRange, tab: Table, unicode: bool)
    requires TableOk(tab) && cr.points == []
    modifies cr
    ensures Between(cr.points, 0, 0x110000) && forall c :: InPoints(cr.points, c) <==> InMask(tab, c, unicode)
  {
    hide InPoints, AsciiOk, RangeOk, Selected;
    var idx := 0;
    EmptySet();
    ghost var top := 0;
    while idx < |tab.runs|
      invariant 0 <= idx <= |tab.runs| && Between(cr.points, 0, top) && 0 <= top <= 0x110000
      invariant forall k :: idx <= k < |tab.runs| ==> top <= tab.runs[k].code
      invariant forall c :: InPoints(cr.points, c) <==> MaskUpTo(tab, c, unicode, idx)
    {
      var r := tab.runs[idx];
      assert RunOk(r);
      var q := RunPoints(r, unicode);
      ghost var p := cr.points;
      BetweenWiden(q, r.code, r.code + r.len, top);
      BetweenAppend(p, 0, top, q, r.code + r.len);
      forall c ensures InPoints(p + q, c) <==> MaskUpTo(tab, c, unicode, idx + 1) {
        InAppend(p, q, c);
        MaskStep(tab, c, unicode, idx);
      }
      cr.points := cr.points + q;
      top := r.code + r.len;
      forall k | idx + 1 <= k < |tab.runs| ensures top <= tab.runs[k].code { assert Before(tab.runs[idx], tab.runs[k]); }
      idx := idx + 1;
    }
    BetweenWidenUp(cr.points, top, 0x110000);
    forall c ensures InPoints(cr.points, c) <==> InMask(tab, c, unicode) { MaskEnd(tab, c, unicode); }
  }

  /** InMask for the first n runs. */
  ghost predicate MaskUpTo(tab: Table, c: int, unicode: bool, n: nat)
    requires n <= |tab.runs|
  {
    exists k :: 0 <= k < n && Selected(tab.runs[k], c, unicode)
  }

  lemma MaskStep(tab: Table, c: int, unicode: bool, n: nat)
    requires n < |tab.runs|
    ensures MaskUpTo(tab, c, unicode, n + 1) <==> MaskUpTo(tab, c, unicode, n) || Selected(tab.runs[n], c, unicode)
  {
    hide Selected;
  }

  lemma MaskEnd(tab: Table, c: int, unicode: bool)
    ensures MaskUpTo(tab, c, unicode, |tab.runs|) <==> InMask(tab, c, unicode)
  {
    hide Selected;
  }

  lemma BetweenWiden(q: seq<int>, lo: int, hi: int, lo': int)
    requires Between(q, lo, hi) && lo' <= lo
    ensures Between(q, lo', hi)
  {
  }

  lemma BetweenWidenUp(q: seq<int>, hi: int, hi': int)
    requires Between(q, 0, hi) && hi <= hi'
    ensures Between(q, 0, hi')
  {
  }

  // ----- the image of a set ---------------------------------------------------------------------------

  /** d is the folded form of a character of p below `limit`. */
  ghost predicate Image(tab: Table, unicode: bool, p: seq<int>, limit: int, d: int) {
    exists c :: InPoints(p, c) && c < limit && Canon(tab, c, unicode) == d
  }

  /** The intervals collected so far, including the current one; none while start is -1. */
  predicate Collected(q: seq<int>, start: int, end: int, d: int) {
    InPoints(q, d) || (start != -1 && start <= d < end)
  }

  /** Adds d to the current interval, or ends this one and begins another. */
  method CollectChar(result: CharRange, start: int, end: int, d: int) returns (start': int, end': int)
    requires |result.points| % 2 == 0 && Forward(result.points) && d >= 0 && (start != -1 ==> 0 <= start < end)
    modifies result
    ensures |result.points| % 2 == 0 && Forward(result.points) && 0 <= start' < end'
    ensures forall x :: Collected(result.points, start', end', x) <==> Collected(old(result.points), start, end, x) || x == d
  {
    hide InPoints, Forward;
    if start == -1 { return d, d + 1; }
    if end == d { return start, end + 1; }
    ghost var p := result.points;
    result.AddInterval(start, end);
    ForwardAppend(p, start, end);
    forall x ensures InPoints(result.points, x) <==> InPoints(p, x) || start <= x < end {
      InAppend(p, [start, end], x);
      OneInterval(start, end, x);
    }
    return d, d + 1;
  }

  lemma ForwardAppend(p: seq<int>, start: int, end: int)
    requires |p| % 2 == 0 && Forward(p) && start <= end
    ensures Forward(p + [start, end])
  {
    var q := p + [start, end];
    forall i | 0 <= i < |q| / 2 ensures Proper(q, i) { if i < |p| / 2 { assert Proper(p, i); } }
  }

  /** The runs before idx lie below c. */
  ghost predicate CursorAt(runs: seq<Run>, idx: nat, c: int) {
    idx <= |runs| && forall k :: 0 <= k < idx ==> runs[k].code + runs[k].len <= c
  }

  /** Moves the cursor to the run of c; it never passes the last run. */
  method Advance(tab: Table, idx0: nat, c: int) returns (idx: nat)
    requires TableOk(tab) && CursorAt(tab.runs, idx0, c) && FindRun(tab.runs, c, 0) < |tab.runs|
    ensures CursorAt(tab.runs, idx, c) && idx < |tab.runs| && idx == FindRun(tab.runs, c, 0)
  {
    ghost var k := FindRun(tab.runs, c, 0);
    idx := idx0;
    while !Contains(tab.runs[idx], c)
      invariant idx <= k && CursorAt(tab.runs, idx, c)
      decreases k - idx
    {
      assert Before(tab.runs[idx], tab.runs[k]);
      idx := idx + 1;
    }
    RunUnique(tab.runs, c, idx);
  }

  /** One more character of the set. */
  lemma ImageStep(tab: Table, unicode: bool, p: seq<int>, c: int, d: int)
    requires InPoints(p, c)
    ensures Image(tab, unicode, p, c + 1, d) <==> Image(tab, unicode, p, c, d) || d == Canon(tab, c, unicode)
  {
    hide InPoints, Canon;
    if x :| InPoints(p, x) && x < c + 1 && Canon(tab, x, unicode) == d { assert x < c || x == c; }
  }

  /** No character of the set between two limits. */
  lemma ImageGap(tab: Table, unicode: bool, p: seq<int>, a: int, b: int, d: int)
    requires a <= b && forall c :: a <= c < b ==> !InPoints(p, c)
    ensures Image(tab, unicode, p, b, d) <==> Image(tab, unicode, p, a, d)
  {
    hide InPoints, Canon;
  }

  lemma NoneBetween(p: seq<int>, i: nat, c: int)
    requires Ascending(p) && |p| % 2 == 0 && i <= |p| && i % 2 == 0
    requires (i > 0 ==> p[i - 1] <= c) && (i < |p| ==> c < p[i])
    ensures !InPoints(p, c)
  {
    forall k | 0 <= k < |p| / 2 ensures !InInterval(p, k, c) {
      if 2 * k < i { assert p[2 * k + 1] <= p[i - 1]; } else { assert p[i] <= p[2 * k]; }
    }
  }

  /** The folding loop: result gets the folded forms of all characters of inter. */
  method FoldSet(result: CharRange, inter: seq<int>, tab: Table, unicode: bool)
    requires TableOk(tab) && Ascending(inter) && |inter| % 2 == 0 && result.points == []
    requires forall c :: InPoints(inter, c) ==> InMask(tab, c, unicode)
    modifies result
    ensures |result.points| % 2 == 0 && Forward(result.points)
    ensures forall d :: InPoints(result.points, d) <==> exists c :: InPoints(inter, c) && Canon(tab, c, unicode) == d
  {
    hide InPoints, Canon, Forward, TableOk, CursorAt, Image, Ascending;
    var dStart, dEnd, idx, i := -1, -1, 0, 0;
    ghost var limit := if |inter| > 0 then inter[0] else 0;
    FoldStart(tab, unicode, inter, limit);
    while i < |inter|
      invariant 0 <= i <= |inter| && i % 2 == 0 && FoldState(tab, unicode, inter, limit, idx, result, dStart, dEnd)
      invariant i < |inter| ==> limit == inter[i]
      invariant i == |inter| > 0 ==> limit == inter[i - 1]
    {
      var start, end := inter[i], inter[i + 1];
      Order(inter, i);
      var c := start;
      while c < end
        invariant start <= c <= end && limit == c && FoldState(tab, unicode, inter, limit, idx, result, dStart, dEnd)
      {
        idx, dStart, dEnd := FoldChar(result, tab, unicode, inter, i, c, idx, dStart, dEnd);
        c := c + 1;
        limit := c;
      }
      i := i + 2;
      if i < |inter| {
        SkipGap(tab, unicode, inter, i, limit, idx, result, dStart, dEnd);
        limit := inter[i];
      }
    }
    FoldEnd(tab, unicode, inter, limit, result.points, dStart, dEnd);
    if dStart != -1 {
      ForwardAppend(result.points, dStart, dEnd);
      LastCollected(result.points, dStart, dEnd);
      result.AddInterval(dStart, dEnd);
    } else {
      NothingCurrent(result.points, dEnd);
    }
  }

  lemma NothingCurrent(q: seq<int>, dEnd: int)
    ensures forall d :: InPoints(q, d) <==> Collected(q, -1, dEnd, d)
  {
    hide InPoints;
  }

  /** The folded forms of the characters below limit have been collected. */
  ghost predicate FoldState(tab: Table, unicode: bool, inter: seq<int>, limit: int, idx: nat, result: CharRange, dStart: int, dEnd: int)
    reads result
  {
    && CursorAt(tab.runs, idx, limit) && |result.points| % 2 == 0 && Forward(result.points)
    && (dStart != -1 ==> 0 <= dStart < dEnd)
    && forall d :: Collected(result.points, dStart, dEnd, d) <==> Image(tab, unicode, inter, limit, d)
  }

  lemma FoldStart(tab: Table, unicode: bool, inter: seq<int>, limit: int)
    requires Ascending(inter) && |inter| % 2 == 0 && (|inter| > 0 ==> limit == inter[0])
    ensures Forward([]) && CursorAt(tab.runs, 0, limit)
    ensures forall d :: Collected([], -1, -1, d) <==> Image(tab, unicode, inter, limit, d)
  {
    hide Canon;
    EmptySet();
    forall c | c < limit ensures !InPoints(inter, c) { NoneBetween(inter, 0, c); }
    hide InPoints;
  }

  lemma Order(p: seq<int>, i: nat)
    requires Ascending(p) && i + 1 < |p|
    ensures p[i] <= p[i + 1]
  {
  }

  method FoldChar(result: CharRange, tab: Table, unicode: bool, inter: seq<int>, ghost i: nat, c: int, idx0: nat, dStart0: int, dEnd0: int)
    returns (idx: nat, dStart: int, dEnd: int)
    requires TableOk(tab) && FoldState(tab, unicode, inter, c, idx0, result, dStart0, dEnd0)
    requires i % 2 == 0 && i + 1 < |inter| && inter[i] <= c < inter[i + 1] && forall x :: InPoints(inter, x) ==> InMask(tab, x, unicode)
    modifies result
    ensures FoldState(tab, unicode, inter, c + 1, idx, result, dStart, dEnd)
  {
    assert InInterval(inter, i / 2, c);
    hide Forward, CursorAt, Image, TableOk, InMask;
    assert InPoints(inter, c);
    hide InPoints;
    CanonByMask(tab, c, unicode);
    idx := Advance(tab, idx0, c);
    var d := FoldEntry(tab, c, tab.runs[idx], unicode);
    assert d == Canon(tab, c, unicode);
    hide FoldEntry;
    InRange(tab, idx, c, unicode);
    ghost var p := result.points;
    dStart, dEnd := CollectChar(result, dStart0, dEnd0, d);
    CursorNext(tab.runs, idx, c);
    forall x ensures Collected(result.points, dStart, dEnd, x) <==> Image(tab, unicode, inter, c + 1, x) {
      ImageStep(tab, unicode, inter, c, x);
      assert Collected(p, dStart0, dEnd0, x) <==> Image(tab, unicode, inter, c, x);
    }
  }

  lemma InRange(tab: Table, k: nat, c: int, unicode: bool)
    requires TableOk(tab) && k < |tab.runs| && Contains(tab.runs[k], c)
    ensures 0 <= FoldEntry(tab, c, tab.runs[k], unicode) < 0x110000
  {
    hide FoldEntry;
  }

  lemma CursorNext(runs: seq<Run>, idx: nat, c: int)
    requires CursorAt(runs, idx, c)
    ensures CursorAt(runs, idx, c + 1)
  {
  }

  lemma SkipGap(tab: Table, unicode: bool, inter: seq<int>, i: nat, limit: int, idx: nat, result: CharRange, dStart: int, dEnd: int)
    requires Ascending(inter) && |inter| % 2 == 0 && 0 < i < |inter| && i % 2 == 0 && limit == inter[i - 1]
    requires FoldState(tab, unicode, inter, limit, idx, result, dStart, dEnd)
    ensures FoldState(tab, unicode, inter, inter[i], idx, result, dStart, dEnd)
  {
    forall c | limit <= c < inter[i] ensures !InPoints(inter, c) { NoneBetween(inter, i, c); }
    assert limit <= inter[i];
    hide InPoints, Canon, Forward, Image;
    forall d ensures Image(tab, unicode, inter, inter[i], d) <==> Image(tab, unicode, inter, limit, d) {
      ImageGap(tab, unicode, inter, limit, inter[i], d);
    }
  }

  /** All characters have been folded. */
  lemma FoldEnd(tab: Table, unicode: bool, inter: seq<int>, limit: int, q: seq<int>, dStart: int, dEnd: int)
    requires Ascending(inter) && |inter| % 2 == 0 && (|inter| > 0 ==> limit == inter[|inter| - 1])
    requires forall d :: Collected(q, dStart, dEnd, d) <==> Image(tab, unicode, inter, limit, d)
    ensures forall d :: Collected(q, dStart, dEnd, d) <==> exists c :: InPoints(inter, c) && Canon(tab, c, unicode) == d
  {
    hide Canon;
    forall c | limit <= c ensures !InPoints(inter, c) { NoneBetween(inter, |inter|, c); }
    hide InPoints, Collected;
    forall d ensures Collected(q, dStart, dEnd, d) <==> exists c :: InPoints(inter, c) && Canon(tab, c, unicode) == d {
      assert Collected(q, dStart, dEnd, d) <==> Image(tab, unicode, inter, limit, d);
    }
  }

  lemma LastCollected(q: seq<int>, dStart: int, dEnd: int)
    requires |q| % 2 == 0 && dStart != -1
    ensures forall d :: InPoints(q + [dStart, dEnd], d) <==> Collected(q, dStart, dEnd, d)
  {
    hide InPoints;
    forall d ensures InPoints(q + [dStart, dEnd], d) <==> Collected(q, dStart, dEnd, d) {
      InAppend(q, [dStart, dEnd], d);
      OneInterval(dStart, dEnd, d);
    }
  }

  /** cr_regexp_canonicalize: the set of the folded forms of all its characters. */
  method RegexpCanonicalize(cr: CharRange, tab: Table, unicode: bool)
    requires TableOk(tab) && Ascending(cr.points) && Bounded(cr.points) && |cr.points| % 2 == 0
    modifies cr
    ensures Strict(cr.points) && Canonical(cr.points)
    ensures forall d :: InPoints(cr.points, d) <==> exists c :: InPoints(old(cr.points), c) && Canon(tab, c, unicode) == d
  {
    hide InPoints, Canon, Forward, TableOk, Strict, InMask, Gapped, Between, Bounded, Ascending, Combine;
    ghost var s := cr.points;
    var mask := new CharRange();
    var inter := new CharRange();
    var sub := new CharRange();
    var result := new CharRange();
    UnicodeCase1(mask, tab, unicode);
    BetweenIs(mask.points);
    inter.Op(mask.points, cr.points, CR_OP_INTER);
    ghost var m := mask.points;
    mask.Invert();
    StrictAscends(mask.points);
    sub.Op(mask.points, cr.points, CR_OP_INTER);
    StrictAscends(inter.points);
    StrictAscends(sub.points);
    CombineIs();
    FoldSet(result, inter.points, tab, unicode);
    ghost var folded := result.points;
    SortAndRemoveOverlap(result);
    GappedAscends(result.points);
    cr.points := [];
    cr.Op(result.points, sub.points, CR_OP_UNION);
    InSet(s);
    ImageIs(tab, unicode, s, m, mask.points, inter.points, sub.points, folded, cr.points);
    forall d | InPoints(cr.points, d) ensures 0 <= d < UINT32_MAX {
      var c :| InPoints(s, c) && Canon(tab, c, unicode) == d;
      CanonInRange(tab, c, unicode);
    }
    StrictBounded(cr.points);
    StrictCanonical(cr.points);
  }

  /** Folding keeps characters characters, and changes nothing else. */
  lemma CanonInRange(tab: Table, c: int, unicode: bool)
    requires TableOk(tab)
    ensures Canon(tab, c, unicode) == c || 0 <= Canon(tab, c, unicode) < 0x110000
  {
    hide FoldEntry;
    var k := FindRun(tab.runs, c, 0);
    if k < |tab.runs| { InRange(tab, k, c, unicode); }
  }

  /** The folding of lre_canonicalize fits the machine that runs compiled patterns. */
  lemma FoldingEnvOk(tab: Table, unicode: bool, units: seq<int>, utf16: bool, space: int -> bool)
    requires TableOk(tab) && forall i :: 0 <= i < |units| ==> 0 <= units[i] < 0x10000
    ensures EnvOk(Env(units, utf16, c => Canon(tab, c, unicode), space))
  {
    hide Canon;
    forall c | 0 <= c < 0x110000 ensures 0 <= Canon(tab, c, unicode) < 0x110000 { CanonInRange(tab, c, unicode); }
  }

  lemma BetweenIs(p: seq<int>)
    requires Between(p, 0, 0x110000)
    ensures Ascending(p) && Bounded(p) && |p| % 2 == 0
  {
  }

  lemma StrictAscends(p: seq<int>)
    requires Strict(p)
    ensures Ascending(p)
  {
  }

  lemma GappedAscends(p: seq<int>)
    requires Gapped(p)
    ensures Ascending(p) && |p| % 2 == 0
  {
  }

  lemma CombineIs()
    ensures forall a, b :: Combine(CR_OP_INTER, a, b) == (a && b) && Combine(CR_OP_UNION, a, b) == (a || b)
  {
  }

  /** Characters of a bounded set are below UINT32_MAX. */
  lemma InSet(p: seq<int>)
    requires Bounded(p)
    ensures forall c :: InPoints(p, c) ==> 0 <= c < UINT32_MAX
  {
    forall c | InPoints(p, c) ensures 0 <= c < UINT32_MAX {
      var i :| 0 <= i < |p| / 2 && InInterval(p, i, c);
    }
  }

  /** The folded selected characters together with the others are the image. */
  lemma ImageIs(tab: Table, unicode: bool, s: seq<int>, m: seq<int>, notM: seq<int>, inter: seq<int>, sub: seq<int>, folded: seq<int>, r: seq<int>)
    requires TableOk(tab)
    requires forall c :: InPoints(m, c) <==> InMask(tab, c, unicode)
    requires forall c :: 0 <= c < UINT32_MAX ==> (InPoints(notM, c) <==> !InPoints(m, c))
    requires forall c :: InPoints(s, c) ==> 0 <= c < UINT32_MAX
    requires forall c :: InPoints(inter, c) <==> InPoints(m, c) && InPoints(s, c)
    requires forall c :: InPoints(sub, c) <==> InPoints(notM, c) && InPoints(s, c)
    requires forall d :: InPoints(folded, d) <==> exists c :: InPoints(inter, c) && Canon(tab, c, unicode) == d
    requires forall d :: InPoints(r, d) <==> InPoints(folded, d) || InPoints(sub, d)
    ensures forall d :: InPoints(r, d) <==> exists c :: InPoints(s, c) && Canon(tab, c, unicode) == d
  {
    hide InPoints, Canon, TableOk, InMask;
    forall d ensures InPoints(r, d) <==> exists c :: InPoints(s, c) && Canon(tab, c, unicode) == d {
      if InPoints(r, d) {
        if InPoints(sub, d) { CanonByMask(tab, d, unicode); assert InPoints(s, d); }
      }
      if c :| InPoints(s, c) && Canon(tab, c, unicode) == d {
        CanonByMask(tab, c, unicode);
        if InPoints(m, c) { assert InPoints(inter, c); } else { assert InPoints(sub, c); }
      }
    }
  }
}
