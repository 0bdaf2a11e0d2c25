/**
 Run-length tables of character properties: the linear decoder unicode_prop1 and the indexed
 lookup lre_is_in_table describe the same set.
 */
module UnicodeTables {
  import opened RegexpPattern
  import opened Bytecode
  import opened Simulation
  import opened CharRanges
  import opened OverlapRemoval

  // ----- run lengths ----------------------------------------------------------------------------------

  /** Bytes of the code that starts with b. */
  function CodeSize(b: u8): nat { if b < 0x40 || b >= 0x80 then 1 else if b < 0x60 then 2 else 3 }

  /** The one or two run lengths at p. */
  function LengthsAt(table: seq<u8>, p: nat): (r: seq<nat>)
    requires p < |table| && p + CodeSize(table[p]) <= |table|
    ensures 1 <= |r| <= 2 && forall i :: 0 <= i < |r| ==> r[i] >= 1
  {
    var b: int := table[p];
    if b < 0x40 then [b / 8 + 1, b % 8 + 1]
    else if b >= 0x80 then [b - 0x80 + 1]
    else
      var b1: int := table[p + 1];
      if b < 0x60 then [(b - 0x40) * 256 + b1 + 1]
      else
        var b2: int := table[p + 2];
        [(b - 0x60) * 65536 + b1 * 256 + b2 + 1]
  }

  /** The table ends with a complete code. */
  predicate WholeEntries(table: seq<u8>, p: nat)
    decreases |table| - p
  {
    p == |table| || (p < |table| && p + CodeSize(table[p]) <= |table| && WholeEntries(table, p + CodeSize(table[p])))
  }

  /** All run lengths from p on. */
  function Runs(table: seq<u8>, p: nat): seq<nat>
    requires WholeEntries(table, p)
    decreases |table| - p
  {
    if p == |table| then [] else LengthsAt(table, p) + Runs(table, p + CodeSize(table[p]))
  }

  function Total(lens: seq<nat>): nat { if lens == [] then 0 else lens[0] + Total(lens[1..]) }

  /** Runs are alternately outside and inside the set; the first one starts at code. */
  function Lookup(lens: seq<nat>, code: int, bit: bool, c: int): bool {
    lens != [] && if c < code + lens[0] then bit else Lookup(lens[1..], code + lens[0], !bit, c)
  }

  /** The set that a table describes. */
  predicate InTable(table: seq<u8>, c: int)
    requires WholeEntries(table, 0)
  {
    Lookup(Runs(table, 0), 0, false, c)
  }

  lemma {:induction false} LookupSkip(a: seq<nat>, b: seq<nat>, code: int, bit: bool, c: int)
    requires c >= code + Total(a)
    ensures Lookup(a + b, code, bit, c) == Lookup(b, code + Total(a), bit != (|a| % 2 == 1), c)
    decreases a
  {
    if a == [] {
      assert a + b == b;
    } else {
      assert (a + b)[1..] == a[1..] + b;
      LookupSkip(a[1..], b, code + a[0], !bit, c);
    }
  }

  lemma {:induction false} LookupEnd(a: seq<nat>, code: int, bit: bool, c: int)
    requires c >= code + Total(a)
    ensures !Lookup(a, code, bit, c)
    decreases a
  {
    if a != [] { LookupEnd(a[1..], code + a[0], !bit, c); }
  }

  lemma {:induction false} TotalAppend(a: seq<nat>, b: seq<nat>)
    ensures Total(a + b) == Total(a) + Total(b)
    decreases a
  {
    if a == [] {
      assert a + b == b;
    } else {
      assert (a + b)[1..] == a[1..] + b;
      TotalAppend(a[1..], b);
    }
  }

  // ----- linear decoding ------------------------------------------------------------------------------

  /** The intervals of the runs inside the set. */
  function Intervals(lens: seq<nat>, code: int, bit: bool): seq<int> {
    if lens == [] then []
    else (if bit then [code, code + lens[0]] else []) + Intervals(lens[1..], code + lens[0], !bit)
  }

  lemma {:induction false} IntervalsIn(lens: seq<nat>, code: int, bit: bool, c: int)
    ensures |Intervals(lens, code, bit)| % 2 == 0
    ensures c >= code ==> (InPoints(Intervals(lens, code, bit), c) <==> Lookup(lens, code, bit, c))
    ensures c < code ==> !InPoints(Intervals(lens, code, bit), c)
    decreases lens
  {
    if lens != [] {
      var n := lens[0];
      var rest := Intervals(lens[1..], code + n, !bit);
      IntervalsIn(lens[1..], code + n, !bit, c);
      if bit {
        InAppend([code, code + n], rest, c);
        OneInterval(code, code + n, c);
      } else {
        assert [] + rest == rest;
      }
    }
  }

  /** unicode_prop1: all intervals of the set, one after the other. */
  method UnicodeProp1(cr: CharRange, table: seq<u8>)
    requires WholeEntries(table, 0) && cr.points == []
    modifies cr
    ensures cr.points == Intervals(Runs(table, 0), 0, false) && |cr.points| % 2 == 0
    ensures forall c :: c >= 0 ==> (InPoints(cr.points, c) <==> InTable(table, c))
  {
    hide InPoints, Intervals, Runs, Lookup, WholeEntries, LengthsAt, CodeSize;
    var p, c, bit := 0, 0, false;
    ghost var all := Runs(table, 0);
    while p < |table|
      invariant 0 <= p <= |table| && WholeEntries(table, p) && c >= 0
      invariant cr.points + Intervals(Runs(table, p), c, bit) == Intervals(all, 0, false)
      decreases |table| - p
    {
      RunsStep(table, p);
      var lens := LengthsAt(table, p);
      ghost var rest := Runs(table, p + CodeSize(table[p]));
      Unfold(lens, rest, c, bit);
      var c0 := c;
      if |lens| == 2 {
        c := c + lens[0];
        if bit { cr.AddInterval(c0, c); }
        bit := !bit;
        c0 := c;
        c := c + lens[1];
      } else {
        c := c + lens[0];
      }
      if bit { cr.AddInterval(c0, c); }
      bit := !bit;
      p := p + CodeSize(table[p]);
    }
    RunsNone(table);
    IntervalsNone(c, bit);
    assert cr.points + [] == cr.points;
    IntervalsIn(all, 0, false, 0);
    forall x ensures x >= 0 ==> (InPoints(cr.points, x) <==> InTable(table, x)) { IntervalsIn(all, 0, false, x); }
  }

  lemma RunsStep(table: seq<u8>, p: nat)
    requires p < |table| && WholeEntries(table, p)
    ensures p + CodeSize(table[p]) <= |table| && WholeEntries(table, p + CodeSize(table[p]))
    ensures Runs(table, p) == LengthsAt(table, p) + Runs(table, p + CodeSize(table[p]))
  {
  }

  lemma RunsNone(table: seq<u8>)
    ensures WholeEntries(table, |table|) && Runs(table, |table|) == []
  {
  }

  lemma IntervalsNone(c: int, bit: bool)
    ensures Intervals([], c, bit) == []
  {
  }

  /** The intervals of one or two more runs. */
  lemma Unfold(lens: seq<nat>, rest: seq<nat>, c: int, bit: bool)
    requires 1 <= |lens| <= 2
    ensures Intervals(lens + rest, c, bit) ==
      if |lens| == 1 then (if bit then [c, c + lens[0]] else []) + Intervals(rest, c + lens[0], !bit)
      else (if bit then [c, c + lens[0]] else [c + lens[0], c + lens[0] + lens[1]])
           + Intervals(rest, c + lens[0] + lens[1], bit)
  {
    hide Intervals;
    IntervalsStep(lens + rest, c, bit);
    assert (lens + rest)[1..] == lens[1..] + rest;
    if |lens| == 2 {
      var tail := lens[1..] + rest;
      IntervalsStep(tail, c + lens[0], !bit);
      assert tail[1..] == rest && tail[0] == lens[1];
    } else {
      assert lens[1..] + rest == rest;
    }
  }

  lemma IntervalsStep(lens: seq<nat>, code: int, bit: bool)
    requires lens != []
    ensures Intervals(lens, code, bit) == (if bit then [code, code + lens[0]] else []) + Intervals(lens[1..], code + lens[0], !bit)
  {
  }

  // ----- indexed lookup -------------------------------------------------------------------------------

  const UNICODE_INDEX_BLOCK_LEN: nat := 32

  /** get_le24. */
  function Le24(s: seq<u8>, p: nat): (r: int)
    requires p + 3 <= |s|
    ensures 0 <= r < 0x100_0000
  {
    var b0: int, b1: int, b2: int := s[p], s[p + 1], s[p + 2];
    b0 + 256 * (b1 + 256 * b2)
  }

  /** Entry k of an index: the character code in 21 bits, and the offset in its block. */
  function IndexCode(index: seq<u8>, k: nat): int
    requires 3 * k + 3 <= |index|
  {
    Le24(index, 3 * k) % 0x20_0000
  }

  function IndexPos(index: seq<u8>, k: nat): int
    requires 3 * k + 3 <= |index|
  {
    (k + 1) * UNICODE_INDEX_BLOCK_LEN + Le24(index, 3 * k) / 0x20_0000
  }

  /** Decoding the table from p on, with c outside the set, reaches q with code outside the set. */
  ghost predicate Reaches(table: seq<u8>, p: nat, code: int, bit: bool, q: int, code': int)
    requires WholeEntries(table, p)
    decreases |table| - p
  {
    if p == q then code == code' && !bit
    else if p >= |table| || p >= q then false
    else
      var lens := LengthsAt(table, p);
      Reaches(table, p + CodeSize(table[p]), code + Total(lens), bit != (|lens| == 1), q, code')
  }

  /** Every entry but the last one names a place of the table; the last one its end. */
  ghost predicate IndexOk(table: seq<u8>, index: seq<u8>) {
    && WholeEntries(table, 0) && |index| >= 3 && |index| % 3 == 0
    && (forall k :: 0 <= k < |index| / 3 - 1 ==> Reaches(table, 0, 0, false, IndexPos(index, k), IndexCode(index, k)))
    && (forall i, j :: 0 <= i < j < |index| / 3 ==> IndexCode(index, i) <= IndexCode(index, j))
    && Le24(index, |index| - 3) == IndexCode(index, |index| / 3 - 1) == Total(Runs(table, 0))
  }

  /** Behind a place that decoding reaches, only the rest of the table matters. */
  lemma {:induction false} ReachesRest(table: seq<u8>, p: nat, code: int, bit: bool, q: int, code': int, c: int)
    requires WholeEntries(table, p) && Reaches(table, p, code, bit, q, code') && c >= code'
    ensures 0 <= q <= |table| && WholeEntries(table, q) && code <= code'
    ensures Lookup(Runs(table, p), code, bit, c) == Lookup(Runs(table, q), code', false, c)
    ensures code + Total(Runs(table, p)) == code' + Total(Runs(table, q))
    decreases |table| - p
  {
    hide Lookup, Runs, Total, LengthsAt;
    if p != q {
      RunsStep(table, p);
      var lens, next := LengthsAt(table, p), p + CodeSize(table[p]);
      ReachesRest(table, next, code + Total(lens), bit != (|lens| == 1), q, code', c);
      LookupSkip(lens, Runs(table, next), code, bit, c);
      TotalAppend(lens, Runs(table, next));
    }
  }

  /** The start of the table, or a place that an entry of the index names. */
  ghost predicate Named(index: seq<u8>, pos: int, code: int) {
    (pos == 0 && code == 0) || exists k :: 0 <= k < |index| / 3 - 1 && pos == IndexPos(index, k) && code == IndexCode(index, k)
  }

  /** get_index_pos: where to start decoding for c, and the code there; -1 outside the table. */
  method GetIndexPos(index: seq<u8>, c: int) returns (pos: int, code: int)
    requires |index| >= 3 && |index| % 3 == 0 && c >= 0
    requires forall i, j :: 0 <= i < j < |index| / 3 ==> IndexCode(index, i) <= IndexCode(index, j)
    requires Le24(index, |index| - 3) == IndexCode(index, |index| / 3 - 1)
    ensures pos == -1 ==> c >= IndexCode(index, |index| / 3 - 1)
    ensures pos != -1 ==> c < IndexCode(index, |index| / 3 - 1) && c >= code
    ensures pos == -1 || Named(index, pos, code)
  {
    hide Le24;
    var len := |index| / 3;
    code := IndexCode(index, 0);
    if c < code { return 0, 0; }
    var idxMin, idxMax := 0, len - 1;
    code := Le24(index, 3 * idxMax);
    if c >= code { return -1, code; }
    while idxMax - idxMin > 1
      invariant 0 <= idxMin < idxMax < len && IndexCode(index, idxMin) <= c < IndexCode(index, idxMax)
      decreases idxMax - idxMin
    {
      var idx := (idxMax + idxMin) / 2;
      code := IndexCode(index, idx);
      if c < code { idxMax := idx; } else { idxMin := idx; }
    }
    code := IndexCode(index, idxMin);
    pos := IndexPos(index, idxMin);
  }

  /** lre_is_in_table. */
  method LreIsInTable(c: int, table: seq<u8>, index: seq<u8>) returns (r: bool)
    requires IndexOk(table, index) && c >= 0
    ensures r <==> InTable(table, c)
  {
    hide Lookup, Runs, Le24, Reaches, IndexCode, IndexPos;
    var pos, code := GetIndexPos(index, c);
    ghost var all := Runs(table, 0);
    if pos == -1 {
      LookupEnd(all, 0, false, c);
      return false;
    }
    StartOf(table, index, pos, code, c);
    r := DecodeFrom(table, pos, code, c);
  }

  /** The place that the index names is right. */
  lemma StartOf(table: seq<u8>, index: seq<u8>, pos: int, code: int, c: int)
    requires IndexOk(table, index) && c >= code && c < IndexCode(index, |index| / 3 - 1)
    requires Named(index, pos, code)
    ensures 0 <= pos <= |table| && WholeEntries(table, pos) && c < code + Total(Runs(table, pos))
    ensures InTable(table, c) == Lookup(Runs(table, pos), code, false, c)
  {
    hide Lookup, Runs, Le24, Reaches, IndexCode, IndexPos;
    if !(pos == 0 && code == 0) {
      var k :| 0 <= k < |index| / 3 - 1 && pos == IndexPos(index, k) && code == IndexCode(index, k);
      ReachesRest(table, 0, 0, false, pos, code, c);
    }
  }

  /** The decoding loop; it never reads past the table. */
  method DecodeFrom(table: seq<u8>, pos: nat, code0: int, c: int) returns (r: bool)
    requires pos <= |table| && WholeEntries(table, pos) && code0 <= c < code0 + Total(Runs(table, pos))
    ensures r == Lookup(Runs(table, pos), code0, false, c)
  {
    hide Lookup, Runs, Total;
    var p, code, bit := pos, code0, false;
    while true
      invariant p <= |table| && WholeEntries(table, p) && code <= c < code + Total(Runs(table, p))
      invariant Lookup(Runs(table, pos), code0, false, c) == Lookup(Runs(table, p), code, bit, c)
      decreases |table| - p
    {
      NotAtEnd(table, p, code, c);
      RunsStep(table, p);
      var lens := LengthsAt(table, p);
      ghost var rest := Runs(table, p + CodeSize(table[p]));
      LookupTwo(lens, rest, code, bit, c);
      if |lens| == 2 {
        code := code + lens[0];
        if c < code { return bit; }
        bit := !bit;
        code := code + lens[1];
      } else {
        code := code + lens[0];
      }
      if c < code { return bit; }
      bit := !bit;
      p := p + CodeSize(table[p]);
    }
  }

  lemma NotAtEnd(table: seq<u8>, p: nat, code: int, c: int)
    requires p <= |table| && WholeEntries(table, p) && code <= c < code + Total(Runs(table, p))
    ensures p < |table|
  {
    if p == |table| { RunsNone(table); assert false; }
  }

  lemma LookupTwo(lens: seq<nat>, rest: seq<nat>, code: int, bit: bool, c: int)
    requires 1 <= |lens| <= 2
    ensures Total(lens + rest) == Total(rest) + lens[0] + (if |lens| == 2 then lens[1] else 0)
    ensures c < code + lens[0] ==> Lookup(lens + rest, code, bit, c) == bit
    ensures |lens| == 1 && c >= code + lens[0] ==> Lookup(lens + rest, code, bit, c) == Lookup(rest, code + lens[0], !bit, c)
    ensures |lens| == 2 && code + lens[0] <= c < code + lens[0] + lens[1] ==> Lookup(lens + rest, code, bit, c) == !bit
    ensures |lens| == 2 && c >= code + lens[0] + lens[1] ==>
      Lookup(lens + rest, code, bit, c) == Lookup(rest, code + lens[0] + lens[1], bit, c)
  {
    assert (lens + rest)[1..] == lens[1..] + rest;
    if |lens| == 2 { assert (lens[1..] + rest)[1..] == rest; } else { assert lens[1..] + rest == rest; }
  }
}
