/**
 The generator of property tables (build_prop_table of unicode_gen.c): run lengths of a property,
 their codes, and the index. On what it writes, the lookup and the linear decoder of the library
 decide the property that it was given.
 */
module PropertyTables {
  import opened RegexpPattern
  import opened Bytecode
  import opened CharRanges
  import opened UnicodeTables

  // ----- codes ----------------------------------------------------------------------------------------

  /** Lengths that a code can hold. */
  predicate Encodable(lens: seq<nat>) { forall i :: 0 <= i < |lens| ==> 1 <= lens[i] <= 0x20_0000 }

  /** A single length: 7 bits, 5 bits and a byte, or 5 bits and two bytes; one less is stored. */
  function Single(v: nat): seq<u8>
    requires v < 0x20_0000
  {
    if v < 128 then [0x80 + v]
    else if v < 0x2000 then [0x40 + v / 256, v % 256]
    else [0x60 + v / 65536, v / 256 % 256, v % 256]
  }

  /** Two lengths up to 8 share a byte, 3 bits each. */
  predicate Packs(lens: seq<nat>) { |lens| > 1 && lens[0] <= 8 && lens[1] <= 8 }

  /** How many lengths the first code holds. */
  function Taken(lens: seq<nat>): (n: nat)
    ensures 1 <= n <= 2 && (lens != [] ==> n <= |lens|)
  {
    if Packs(lens) then 2 else 1
  }

  /** The first code. */
  function Head(lens: seq<nat>): (code: seq<u8>)
    requires Encodable(lens) && lens != []
    ensures |code| >= 1
  {
    if Packs(lens) then [(lens[0] - 1) * 8 + (lens[1] - 1)] else Single(lens[0] - 1)
  }

  function Encode(lens: seq<nat>): seq<u8>
    requires Encodable(lens)
    decreases |lens|
  {
    if lens == [] then [] else Head(lens) + Encode(lens[Taken(lens)..])
  }

  /** What stands at the place of a code. */
  lemma PackedAt(pre: seq<u8>, x: nat, y: nat, rest: seq<u8>)
    requires 1 <= x <= 8 && 1 <= y <= 8
    ensures var t, p := pre + [(x - 1) * 8 + (y - 1)] + rest, |pre|;
      CodeSize(t[p]) == 1 && LengthsAt(t, p) == [x, y]
  {
    var v: int := (x - 1) * 8 + (y - 1);
    assert v / 8 == x - 1 && v % 8 == y - 1;
  }

  lemma SingleAt(pre: seq<u8>, n: nat, rest: seq<u8>)
    requires 1 <= n <= 0x20_0000
    ensures var t, p := pre + Single(n - 1) + rest, |pre|;
      CodeSize(t[p]) == |Single(n - 1)| && LengthsAt(t, p) == [n]
  {
    var v, t, p := n - 1, pre + Single(n - 1) + rest, |pre|;
    assert forall i :: 0 <= i < |Single(v)| ==> t[p + i] == Single(v)[i];
    SingleBytes(v);
    hide Single;
    assert t[p + 0] == Single(v)[0];
    if |Single(v)| >= 2 { assert t[p + 1] == Single(v)[1]; }
    if |Single(v)| == 3 { assert t[p + 2] == Single(v)[2]; }
  }

  lemma SingleBytes(v: nat)
    requires v < 0x20_0000
    ensures var code := Single(v);
      var b: int := code[0];
      && 1 <= |code| <= 3 && CodeSize(code[0]) == |code|
      && (|code| == 1 ==> b >= 0x80 && b - 0x80 == v)
      && (|code| == 2 ==> 0x40 <= b < 0x60 && (b - 0x40) * 256 + code[1] == v)
      && (|code| == 3 ==> 0x60 <= b < 0x80 && (b - 0x60) * 65536 + 256 * (code[1] as int) + code[2] == v)
  {
    assert v == v / 256 * 256 + v % 256;
    assert v / 256 == v / 65536 * 256 + v / 256 % 256;
  }

  lemma HeadAt(pre: seq<u8>, lens: seq<nat>, rest: seq<u8>)
    requires Encodable(lens) && lens != []
    ensures var t, p := pre + Head(lens) + rest, |pre|;
      && Taken(lens) <= |lens| && CodeSize(t[p]) == |Head(lens)| && LengthsAt(t, p) == lens[..Taken(lens)]
  {
    hide LengthsAt, CodeSize, Single;
    if Packs(lens) {
      PackedAt(pre, lens[0], lens[1], rest);
      assert lens[..2] == [lens[0], lens[1]];
    } else {
      SingleAt(pre, lens[0], rest);
      assert lens[..1] == [lens[0]];
    }
  }

  /** The first code is read as what was written. */
  lemma FirstCode(pre: seq<u8>, lens: seq<nat>)
    requires Encodable(lens) && lens != []
    ensures var t, p, n := pre + Encode(lens), |pre|, Taken(lens);
      && n <= |lens| && p < |t| && CodeSize(t[p]) == |Head(lens)| && p + CodeSize(t[p]) <= |t| && LengthsAt(t, p) == lens[..n]
      && t == (pre + Head(lens)) + Encode(lens[n..])
  {
    hide LengthsAt, CodeSize, Head, Packs;
    var t, rest := pre + Encode(lens), Encode(lens[Taken(lens)..]);
    assert t == pre + Head(lens) + rest;
    HeadAt(pre, lens, rest);
  }

  /** Decoding gives back the lengths. */
  lemma {:induction false} DecodeEncoded(pre: seq<u8>, lens: seq<nat>)
    requires Encodable(lens)
    ensures WholeEntries(pre + Encode(lens), |pre|) && Runs(pre + Encode(lens), |pre|) == lens
    decreases lens
  {
    hide LengthsAt, CodeSize, Packs, Head;
    if lens != [] {
      var n := Taken(lens);
      FirstCode(pre, lens);
      DecodeEncoded(pre + Head(lens), lens[n..]);
      assert lens == lens[..n] + lens[n..];
    }
  }

  // ----- run lengths ----------------------------------------------------------------------------------

  lemma {:induction false} LookupSnoc(lens: seq<nat>, n: nat, code: int, bit: bool, c: int)
    requires c >= code
    ensures Lookup(lens + [n], code, bit, c) ==
      if c < code + Total(lens) then Lookup(lens, code, bit, c)
      else c < code + Total(lens) + n && (bit != (|lens| % 2 == 1))
    ensures Total(lens + [n]) == Total(lens) + n
    decreases lens
  {
    if lens == [] {
      assert lens + [n] == [n] && [n][1..] == [];
    } else {
      assert (lens + [n])[1..] == lens[1..] + [n];
      if c >= code + lens[0] {
        LookupSnoc(lens[1..], n, code + lens[0], !bit, c);
      } else {
        LookupSnoc(lens[1..], n, code + lens[0], !bit, code + lens[0]);
      }
    }
  }

  /** The lengths of the runs of equal values; a last run of false is left out. */
  method RunLengths(prop: seq<bool>) returns (lens: seq<nat>)
    requires 0 < |prop| <= 0x11_0000 && !prop[0]
    ensures Encodable(lens) && Total(lens) <= |prop|
    ensures forall c :: c >= 0 ==> (Lookup(lens, 0, false, c) <==> c < |prop| && prop[c])
  {
    hide Lookup, Total;
    lens := [];
    NoRuns();
    var i := 0;
    while i < |prop|
      invariant 0 <= i <= |prop| && Encodable(lens) && Total(lens) == i
      invariant i < |prop| ==> prop[i] == (|lens| % 2 == 1)
      invariant forall c :: 0 <= c ==> (Lookup(lens, 0, false, c) <==> c < i && prop[c])
    {
      var v, j := prop[i], i + 1;
      while j < |prop| && prop[j] == v
        invariant i < j <= |prop| && forall c :: i <= c < j ==> prop[c] == v
      {
        j := j + 1;
      }
      if j == |prop| && !v { break; }
      ghost var before := lens;
      lens := lens + [j - i];
      forall c | 0 <= c ensures Lookup(lens, 0, false, c) <==> c < j && prop[c] { LookupSnoc(before, j - i, 0, false, c); }
      LookupSnoc(before, j - i, 0, false, 0);
      i := j;
    }
  }

  lemma NoRuns()
    ensures Total([]) == 0 && forall c :: !Lookup([], 0, false, c)
  {
  }

  // ----- the index ------------------------------------------------------------------------------------

  /** Decoding from p on reaches q, with the character code and the side of the set there. */
  ghost predicate Walk(table: seq<u8>, p: nat, code: int, bit: bool, q: int, code': int, bit': bool)
    requires WholeEntries(table, p)
    decreases |table| - p
  {
    if p == q then code == code' && bit == bit'
    else if p >= |table| || p >= q then false
    else
      var lens := LengthsAt(table, p);
      Walk(table, p + CodeSize(table[p]), code + Total(lens), bit != (|lens| == 1), q, code', bit')
  }

  lemma {:induction false} WalkReaches(table: seq<u8>, p: nat, code: int, bit: bool, q: int, code': int)
    requires WholeEntries(table, p)
    ensures Reaches(table, p, code, bit, q, code') <==> Walk(table, p, code, bit, q, code', false)
    decreases |table| - p
  {
    hide LengthsAt, CodeSize, Total;
    if p != q && p < |table| && p < q {
      RunsStep(table, p);
      var lens := LengthsAt(table, p);
      WalkReaches(table, p + CodeSize(table[p]), code + Total(lens), bit != (|lens| == 1), q, code');
    }
  }

  /** One code further. */
  lemma {:induction false} WalkStep(table: seq<u8>, p: nat, code: int, bit: bool, q: nat, code': int, bit': bool)
    requires WholeEntries(table, p) && Walk(table, p, code, bit, q, code', bit') && q < |table|
    ensures q + CodeSize(table[q]) <= |table|
    ensures var lens := LengthsAt(table, q);
      Walk(table, p, code, bit, q + CodeSize(table[q]), code' + Total(lens), bit' != (|lens| == 1))
    decreases |table| - p
  {
    hide LengthsAt, CodeSize, Total;
    RunsStep(table, p);
    SizePositive(table[p]);
    SizePositive(table[q]);
    var next := p + CodeSize(table[p]);
    if p != q {
      var lens := LengthsAt(table, p);
      WalkStep(table, next, code + Total(lens), bit != (|lens| == 1), q, code', bit');
      WalkBound(table, next, code + Total(lens), bit != (|lens| == 1), q, code', bit');
    }
  }

  lemma SizePositive(b: u8)
    ensures CodeSize(b) >= 1
  {
  }

  lemma WalkBound(table: seq<u8>, p: nat, code: int, bit: bool, q: nat, code': int, bit': bool)
    requires WholeEntries(table, p) && Walk(table, p, code, bit, q, code', bit')
    ensures p <= q
  {
  }

  /** The three bytes of an index entry. */
  function Bytes24(v: nat): seq<u8> { [v % 256, v / 256 % 256, v / 65536 % 256] }

  lemma Entry(index: seq<u8>, code: nat, offset: nat)
    requires code < 0x20_0000 && offset <= 7 && |index| % 3 == 0
    ensures var next, k := index + Bytes24(code + offset * 0x20_0000), |index| / 3;
      && IndexCode(next, k) == code && IndexPos(next, k) == (k + 1) * UNICODE_INDEX_BLOCK_LEN + offset
      && (offset == 0 ==> Le24(next, 3 * k) == code)
      && forall j :: 0 <= j < k ==> IndexCode(next, j) == IndexCode(index, j) && IndexPos(next, j) == IndexPos(index, j)
  {
    var v, next, k := code + offset * 0x20_0000, index + Bytes24(code + offset * 0x20_0000), |index| / 3;
    assert next[3 * k] == v % 256 && next[3 * k + 1] == v / 256 % 256 && next[3 * k + 2] == v / 65536 % 256;
    BytesValue(v);
    assert v % 0x20_0000 == code && v / 0x20_0000 == offset;
    assert Le24(next, 3 * k) == v;
    forall j | 0 <= j < k ensures Le24(next, 3 * j) == Le24(index, 3 * j) { }
  }

  lemma BytesValue(v: nat)
    requires v < 0x100_0000
    ensures v % 256 + 256 * (v / 256 % 256 + 256 * (v / 65536 % 256)) == v
  {
    assert v / 256 / 256 == v / 65536;
  }

  /** The entries written so far name places that decoding reaches, in ascending order. */
  ghost predicate Indexed(table: seq<u8>, index: seq<u8>, code: int) {
    && WholeEntries(table, 0) && |index| % 3 == 0
    && (forall k :: 0 <= k < |index| / 3 ==> Reaches(table, 0, 0, false, IndexPos(index, k), IndexCode(index, k)))
    && (forall k :: 0 <= k < |index| / 3 ==> IndexCode(index, k) <= code)
    && (forall i, j :: 0 <= i < j < |index| / 3 ==> IndexCode(index, i) <= IndexCode(index, j))
  }

  lemma IndexedNext(table: seq<u8>, index: seq<u8>, code: nat, offset: nat)
    requires Indexed(table, index, code) && code < 0x20_0000 && offset <= 7
    requires Reaches(table, 0, 0, false, (|index| / 3 + 1) * UNICODE_INDEX_BLOCK_LEN + offset, code)
    ensures Indexed(table, index + Bytes24(code + offset * 0x20_0000), code)
  {
    hide IndexCode, IndexPos, Reaches, Bytes24, Le24;
    Entry(index, code, offset);
    var next := index + Bytes24(code + offset * 0x20_0000);
    SizeThree(code + offset * 0x20_0000);
    assert |next| / 3 == |index| / 3 + 1;
  }

  lemma SizeThree(v: nat)
    ensures |Bytes24(v)| == 3
  {
  }

  /** The last entry closes the index. */
  lemma IndexedLast(table: seq<u8>, index: seq<u8>, code: nat)
    requires Indexed(table, index, code) && code < 0x20_0000 && code == Total(Runs(table, 0))
    ensures IndexOk(table, index + Bytes24(code))
  {
    hide IndexCode, IndexPos, Reaches, Bytes24, Le24, Runs, Total;
    Entry(index, code, 0);
    SizeThree(code);
    var next := index + Bytes24(code);
    assert |next| / 3 == |index| / 3 + 1 && |next| - 3 == 3 * (|index| / 3);
    assert code + 0 * 0x20_0000 == code;
  }

  // ----- the generator --------------------------------------------------------------------------------

  /** The codes of the first i lengths have been written. */
  ghost predicate Written(full: seq<u8>, lens: seq<nat>, table: seq<u8>, index: seq<u8>, i: nat, code: int, bit: bool) {
    && Encodable(lens) && full == Encode(lens) && i <= |lens| && full == table + Encode(lens[i..]) && WholeEntries(full, 0)
    && Total(lens[..i]) == code && Total(lens) <= 0x11_0000 && bit == (i % 2 == 1)
    && Walk(full, 0, 0, false, |table|, code, bit) && Indexed(full, index, code)
  }

  lemma WriteStart(full: seq<u8>, lens: seq<nat>)
    requires Encodable(lens) && full == Encode(lens) && Total(lens) <= 0x11_0000
    ensures Written(full, lens, [], [], 0, 0, false) && WholeEntries(full, 0) && Runs(full, 0) == lens
  {
    hide Encode, Runs;
    assert [] + full == full;
    DecodeEncoded([], lens);
    assert lens[0..] == lens && lens[..0] == [];
  }

  lemma WriteStep(full: seq<u8>, lens: seq<nat>, table: seq<u8>, index: seq<u8>, i: nat, code: int, bit: bool)
    requires Written(full, lens, table, index, i, code, bit) && i < |lens|
    ensures var n := Taken(lens[i..]);
      && (n == 2 ==> i + 1 < |lens|)
      && Written(full, lens, table + Head(lens[i..]), index, i + n, code + lens[i] + (if n == 2 then lens[i + 1] else 0),
                 bit != (n == 1))
  {
    hide Runs, Total, Reaches, Walk, Indexed, LengthsAt, CodeSize, Head, Encode, WholeEntries, Packs;
    FirstCode(table, lens[i..]);
    WalkStep(full, 0, 0, false, |table|, code, bit);
    TakenTotal(lens, i);
    IndexedWiden(full, index, code, Total(lens[..i + Taken(lens[i..])]));
  }

  lemma WriteEnd(full: seq<u8>, lens: seq<nat>, table: seq<u8>, index: seq<u8>, code: int, bit: bool)
    requires Written(full, lens, table, index, |lens|, code, bit)
    ensures table == full && 0 <= code < 0x20_0000 && WholeEntries(full, 0) && Runs(full, 0) == lens
    ensures IndexOk(full, index + Bytes24(code))
  {
    hide Encode, Runs, Total, Walk, Indexed, WholeEntries, IndexOk, Bytes24;
    assert [] + full == full;
    DecodeEncoded([], lens);
    assert lens[..|lens|] == lens;
    NothingLeft(table, lens[|lens|..]);
    IndexedLast(full, index, code);
  }

  lemma WriteBound(full: seq<u8>, lens: seq<nat>, table: seq<u8>, index: seq<u8>, i: nat, code: int, bit: bool)
    requires Written(full, lens, table, index, i, code, bit)
    ensures 0 <= code < 0x20_0000 && |index| % 3 == 0 && WholeEntries(full, 0)
    ensures Indexed(full, index, code) && Walk(full, 0, 0, false, |table|, code, bit)
  {
    hide Encode, Total, Walk, WholeEntries, Reaches, IndexCode, IndexPos;
    CodeBound(lens, i);
  }

  lemma WriteIndexed(full: seq<u8>, lens: seq<nat>, table: seq<u8>, index: seq<u8>, next: seq<u8>, i: nat, code: int, bit: bool)
    requires Written(full, lens, table, index, i, code, bit) && WholeEntries(full, 0) && Indexed(full, next, code)
    ensures Written(full, lens, table, next, i, code, bit)
  {
    hide Encode, Total, Walk, WholeEntries, Indexed;
  }

  /** build_prop_table: the codes and the index; false where an offset does not fit in three bits. */
  method BuildPropTable(lens: seq<nat>, addIndex: bool) returns (ok: bool, table: seq<u8>, index: seq<u8>)
    requires Encodable(lens) && Total(lens) <= 0x11_0000
    ensures ok ==> table == Encode(lens) && WholeEntries(table, 0) && Runs(table, 0) == lens
    ensures ok && addIndex ==> IndexOk(table, index)
    ensures !ok ==> addIndex && |table| - (|index| / 3 + 1) * UNICODE_INDEX_BLOCK_LEN > 7
  {
    hide Runs, Total, Walk, Indexed, Head, Encode, Bytes24, WholeEntries, IndexOk, Written;
    ghost var full := Encode(lens);
    table, index := [], [];
    var blockEnd, i, code, bit := UNICODE_INDEX_BLOCK_LEN, 0, 0, false;
    WriteStart(full, lens);
    while i < |lens|
      invariant 0 <= i <= |lens| && Written(full, lens, table, index, i, code, bit)
      invariant |index| % 3 == 0 && blockEnd == (|index| / 3 + 1) * UNICODE_INDEX_BLOCK_LEN
    {
      if addIndex && |table| >= blockEnd && !bit {
        var offset := |table| - blockEnd;
        if offset > 7 { return false, table, index; }
        WriteBound(full, lens, table, index, i, code, bit);
        var next := AddEntry(index, code, offset, full, |table|);
        WriteIndexed(full, lens, table, index, next, i, code, bit);
        index := next;
        blockEnd := blockEnd + UNICODE_INDEX_BLOCK_LEN;
      }
      WriteStep(full, lens, table, index, i, code, bit);
      var v := lens[i] - 1;
      if v < 8 && i + 1 < |lens| && lens[i + 1] - 1 < 8 {
        PackedHead(lens[i..]);
        table := table + [v * 8 + (lens[i + 1] - 1)];
        code := code + lens[i] + lens[i + 1];
        i := i + 2;
      } else {
        SingleHead(lens[i..]);
        table := table + Single(v);
        code := code + lens[i];
        bit := !bit;
        i := i + 1;
      }
    }
    WriteEnd(full, lens, table, index, code, bit);
    if addIndex { index := index + Bytes24(code); }
    ok := true;
  }

  method AddEntry(index: seq<u8>, code: nat, offset: nat, ghost full: seq<u8>, ghost pos: nat) returns (next: seq<u8>)
    requires Indexed(full, index, code) && code < 0x20_0000 && offset <= 7
    requires pos == (|index| / 3 + 1) * UNICODE_INDEX_BLOCK_LEN + offset && Walk(full, 0, 0, false, pos, code, false)
    ensures Indexed(full, next, code) && |next| == |index| + 3
  {
    hide Reaches, Walk, Bytes24, IndexCode, IndexPos, Le24;
    WalkReaches(full, 0, 0, false, pos, code);
    IndexedNext(full, index, code, offset);
    SizeThree(code + offset * 0x20_0000);
    next := index + Bytes24(code + offset * 0x20_0000);
  }

  lemma CodeBound(lens: seq<nat>, i: nat)
    requires i <= |lens|
    ensures Total(lens[..i]) <= Total(lens)
  {
    TotalAppend(lens[..i], lens[i..]);
    assert lens == lens[..i] + lens[i..];
  }

  lemma TakenTotal(lens: seq<nat>, i: nat)
    requires i < |lens|
    ensures var n := Taken(lens[i..]);
      && i + n <= |lens| && Total(lens[..i + n]) == Total(lens[..i]) + Total(lens[i..][..n])
      && lens[i..][n..] == lens[i + n..]
      && Total(lens[i..][..n]) == lens[i] + (if n == 2 then lens[i + 1] else 0)
  {
    var n := Taken(lens[i..]);
    assert lens[..i + n] == lens[..i] + lens[i..][..n];
    TotalAppend(lens[..i], lens[i..][..n]);
    FewTotal(lens[i..][..n]);
    if n == 2 { assert lens[i..][..2] == [lens[i], lens[i + 1]]; } else { assert lens[i..][..1] == [lens[i]]; }
  }

  lemma FewTotal(lens: seq<nat>)
    ensures |lens| == 1 ==> Total(lens) == lens[0]
    ensures |lens| == 2 ==> Total(lens) == lens[0] + lens[1]
  {
    if |lens| == 2 { assert lens[1..][1..] == []; }
  }

  lemma PackedHead(lens: seq<nat>)
    requires Encodable(lens) && Packs(lens)
    ensures Taken(lens) == 2 && Head(lens) == [(lens[0] - 1) * 8 + (lens[1] - 1)]
  {
  }

  lemma SingleHead(lens: seq<nat>)
    requires Encodable(lens) && lens != [] && !Packs(lens)
    ensures Taken(lens) == 1 && Head(lens) == Single(lens[0] - 1)
  {
  }

  lemma IndexedWiden(table: seq<u8>, index: seq<u8>, code: int, code': int)
    requires Indexed(table, index, code) && code <= code'
    ensures Indexed(table, index, code')
  {
    hide IndexCode, IndexPos, Reaches, WholeEntries;
  }

  lemma NothingLeft(table: seq<u8>, lens: seq<nat>)
    requires lens == []
    ensures table + Encode(lens) == table
  {
  }

  // ----- the property ---------------------------------------------------------------------------------

  /** The tables for a property of characters. */
  method PropertyTable(prop: seq<bool>, addIndex: bool) returns (ok: bool, table: seq<u8>, index: seq<u8>)
    requires 0 < |prop| <= 0x11_0000 && !prop[0]
    ensures ok ==> WholeEntries(table, 0) && forall c :: c >= 0 ==> (InTable(table, c) <==> c < |prop| && prop[c])
    ensures ok && addIndex ==> IndexOk(table, index)
    ensures !ok ==> addIndex && |table| - (|index| / 3 + 1) * UNICODE_INDEX_BLOCK_LEN > 7
  {
    hide Runs, Lookup, WholeEntries;
    var lens := RunLengths(prop);
    ok, table, index := BuildPropTable(lens, addIndex);
  }

  /** lre_is_in_table on generated tables decides the property. */
  method LookUp(prop: seq<bool>, c: int) returns (ok: bool, r: bool)
    requires 0 < |prop| <= 0x11_0000 && !prop[0] && c >= 0
    ensures ok ==> (r <==> c < |prop| && prop[c])
  {
    hide InTable, IndexOk, WholeEntries;
    var table, index;
    ok, table, index := PropertyTable(prop, true);
    r := false;
    if ok { r := LreIsInTable(c, table, index); }
  }

  /** unicode_prop1 on generated tables gives the characters with the property. */
  method ListAll(prop: seq<bool>) returns (points: seq<int>)
    requires 0 < |prop| <= 0x11_0000 && !prop[0]
    ensures forall c :: c >= 0 ==> (InPoints(points, c) <==> c < |prop| && prop[c])
  {
    hide InTable, InPoints, WholeEntries;
    var ok, table, index := PropertyTable(prop, false);
    var cr := new CharRange();
    UnicodeProp1(cr, table);
    points := cr.points;
  }
}
