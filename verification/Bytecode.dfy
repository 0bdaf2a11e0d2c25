/**
 The bytecode of libregexp: instructions, their byte encoding (libregexp-opcode.h) and the
 decoding that the virtual machine performs at a program counter.
 */
module Bytecode {

  type u8 = i: int | 0 <= i < 256

  datatype Option<+T> = None | Some(value: T)

  /** Jump operands are relative to the end of the instruction, in bytes. */
  datatype Instr =
    | Char(wide: bool, icase: bool, val: int)
    | DotOp
    | AnyOp
    | SpaceOp
    | NotSpaceOp
    | LineStartOp(multi: bool)
    | LineEndOp(multi: bool)
    | Goto(off: int)
    | Split(nextFirst: bool, off: int)
    | Match
    | LookMatch(neg: bool)
    | Save(end: bool, idx: int)
    | SaveReset(lo: int, hi: int)
    | Loop(reg: int, off: int)
    | LoopSplit(check: bool, nextFirst: bool, reg: int, limit: int, off: int)
    | SetI32(reg: int, val: int)
    | WordBoundaryOp(neg: bool, icase: bool)
    | BackRefOp(bw: bool, icase: bool, idxs: seq<int>)
    | Range(wide: bool, icase: bool, tab: seq<int>)
    | LookOp(neg: bool, off: int)
    | SetCharPos(reg: int)
    | CheckAdvance(reg: int)
    | Prev

  function B(b: bool): (r: u8) ensures r == 0 || r == 1 { if b then 1 else 0 }

  // ----- little-endian operands ---------------------------------------------------------------

  function U16(v: int): (r: seq<u8>)
    ensures |r| == 2
  {
    [v % 256, v / 256 % 256]
  }

  function U32(v: int): (r: seq<u8>)
    ensures |r| == 4
  {
    [v % 256, v / 256 % 256, v / 256 / 256 % 256, v / 256 / 256 / 256 % 256]
  }

  function Get16(s: seq<u8>, p: nat): (r: int)
    requires p + 2 <= |s|
    ensures 0 <= r < 0x10000
  {
    var b0: int, b1: int := s[p], s[p + 1];
    b0 + 256 * b1
  }

  function Get32(s: seq<u8>, p: nat): (r: int)
    requires p + 4 <= |s|
    ensures 0 <= r < 0x1_0000_0000
  {
    var b0: int, b1: int, b2: int, b3: int := s[p], s[p + 1], s[p + 2], s[p + 3];
    b0 + 256 * (b1 + 256 * (b2 + 256 * b3))
  }

  /** (int)val: the two's-complement reading of a 32-bit operand. */
  function GetI32(s: seq<u8>, p: nat): (r: int)
    requires p + 4 <= |s|
    ensures -0x8000_0000 <= r < 0x8000_0000
  {
    var v := Get32(s, p);
    if v < 0x8000_0000 then v else v - 0x1_0000_0000
  }

  lemma Get16Of(s: seq<u8>, p: nat, v: int)
    requires p + 2 <= |s| && s[p..p + 2] == U16(v) && 0 <= v < 0x10000
    ensures Get16(s, p) == v
  {
    assert s[p..p + 2][0] == s[p] && s[p..p + 2][1] == s[p + 1];
  }

  lemma DigitsOf(v: int, b0: int, b1: int, b2: int, b3: int)
    requires b0 == v % 256 && b1 == v / 256 % 256
    requires b2 == v / 256 / 256 % 256 && b3 == v / 256 / 256 / 256 % 256
    ensures 0 <= v < 0x1_0000_0000 ==> b0 + 256 * (b1 + 256 * (b2 + 256 * b3)) == v
    ensures -0x8000_0000 <= v < 0 ==> b0 + 256 * (b1 + 256 * (b2 + 256 * b3)) == v + 0x1_0000_0000
  {
    var q1 := v / 256;
    var q2 := q1 / 256;
    var q3 := q2 / 256;
    var q4 := q3 / 256;
    assert v == b0 + 256 * q1 && q1 == b1 + 256 * q2 && q2 == b2 + 256 * q3 && q3 == b3 + 256 * q4;
  }

  lemma Get32Of(s: seq<u8>, p: nat, v: int)
    requires p + 4 <= |s| && s[p..p + 4] == U32(v)
    ensures 0 <= v < 0x1_0000_0000 ==> Get32(s, p) == v
    ensures -0x8000_0000 <= v < 0x8000_0000 ==> GetI32(s, p) == v
  {
    var t := s[p..p + 4];
    assert t[0] == s[p] && t[1] == s[p + 1] && t[2] == s[p + 2] && t[3] == s[p + 3];
    DigitsOf(v, t[0], t[1], t[2], t[3]);
  }

  // ----- tables of operands -------------------------------------------------------------------

  function Bytes(idxs: seq<int>): (r: seq<u8>)
    ensures |r| == |idxs|
  {
    if idxs == [] then [] else [idxs[0] % 256] + Bytes(idxs[1..])
  }

  function Words(wide: bool, tab: seq<int>): (r: seq<u8>)
    ensures |r| == |tab| * (if wide then 4 else 2)
  {
    if tab == [] then [] else (if wide then U32(tab[0]) else U16(tab[0])) + Words(wide, tab[1..])
  }

  function ReadBytes(s: seq<u8>, p: nat, n: nat): (r: seq<int>)
    requires p + n <= |s|
    ensures |r| == n && InRange(r, 256)
    decreases n
  {
    if n == 0 then [] else [s[p]] + ReadBytes(s, p + 1, n - 1)
  }

  function ReadWords(wide: bool, s: seq<u8>, p: nat, n: nat): (r: seq<int>)
    requires p + n * (if wide then 4 else 2) <= |s|
    ensures |r| == n
    decreases n
  {
    if n == 0 then []
    else if wide then [Get32(s, p)] + ReadWords(wide, s, p + 4, n - 1)
    else [Get16(s, p)] + ReadWords(wide, s, p + 2, n - 1)
  }

  predicate InRange(tab: seq<int>, bound: int) { forall k :: 0 <= k < |tab| ==> 0 <= tab[k] < bound }

  lemma {:induction false} ReadBytesOf(s: seq<u8>, p: nat, idxs: seq<int>)
    requires p + |idxs| <= |s| && s[p..p + |idxs|] == Bytes(idxs) && InRange(idxs, 256)
    ensures ReadBytes(s, p, |idxs|) == idxs
    decreases idxs
  {
    if idxs != [] {
      var t := s[p..p + |idxs|];
      assert t[0] == s[p] && t[1..] == s[p + 1..p + |idxs|];
      assert t[1..] == Bytes(idxs[1..]);
      ReadBytesOf(s, p + 1, idxs[1..]);
    }
  }

  lemma {:induction false} ReadWordsOf(wide: bool, s: seq<u8>, p: nat, tab: seq<int>)
    requires p + |Words(wide, tab)| <= |s| && s[p..p + |Words(wide, tab)|] == Words(wide, tab)
    requires InRange(tab, if wide then 0x1_0000_0000 else 0x10000)
    ensures ReadWords(wide, s, p, |tab|) == tab
    decreases tab
  {
    hide U16, U32, Get16, Get32;
    if tab != [] {
      var w := if wide then 4 else 2;
      var t := s[p..p + |Words(wide, tab)|];
      assert t[..w] == s[p..p + w] && t[w..] == s[p + w..p + |Words(wide, tab)|];
      assert t[w..] == Words(wide, tab[1..]);
      if wide { Get32Of(s, p, tab[0]); } else { Get16Of(s, p, tab[0]); }
      ReadWordsOf(wide, s, p + w, tab[1..]);
    }
  }

  // ----- encoding -----------------------------------------------------------------------------

  function Enc(i: Instr): (r: seq<u8>)
    ensures 1 <= |r|
  {
    match i
    case Char(wide, icase, v) =>
      if wide then [3 + B(icase)] + U32(v) else [1 + B(icase)] + U16(v)
    case DotOp => [5]
    case AnyOp => [6]
    case SpaceOp => [7]
    case NotSpaceOp => [8]
    case LineStartOp(m) => [9 + B(m)]
    case LineEndOp(m) => [11 + B(m)]
    case Goto(off) => [13] + U32(off)
    case Split(nf, off) => [14 + B(nf)] + U32(off)
    case Match => [16]
    case LookMatch(neg) => [17 + B(neg)]
    case Save(end, idx) => [19 + B(end), idx % 256]
    case SaveReset(lo, hi) => [21, lo % 256, hi % 256]
    case Loop(reg, off) => [22, reg % 256] + U32(off)
    case LoopSplit(check, nf, reg, limit, off) =>
      [23 + 2 * B(check) + B(nf), reg % 256] + U32(limit) + U32(off)
    case SetI32(reg, v) => [27, reg % 256] + U32(v)
    case WordBoundaryOp(neg, icase) => [28 + 2 * B(neg) + B(icase)]
    case BackRefOp(bw, icase, idxs) =>
      [32 + 2 * B(bw) + B(icase), |idxs| % 256] + Bytes(idxs)
    case Range(wide, icase, tab) =>
      [36 + 2 * B(wide) + B(icase)] + U16(|tab| / 2) + Words(wide, tab)
    case LookOp(neg, off) => [40 + B(neg)] + U32(off)
    case SetCharPos(reg) => [42, reg % 256]
    case CheckAdvance(reg) => [43, reg % 256]
    case Prev => [44]
  }

  function Size(i: Instr): (r: nat) ensures r >= 1 { |Enc(i)| }

  /** Operands that the encoding can carry. */
  predicate Fits(i: Instr) {
    match i
    case Char(wide, _, v) => 0 <= v < if wide then 0x1_0000_0000 else 0x10000
    case Goto(off) => FitsI32(off)
    case Split(_, off) => FitsI32(off)
    case Save(_, idx) => 0 <= idx < 256
    case SaveReset(lo, hi) => 0 <= lo < 256 && 0 <= hi < 256
    case Loop(reg, off) => 0 <= reg < 256 && FitsI32(off)
    case LoopSplit(_, _, reg, limit, off) => 0 <= reg < 256 && 0 <= limit < 0x1_0000_0000 && FitsI32(off)
    case SetI32(reg, v) => 0 <= reg < 256 && 0 <= v < 0x1_0000_0000
    case BackRefOp(_, _, idxs) => |idxs| < 256 && InRange(idxs, 256)
    case Range(wide, _, tab) =>
      |tab| % 2 == 0 && |tab| / 2 < 65535 && InRange(tab, if wide then 0x1_0000_0000 else 0x10000)
    case LookOp(_, off) => FitsI32(off)
    case SetCharPos(reg) => 0 <= reg < 256
    case CheckAdvance(reg) => 0 <= reg < 256
    case _ => true
  }

  predicate FitsI32(off: int) { -0x8000_0000 <= off < 0x8000_0000 }

  // ----- decoding -----------------------------------------------------------------------------

  /** The fixed part of each instruction (reopcode_info[].size); 0 for an unknown opcode. */
  function FixedSize(op: u8): (r: nat)
    ensures r <= 10
  {
    if op == 0 || op > 44 then 0
    else if op <= 2 then 3
    else if op <= 4 then 5
    else if op <= 12 then 1
    else if op <= 15 then 5
    else if op <= 18 then 1
    else if op <= 20 then 2
    else if op == 21 then 3
    else if op == 22 then 6
    else if op <= 26 then 10
    else if op == 27 then 6
    else if op <= 31 then 1
    else if op <= 35 then 2
    else if op <= 39 then 3
    else if op <= 41 then 5
    else if op <= 43 then 2
    else 1
  }

  /** Size of the instruction at p including its variable part, as the code scanners compute it. */
  function SizeAt(s: seq<u8>, p: nat): (r: nat)
    requires p < |s| && 0 < FixedSize(s[p]) && p + FixedSize(s[p]) <= |s|
  {
    var op := s[p];
    if 32 <= op <= 35 then 2 + s[p + 1]
    else if 36 <= op <= 37 then 3 + 4 * Get16(s, p + 1)
    else if 38 <= op <= 39 then 3 + 8 * Get16(s, p + 1)
    else FixedSize(op)
  }

  /** The instruction at p. */
  function Decode(s: seq<u8>, p: nat): Option<Instr> {
    if p >= |s| || FixedSize(s[p]) == 0 || p + FixedSize(s[p]) > |s| || p + SizeAt(s, p) > |s| then None
    else
      var op := s[p];
      if op <= 2 then Some(Char(false, op == 2, Get16(s, p + 1)))
      else if op <= 4 then Some(Char(true, op == 4, Get32(s, p + 1)))
      else if op == 5 then Some(DotOp)
      else if op == 6 then Some(AnyOp)
      else if op == 7 then Some(SpaceOp)
      else if op == 8 then Some(NotSpaceOp)
      else if op <= 10 then Some(LineStartOp(op == 10))
      else if op <= 12 then Some(LineEndOp(op == 12))
      else if op == 13 then Some(Goto(GetI32(s, p + 1)))
      else if op <= 15 then Some(Split(op == 15, GetI32(s, p + 1)))
      else if op == 16 then Some(Match)
      else if op <= 18 then Some(LookMatch(op == 18))
      else if op <= 20 then Some(Save(op == 20, s[p + 1]))
      else if op == 21 then Some(SaveReset(s[p + 1], s[p + 2]))
      else if op == 22 then Some(Loop(s[p + 1], GetI32(s, p + 2)))
      else if op <= 26 then
        Some(LoopSplit(op >= 25, (op - 23) % 2 == 1, s[p + 1], Get32(s, p + 2), GetI32(s, p + 6)))
      else if op == 27 then Some(SetI32(s[p + 1], Get32(s, p + 2)))
      else if op <= 31 then Some(WordBoundaryOp(op >= 30, (op - 28) % 2 == 1))
      else if op <= 35 then
        Some(BackRefOp(op >= 34, (op - 32) % 2 == 1, ReadBytes(s, p + 2, s[p + 1])))
      else if op <= 39 then
        Some(Range(op >= 38, (op - 36) % 2 == 1, ReadWords(op >= 38, s, p + 3, 2 * Get16(s, p + 1))))
      else if op <= 41 then Some(LookOp(op == 41, GetI32(s, p + 1)))
      else if op == 42 then Some(SetCharPos(s[p + 1]))
      else if op == 43 then Some(CheckAdvance(s[p + 1]))
      else Some(Prev)
  }

  predicate Stands(s: seq<u8>, p: nat, i: Instr) {
    p + Size(i) <= |s| && s[p..p + Size(i)] == Enc(i)
  }

  predicate Decodes(s: seq<u8>, p: nat, i: Instr) {
    && Decode(s, p) == Some(i)
    && 0 < FixedSize(s[p]) && p + FixedSize(s[p]) <= |s| && SizeAt(s, p) == Size(i)
  }

  lemma Operand(s: seq<u8>, p: nat, i: Instr, k: nat, n: nat)
    requires Stands(s, p, i) && k <= n <= Size(i)
    ensures s[p + k..p + n] == Enc(i)[k..n]
    ensures forall j :: 0 <= j < Size(i) ==> s[p + j] == Enc(i)[j]
  {
    Slice(s, p, Enc(i), k, n);
  }

  lemma Slice(s: seq<u8>, p: nat, t: seq<u8>, k: nat, n: nat)
    requires p + |t| <= |s| && s[p..p + |t|] == t && k <= n <= |t|
    ensures s[p + k..p + n] == t[k..n]
    ensures forall j :: 0 <= j < |t| ==> s[p + j] == t[j]
  {
    var u := s[p..p + |t|];
    assert forall j :: 0 <= j < |t| ==> u[j] == s[p + j];
  }

  lemma DecodeBare(s: seq<u8>, p: nat, i: Instr)
    requires Stands(s, p, i) && i in {DotOp, AnyOp, SpaceOp, NotSpaceOp, Match, Prev}
    ensures Decodes(s, p, i)
  {
    Operand(s, p, i, 0, 1);
    assert s[p] == Enc(i)[0];
  }

  lemma DecodeFlags(s: seq<u8>, p: nat, i: Instr)
    requires Stands(s, p, i) && (i.LineStartOp? || i.LineEndOp? || i.LookMatch? || i.WordBoundaryOp?)
    ensures Decodes(s, p, i)
  {
    Operand(s, p, i, 0, 1);
    assert s[p] == Enc(i)[0];
  }

  lemma DecodeByte(s: seq<u8>, p: nat, i: Instr)
    requires Stands(s, p, i) && Fits(i) && (i.Save? || i.SaveReset? || i.SetCharPos? || i.CheckAdvance?)
    ensures Decodes(s, p, i)
  {
    Operand(s, p, i, 0, Size(i));
    assert s[p] == Enc(i)[0] && s[p + 1] == Enc(i)[1];
    if i.SaveReset? { assert s[p + 2] == Enc(i)[2]; }
  }

  lemma DecodeChar(s: seq<u8>, p: nat, i: Instr)
    requires Stands(s, p, i) && Fits(i) && i.Char?
    ensures Decodes(s, p, i)
  {
    Operand(s, p, i, 1, Size(i));
    assert s[p] == Enc(i)[0];
    if i.wide { assert Enc(i)[1..] == U32(i.val); Get32Of(s, p + 1, i.val); }
    else { assert Enc(i)[1..] == U16(i.val); Get16Of(s, p + 1, i.val); }
  }

  lemma DecodeJump(s: seq<u8>, p: nat, i: Instr)
    requires Stands(s, p, i) && Fits(i) && (i.Goto? || i.Split? || i.LookOp?)
    ensures Decodes(s, p, i)
  {
    Operand(s, p, i, 1, 5);
    assert s[p] == Enc(i)[0] && Enc(i)[1..] == U32(i.off);
    hide U32;
    Get32Of(s, p + 1, i.off);
  }

  lemma DecodeRegister(s: seq<u8>, p: nat, i: Instr)
    requires Stands(s, p, i) && Fits(i) && (i.Loop? || i.SetI32? || i.LoopSplit?)
    ensures Decodes(s, p, i)
  {
    Operand(s, p, i, 2, 6);
    var v := if i.Loop? then i.off else if i.SetI32? then i.val else i.limit;
    assert s[p] == Enc(i)[0] && s[p + 1] == Enc(i)[1] && Enc(i)[2..6] == U32(v);
    Get32Of(s, p + 2, v);
    if i.LoopSplit? {
      Operand(s, p, i, 6, 10);
      assert Enc(i)[6..10] == U32(i.off);
      Get32Of(s, p + 6, i.off);
    }
  }

  lemma BackRefIndexes(s: seq<u8>, p: nat, i: Instr)
    requires Stands(s, p, i) && Fits(i) && i.BackRefOp?
    ensures p + 2 + |i.idxs| <= |s| && s[p] == 32 + 2 * B(i.bw) + B(i.icase) && s[p + 1] == |i.idxs|
    ensures ReadBytes(s, p + 2, |i.idxs|) == i.idxs
  {
    Operand(s, p, i, 2, Size(i));
    assert s[p] == Enc(i)[0] && s[p + 1] == Enc(i)[1] && Enc(i)[2..] == Bytes(i.idxs);
    ReadBytesOf(s, p + 2, i.idxs);
  }

  lemma DecodeBackRef(s: seq<u8>, p: nat, i: Instr)
    requires Stands(s, p, i) && Fits(i) && i.BackRefOp?
    ensures Decodes(s, p, i)
  {
    hide ReadBytes, Bytes;
    BackRefIndexes(s, p, i);
  }

  lemma EncRange(wide: bool, icase: bool, tab: seq<int>)
    ensures var e := Enc(Range(wide, icase, tab));
      && e[0] == 36 + 2 * B(wide) + B(icase) && |e| == 3 + |Words(wide, tab)|
      && e[1..3] == U16(|tab| / 2) && e[3..] == Words(wide, tab)
  {
  }

  lemma RangeSize(s: seq<u8>, p: nat, wide: bool, icase: bool, n: nat)
    requires p + 3 <= |s| && s[p] == 36 + 2 * B(wide) + B(icase) && Get16(s, p + 1) == n
    ensures FixedSize(s[p]) == 3 && SizeAt(s, p) == 3 + 2 * n * (if wide then 4 else 2)
  {
  }

  lemma RangeDecoded(s: seq<u8>, p: nat, wide: bool, icase: bool, tab: seq<int>)
    requires p + 3 <= |s| && s[p] == 36 + 2 * B(wide) + B(icase)
    requires |tab| % 2 == 0 && Get16(s, p + 1) == |tab| / 2
    requires p + 3 + |tab| * (if wide then 4 else 2) <= |s| && ReadWords(wide, s, p + 3, |tab|) == tab
    ensures Decode(s, p) == Some(Range(wide, icase, tab))
  {
    hide ReadWords, Get16;
    RangeSize(s, p, wide, icase, |tab| / 2);
  }

  lemma RangeCount(s: seq<u8>, p: nat, wide: bool, icase: bool, tab: seq<int>)
    requires Stands(s, p, Range(wide, icase, tab)) && Fits(Range(wide, icase, tab))
    ensures p + 3 + |tab| * (if wide then 4 else 2) <= |s|
    ensures s[p] == 36 + 2 * B(wide) + B(icase) && Get16(s, p + 1) == |tab| / 2
  {
    EncRange(wide, icase, tab);
    hide Enc, Words;
    Operand(s, p, Range(wide, icase, tab), 1, 3);
    Get16Of(s, p + 1, |tab| / 2);
  }

  lemma RangeWords(s: seq<u8>, p: nat, wide: bool, icase: bool, tab: seq<int>)
    requires Stands(s, p, Range(wide, icase, tab)) && Fits(Range(wide, icase, tab))
    requires p + 3 + |tab| * (if wide then 4 else 2) <= |s|
    ensures ReadWords(wide, s, p + 3, |tab|) == tab
  {
    EncRange(wide, icase, tab);
    hide Enc, Words;
    Operand(s, p, Range(wide, icase, tab), 3, Size(Range(wide, icase, tab)));
    ReadWordsOf(wide, s, p + 3, tab);
  }

  lemma DecodeRange(s: seq<u8>, p: nat, wide: bool, icase: bool, tab: seq<int>)
    requires Stands(s, p, Range(wide, icase, tab)) && Fits(Range(wide, icase, tab))
    ensures Decodes(s, p, Range(wide, icase, tab))
  {
    EncRange(wide, icase, tab);
    hide Enc, Words, Decode, ReadWords, SizeAt;
    RangeCount(s, p, wide, icase, tab);
    RangeWords(s, p, wide, icase, tab);
    RangeSize(s, p, wide, icase, |tab| / 2);
    RangeDecoded(s, p, wide, icase, tab);
  }

  /** Decoding inverts encoding at any place of any code. */
  lemma DecodeEnc(s: seq<u8>, p: nat, i: Instr)
    requires Stands(s, p, i) && Fits(i)
    ensures Decodes(s, p, i)
  {
    hide Decodes, Stands;
    match i
    case Char(_, _, _) => DecodeChar(s, p, i);
    case Goto(_) => DecodeJump(s, p, i);
    case Split(_, _) => DecodeJump(s, p, i);
    case LookOp(_, _) => DecodeJump(s, p, i);
    case Loop(_, _) => DecodeRegister(s, p, i);
    case SetI32(_, _) => DecodeRegister(s, p, i);
    case LoopSplit(_, _, _, _, _) => DecodeRegister(s, p, i);
    case BackRefOp(_, _, _) => DecodeBackRef(s, p, i);
    case Range(wide, icase, tab) => DecodeRange(s, p, wide, icase, tab);
    case Save(_, _) => DecodeByte(s, p, i);
    case SaveReset(_, _) => DecodeByte(s, p, i);
    case SetCharPos(_) => DecodeByte(s, p, i);
    case CheckAdvance(_) => DecodeByte(s, p, i);
    case LineStartOp(_) => DecodeFlags(s, p, i);
    case LineEndOp(_) => DecodeFlags(s, p, i);
    case LookMatch(_) => DecodeFlags(s, p, i);
    case WordBoundaryOp(_, _) => DecodeFlags(s, p, i);
    case _ => DecodeBare(s, p, i);
  }

  // ----- code sequences -----------------------------------------------------------------------

  function EncAll(ops: seq<Instr>): seq<u8> {
    if ops == [] then [] else Enc(ops[0]) + EncAll(ops[1..])
  }

  function Sz(ops: seq<Instr>): nat { |EncAll(ops)| }

  lemma {:induction false} EncAppend(a: seq<Instr>, b: seq<Instr>)
    ensures EncAll(a + b) == EncAll(a) + EncAll(b)
  {
    if a == [] {
      assert a + b == b;
    } else {
      assert (a + b)[1..] == a[1..] + b;
      EncAppend(a[1..], b);
    }
  }

  predicate FitsAll(ops: seq<Instr>) { forall k :: 0 <= k < |ops| ==> Fits(ops[k]) }

  /** The instructions ops stand at pc. */
  predicate At(code: seq<u8>, pc: nat, ops: seq<Instr>)
    decreases ops
  {
    ops == [] || (Decode(code, pc) == Some(ops[0]) && At(code, pc + Size(ops[0]), ops[1..]))
  }

  lemma {:induction false} AtAppend(code: seq<u8>, pc: nat, a: seq<Instr>, b: seq<Instr>)
    ensures At(code, pc, a + b) <==> At(code, pc, a) && At(code, pc + Sz(a), b)
    decreases a
  {
    hide Decode, Enc;
    if a == [] {
      assert a + b == b;
    } else {
      assert (a + b)[1..] == a[1..] + b;
      AtAppend(code, pc + Size(a[0]), a[1..], b);
    }
  }

  lemma SplitBytes(code: seq<u8>, pc: nat, a: seq<u8>, b: seq<u8>)
    requires pc + |a| + |b| <= |code| && code[pc..pc + |a| + |b|] == a + b
    ensures code[pc..pc + |a|] == a && code[pc + |a|..pc + |a| + |b|] == b
  {
    var t := code[pc..pc + |a| + |b|];
    assert t[..|a|] == code[pc..pc + |a|] && t[|a|..] == code[pc + |a|..pc + |a| + |b|];
  }

  /** Encoded instructions stand wherever their bytes are. */
  lemma {:induction false} EncAt(code: seq<u8>, pc: nat, ops: seq<Instr>)
    requires pc + Sz(ops) <= |code| && code[pc..pc + Sz(ops)] == EncAll(ops) && FitsAll(ops)
    ensures At(code, pc, ops)
    decreases ops
  {
    hide Enc, Decode, Fits, SizeAt, FixedSize;
    if ops != [] {
      SplitBytes(code, pc, Enc(ops[0]), EncAll(ops[1..]));
      DecodeEnc(code, pc, ops[0]);
      EncAt(code, pc + Size(ops[0]), ops[1..]);
    }
  }

  lemma EncOne(i: Instr)
    ensures EncAll([i]) == Enc(i)
  {
    hide Enc;
    assert EncAll([i]) == Enc(i) + EncAll([]);
  }

  // ----- walking over code ----------------------------------------------------------------------------

  /** Variable-length instructions whose length operand is not truncated. */
  predicate Sized(i: Instr) {
    match i
    case BackRefOp(_, _, idxs) => |idxs| < 256
    case Range(_, _, tab) => |tab| % 2 == 0 && |tab| / 2 < 65536
    case _ => true
  }

  predicate SizedAll(ops: seq<Instr>) { forall k :: 0 <= k < |ops| ==> Sized(ops[k]) }

  /** The scanners find the size of every instruction, whatever its other operands. */
  lemma SizeAtEnc(s: seq<u8>, p: nat, i: Instr)
    requires Stands(s, p, i) && Sized(i)
    ensures s[p] == Enc(i)[0] && 0 < FixedSize(s[p]) && p + FixedSize(s[p]) <= |s| && SizeAt(s, p) == Size(i)
  {
    match i
    case Range(wide, icase, tab) =>
      EncRange(wide, icase, tab);
      hide Enc;
      Operand(s, p, i, 0, 3);
      Operand(s, p, i, 1, 3);
      Get16Of(s, p + 1, |tab| / 2);
      RangeSize(s, p, wide, icase, |tab| / 2);
    case _ => SizeAtPlain(s, p, i);
  }

  lemma SizeAtPlain(s: seq<u8>, p: nat, i: Instr)
    requires Stands(s, p, i) && Sized(i) && !i.Range?
    ensures s[p] == Enc(i)[0] && 0 < FixedSize(s[p]) && p + FixedSize(s[p]) <= |s| && SizeAt(s, p) == Size(i)
  {
    Operand(s, p, i, 0, Size(i));
    assert s[p] == Enc(i)[0];
    if i.BackRefOp? { assert s[p + 1] == Enc(i)[1]; }
  }

  lemma Sizes()
    ensures forall off :: Size(Goto(off)) == 5
    ensures forall nf, off :: Size(Split(nf, off)) == 5
    ensures forall neg, off :: Size(LookOp(neg, off)) == 5
    ensures forall neg :: Size(LookMatch(neg)) == 1
    ensures forall e, i :: Size(Save(e, i)) == 2
    ensures forall l, h :: Size(SaveReset(l, h)) == 3
    ensures forall r, off :: Size(Loop(r, off)) == 6
    ensures forall c, nf, r, l, off :: Size(LoopSplit(c, nf, r, l, off)) == 10
    ensures forall r, v :: Size(SetI32(r, v)) == 6
    ensures forall r :: Size(SetCharPos(r)) == 2
    ensures forall r :: Size(CheckAdvance(r)) == 2
    ensures Size(Prev) == 1
  {
  }
}
