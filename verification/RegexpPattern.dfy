/**
 The regular-expression patterns that libregexp compiles, as a syntax tree, together with the
 input they are matched against. Pattern text, flags and modifiers are resolved before this
 point: every character test carries its own case flag.
 */
module RegexpPattern {

  const INT32_MAX: int := 0x7fff_ffff
  const UINT32_MAX: int := 0xffff_ffff

  /** The input as code units (bytes or 16-bit units), whether surrogate pairs are combined
      (cbuf_type 2), the JS case-folding function and the white-space test. */
  datatype Env = Env(units: seq<int>, utf16: bool, canon: int -> int, space: int -> bool)

  // ----- characters --------------------------------------------------------------------------

  predicate IsHiSurrogate(c: int) { c / 0x400 == 0xD800 / 0x400 }

  predicate IsLoSurrogate(c: int) { c / 0x400 == 0xDC00 / 0x400 }

  function FromSurrogate(hi: int, lo: int): int {
    0x10000 + 0x400 * (hi - 0xD800) + (lo - 0xDC00)
  }

  /** Number of units GET_CHAR consumes at pos when reading is bounded by end. */
  function CharLen(env: Env, pos: nat, end: nat): nat
    requires pos < end <= |env.units|
  {
    if env.utf16 && IsHiSurrogate(env.units[pos]) && pos + 1 < end && IsLoSurrogate(env.units[pos + 1])
    then 2 else 1
  }

  /** The character GET_CHAR and PEEK_CHAR return. */
  function CharAt(env: Env, pos: nat, end: nat): int
    requires pos < end <= |env.units|
  {
    if CharLen(env, pos, end) == 2 then FromSurrogate(env.units[pos], env.units[pos + 1])
    else env.units[pos]
  }

  /** Number of units PREV_CHAR steps back from pos when reading is bounded below by start. */
  function PrevLen(env: Env, pos: nat, start: nat): (r: nat)
    requires start < pos <= |env.units|
    ensures 1 <= r && start <= pos - r
  {
    if env.utf16 && IsLoSurrogate(env.units[pos - 1]) && pos - 1 > start && IsHiSurrogate(env.units[pos - 2])
    then 2 else 1
  }

  /** The character GET_PREV_CHAR and PEEK_PREV_CHAR return. */
  function PrevChar(env: Env, pos: nat, start: nat): int
    requires start < pos <= |env.units|
  {
    if PrevLen(env, pos, start) == 2 then FromSurrogate(env.units[pos - 2], env.units[pos - 1])
    else env.units[pos - 1]
  }

  /** pos does not split a surrogate pair. */
  predicate Boundary(env: Env, pos: nat) {
    !(env.utf16 && 0 < pos < |env.units| && IsLoSurrogate(env.units[pos]) && IsHiSurrogate(env.units[pos - 1]))
  }

  /** Stepping forward reaches a boundary and stepping back undoes it from there. */
  lemma ForwardBack(env: Env, pos: nat)
    requires pos < |env.units|
    ensures var q := pos + CharLen(env, pos, |env.units|);
      && q <= |env.units| && Boundary(env, q)
      && (Boundary(env, pos) ==> PrevLen(env, q, 0) == q - pos && PrevChar(env, q, 0) == CharAt(env, pos, |env.units|))
  {
  }

  /** Stepping back reaches a boundary and stepping forward undoes it from there. */
  lemma BackForward(env: Env, pos: nat)
    requires 0 < pos <= |env.units|
    ensures var q := pos - PrevLen(env, pos, 0);
      && Boundary(env, q)
      && (Boundary(env, pos) ==>
            CharLen(env, q, |env.units|) == pos - q && CharAt(env, q, |env.units|) == PrevChar(env, pos, 0))
  {
  }

  predicate IsLineTerminator(c: int) { c == 10 || c == 13 || c == 0x2028 || c == 0x2029 }

  predicate IsWordByte(c: int) { 65 <= c <= 90 || 97 <= c <= 122 || 48 <= c <= 57 || c == 95 }

  predicate IsWordChar(c: int, icase: bool) {
    if c < 256 then IsWordByte(c) else icase && (c == 0x017f || c == 0x212a)
  }

  // ----- syntax ------------------------------------------------------------------------------

  /** Tests of one character. Cls holds the sorted boundary points of a CharRange. */
  datatype CharSet =
    | Lit(c: int, icase: bool)
    | Dot
    | Any
    | Space
    | NotSpace
    | Cls(points: seq<int>, icase: bool)

  datatype Assertion =
    | LineStart(multi: bool)
    | LineEnd(multi: bool)
    | WordBoundary(neg: bool, icase: bool)

  /** Groups are numbered by their opening parenthesis, so a node carries no group number.
      max == INT32_MAX stands for an unbounded quantifier. */
  datatype Node =
    | Empty
    | Chr(cs: CharSet)
    | Assert(a: Assertion)
    | Cat(l: Node, r: Node)
    | Alt(l: Node, r: Node)
    | Group(body: Node)
    | BackRef(idxs: seq<nat>, icase: bool)
    | Quant(body: Node, min: nat, max: nat, greedy: bool)
    | Look(behind: bool, neg: bool, body: Node)

  function NumGroups(n: Node): nat {
    match n
    case Cat(l, r) => NumGroups(l) + NumGroups(r)
    case Alt(l, r) => NumGroups(l) + NumGroups(r)
    case Group(b) => 1 + NumGroups(b)
    case Quant(b, _, _, _) => NumGroups(b)
    case Look(_, _, b) => NumGroups(b)
    case _ => 0
  }

  /** Membership in the set a boundary list denotes. */
  predicate InPoints(points: seq<int>, c: int) {
    exists i :: 0 <= i < |points| / 2 && InInterval(points, i, c)
  }

  /** The i-th interval, closed below and open above. */
  predicate InInterval(points: seq<int>, i: nat, c: int)
    requires i < |points| / 2
  {
    points[2 * i] <= c < points[2 * i + 1]
  }

  predicate Accepts(env: Env, cs: CharSet, ch: int) {
    match cs
    case Lit(c, icase) => if icase then env.canon(ch) == env.canon(c) else ch == c
    case Dot => !IsLineTerminator(ch)
    case Any => true
    case Space => env.space(ch)
    case NotSpace => !env.space(ch)
    case Cls(points, icase) => InPoints(points, if icase then env.canon(ch) else ch)
  }

  predicate Holds(env: Env, a: Assertion, pos: nat)
    requires pos <= |env.units|
  {
    match a
    case LineStart(multi) => pos == 0 || (multi && IsLineTerminator(PrevChar(env, pos, 0)))
    case LineEnd(multi) =>
      pos == |env.units| || (multi && IsLineTerminator(CharAt(env, pos, |env.units|)))
    case WordBoundary(neg, icase) =>
      var v1 := pos > 0 && IsWordChar(PrevChar(env, pos, 0), icase);
      var v2 := pos < |env.units| && IsWordChar(CharAt(env, pos, |env.units|), icase);
      (v1 != v2) != neg
  }

  // ----- what the parser and the host guarantee -------------------------------------------------

  /** Units are 16 bits wide and case folding maps code points to code points. */
  predicate EnvOk(env: Env) {
    && (forall i :: 0 <= i < |env.units| ==> 0 <= env.units[i] < 0x10000)
    && (forall c :: 0 <= c < 0x110000 ==> 0 <= env.canon(c) < 0x110000)
  }

  predicate Ascending(p: seq<int>) { forall i, j :: 0 <= i <= j < |p| ==> p[i] <= p[j] }

  /** Even length, strictly increasing, within 32 bits: a CharRange after cr_compress. */
  predicate Canonical(points: seq<int>) {
    && |points| % 2 == 0
    && (forall i :: 0 <= i < |points| ==> 0 <= points[i] <= UINT32_MAX)
    && (forall i, j :: 0 <= i < j < |points| ==> points[i] < points[j])
  }

  predicate WfSet(cs: CharSet) {
    match cs
    case Lit(c, _) => 0 <= c < 0x110000
    case Cls(points, _) => Canonical(points)
    case _ => true
  }

  /** A node as the parser builds it. */
  predicate Wf(n: Node) {
    match n
    case Empty => true
    case Chr(cs) => WfSet(cs)
    case Assert(_) => true
    case Cat(l, r) => Wf(l) && Wf(r)
    case Alt(l, r) => Wf(l) && Wf(r)
    case Group(b) => Wf(b)
    case BackRef(idxs, _) => |idxs| < 256
    case Quant(b, min, max, _) => Wf(b) && min <= max <= INT32_MAX
    case Look(_, _, b) => Wf(b)
  }

  /** Its back references name groups below total. */
  predicate RefsIn(n: Node, total: nat) {
    match n
    case Cat(l, r) => RefsIn(l, total) && RefsIn(r, total)
    case Alt(l, r) => RefsIn(l, total) && RefsIn(r, total)
    case Group(b) => RefsIn(b, total)
    case BackRef(idxs, _) => forall k :: 0 <= k < |idxs| ==> idxs[k] < total
    case Quant(b, _, _, _) => RefsIn(b, total)
    case Look(_, _, b) => RefsIn(b, total)
    case _ => true
  }

  /** How far pos can still move in the given direction. */
  function Rem(env: Env, bw: bool, pos: nat): nat {
    if bw then pos else if pos <= |env.units| then |env.units| - pos else 0
  }

  // ----- the zero-advance / capture-init analysis ---------------------------------------------

  /** Result of scanning the code of a node: adv is need_check_adv, init is need_capture_init,
      stop says that the scan met an opcode whose outcome it does not predict. */
  datatype Scan = Scan(adv: bool, init: bool, stop: bool)

  const SCAN_NOTHING := Scan(true, false, false)
  const SCAN_STOP := Scan(true, true, true)

  function Then(a: Scan, b: Scan): Scan {
    if a.stop then a else Scan(a.adv && b.adv, a.init || b.init, b.stop)
  }

  function ScanNode(n: Node, bw: bool): Scan {
    match n
    case Empty => SCAN_NOTHING
    case Chr(_) => Scan(false, false, false)
    case Assert(_) => SCAN_NOTHING
    case Cat(l, r) =>
      if bw then Then(ScanNode(r, bw), ScanNode(l, bw)) else Then(ScanNode(l, bw), ScanNode(r, bw))
    case Alt(_, _) => SCAN_STOP
    case Group(b) => ScanNode(b, bw)
    case BackRef(_, _) => Scan(true, true, false)
    case Look(_, _, _) => SCAN_STOP
    case Quant(b, min, max, _) =>
      if max == 0 then SCAN_NOTHING
      else if min == 0 then SCAN_STOP
      else Then(ScanNode(b, bw), SCAN_STOP)
  }
}
