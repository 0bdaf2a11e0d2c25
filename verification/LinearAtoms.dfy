/**
 Atoms whose captures the compiler does not reset at each iteration: their code is straight
 line, so every run that gets through overwrites all the captures it could have found.
 */
module LinearAtoms {
  import opened RegexpPattern
  import opened SlotMatcher

  lemma {:induction false} StopInit(n: Node, bw: bool)
    ensures ScanNode(n, bw).stop ==> ScanNode(n, bw).init
    decreases n
  {
    match n
    case Cat(l, r) => StopInit(l, bw); StopInit(r, bw);
    case Group(b) => StopInit(b, bw);
    case Quant(b, _, _, _) => StopInit(b, bw);
    case _ =>
  }

  /** The groups that straight-line code for n is sure to write. */
  function Written(n: Node, bw: bool, cc: nat): set<nat> {
    match n
    case Cat(l, r) => Written(l, bw, cc) + Written(r, bw, cc + NumGroups(l))
    case Group(b) => {cc} + Written(b, bw, cc + 1)
    case Quant(b, min, _, _) => if min > 0 || ScanNode(b, bw).init then {} else GroupRange(cc, NumGroups(b))
    case _ => {}
  }

  function GroupRange(lo: nat, n: nat): (r: set<nat>)
    ensures forall k: nat :: k in r <==> lo <= k < lo + n
    decreases n
  {
    if n == 0 then {} else {lo} + GroupRange(lo + 1, n - 1)
  }

  lemma {:induction false} WrittenInside(n: Node, bw: bool, cc: nat, k: nat)
    requires k in Written(n, bw, cc)
    ensures cc <= k < cc + NumGroups(n)
    decreases n
  {
    match n
    case Cat(l, r) =>
      if k in Written(l, bw, cc) { WrittenInside(l, bw, cc, k); } else { WrittenInside(r, bw, cc + NumGroups(l), k); }
    case Group(b) => if k != cc { WrittenInside(b, bw, cc + 1, k); }
    case _ =>
  }

  /** x and x' differ at most in the slots of the groups D. */
  ghost predicate Agree(D: set<nat>, x: St, x': St) {
    && x.pos == x'.pos && |x.slots| == |x'.slots|
    && forall i :: 0 <= i < |x.slots| && i / 2 !in D ==> x.slots[i] == x'.slots[i]
  }

  ghost predicate AgreeAll(D: set<nat>, R: seq<St>, R': seq<St>) {
    |R| == |R'| && forall i :: 0 <= i < |R| ==> Agree(D, R[i], R'[i])
  }

  ghost predicate Keeps(W: set<nat>, x: St, R: seq<St>) {
    forall i :: 0 <= i < |R| ==> Agree(W, R[i], R[i].(slots := x.slots))
  }

  /** A straight-line node run from states that differ in D ends in states that differ only in
      those of D that it does not write, and it changes only what it writes. */
  lemma {:induction false} LinearRun(env: Env, n: Node, bw: bool, cc: nat, D: set<nat>, x: St, x': St)
    requires !ScanNode(n, bw).init && Agree(D, x, x')
    ensures AgreeAll(D - Written(n, bw, cc), M(env, n, bw, cc, x), M(env, n, bw, cc, x'))
    ensures Keeps(Written(n, bw, cc), x, M(env, n, bw, cc, x))
    decreases n, 2
  {
    match n
    case Empty =>
    case Chr(_) =>
    case Assert(_) =>
    case Cat(_, _) => LinearCat(env, n, bw, cc, D, x, x');
    case Group(_) => LinearGroup(env, n, bw, cc, D, x, x');
    case Quant(b, _, _, _) => StopInit(b, bw); LinearNever(env, n, bw, cc, D, x, x');
    case _ => assert false;
  }

  lemma LinearNever(env: Env, n: Node, bw: bool, cc: nat, D: set<nat>, x: St, x': St)
    requires n.Quant? && n.max == 0 && Agree(D, x, x')
    ensures AgreeAll(D - Written(n, bw, cc), M(env, n, bw, cc, x), M(env, n, bw, cc, x'))
    ensures Keeps(Written(n, bw, cc), x, M(env, n, bw, cc, x))
  {
    hide ScanNode, Rep;
    var g := NumGroups(n.body);
    var r, r' := Reset(x.slots, cc, g), Reset(x'.slots, cc, g);
    if n.min == 0 && !ScanNode(n.body, bw).init {
      forall i | 0 <= i < |x.slots| && i / 2 !in D - Written(n, bw, cc) ensures r[i] == r'[i] {
        assert cc <= i / 2 < cc + g <==> 2 * cc <= i < 2 * (cc + g);
      }
      forall i | 0 <= i < |x.slots| && i / 2 !in Written(n, bw, cc) ensures r[i] == x.slots[i] {
        assert cc <= i / 2 < cc + g <==> 2 * cc <= i < 2 * (cc + g);
      }
    }
  }

  lemma LinearGroup(env: Env, n: Node, bw: bool, cc: nat, D: set<nat>, x: St, x': St)
    requires n.Group? && !ScanNode(n, bw).init && Agree(D, x, x')
    ensures AgreeAll(D - Written(n, bw, cc), M(env, n, bw, cc, x), M(env, n, bw, cc, x'))
    ensures Keeps(Written(n, bw, cc), x, M(env, n, bw, cc, x))
    decreases n, 0
  {
    hide M;
    var i := 2 * cc + (if bw then 1 else 0);
    var j := 2 * cc + (if bw then 0 else 1);
    var x1, x1' := x.(slots := SetSlot(x.slots, i, x.pos)), x'.(slots := SetSlot(x'.slots, i, x'.pos));
    var W := Written(n.body, bw, cc + 1);
    MatchGroup(env, n, bw, cc, x);
    MatchGroup(env, n, bw, cc, x');
    LinearRun(env, n.body, bw, cc + 1, D, x1, x1');
    LinearRun(env, n.body, bw, cc + 1, D, x1', x1);
    var ys, ys' := M(env, n.body, bw, cc + 1, x1), M(env, n.body, bw, cc + 1, x1');
    var zs, zs' := M(env, n, bw, cc, x), M(env, n, bw, cc, x');
    if cc in W { WrittenInside(n.body, bw, cc + 1, cc); }
    forall k | 0 <= k < |zs|
      ensures Agree(D - Written(n, bw, cc), zs[k], zs'[k]) && Agree(Written(n, bw, cc), zs[k], zs[k].(slots := x.slots))
    {
      assert Agree(D - W, ys[k], ys'[k]) && Agree(W, ys[k], ys[k].(slots := x1.slots));
      assert Agree(W, ys'[k], ys'[k].(slots := x1'.slots));
      if i < |x.slots| {
        // the slot written on entry is still there
        assert i / 2 == cc;
        assert ys[k].slots[i] == x.pos && ys'[k].slots[i] == x'.pos;
      }
    }
  }

  lemma LinearCat(env: Env, n: Node, bw: bool, cc: nat, D: set<nat>, x: St, x': St)
    requires n.Cat? && !ScanNode(n, bw).init && Agree(D, x, x')
    ensures AgreeAll(D - Written(n, bw, cc), M(env, n, bw, cc, x), M(env, n, bw, cc, x'))
    ensures Keeps(Written(n, bw, cc), x, M(env, n, bw, cc, x))
    decreases n, 1
  {
    hide M, MMap, Flat, ScanNode, Written, AgreeAll, Keeps, Agree;
    LinearParts(n, bw, cc);
    MatchCat(env, n, bw, cc, x);
    MatchCat(env, n, bw, cc, x');
    var cr := cc + NumGroups(n.l);
    if bw { LinearSeq(env, n, n.r, n.l, bw, cr, cc, D, x, x'); }
    else { LinearSeq(env, n, n.l, n.r, bw, cc, cr, D, x, x'); }
  }

  lemma LinearParts(n: Node, bw: bool, cc: nat)
    requires n.Cat? && !ScanNode(n, bw).init
    ensures !ScanNode(n.l, bw).init && !ScanNode(n.r, bw).init
    ensures var wl, wr := Written(n.l, bw, cc), Written(n.r, bw, cc + NumGroups(n.l));
      Written(n, bw, cc) == wl + wr && wl + wr == wr + wl
  {
    StopInit(n.l, bw);
    StopInit(n.r, bw);
  }

  lemma LinearSeq(env: Env, n: Node, a: Node, b: Node, bw: bool, ca: nat, cb: nat, D: set<nat>, x: St, x': St)
    requires n.Cat? && (a == n.l || a == n.r) && (b == n.l || b == n.r)
    requires !ScanNode(a, bw).init && !ScanNode(b, bw).init && Agree(D, x, x')
    ensures var R := Flat(MMap(env, b, bw, cb, x, M(env, a, bw, ca, x)));
      var R' := Flat(MMap(env, b, bw, cb, x', M(env, a, bw, ca, x')));
      var W := Written(a, bw, ca) + Written(b, bw, cb);
      AgreeAll(D - W, R, R') && Keeps(W, x, R)
    decreases n, 0
  {
    hide M, MMap, ScanNode, Written;
    var ys, ys' := M(env, a, bw, ca, x), M(env, a, bw, ca, x');
    var rr, rr' := MMap(env, b, bw, cb, x, ys), MMap(env, b, bw, cb, x', ys');
    var Wa, Wb := Written(a, bw, ca), Written(b, bw, cb);
    LinearRun(env, a, bw, ca, D, x, x');
    forall i | 0 <= i < |ys| ensures AgreeAll(D - (Wa + Wb), rr[i], rr'[i]) && Keeps(Wa + Wb, x, rr[i]) {
      assert Agree(D - Wa, ys[i], ys'[i]) && Agree(Wa, ys[i], ys[i].(slots := x.slots));
      LinearRun(env, b, bw, cb, D - Wa, ys[i], ys'[i]);
      assert D - Wa - Wb == D - (Wa + Wb);
      forall k | 0 <= k < |rr[i]| ensures Agree(Wa + Wb, rr[i][k], rr[i][k].(slots := x.slots)) {
        assert Agree(Wb, rr[i][k], rr[i][k].(slots := ys[i].slots));
      }
    }
    AgreeFlat(D - (Wa + Wb), Wa + Wb, x, rr, rr');
  }

  lemma {:induction false} AgreeFlat(D: set<nat>, W: set<nat>, x: St, rr: seq<seq<St>>, rr': seq<seq<St>>)
    requires |rr| == |rr'| && forall i :: 0 <= i < |rr| ==> AgreeAll(D, rr[i], rr'[i]) && Keeps(W, x, rr[i])
    ensures AgreeAll(D, Flat(rr), Flat(rr')) && Keeps(W, x, Flat(rr))
    decreases rr
  {
    hide Agree;
    if rr != [] {
      AgreeFlat(D, W, x, rr[1..], rr'[1..]);
      assert AgreeAll(D, rr[0], rr'[0]) && Keeps(W, x, rr[0]);
    }
  }

  /** Slots of groups inside n that no run writes are unset. */
  ghost predicate DeadUnset(n: Node, bw: bool, cc: nat, x: St) {
    forall i :: 0 <= i < |x.slots| && cc <= i / 2 < cc + NumGroups(n) && i / 2 !in Written(n, bw, cc) ==>
      x.slots[i] == NULL
  }

  /** Resetting the captures of a straight-line atom first makes no difference. */
  lemma LinearReset(env: Env, n: Node, bw: bool, cc: nat, x: St)
    requires !ScanNode(n, bw).init && DeadUnset(n, bw, cc, x)
    ensures M(env, n, bw, cc, x) == M(env, n, bw, cc, x.(slots := Reset(x.slots, cc, NumGroups(n))))
  {
    hide M, ScanNode, Written;
    var W := Written(n, bw, cc);
    var x' := x.(slots := Reset(x.slots, cc, NumGroups(n)));
    forall i | 0 <= i < |x.slots| && i / 2 !in W ensures x.slots[i] == x'.slots[i] {
      assert cc <= i / 2 < cc + NumGroups(n) <==> 2 * cc <= i < 2 * (cc + NumGroups(n));
    }
    LinearRun(env, n, bw, cc, W, x, x');
    var R, R' := M(env, n, bw, cc, x), M(env, n, bw, cc, x');
    assert W - W == {};
    forall k | 0 <= k < |R| ensures R[k] == R'[k] {
      assert Agree({}, R[k], R'[k]);
      assert R[k].slots == R'[k].slots;
    }
  }

  /** An iteration that starts with the captures reset leaves the unwritten ones unset. */
  lemma DeadStaysUnset(env: Env, n: Node, bw: bool, cc: nat, x: St, k: nat)
    requires !ScanNode(n, bw).init
    requires k < |M(env, n, bw, cc, x.(slots := Reset(x.slots, cc, NumGroups(n))))|
    ensures DeadUnset(n, bw, cc, M(env, n, bw, cc, x.(slots := Reset(x.slots, cc, NumGroups(n))))[k])
  {
    hide M, ScanNode, Written;
    var x' := x.(slots := Reset(x.slots, cc, NumGroups(n)));
    LinearRun(env, n, bw, cc, {}, x', x');
    var y := M(env, n, bw, cc, x')[k];
    assert Agree(Written(n, bw, cc), y, y.(slots := x'.slots));
    assert Moves(env, bw, x', y);
    forall i | 0 <= i < |y.slots| && cc <= i / 2 < cc + NumGroups(n) && i / 2 !in Written(n, bw, cc)
      ensures y.slots[i] == NULL
    {
      assert 2 * cc <= i < 2 * (cc + NumGroups(n));
    }
  }
}
