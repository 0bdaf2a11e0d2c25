/**
 The characters of a UTF-16 input: what the matcher reads are the code points that
 UTF16EncodeCodePoint (section 11.1.1 of ECMA-262) wrote, in both directions.
 */
module Utf16 {
  import opened RegexpPattern
  import opened SlotRefinement

  predicate IsCodePoint(c: int) { 0 <= c < 0x110000 }

  predicate IsLeading(c: int) { 0xD800 <= c <= 0xDBFF }

  predicate IsTrailing(c: int) { 0xDC00 <= c <= 0xDFFF }

  /** UTF16EncodeCodePoint. */
  function Encode(c: int): (units: seq<int>)
    requires IsCodePoint(c)
    ensures 1 <= |units| <= 2 && forall i :: 0 <= i < |units| ==> 0 <= units[i] < 0x10000
  {
    if c < 0x10000 then [c] else [0xD800 + (c - 0x10000) / 0x400, 0xDC00 + (c - 0x10000) % 0x400]
  }

  /** Code points, without a high surrogate in front of a low one. */
  predicate Separate(cs: seq<int>) {
    && (forall i :: 0 <= i < |cs| ==> IsCodePoint(cs[i]))
    && forall i :: 0 <= i < |cs| - 1 ==> !(IsLeading(cs[i]) && IsTrailing(cs[i + 1]))
  }

  function EncodeAll(cs: seq<int>): (units: seq<int>)
    requires forall i :: 0 <= i < |cs| ==> IsCodePoint(cs[i])
    ensures forall i :: 0 <= i < |units| ==> 0 <= units[i] < 0x10000
  {
    if cs == [] then [] else Encode(cs[0]) + EncodeAll(cs[1..])
  }

  /** The surrogate tests are those of the standard. */
  lemma SurrogatesAre(c: int)
    ensures (IsHiSurrogate(c) <==> IsLeading(c)) && (IsLoSurrogate(c) <==> IsTrailing(c))
  {
  }

  lemma PairIs(c: int)
    requires 0x10000 <= c < 0x110000
    ensures var u := Encode(c); |u| == 2 && IsLeading(u[0]) && IsTrailing(u[1]) && FromSurrogate(u[0], u[1]) == c
  {
    var x := c - 0x10000;
    assert x == x / 0x400 * 0x400 + x % 0x400;
  }

  /** Reading an encoded code point gives it back, whatever stands around it, unless a lone surrogate
      meets its other half. */
  lemma ReadEncoded(env: Env, pre: seq<int>, c: int, post: seq<int>)
    requires env.utf16 && IsCodePoint(c) && env.units == pre + Encode(c) + post
    requires IsLeading(c) && post != [] ==> !IsTrailing(post[0])
    ensures var p, n := |pre|, |env.units|; p < n && CharAt(env, p, n) == c && CharLen(env, p, n) == |Encode(c)|
  {
    var u, p := Encode(c), |pre|;
    assert env.units[p] == u[0];
    SurrogatesAre(env.units[p]);
    if c >= 0x10000 {
      PairIs(c);
      assert env.units[p + 1] == u[1];
      SurrogatesAre(u[1]);
    } else if post != [] {
      assert env.units[p + 1] == post[0];
      SurrogatesAre(post[0]);
    }
  }

  /** The same backwards. */
  lemma ReadEncodedBack(env: Env, pre: seq<int>, c: int, post: seq<int>)
    requires env.utf16 && IsCodePoint(c) && env.units == pre + Encode(c) + post
    requires IsTrailing(c) && pre != [] ==> !IsLeading(pre[|pre| - 1])
    ensures var q := |pre| + |Encode(c)|; PrevChar(env, q, 0) == c && PrevLen(env, q, 0) == |Encode(c)|
  {
    var u, q := Encode(c), |pre| + |Encode(c)|;
    assert env.units[q - 1] == u[|u| - 1];
    SurrogatesAre(env.units[q - 1]);
    if c >= 0x10000 {
      PairIs(c);
      assert env.units[q - 2] == u[0];
      SurrogatesAre(u[0]);
    } else if pre != [] {
      assert env.units[q - 2] == pre[|pre| - 1];
      SurrogatesAre(pre[|pre| - 1]);
    }
  }

  /** The first unit of encoded text. */
  lemma FirstUnit(cs: seq<int>)
    requires Separate(cs) && cs != []
    ensures EncodeAll(cs) != [] && (IsTrailing(EncodeAll(cs)[0]) <==> IsTrailing(cs[0]))
  {
    if cs[0] >= 0x10000 { PairIs(cs[0]); }
  }

  lemma {:induction false} CharsFrom(env: Env, pre: seq<int>, cs: seq<int>)
    requires env.utf16 && Separate(cs) && env.units == pre + EncodeAll(cs)
    ensures Chars(env, |pre|) == cs
    decreases cs
  {
    if cs != [] {
      var post := EncodeAll(cs[1..]);
      if |cs| > 1 { FirstUnit(cs[1..]); }
      assert pre + EncodeAll(cs) == pre + Encode(cs[0]) + post;
      ReadEncoded(env, pre, cs[0], post);
      CharsFrom(env, pre + Encode(cs[0]), cs[1..]);
    }
  }

  /** The input of the standard's matcher consists of exactly the encoded characters. */
  lemma InputIs(env: Env, cs: seq<int>)
    requires env.utf16 && Separate(cs) && env.units == EncodeAll(cs)
    ensures TextOf(env).chars == cs
  {
    assert [] + EncodeAll(cs) == EncodeAll(cs);
    CharsFrom(env, [], cs);
  }

  /** Without UTF-16 decoding every unit is a character. */
  lemma {:induction false} UnitsFrom(env: Env, p: nat)
    requires !env.utf16 && p <= |env.units|
    ensures Chars(env, p) == env.units[p..]
    decreases |env.units| - p
  {
    if p < |env.units| { UnitsFrom(env, p + 1); }
  }
}
