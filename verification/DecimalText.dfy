/**
 Decimal digits as js_dtoa writes them, and how they read back.
 */
module DecimalText {
  import opened Limbs
  import opened Bignum
  import opened MulPow
  import opened NumberText

  // ----- digits of a number ---------------------------------------------------------------------------

  /** Decimal digits without leading zeros. */
  function Dec(n: nat): (ds: seq<int>)
    ensures |ds| >= 1 && AllBelow(ds, 10)
  {
    if n < 10 then [n] else Dec(n / 10) + [n % 10]
  }

  /** The lowest len decimal digits. */
  function Pad(n: nat, len: nat): (ds: seq<int>)
    ensures |ds| == len && AllBelow(ds, 10)
  {
    if len == 0 then [] else Pad(n / 10, len - 1) + [n % 10]
  }

  lemma {:induction false} NumberDec(n: nat)
    ensures Number(Dec(n), 10) == n
    decreases n
  {
    if n < 10 {
      assert [n][..0] == [];
    } else {
      NumberDec(n / 10);
      NumberSnoc(Dec(n / 10), n % 10, 10);
    }
  }

  lemma {:induction false} NumberPad(n: nat, len: nat)
    requires n < Pow(10, len)
    ensures Number(Pad(n, len), 10) == n
    decreases len
  {
    if len > 0 {
      assert Pow(10, len) == 10 * Pow(10, len - 1);
      NumberPad(n / 10, len - 1);
      NumberSnoc(Pad(n / 10, len - 1), n % 10, 10);
    }
  }

  /** Digits in two groups. */
  lemma {:induction false} PadSplit(n: nat, k: nat, j: nat)
    ensures Pad(n, k + j) == Pad(n / Pow(10, j), k) + Pad(n % Pow(10, j), j)
    decreases j
  {
    if j == 0 {
      PowFirst(10);
      DivUnique(n, 1, n, 0);
    } else {
      var p := Pow(10, j - 1);
      assert Pow(10, j) == 10 * p;
      hide Pow, Pad;
      PadSplit(n / 10, k, j - 1);
      DivDiv(n, 10, p);
      PadStep(n, k + j);
      PadStep(n % (10 * p), j);
      var r := n / 10 % p * 10 + n % 10;
      DivUnique(r, 10, n / 10 % p, n % 10);
    }
  }

  lemma PadStep(n: nat, len: nat)
    requires len > 0
    ensures Pad(n, len) == Pad(n / 10, len - 1) + [n % 10]
  {
  }

  /** A number with leading digits. */
  lemma {:induction false} DecSplit(n: nat, j: nat)
    requires n >= Pow(10, j)
    ensures Dec(n) == Dec(n / Pow(10, j)) + Pad(n % Pow(10, j), j)
    decreases j
  {
    if j == 0 {
      PowFirst(10);
      DivUnique(n, 1, n, 0);
    } else {
      var p := Pow(10, j - 1);
      assert Pow(10, j) == 10 * p;
      assert p >= 1;
      hide Pow;
      DecSplit(n / 10, j - 1);
      DivDiv(n, 10, p);
      PadStep(n % (10 * p), j);
      var r := n / 10 % p * 10 + n % 10;
      DivUnique(r, 10, n / 10 % p, n % 10);
      DecStep(n);
    }
  }

  lemma DecStep(n: nat)
    requires n >= 10
    ensures Dec(n) == Dec(n / 10) + [n % 10]
  {
  }

  // ----- characters -----------------------------------------------------------------------------------

  function Chars(ds: seq<int>): (s: string)
    requires AllBelow(ds, 10)
    ensures |s| == |ds| && forall i :: 0 <= i < |ds| ==> s[i] == DigitChar(ds[i])
  {
    seq(|ds|, i requires 0 <= i < |ds| => DigitChar(ds[i]))
  }

  lemma CharsAppend(a: seq<int>, b: seq<int>)
    requires AllBelow(a, 10) && AllBelow(b, 10)
    ensures AllBelow(a + b, 10) && Chars(a + b) == Chars(a) + Chars(b)
  {
  }

  lemma CharsCons(d: int, ds: seq<int>)
    requires 0 <= d < 10 && AllBelow(ds, 10)
    ensures AllBelow([d] + ds, 10) && Chars([d] + ds) == [DigitChar(d)] + Chars(ds)
  {
  }

  lemma BelowNone()
    ensures AllBelow([], 10)
  {
  }

  lemma CharsNone()
    ensures Chars([]) == ""
  {
  }

  /** u32toa. */
  method U32toa(n: nat) returns (s: string)
    ensures s == Chars(Dec(n))
  {
    hide Dec, Chars, DigitChar, AllBelow;
    var x: nat := n;
    s := [DigitChar(x % 10)];
    CharsNone();
    BelowNone();
    CharsCons(x % 10, []);
    ghost var low := [x % 10] + [];
    DecFirst(x);
    x := x / 10;
    while x != 0
      invariant AllBelow(low, 10) && s == Chars(low) && Dec(n) == (if x == 0 then low else Dec(x) + low)
    {
      s := [DigitChar(x % 10)] + s;
      CharsCons(x % 10, low);
      DecFirst(x);
      assert Dec(x) + low == (if x / 10 == 0 then [x % 10] + low else Dec(x / 10) + ([x % 10] + low));
      low := [x % 10] + low;
      x := x / 10;
    }
  }

  lemma DecFirst(n: nat)
    ensures Dec(n) == if n / 10 == 0 then [n % 10] else Dec(n / 10) + [n % 10]
  {
  }

  /** u32toa_len. */
  method U32toaLen(n: nat, len: nat) returns (s: string)
    ensures s == Chars(Pad(n, len))
  {
    hide Pad, Chars, DigitChar, AllBelow;
    var x: nat, i := n, len;
    s := "";
    ghost var low := [];
    CharsNone();
    BelowNone();
    PadNone(x);
    while i > 0
      invariant 0 <= i <= len && AllBelow(low, 10) && s == Chars(low) && Pad(n, len) == Pad(x, i) + low
    {
      PadStep(x, i);
      var digit := x % 10;
      x := x / 10;
      s := [DigitChar(digit)] + s;
      CharsCons(digit, low);
      assert Pad(x, i - 1) + [digit] + low == Pad(x, i - 1) + ([digit] + low);
      low := [digit] + low;
      i := i - 1;
    }
    PadNone(x);
    assert [] + low == low;
  }

  lemma PadNone(n: nat)
    ensures Pad(n, 0) == []
  {
  }

  /** u64toa. */
  method U64toa(n: nat) returns (s: string)
    requires n < B * B
    ensures s == Chars(Dec(n))
  {
    hide Dec, Pad;
    if n < B {
      s := U32toa(n);
      return;
    }
    Billion();
    var n1, n0 := n / 1000000000, n % 1000000000;
    hide Pow;
    DecSplit(n, 9);
    var low := U32toaLen(n0, 9);
    if n1 >= B {
      var n2 := n1 / 1000000000;
      n1 := n1 % 1000000000;
      DecSplit(n / 1000000000, 9);
      var high;
      if n2 >= 10 {
        high := [DigitChar(n2 / 10), DigitChar(n2 % 10)];
      } else {
        high := [DigitChar(n2)];
      }
      TwoDigits(n2);
      var mid := U32toaLen(n1, 9);
      CharsAppend(Dec(n2), Pad(n1, 9));
      s := high + mid + low;
    } else {
      s := U32toa(n1);
      s := s + low;
    }
    CharsAppend(Dec(n / 1000000000), Pad(n0, 9));
  }

  lemma Billion()
    ensures Pow(10, 9) == 1000000000
  {
    assert Pow(10, 3) == 1000;
    PowAdd(10, 3, 3);
    PowAdd(10, 6, 3);
  }

  lemma TwoDigits(n: nat)
    requires n < 100
    ensures Chars(Dec(n)) == if n >= 10 then [DigitChar(n / 10), DigitChar(n % 10)] else [DigitChar(n)]
  {
    if n >= 10 { DecStep(n); assert Dec(n / 10) == [n / 10]; }
  }
}
