/**
 The tables of powers of five in dtoa.c and their reciprocals agree with what they replace.
 */
module Pow5Tables {
  import opened Limbs
  import opened Bignum

  const pow5Table: seq<nat> :=
    [0x00000005, 0x00000019, 0x0000007d, 0x00000271, 0x00000c35, 0x00003d09, 0x0001312d, 0x0005f5e1, 0x001dcd65,
     0x009502f9, 0x02e90edd, 0x0e8d4a51, 0x48c27395, 0x6bcc41e9, 0x1afd498d, 0x86f26fc1, 0xa2bc2ec5]

  const pow5hTable: seq<nat> := [0x00000001, 0x00000007, 0x00000023, 0x000000b1]

  const pow5InvTable: seq<nat> :=
    [0x99999999, 0x47ae147a, 0x0624dd2f, 0xa36e2eb1, 0x4f8b588e, 0x0c6f7a0b, 0xad7f29ab, 0x5798ee23, 0x12e0be82,
     0xb7cdfd9d, 0x5fd7fe17, 0x19799812, 0xc25c2684]

  /** The entry for 5^b, with its high part. */
  function Pow5Entry(b: nat): nat
    requires 1 <= b <= 17
  {
    pow5Table[b - 1] + if b >= 14 then pow5hTable[b - 14] * 0x1_0000_0000 else 0
  }

  lemma EntryStep(b: nat)
    requires 2 <= b <= 17
    ensures Pow5Entry(b) == 5 * Pow5Entry(b - 1)
  {
    if b <= 9 { EntryLow(b); } else { EntryHigh(b); }
  }

  lemma EntryLow(b: nat)
    requires 2 <= b <= 9
    ensures Pow5Entry(b) == 5 * Pow5Entry(b - 1)
  {
    if b == 2 {
      assert Pow5Entry(1) == 5 && Pow5Entry(2) == 25;
    } else if b == 3 {
      assert Pow5Entry(2) == 25 && Pow5Entry(3) == 125;
    } else if b == 4 {
      assert Pow5Entry(3) == 125 && Pow5Entry(4) == 625;
    } else if b == 5 {
      assert Pow5Entry(4) == 625 && Pow5Entry(5) == 3125;
    } else if b == 6 {
      assert Pow5Entry(5) == 3125 && Pow5Entry(6) == 15625;
    } else if b == 7 {
      assert Pow5Entry(6) == 15625 && Pow5Entry(7) == 78125;
    } else if b == 8 {
      assert Pow5Entry(7) == 78125 && Pow5Entry(8) == 390625;
    } else {
      assert Pow5Entry(8) == 390625 && Pow5Entry(9) == 1953125;
    }
  }

  lemma EntryHigh(b: nat)
    requires 10 <= b <= 17
    ensures Pow5Entry(b) == 5 * Pow5Entry(b - 1)
  {
    if b == 10 {
      assert Pow5Entry(9) == 1953125 && Pow5Entry(10) == 9765625;
    } else if b == 11 {
      assert Pow5Entry(10) == 9765625 && Pow5Entry(11) == 48828125;
    } else if b == 12 {
      assert Pow5Entry(11) == 48828125 && Pow5Entry(12) == 244140625;
    } else if b == 13 {
      assert Pow5Entry(12) == 244140625 && Pow5Entry(13) == 1220703125;
    } else if b == 14 {
      assert Pow5Entry(13) == 1220703125 && Pow5Entry(14) == 6103515625;
    } else if b == 15 {
      assert Pow5Entry(14) == 6103515625 && Pow5Entry(15) == 30517578125;
    } else if b == 16 {
      assert Pow5Entry(15) == 30517578125 && Pow5Entry(16) == 152587890625;
    } else {
      assert Pow5Entry(16) == 152587890625 && Pow5Entry(17) == 762939453125;
    }
  }

  /** The table holds the powers of five. */
  lemma {:induction false} Pow5Correct(b: nat)
    requires 1 <= b <= 17
    ensures Pow5Entry(b) == Pow(5, b)
    decreases b
  {
    hide Pow5Entry;
    if b > 1 {
      EntryStep(b);
      Pow5Correct(b - 1);
    } else {
      assert Pow(5, 1) == 5 * Pow(5, 0);
      FirstEntry();
    }
  }

  lemma FirstEntry()
    ensures Pow5Entry(1) == 5
  {
  }

  lemma {:induction false} PowProduct(a: nat, b: nat, n: nat)
    ensures Pow(a * b, n) == Pow(a, n) * Pow(b, n)
    decreases n
  {
    if n > 0 {
      PowProduct(a, b, n - 1);
      var p, q := Pow(a, n - 1), Pow(b, n - 1);
      Assoc(a * b, p, q);
      Assoc(a, b, p);
      Assoc(a, p, b);
      Assoc(a * p, b, q);
    }
  }

  // ----- reciprocals ----------------------------------------------------------------------------------

  /** Bits to shift 5^b until its top bit is set. */
  function Shift5(b: nat): int
    requires 1 <= b <= 13
  {
    Clz32(pow5Table[b - 1])
  }

  /** clz32. */
  function Clz32(v: nat): int { if v == 0 then 32 else 31 - Log2(v) }

  /** The normalised divisor and its reciprocal. */
  predicate InverseOk(d: int, v: int) {
    2 * d >= B && d < B && 0 <= v < B && (v + B) * d <= B * B - 1 < (v + B + 1) * d
  }

  lemma InverseIs(d: limb, v: int)
    requires InverseOk(d, v)
    ensures Udiv1normInit(d) == v
  {
    hide Udiv1normInit;
    var w := Udiv1normInit(d);
    LeMul(w + B + 1, v + B, d);
    LeMul(v + B + 1, w + B, d);
  }

  lemma LogIs(v: nat, k: nat)
    requires v > 0 && Pow(2, k) <= v < 2 * Pow(2, k)
    ensures Log2(v) == k
  {
    hide Pow, Log2;
    var r := Log2(v);
    if r < k {
      PowNextTwo(r);
      PowMono(2, r + 1, k);
      assert false;
    }
    if k < r {
      PowNextTwo(k);
      PowMono(2, k + 1, r);
      assert false;
    }
  }

  /** One entry: the shift, the normalised divisor d and its reciprocal v. */
  lemma InverseEntry(b: nat, p: nat, shift: nat, d: nat, v: nat)
    requires 1 <= b <= 13 && shift <= 31 && pow5Table[b - 1] == p && pow5InvTable[b - 1] == v
    requires d == p * Pow(2, shift) && InverseOk(d, v) && p > 0
    ensures Shift5(b) == shift && d < B && Udiv1normInit(d) == v
  {
    hide Pow, Log2, Udiv1normInit;
    var k := 31 - shift;
    PowAdd(2, k, shift);
    PowNextTwo(31);
    Pow32();
    // 2^31 <= p * 2^shift < 2^32
    var s := Pow(2, shift);
    Halve(p, Pow(2, k), s);
    LogIs(p, k);
    InverseIs(d, v);
  }

  lemma Halve(p: int, q: int, s: int)
    requires s > 0 && q * s <= p * s < 2 * (q * s)
    ensures q <= p < 2 * q
  {
    LeMul(p + 1, q, s);
    LeMul(2 * q, p, s);
    Assoc(2, q, s);
  }

  lemma Powers()
    ensures Pow(2, 1) == 2
    ensures Pow(2, 4) == 16
    ensures Pow(2, 6) == 64
    ensures Pow(2, 8) == 256
    ensures Pow(2, 11) == 2048
    ensures Pow(2, 13) == 8192
    ensures Pow(2, 15) == 32768
    ensures Pow(2, 18) == 262144
    ensures Pow(2, 20) == 1048576
    ensures Pow(2, 22) == 4194304
    ensures Pow(2, 25) == 33554432
    ensures Pow(2, 27) == 134217728
    ensures Pow(2, 29) == 536870912
  {
    hide Pow;
    PowZero();
    PowNextTwo(0);
    PowNextTwo(1);
    PowNextTwo(2);
    PowNextTwo(3);
    PowNextTwo(4);
    PowNextTwo(5);
    PowNextTwo(6);
    PowNextTwo(7);
    PowNextTwo(8);
    PowNextTwo(9);
    PowNextTwo(10);
    PowNextTwo(11);
    PowNextTwo(12);
    PowNextTwo(13);
    PowNextTwo(14);
    PowNextTwo(15);
    PowNextTwo(16);
    PowNextTwo(17);
    PowNextTwo(18);
    PowNextTwo(19);
    PowNextTwo(20);
    PowNextTwo(21);
    PowNextTwo(22);
    PowNextTwo(23);
    PowNextTwo(24);
    PowNextTwo(25);
    PowNextTwo(26);
    PowNextTwo(27);
    PowNextTwo(28);
  }

  /** The reciprocals of the table are the ones that udiv1norm_init computes. */
  lemma Pow5InverseCorrect(b: nat)
    requires 1 <= b <= 13
    ensures 0 <= Shift5(b) <= 31 && pow5Table[b - 1] * Pow(2, Shift5(b)) < B
    ensures 2 * (pow5Table[b - 1] * Pow(2, Shift5(b))) >= B
    ensures Udiv1normInit(pow5Table[b - 1] * Pow(2, Shift5(b))) == pow5InvTable[b - 1]
  {
    hide Pow, Log2, Udiv1normInit, Shift5;
    Powers();
    if b == 1 {
      InverseEntry(1, 5, 29, 2684354560, 2576980377);
    } else if b == 2 {
      InverseEntry(2, 25, 27, 3355443200, 1202590842);
    } else if b == 3 {
      InverseEntry(3, 125, 25, 4194304000, 103079215);
    } else if b == 4 {
      InverseEntry(4, 625, 22, 2621440000, 2741907121);
    } else if b == 5 {
      InverseEntry(5, 3125, 20, 3276800000, 1334532238);
    } else if b == 6 {
      InverseEntry(6, 15625, 18, 4096000000, 208632331);
    } else if b == 7 {
      InverseEntry(7, 78125, 15, 2560000000, 2910792107);
    } else if b == 8 {
      InverseEntry(8, 390625, 13, 3200000000, 1469640227);
    } else if b == 9 {
      InverseEntry(9, 1953125, 11, 4000000000, 316718722);
    } else if b == 10 {
      InverseEntry(10, 9765625, 8, 2500000000, 3083730333);
    } else if b == 11 {
      InverseEntry(11, 48828125, 6, 3125000000, 1607990807);
    } else if b == 12 {
      InverseEntry(12, 244140625, 4, 3906250000, 427399186);
    } else {
      InverseEntry(13, 1220703125, 1, 2441406250, 3260819076);
    }
  }
}
