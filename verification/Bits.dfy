/** Bitwise operators on naturals, digit by digit, and their arithmetic on the masks the source uses. */
module Bits {

  function And(a: nat, b: nat): nat
    decreases a
  {
    if a == 0 then 0 else 2 * And(a / 2, b / 2) + (if a % 2 == 1 && b % 2 == 1 then 1 else 0)
  }

  function Or(a: nat, b: nat): nat
    decreases a
  {
    if a == 0 then b else 2 * Or(a / 2, b / 2) + (if a % 2 == 1 || b % 2 == 1 then 1 else 0)
  }

  function Xor(a: nat, b: nat): nat
    decreases a
  {
    if a == 0 then b else 2 * Xor(a / 2, b / 2) + (if a % 2 != b % 2 then 1 else 0)
  }

  lemma Halves(x: nat, r: nat)
    ensures (2 * x + r) / 2 == x + r / 2
    ensures (2 * x + r) % 2 == r % 2
  {
  }

  /** The mask of the low `k` bits, and of the `k` bits from bit `low` up. */
  function Ones(k: nat): nat {
    if k == 0 then 0 else 2 * Ones(k - 1) + 1
  }

  function Shifted(x: nat, low: nat): (y: nat)
    ensures low > 0 ==> y % 2 == 0
  {
    if low == 0 then x else 2 * Shifted(x, low - 1)
  }

  lemma {:induction false} AndNothing(a: nat)
    ensures And(a, 0) == 0
  {
    if a > 0 {
      AndNothing(a / 2);
    }
  }

  lemma {:induction false} AndOnes(a: nat, k: nat)
    requires a < Shifted(1, k)
    ensures And(a, Ones(k)) == a
  {
    if a > 0 && k > 0 {
      AndOnes(a / 2, k - 1);
    }
  }

  /** Masking with the low bits keeps the remainder, and with the high bits the rest. */
  lemma {:induction false} AndLow(q: nat, r: nat, k: nat)
    requires r < Shifted(1, k)
    ensures And(Shifted(q, k) + r, Ones(k)) == r
  {
    if k == 0 {
      AndNothing(q);
    } else if Shifted(q, k) + r > 0 {
      Halves(Shifted(q, k - 1), r);
      Halves(Ones(k - 1), 1);
      AndLow(q, r / 2, k - 1);
    }
  }

  lemma {:induction false} AndHigh(q: nat, r: nat, low: nat, k: nat)
    requires r < Shifted(1, low) && q < Shifted(1, k)
    ensures And(Shifted(q, low) + r, Shifted(Ones(k), low)) == Shifted(q, low)
  {
    if low == 0 {
      AndOnes(q, k);
    } else if Shifted(q, low) + r > 0 {
      Halves(Shifted(q, low - 1), r);
      AndHigh(q, r / 2, low - 1, k);
    } else {
      ShiftedZero(q, low);
    }
  }

  lemma {:induction false} ShiftedZero(q: nat, low: nat)
    ensures Shifted(q, low) == 0 <==> q == 0
  {
    if low > 0 {
      ShiftedZero(q, low - 1);
    }
  }

  /** Or-ing onto clear low bits is adding. */
  lemma {:induction false} OrLow(q: nat, r: nat, k: nat)
    requires r < Shifted(1, k)
    ensures Or(Shifted(q, k), r) == Shifted(q, k) + r
  {
    if k > 0 && Shifted(q, k) > 0 {
      OrLow(q, r / 2, k - 1);
    } else if k == 0 {
      OrNothing(q);
    }
  }

  lemma {:induction false} OrNothing(a: nat)
    ensures Or(a, 0) == a
  {
    if a > 0 {
      OrNothing(a / 2);
    }
  }

  lemma {:induction false} XorNothing(a: nat)
    ensures Xor(a, 0) == a
  {
    if a > 0 {
      XorNothing(a / 2);
    }
  }

  /** Xor with one bit set adds or takes away that bit. */
  lemma {:induction false} XorOneBit(q: nat, r: nat, k: nat)
    requires r < Shifted(1, k)
    ensures Xor(Shifted(q, k) + r, Shifted(1, k)) == Shifted(if q % 2 == 0 then q + 1 else q - 1, k) + r
  {
    if k == 0 {
      XorNothing(q / 2);
    } else if Shifted(q, k) + r > 0 {
      Halves(Shifted(q, k - 1), r);
      XorOneBit(q, r / 2, k - 1);
    } else {
      ShiftedZero(q, k);
      XorZeroBit(k);
    }
  }

  lemma {:induction false} XorZeroBit(k: nat)
    ensures Shifted(0, k) == 0
  {
    ShiftedZero(0, k);
  }

  lemma {:induction false} ShiftedIs(x: nat)
    ensures Shifted(x, 8) == 256 * x
    ensures Shifted(x, 14) == 16384 * x
    ensures Ones(8) == 0xff && Shifted(Ones(24), 8) == 0xffff_ff00 && Shifted(1, 24) == 0x100_0000
  {
    ShiftedFour(x, 0);
    ShiftedFour(x, 4);
    ShiftedFour(x, 8);
    ShiftedTwo(x, 12);
    OnesFour(0);
    OnesFour(4);
    OnesFour(8);
    OnesFour(12);
    OnesFour(16);
    OnesFour(20);
    ShiftedFour(Ones(24), 0);
    ShiftedFour(Ones(24), 4);
    ShiftedFour(1, 0);
    ShiftedFour(1, 4);
    ShiftedFour(1, 8);
    ShiftedFour(1, 12);
    ShiftedFour(1, 16);
    ShiftedFour(1, 20);
  }

  lemma ShiftedTwo(x: nat, k: nat)
    ensures Shifted(x, k + 2) == 4 * Shifted(x, k)
  {
    assert Shifted(x, k + 1) == 2 * Shifted(x, k);
  }

  lemma ShiftedFour(x: nat, k: nat)
    ensures Shifted(x, k + 4) == 16 * Shifted(x, k)
  {
    ShiftedTwo(x, k);
    ShiftedTwo(x, k + 2);
  }

  lemma OnesFour(k: nat)
    ensures Ones(k + 4) == 16 * Ones(k) + 15
  {
    assert Ones(k + 1) == 2 * Ones(k) + 1;
    assert Ones(k + 2) == 4 * Ones(k) + 3;
    assert Ones(k + 3) == 8 * Ones(k) + 7;
  }

  /** `i & 0xff`, `i & ~0xff` for a non-negative int, and `|` of the two parts. */
  lemma ByteMasks(i: nat)
    requires i < 0x8000_0000
    ensures And(i, 0xff) == i % 256
    ensures And(i, 0xffff_ff00) == i - i % 256
  {
    hide And, Shifted, Ones;
    ShiftedIs(i / 256);
    ShiftedIs(1);
    AndLow(i / 256, i % 256, 8);
    AndHigh(i / 256, i % 256, 8, 24);
  }

  lemma OrByte(group: nat, low: nat)
    requires low < 256
    ensures Or(256 * group, low) == 256 * group + low
  {
    hide Or, Shifted, Ones;
    ShiftedIs(group);
    ShiftedIs(1);
    OrLow(group, low, 8);
  }

  /** What `^ (1 << 14)` does to an offset. */
  function Flip(x: nat): nat {
    if x / 16384 % 2 == 0 then x + 16384 else x - 16384
  }

  lemma XorBit14(x: nat)
    ensures Xor(x, 16384) == Flip(x)
  {
    hide Xor, Shifted, Ones;
    ShiftedIs(x / 16384);
    ShiftedIs(1);
    ShiftedIs(if x / 16384 % 2 == 0 then x / 16384 + 1 else x / 16384 - 1);
    XorOneBit(x / 16384, x % 16384, 14);
  }
}
