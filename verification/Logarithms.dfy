/** Base-2 logarithms of 32-bit words: FloorLg of the spinlock, and both forms of ilog2. */
module Logarithms {

  /** `>>=` on a signed 32-bit word: the sign is copied down. */
  function ShiftSigned(x: bv32, k: nat): bv32
    requires 0 < k < 32
  {
    if x & 0x8000_0000 == 0 then x >> k else (x >> k) | !(0xffff_ffff >> k)
  }

  /** The result is the index of the highest bit set, which for a negative int is its sign bit. */
  method FloorLg(x: bv32) returns (lg: nat)
    ensures lg < 32
    ensures x == 0 ==> lg == 0
    ensures x != 0 ==> x >> lg == 1
  {
    lg := 0;
    var localX := x;
    if localX & 0xffff_0000 != 0 {
      lg, localX := lg + 16, ShiftSigned(localX, 16);
    }
    if localX & 0xff00 != 0 {
      lg, localX := lg + 8, ShiftSigned(localX, 8);
    }
    if localX & 0xf0 != 0 {
      lg, localX := lg + 4, ShiftSigned(localX, 4);
    }
    if localX & 0xc != 0 {
      lg, localX := lg + 2, ShiftSigned(localX, 2);
    }
    if localX & 0x2 != 0 {
      lg, localX := lg + 1, ShiftSigned(localX, 1);
    }
  }

  function Pow2(n: nat): (p: nat)
    ensures p > 0
  {
    if n == 0 then 1 else 2 * Pow2(n - 1)
  }

  lemma {:induction false} PowMonotonic(m: nat, n: nat)
    requires m < n
    ensures 2 * Pow2(m) <= Pow2(n)
  {
    if m < n - 1 {
      PowMonotonic(m, n - 1);
    }
  }

  lemma PowTimes16(n: nat)
    ensures Pow2(n + 4) == 16 * Pow2(n)
  {
    assert Pow2(n + 2) == 4 * Pow2(n);
  }

  lemma Pow31()
    ensures Pow2(31) == 0x8000_0000
  {
    PowTimes16(3);
    PowTimes16(7);
    PowTimes16(11);
    PowTimes16(15);
    PowTimes16(19);
    PowTimes16(23);
    PowTimes16(27);
  }

  /** What the bit-scan instruction leaves: the index of the highest bit set. */
  function BitScan(x: nat): (lg: nat)
    requires x > 0
    ensures Pow2(lg) <= x < Pow2(lg + 1)
  {
    if x == 1 then 0 else 1 + BitScan(x / 2)
  }

  lemma BitScanSmall(x: nat)
    requires 0 < x < 0x1_0000_0000
    ensures BitScan(x) < 32
  {
    Pow31();
    if BitScan(x) >= 32 {
      assert Pow2(32) == 2 * Pow2(31);
      if BitScan(x) > 32 {
        PowMonotonic(32, BitScan(x));
      }
    }
  }

  /** A 32-bit `pow` after `n` turns of the fallback loop's `pow <<= 1`. */
  function PowAfter(n: nat): (pow: nat)
    ensures pow < 0x1_0000_0000
  {
    if n == 0 then 1 else 2 * PowAfter(n - 1) % 0x1_0000_0000
  }

  lemma {:induction false} PowAfterIs(n: nat)
    ensures PowAfter(n) == if n < 32 then Pow2(n) else 0
  {
    if n > 0 {
      PowAfterIs(n - 1);
      PowBelow(n);
    }
  }

  lemma PowBelow(n: nat)
    requires 0 < n
    ensures n < 32 ==> 2 * Pow2(n - 1) % 0x1_0000_0000 == Pow2(n)
    ensures n == 32 ==> 2 * Pow2(n - 1) % 0x1_0000_0000 == 0
  {
    Pow31();
    if n < 31 {
      PowMonotonic(n, 31);
    }
  }

  /** The loop for processors without the instruction: the least power of two not below `x`. */
  method ILog2Fallback(x: nat) returns (ret: nat)
    requires x <= 0x8000_0000
    ensures x <= Pow2(ret)
    ensures forall r: nat :: r < ret ==> Pow2(r) < x
  {
    ret := 0;
    var pow := 1;
    Pow31();
    while pow < x
      invariant ret < 32 && pow == Pow2(ret)
      invariant forall r: nat :: r < ret ==> Pow2(r) < x
      decreases 32 - ret
    {
      PowAfterIs(ret);
      PowAfterIs(ret + 1);
      ret := ret + 1;
      pow := 2 * pow % 0x1_0000_0000;
    }
  }

  /** The loop ends exactly for `x` up to 2^31: above, `pow` wraps to zero before it reaches `x`. */
  lemma FallbackEndsIff(x: nat)
    ensures (exists n: nat :: x <= PowAfter(n)) <==> x <= 0x8000_0000
  {
    Pow31();
    PowAfterIs(31);
    if exists n: nat :: x <= PowAfter(n) {
      var n: nat :| x <= PowAfter(n);
      PowAfterIs(n);
      if n < 31 {
        PowMonotonic(n, 31);
      }
    }
  }

  /** The two forms of ilog2 agree exactly on powers of two; elsewhere the fallback is one greater. */
  lemma FallbackAgainstBitScan(x: nat, ret: nat)
    requires 0 < x && x <= Pow2(ret)
    requires forall r: nat :: r < ret ==> Pow2(r) < x
    ensures ret == BitScan(x) <==> x == Pow2(BitScan(x))
    ensures x != Pow2(BitScan(x)) ==> ret == BitScan(x) + 1
  {
    var lg := BitScan(x);
    assert !(Pow2(lg + 1) < x);
    if ret < lg {
      PowMonotonic(ret, lg);
    }
  }
}
