/** The spinlock, run by one thread while the others stand still. LockMachine has the interleavings. */
module Spinlocks {
  import opened Logarithms

  newtype int32 = x: int | -0x8000_0000 <= x < 0x8000_0000
  newtype uint32 = x: int | 0 <= x < 0x1_0000_0000

  const SAFETY_LIMIT: int32 := 100_000_000
  const BUCKETS := 32

  /** `++` on an unsigned 32-bit counter. */
  function Increment(x: uint32): uint32 {
    if x == 0xffff_ffff then 0 else x + 1
  }

  /** A counter after `n` increments. */
  function Plus(x: uint32, n: nat): uint32 {
    ((x as int + n) % 0x1_0000_0000) as uint32
  }

  lemma PlusOne(x: uint32, n: nat)
    ensures Increment(Plus(x, n)) == Plus(x, n + 1) && Plus(x, 0) == x
  {
  }

  class LockAndHist {
    var lock: bv8
    const hist: array<uint32>

    constructor ()
      ensures lock == 0 && fresh(hist) && hist.Length == BUCKETS
      ensures forall i :: 0 <= i < BUCKETS ==> hist[i] == 0
    {
      lock := 0;
      hist := new uint32[BUCKETS](_ => 0);
    }

    /** __atomic_test_and_set. */
    method TestAndSet() returns (oldValue: bv8)
      modifies this`lock
      ensures oldValue == old(lock) && lock == 1
    {
      oldValue := lock;
      lock := 1;
    }

    /** With nobody to release it, a taken lock is polled once more than the limit and then grabbed;
        `safetyCount` stays an int32. */
    method AcquireSpinlock() returns (usec: int32, ghost polls: nat)
      modifies this`lock
      ensures usec == 0 && lock == 1
      ensures polls == if old(lock) == 0 then 0 else 100_000_001
    {
      var safetyCount: int32 := 0;
      var oldValue: bv8 := 1;
      polls := 0;
      while oldValue != 0
        invariant oldValue != 0 ==> safetyCount == 0 && polls == 0 && lock == old(lock)
        invariant oldValue == 0 ==> lock == 1 && polls == if old(lock) == 0 then 0 else SAFETY_LIMIT as nat + 1
        decreases oldValue
      {
        while lock != 0
          invariant 0 <= safetyCount <= SAFETY_LIMIT + 1 && polls == safetyCount as nat
          invariant lock != 0 ==> lock == old(lock) && safetyCount <= SAFETY_LIMIT
          invariant lock == 0 ==> polls == if old(lock) == 0 then 0 else SAFETY_LIMIT as nat + 1
          decreases SAFETY_LIMIT + 1 - safetyCount
        {
          safetyCount := safetyCount + 1;
          polls := polls + 1;
          if safetyCount > SAFETY_LIMIT {
            lock := 0;
          }
        }
        oldValue := TestAndSet();
      }
      usec := 0;
    }

    method ReleaseSpinlock()
      modifies this`lock
      ensures lock == 0
    {
      lock := 0;
    }

    /** The guard's constructor. */
    method Enter()
      requires hist.Length == BUCKETS
      modifies this`lock, hist
      ensures lock == 1
      ensures hist[..] == old(hist[..])[0 := Increment(old(hist[0]))]
    {
      var usec, polls := AcquireSpinlock();
      var bucket := FloorLg(usec as bv32);
      hist[bucket] := Increment(hist[bucket]);
    }

    /** The guard's destructor. */
    method Exit()
      modifies this`lock
      ensures lock == 0
    {
      ReleaseSpinlock();
    }
  }
}
