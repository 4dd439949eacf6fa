/** Which sizes keep the scrambled list in its buffer when the extra bit is in use. */
module ExtrabitSizes {
  import opened Bits
  import opened Lfsr
  import opened LongList
  import opened LongListWalk

  /** Some element below `n`, other than the root's, has its slot from `lo` on but before `hi`. */
  predicate SlotWithin(lo: int, hi: int, n: nat, stride: nat)
    requires stride > 0
  {
    var e := if lo <= stride then 1 else (lo + stride - 1) / stride;
    e < n && Slot(e, stride) < hi
  }

  lemma SlotWithinIff(lo: int, hi: int, n: nat, stride: nat)
    requires stride > 0
    ensures SlotWithin(lo, hi, n, stride) <==> exists e: nat :: 0 < e < n && lo <= Slot(e, stride) < hi
  {
    hide Slot;
    var first := if lo <= stride then 1 else (lo + stride - 1) / stride;
    FirstSlot(lo, stride);
    if SlotWithin(lo, hi, n, stride) {
      assert 0 < first < n && lo <= Slot(first, stride) < hi;
    }
    if e: nat :| 0 < e < n && lo <= Slot(e, stride) < hi {
      if e < first {
        if e < first - 1 {
          SlotsApart(e, first - 1, stride);
        }
        assert false;
      } else if first < e {
        SlotsApart(first, e, stride);
      }
    }
  }

  /** The first slot from `lo` on, not counting the root's. */
  lemma FirstSlot(lo: int, stride: nat)
    requires stride > 0
    ensures var first := if lo <= stride then 1 else (lo + stride - 1) / stride;
            first > 0 && Slot(first, stride) >= lo && (first > 1 ==> Slot(first - 1, stride) < lo)
  {
    hide Slot;
    SlotStep(0, stride);
    if lo > stride {
      var x := lo + stride - 1;
      SlotOfQuotient(x, stride);
      assert x / stride >= 1 by {
        if x / stride == 0 {
          assert false;
        }
      }
      SlotStep(x / stride - 1, stride);
    }
  }

  /** Block, half and rest of an offset: the flip changes the half. */
  lemma Halves(x: nat) returns (block: nat, half: nat, rest: nat)
    ensures half < 2 && rest < 16384 && x == 32768 * block + 16384 * half + rest
    ensures Flip(x) == 32768 * block + 16384 * (1 - half) + rest
    ensures (x % 8 == 0 ==> rest % 8 == 0) && (x % 16 == 0 ==> rest % 16 == 0)
  {
    var q := x / 16384;
    block, half, rest := q / 2, q % 2, x % 16384;
    RestMultiple(x, q, rest);
  }

  lemma RestMultiple(x: nat, q: nat, rest: nat)
    requires x == 16384 * q + rest
    ensures (x % 8 == 0 ==> rest % 8 == 0) && (x % 16 == 0 ==> rest % 16 == 0)
  {
    if x % 8 == 0 {
      assert rest == 8 * (x / 8 - 2048 * q);
    }
    if x % 16 == 0 {
      assert rest == 16 * (x / 16 - 1024 * q);
    }
  }

  /** The extra bit moves a slot past the end exactly from the lower half of a 32K block, and from no
      further than 16400 bytes before the end: out of the last, incomplete block, or the one before it. */
  lemma FlipOverruns(x: nat, bytesize: nat)
    requires x % 8 == 0 && x + 16 <= bytesize
    ensures var last := bytesize - bytesize % 32768;
            Flip(x) + 16 > bytesize <==>
            || bytesize - 16399 <= x < last - 16384
            || (last <= x && bytesize - 16399 <= x < last + 16384)
  {
    hide Flip;
    var block, half, rest := Halves(x);
    var eighths, blocks, tail := rest / 8, bytesize / 32768, bytesize % 32768;
    assert rest == 8 * eighths && bytesize == 32768 * blocks + tail;
    OverrunsDigits(block, half, eighths, blocks, tail);
  }

  lemma OverrunsDigits(block: nat, half: nat, eighths: nat, blocks: nat, tail: nat)
    requires half < 2 && eighths < 2048 && tail < 32768
    requires 32768 * block + 16384 * half + 8 * eighths + 16 <= 32768 * blocks + tail
    ensures var x, last := 32768 * block + 16384 * half + 8 * eighths, 32768 * blocks;
            32768 * block + 16384 * (1 - half) + 8 * eighths + 16 > last + tail <==>
            || last + tail - 16399 <= x < last - 16384
            || (last <= x && last + tail - 16399 <= x < last + 16384)
  {
    if block == blocks {
    } else if block == blocks - 1 {
    } else {
      assert block <= blocks - 2;
    }
  }

  /** None of the first `n` elements is moved past the end. */
  predicate Clear(bytesize: nat, stride: nat, n: nat)
    requires stride > 0
  {
    var last, near := bytesize - bytesize % 32768, bytesize - 16399;
    && !SlotWithin(near, last - 16384, n, stride)
    && !SlotWithin(if near < last then last else near, last + 16384, n, stride)
  }

  lemma ClearIff(bytesize: nat, stride: nat, n: nat)
    requires Strided(stride) && n <= Count(bytesize, stride)
    ensures Clear(bytesize, stride, n) <==> forall e: nat :: 0 < e < n ==> Placed(e, stride, true) + 16 <= bytesize
  {
    hide Slot, SlotWithin, Flip, Count;
    var last, near := bytesize - bytesize % 32768, bytesize - 16399;
    SlotWithinIff(near, last - 16384, n, stride);
    SlotWithinIff(if near < last then last else near, last + 16384, n, stride);
    CountWithin(bytesize, stride);
    forall e: nat | 0 < e < n
      ensures Placed(e, stride, true) + 16 > bytesize <==>
              || near <= Slot(e, stride) < last - 16384
              || (last <= Slot(e, stride) && near <= Slot(e, stride) < last + 16384) {
      SlotOfEights(e, stride);
      SlotsApart(e, Count(bytesize, stride), stride);
      FlipOverruns(Slot(e, stride), bytesize);
    }
  }

  /** The elements in whole groups of 256; one more element makes no difference. */
  function Whole(n: nat): (whole: nat)
    ensures whole <= n && whole % 256 <= 1 && (whole < n ==> whole % 256 == 0 && n < whole + 256)
  {
    if n % 256 <= 1 then n else n - n % 256
  }

  /** The sizes on which the scrambled order with the extra bit stays in the buffer: two slots to look at
      for the whole groups, and the elements of an incomplete last group one by one. */
  predicate ExtrabitFits(bytesize: nat, stride: nat)
    requires stride > 0
  {
    var n := Count(bytesize, stride);
    && bytesize >= 16
    && Clear(bytesize, stride, Whole(n))
    && (forall low: nat :: low < n - Whole(n) && 0 < Whole(n) + low ==>
          Placed(Whole(n) + Mixed(low), stride, true) + 16 <= bytesize)
  }

  lemma ExtrabitFitsIff(bytesize: nat, stride: nat)
    requires bytesize < 0x8000_0000 && Strided(stride)
    ensures Fits(bytesize, stride, false, true) <==> ExtrabitFits(bytesize, stride)
  {
    hide Fits, Element, Mixed, Placed, Clear, Whole, Count;
    var n := Count(bytesize, stride);
    CountWithin(bytesize, stride);
    ScrambledFits(bytesize, stride, true);
    WholeGroups(bytesize, stride, Whole(n));
    forall low: nat | low < n - Whole(n) ensures Element(Whole(n) + low, false) == Whole(n) + Mixed(low) {
      ElementInGroup(Whole(n), low);
    }
    if ExtrabitFits(bytesize, stride) {
      forall i: nat | Whole(n) <= i < n && 0 < i ensures Placed(Element(i, false), stride, true) + 16 <= bytesize {
        var low: nat := i - Whole(n);
        assert Element(Whole(n) + low, false) == Whole(n) + Mixed(low);
      }
    }
  }

  /** The first steps up to a whole number of groups come to just the elements below it. */
  lemma WholeGroups(bytesize: nat, stride: nat, whole: nat)
    requires bytesize < 0x8000_0000 && Strided(stride) && whole <= Count(bytesize, stride) && whole % 256 <= 1
    ensures Clear(bytesize, stride, whole) <==>
            forall i: nat :: 0 < i < whole ==> Placed(Element(i, false), stride, true) + 16 <= bytesize
  {
    hide Element, Mixed, Placed, Clear, Count;
    CountWithin(bytesize, stride);
    ClearIff(bytesize, stride, whole);
    ElementZero(false);
    if Clear(bytesize, stride, whole) {
      forall i: nat | 0 < i < whole ensures Placed(Element(i, false), stride, true) + 16 <= bytesize {
        ElementAtMost(i, whole);
        ElementInjective(0, i, false);
      }
    } else {
      var e: nat :| 0 < e < whole && !(Placed(e, stride, true) + 16 <= bytesize);
      StepBelow(whole, e);
      assert Element(StepOf(e), false) == e;
    }
  }

  lemma SumOfBlocks(x: nat, y: nat)
    requires x % 32768 == 0 && y % 32768 == 0
    ensures (x + y) % 32768 == 0
  {
    assert x + y == 32768 * (x / 32768 + y / 32768);
  }

  lemma {:induction false} SlotOfBlocks(e: nat, stride: nat)
    requires stride % 32768 == 0
    ensures Slot(e, stride) % 32768 == 0
  {
    hide Slot;
    SlotStep(0, stride);
    if e > 0 {
      SlotOfBlocks(e - 1, stride);
      SlotStep(e - 1, stride);
      SumOfBlocks(Slot(e - 1, stride), stride);
    }
  }

  /** Strides of whole 32K blocks. */
  lemma CoarseStrideFitsIff(bytesize: nat, stride: nat)
    requires bytesize < 0x8000_0000 && stride > 0 && stride % 32768 == 0
    ensures var n := Count(bytesize, stride);
            Fits(bytesize, stride, false, true) <==>
            bytesize >= 16 && (n % 256 <= 1 || (n % 256 == 255 && bytesize % stride >= 16400))
  {
    hide Fits, Element, Slot, Count;
    ScrambledFits(bytesize, stride, true);
    CountSlots(bytesize, stride);
    CoarseNodesFitIff(stride, Count(bytesize, stride), bytesize % stride);
  }

  lemma CoarseNodesFitIff(stride: nat, n: nat, rest: nat)
    requires n < 0x8000_0000 && stride % 32768 == 0 && rest < stride
    ensures (forall i: nat :: 0 < i < n ==> Placed(Element(i, false), stride, true) + 16 <= Slot(n, stride) + rest)
            <==> n % 256 <= 1 || (n % 256 == 255 && rest >= 16400)
  {
    hide Element, Slot;
    forall i: nat | 0 < i < n
      ensures Placed(Element(i, false), stride, true) == Slot(Element(i, false), stride) + 16384 {
      SlotOfBlocks(Element(i, false), stride);
    }
    assert stride >= 32768;
    if n % 256 <= 1 || (n % 256 == 255 && rest >= 16400) {
      forall i: nat | 0 < i < n ensures Slot(Element(i, false), stride) + 16400 <= Slot(n, stride) + rest {
        ElementAtMost(i, n);
        if Element(i, false) < n {
          SlotsApart(Element(i, false), n, stride);
        }
      }
    } else {
      var i := Stray(n);
      SlotStep(n, stride);
      if Element(i, false) > n + 1 {
        SlotsApart(n + 1, Element(i, false), stride);
      }
      assert !(Placed(Element(i, false), stride, true) + 16 <= Slot(n, stride) + rest);
    }
  }

  /** The associativity measurements use an 80 MiB buffer. The strides of 32 and 64 KiB keep the list in
      it; those of 128 and 256 KiB do not. */
  lemma AssocStrides()
    ensures Fits(80 * 1024 * 1024, 32 * 1024, false, true) && Fits(80 * 1024 * 1024, 64 * 1024, false, true)
    ensures !Fits(80 * 1024 * 1024, 128 * 1024, false, true) && !Fits(80 * 1024 * 1024, 256 * 1024, false, true)
  {
    hide Fits;
    CoarseStrideFitsIff(80 * 1024 * 1024, 32 * 1024);
    CoarseStrideFitsIff(80 * 1024 * 1024, 64 * 1024);
    CoarseStrideFitsIff(80 * 1024 * 1024, 128 * 1024);
    CoarseStrideFitsIff(80 * 1024 * 1024, 256 * 1024);
  }

  /** A whole group does not fit a page: the extra bit alone is more than the page holds. */
  lemma PageOverruns()
    ensures !Fits(4096, 16, false, true)
  {
    hide Fits;
    ExtrabitFitsIff(4096, 16);
  }

  /** Whole groups in whole 32K blocks always fit, when the stride is a multiple of 16. */
  lemma WholeBlocksFit(bytesize: nat, stride: nat)
    requires 16 <= stride <= bytesize < 0x8000_0000 && stride % 16 == 0
    requires Count(bytesize, stride) % 256 <= 1
    requires Slot(Count(bytesize, stride), stride) % 32768 == 0
    ensures Fits(bytesize, stride, false, true)
  {
    hide Fits, Element, Placed, Slot, Count;
    var n := Count(bytesize, stride);
    CountWithin(bytesize, stride);
    ScrambledFits(bytesize, stride, true);
    forall i: nat | 0 < i < n ensures Placed(Element(i, false), stride, true) + 16 <= bytesize {
      ElementAtMost(i, n);
      FlippedInside(Element(i, false), n, stride);
    }
  }

  lemma FlippedInside(e: nat, n: nat, stride: nat)
    requires e < n && stride % 16 == 0 && stride > 0 && Slot(n, stride) % 32768 == 0
    ensures Placed(e, stride, true) + 16 <= Slot(n, stride)
  {
    hide Slot, Flip;
    SlotOfSixteens(e, stride);
    SlotsApart(e, n, stride);
    FlipInside(Slot(e, stride), Slot(n, stride));
  }

  lemma SumOfSixteens(x: nat, y: nat)
    requires x % 16 == 0 && y % 16 == 0
    ensures (x + y) % 16 == 0
  {
    assert x + y == 16 * (x / 16 + y / 16);
  }

  lemma {:induction false} SlotOfSixteens(e: nat, stride: nat)
    requires stride % 16 == 0
    ensures Slot(e, stride) % 16 == 0
  {
    hide Slot;
    SlotStep(0, stride);
    if e > 0 {
      SlotOfSixteens(e - 1, stride);
      SlotStep(e - 1, stride);
      SumOfSixteens(Slot(e - 1, stride), stride);
    }
  }

  /** The flip stays inside its 32K block. */
  lemma FlipInside(x: nat, size: nat)
    requires x < size && size % 32768 == 0 && x % 16 == 0
    ensures Flip(x) + 16 <= size
  {
    hide Flip;
    var block, half, rest := Halves(x);
    var blocks := size / 32768;
    assert size == 32768 * blocks && block < blocks;
  }
}
