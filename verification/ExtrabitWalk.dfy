/** How many nodes the scrambled list has when the extra bit is in use. Two kinds of overlap make it shorter
    than its comment promises: a node at the root's offset, and a node whose `data` lies on the `next` of an
    earlier one. Each has a stride that it needs, and no stride has both. */
module ExtrabitWalk {
  import opened Bits
  import opened Lfsr
  import opened Pigeonhole
  import opened LongList
  import opened LongListWalk
  import opened ExtrabitSizes

  /** The element whose slot the extra bit turns into the root's, if the stride has one at 2^14. */
  function RootElement(stride: nat): (e: nat)
    requires stride > 0
    ensures e <= 16384
  {
    16384 / stride
  }

  /** The element whose slot is 32760 bytes after that of element 4096, if the stride has one there. The
      extra bit puts its node eight bytes before node 4096, on whose `next` its `data` then lies. */
  function NearElement(stride: nat): (e: nat)
    requires stride > 0
    ensures e <= 4096 + 32760
  {
    4096 + 32760 / stride
  }

  /** There is a slot at 2^14, and the list comes to it. */
  ghost predicate RootShared(n: nat, stride: nat)
    requires stride > 0
  {
    16384 % stride == 0 && StepOf(RootElement(stride)) < n
  }

  /** There is a slot 32760 bytes after that of element 4096, and the list comes to it. */
  ghost predicate NextCleared(n: nat, stride: nat)
    requires stride > 0
  {
    32760 % stride == 0 && StepOf(NearElement(stride)) < n
  }

  /** For whole groups, or one element more, both can be told from the counts. */
  lemma SharedIff(n: nat, stride: nat)
    requires stride > 0 && n < 0x8000_0000 && n % 256 <= 1
    ensures RootShared(n, stride) <==> 16384 % stride == 0 && RootElement(stride) < n
    ensures NextCleared(n, stride) <==> 32760 % stride == 0 && NearElement(stride) < n
  {
    hide RootElement, NearElement;
    ListedIff(n, RootElement(stride));
    ListedIff(n, NearElement(stride));
  }

  lemma ListedIff(n: nat, e: nat)
    requires n < 0x8000_0000 && n % 256 <= 1 && e < 0x8000_0000
    ensures StepOf(e) < n <==> e < n
  {
    hide Element, Mixed;
    if e < n {
      StepBelow(n, e);
    }
    if StepOf(e) < n {
      ElementAtMost(StepOf(e), n);
    }
  }

  /** With the extra bit, the step whose node overwrites the root is the one that comes to slot 2^14. */
  lemma ExtrabitEntry(bytesize: nat, stride: nat)
    requires bytesize < 0x8000_0000 && Strided(stride)
    ensures var n := Count(bytesize, stride);
            Entry(Offsets(bytesize, stride, false, true)) ==
            if RootShared(n, stride) then StepOf(RootElement(stride)) else 0
  {
    hide Offsets, Slot, Element, Count;
    var n := Count(bytesize, stride);
    var offs := Offsets(bytesize, stride, false, true);
    var t := Entry(offs);
    OffsetsCount(bytesize, stride, false, true);
    if t > 0 {
      OffsetIs(bytesize, stride, false, true, t);
      ExactQuotient(Element(t, false), stride);
      StepOfElement(t);
    } else if RootShared(n, stride) {
      SlotOfQuotient(16384, stride);
      ElementZero(false);
      SlotStep(0, stride);
      OffsetIs(bytesize, stride, false, true, StepOf(RootElement(stride)));
    }
  }

  ghost predicate AtBlock(x: nat, at: nat) {
    exists block: nat :: x == 32768 * block + at
  }

  /** Flipped offsets eight bytes apart come from neighbours, or from either side of a 32K boundary. */
  lemma FlipMeets(x: nat, y: nat)
    requires x % 8 == 0 && y % 8 == 0 && Flip(x) + 8 == Flip(y)
    ensures || y == x + 8
            || (x == y + 32760 && AtBlock(y, 0))
            || (y == x + 32776 && AtBlock(y, 16384))
  {
    hide Flip;
    var b, h, r := ExtrabitSizes.Halves(x);
    var c, k, s := ExtrabitSizes.Halves(y);
    var p, q := r / 8, s / 8;
    assert r == 8 * p && s == 8 * q;
    NextEighth(2 * b + (1 - h), p, 2 * c + (1 - k), q);
    if q == 0 && h == 1 {
      assert b == c && y == 32768 * c;
    } else if q == 0 {
      assert c == b + 1 && y == 32768 * c + 16384;
    }
  }

  /** Adding one in the lower digit of two. */
  lemma NextEighth(b: nat, p: nat, c: nat, q: nat)
    requires p < 2048 && q < 2048 && 16384 * b + 8 * p + 8 == 16384 * c + 8 * q
    ensures if q == 0 then p == 2047 && c == b + 1 else q == p + 1 && c == b
  {
  }

  lemma {:induction false} SlotSum(a: nat, b: nat, stride: nat)
    ensures Slot(a + b, stride) == Slot(a, stride) + Slot(b, stride)
  {
    hide Slot;
    SlotStep(0, stride);
    if b > 0 {
      SlotSum(a, b - 1, stride);
      SlotStep(b - 1, stride);
      SlotStep(a + b - 1, stride);
    }
  }

  lemma {:induction false} SlotParity(e: nat, s: nat)
    ensures Slot(e, s) % 2 == if s % 2 == 0 then 0 else e % 2
  {
    hide Slot;
    SlotStep(0, s);
    if e > 0 {
      SlotParity(e - 1, s);
      SlotStep(e - 1, s);
    }
  }

  lemma {:induction false} SlotOfEight(e: nat, s: nat)
    ensures Slot(e, 8 * s) == 8 * Slot(e, s)
  {
    hide Slot;
    SlotStep(0, s);
    SlotStep(0, 8 * s);
    if e > 0 {
      SlotOfEight(e - 1, s);
      SlotStep(e - 1, s);
      SlotStep(e - 1, 8 * s);
    }
  }

  /** An odd factor takes no power of two away from the other one. */
  lemma {:induction false} OddFactor(s: nat, e: nat, k: nat, c: nat) returns (q: nat)
    requires s % 2 == 1 && Slot(e, s) == Shifted(c, k)
    ensures e == Shifted(q, k)
  {
    hide Slot;
    if k == 0 {
      q := e;
    } else {
      SlotParity(e, s);
      SlotSum(e / 2, e / 2, s);
      q := OddFactor(s, e / 2, k - 1, c);
    }
  }

  /** A slot at a power of two, a known odd number of eights away from another slot. */
  lemma SlotAtPower(e: nat, d: nat, stride: nat, odd: nat, k: nat, c: nat) returns (q: nat)
    requires stride % 8 == 0 && Slot(d, stride) == 8 * odd && odd % 2 == 1
    requires Slot(e, stride) == 8 * Shifted(c, k)
    ensures e == Shifted(q, k)
  {
    hide Slot, Shifted;
    var s := stride / 8;
    SlotOfEight(d, s);
    SlotOfEight(e, s);
    SlotParity(d, s);
    q := OddFactor(s, e, k, c);
  }

  lemma Powers(x: nat)
    ensures Shifted(x, 8) == 256 * x && Shifted(x, 12) == 4096 * x
  {
    hide Shifted;
    ShiftedIs(x);
    ShiftedFour(x, 8);
  }

  /** Of a pair at 32776 bytes' distance, the node that could clear the other is written before it. */
  lemma FarPair(i: nat, j: nat, stride: nat)
    requires i < 0x8000_0000 && j < 0x8000_0000 && stride % 8 == 0 && stride > 0
    requires Slot(Element(i, false), stride) == Slot(Element(j, false), stride) + 32776
    requires AtBlock(Slot(Element(i, false), stride), 16384)
    ensures j < i
  {
    hide Element, Slot, Shifted, Mixed;
    var a, b := Element(j, false), Element(i, false);
    var q: nat :| Slot(b, stride) == 32768 * q + 16384;
    SlotsOrdered(a, b, stride);
    SlotSum(a, b - a, stride);
    Powers(8 * (2 * q + 1));
    var g := SlotAtPower(b, b - a, stride, 4097, 8, 8 * (2 * q + 1));
    Powers(g);
    ElementIs(i);
    ElementIs(j);
    ElementOfGroup(b);
    StepOfElement(i);
    StepOfElement(b);
  }

  lemma SlotsOrdered(a: nat, b: nat, stride: nat)
    requires Slot(a, stride) < Slot(b, stride)
    ensures a < b
  {
    hide Slot;
    if b < a {
      SlotsApart(b, a, stride);
    }
  }

  /** A pair at 32760 bytes' distance: the earlier node is the first of its group, and no earlier than 4096. */
  lemma NearPair(i: nat, j: nat, stride: nat)
    requires 0 < i < 0x8000_0000 && j < 0x8000_0000 && stride % 8 == 0 && stride >= 16
    requires Slot(Element(j, false), stride) == Slot(Element(i, false), stride) + 32760
    requires AtBlock(Slot(Element(i, false), stride), 0)
    ensures i >= 4096 && NextCleared(j + 1, stride)
  {
    hide Element, Slot, NextCleared, AtBlock;
    ElementZero(false);
    ElementInjective(0, i, false);
    StepOfElement(i);
    StepOfElement(j);
    var g, d := NearElements(Element(j, false), Element(i, false), stride);
    GroupStart(g);
    NearListed(g, d, stride);
  }

  lemma GroupStart(g: nat)
    requires 4096 * g < 0x8000_0000
    ensures StepOf(4096 * g) == 4096 * g
  {
    hide Element;
    assert 4096 * g == 256 * (16 * g);
    ElementOfGroup(4096 * g);
    StepOfElement(4096 * g);
  }

  lemma NearElements(a: nat, b: nat, stride: nat) returns (g: nat, d: nat)
    requires b > 0 && stride % 8 == 0 && stride >= 16
    requires Slot(a, stride) == Slot(b, stride) + 32760
    requires AtBlock(Slot(b, stride), 0)
    ensures g > 0 && b == 4096 * g && a == b + d
    ensures 0 < d < 2048 && Slot(d, stride) == 32760
  {
    hide Slot, Shifted;
    var q: nat :| Slot(b, stride) == 32768 * q;
    SlotsOrdered(b, a, stride);
    d := a - b;
    SlotSum(b, d, stride);
    NearDistance(d, stride);
    Powers(q);
    g := SlotAtPower(b, d, stride, 4095, 12, q);
    Powers(g);
  }

  /** If the list comes to any such pair, it has come to the first. */
  lemma NearListed(g: nat, d: nat, stride: nat)
    requires g > 0 && 0 < d < 2048 && 4096 * g + d < 0x8000_0000 && stride > 0 && Slot(d, stride) == 32760
    ensures NextCleared(StepOf(4096 * g + d) + 1, stride)
  {
    hide Slot, Element;
    ExactQuotient(d, stride);
    if g > 1 {
      EarlierGroup(4096 + d, 4096 * g + d);
    }
  }

  lemma EarlierGroup(e: nat, f: nat)
    requires e + 256 <= f < 0x8000_0000
    ensures StepOf(e) < StepOf(f)
  {
    hide Element;
    assert e / 256 < f / 256;
  }

  lemma NearDistance(d: nat, stride: nat)
    requires stride >= 16 && Slot(d, stride) == 32760
    ensures 0 < d < 2048
  {
    hide Slot;
    SlotStep(0, stride);
    if d >= 2048 {
      SlotsOf2048(d, stride);
    }
  }

  lemma SlotsOf2048(d: nat, stride: nat)
    requires d >= 2048 && stride >= 16
    ensures Slot(d, stride) >= 32768
  {
    SlotSum(2048, d - 2048, stride);
  }

  /** A node is cleared only by one of the near pairs. */
  lemma ClearedBy(bytesize: nat, stride: nat, i: nat, j: nat)
    requires bytesize < 0x8000_0000 && Strided(stride)
    requires i < j < |Offsets(bytesize, stride, false, true)|
    requires var offs := Offsets(bytesize, stride, false, true); offs[j] + 8 == offs[i]
    ensures i >= 4096 && NextCleared(j + 1, stride)
  {
    hide Offsets, Element, Slot, Flip, NextCleared, Count, AtBlock;
    OffsetsCount(bytesize, stride, false, true);
    OffsetIs(bytesize, stride, false, true, i);
    OffsetIs(bytesize, stride, false, true, j);
    var a, b := Element(j, false), Element(i, false);
    SlotOfEights(a, stride);
    SlotOfEights(b, stride);
    FlipMeets(Slot(a, stride), Slot(b, stride));
    if Slot(b, stride) == Slot(a, stride) + 8 {
      QuotientUnique(b, a, 8, stride);
    } else if Slot(b, stride) == Slot(a, stride) + 32776 {
      FarPair(i, j, stride);
    } else {
      NearPair(i, j, stride);
    }
  }

  lemma MoreListed(n: nat, m: nat, stride: nat)
    requires stride > 0 && n <= m && NextCleared(n, stride)
    ensures NextCleared(m, stride)
  {
  }

  /** Node 4096 is cleared whenever the list comes to the other one. */
  lemma Clears(bytesize: nat, stride: nat)
    requires bytesize < 0x8000_0000 && Strided(stride) && NextCleared(Count(bytesize, stride), stride)
    ensures var offs := Offsets(bytesize, stride, false, true);
            4097 < |offs| && Cleared(offs, 4096, |offs|)
  {
    hide Offsets, Element, Slot, Mixed, Count;
    var offs := Offsets(bytesize, stride, false, true);
    var d := 32760 / stride;
    var j := StepOf(NearElement(stride));
    assert NearElement(stride) == 4096 + d;
    OffsetsCount(bytesize, stride, false, true);
    SlotOfQuotient(32760, stride);
    NearDistance(d, stride);
    SlotSum(4096, d, stride);
    ElementOfGroup(4096);
    assert j >= 4096 && j != 4096;
    OffsetIs(bytesize, stride, false, true, 4096);
    OffsetIs(bytesize, stride, false, true, j);
    FlipNear(stride);
  }

  lemma FlipNear(stride: nat)
    requires stride % 8 == 0
    ensures Flip(Slot(4096, stride) + 32760) + 8 == Flip(Slot(4096, stride))
  {
    var s := stride / 8;
    var x := Slot(4096, stride);
    assert x == 32768 * s;
    assert x / 16384 == 2 * s && (x + 32760) / 16384 == 2 * s + 1;
  }

  /** No stride has both overlaps. */
  lemma NotBoth(n: nat, stride: nat)
    requires stride >= 16
    ensures !(RootShared(n, stride) && NextCleared(n, stride))
  {
    hide Slot;
    if 16384 % stride == 0 && 32760 % stride == 0 {
      var e, d := 16384 / stride, 32760 / stride;
      SlotOfQuotient(16384, stride);
      SlotOfQuotient(32760, stride);
      SlotSum(e, e, stride);
      QuotientUnique(e + e, d, 8, stride);
    }
  }

  /** The walk ends at node 4096 when its `next` is cleared, and otherwise at the last node. */
  lemma ExtrabitCut(bytesize: nat, stride: nat)
    requires bytesize < 0x8000_0000 && Strided(stride)
    ensures var offs := Offsets(bytesize, stride, false, true);
            Cut(offs, Entry(offs)) == if NextCleared(Count(bytesize, stride), stride) then 4096 else |offs| - 1
  {
    hide Offsets, Entry, Cut, NextCleared, RootShared, Count;
    var offs := Offsets(bytesize, stride, false, true);
    var n := Count(bytesize, stride);
    OffsetsCount(bytesize, stride, false, true);
    forall i: nat | i < |offs| && Cleared(offs, i, |offs|) ensures i >= 4096 && NextCleared(n, stride) {
      var j :| i < j < |offs| && offs[j] + 8 == offs[i];
      ClearedBy(bytesize, stride, i, j);
      MoreListed(j + 1, n, stride);
    }
    if NextCleared(n, stride) {
      NotBoth(n, stride);
      ExtrabitEntry(bytesize, stride);
      Clears(bytesize, stride);
    }
  }

  /** The number of nodes a walk meets, of the `n` that the comment promises. */
  ghost function MetCount(n: nat, stride: nat): (met: nat)
    requires stride > 0
  {
    if RootShared(n, stride) then n - StepOf(RootElement(stride))
    else if NextCleared(n, stride) then 4097
    else n
  }

  /** Every list with the extra bit, for every stride and every size that fits: a walk from the root ends in
      NULL without meeting a node twice, and meets as many nodes as the comment promises exactly when no node
      is at the root's offset and none clears the `next` of node 4096. */
  lemma ExtrabitLength(words: seq<Word>, bytesize: nat, stride: nat)
    requires stride <= bytesize < 0x8000_0000 && Strided(stride) && |words| == bytesize / 8
    requires Fits(bytesize, stride, false, true)
    ensures var offs := Offsets(bytesize, stride, false, true);
            var n := Count(bytesize, stride);
            && AllHeld(|words|, offs)
            && Walks(Built(words, offs, |offs|), At(0), Met(offs)) && Distinct(Met(offs))
            && |Met(offs)| == MetCount(n, stride)
            && (|Met(offs)| == n <==> !RootShared(n, stride) && !NextCleared(n, stride))
  {
    hide Offsets, Fits, Entry, Cut, AllHeld, Walks, Distinct;
    var offs := Offsets(bytesize, stride, false, true);
    ListWalk(words, bytesize, stride, false, true);
    OffsetsCount(bytesize, stride, false, true);
    ExtrabitEntry(bytesize, stride);
    ExtrabitCut(bytesize, stride);
    NotBoth(Count(bytesize, stride), stride);
    if RootShared(Count(bytesize, stride), stride) {
      RootStepPositive(stride);
    }
    if NextCleared(Count(bytesize, stride), stride) {
      Clears(bytesize, stride);
    }
  }

  lemma RootStepPositive(stride: nat)
    requires stride > 0 && 16384 % stride == 0
    ensures StepOf(RootElement(stride)) > 0
  {
    hide Slot, Element;
    SlotOfQuotient(16384, stride);
    SlotStep(0, stride);
    ElementZero(false);
  }

  /** With a stride of 24, which the comment allows, a list of 8192 elements ends after 4097. */
  lemma StrideOf24(words: seq<Word>)
    requires |words| == 196616 / 8
    ensures Fits(196616, 24, false, true) && Count(196616, 24) == 8192
    ensures |Met(Offsets(196616, 24, false, true))| == 4097
  {
    hide Fits, Offsets, Met;
    ExtrabitFitsIff(196616, 24);
    ExtrabitLength(words, 196616, 24);
    SharedIff(8192, 24);
  }
}
