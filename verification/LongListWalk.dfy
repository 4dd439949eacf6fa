/** What a walk over the list that MakeLongList builds meets, and which sizes keep it in the buffer. */
module LongListWalk {
  import opened Bits
  import opened Lfsr
  import opened Pigeonhole
  import opened LongList

  lemma ElementInjective(i: nat, j: nat, makelinear: bool)
    requires i < j < 0x8000_0000
    ensures Element(i, makelinear) != Element(j, makelinear)
  {
    hide Element, Mixed;
    if makelinear {
      LinearElement(i);
      LinearElement(j);
    } else {
      ElementIs(i);
      ElementIs(j);
      if i / 256 == j / 256 {
        MixedInjective(i % 256, j % 256);
      }
    }
  }

  lemma LinearElement(i: nat)
    ensures Element(i, true) == i
  {
  }

  /** Element `i` is the root's only for the root. */
  lemma ElementZero(makelinear: bool)
    ensures Element(0, makelinear) == 0
  {
    hide Or, And;
    if !makelinear {
      ElementIs(0);
    }
  }

  /** The first node of a group is at the group's first element. */
  lemma ElementOfGroup(i: nat)
    requires i < 0x8000_0000 && i % 256 == 0
    ensures Element(i, false) == i
  {
    hide Element;
    ElementIs(i);
  }

  lemma ElementInGroup(whole: nat, low: nat)
    requires whole % 256 == 0 && low < 256 && whole + low < 0x8000_0000
    ensures Element(whole + low, false) == whole + Mixed(low)
  {
    hide Element, Mixed;
    ElementIs(whole + low);
  }

  /** The scrambled order inside a group: its first element, its last, and then each time the shift of the low
      byte before. */
  lemma NextInGroup(group: nat, low: nat)
    requires low < 255 && 256 * group + 255 < 0x8000_0000
    ensures Element(256 * group, false) == 256 * group && Element(256 * group + 1, false) == 256 * group + 255
    ensures 0 < low ==>
              && 0 <= Element(256 * group + low, false) - 256 * group < 256
              && Element(256 * group + low + 1, false) ==
                 256 * group + Shift((Element(256 * group + low, false) - 256 * group) as bv8) as nat
  {
    hide Element, Mixed, Shift;
    ElementInGroup(256 * group, 0);
    ElementInGroup(256 * group, 1);
    ElementInGroup(256 * group, low);
    ElementInGroup(256 * group, low + 1);
    FirstMixed();
    MixedZero();
    if 0 < low {
      MixedNext(low);
    }
  }

  lemma MixedOnto(low: nat)
    requires low < 256
    ensures exists i: nat :: i < 256 && Mixed(i) == low
  {
    hide Mixed;
    var lows: seq<nat> := seq(256, i requires 0 <= i < 256 => Mixed(i));
    forall i: nat, j: nat | i < j < 256 ensures lows[i] != lows[j] {
      MixedInjective(i, j);
    }
    Onto(lows);
    assert low in lows;
  }

  /** The scramble is a bijection that keeps every group of 256: each element comes from exactly one
      index, which is in the element's own group. */
  lemma ScrambleBijection(e: nat)
    requires e < 0x8000_0000
    ensures exists i: nat :: i < 0x8000_0000 && i / 256 == e / 256 && Element(i, false) == e
    ensures forall i: nat, j: nat | i < 0x8000_0000 && j < 0x8000_0000 ::
              Element(i, false) == Element(j, false) == e ==> i == j
  {
    hide Element, Mixed;
    MixedOnto(e % 256);
    var low: nat :| low < 256 && Mixed(low) == e % 256;
    var source := 256 * (e / 256) + low;
    ElementIs(source);
    assert source / 256 == e / 256 && Element(source, false) == e;
    forall i: nat, j: nat | i < 0x8000_0000 && j < 0x8000_0000 && Element(i, false) == Element(j, false) == e
      ensures i == j {
      if i < j {
        ElementInjective(i, j, false);
      } else if j < i {
        ElementInjective(j, i, false);
      }
    }
  }

  /** The step at which the scrambled order comes to element `e`. */
  ghost function StepOf(e: nat): (i: nat)
    requires e < 0x8000_0000
    ensures i < 0x8000_0000 && i / 256 == e / 256 && Element(i, false) == e
  {
    ScrambleBijection(e);
    var i: nat :| i < 0x8000_0000 && i / 256 == e / 256 && Element(i, false) == e;
    i
  }

  lemma StepOfElement(i: nat)
    requires i < 0x8000_0000
    ensures Element(i, false) < 0x8000_0000 && StepOf(Element(i, false)) == i
  {
    hide Element;
    ElementIs(i);
    ScrambleBijection(Element(i, false));
  }

  /** The element that a list of `n` nodes lacks although it is below `n`: the last of a group one short. */
  predicate Lacks(n: nat, e: nat) {
    n % 256 == 255 && e == n - 255 + Mixed(255)
  }

  /** Below a whole number of groups, one past it or one short of it, each element comes in the first n steps. */
  lemma StepBelow(n: nat, e: nat)
    requires e < n < 0x8000_0000 && (n % 256 <= 1 || n % 256 == 255) && !Lacks(n, e)
    ensures StepOf(e) < n
  {
    hide Element, Mixed;
    var i := StepOf(e);
    ElementIs(i);
    if i >= n && n % 256 == 1 {
      ElementOfGroup(n - 1);
      StepOfElement(n - 1);
    }
  }

  lemma ElementAtMost(i: nat, n: nat)
    requires i < n < 0x8000_0000 && (n % 256 <= 1 || n % 256 == 255)
    ensures Element(i, false) < n || (n % 256 == 255 && Element(i, false) == n)
  {
    hide Element;
    ElementIs(i);
  }

  lemma SlotStep(e: nat, stride: nat)
    ensures Slot(0, stride) == 0
    ensures Slot(e + 1, stride) == Slot(e, stride) + stride
  {
  }

  lemma {:induction false} SlotsApart(a: nat, b: nat, stride: nat)
    requires a < b
    ensures Slot(a, stride) + stride <= Slot(b, stride)
  {
    hide Slot;
    SlotStep(b - 1, stride);
    if a < b - 1 {
      SlotsApart(a, b - 1, stride);
    }
  }

  lemma SumOfEights(x: nat, y: nat)
    requires x % 8 == 0 && y % 8 == 0
    ensures (x + y) % 8 == 0
  {
    assert x + y == 8 * (x / 8 + y / 8);
  }

  lemma {:induction false} SlotOfEights(e: nat, stride: nat)
    requires stride % 8 == 0
    ensures Slot(e, stride) % 8 == 0
  {
    hide Slot;
    SlotStep(0, stride);
    if e > 0 {
      SlotOfEights(e - 1, stride);
      SlotStep(e - 1, stride);
      SumOfEights(Slot(e - 1, stride), stride);
    }
  }

  lemma SlotOfQuotient(x: nat, stride: nat)
    requires stride > 0
    ensures x == Slot(x / stride, stride) + x % stride
  {
  }

  lemma {:induction false} SlotAtLeast(e: nat, stride: nat)
    requires stride > 0
    ensures e <= Slot(e, stride)
  {
    hide Slot;
    if e > 0 {
      SlotAtLeast(e - 1, stride);
      SlotStep(e - 1, stride);
    }
  }

  lemma ExactQuotient(e: nat, stride: nat)
    requires stride > 0
    ensures Slot(e, stride) / stride == e && Slot(e, stride) % stride == 0
  {
    hide Slot;
    var x := Slot(e, stride);
    SlotOfQuotient(x, stride);
    QuotientUnique(e, x / stride, x % stride, stride);
  }

  lemma QuotientUnique(e: nat, q: nat, r: nat, stride: nat)
    requires r < stride && Slot(e, stride) == Slot(q, stride) + r
    ensures e == q
  {
    hide Slot;
    if e < q {
      SlotsApart(e, q, stride);
    }
    if q < e {
      SlotsApart(q, e, stride);
    }
  }

  /** The number of elements the comment promises. */
  function Count(bytesize: nat, stride: nat): nat
    requires stride > 0
  {
    bytesize / stride
  }

  lemma CountSlots(bytesize: nat, stride: nat)
    requires stride > 0
    ensures bytesize == Slot(Count(bytesize, stride), stride) + bytesize % stride
    ensures Count(bytesize, stride) <= bytesize
  {
    hide Slot;
    SlotOfQuotient(bytesize, stride);
    SlotAtLeast(Count(bytesize, stride), stride);
  }

  lemma CountWithin(bytesize: nat, stride: nat)
    requires stride > 0
    ensures Slot(Count(bytesize, stride), stride) <= bytesize
    ensures Count(bytesize, stride) <= bytesize
  {
    hide Slot;
    CountSlots(bytesize, stride);
  }

  lemma OffsetsCount(bytesize: nat, stride: nat, makelinear: bool, useExtrabit: bool)
    requires stride > 0
    ensures |Offsets(bytesize, stride, makelinear, useExtrabit)| ==
            if Count(bytesize, stride) == 0 then 1 else Count(bytesize, stride)
    ensures Count(bytesize, stride) <= bytesize
  {
    CountSlots(bytesize, stride);
  }

  /** A node other than the root is at its element's slot, flipped when the extra bit is in use. */
  function Placed(e: nat, stride: nat, flipped: bool): nat {
    if flipped then Flip(Slot(e, stride)) else Slot(e, stride)
  }

  lemma OffsetIs(bytesize: nat, stride: nat, makelinear: bool, useExtrabit: bool, i: nat)
    requires stride > 0 && 0 < i < |Offsets(bytesize, stride, makelinear, useExtrabit)|
    ensures Offsets(bytesize, stride, makelinear, useExtrabit)[i] ==
            Placed(Element(i, makelinear), stride, useExtrabit && !makelinear)
  {
    hide Xor, Element, Slot, Offsets;
    OffsetsAt(bytesize, stride, makelinear, useExtrabit, i);
    XorNothing(Slot(Element(i, makelinear), stride));
    XorBit14(Slot(Element(i, makelinear), stride));
  }

  /** The offsets of the list, in plain numbers: as many as whole strides fit and at least one, the root's zero,
      and each other one its element times the stride, with bit 14 turned when the extra bit is on. In scrambled
      order the element is in the group of its index, at the table's entry. */
  lemma NodeOffsets(bytesize: nat, stride: nat, makelinear: bool, useExtrabit: bool, table: seq<nat>)
    requires bytesize < 0x8000_0000 && stride > 0 && IsTable(table)
    ensures var offs := Offsets(bytesize, stride, makelinear, useExtrabit);
            && |offs| == (if bytesize / stride == 0 then 1 else bytesize / stride)
            && offs[0] == 0
            && forall i: nat :: 0 < i < |offs| ==>
                 var x := (if makelinear then i else 256 * (i / 256) + table[i % 256]) * stride;
                 offs[i] == if makelinear || !useExtrabit then x
                            else if x / 16384 % 2 == 0 then x + 16384 else x - 16384
  {
    hide Offsets, Element, Mixed;
    var offs := Offsets(bytesize, stride, makelinear, useExtrabit);
    OffsetsCount(bytesize, stride, makelinear, useExtrabit);
    forall i: nat | 0 < i < |offs|
      ensures Element(i, makelinear) == if makelinear then i else 256 * (i / 256) + table[i % 256] {
      if makelinear {
        LinearElement(i);
      } else {
        ElementIs(i);
        TableIsMixed(table, i % 256);
      }
    }
    forall i: nat | 0 < i < |offs|
      ensures offs[i] == Placed(Element(i, makelinear), stride, useExtrabit && !makelinear) {
      OffsetIs(bytesize, stride, makelinear, useExtrabit, i);
    }
  }

  lemma FlipInjective(x: nat, y: nat)
    requires x != y
    ensures Flip(x) != Flip(y)
  {
  }

  lemma PlacedInjective(a: nat, b: nat, stride: nat, flipped: bool)
    requires a != b && stride > 0
    ensures Placed(a, stride, flipped) != Placed(b, stride, flipped)
  {
    hide Slot, Flip;
    if a < b {
      SlotsApart(a, b, stride);
    } else {
      SlotsApart(b, a, stride);
    }
    FlipInjective(Slot(a, stride), Slot(b, stride));
  }

  /** The node the walk enters the chain at: the one that overwrites the root, if there is one. */
  ghost function Entry(offs: seq<nat>): (first: nat)
    requires |offs| >= 1 && offs[0] == 0
    ensures first < |offs| && offs[first] == 0
    ensures first == 0 ==> forall t :: 1 <= t < |offs| ==> offs[t] != 0
  {
    if exists t :: 1 <= t < |offs| && offs[t] == 0
    then var t :| 1 <= t < |offs| && offs[t] == 0; t
    else 0
  }

  lemma OffsetsSeparate(bytesize: nat, stride: nat, makelinear: bool, useExtrabit: bool)
    requires bytesize < 0x8000_0000 && stride > 0
    ensures Separate(Offsets(bytesize, stride, makelinear, useExtrabit), 1)
  {
    hide Offsets, Placed, Element;
    var offs := Offsets(bytesize, stride, makelinear, useExtrabit);
    OffsetsCount(bytesize, stride, makelinear, useExtrabit);
    forall i: nat, j: nat | 1 <= i < j < |offs| ensures offs[i] != offs[j] {
      OffsetIs(bytesize, stride, makelinear, useExtrabit, i);
      OffsetIs(bytesize, stride, makelinear, useExtrabit, j);
      ElementInjective(i, j, makelinear);
      PlacedInjective(Element(i, makelinear), Element(j, makelinear), stride, useExtrabit && !makelinear);
    }
  }

  /** The nodes that a walk from the root meets, in order. */
  ghost function Met(offs: seq<nat>): (path: seq<nat>)
    requires |offs| >= 1 && offs[0] == 0
  {
    offs[Entry(offs)..Cut(offs, Entry(offs)) + 1]
  }

  /** For every stride and every size that fits, the walk over the built list ends in NULL without meeting
      a node twice. It enters at the last node to overwrite the root and ends at the first node whose
      pointer a later node clears, or at the last. */
  lemma ListWalk(words: seq<Word>, bytesize: nat, stride: nat, makelinear: bool, useExtrabit: bool)
    requires bytesize < 0x8000_0000 && |words| == bytesize / 8 && Strided(stride)
    requires Fits(bytesize, stride, makelinear, useExtrabit)
    ensures var offs := Offsets(bytesize, stride, makelinear, useExtrabit);
            && AllHeld(|words|, offs)
            && Walks(Built(words, offs, |offs|), At(0), Met(offs))
            && Distinct(Met(offs))
  {
    hide Offsets, Fits, AllHeld, Separate, Walks, Distinct, Met;
    FitsHeld(bytesize, stride, makelinear, useExtrabit);
    OffsetsSeparate(bytesize, stride, makelinear, useExtrabit);
    MetWalk(words, Offsets(bytesize, stride, makelinear, useExtrabit));
  }

  lemma MetWalk(words: seq<Word>, offs: seq<nat>)
    requires |offs| >= 1 && offs[0] == 0 && AllHeld(|words|, offs) && Separate(offs, 1)
    ensures Walks(Built(words, offs, |offs|), At(0), Met(offs)) && Distinct(Met(offs))
  {
    hide AllHeld, Walks, Built, Entry, Cut, Separate, Distinct;
    SeparateFromEntry(offs);
    BuiltWalks(words, offs, Entry(offs));
  }

  lemma SeparateFromEntry(offs: seq<nat>)
    requires |offs| >= 1 && offs[0] == 0 && Separate(offs, 1)
    ensures Separate(offs, Entry(offs)) && Distinct(Met(offs))
  {
    hide Entry, Cut;
    forall i, j | Entry(offs) <= i < j < |offs| ensures offs[i] != offs[j] {}
  }

  /** Without the extra bit nothing overlaps: the walk meets every node. */
  lemma PlainMet(bytesize: nat, stride: nat, makelinear: bool, useExtrabit: bool)
    requires bytesize < 0x8000_0000 && Strided(stride) && (makelinear || !useExtrabit)
    ensures var offs := Offsets(bytesize, stride, makelinear, useExtrabit); Met(offs) == offs
  {
    hide Offsets, Element, Slot;
    var offs := Offsets(bytesize, stride, makelinear, useExtrabit);
    OffsetsCount(bytesize, stride, makelinear, useExtrabit);
    forall i: nat, j: nat | i < j < |offs| ensures offs[j] != offs[i] && offs[j] + 8 != offs[i] {
      PlainApart(bytesize, stride, makelinear, useExtrabit, i, j);
    }
  }

  lemma PlainApart(bytesize: nat, stride: nat, makelinear: bool, useExtrabit: bool, i: nat, j: nat)
    requires bytesize < 0x8000_0000 && Strided(stride) && (makelinear || !useExtrabit)
    requires i < j < |Offsets(bytesize, stride, makelinear, useExtrabit)|
    ensures var offs := Offsets(bytesize, stride, makelinear, useExtrabit);
            offs[i] >= offs[j] + 16 || offs[j] >= offs[i] + 16
  {
    hide Offsets, Element, Slot;
    OffsetsCount(bytesize, stride, makelinear, useExtrabit);
    OffsetIs(bytesize, stride, makelinear, useExtrabit, j);
    if i == 0 {
      ElementZero(makelinear);
      SlotStep(0, stride);
    } else {
      OffsetIs(bytesize, stride, makelinear, useExtrabit, i);
    }
    ElementInjective(i, j, makelinear);
    var a, b := Element(i, makelinear), Element(j, makelinear);
    if a < b {
      SlotsApart(a, b, stride);
    } else {
      SlotsApart(b, a, stride);
    }
  }

  /** Scrambled, without the extra bit: the walk meets distinct slots, as many as the comment promises, and
      then NULL. They are slots 0, 1, 2 and so on, but that a group one short has slot n for one of them. */
  lemma ScrambledVisitsAll(words: seq<Word>, bytesize: nat, stride: nat)
    requires stride <= bytesize < 0x8000_0000 && Strided(stride) && |words| == bytesize / 8
    requires Fits(bytesize, stride, false, false)
    ensures var offs := Offsets(bytesize, stride, false, false);
            var n := Count(bytesize, stride);
            && AllHeld(|words|, offs) && |offs| == n
            && Walks(Built(words, offs, |offs|), At(0), offs)
            && Distinct(offs)
            && forall e: nat :: e < n && !Lacks(n, e) ==> Slot(e, stride) in offs
  {
    hide Offsets, Fits, Slot, Element, Mixed, Lacks;
    var offs := Offsets(bytesize, stride, false, false);
    var n := Count(bytesize, stride);
    ListWalk(words, bytesize, stride, false, false);
    PlainMet(bytesize, stride, false, false);
    OffsetsCount(bytesize, stride, false, false);
    ScrambledFitsIff(bytesize, stride);
    forall e: nat | e < n && !Lacks(n, e) ensures Slot(e, stride) in offs {
      StepBelow(n, e);
      var i := StepOf(e);
      if i == 0 {
        ElementZero(false);
        SlotStep(0, stride);
        assert offs[0] == 0;
      } else {
        OffsetIs(bytesize, stride, false, false, i);
      }
    }
  }

  /** In linear order the extra bit is off and the nodes are slots 0, 1, 2 and so on. */
  lemma LinearOrder(words: seq<Word>, bytesize: nat, stride: nat, useExtrabit: bool)
    requires stride <= bytesize < 0x8000_0000 && Strided(stride) && |words| == bytesize / 8
    ensures Fits(bytesize, stride, true, useExtrabit)
    ensures var offs := Offsets(bytesize, stride, true, useExtrabit);
            && AllHeld(|words|, offs) && |offs| == Count(bytesize, stride)
            && Walks(Built(words, offs, |offs|), At(0), offs)
            && forall k: nat :: k < |offs| ==> offs[k] == Slot(k, stride)
  {
    hide Offsets, Entry, Slot, Element;
    var offs := Offsets(bytesize, stride, true, useExtrabit);
    OffsetsCount(bytesize, stride, true, useExtrabit);
    CountSlots(bytesize, stride);
    forall k: nat | k < |offs| ensures offs[k] == Slot(k, stride) && offs[k] % 8 == 0 && offs[k] + 16 <= bytesize {
      SlotOfEights(k, stride);
      SlotsApart(k, Count(bytesize, stride), stride);
      if k == 0 {
        SlotStep(0, stride);
      } else {
        OffsetIs(bytesize, stride, true, useExtrabit, k);
        LinearElement(k);
      }
    }
    ListWalk(words, bytesize, stride, true, useExtrabit);
    PlainMet(bytesize, stride, true, useExtrabit);
  }

  /** What the scrambled order demands of the arguments, node by node. */
  lemma ScrambledFits(bytesize: nat, stride: nat, useExtrabit: bool)
    requires bytesize < 0x8000_0000 && Strided(stride)
    ensures Fits(bytesize, stride, false, useExtrabit) <==>
            && bytesize >= 16
            && (forall i: nat :: 0 < i < Count(bytesize, stride) ==>
                  Placed(Element(i, false), stride, useExtrabit) + 16 <= bytesize)
  {
    hide Offsets, Element, Placed;
    var offs := Offsets(bytesize, stride, false, useExtrabit);
    OffsetsCount(bytesize, stride, false, useExtrabit);
    forall i: nat | 0 < i < |offs|
      ensures offs[i] == Placed(Element(i, false), stride, useExtrabit) && offs[i] % 8 == 0 {
      OffsetIs(bytesize, stride, false, useExtrabit, i);
      PlacedOfEights(Element(i, false), stride, useExtrabit);
    }
    assert offs[0] + 16 <= bytesize <==> bytesize >= 16;
  }

  lemma PlacedOfEights(e: nat, stride: nat, flipped: bool)
    requires stride % 8 == 0
    ensures Placed(e, stride, flipped) % 8 == 0
  {
    hide Slot;
    SlotOfEights(e, stride);
  }

  /** The sizes on which the scrambled order without the extra bit stays in the buffer: whole groups, one
      element more, or a group one short whose stray element, at slot n, finds room in the remainder. */
  predicate ScrambleFits(bytesize: nat, stride: nat)
    requires stride > 0
  {
    var n := Count(bytesize, stride);
    bytesize >= 16 && (n % 256 <= 1 || (n % 256 == 255 && bytesize % stride >= 16))
  }

  lemma ScrambledFitsIff(bytesize: nat, stride: nat)
    requires bytesize < 0x8000_0000 && Strided(stride)
    ensures Fits(bytesize, stride, false, false) <==> ScrambleFits(bytesize, stride)
  {
    hide Fits, Slot, Element, Mixed;
    var n := Count(bytesize, stride);
    ScrambledFits(bytesize, stride, false);
    CountSlots(bytesize, stride);
    if ScrambleFits(bytesize, stride) {
      forall i: nat | 0 < i < n ensures Slot(Element(i, false), stride) + 16 <= bytesize {
        ElementAtMost(i, n);
        if Element(i, false) < n {
          SlotsApart(Element(i, false), n, stride);
        }
      }
    } else if bytesize >= 16 {
      var i := Stray(n);
      SlotsApart(n, n + 1, stride);
      if Element(i, false) > n {
        SlotsApart(n, Element(i, false), stride);
      }
      assert !(Placed(Element(i, false), stride, false) + 16 <= bytesize);
    }
  }

  /** The second node of an incomplete last group is at the group's last element. */
  lemma Stray(n: nat) returns (i: nat)
    requires n < 0x8000_0000 && n % 256 > 1
    ensures 0 < i < n && Element(i, false) == 256 * (n / 256) + 255 >= n
  {
    hide Element, Mixed;
    i := 256 * (n / 256) + 1;
    ElementIs(i);
    FirstMixed();
  }

  lemma FirstMixed()
    ensures Mixed(1) == 255
  {
    assert Iterate(0, INIT) == INIT;
  }
}
