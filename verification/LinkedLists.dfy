/** The linear builder MakeLinkedList. */
module LinkedLists {
  import opened LongList
  import opened LongListWalk

  /** The offsets of a list of `n` pairs, or of the root alone, `pairStride` pairs apart. */
  function LinearOffsets(n: nat, pairStride: nat): (offs: seq<nat>)
    ensures |offs| == if n == 0 then 1 else n
  {
    seq(if n == 0 then 1 else n, i requires 0 <= i => 16 * Slot(i, pairStride))
  }

  /** As many as fit and at least one, each a whole number of strides of pairs from the start. */
  lemma LinearOffsetsAre(n: nat, pairStride: nat)
    ensures var offs := LinearOffsets(n, pairStride);
            && |offs| == (if n == 0 then 1 else n)
            && forall i: nat :: i < |offs| ==> offs[i] == 16 * (i * pairStride)
  {
  }

  lemma LinearOffsetsFit(byteSize: nat, pairStride: nat)
    requires byteSize >= 16 && pairStride > 0
    ensures var offs := LinearOffsets(byteSize / 16 / pairStride, pairStride);
            offs[0] == 0 && AllHeld(byteSize / 8, offs) && Separate(offs, 0)
  {
    hide Slot;
    var n := byteSize / 16 / pairStride;
    var offs := LinearOffsets(n, pairStride);
    SlotStep(0, pairStride);
    SlotOfQuotient(byteSize / 16, pairStride);
    forall i: nat | i < |offs| ensures Holds(byteSize / 8, offs[i]) {
      if i < n {
        SlotsApart(i, n, pairStride);
      }
      PairHeld(Slot(i, pairStride), byteSize);
    }
    forall i: nat, j: nat | i < j < |offs| ensures offs[j] >= offs[i] + 16 {
      SlotsApart(i, j, pairStride);
    }
  }

  lemma PairHeld(pair: nat, byteSize: nat)
    ensures pair + 1 <= byteSize / 16 ==> Holds(byteSize / 8, 16 * pair)
  {
    assert 16 * pair == 8 * (2 * pair);
    assert byteSize / 16 == byteSize / 8 / 2;
  }

  ghost predicate LinkedTo(words: seq<Word>, offs: seq<nat>, count: nat)
    requires count <= |offs|
  {
    forall i: nat :: i < count ==> Linked(words, offs, i)
  }

  /** Setting one `next` field links that node and leaves the earlier ones linked. */
  lemma LinkOne(words: seq<Word>, offs: seq<nat>, k: nat)
    requires AllHeld(|words|, offs) && Separate(offs, 0) && k < |offs| && LinkedTo(words, offs, k)
    ensures offs[k] / 8 < |words|
    ensures LinkedTo(words[offs[k] / 8 := Address(Successor(offs, k))], offs, k + 1)
  {
    hide Successor;
    var after := words[offs[k] / 8 := Address(Successor(offs, k))];
    forall i: nat | i < k ensures Linked(after, offs, i) {
      assert Linked(words, offs, i);
      assert offs[i] / 8 != offs[k] / 8;
    }
  }

  /** `p->next = to;` leaves every `data` alone. */
  method SetNext(buf: array<Word>, at: nat, to: Pointer)
    requires Holds(buf.Length, at) && at % 16 == 0
    modifies buf
    ensures at / 8 < buf.Length && buf[..] == old(buf[..])[at / 8 := Address(to)]
    ensures forall w :: 0 <= w < buf.Length && w % 2 == 1 ==> buf[w] == old(buf[w])
  {
    buf[at / 8] := Address(to);
  }

  /** The linear builder: its first turn points the root at itself, and the second corrects it. */
  method MakeLinkedList(buf: array<Word>, byteSize: nat, byteStride: nat) returns (root: Pointer)
    requires buf.Length == byteSize / 8 && byteSize >= 16 && byteStride >= 16
    modifies buf
    ensures root == At(0)
    ensures Walks(buf[..], root, LinearOffsets(byteSize / 16 / (byteStride / 16), byteStride / 16))
    ensures forall w :: 0 <= w < buf.Length && w % 2 == 1 ==> buf[w] == old(buf[w])
  {
    hide Slot, LinearOffsets, LinkedTo, Separate, AllHeld, Walks, Holds, Successor;
    var pairStride := byteStride / 16;
    var nPairs := byteSize / 16 / pairStride;
    ghost var offs := LinearOffsets(nPairs, pairStride);
    LinearOffsetsFit(byteSize, pairStride);
    var cur := 0;
    NothingLinked(buf[..], offs);
    for i := 0 to nPairs
      invariant cur == offs[if i == 0 then 0 else i - 1]
      invariant LinkedTo(buf[..], offs, if i == 0 then 0 else i - 1)
      invariant forall w :: 0 <= w < buf.Length && w % 2 == 1 ==> buf[w] == old(buf[w])
    {
      LinearOffsetsAt(nPairs, pairStride, i);
      CellOfSlot(i, pairStride);
      PlaceHeld(buf.Length, nPairs, pairStride, if i == 0 then 0 else i - 1);
      if i > 0 {
        LinkOne(buf[..], offs, i - 1);
        SuccessorIs(offs, i - 1);
      }
      SetNext(buf, cur, At(16 * (i * pairStride)));
      if i == 0 {
        NothingLinked(buf[..], offs);
      }
      cur := 16 * (i * pairStride);
    }
    LinkOne(buf[..], offs, |offs| - 1);
    SuccessorIs(offs, |offs| - 1);
    PlaceHeld(buf.Length, nPairs, pairStride, |offs| - 1);
    SetNext(buf, cur, Null);
    AllLinked(buf[..], offs);
    root := At(0);
  }

  lemma NothingLinked(words: seq<Word>, offs: seq<nat>)
    ensures LinkedTo(words, offs, 0)
  {
  }

  lemma SuccessorIs(offs: seq<nat>, i: nat)
    requires i < |offs|
    ensures Successor(offs, i) == if i + 1 < |offs| then At(offs[i + 1]) else Null
  {
  }

  lemma AllLinked(words: seq<Word>, offs: seq<nat>)
    requires |offs| > 0 && offs[0] == 0 && LinkedTo(words, offs, |offs|)
    ensures Walks(words, At(0), offs)
  {
    hide Linked, Walks;
    ChainedWalks(words, offs, 0);
    assert offs[0..] == offs;
  }

  lemma PlaceHeld(words: nat, n: nat, pairStride: nat, i: nat)
    requires i < |LinearOffsets(n, pairStride)| && AllHeld(words, LinearOffsets(n, pairStride))
    ensures Holds(words, LinearOffsets(n, pairStride)[i]) && LinearOffsets(n, pairStride)[i] % 16 == 0
  {
    hide LinearOffsets, Holds;
    LinearOffsetsEven(n, pairStride);
  }

  lemma LinearOffsetsAt(n: nat, pairStride: nat, i: nat)
    requires i < n
    ensures LinearOffsets(n, pairStride)[i] == 16 * Slot(i, pairStride)
  {
  }

  lemma LinearOffsetsEven(n: nat, pairStride: nat)
    ensures forall i: nat :: i < |LinearOffsets(n, pairStride)| ==> LinearOffsets(n, pairStride)[i] % 16 == 0
  {
    hide Slot;
    forall i: nat | i < |LinearOffsets(n, pairStride)| ensures LinearOffsets(n, pairStride)[i] % 16 == 0 {
      assert LinearOffsets(n, pairStride)[i] == 16 * Slot(i, pairStride);
    }
  }

  lemma CellOfSlot(i: nat, pairStride: nat)
    ensures i * pairStride == Slot(i, pairStride)
  {
  }
}
