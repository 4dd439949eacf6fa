/** The builders that thread a linked list through a flat buffer, and the walkers that follow it.
    A buffer is a sequence of 8-byte words; a `Pair` at byte offset `o` is word o/8, its `next`,
    and the word after it, its `data`. Pointers are byte offsets from the start of the buffer. */
module LongList {
  import opened Options
  import opened Bits
  import opened Lfsr

  datatype Pointer = Null | At(offset: nat)

  datatype Word = Address(to: Pointer) | Number(value: int)

  /** A place for a whole `Pair` inside the buffer. */
  predicate Holds(words: nat, at: nat) {
    at % 8 == 0 && at / 8 + 2 <= words
  }

  ghost predicate AllHeld(words: nat, offs: seq<nat>) {
    forall i :: 0 <= i < |offs| ==> Holds(words, offs[i])
  }

  /** `p->next = next; p->data = 0;` */
  function Link(words: seq<Word>, at: nat, next: Pointer): (after: seq<Word>)
    requires Holds(|words|, at)
    ensures |after| == |words|
  {
    words[at / 8 := Address(next)][at / 8 + 1 := Number(0)]
  }

  /** What a word reads as when it is used as a pointer: a zero is NULL. */
  function AsPointer(w: Word): Option<Pointer> {
    match w
    case Address(to) => Some(to)
    case Number(value) => if value == 0 then Some(Null) else None
  }

  /** The value of `p->next`, unless `p` is NULL, outside the buffer, or holds no pointer. */
  function Next(words: seq<Word>, p: Pointer): Option<Pointer> {
    if p.At? && Holds(|words|, p.offset) then AsPointer(words[p.offset / 8]) else None
  }

  /** The pointer reached by following `next` n times. */
  function Nth(words: seq<Word>, p: Pointer, n: nat): Option<Pointer> {
    if n == 0 then Some(p)
    else match Nth(words, p, n - 1)
      case None => None
      case Some(q) => Next(words, q)
  }

  lemma NthStep(words: seq<Word>, p: Pointer, n: nat)
    requires Nth(words, p, n).Some?
    ensures Nth(words, p, n + 1) == Next(words, Nth(words, p, n).value)
  {
  }

  /** Following `next` from `p` meets exactly the offsets of `path`, in order, and then NULL. */
  ghost predicate Walks(words: seq<Word>, p: Pointer, path: seq<nat>) {
    && (forall n: nat :: n < |path| ==> Nth(words, p, n) == Some(At(path[n])))
    && Nth(words, p, |path|) == Some(Null)
  }

  /** The buffer after the first `count` nodes of `offs` have been linked, each to the one after it. */
  ghost function Built(words: seq<Word>, offs: seq<nat>, count: nat): (after: seq<Word>)
    requires count <= |offs| && AllHeld(|words|, offs)
    ensures |after| == |words|
  {
    if count == 0 then words
    else Link(Built(words, offs, count - 1), offs[count - 1], Successor(offs, count - 1))
  }

  function Successor(offs: seq<nat>, i: nat): Pointer {
    if i + 1 < |offs| then At(offs[i + 1]) else Null
  }

  /** From index `first` on, no two nodes start at the same offset. */
  ghost predicate Separate(offs: seq<nat>, first: nat) {
    forall i, j :: first <= i < j < |offs| ==> offs[i] != offs[j]
  }

  /** One of the first `count` nodes, written after node `i`, has its `data` where node `i` has its `next`. */
  ghost predicate Cleared(offs: seq<nat>, i: nat, count: nat)
    requires count <= |offs|
  {
    exists j :: i < j < count && offs[j] + 8 == offs[i]
  }

  lemma {:induction false} BuiltNext(words: seq<Word>, offs: seq<nat>, count: nat, first: nat, i: nat)
    requires count <= |offs| && AllHeld(|words|, offs)
    requires Separate(offs, first) && first <= i < count
    ensures Next(Built(words, offs, count), At(offs[i])) ==
            Some(if Cleared(offs, i, count) then Null else Successor(offs, i))
  {
    if i < count - 1 {
      BuiltNext(words, offs, count - 1, first, i);
      if offs[count - 1] + 8 == offs[i] {
        assert Cleared(offs, i, count);
      } else {
        assert Cleared(offs, i, count) == Cleared(offs, i, count - 1);
      }
    }
  }

  /** The node at which a walk that enters at `first` ends: the first that was cleared, or the last. */
  ghost function Cut(offs: seq<nat>, first: nat): (cut: nat)
    requires first < |offs|
    ensures first <= cut < |offs|
    ensures cut == |offs| - 1 || Cleared(offs, cut, |offs|)
    ensures forall i: nat :: first <= i < cut ==> !Cleared(offs, i, |offs|)
    decreases |offs| - first
  {
    if first == |offs| - 1 || Cleared(offs, first, |offs|) then first else Cut(offs, first + 1)
  }

  /** From index `first` on, every node points to the one after it, and the last to NULL. */
  ghost predicate Chained(words: seq<Word>, offs: seq<nat>, first: nat) {
    forall i: nat :: first <= i < |offs| ==> Linked(words, offs, i)
  }

  ghost predicate Linked(words: seq<Word>, offs: seq<nat>, i: nat)
    requires i < |offs|
  {
    Next(words, At(offs[i])) == Some(Successor(offs, i))
  }

  lemma {:induction false} ChainedNth(words: seq<Word>, offs: seq<nat>, first: nat, n: nat)
    requires Chained(words, offs, first) && first + n < |offs|
    ensures Nth(words, At(offs[first]), n) == Some(At(offs[first + n]))
  {
    if n > 0 {
      ChainedNth(words, offs, first, n - 1);
      assert Linked(words, offs, first + n - 1);
    }
  }

  lemma ChainedWalks(words: seq<Word>, offs: seq<nat>, first: nat)
    requires Chained(words, offs, first) && first < |offs|
    ensures Walks(words, At(offs[first]), offs[first..])
  {
    hide Next, Nth;
    forall n: nat | n < |offs[first..]| ensures Nth(words, At(offs[first]), n) == Some(At(offs[first..][n])) {
      ChainedNth(words, offs, first, n);
    }
    var last := |offs| - 1 - first;
    ChainedNth(words, offs, first, last);
    assert Linked(words, offs, first + last);
    NthStep(words, At(offs[first]), last);
  }

  /** Up to the cut, the nodes are linked as if the list ended there. */
  lemma LinkedToCut(words: seq<Word>, offs: seq<nat>, first: nat, i: nat)
    requires AllHeld(|words|, offs)
    requires Separate(offs, first) && first < |offs| && first <= i <= Cut(offs, first)
    ensures Linked(Built(words, offs, |offs|), offs[..Cut(offs, first) + 1], i)
  {
    hide Built, Next, Cleared;
    BuiltNext(words, offs, |offs|, first, i);
  }

  /** A list whose nodes are separate from `first` on is walked from there up to the cut. */
  lemma BuiltWalks(words: seq<Word>, offs: seq<nat>, first: nat)
    requires AllHeld(|words|, offs)
    requires Separate(offs, first) && first < |offs|
    ensures Walks(Built(words, offs, |offs|), At(offs[first]), offs[first..Cut(offs, first) + 1])
  {
    hide Built, Linked, Walks, Cut, Separate, AllHeld;
    var cut := Cut(offs, first);
    var front := offs[..cut + 1];
    forall i: nat | first <= i <= cut ensures Linked(Built(words, offs, |offs|), front, i) {
      LinkedToCut(words, offs, first, i);
    }
    ChainedWalks(Built(words, offs, |offs|), front, first);
    assert front[first..] == offs[first..cut + 1];
  }

  /** What a node that no later node overwrites holds in the end: the pointer to the next one, or NULL, in its
      first word and zero in its second. */
  lemma {:induction false} BuiltWords(words: seq<Word>, offs: seq<nat>, count: nat, i: nat)
    requires i < count <= |offs| && AllHeld(|words|, offs)
    requires forall j :: i < j < count ==> offs[j] >= offs[i] + 16 || offs[i] >= offs[j] + 16
    ensures var built := Built(words, offs, count);
            && built[offs[i] / 8] == Address(if i + 1 < |offs| then At(offs[i + 1]) else Null)
            && built[offs[i] / 8 + 1] == Number(0)
  {
    if i < count - 1 {
      BuiltWords(words, offs, count - 1, i);
    }
  }

  /** Words that no node covers keep what they held. */
  lemma {:induction false} BuiltElsewhere(words: seq<Word>, offs: seq<nat>, count: nat, w: nat)
    requires count <= |offs| && AllHeld(|words|, offs) && w < |words|
    requires forall j :: 0 <= j < count ==> w != offs[j] / 8 && w != offs[j] / 8 + 1
    ensures Built(words, offs, count)[w] == words[w]
  {
    if count > 0 {
      BuiltElsewhere(words, offs, count - 1, w);
    }
  }

  /** A walk never faults before NULL, and following NULL faults. */
  lemma {:induction false} PastTheEnd(words: seq<Word>, p: Pointer, path: seq<nat>, n: nat)
    requires Walks(words, p, path) && n > |path|
    ensures Nth(words, p, n) == None
  {
    if n > |path| + 1 {
      PastTheEnd(words, p, path, n - 1);
    }
  }

  /** `i` itself, or its 256-group with the low byte scrambled. */
  function Element(i: nat, makelinear: bool): nat {
    if makelinear then i
    else
      ByteMask(i);
      Or(And(i, 0xffff_ff00), Mixed(And(i, 0xff)))
  }

  lemma ByteMask(i: nat)
    ensures And(i, 0xff) < 256
  {
    hide And, Shifted, Ones;
    ShiftedIs(1);
    ShiftedIs(i / 256);
    AndLow(i / 256, i % 256, 8);
  }

  lemma ElementIs(i: nat)
    requires i < 0x8000_0000
    ensures Element(i, false) == 256 * (i / 256) + Mixed(i % 256)
  {
    ByteMasks(i);
    OrByte(i / 256, Mixed(i % 256));
  }

  const EXTRA := 16384

  /** Where element `e` would be in a linear layout. */
  function Slot(e: nat, stride: nat): nat {
    e * stride
  }

  /** The bit that is turned in every offset but the root's. */
  function Extrabit(makelinear: bool, useExtrabit: bool): nat {
    if makelinear || !useExtrabit then 0 else EXTRA
  }

  /** The byte offset of node `i`: the root is at the start of the buffer whatever its element. */
  function Offset(i: nat, stride: nat, makelinear: bool, extrabit: nat): nat {
    if i == 0 then 0 else Xor(Slot(Element(i, makelinear), stride), extrabit)
  }

  /** The offsets of the nodes: as many as whole strides fit, and at least the root. */
  function Offsets(bytesize: nat, stride: nat, makelinear: bool, useExtrabit: bool): (offs: seq<nat>)
    requires stride > 0
    ensures |offs| >= 1 && offs[0] == 0
  {
    var n := bytesize / stride;
    seq(if n == 0 then 1 else n, i requires 0 <= i => Offset(i, stride, makelinear, Extrabit(makelinear, useExtrabit)))
  }

  /** The strides that the comment of MakeLongList allows. */
  predicate Strided(stride: nat) {
    stride >= 16 && stride % 8 == 0
  }

  /** Every node lies inside the buffer: what the pointer writes demand of the arguments. */
  ghost predicate Fits(bytesize: nat, stride: nat, makelinear: bool, useExtrabit: bool)
    requires stride > 0
  {
    var offs := Offsets(bytesize, stride, makelinear, useExtrabit);
    forall i :: 0 <= i < |offs| ==> offs[i] % 8 == 0 && offs[i] + 16 <= bytesize
  }

  /** The table of 256 mixed-up low bytes. */
  method MakeMixedup() returns (mixedup: array<nat>)
    ensures fresh(mixedup) && mixedup.Length == 256
    ensures forall j: nat :: j < 256 ==> mixedup[j] == Mixed(j)
    ensures IsTable(mixedup[..])
  {
    mixedup := new nat[256];
    mixedup[0] := 0;
    var x := INIT;
    for i := 1 to 256
      invariant x == Iterate(i - 1, INIT)
      invariant forall j: nat :: j < i ==> mixedup[j] == Mixed(j)
    {
      mixedup[i] := x as nat;
      x := Shift(x);
    }
    MixedIsTable(mixedup[..]);
  }

  method MakeLongList(buf: array<Word>, bytesize: nat, bytestride: nat, makelinear: bool, useExtrabit: bool)
    returns (root: Pointer)
    requires bytesize < 0x8000_0000 && buf.Length == bytesize / 8
    requires Strided(bytestride)
    requires Fits(bytesize, bytestride, makelinear, useExtrabit)
    modifies buf
    ensures root == At(0)
    ensures AllHeld(buf.Length, Offsets(bytesize, bytestride, makelinear, useExtrabit))
    ensures buf[..] == Built(old(buf[..]), Offsets(bytesize, bytestride, makelinear, useExtrabit),
                             |Offsets(bytesize, bytestride, makelinear, useExtrabit)|)
  {
    hide And, Or, Xor, Mixed, Offsets, Fits;
    var mixedup := MakeMixedup();
    ghost var offs := Offsets(bytesize, bytestride, makelinear, useExtrabit);
    ghost var words := buf[..];
    FitsHeld(bytesize, bytestride, makelinear, useExtrabit);
    var pairptr := 0;
    var elementCount := bytesize / bytestride;
    var extrabit := Extrabit(makelinear, useExtrabit);
    var i := 1;
    while i < elementCount
      invariant 1 <= i <= |offs|
      invariant pairptr == offs[i - 1]
      invariant forall j: nat :: j < 256 ==> mixedup[j] == Mixed(j)
      invariant buf[..] == Built(words, offs, i - 1)
    {
      ByteMask(i);
      var nextelement := if makelinear then i else Or(And(i, 0xffff_ff00), mixedup[And(i, 0xff)]);
      var nextptr := Xor(nextelement * bytestride, extrabit);
      OffsetsAt(bytesize, bytestride, makelinear, useExtrabit, i);
      ghost var before := buf[..];
      buf[pairptr / 8] := Address(At(nextptr));
      buf[pairptr / 8 + 1] := Number(0);
      assert buf[..] == Link(before, pairptr, At(nextptr));
      pairptr := nextptr;
      i := i + 1;
    }
    ghost var before := buf[..];
    buf[pairptr / 8] := Address(Null);
    buf[pairptr / 8 + 1] := Number(0);
    assert buf[..] == Link(before, pairptr, Null);
    root := At(0);
  }

  lemma FitsHeld(bytesize: nat, stride: nat, makelinear: bool, useExtrabit: bool)
    requires stride > 0 && Fits(bytesize, stride, makelinear, useExtrabit)
    ensures AllHeld(bytesize / 8, Offsets(bytesize, stride, makelinear, useExtrabit))
    ensures var n := bytesize / stride;
            |Offsets(bytesize, stride, makelinear, useExtrabit)| == if n == 0 then 1 else n
  {
    hide Offset;
  }

  lemma OffsetsAt(bytesize: nat, stride: nat, makelinear: bool, useExtrabit: bool, i: nat)
    requires stride > 0 && i < |Offsets(bytesize, stride, makelinear, useExtrabit)|
    ensures Offsets(bytesize, stride, makelinear, useExtrabit)[i] ==
            Offset(i, stride, makelinear, Extrabit(makelinear, useExtrabit))
  {
  }
}
