/** Following a list: what the two walkers return. */
module ListWalkers {
  import opened Options
  import opened LongList

  /** Two walks from one pointer that both end in NULL are the same walk. */
  lemma WalkUnique(words: seq<Word>, p: Pointer, path: seq<nat>, other: seq<nat>)
    requires Walks(words, p, path) && Walks(words, p, other)
    ensures path == other
  {
    assert Nth(words, p, |path|) == Some(Null) == Nth(words, p, |other|);
    forall i: nat | i < |path| ensures path[i] == other[i] {
      assert Nth(words, p, i) == Some(At(path[i]));
    }
  }

  /** `for (i = 0; i < assoc; ++i) read_list = read_list->next;` */
  method AssocRead(buf: array<Word>, readList: Pointer, assoc: nat) returns (p: Pointer)
    requires Nth(buf[..], readList, assoc).Some?
    ensures Some(p) == Nth(buf[..], readList, assoc)
  {
    p := readList;
    for i := 0 to assoc
      invariant Some(p) == Nth(buf[..], readList, i)
    {
      NoFaultBefore(buf[..], readList, i + 1, assoc);
      p := AsPointer(buf[p.offset / 8]).value;
    }
  }

  lemma {:induction false} NoFaultBefore(words: seq<Word>, p: Pointer, n: nat, m: nat)
    requires n <= m && Nth(words, p, m).Some?
    ensures Nth(words, p, n).Some?
  {
    if n < m {
      NoFaultBefore(words, p, n, m - 1);
    }
  }

  /** The timed walk, unrolled by four: it follows a multiple of four pointers, rounding nReads up. */
  method ScrambledReads(buf: array<Word>, pairPtr: Pointer, nReads: nat) returns (p: Pointer)
    requires Nth(buf[..], pairPtr, (nReads + 3) / 4 * 4).Some?
    ensures Some(p) == Nth(buf[..], pairPtr, (nReads + 3) / 4 * 4)
  {
    p := pairPtr;
    var i := 0;
    while i < nReads
      invariant i % 4 == 0 && i <= (nReads + 3) / 4 * 4
      invariant Some(p) == Nth(buf[..], pairPtr, i)
    {
      var q := FourReads(buf, pairPtr, i, p, (nReads + 3) / 4 * 4);
      p := q;
      i := i + 4;
    }
  }

  /** Four steps of the unrolled loop. */
  method FourReads(buf: array<Word>, ghost start: Pointer, ghost i: nat, p: Pointer, ghost end: nat)
    returns (q: Pointer)
    requires Nth(buf[..], start, end).Some? && i + 4 <= end
    requires Some(p) == Nth(buf[..], start, i)
    ensures Some(q) == Nth(buf[..], start, i + 4)
  {
    q := p;
    NoFaultBefore(buf[..], start, i + 1, end);
    q := AsPointer(buf[q.offset / 8]).value;
    NoFaultBefore(buf[..], start, i + 2, end);
    q := AsPointer(buf[q.offset / 8]).value;
    NoFaultBefore(buf[..], start, i + 3, end);
    q := AsPointer(buf[q.offset / 8]).value;
    NoFaultBefore(buf[..], start, i + 4, end);
    q := AsPointer(buf[q.offset / 8]).value;
  }
}
