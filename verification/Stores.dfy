/** The key-value store, its two operations, and what a sequence of them does. */
module Stores {
  import opened Bytes

  type Store = map<seq<byte>, seq<byte>>

  datatype Op = Emplace(key: seq<byte>, value: seq<byte>) | Find(key: seq<byte>)

  datatype Result = Stored | Found(value: seq<byte>) | Missing

  /** `emplace` never replaces the value of a key that is already bound. */
  function Apply(store: Store, op: Op): Store {
    match op
    case Emplace(key, value) => if key in store then store else store[key := value]
    case Find(_) => store
  }

  function Outcome(store: Store, op: Op): Result {
    match op
    case Emplace(_, _) => Stored
    case Find(key) => if key in store then Found(store[key]) else Missing
  }

  function Replay(store: Store, ops: seq<Op>): Store {
    if |ops| == 0 then store else Apply(Replay(store, ops[..|ops| - 1]), ops[|ops| - 1])
  }

  /** Every binding of `s` is in `t`. */
  ghost predicate Within(s: Store, t: Store) {
    forall key :: key in s ==> key in t && t[key] == s[key]
  }

  lemma {:induction false} ReplayGrows(store: Store, ops: seq<Op>, n: nat)
    requires n <= |ops|
    ensures Within(Replay(store, ops[..n]), Replay(store, ops))
  {
    if n < |ops| {
      ReplayGrows(store, ops[..|ops| - 1], n);
      assert ops[..|ops| - 1][..n] == ops[..n];
    } else {
      assert ops[..n] == ops;
    }
  }

  /** The first write of a key decides it: a later find returns the value of the earliest emplace. */
  lemma {:induction false} FirstWriteWins(ops: seq<Op>, i: nat)
    requires i < |ops| && ops[i].Emplace?
    requires forall j :: 0 <= j < i ==> !(ops[j].Emplace? && ops[j].key == ops[i].key)
    ensures Outcome(Replay(map[], ops), Find(ops[i].key)) == Found(ops[i].value)
  {
    NotYetBound(ops[..i], ops[i].key);
    assert ops[..i + 1][..i] == ops[..i];
    ReplayGrows(map[], ops, i + 1);
  }

  /** None of these operations writes this key; operation `i` is the first that does. */
  ghost predicate Unwritten(ops: seq<Op>, key: seq<byte>) {
    forall j :: 0 <= j < |ops| && ops[j].Emplace? ==> ops[j].key != key
  }

  ghost predicate FirstWrite(ops: seq<Op>, i: nat, key: seq<byte>) {
    i < |ops| && ops[i].Emplace? && ops[i].key == key && Unwritten(ops[..i], key)
  }

  /** Every operation on a store that only these operations made: a write is acknowledged, and a find returns
      the value of the first write of its key, or that there is none. */
  lemma OutcomeIs(ops: seq<Op>, op: Op)
    ensures op.Emplace? ==> Outcome(Replay(map[], ops), op) == Stored
    ensures op.Find? && Unwritten(ops, op.key) ==> Outcome(Replay(map[], ops), op) == Missing
    ensures op.Find? ==>
              forall i: nat :: FirstWrite(ops, i, op.key) ==> Outcome(Replay(map[], ops), op) == Found(ops[i].value)
  {
    hide Replay, Outcome;
    StoredIs(Replay(map[], ops), op);
    if op.Find? && Unwritten(ops, op.key) {
      NotYetBound(ops, op.key);
      MissingIs(Replay(map[], ops), op.key);
    }
    if op.Find? {
      forall i: nat | FirstWrite(ops, i, op.key) ensures Outcome(Replay(map[], ops), op) == Found(ops[i].value) {
        forall j | 0 <= j < i ensures !(ops[j].Emplace? && ops[j].key == op.key) {
          assert ops[..i][j] == ops[j];
        }
        FirstWriteWins(ops, i);
      }
    }
  }

  lemma MissingIs(store: Store, key: seq<byte>)
    requires key !in store
    ensures Outcome(store, Find(key)) == Missing
  {
  }

  lemma StoredIs(store: Store, op: Op)
    ensures op.Emplace? ==> Outcome(store, op) == Stored
  {
  }

  lemma {:induction false} NotYetBound(ops: seq<Op>, key: seq<byte>)
    requires forall j :: 0 <= j < |ops| ==> !(ops[j].Emplace? && ops[j].key == key)
    ensures key !in Replay(map[], ops)
  {
    if |ops| > 0 {
      NotYetBound(ops[..|ops| - 1], key);
    }
  }

  /** Every binding was written by one of the operations. */
  lemma {:induction false} BoundByWrite(ops: seq<Op>, key: seq<byte>)
    requires key in Replay(map[], ops)
    ensures Emplace(key, Replay(map[], ops)[key]) in ops
  {
    if |ops| > 0 && key in Replay(map[], ops[..|ops| - 1]) {
      BoundByWrite(ops[..|ops| - 1], key);
    }
  }
}
