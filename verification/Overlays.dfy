/** A run of stores into a buffer, when some of them may land on the same cell. */
module Overlays {

  /** Where each store goes lies inside the buffer. */
  ghost predicate Lands<T>(first: seq<T>, dests: seq<nat>) {
    forall k :: 0 <= k < |dests| ==> dests[k] < |first|
  }

  /** The buffer after the first `count` stores. */
  ghost function Overlay<T>(first: seq<T>, dests: seq<nat>, vals: seq<T>, count: nat): (cells: seq<T>)
    requires count <= |dests| == |vals| && Lands(first, dests)
    ensures |cells| == |first|
  {
    if count == 0 then first else Overlay(first, dests, vals, count - 1)[dests[count - 1] := vals[count - 1]]
  }

  /** A cell holds the value of the last store to it, */
  lemma {:induction false} OverlayLast<T>(first: seq<T>, dests: seq<nat>, vals: seq<T>, count: nat, k: nat)
    requires k < count <= |dests| == |vals| && Lands(first, dests)
    requires forall j :: k < j < count ==> dests[j] != dests[k]
    ensures Overlay(first, dests, vals, count)[dests[k]] == vals[k]
  {
    if k < count - 1 {
      OverlayLast(first, dests, vals, count - 1, k);
    }
  }

  /** and what it held before when there is none. */
  lemma {:induction false} OverlayKeeps<T>(first: seq<T>, dests: seq<nat>, vals: seq<T>, count: nat, i: nat)
    requires i < |first| && count <= |dests| == |vals| && Lands(first, dests)
    requires forall k :: 0 <= k < count ==> dests[k] != i
    ensures Overlay(first, dests, vals, count)[i] == first[i]
  {
    if count > 0 {
      OverlayKeeps(first, dests, vals, count - 1, i);
    }
  }
}
