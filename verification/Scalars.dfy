/** The arithmetic of the matrix kernels, over an arbitrary element type.
    The source computes with doubles; here the zero, the addition and the multiplication are
    parameters, and every theorem names exactly the algebraic laws it needs of them. */
module Scalars {

  datatype Ops<!T> = Ops(zero: T, add: (T, T) -> T, mul: (T, T) -> T)

  /** The value of the accumulator after `sum = init; sum += xs[0]; sum += xs[1]; ...`. */
  function Fold<T>(ops: Ops<T>, init: T, xs: seq<T>): T {
    if |xs| == 0 then init else ops.add(Fold(ops, init, xs[..|xs| - 1]), xs[|xs| - 1])
  }

  /** The accumulator's values: from `init`, each one more term added on the right. */
  ghost predicate Accumulates<T>(ops: Ops<T>, init: T, xs: seq<T>, sums: seq<T>) {
    && |sums| == |xs| + 1 && sums[0] == init
    && forall k :: 0 <= k < |xs| ==> sums[k + 1] == ops.add(sums[k], xs[k])
  }

  /** A fold is where they end. */
  lemma {:induction false} FoldAccumulates<T>(ops: Ops<T>, init: T, xs: seq<T>, sums: seq<T>)
    requires Accumulates(ops, init, xs, sums)
    ensures Fold(ops, init, xs) == sums[|xs|]
  {
    if |xs| > 0 {
      FoldAccumulates(ops, init, xs[..|xs| - 1], sums[..|xs|]);
    }
  }

  ghost predicate Associative<T(!new)>(ops: Ops<T>) {
    forall x, y, z :: ops.add(ops.add(x, y), z) == ops.add(x, ops.add(y, z))
  }

  ghost predicate Commutative<T(!new)>(ops: Ops<T>) {
    forall x, y :: ops.add(x, y) == ops.add(y, x)
  }

  ghost predicate RightZero<T(!new)>(ops: Ops<T>) {
    forall x :: ops.add(x, ops.zero) == x
  }

  lemma {:induction false} FoldConcat<T>(ops: Ops<T>, init: T, xs: seq<T>, ys: seq<T>)
    ensures Fold(ops, init, xs + ys) == Fold(ops, Fold(ops, init, xs), ys)
  {
    if |ys| == 0 {
      assert xs + ys == xs;
    } else {
      assert (xs + ys)[..|xs + ys| - 1] == xs + ys[..|ys| - 1];
      FoldConcat(ops, init, xs, ys[..|ys| - 1]);
    }
  }

  /** Summing onto an accumulator is adding the sum taken from zero. */
  lemma {:induction false} FoldFrom<T(!new)>(ops: Ops<T>, init: T, xs: seq<T>)
    requires Associative(ops) && RightZero(ops)
    ensures Fold(ops, init, xs) == ops.add(init, Fold(ops, ops.zero, xs))
  {
    if |xs| > 0 {
      FoldFrom(ops, init, xs[..|xs| - 1]);
    }
  }

  /** The partial sums of the first `k` consecutive groups of eight. */
  function OctetSums<T>(ops: Ops<T>, xs: seq<T>, k: nat): (sums: seq<T>)
    requires 8 * k <= |xs|
  {
    seq(k, j requires 0 <= j < k => Fold(ops, ops.zero, xs[8 * j..8 * j + 8]))
  }

  lemma OctetSumsFront<T>(ops: Ops<T>, xs: seq<T>, k: nat)
    requires 0 < k && |xs| == 8 * k
    ensures OctetSums(ops, xs, k) == OctetSums(ops, xs[..8 * (k - 1)], k - 1) + [Fold(ops, ops.zero, xs[8 * (k - 1)..])]
  {
    hide Fold;
    var front := xs[..8 * (k - 1)];
    forall j | 0 <= j < k - 1 ensures xs[8 * j..8 * j + 8] == front[8 * j..8 * j + 8] {}
    assert xs[8 * (k - 1)..] == xs[8 * (k - 1)..8 * (k - 1) + 8];
  }

  /** Grouping a sum into eights changes nothing when addition is associative and zero is a
      right identity; the order of the terms is kept, so commutativity is not needed. */
  lemma {:induction false} Regroup<T(!new)>(ops: Ops<T>, xs: seq<T>, k: nat)
    requires Associative(ops) && RightZero(ops)
    requires |xs| == 8 * k
    ensures Fold(ops, ops.zero, OctetSums(ops, xs, k)) == Fold(ops, ops.zero, xs)
  {
    if k > 0 {
      var front, last := xs[..8 * (k - 1)], xs[8 * (k - 1)..];
      OctetSumsFront(ops, xs, k);
      Regroup(ops, front, k - 1);
      FoldFrom(ops, Fold(ops, ops.zero, front), last);
      FoldConcat(ops, ops.zero, front, last);
      assert front + last == xs;
    }
  }

  function Remove<T>(xs: seq<T>, i: nat): (rest: seq<T>)
    requires i < |xs|
    ensures |rest| == |xs| - 1
  {
    xs[..i] + xs[i + 1..]
  }

  lemma RemoveBeforeLast<T>(xs: seq<T>, i: nat)
    requires i < |xs| - 1
    ensures Remove(xs, i) == Remove(xs[..|xs| - 1], i) + [xs[|xs| - 1]]
  {
  }

  lemma FoldOneMore<T>(ops: Ops<T>, init: T, xs: seq<T>, x: T)
    ensures Fold(ops, init, xs + [x]) == ops.add(Fold(ops, init, xs), x)
  {
    assert (xs + [x])[..|xs|] == xs;
  }

  /** Under a commutative addition any one term may be moved to the end of the sum. */
  lemma {:induction false} FoldRemove<T(!new)>(ops: Ops<T>, init: T, xs: seq<T>, i: nat)
    requires Associative(ops) && Commutative(ops)
    requires i < |xs|
    ensures Fold(ops, init, xs) == ops.add(Fold(ops, init, Remove(xs, i)), xs[i])
  {
    var front, last := xs[..|xs| - 1], xs[|xs| - 1];
    assert xs == front + [last];
    FoldOneMore(ops, init, front, last);
    if i == |xs| - 1 {
      assert Remove(xs, i) == front;
    } else {
      hide Fold, Remove;
      var rest := Fold(ops, init, Remove(front, i));
      FoldRemove(ops, init, front, i);
      RemoveBeforeLast(xs, i);
      FoldOneMore(ops, init, Remove(front, i), last);
      assert ops.add(ops.add(rest, xs[i]), last) == ops.add(ops.add(rest, last), xs[i]) by {
        assert ops.add(xs[i], last) == ops.add(last, xs[i]);
      }
    }
  }

  /** `from` lists, for each position of the rearranged sequence, where its term came from. */
  ghost predicate Rearranges<T>(xs: seq<T>, ys: seq<T>, from: seq<nat>) {
    && |ys| == |xs| == |from|
    && (forall i :: 0 <= i < |from| ==> from[i] < |xs| && ys[i] == xs[from[i]])
    && (forall i, j :: 0 <= i < j < |from| ==> from[i] != from[j])
  }

  /** Without the term that comes last, the others are still a rearrangement. */
  lemma LastRemoved<T>(xs: seq<T>, ys: seq<T>, from: seq<nat>) returns (shifted: seq<nat>)
    requires |xs| > 0 && Rearranges(xs, ys, from)
    ensures Rearranges(Remove(xs, from[|xs| - 1]), ys[..|xs| - 1], shifted)
  {
    var n := |xs| - 1;
    var gone := from[n];
    shifted := seq(n, i requires 0 <= i < n => if from[i] > gone then from[i] - 1 else from[i]);
    forall i | 0 <= i < n ensures shifted[i] < n && ys[..n][i] == Remove(xs, gone)[shifted[i]] {
      assert from[i] != gone;
    }
    forall i, j | 0 <= i < j < n ensures shifted[i] != shifted[j] {
      assert from[i] != from[j] && from[i] != gone && from[j] != gone;
    }
  }

  /** A rearranged sum is the same sum when addition is associative and commutative. */
  lemma {:induction false} FoldRearranged<T(!new)>(ops: Ops<T>, init: T, xs: seq<T>, ys: seq<T>, from: seq<nat>)
    requires Associative(ops) && Commutative(ops)
    requires Rearranges(xs, ys, from)
    ensures Fold(ops, init, xs) == Fold(ops, init, ys)
    decreases |xs|
  {
    hide Remove;
    var n := |xs| - 1;
    if |xs| > 0 {
      var shifted := LastRemoved(xs, ys, from);
      FoldRearranged(ops, init, Remove(xs, from[n]), ys[..n], shifted);
      FoldRemove(ops, init, xs, from[n]);
    }
  }

  /** Ordinary integer arithmetic, for the concrete inputs on which a kernel misses its promise. */
  function Integers(): (ops: Ops<int>) {
    Ops(0, (x: int, y: int) => x + y, (x: int, y: int) => x * y)
  }

  /** A sum with at most one nonzero term is that term. */
  lemma {:induction false} FoldSingle(xs: seq<int>, k: nat)
    requires k < |xs|
    requires forall i :: 0 <= i < |xs| && i != k ==> xs[i] == 0
    ensures Fold(Integers(), 0, xs) == xs[k]
  {
    var n := |xs| - 1;
    if k < n {
      FoldSingle(xs[..n], k);
    } else {
      FoldZeros(xs[..n]);
    }
  }

  lemma {:induction false} FoldZeros(xs: seq<int>)
    requires forall i :: 0 <= i < |xs| ==> xs[i] == 0
    ensures Fold(Integers(), 0, xs) == 0
  {
    if |xs| > 0 {
      FoldZeros(xs[..|xs| - 1]);
    }
  }
}
