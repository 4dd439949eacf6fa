/** Distinct numbers below their count are all the numbers below it. */
module Pigeonhole {

  ghost predicate Distinct(xs: seq<nat>) {
    forall i, j :: 0 <= i < j < |xs| ==> xs[i] != xs[j]
  }

  ghost function Below(n: nat): (s: set<nat>)
    ensures forall x: nat :: x in s <==> x < n
  {
    if n == 0 then {} else Below(n - 1) + {n - 1}
  }

  lemma {:induction false} BelowSize(n: nat)
    ensures |Below(n)| == n
  {
    if n > 0 {
      BelowSize(n - 1);
      assert n - 1 !in Below(n - 1);
    }
  }

  ghost function Elements(xs: seq<nat>): set<nat> {
    set x | x in xs
  }

  lemma {:induction false} ElementsSize(xs: seq<nat>)
    requires Distinct(xs)
    ensures |Elements(xs)| == |xs|
  {
    if |xs| > 0 {
      var last := |xs| - 1;
      ElementsSize(xs[..last]);
      assert Elements(xs) == Elements(xs[..last]) + {xs[last]};
    }
  }

  lemma Onto(xs: seq<nat>)
    requires Distinct(xs)
    requires forall i :: 0 <= i < |xs| ==> xs[i] < |xs|
    ensures Elements(xs) == Below(|xs|)
    ensures forall x: nat :: x < |xs| ==> x in xs
  {
    ElementsSize(xs);
    BelowSize(|xs|);
    if Elements(xs) != Below(|xs|) {
      ProperSubset(Elements(xs), Below(|xs|));
    }
    forall x: nat | x < |xs| ensures x in xs {
      assert x in Elements(xs);
    }
  }

  lemma ProperSubset(s: set<nat>, t: set<nat>)
    requires s < t
    ensures |s| < |t|
  {
    var x :| x in t && x !in s;
    assert |t - s| > 0;
    assert t == s + (t - s);
  }
}
