/** Cardinalities of sets of numbers. */
module Counting {
  lemma SubsetCard<T>(a: set<T>, b: set<T>)
    requires a <= b
    ensures |a| <= |b|
  {
    assert b == a + (b - a);
  }

  ghost function Range(lo: nat, hi: nat): set<nat>
    requires lo <= hi
    decreases hi - lo
  {
    if lo == hi then {} else {lo} + Range(lo + 1, hi)
  }

  lemma {:induction false} RangeIs(lo: nat, hi: nat)
    requires lo <= hi
    ensures |Range(lo, hi)| == hi - lo
    ensures forall l :: l in Range(lo, hi) <==> lo <= l < hi
    decreases hi - lo
  {
    if lo < hi { RangeIs(lo + 1, hi); }
  }

  ghost predicate Distinct(c: seq<nat>) {
    forall i, j :: 0 <= i < j < |c| ==> c[i] != c[j]
  }

  ghost function Elements(c: seq<nat>): set<nat> {
    set e | e in c
  }

  lemma {:induction false} DistinctCard(c: seq<nat>)
    requires Distinct(c)
    ensures |Elements(c)| == |c|
  {
    if c != [] {
      var k := |c| - 1;
      DistinctCard(c[..k]);
      assert Elements(c) == Elements(c[..k]) + {c[k]};
      assert c[k] !in Elements(c[..k]);
    }
  }

  function One(b: bool): int { if b then 1 else 0 }

  /** Two sets that differ at most in i. */
  lemma CardToggle(a: set<nat>, b: set<nat>, i: nat)
    requires forall j :: j != i ==> (j in a <==> j in b)
    ensures |b| == |a| - One(i in a) + One(i in b)
  {
    if i in a && i !in b {
      assert a == b + {i};
    } else if i !in a && i in b {
      assert b == a + {i};
    } else {
      assert a == b;
    }
  }
}
