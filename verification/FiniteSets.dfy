/** Counting in finite sets. */
module FiniteSets {

  lemma SubsetSize<T>(a: set<T>, b: set<T>)
    requires a <= b
    ensures |a| <= |b|
  {
    assert b == a + (b - a);
  }

  lemma {:induction false} FirstOf(s: set<nat>) returns (first: nat)
    requires s != {}
    ensures first in s && forall j :: j in s ==> first <= j
    decreases s
  {
    var x: nat :| x in s;
    if s == {x} {
      first := x;
    } else {
      var other := FirstOf(s - {x});
      first := if other < x then other else x;
      forall j | j in s ensures first <= j {
        assert j == x || j in s - {x};
      }
    }
  }

  /** A set of numbers between `lo` and `lo + n` has at most n elements. */
  lemma {:induction false} AtMost(s: set<nat>, lo: nat, n: nat)
    requires forall j :: j in s ==> lo <= j < lo + n
    ensures |s| <= n
    decreases n
  {
    if n > 0 {
      var last := lo + n - 1;
      AtMost(s - {last}, lo, n - 1);
      assert s <= (s - {last}) + {last};
      SubsetSize(s, (s - {last}) + {last});
    } else {
      assert s == {};
    }
  }

  /** A set that contains all the numbers from `lo` to `lo + n` has at least n elements. */
  lemma {:induction false} AtLeast(s: set<nat>, lo: nat, n: nat)
    requires forall j :: lo <= j < lo + n ==> j in s
    ensures |s| >= n
    decreases n
  {
    if n > 0 {
      AtLeast(s - {lo + n - 1}, lo, n - 1);
    }
  }
}
