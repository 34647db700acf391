/** Lists without duplicates, and lists that are the same up to order. */
module Lists {

  ghost predicate NoDuplicates<A>(rows: seq<A>) {
    forall i, j :: 0 <= i < j < |rows| ==> rows[i] != rows[j]
  }

  /** Any item is related to every later one. */
  ghost predicate InOrder<T>(items: seq<T>, rel: (T, T) -> bool) {
    forall i, j :: 0 <= i < j < |items| ==> rel(items[i], items[j])
  }

  lemma CountOnce<A>(rows: seq<A>, a: A)
    requires forall i, j :: 0 <= i < j < |rows| ==> rows[i] != rows[j]
    requires a in rows
    ensures multiset(rows)[a] == 1
  {
    var i :| 0 <= i < |rows| && rows[i] == a;
    assert rows == rows[..i] + [a] + rows[i+1..];
    assert a !in rows[..i] && a !in rows[i+1..];
  }

  lemma CountTwice<A>(rows: seq<A>, i: nat, j: nat)
    requires i < j < |rows| && rows[i] == rows[j]
    ensures multiset(rows)[rows[i]] >= 2
  {
    assert rows == rows[..i] + [rows[i]] + rows[i+1..j] + [rows[j]] + rows[j+1..];
  }

  /** Two lists of the same different elements are the same up to order. */
  lemma SameElements<A>(a: seq<A>, b: seq<A>)
    requires NoDuplicates(a) && NoDuplicates(b)
    requires forall x :: x in a <==> x in b
    ensures multiset(a) == multiset(b)
  {
    forall x ensures multiset(a)[x] == multiset(b)[x] {
      if x in a {
        CountOnce(a, x);
        CountOnce(b, x);
      }
    }
  }

  lemma SameMembers<T>(a: seq<T>, b: seq<T>)
    requires multiset(a) == multiset(b)
    ensures |a| == |b| && forall x :: x in a <==> x in b
  {
    assert |a| == |multiset(a)| && |b| == |multiset(b)|;
    forall x ensures x in a <==> x in b {
      assert x in a <==> x in multiset(a);
    }
  }

  function Without<T>(items: seq<T>, i: nat): (rest: seq<T>)
    requires i < |items|
    ensures |rest| == |items| - 1
  {
    items[..i] + items[i+1..]
  }

  lemma WithoutMultiset<T>(items: seq<T>, i: nat)
    requires i < |items|
    ensures multiset(Without(items, i)) == multiset(items) - multiset{items[i]}
  {
    assert items == items[..i] + ([items[i]] + items[i+1..]);
  }

  /** Two lists that are the same up to order stay so when the same item is taken out of both. */
  lemma TakeOut<T>(a: seq<T>, i: nat, b: seq<T>) returns (j: nat)
    requires multiset(a) == multiset(b) && i < |a|
    ensures |a| == |b| && j < |b| && b[j] == a[i] && multiset(Without(a, i)) == multiset(Without(b, j))
  {
    assert |a| == |multiset(a)| && |b| == |multiset(b)|;
    assert a[i] in multiset(b);
    j :| 0 <= j < |b| && b[j] == a[i];
    WithoutMultiset(a, i);
    WithoutMultiset(b, j);
  }

  lemma Middle<T>(before: seq<T>, x: T, after: seq<T>)
    ensures multiset((before + [x]) + after) == multiset(before + after) + multiset{x}
  {
  }

  lemma Rebuild<T>(items: seq<T>, i: nat)
    requires i < |items|
    ensures items == (items[..i] + [items[i]]) + items[i+1..]
  {
  }

  function Front<T>(s: seq<T>): seq<T>
    requires s != []
  {
    s[..|s|-1]
  }

  function Last<T>(s: seq<T>): T
    requires s != []
  {
    s[|s|-1]
  }

  lemma FrontMembers<T>(s: seq<T>)
    requires s != [] && NoDuplicates(s)
    ensures s == Front(s) + [Last(s)] && NoDuplicates(Front(s))
    ensures forall x :: x in Front(s) <==> x in s && x != Last(s)
  {
    assert s == Front(s) + [Last(s)];
  }

  lemma DropLast<T>(s: seq<T>)
    requires s != []
    ensures s == Front(s) + [Last(s)] && multiset(Front(s)) == multiset(s) - multiset{Last(s)}
  {
    assert s == Front(s) + [Last(s)];
  }

  lemma LastOfDescending(a: seq<int>, b: seq<int>)
    requires multiset(a) == multiset(b) && a != [] && b != []
    requires forall i, j :: 0 <= i < j < |a| ==> a[i] >= a[j]
    requires forall i, j :: 0 <= i < j < |b| ==> b[i] >= b[j]
    ensures Last(a) == Last(b)
  {
    SameMembers(a, b);
    assert Last(a) in b && Last(b) in a;
  }

  lemma {:induction false} DescendingIsUnique(a: seq<int>, b: seq<int>)
    requires multiset(a) == multiset(b)
    requires forall i, j :: 0 <= i < j < |a| ==> a[i] >= a[j]
    requires forall i, j :: 0 <= i < j < |b| ==> b[i] >= b[j]
    ensures a == b
    decreases |a|
  {
    SameMembers(a, b);
    if a != [] {
      LastOfDescending(a, b);
      DropLast(a);
      DropLast(b);
      DescendingIsUnique(Front(a), Front(b));
    }
  }

  ghost function Elements<T>(items: seq<T>): set<T> { set x | x in items }

  lemma {:induction false} SizeOfDistinct<T>(items: seq<T>)
    requires NoDuplicates(items)
    ensures |Elements(items)| == |items|
    decreases |items|
  {
    if items != [] {
      FrontMembers(items);
      SizeOfDistinct(Front(items));
      assert Elements(items) == Elements(Front(items)) + {Last(items)};
    }
  }

  // ----- Filtering -----

  /** The items that satisfy the condition, in their order. */
  function Filter<T>(items: seq<T>, keep: T -> bool): seq<T> {
    if items == [] then []
    else Filter(items[..|items|-1], keep) + (if keep(items[|items|-1]) then [items[|items|-1]] else [])
  }

  lemma FilterNext<T>(items: seq<T>, i: nat, keep: T -> bool)
    requires i < |items|
    ensures Filter(items[..i+1], keep) == Filter(items[..i], keep) + (if keep(items[i]) then [items[i]] else [])
  {
    assert items[..i+1][..i] == items[..i];
  }

  lemma {:induction false} FilterMembers<T>(items: seq<T>, keep: T -> bool, x: T)
    ensures x in Filter(items, keep) <==> x in items && keep(x)
    decreases |items|
  {
    if items != [] {
      FilterMembers(items[..|items|-1], keep, x);
      assert items == items[..|items|-1] + [items[|items|-1]];
    }
  }

  lemma {:induction false} FilterNone<T>(items: seq<T>, keep: T -> bool)
    requires forall i :: 0 <= i < |items| ==> !keep(items[i])
    ensures Filter(items, keep) == []
    decreases |items|
  {
    if items != [] { FilterNone(items[..|items|-1], keep); }
  }

  lemma {:induction false} FilterFirst<T>(items: seq<T>, keep: T -> bool, k: nat)
    requires k < |items| && keep(items[k])
    requires forall i :: 0 <= i < k ==> !keep(items[i])
    ensures Filter(items, keep) != [] && Filter(items, keep)[0] == items[k]
    decreases |items|
  {
    var front := items[..|items|-1];
    if k < |front| { FilterFirst(front, keep, k); } else { FilterNone(front, keep); }
  }

  lemma {:induction false} FilterOnly<T>(items: seq<T>, keep: T -> bool, k: nat)
    requires k < |items| && keep(items[k])
    requires forall i :: 0 <= i < |items| && i != k ==> !keep(items[i])
    ensures |Filter(items, keep)| == 1
    decreases |items|
  {
    var front := items[..|items|-1];
    if k < |front| { FilterOnly(front, keep, k); } else { FilterNone(front, keep); }
  }

  lemma {:induction false} FilterSplits<T>(items: seq<T>, keep: T -> bool, drop: T -> bool)
    requires forall x :: drop(x) <==> !keep(x)
    ensures |Filter(items, keep)| + |Filter(items, drop)| == |items|
    decreases |items|
  {
    if items != [] { FilterSplits(items[..|items|-1], keep, drop); }
  }

  /** Dropping something makes the list shorter. */
  lemma {:induction false} FilterDrops<T>(items: seq<T>, keep: T -> bool, x: T)
    ensures |Filter(items, keep)| <= |items|
    ensures x in items && !keep(x) ==> |Filter(items, keep)| < |items|
    decreases |items|
  {
    if items != [] {
      FilterDrops(items[..|items|-1], keep, x);
      assert items == items[..|items|-1] + [items[|items|-1]];
    }
  }

  lemma {:induction false} FilterKeepsDistinct<T>(items: seq<T>, keep: T -> bool)
    requires NoDuplicates(items)
    ensures NoDuplicates(Filter(items, keep))
    decreases |items|
  {
    if items != [] {
      var front, last := items[..|items|-1], items[|items|-1];
      FilterKeepsDistinct(front, keep);
      FilterMembers(front, keep, last);
      assert last !in front;
    }
  }
}
