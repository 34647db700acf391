/** The index every grouping loop builds: append each row to the list kept under its key. */
module Grouping {
  import opened Options
  import opened Lists

  /** The items with key `k`, in their order. */
  function Bucket<T, K(==)>(items: seq<T>, key: T -> Option<K>, k: K): seq<T> {
    if items == [] then []
    else
      var last := items[|items|-1];
      Bucket(items[..|items|-1], key, k) + (if key(last) == Some(k) then [last] else [])
  }

  /** A missing list reads as an empty one. */
  function Get<T, K>(m: map<K, seq<T>>, k: K): seq<T> {
    if k in m then m[k] else []
  }

  ghost predicate Indexes<T, K(!new)>(m: map<K, seq<T>>, items: seq<T>, key: T -> Option<K>) {
    forall k :: Get(m, k) == Bucket(items, key, k) && (k in m <==> Bucket(items, key, k) != [])
  }

  /** Items without a key are skipped. */
  method IndexBy<T, K(==, !new)>(items: seq<T>, key: T -> Option<K>) returns (m: map<K, seq<T>>)
    ensures Indexes(m, items, key)
  {
    m := map[];
    for i := 0 to |items|
      invariant Indexes(m, items[..i], key)
    {
      assert items[..i+1][..i] == items[..i];
      if key(items[i]).Some? {
        var k := key(items[i]).value;
        if k !in m {
          m := m[k := []];
        }
        m := m[k := m[k] + [items[i]]];
      }
    }
    assert items[..|items|] == items;
  }

  /** Each item replaced by its summary. */
  function Summaries<T, S>(items: seq<T>, summary: T -> S): (r: seq<S>)
    ensures |r| == |items|
  {
    if items == [] then [] else Summaries(items[..|items|-1], summary) + [summary(items[|items|-1])]
  }

  /** The grouping loop that keeps a summary of each row. */
  method GroupRows<T(!new), K(==, !new), S>(rows: seq<T>, key: T -> K, summary: T -> S) returns (m: map<K, seq<S>>)
    ensures forall k :: Get(m, k) == Summaries(Bucket(rows, KeyOf(key), k), summary)
  {
    m := map[];
    for i := 0 to |rows|
      invariant forall k :: Get(m, k) == Summaries(Bucket(rows[..i], KeyOf(key), k), summary)
    {
      var k := key(rows[i]);
      ghost var before := m;
      m := m[k := Get(m, k) + [summary(rows[i])]];
      forall k' ensures Get(m, k') == Summaries(Bucket(rows[..i+1], KeyOf(key), k'), summary) {
        BucketAppend(rows, i, KeyOf(key), k');
        SummariesAppend(Bucket(rows[..i], KeyOf(key), k'), rows[i], summary);
        assert Get(before, k') == Summaries(Bucket(rows[..i], KeyOf(key), k'), summary);
        assert KeyOf(key)(rows[i]) == Some(k);
        if k' == k {
          assert Get(m, k) == Get(before, k) + [summary(rows[i])];
        } else {
          assert Get(m, k') == Get(before, k');
          assert Bucket(rows[..i], KeyOf(key), k') + [] == Bucket(rows[..i], KeyOf(key), k');
        }
      }
    }
    assert rows[..|rows|] == rows;
  }

  lemma BucketAppend<T, K>(items: seq<T>, i: nat, key: T -> Option<K>, k: K)
    requires i < |items|
    ensures Bucket(items[..i+1], key, k)
            == Bucket(items[..i], key, k) + (if key(items[i]) == Some(k) then [items[i]] else [])
  {
    assert items[..i+1][..i] == items[..i];
  }

  lemma SummariesAppend<T, S>(items: seq<T>, x: T, summary: T -> S)
    ensures Summaries(items + [x], summary) == Summaries(items, summary) + [summary(x)]
  {
    assert (items + [x])[..|items|] == items;
  }

  /** A key that is never missing. */
  function KeyOf<T(!new), K>(key: T -> K): (f: T -> Option<K>)
    ensures forall x {:trigger f(x)} :: f(x) == Some(key(x))
  {
    (x: T) => Some(key(x))
  }

  lemma {:induction false} BucketMembers<T, K>(items: seq<T>, key: T -> Option<K>, k: K, x: T)
    ensures x in Bucket(items, key, k) <==> x in items && key(x) == Some(k)
    decreases |items|
  {
    if items != [] {
      var front, last := items[..|items|-1], items[|items|-1];
      BucketMembers(front, key, k, x);
      assert items == front + [last];
    }
  }

  /** Whatever holds between any item and any later one holds in every bucket. */
  lemma {:induction false} BucketKeepsOrder<T, K>(items: seq<T>, key: T -> Option<K>, k: K, rel: (T, T) -> bool)
    requires InOrder(items, rel)
    ensures InOrder(Bucket(items, key, k), rel)
    decreases |items|
  {
    if items != [] {
      var front, last := items[..|items|-1], items[|items|-1];
      assert items == front + [last];
      BucketKeepsOrder(front, key, k, rel);
      var b := Bucket(front, key, k);
      forall x | x in b ensures rel(x, last) {
        BucketMembers(front, key, k, x);
        LastIsLater(front, last, rel, x);
      }
      OrderAppend(b, last, rel);
    }
  }

  lemma LastIsLater<T>(front: seq<T>, last: T, rel: (T, T) -> bool, x: T)
    requires InOrder(front + [last], rel) && x in front
    ensures rel(x, last)
  {
    var i :| 0 <= i < |front| && front[i] == x;
    assert (front + [last])[i] == x && (front + [last])[|front|] == last;
  }

  lemma OrderAppend<T>(b: seq<T>, x: T, rel: (T, T) -> bool)
    requires InOrder(b, rel) && forall y :: y in b ==> rel(y, x)
    ensures InOrder(b + [x], rel)
  {
  }

  lemma {:induction false} SummariesAt<T, S>(items: seq<T>, summary: T -> S, i: nat)
    requires i < |items|
    ensures Summaries(items, summary)[i] == summary(items[i])
    decreases |items|
  {
    if i < |items| - 1 { SummariesAt(items[..|items|-1], summary, i); }
  }

  lemma SummaryMembers<T, S>(items: seq<T>, summary: T -> S, s: S)
    ensures s in Summaries(items, summary) <==> exists x :: x in items && summary(x) == s
  {
    forall i | 0 <= i < |items| ensures Summaries(items, summary)[i] == summary(items[i]) {
      SummariesAt(items, summary, i);
    }
    if s in Summaries(items, summary) {
      var i :| 0 <= i < |items| && Summaries(items, summary)[i] == s;
      assert items[i] in items;
    }
    if x :| x in items && summary(x) == s {
      var i :| 0 <= i < |items| && items[i] == x;
      assert Summaries(items, summary)[i] == s;
    }
  }

  lemma SummariesDistinct<T, S>(items: seq<T>, summary: T -> S)
    requires NoDuplicates(items)
    requires forall x, y :: x in items && y in items && summary(x) == summary(y) ==> x == y
    ensures NoDuplicates(Summaries(items, summary))
  {
    forall i | 0 <= i < |items| ensures Summaries(items, summary)[i] == summary(items[i]) {
      SummariesAt(items, summary, i);
    }
  }

  lemma SummariesOrdered<T, S>(items: seq<T>, summary: T -> S, before: (T, T) -> bool, rel: (S, S) -> bool)
    requires forall i, j :: 0 <= i < j < |items| ==> before(items[i], items[j])
    requires forall x, y :: before(x, y) ==> rel(summary(x), summary(y))
    ensures var r := Summaries(items, summary); forall i, j :: 0 <= i < j < |r| ==> rel(r[i], r[j])
  {
    forall i | 0 <= i < |items| ensures Summaries(items, summary)[i] == summary(items[i]) {
      SummariesAt(items, summary, i);
    }
  }

  lemma {:induction false} SummariesConcat<T, S>(a: seq<T>, b: seq<T>, summary: T -> S)
    ensures Summaries(a + b, summary) == Summaries(a, summary) + Summaries(b, summary)
    decreases |b|
  {
    if b == [] {
      assert a + b == a;
    } else {
      var front, last := b[..|b|-1], b[|b|-1];
      assert (a + b)[..|a + b|-1] == a + front;
      SummariesConcat(a, front, summary);
    }
  }

  lemma SummaryParts<T, S>(items: seq<T>, i: nat, summary: T -> S)
    requires i < |items|
    ensures var before, after := Summaries(items[..i], summary), Summaries(items[i+1..], summary);
            && Summaries(items, summary) == (before + [summary(items[i])]) + after
            && Summaries(Without(items, i), summary) == before + after
  {
    var before, after := items[..i], items[i+1..];
    Rebuild(items, i);
    SummariesConcat(before, after, summary);
    SummariesAppend(before, items[i], summary);
    SummariesConcat(before + [items[i]], after, summary);
  }

  lemma SummaryWithout<T, S>(items: seq<T>, i: nat, summary: T -> S)
    requires i < |items|
    ensures multiset(Summaries(items, summary))
            == multiset(Summaries(Without(items, i), summary)) + multiset{summary(items[i])}
  {
    SummaryParts(items, i, summary);
    Middle(Summaries(items[..i], summary), summary(items[i]), Summaries(items[i+1..], summary));
  }

  lemma {:induction false} SummariesMultiset<T, S>(a: seq<T>, b: seq<T>, summary: T -> S)
    requires multiset(a) == multiset(b)
    ensures multiset(Summaries(a, summary)) == multiset(Summaries(b, summary))
    decreases |a|
  {
    if a == [] {
      assert |multiset(b)| == 0;
    } else {
      var j := TakeOut(a, 0, b);
      SummariesMultiset(Without(a, 0), Without(b, j), summary);
      SummaryWithout(a, 0, summary);
      SummaryWithout(b, j, summary);
    }
  }

  lemma {:induction false} SummariesOfSummaries<T, S, U>(items: seq<T>, f: T -> S, g: S -> U, h: T -> U)
    requires forall x :: h(x) == g(f(x))
    ensures Summaries(Summaries(items, f), g) == Summaries(items, h)
    decreases |items|
  {
    if items != [] {
      SummariesOfSummaries(items[..|items|-1], f, g, h);
      SummariesAppend(Summaries(items[..|items|-1], f), f(items[|items|-1]), g);
    }
  }

  function Then<T, S, U>(f: T -> S, g: S -> U): T -> U { (x: T) => g(f(x)) }
}
