/** The part of SQL the queries need: three-valued truth, joins, filters and DISTINCT, on tables
    and results that are sequences of rows. */
module Relational {
  import opened Options
  import opened Lists

  datatype Truth = True | False | Unknown {
    function And(other: Truth): Truth {
      if this == False || other == False then False
      else if this == Unknown || other == Unknown then Unknown
      else True
    }

    function Or(other: Truth): Truth {
      if this == True || other == True then True
      else if this == Unknown || other == Unknown then Unknown
      else False
    }
  }

  function Holds(b: bool): Truth { if b then True else False }

  /** `x = y`, Unknown when either is NULL. */
  function Equal<T(==)>(x: Option<T>, y: Option<T>): Truth {
    if x.None? || y.None? then Unknown else Holds(x.value == y.value)
  }

  // ----- Joins -----

  /** The rows of the table that the condition pairs with `a`. */
  function Partners<A, B>(a: A, table: seq<B>, on: (A, B) -> Truth): seq<B> {
    if table == [] then []
    else (if on(a, table[0]) == True then [table[0]] else []) + Partners(a, table[1..], on)
  }

  function Pairs<A, B>(a: A, bs: seq<B>): (rows: seq<(A, Option<B>)>)
    ensures |rows| == |bs|
  {
    seq(|bs|, i requires 0 <= i < |bs| => (a, Some(bs[i])))
  }

  /** `rows LEFT JOIN table ON on`: a row without partners is kept once, padded with NULL. */
  function LeftJoin<A, B>(rows: seq<A>, table: seq<B>, on: (A, B) -> Truth): seq<(A, Option<B>)> {
    if rows == [] then []
    else
      var partners := Partners(rows[0], table, on);
      (if partners == [] then [(rows[0], None)] else Pairs(rows[0], partners)) + LeftJoin(rows[1..], table, on)
  }

  /** `rows JOIN table ON on`. */
  function Join<A, B>(rows: seq<A>, table: seq<B>, on: (A, B) -> Truth): seq<(A, B)> {
    if rows == [] then []
    else
      var partners := Partners(rows[0], table, on);
      seq(|partners|, i requires 0 <= i < |partners| => (rows[0], partners[i])) + Join(rows[1..], table, on)
  }

  function Where<A>(rows: seq<A>, condition: A -> Truth): seq<A> {
    if rows == [] then []
    else (if condition(rows[0]) == True then [rows[0]] else []) + Where(rows[1..], condition)
  }

  function Project<A, B>(rows: seq<A>, f: A -> B): seq<B> {
    if rows == [] then [] else [f(rows[0])] + Project(rows[1..], f)
  }

  function Distinct<A(==)>(rows: seq<A>): seq<A> {
    if rows == [] then []
    else
      var rest := Distinct(rows[1..]);
      if rows[0] in rest then rest else [rows[0]] + rest
  }

  // ----- Which rows are there -----

  /** `b` can stand next to `a` in the left join. */
  ghost predicate Joined<A, B>(a: A, b: Option<B>, table: seq<B>, on: (A, B) -> Truth) {
    match b
    case Some(x) => x in table && on(a, x) == True
    case None => forall x :: x in table ==> on(a, x) != True
  }

  lemma {:induction false} PartnersMembers<A, B>(a: A, table: seq<B>, on: (A, B) -> Truth, b: B)
    ensures b in Partners(a, table, on) <==> b in table && on(a, b) == True
    decreases |table|
  {
    if table != [] {
      PartnersMembers(a, table[1..], on, b);
      assert b in table <==> b == table[0] || b in table[1..];
    }
  }

  lemma JoinOfOne<A, B>(a: A, table: seq<B>, on: (A, B) -> Truth, b: Option<B>)
    ensures var partners := Partners(a, table, on);
            (a, b) in (if partners == [] then [(a, None)] else Pairs(a, partners)) <==> Joined(a, b, table, on)
  {
    var partners := Partners(a, table, on);
    forall x ensures x in partners <==> x in table && on(a, x) == True { PartnersMembers(a, table, on, x); }
    if b.Some? && b.value in partners {
      var i :| 0 <= i < |partners| && partners[i] == b.value;
      assert Pairs(a, partners)[i] == (a, b);
    }
    if partners != [] { assert partners[0] in partners; }
  }

  lemma {:induction false} LeftJoinMembers<A, B>(rows: seq<A>, table: seq<B>, on: (A, B) -> Truth, a: A, b: Option<B>)
    ensures (a, b) in LeftJoin(rows, table, on) <==> a in rows && Joined(a, b, table, on)
    decreases |rows|
  {
    if rows != [] {
      LeftJoinMembers(rows[1..], table, on, a, b);
      assert a in rows <==> a == rows[0] || a in rows[1..];
      var partners := Partners(rows[0], table, on);
      if a == rows[0] { JoinOfOne(a, table, on, b); }
    }
  }

  lemma {:induction false} WhereMembers<A>(rows: seq<A>, condition: A -> Truth, a: A)
    ensures a in Where(rows, condition) <==> a in rows && condition(a) == True
    decreases |rows|
  {
    if rows != [] {
      WhereMembers(rows[1..], condition, a);
      assert a in rows <==> a == rows[0] || a in rows[1..];
    }
  }

  lemma {:induction false} ProjectMembers<A, B>(rows: seq<A>, f: A -> B, b: B)
    ensures b in Project(rows, f) <==> exists a :: a in rows && f(a) == b
    decreases |rows|
  {
    if rows != [] {
      ProjectMembers(rows[1..], f, b);
      assert forall a :: a in rows <==> a == rows[0] || a in rows[1..];
    }
  }

  lemma {:induction false} DistinctMembers<A>(rows: seq<A>)
    ensures forall a :: a in Distinct(rows) <==> a in rows
    ensures forall i, j :: 0 <= i < j < |Distinct(rows)| ==> Distinct(rows)[i] != Distinct(rows)[j]
    decreases |rows|
  {
    if rows != [] {
      DistinctMembers(rows[1..]);
      assert forall a :: a in rows <==> a == rows[0] || a in rows[1..];
    }
  }

  /** A possible answer of a query with an ORDER BY: the rows in some order that obeys it. */
  ghost predicate IsOrdered<A>(answer: seq<A>, rows: seq<A>, before: (A, A) -> bool) {
    && multiset(answer) == multiset(rows)
    && forall i, j :: 0 <= i < j < |answer| ==> before(answer[i], answer[j])
  }

  lemma OrderedMembers<A>(answer: seq<A>, rows: seq<A>, before: (A, A) -> bool)
    requires IsOrdered(answer, rows, before)
    ensures forall a :: a in answer <==> a in rows
  {
    forall a ensures a in answer <==> a in rows {
      assert a in multiset(answer) <==> a in multiset(rows);
    }
  }

  /** Reordering does not create duplicates. */
  lemma OrderedDistinct<A>(answer: seq<A>, rows: seq<A>, before: (A, A) -> bool)
    requires IsOrdered(answer, rows, before)
    requires forall i, j :: 0 <= i < j < |rows| ==> rows[i] != rows[j]
    ensures forall i, j :: 0 <= i < j < |answer| ==> answer[i] != answer[j]
  {
    forall a | a in rows ensures multiset(rows)[a] == 1 {
      CountOnce(rows, a);
    }
    forall i, j | 0 <= i < j < |answer| ensures answer[i] != answer[j] {
      if answer[i] == answer[j] {
        OrderedMembers(answer, rows, before);
        CountTwice(answer, i, j);
      }
    }
  }

  // ----- Rows without duplicates -----

  lemma {:induction false} JoinMembers<A, B>(rows: seq<A>, table: seq<B>, on: (A, B) -> Truth, a: A, b: B)
    ensures (a, b) in Join(rows, table, on) <==> a in rows && b in table && on(a, b) == True
    decreases |rows|
  {
    if rows != [] {
      JoinMembers(rows[1..], table, on, a, b);
      assert a in rows <==> a == rows[0] || a in rows[1..];
      var partners := Partners(rows[0], table, on);
      var first := seq(|partners|, i requires 0 <= i < |partners| => (rows[0], partners[i]));
      PartnersMembers(rows[0], table, on, b);
      if b in partners {
        var i :| 0 <= i < |partners| && partners[i] == b;
        assert first[i] == (rows[0], b);
      }
      assert (a, b) in first <==> a == rows[0] && b in partners;
    }
  }

  lemma {:induction false} PartnersDistinct<A, B>(a: A, table: seq<B>, on: (A, B) -> Truth)
    requires NoDuplicates(table)
    ensures NoDuplicates(Partners(a, table, on))
    decreases |table|
  {
    if table != [] {
      PartnersDistinct(a, table[1..], on);
      PartnersMembers(a, table[1..], on, table[0]);
      assert table[0] !in table[1..];
    }
  }

  lemma {:induction false} JoinDistinct<A, B>(rows: seq<A>, table: seq<B>, on: (A, B) -> Truth)
    requires NoDuplicates(rows) && NoDuplicates(table)
    ensures NoDuplicates(Join(rows, table, on))
    decreases |rows|
  {
    if rows != [] {
      JoinDistinct(rows[1..], table, on);
      var partners := Partners(rows[0], table, on);
      PartnersDistinct(rows[0], table, on);
      var first := seq(|partners|, i requires 0 <= i < |partners| => (rows[0], partners[i]));
      assert rows[0] !in rows[1..];
      forall i | 0 <= i < |partners| ensures first[i] !in Join(rows[1..], table, on) {
        JoinMembers(rows[1..], table, on, rows[0], partners[i]);
      }
    }
  }

  lemma {:induction false} WhereDistinct<A>(rows: seq<A>, condition: A -> Truth)
    requires NoDuplicates(rows)
    ensures NoDuplicates(Where(rows, condition))
    decreases |rows|
  {
    if rows != [] {
      WhereDistinct(rows[1..], condition);
      WhereMembers(rows[1..], condition, rows[0]);
      assert rows[0] !in rows[1..];
    }
  }

  lemma {:induction false} ProjectDistinct<A, B>(rows: seq<A>, f: A -> B)
    requires NoDuplicates(rows)
    requires forall a, b :: a in rows && b in rows && f(a) == f(b) ==> a == b
    ensures NoDuplicates(Project(rows, f))
    decreases |rows|
  {
    if rows != [] {
      ProjectDistinct(rows[1..], f);
      ProjectMembers(rows[1..], f, f(rows[0]));
      assert rows[0] !in rows[1..];
    }
  }

  /** The rows of `SELECT f FROM join WHERE condition`. */
  lemma SelectMembers<R, T>(join: seq<R>, condition: R -> Truth, f: R -> T, x: T)
    ensures x in Project(Where(join, condition), f)
        <==> exists row :: row in join && condition(row) == True && f(row) == x
  {
    var kept := Where(join, condition);
    ProjectMembers(kept, f, x);
    if x in Project(kept, f) {
      var row :| row in kept && f(row) == x;
      WhereMembers(join, condition, row);
    }
    if row :| row in join && condition(row) == True && f(row) == x {
      WhereMembers(join, condition, row);
    }
  }

  lemma SelectDistinct<R, T>(join: seq<R>, condition: R -> Truth, f: R -> T)
    requires NoDuplicates(join)
    requires forall a, b :: a in join && b in join && f(a) == f(b) ==> a == b
    ensures NoDuplicates(Project(Where(join, condition), f))
  {
    WhereDistinct(join, condition);
    forall a, b | a in Where(join, condition) && b in Where(join, condition) && f(a) == f(b) ensures a == b {
      WhereMembers(join, condition, a);
      WhereMembers(join, condition, b);
    }
    ProjectDistinct(Where(join, condition), f);
  }

}
