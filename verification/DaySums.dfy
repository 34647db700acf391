/** Sums over consecutive days, and counting items by the day they are dated. */
module DaySums {
  import opened Options
  import opened Grouping

  /** What `f` makes of `n` consecutive days. */
  function Days<T>(f: int -> T, from: int, n: nat): (cells: seq<T>)
    ensures |cells| == n
  {
    if n == 0 then [] else Days(f, from, n - 1) + [f(from + n - 1)]
  }

  const DAYS_PER_WEEK := 7

  /** What `f` makes of `n` full, consecutive weeks. */
  function Weeks<T>(f: int -> T, monday: int, n: nat): (weeks: seq<seq<T>>)
    ensures |weeks| == n
  {
    if n == 0 then []
    else Weeks(f, monday, n - 1) + [Days(f, monday + DAYS_PER_WEEK * (n - 1), DAYS_PER_WEEK)]
  }

  lemma {:induction false} DaysAt<T>(f: int -> T, from: int, n: nat, k: nat)
    requires k < n
    ensures Days(f, from, n)[k] == f(from + k)
    decreases n
  {
    if k < n - 1 { DaysAt(f, from, n - 1, k); }
  }

  lemma {:induction false} WeeksAt<T>(f: int -> T, monday: int, n: nat, w: nat, k: nat)
    requires w < n && k < 7
    ensures |Weeks(f, monday, n)[w]| == 7 && Weeks(f, monday, n)[w][k] == f(monday + 7 * w + k)
    decreases n
  {
    if w < n - 1 { WeeksAt(f, monday, n - 1, w, k); } else { DaysAt(f, monday + 7 * w, 7, k); }
  }

  ghost predicate IsWeek<T>(week: seq<T>, monday: int, right: (int, T) -> bool) {
    |week| == 7 && forall k :: 0 <= k < 7 ==> right(monday + k, week[k])
  }

  /** Whole weeks from a Monday on, every cell of which is right for its day. */
  ghost predicate IsGrid<T>(weeks: seq<seq<T>>, monday: int, right: (int, T) -> bool) {
    forall w :: 0 <= w < |weeks| ==> IsWeek(weeks[w], monday + 7 * w, right)
  }

  lemma WeekIsRight<T>(f: int -> T, monday: int, n: nat, w: nat, right: (int, T) -> bool)
    requires w < n && forall day :: right(day, f(day))
    ensures IsWeek(Weeks(f, monday, n)[w], monday + 7 * w, right)
  {
    var week := Weeks(f, monday, n)[w];
    WeeksAt(f, monday, n, w, 0);
    forall k | 0 <= k < 7 ensures right(monday + 7 * w + k, week[k]) {
      WeeksAt(f, monday, n, w, k);
    }
  }

  lemma WeeksAreGrid<T>(f: int -> T, monday: int, n: nat, right: (int, T) -> bool)
    requires forall day :: right(day, f(day))
    ensures IsGrid(Weeks(f, monday, n), monday, right)
  {
    forall w | 0 <= w < n ensures IsWeek(Weeks(f, monday, n)[w], monday + 7 * w, right) {
      WeekIsRight(f, monday, n, w, right);
    }
  }

  function WeekTotal<T>(week: seq<T>, size: T -> nat): nat {
    if week == [] then 0 else WeekTotal(week[..|week|-1], size) + size(week[|week|-1])
  }

  function GridTotal<T>(weeks: seq<seq<T>>, size: T -> nat): nat {
    if weeks == [] then 0 else GridTotal(weeks[..|weeks|-1], size) + WeekTotal(weeks[|weeks|-1], size)
  }

  function SumOver(g: int -> nat, from: int, n: nat): nat {
    if n == 0 then 0 else SumOver(g, from, n - 1) + g(from + n - 1)
  }

  lemma {:induction false} WeekTotalByDay<T>(f: int -> T, size: T -> nat, g: int -> nat, from: int, n: nat)
    requires forall day :: g(day) == size(f(day))
    ensures WeekTotal(Days(f, from, n), size) == SumOver(g, from, n)
    decreases n
  {
    if n > 0 { WeekTotalByDay(f, size, g, from, n - 1); }
  }

  lemma {:induction false} SumSplits(g: int -> nat, from: int, m: nat, n: nat)
    ensures SumOver(g, from, m + n) == SumOver(g, from, m) + SumOver(g, from + m, n)
    decreases n
  {
    if n > 0 { SumSplits(g, from, m, n - 1); }
  }

  lemma {:induction false} GridTotalByDay<T>(f: int -> T, size: T -> nat, g: int -> nat, monday: int, n: nat)
    requires forall day :: g(day) == size(f(day))
    ensures GridTotal(Weeks(f, monday, n), size) == SumOver(g, monday, DAYS_PER_WEEK * n)
    decreases n
  {
    if n > 0 {
      GridTotalByDay(f, size, g, monday, n - 1);
      WeekTotalByDay(f, size, g, monday + DAYS_PER_WEEK * (n - 1), DAYS_PER_WEEK);
      SumSplits(g, monday, DAYS_PER_WEEK * (n - 1), DAYS_PER_WEEK);
    }
  }

  lemma {:induction false} SumOfNothing(g: int -> nat, from: int, n: nat)
    requires forall day :: from <= day < from + n ==> g(day) == 0
    ensures SumOver(g, from, n) == 0
    decreases n
  {
    if n > 0 {
      SumOfNothing(g, from, n - 1);
      assert g(from + n - 1) == 0;
    }
  }

  /** Only the days of a range count. */
  lemma SumOfRange(g: int -> nat, from: int, before: nat, n: nat, after: nat)
    requires forall day :: from <= day < from + before ==> g(day) == 0
    requires forall day :: from + before + n <= day < from + before + n + after ==> g(day) == 0
    ensures SumOver(g, from, before + n + after) == SumOver(g, from + before, n)
  {
    SumSplits(g, from, before, n + after);
    SumSplits(g, from + before, n, after);
    SumOfNothing(g, from, before);
    SumOfNothing(g, from + before + n, after);
    assert before + n + after == before + (n + after);
  }

  /** The item's key is the name of one of `n` days from `from` on. */
  ghost predicate DatedIn<T, K>(x: T, key: T -> Option<K>, name: int -> K, from: int, n: nat) {
    exists day :: from <= day < from + n && key(x) == Some(name(day))
  }

  ghost function CountDated<T, K>(items: seq<T>, key: T -> Option<K>, name: int -> K, from: int, n: nat): nat {
    if items == [] then 0
    else
      CountDated(items[..|items|-1], key, name, from, n)
      + (if DatedIn(items[|items|-1], key, name, from, n) then 1 else 0)
  }

  ghost predicate Injective<K>(name: int -> K) {
    forall a, b :: name(a) == name(b) ==> a == b
  }

  lemma DatedOnNextDay<T, K>(x: T, key: T -> Option<K>, name: int -> K, from: int, n: nat)
    requires Injective(name)
    ensures DatedIn(x, key, name, from, n + 1) <==> DatedIn(x, key, name, from, n) || key(x) == Some(name(from + n))
    ensures !(DatedIn(x, key, name, from, n) && key(x) == Some(name(from + n)))
  {
  }

  lemma {:induction false} CountDatedNextDay<T, K>(items: seq<T>, key: T -> Option<K>, name: int -> K, from: int,
                                                   n: nat)
    requires Injective(name)
    ensures CountDated(items, key, name, from, n + 1)
         == CountDated(items, key, name, from, n) + |Bucket(items, key, name(from + n))|
    decreases |items|
  {
    if items != [] {
      CountDatedNextDay(items[..|items|-1], key, name, from, n);
      DatedOnNextDay(items[|items|-1], key, name, from, n);
    }
  }

  lemma {:induction false} CountDatedNothing<T, K>(items: seq<T>, key: T -> Option<K>, name: int -> K, from: int)
    ensures CountDated(items, key, name, from, 0) == 0
    decreases |items|
  {
    if items != [] { CountDatedNothing(items[..|items|-1], key, name, from); }
  }

  /** With different names for different days, the sizes of the days' buckets add up to the number
      of items dated in the range. */
  lemma {:induction false} SumCountsItems<T, K>(items: seq<T>, key: T -> Option<K>, name: int -> K, g: int -> nat,
                                               from: int, n: nat)
    requires Injective(name)
    requires forall day :: from <= day < from + n ==> g(day) == |Bucket(items, key, name(day))|
    ensures SumOver(g, from, n) == CountDated(items, key, name, from, n)
    decreases n
  {
    if n == 0 {
      CountDatedNothing(items, key, name, from);
    } else {
      SumCountsItems(items, key, name, g, from, n - 1);
      CountDatedNextDay(items, key, name, from, n - 1);
      assert g(from + n - 1) == |Bucket(items, key, name(from + n - 1))|;
    }
  }

  /** A grid of whole weeks around a range, sized by the buckets inside the range, holds as many
      items as are dated in the range. */
  lemma GridCountsItems<C, T, K>(f: int -> C, size: C -> nat, items: seq<T>, key: T -> Option<K>, name: int -> K,
                                 monday: int, weeks: nat, start: int, n: nat)
    requires Injective(name)
    requires forall day :: size(f(day)) == if start <= day < start + n then |Bucket(items, key, name(day))| else 0
    requires n > 0 ==> monday <= start && start + n <= monday + DAYS_PER_WEEK * weeks
    ensures GridTotal(Weeks(f, monday, weeks), size) == CountDated(items, key, name, start, n)
  {
    var g: int -> nat := day => size(f(day));
    GridTotalByDay(f, size, g, monday, weeks);
    if n > 0 {
      assert SumOver(g, monday, DAYS_PER_WEEK * weeks) == SumOver(g, start, n) by {
        var lead := start - monday;
        SumOfRange(g, monday, lead, n, DAYS_PER_WEEK * weeks - lead - n);
      }
      SumCountsItems(items, key, name, g, start, n);
    } else {
      SumOfNothing(g, monday, DAYS_PER_WEEK * weeks);
      CountDatedNothing(items, key, name, start);
    }
  }
}
