/** Days, months and years of the proleptic Gregorian calendar. A day is its number, counted from
    January 1 of year 0; a month is its number, counted from January of year 0. */
module Gregorian {

  predicate IsLeap(y: int) { y % 4 == 0 && (y % 100 != 0 || y % 400 == 0) }

  function MonthLength(month: int): (n: int)
    ensures 28 <= n <= 31
  {
    var m := month % 12;
    if m == 1 then (if IsLeap(month / 12) then 29 else 28)
    else if m == 3 || m == 5 || m == 8 || m == 10 then 30
    else 31
  }

  /** The number of the first day of a month. */
  function MonthStart(month: int): int
    decreases if month < 0 then -month else month
  {
    if month == 0 then 0
    else if month > 0 then MonthStart(month - 1) + MonthLength(month - 1)
    else MonthStart(month + 1) - MonthLength(month)
  }

  lemma NextMonthStart(month: int)
    ensures MonthStart(month + 1) == MonthStart(month) + MonthLength(month)
  {
  }

  lemma {:induction false} MonthStartsGrow(m: int, n: int)
    requires m <= n
    ensures MonthStart(n) - MonthStart(m) >= 28 * (n - m)
    decreases n - m
  {
    if m < n {
      NextMonthStart(n - 1);
      MonthStartsGrow(m, n - 1);
    }
  }

  predicate InMonth(day: int, month: int) {
    MonthStart(month) <= day < MonthStart(month) + MonthLength(month)
  }

  /** The month of a day, found from the month `guess` by walking towards the day. */
  function MonthFrom(day: int, guess: int): (month: int)
    ensures InMonth(day, month)
    decreases day < MonthStart(guess),
              if day < MonthStart(guess) then MonthStart(guess) - day else day - MonthStart(guess)
  {
    NextMonthStart(guess);
    NextMonthStart(guess - 1);
    if day < MonthStart(guess) then MonthFrom(day, guess - 1)
    else if day >= MonthStart(guess + 1) then MonthFrom(day, guess + 1)
    else guess
  }

  function MonthOf(day: int): (month: int)
    ensures InMonth(day, month)
  {
    MonthFrom(day, 0)
  }

  lemma MonthIsUnique(day: int, month: int)
    ensures InMonth(day, month) <==> month == MonthOf(day)
  {
    var m := MonthOf(day);
    NextMonthStart(month);
    NextMonthStart(m);
    if month < m { MonthStartsGrow(month + 1, m); }
    if m < month { MonthStartsGrow(m + 1, month); }
  }

  // ----- The usual closed form -----

  /** Years before `y`, from year 0 on, that are multiples of `n`. */
  function MultiplesBefore(y: int, n: int): int
    requires n > 0
  {
    (y + n - 1) / n
  }

  function YearStart(y: int): int {
    365 * y + MultiplesBefore(y, 4) - MultiplesBefore(y, 100) + MultiplesBefore(y, 400)
  }

  lemma MultiplesStep(y: int, n: int)
    requires n == 4 || n == 100 || n == 400
    ensures MultiplesBefore(y + 1, n) - MultiplesBefore(y, n) == if y % n == 0 then 1 else 0
  {
  }

  lemma HundredsAreFours(y: int)
    ensures y % 100 == 0 ==> y % 4 == 0
  {
    if y % 100 == 0 { assert y == 4 * (25 * (y / 100)); }
  }

  lemma FourHundredsAreHundreds(y: int)
    ensures y % 400 == 0 ==> y % 100 == 0
  {
    if y % 400 == 0 { assert y == 100 * (4 * (y / 400)); }
  }

  lemma YearStartStep(y: int)
    ensures YearStart(y + 1) - YearStart(y) == if IsLeap(y) then 366 else 365
  {
    MultiplesStep(y, 4);
    MultiplesStep(y, 100);
    MultiplesStep(y, 400);
    HundredsAreFours(y);
    FourHundredsAreHundreds(y);
  }

  lemma MonthStep(y: int, m: int)
    requires 0 <= m < 12
    ensures MonthStart(12 * y + m + 1) - MonthStart(12 * y + m)
         == if m == 1 then (if IsLeap(y) then 29 else 28) else if m == 3 || m == 5 || m == 8 || m == 10 then 30 else 31
  {
    NextMonthStart(12 * y + m);
    assert (12 * y + m) % 12 == m && (12 * y + m) / 12 == y;
  }

  /** The lengths of the four quarters, numbered from 0. */
  lemma QuarterLength(y: int, q: int)
    requires 0 <= q < 4
    ensures MonthStart(12 * y + 3 * q + 3) - MonthStart(12 * y + 3 * q)
         == if q == 0 then (if IsLeap(y) then 91 else 90) else if q == 1 then 91 else 92
  {
    MonthStep(y, 3 * q);
    MonthStep(y, 3 * q + 1);
    MonthStep(y, 3 * q + 2);
  }

  lemma YearLength(y: int)
    ensures MonthStart(12 * (y + 1)) - MonthStart(12 * y) == if IsLeap(y) then 366 else 365
  {
    QuarterLength(y, 0);
    QuarterLength(y, 1);
    QuarterLength(y, 2);
    QuarterLength(y, 3);
  }

  ghost predicate CountedRight(y: int) { MonthStart(12 * y) == YearStart(y) }

  lemma CountedRightStep(y: int)
    ensures CountedRight(y) <==> CountedRight(y + 1)
  {
    YearLength(y);
    YearStartStep(y);
  }

  /** Counting month by month agrees with the closed form, in every year. */
  lemma {:induction false} YearStarts(y: int)
    ensures CountedRight(y)
    decreases if y < 0 then -y else y
  {
    if y > 0 {
      YearStarts(y - 1);
      CountedRightStep(y - 1);
    } else if y < 0 {
      YearStarts(y + 1);
      CountedRightStep(y);
    }
  }

  /** Days of a year before its month m: the usual linear formula, from March on. */
  function DaysBefore(y: int, m: nat): int {
    if m < 2 then 31 * m else 59 + (if IsLeap(y) then 1 else 0) + (153 * (m - 2) + 2) / 5
  }

  lemma DaysBeforeStep(y: int, m: nat)
    requires m < 12
    ensures DaysBefore(y, m + 1) - DaysBefore(y, m)
         == if m == 1 then (if IsLeap(y) then 29 else 28) else if m == 3 || m == 5 || m == 8 || m == 10 then 30 else 31
  {
    assert m >= 2 ==> (153 * (m - 1) + 2) / 5 - (153 * (m - 2) + 2) / 5
                      == if m == 3 || m == 5 || m == 8 || m == 10 then 30 else 31;
  }

  /** Every month starts where the closed form says. */
  lemma {:induction false} MonthStarts(y: int, m: nat)
    requires m <= 12
    ensures MonthStart(12 * y + m) == YearStart(y) + DaysBefore(y, m)
    decreases m
  {
    if m == 0 {
      YearStarts(y);
    } else {
      MonthStarts(y, m - 1);
      MonthStep(y, m - 1);
      DaysBeforeStep(y, m - 1);
    }
  }

  // ----- The fields of a date -----

  function GetFullYear(day: int): int { MonthOf(day) / 12 }

  /** January is 0. */
  function GetMonth(day: int): (m: int)
    ensures 0 <= m <= 11
  {
    MonthOf(day) % 12
  }

  function GetDate(day: int): (d: int)
    ensures 1 <= d <= 31
  {
    day - MonthStart(MonthOf(day)) + 1
  }

  /** Sunday is 0. */
  function GetDay(day: int): int { (day + 6) % 7 }

  /** The fields determine the day. */
  lemma FieldsDetermineDay(a: int, b: int)
    requires GetFullYear(a) == GetFullYear(b) && GetMonth(a) == GetMonth(b) && GetDate(a) == GetDate(b)
    ensures a == b
  {
    assert MonthOf(a) == MonthOf(b);
  }

  /** From one day to the next the month stays, or the next month begins. */
  lemma NextDay(day: int)
    ensures MonthOf(day) == MonthOf(day - 1) + (if GetDate(day) == 1 then 1 else 0)
  {
    var m := MonthOf(day);
    NextMonthStart(m - 1);
    if GetDate(day) == 1 { MonthIsUnique(day - 1, m - 1); } else { MonthIsUnique(day - 1, m); }
  }

  /** The first days of different months are at least four weeks apart. */
  lemma FirstsAreFarApart(a: int, b: int)
    requires GetDate(a) == 1 && GetDate(b) == 1 && a < b
    ensures a + 28 <= b
  {
    var m, n := MonthOf(a), MonthOf(b);
    if n <= m { MonthStartsGrow(n, m); } else { MonthStartsGrow(m, n); }
  }

  /** The order of days is the order of their years, months and dates. */
  lemma DayOrder(a: int, b: int)
    ensures a < b <==> || GetFullYear(a) < GetFullYear(b)
                       || (GetFullYear(a) == GetFullYear(b) && GetMonth(a) < GetMonth(b))
                       || (GetFullYear(a) == GetFullYear(b) && GetMonth(a) == GetMonth(b) && GetDate(a) < GetDate(b))
  {
    var m, n := MonthOf(a), MonthOf(b);
    NextMonthStart(m);
    NextMonthStart(n);
    if m < n { MonthStartsGrow(m + 1, n); }
    if n < m { MonthStartsGrow(n + 1, m); }
  }

  /** A date everyone can check: January 1, 1970 was a Thursday. */
  lemma EpochWasAThursday(epoch: int, year: int)
    requires epoch == 719528 && year == 1970
    ensures GetFullYear(epoch) == year && GetMonth(epoch) == 0 && GetDate(epoch) == 1 && GetDay(epoch) == 4
  {
    YearStarts(year);
    assert CountedRight(year);
    MonthIsUnique(epoch, 12 * year);
  }
}
