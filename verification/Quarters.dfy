/** The quarter pickers: which quarter a date is in, and which days a quarter covers. */
module Quarters {
  import opened Gregorian

  function GetQuarter(day: int): int { GetMonth(day) / 3 + 1 }

  /** The date constructor of the browser reads the years 0 to 99 as 1900 to 1999. */
  function ConstructorYear(year: int): int { if 0 <= year <= 99 then 1900 + year else year }

  /** The first and the last day of a quarter; the last is day 0 of the month after it. */
  function GetQuarterBounds(year: int, quarter: int): (int, int) {
    var startMonth := (quarter - 1) * 3;
    (MonthStart(12 * ConstructorYear(year) + startMonth), MonthStart(12 * ConstructorYear(year) + startMonth + 3) - 1)
  }

  predicate InQuarter(day: int, year: int, quarter: int) {
    GetQuarterBounds(year, quarter).0 <= day <= GetQuarterBounds(year, quarter).1
  }

  /** The bounds cover exactly the quarter of the year the constructor reads. */
  lemma BoundsCoverQuarter(day: int, year: int, quarter: int)
    requires 1 <= quarter <= 4
    ensures InQuarter(day, year, quarter)
        <==> GetFullYear(day) == ConstructorYear(year) && GetQuarter(day) == quarter
  {
    var first := 12 * ConstructorYear(year) + (quarter - 1) * 3;
    MonthsOfRange(day, first, first + 3);
    QuarterOfMonth(MonthOf(day), ConstructorYear(year), quarter);
  }

  /** A day is between two month starts exactly when its month is. */
  lemma MonthsOfRange(day: int, first: int, end: int)
    ensures MonthStart(first) <= day < MonthStart(end) <==> first <= MonthOf(day) < end
  {
    var m := MonthOf(day);
    NextMonthStart(m);
    if m < first { MonthStartsGrow(m + 1, first); } else { MonthStartsGrow(first, m); }
    if m < end { MonthStartsGrow(m + 1, end); } else { MonthStartsGrow(end, m); }
  }

  lemma QuarterOfMonth(m: int, year: int, quarter: int)
    requires 1 <= quarter <= 4
    ensures var first := 12 * year + (quarter - 1) * 3;
            first <= m < first + 3 <==> m / 12 == year && m % 12 / 3 + 1 == quarter
  {
  }

  lemma FirstDayIsInQuarter(year: int, quarter: int)
    ensures InQuarter(GetQuarterBounds(year, quarter).0, year, quarter)
  {
    var first := 12 * ConstructorYear(year) + (quarter - 1) * 3;
    MonthStartsGrow(first, first + 3);
  }

  /** Quarters tile every year, except that the first hundred years cannot be asked for. */
  lemma QuartersTileYears(year: int, quarter: int)
    requires 1 <= quarter <= 4
    ensures (forall day :: InQuarter(day, year, quarter) <==> GetFullYear(day) == year && GetQuarter(day) == quarter)
        <==> !(0 <= year <= 99)
  {
    forall day ensures InQuarter(day, year, quarter)
        <==> GetFullYear(day) == ConstructorYear(year) && GetQuarter(day) == quarter
    {
      BoundsCoverQuarter(day, year, quarter);
    }
    FirstDayIsInQuarter(year, quarter);
  }

  /** Every day is in exactly one quarter of its year, and in none if the year cannot be asked for. */
  lemma OneQuarterPerDay(day: int)
    ensures 1 <= GetQuarter(day) <= 4
    ensures forall q :: 1 <= q <= 4 ==>
              (InQuarter(day, GetFullYear(day), q) <==> q == GetQuarter(day) && !(0 <= GetFullYear(day) <= 99))
  {
    forall q | 1 <= q <= 4
      ensures InQuarter(day, GetFullYear(day), q)
          <==> GetFullYear(day) == ConstructorYear(GetFullYear(day)) && GetQuarter(day) == q
    {
      BoundsCoverQuarter(day, GetFullYear(day), q);
    }
  }

  /** The quarters are January to March, April to June, July to September, October to December. */
  lemma QuarterMonths(day: int, year: int, quarter: int)
    requires 1 <= quarter <= 4
    ensures InQuarter(day, year, quarter)
        <==> && GetFullYear(day) == (if 0 <= year <= 99 then 1900 + year else year)
             && 3 * (quarter - 1) <= GetMonth(day) <= 3 * (quarter - 1) + 2
  {
    BoundsCoverQuarter(day, year, quarter);
  }
}
