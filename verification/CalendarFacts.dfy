/** What the finished calendar shows. */
module CalendarFacts {
  import opened Options
  import opened Gregorian
  import opened DateStrings
  import opened Grouping
  import opened DaySums
  import opened Calendar

  // ----- The grid -----

  lemma GridAt(input: Input, w: nat, k: nat)
    requires w < input.WeekCount() && k < 7
    ensures |input.Grid()| == input.WeekCount()
    ensures |input.Grid()[w]| == 7 && input.Grid()[w][k] == input.CellOf(input.CalStart() + 7 * w + k)
  {
    WeeksAt(input.CellOf, input.CalStart(), input.WeekCount(), w, k);
  }

  /** Every week is full and runs from Monday to Sunday, day after day, and a cell is in range
      exactly when its day is in the requested range. */
  lemma WeeksAreFull(input: Input, w: nat, k: nat)
    requires w < input.WeekCount() && k < 7
    ensures |input.Grid()| == input.WeekCount() && |input.Grid()[w]| == 7
    ensures var cell := input.Grid()[w][k];
            && cell.day == input.CalStart() + 7 * w + k && cell.dayOfWeek == k
            && (cell.inRange <==> input.start <= cell.day <= input.end)
  {
    GridIsWhole(input);
    CursorPosition(input.CalStart(), w, k);
    GridAt(input, w, k);
  }

  /** Only the cell of today is marked as today. */
  lemma TodayIsToday(input: Input, day: int)
    ensures input.CellOf(day).isToday <==> day == input.today
  {
    if FormatLocalDate(day) == FormatLocalDate(input.today) { FormatIsInjective(day, input.today); }
  }

  /** Every day of the requested range occurs exactly once in the grid. */
  lemma EveryDayOnce(input: Input, day: int) returns (w: nat, k: nat)
    requires input.start <= day <= input.end
    ensures w < |input.Grid()| && k < |input.Grid()[w]|
    ensures input.Grid()[w][k].day == day && input.Grid()[w][k].inRange
    ensures forall w', k' :: 0 <= w' < |input.Grid()| && 0 <= k' < |input.Grid()[w']| && input.Grid()[w'][k'].day == day
              ==> w' == w && k' == k
  {
    GridIsWhole(input);
    w, k := Position(day - input.CalStart(), input.WeekCount());
    WeeksAreFull(input, w, k);
    forall w', k' | 0 <= w' < |input.Grid()| && 0 <= k' < |input.Grid()[w']| && input.Grid()[w'][k'].day == day
      ensures w' == w && k' == k
    {
      GridAt(input, w', 0);
      WeeksAreFull(input, w', k');
      SamePosition(w, k, w', k');
    }
  }

  lemma Position(offset: int, weeks: nat) returns (w: nat, k: nat)
    requires 0 <= offset < 7 * weeks
    ensures offset == 7 * w + k && w < weeks && k < 7
  {
    w, k := offset / 7, offset % 7;
  }

  lemma SamePosition(w: nat, k: nat, w': nat, k': nat)
    requires 7 * w + k == 7 * w' + k' && k < 7 && k' < 7
    ensures w == w' && k == k'
  {
  }

  // ----- The headers -----

  /** The labelled days, in order, are the first Monday and the firsts of months. */
  lemma {:induction false} HeaderDaysAre(calStart: int, cursor: int)
    ensures var days := HeaderDays(calStart, cursor);
            && (forall i :: 0 <= i < |days| ==> calStart <= days[i] < cursor)
            && (forall i :: 0 <= i < |days| ==> days[i] == calStart || GetDate(days[i]) == 1)
            && (forall i, j :: 0 <= i < j < |days| ==> days[i] < days[j])
            && (forall day :: calStart <= day < cursor && (day == calStart || GetDate(day) == 1) ==> day in days)
            && (calStart < cursor ==> days != [] && days[0] == calStart)
    decreases cursor - calStart
  {
    if calStart < cursor {
      HeaderDaysAre(calStart, cursor - 1);
      var front, days := HeaderDays(calStart, cursor - 1), HeaderDays(calStart, cursor);
      assert cursor - 1 == calStart ==> front == [];
      assert forall day :: day in front ==> day in days;
    }
  }

  /** The only other header is that of the first Monday, above week 0. */
  lemma OtherHeaderIsFirst(calStart: int, cursor: int, h: nat)
    requires h < |HeaderDays(calStart, cursor)|
    requires GetDate(HeaderDays(calStart, cursor)[h]) != 1
    ensures h == 0 && HeaderDays(calStart, cursor)[h] == calStart
    ensures Headers(calStart, HeaderDays(calStart, cursor))[h] == Header(0, MonthName(GetMonth(calStart)))
  {
    HeaderDaysAre(calStart, cursor);
  }

  /** Week indices never decrease, and only week 0 can carry two headers: the first two. */
  lemma HeaderWeeks(calStart: int, cursor: int, i: nat, j: nat)
    requires i < j < |HeaderDays(calStart, cursor)|
    ensures var headers := Headers(calStart, HeaderDays(calStart, cursor));
            && headers[i].weekIndex <= headers[j].weekIndex
            && (headers[i].weekIndex == headers[j].weekIndex ==> headers[i].weekIndex == 0 && i == 0 && j == 1)
  {
    HeaderDaysAre(calStart, cursor);
    var days := HeaderDays(calStart, cursor);
    if (days[i] - calStart) / 7 == (days[j] - calStart) / 7 {
      if i > 0 { FirstsAreFarApart(days[i], days[j]); }
      if j > 1 { FirstsAreFarApart(days[1], days[j]); }
    }
  }

  lemma MonthNamesDiffer(m: int, n: int)
    requires 0 <= m <= 11 && 0 <= n <= 11 && m != n
    ensures MonthName(m) != MonthName(n)
  {
    assert MonthName(m)[0] != MonthName(n)[0] || MonthName(m)[1] != MonthName(n)[1]
        || MonthName(m)[2] != MonthName(n)[2];
  }

  /** No two headers are alike. */
  lemma HeadersDiffer(calStart: int, cursor: int, i: nat, j: nat)
    requires i < j < |HeaderDays(calStart, cursor)|
    ensures var headers := Headers(calStart, HeaderDays(calStart, cursor)); headers[i] != headers[j]
  {
    var days := HeaderDays(calStart, cursor);
    HeaderDaysAre(calStart, cursor);
    HeaderWeeks(calStart, cursor, i, j);
    if (days[i] - calStart) / 7 == (days[j] - calStart) / 7 {
      MonthsDiffer(days[i], days[j]);
      MonthNamesDiffer(GetMonth(days[i]), GetMonth(days[j]));
    }
  }

  /** A first of a month and a day of the week before it are in different months. */
  lemma {:induction false} MonthsDiffer(day: int, first: int)
    requires day < first < day + 7 && GetDate(first) == 1
    ensures GetMonth(day) != GetMonth(first)
  {
    var m := MonthOf(first) - 1;
    NextMonthStart(m);
    MonthIsUnique(day, m);
  }

  /** Every month whose first day is in the grid has exactly one header for it, above the week of
      that day, with the month's name; no other header is above that week with that name. */
  lemma OneHeaderPerMonth(calStart: int, cursor: int, day: int) returns (h: nat)
    requires calStart <= day < cursor && GetDate(day) == 1
    ensures var days := HeaderDays(calStart, cursor);
            var headers := Headers(calStart, days);
            && h < |headers| && days[h] == day
            && headers[h] == Header((day - calStart) / 7, MonthName(GetMonth(day)))
            && forall i :: 0 <= i < |headers| && i != h ==> days[i] != day && headers[i] != headers[h]
  {
    HeaderDaysAre(calStart, cursor);
    var days := HeaderDays(calStart, cursor);
    h :| 0 <= h < |days| && days[h] == day;
    forall i | 0 <= i < |days| && i != h
      ensures days[i] != day && Headers(calStart, days)[i] != Headers(calStart, days)[h]
    {
      if i < h { HeadersDiffer(calStart, cursor, i, h); } else { HeadersDiffer(calStart, cursor, h, i); }
    }
  }
}
