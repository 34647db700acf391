/** What the cells of the calendar show, in terms of the entries and their own dates. */
module CalendarCells {
  import opened Options
  import opened Lists
  import opened Gregorian
  import opened DateStrings
  import opened Grouping
  import opened DaySums
  import opened Calendar
  import opened CalendarFacts

  // ----- The highest importance -----

  /** Critical, high, medium, low, in this order; an achievement without importance is medium. */
  ghost predicate IsTop(achievements: seq<Achievement>, top: Option<Importance>) {
    if achievements == [] then top == None
    else if exists a :: a in achievements && a.importance == Some(Critical) then top == Some(Critical)
    else if exists a :: a in achievements && a.importance == Some(High) then top == Some(High)
    else if exists a :: a in achievements && a.importance in {Some(Medium), None} then top == Some(Medium)
    else top == Some(Low)
  }

  lemma TopIsTop(achievements: seq<Achievement>)
    ensures IsTop(achievements, TopImportance(achievements))
  {
    if achievements != [] {
      var k := TopImportanceIsFirstMaximum(achievements);
      assert achievements[k] in achievements;
      forall a | a in achievements ensures Rank(ImportanceOf(a)) <= Rank(ImportanceOf(achievements[k])) {
        var i :| 0 <= i < |achievements| && achievements[i] == a;
      }
    }
  }

  // ----- The dominant category -----

  /** A journal without category is general. */
  function HasCategory(category: string): (f: Journal -> bool)
    ensures forall j {:trigger f(j)} :: f(j) <==> j.category == category || (j.category == "" && category == "general")
  {
    (j: Journal) => j.category == category || (j.category == "" && category == "general")
  }

  function Times(journals: seq<Journal>, category: string): nat { |Filter(journals, HasCategory(category))| }

  /** Some journal of the one comes before every journal of the other. */
  ghost predicate OccursBefore(journals: seq<Journal>, d: string, c: string) {
    exists n :: 0 <= n < |journals| && HasCategory(d)(journals[n])
                && forall i :: 0 <= i <= n ==> !HasCategory(c)(journals[i])
  }

  /** The category is the most frequent; of several such it is the one that occurs last for the first
      time. Without journals it is general. */
  ghost predicate IsDominant(journals: seq<Journal>, c: string) {
    if journals == [] then c == "general"
    else
      && Times(journals, c) > 0
      && forall d :: d != c && d != "" && Times(journals, d) > 0 ==>
           Times(journals, d) < Times(journals, c)
           || (Times(journals, d) == Times(journals, c) && OccursBefore(journals, d, c))
  }

  lemma {:induction false} CountIsTimes(journals: seq<Journal>, c: string)
    requires c != ""
    ensures CountOf(journals, c) == Times(journals, c)
    decreases |journals|
  {
    if journals != [] { CountIsTimes(journals[..|journals|-1], c); }
  }

  lemma {:induction false} CategoriesOccur(journals: seq<Journal>, c: string)
    ensures c in Categories(journals) <==> c != "" && exists n :: 0 <= n < |journals| && HasCategory(c)(journals[n])
    decreases |journals|
  {
    if journals != [] {
      var front := journals[..|journals|-1];
      CategoriesOccur(front, c);
      assert forall n :: 0 <= n < |front| ==> front[n] == journals[n];
      assert c != "" ==> (CategoryOf(journals[|journals|-1]) == c <==> HasCategory(c)(journals[|journals|-1]));
    }
  }

  /** The categories are listed in the order of their first occurrence. */
  lemma {:induction false} CategoriesInOrder(journals: seq<Journal>, i: nat, k: nat)
    requires i < k < |Categories(journals)|
    ensures OccursBefore(journals, Categories(journals)[i], Categories(journals)[k])
    decreases |journals|
  {
    var front := journals[..|journals|-1];
    var d, c := Categories(journals)[i], Categories(journals)[k];
    assert forall n :: 0 <= n < |front| ==> front[n] == journals[n];
    if k < |Categories(front)| {
      CategoriesInOrder(front, i, k);
      var n :| 0 <= n < |front| && HasCategory(d)(front[n]) && forall m :: 0 <= m <= n ==> !HasCategory(c)(front[m]);
      assert HasCategory(d)(journals[n]);
    } else {
      CategoriesOccur(front, d);
      CategoriesOccur(front, c);
      var n :| 0 <= n < |front| && HasCategory(d)(front[n]);
      assert HasCategory(d)(journals[n]);
    }
  }

  lemma TimesOccur(journals: seq<Journal>, c: string)
    requires c != ""
    ensures c in Categories(journals) <==> Times(journals, c) > 0
  {
    CategoriesOccur(journals, c);
    if Times(journals, c) > 0 {
      var j := Filter(journals, HasCategory(c))[0];
      FilterMembers(journals, HasCategory(c), j);
      var n :| 0 <= n < |journals| && journals[n] == j;
      assert HasCategory(c)(journals[n]);
    }
    if n :| 0 <= n < |journals| && HasCategory(c)(journals[n]) {
      FilterMembers(journals, HasCategory(c), journals[n]);
    }
  }

  lemma DominantIsDominant(journals: seq<Journal>)
    ensures IsDominant(journals, DominantCategory(journals))
  {
    if journals != [] {
      var categories := Categories(journals);
      CategoriesOccur(journals, CategoryOf(journals[0]));
      assert HasCategory(CategoryOf(journals[0]))(journals[0]);
      var k := FoldIsLastMaximum(journals, categories);
      var c := categories[k];
      CategoriesOccur(journals, c);
      TimesOccur(journals, c);
      CountIsTimes(journals, c);
      forall d | d != c && d != "" && Times(journals, d) > 0
        ensures Times(journals, d) < Times(journals, c)
                || (Times(journals, d) == Times(journals, c) && OccursBefore(journals, d, c))
      {
        TimesOccur(journals, d);
        CountIsTimes(journals, d);
        var i :| 0 <= i < |categories| && categories[i] == d;
        if i < k { CategoriesInOrder(journals, i, k); }
      }
    }
  }

  // ----- The whole cell -----

  /** The entries of the day, if it is in range. */
  ghost predicate HoldsEntries(cell: Cell, start: int, end: int, journals: seq<Journal>,
                               achievements: seq<Achievement>) {
    && cell.journals == (if start <= cell.day <= end then Filter(journals, WrittenOn(cell.day)) else [])
    && cell.achievements == (if start <= cell.day <= end then Filter(achievements, AchievedOn(cell.day)) else [])
  }

  /** Sunday is day 0 of the browser's week and the last of the calendar's. */
  ghost predicate ShowsDay(cell: Cell, start: int, end: int, today: int) {
    && cell.dateStr == FormatLocalDate(cell.day)
    && (cell.inRange <==> start <= cell.day <= end)
    && cell.dayOfWeek == (if GetDay(cell.day) == 0 then 6 else GetDay(cell.day) - 1)
    && (cell.isWeekend <==> GetDay(cell.day) == 0 || GetDay(cell.day) == 6)
    && (cell.isToday <==> cell.day == today)
  }

  /** Counts, volume level, highest importance and dominant category are those of the entries. */
  ghost predicate SumsUpEntries(cell: Cell) {
    && cell.count == |cell.journals|
    && cell.level <= 4 && (cell.level == 4 <==> |cell.journals| >= 4)
    && (cell.level < 4 ==> cell.level == |cell.journals|)
    && (cell.hasAchievement <==> |cell.achievements| > 0)
    && IsTop(cell.achievements, cell.topImportance)
    && IsDominant(cell.journals, cell.dominantCategory)
  }

  /** Everything a cell shows. */
  ghost predicate Shows(cell: Cell, start: int, end: int, today: int, journals: seq<Journal>,
                        achievements: seq<Achievement>)
  {
    HoldsEntries(cell, start, end, journals, achievements) && ShowsDay(cell, start, end, today) && SumsUpEntries(cell)
  }

  lemma CellHolds(input: Input, day: int, journals: seq<Journal>, achievements: seq<Achievement>)
    requires JournalsFiled(input.journalMap, journals) && AchievementsFiled(input.achievementMap, achievements)
    ensures HoldsEntries(input.CellOf(day), input.start, input.end, journals, achievements)
  {
    assert Get(input.journalMap, FormatLocalDate(day)) == Filter(journals, WrittenOn(day));
    assert Get(input.achievementMap, FormatLocalDate(day)) == Filter(achievements, AchievedOn(day));
  }

  lemma WeekDayIs(day: int)
    ensures Input.WeekDay(day) == if GetDay(day) == 0 then 6 else GetDay(day) - 1
  {
    var d := GetDay(day);
    assert 0 <= d < 7;
  }

  lemma CellShowsDay(input: Input, day: int)
    ensures ShowsDay(input.CellOf(day), input.start, input.end, input.today)
  {
    WeekDayIs(day);
    TodayIsToday(input, day);
  }

  lemma CellSumsUp(input: Input, day: int)
    ensures SumsUpEntries(input.CellOf(day))
  {
    TopIsTop(input.AchievementsOn(day));
    DominantIsDominant(input.JournalsOn(day));
  }

  // ----- The sum of the counts -----

  function CellCount(cell: Cell): nat { cell.count }

  function WrittenWithin(start: int, end: int): (f: Journal -> bool)
    ensures forall j {:trigger f(j)} :: f(j) <==> exists day :: start <= day <= end && StampedOn(j.entryDate, day)
  {
    (j: Journal) => exists day :: start <= day <= end && StampedOn(j.entryDate, day)
  }

  lemma FormatIsInjectiveOnAll()
    ensures Injective(FormatLocalDate)
  {
    forall a, b | FormatLocalDate(a) == FormatLocalDate(b) ensures a == b { FormatIsInjective(a, b); }
  }

  function RangeLength(start: int, end: int): nat { if start <= end then end - start + 1 else 0 }

  lemma {:induction false} CountDatedIsFilter<T(!new), K>(items: seq<T>, key: T -> Option<K>, name: int -> K, from: int,
                                                          n: nat, keep: T -> bool)
    requires forall x :: DatedIn(x, key, name, from, n) <==> keep(x)
    ensures CountDated(items, key, name, from, n) == |Filter(items, keep)|
    decreases |items|
  {
    if items != [] { CountDatedIsFilter(items[..|items|-1], key, name, from, n, keep); }
  }

  lemma DatedMeansWritten(j: Journal, start: int, end: int)
    ensures DatedIn(j, JournalKey, FormatLocalDate, start, RangeLength(start, end)) <==> WrittenWithin(start, end)(j)
  {
    forall day ensures JournalKey(j) == Some(FormatLocalDate(day)) <==> StampedOn(j.entryDate, day) {
      KeyIsOfDay(j.entryDate, day);
    }
    if day :| start <= day <= end && StampedOn(j.entryDate, day) {
      assert JournalKey(j) == Some(FormatLocalDate(day));
    }
  }

  lemma CountOfDay(input: Input, journals: seq<Journal>, day: int)
    requires JournalsFiled(input.journalMap, journals)
    ensures CellCount(input.CellOf(day))
         == if input.InRange(day) then |Bucket(journals, JournalKey, FormatLocalDate(day))| else 0
  {
    assert Get(input.journalMap, FormatLocalDate(day)) == Filter(journals, WrittenOn(day));
    JournalsOfDay(journals, day);
  }

  /** The counts in the grid add up to the journals dated in the requested range: no entry is lost
      at the edges and none is counted twice. */
  lemma CountsAddUp(input: Input, journals: seq<Journal>)
    requires JournalsFiled(input.journalMap, journals)
    ensures GridTotal(input.Grid(), CellCount) == |Filter(journals, WrittenWithin(input.start, input.end))|
  {
    var n := RangeLength(input.start, input.end);
    GridIsWhole(input);
    FormatIsInjectiveOnAll();
    forall day ensures CellCount(input.CellOf(day))
        == if input.start <= day < input.start + n then |Bucket(journals, JournalKey, FormatLocalDate(day))| else 0
    {
      CountOfDay(input, journals, day);
    }
    GridCountsItems(input.CellOf, CellCount, journals, JournalKey, FormatLocalDate, input.CalStart(), input.WeekCount(),
                    input.start, n);
    forall j
      ensures DatedIn(j, JournalKey, FormatLocalDate, input.start, n) <==> WrittenWithin(input.start, input.end)(j)
    {
      DatedMeansWritten(j, input.start, input.end);
    }
    CountDatedIsFilter(journals, JournalKey, FormatLocalDate, input.start, n, WrittenWithin(input.start, input.end));
  }

  // ----- From the entries to the calendar -----

  /** A cell is right for a day if it is the day's and shows what it should. */
  ghost function RightCell(start: int, end: int, today: int, journals: seq<Journal>, achievements: seq<Achievement>)
      : (f: (int, Cell) -> bool)
    ensures forall day, cell {:trigger f(day, cell)} ::
              f(day, cell) <==> cell.day == day && Shows(cell, start, end, today, journals, achievements)
  {
    (day: int, cell: Cell) => cell.day == day && Shows(cell, start, end, today, journals, achievements)
  }

  lemma CellShows(input: Input, day: int, journals: seq<Journal>, achievements: seq<Achievement>)
    requires JournalsFiled(input.journalMap, journals) && AchievementsFiled(input.achievementMap, achievements)
    ensures RightCell(input.start, input.end, input.today, journals, achievements)(day, input.CellOf(day))
  {
    CellHolds(input, day, journals, achievements);
    CellShowsDay(input, day);
    CellSumsUp(input, day);
  }

  lemma GridIsRight(input: Input, journals: seq<Journal>, achievements: seq<Achievement>)
    requires JournalsFiled(input.journalMap, journals) && AchievementsFiled(input.achievementMap, achievements)
    ensures IsGrid(input.Grid(), input.CalStart(),
                   RightCell(input.start, input.end, input.today, journals, achievements))
  {
    var right := RightCell(input.start, input.end, input.today, journals, achievements);
    forall day ensures right(day, input.CellOf(day)) {
      CellShows(input, day, journals, achievements);
    }
    WeeksAreGrid(input.CellOf, input.CalStart(), input.WeekCount(), right);
  }

  lemma CalendarSpan(input: Input)
    ensures var monday, n := input.CalStart(), |input.Grid()|;
            && n == input.WeekCount()
            && GetDay(monday) == 1 && monday <= input.start < monday + 7
            && (input.start <= input.end ==> input.end <= monday + 7 * n - 1 < input.end + 7)
  {
    GridIsWhole(input);
    WeekDayIs(input.CalStart());
    assert 0 <= Input.WeekDay(input.start) < 7 && 0 <= Input.WeekDay(input.end) < 7;
  }

  /** The calendar of the entries: whole weeks from the last Monday not after the start to the first
      Sunday not before the end. */
  method BuildCalendar(start: int, end: int, today: int, journals: seq<Journal>, achievements: seq<Achievement>)
      returns (weeks: seq<seq<Cell>>, headers: seq<Header>, ghost monday: int)
    ensures IsGrid(weeks, monday, RightCell(start, end, today, journals, achievements))
    ensures GetDay(monday) == 1 && monday <= start < monday + 7
    ensures start <= end ==> end <= monday + 7 * |weeks| - 1 < end + 7
    ensures headers == Headers(monday, HeaderDays(monday, monday + 7 * |weeks|))
    ensures GridTotal(weeks, CellCount) == |Filter(journals, WrittenWithin(start, end))|
  {
    var journalMap, achievementMap := IndexEntries(journals, achievements);
    var input := Input(start, end, today, journalMap, achievementMap);
    weeks, headers := Build(input);
    monday := input.CalStart();
    assert headers == Headers(monday, HeaderDays(monday, monday + 7 * |weeks|));
    CalendarSpan(input);
    GridIsRight(input, journals, achievements);
    CountsAddUp(input, journals);
  }
}
