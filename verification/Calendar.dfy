/** The activity calendar: one cursor walks from the Monday on or before the start to the Sunday on
    or after the end, filling weeks of seven cells and putting month headers above them. */
module Calendar {
  import opened Options
  import opened Gregorian
  import opened DateStrings
  import opened Grouping
  import opened Lists
  import opened DaySums

  /** A date as an entry carries it: a timestamp, which the browser turns into a local day, or
      text whose part up to the first space is the date. */
  datatype Stamp = Timestamp(day: int) | Text(text: string)

  datatype Journal = Journal(id: int, entryDate: Option<Stamp>, category: string)

  datatype Importance = Low | Medium | High | Critical

  datatype Achievement = Achievement(
    id: int, achievedDate: Option<Stamp>, createdAt: Option<Stamp>, importance: Option<Importance>)

  function UpToSpace(s: string): string {
    if s == [] || s[0] == ' ' then [] else [s[0]] + UpToSpace(s[1..])
  }

  /** The key an entry is indexed under; empty keys do not count. */
  function DayKey(stamp: Option<Stamp>): Option<string> {
    match stamp
    case None => None
    case Some(Timestamp(day)) => Some(FormatLocalDate(day))
    case Some(Text(text)) => if UpToSpace(text) == "" then None else Some(UpToSpace(text))
  }

  function JournalKey(j: Journal): Option<string> { DayKey(j.entryDate) }

  function IsPresent(stamp: Option<Stamp>): bool { stamp.Some? && stamp.value != Text("") }

  function AchievementKey(a: Achievement): Option<string> {
    DayKey(if IsPresent(a.achievedDate) then a.achievedDate else a.createdAt)
  }

  // ----- Which entries belong to a day -----

  /** The entry carries a timestamp of the day, or text that is the day's date, alone or before the
      first blank. */
  predicate StampedOn(stamp: Option<Stamp>, day: int) {
    match stamp
    case None => false
    case Some(Timestamp(d)) => d == day
    case Some(Text(t)) => IsUpToBlank(FormatLocalDate(day), t)
  }

  predicate IsUpToBlank(s: string, t: string) {
    t == s || (|t| > |s| && t[..|s|] == s && t[|s|] == ' ')
  }

  function WrittenOn(day: int): (f: Journal -> bool)
    ensures forall j {:trigger f(j)} :: f(j) == StampedOn(j.entryDate, day)
  {
    (j: Journal) => StampedOn(j.entryDate, day)
  }

  /** By the date achieved if there is one, and else by the time of creation. */
  function AchievedOn(day: int): (f: Achievement -> bool)
    ensures forall a {:trigger f(a)} ::
              f(a) == StampedOn(if a.achievedDate == None || a.achievedDate == Some(Text("")) then a.createdAt
                                else a.achievedDate, day)
  {
    (a: Achievement) =>
      StampedOn(if a.achievedDate == None || a.achievedDate == Some(Text("")) then a.createdAt else a.achievedDate, day)
  }

  lemma {:induction false} UpToSpaceIs(t: string, s: string)
    requires ' ' !in s
    ensures UpToSpace(t) == s <==> IsUpToBlank(s, t)
    decreases |t|
  {
    if t == [] || t[0] == ' ' {
      assert s != [] ==> s[0] != ' ';
    } else if s != [] && s[0] == t[0] {
      UpToSpaceIs(t[1..], s[1..]);
      assert t == [t[0]] + t[1..] && s == [s[0]] + s[1..];
      if |t| > |s| { assert t[1..][..|s|-1] == t[..|s|][1..]; }
    } else if s != [] && |t| > |s| {
      assert t[..|s|][0] == t[0];
    }
  }

  lemma {:induction false} PaddedHasNoBlank(n: nat, width: nat)
    ensures ' ' !in Padded(n, width)
    decreases width
  {
    if width > 0 { PaddedHasNoBlank(n / 10, width - 1); }
  }

  lemma {:induction false} DecimalHasNoBlank(n: nat)
    ensures ' ' !in Decimal(n)
    decreases n
  {
    if n >= 10 { DecimalHasNoBlank(n / 10); }
  }

  lemma DateHasNoBlank(day: int)
    ensures FormatLocalDate(day) != "" && ' ' !in FormatLocalDate(day)
  {
    YearHasNoBlank(GetFullYear(day));
    PaddedHasNoBlank(GetMonth(day) + 1, 2);
    PaddedHasNoBlank(GetDate(day), 2);
    assert ' ' !in Tail(day);
  }

  lemma YearHasNoBlank(y: int)
    ensures IntString(y) != "" && ' ' !in IntString(y)
  {
    DecimalHasNoBlank(if y < 0 then -y else y);
  }

  lemma KeyIsOfDay(stamp: Option<Stamp>, day: int)
    ensures DayKey(stamp) == Some(FormatLocalDate(day)) <==> StampedOn(stamp, day)
  {
    match stamp
    case None =>
    case Some(Timestamp(d)) => if FormatLocalDate(d) == FormatLocalDate(day) { FormatIsInjective(d, day); }
    case Some(Text(t)) =>
      DateHasNoBlank(day);
      UpToSpaceIs(t, FormatLocalDate(day));
  }

  lemma {:induction false} BucketIsFilter<T(!new), K>(items: seq<T>, key: T -> Option<K>, k: K, keep: T -> bool)
    requires forall x :: key(x) == Some(k) <==> keep(x)
    ensures Bucket(items, key, k) == Filter(items, keep)
    decreases |items|
  {
    if items != [] { BucketIsFilter(items[..|items|-1], key, k, keep); }
  }

  lemma JournalsOfDay(journals: seq<Journal>, day: int)
    ensures Bucket(journals, JournalKey, FormatLocalDate(day)) == Filter(journals, WrittenOn(day))
  {
    forall j ensures JournalKey(j) == Some(FormatLocalDate(day)) <==> WrittenOn(day)(j) {
      KeyIsOfDay(j.entryDate, day);
    }
    BucketIsFilter(journals, JournalKey, FormatLocalDate(day), WrittenOn(day));
  }

  lemma AchievementsOfDay(achievements: seq<Achievement>, day: int)
    ensures Bucket(achievements, AchievementKey, FormatLocalDate(day)) == Filter(achievements, AchievedOn(day))
  {
    forall a ensures AchievementKey(a) == Some(FormatLocalDate(day)) <==> AchievedOn(day)(a) {
      KeyIsOfDay(if IsPresent(a.achievedDate) then a.achievedDate else a.createdAt, day);
    }
    BucketIsFilter(achievements, AchievementKey, FormatLocalDate(day), AchievedOn(day));
  }

  ghost predicate JournalsFiled(journalMap: map<string, seq<Journal>>, journals: seq<Journal>) {
    forall day :: Get(journalMap, FormatLocalDate(day)) == Filter(journals, WrittenOn(day))
  }

  ghost predicate AchievementsFiled(achievementMap: map<string, seq<Achievement>>, achievements: seq<Achievement>) {
    forall day :: Get(achievementMap, FormatLocalDate(day)) == Filter(achievements, AchievedOn(day))
  }

  /** Both indexes: under each day's date, the entries of that day, in their order. */
  method IndexEntries(journals: seq<Journal>, achievements: seq<Achievement>)
      returns (journalMap: map<string, seq<Journal>>, achievementMap: map<string, seq<Achievement>>)
    ensures JournalsFiled(journalMap, journals) && AchievementsFiled(achievementMap, achievements)
  {
    journalMap := IndexBy(journals, JournalKey);
    achievementMap := IndexBy(achievements, AchievementKey);
    forall day
      ensures Get(journalMap, FormatLocalDate(day)) == Filter(journals, WrittenOn(day))
      ensures Get(achievementMap, FormatLocalDate(day)) == Filter(achievements, AchievedOn(day))
    {
      JournalsOfDay(journals, day);
      AchievementsOfDay(achievements, day);
    }
  }

  // ----- One cell -----

  function ImportanceOf(a: Achievement): Importance { if a.importance == None then Medium else a.importance.value }

  function Rank(importance: Importance): int {
    match importance
    case Critical => 4
    case High => 3
    case Medium => 2
    case Low => 1
  }

  /** The importance of the first achievement of highest rank. */
  function TopImportance(achievements: seq<Achievement>): Option<Importance> {
    if achievements == [] then None
    else
      var top := TopImportance(achievements[..|achievements|-1]);
      var imp := ImportanceOf(achievements[|achievements|-1]);
      if top.None? || Rank(imp) > Rank(top.value) then Some(imp) else top
  }

  lemma {:induction false} TopImportanceIsFirstMaximum(achievements: seq<Achievement>) returns (k: nat)
    requires achievements != []
    ensures k < |achievements| && TopImportance(achievements) == Some(ImportanceOf(achievements[k]))
    ensures forall i :: 0 <= i < |achievements| ==>
              Rank(ImportanceOf(achievements[i])) <= Rank(ImportanceOf(achievements[k]))
    ensures forall i :: 0 <= i < k ==> Rank(ImportanceOf(achievements[i])) < Rank(ImportanceOf(achievements[k]))
    decreases |achievements|
  {
    var front, n := achievements[..|achievements|-1], |achievements| - 1;
    if front == [] {
      k := 0;
    } else {
      k := TopImportanceIsFirstMaximum(front);
      if Rank(ImportanceOf(achievements[n])) > Rank(ImportanceOf(front[k])) { k := n; }
    }
  }

  function CategoryOf(j: Journal): string { if j.category == "" then "general" else j.category }

  /** The categories that occur, in the order of their first occurrence. */
  function Categories(journals: seq<Journal>): seq<string> {
    if journals == [] then []
    else
      var front := Categories(journals[..|journals|-1]);
      var c := CategoryOf(journals[|journals|-1]);
      if c in front then front else front + [c]
  }

  function CountOf(journals: seq<Journal>, category: string): nat {
    if journals == [] then 0
    else
      CountOf(journals[..|journals|-1], category)
      + (if CategoryOf(journals[|journals|-1]) == category then 1 else 0)
  }

  /** The fold that keeps the later of two categories unless the earlier one counts more. */
  function Fold(journals: seq<Journal>, categories: seq<string>): string
    requires categories != []
  {
    if |categories| == 1 then categories[0]
    else
      var best, last := Fold(journals, categories[..|categories|-1]), categories[|categories|-1];
      if CountOf(journals, best) > CountOf(journals, last) then best else last
  }

  function DominantCategory(journals: seq<Journal>): string {
    if Categories(journals) == [] then "general" else Fold(journals, Categories(journals))
  }

  /** The dominant category is the last first-seen one among those of highest count. */
  lemma {:induction false} FoldIsLastMaximum(journals: seq<Journal>, categories: seq<string>) returns (k: nat)
    requires categories != []
    ensures k < |categories| && Fold(journals, categories) == categories[k]
    ensures forall i :: 0 <= i < |categories| ==> CountOf(journals, categories[i]) <= CountOf(journals, categories[k])
    ensures forall i :: k < i < |categories| ==> CountOf(journals, categories[i]) < CountOf(journals, categories[k])
    decreases |categories|
  {
    var front, n := categories[..|categories|-1], |categories| - 1;
    if front == [] {
      k := 0;
    } else {
      k := FoldIsLastMaximum(journals, front);
      if !(CountOf(journals, front[k]) > CountOf(journals, categories[n])) { k := n; }
    }
  }

  datatype Cell = Cell(
    day: int, dateStr: string, inRange: bool, dayOfWeek: int, isWeekend: bool, isToday: bool,
    count: nat, level: nat, hasAchievement: bool, topImportance: Option<Importance>, dominantCategory: string,
    journals: seq<Journal>, achievements: seq<Achievement>)

  /** What the calendar is drawn from: the range, today, and the two indexes. */
  datatype Input = Input(
    start: int, end: int, today: int,
    journalMap: map<string, seq<Journal>>, achievementMap: map<string, seq<Achievement>>)
  {
    /** Monday is 0. */
    static function WeekDay(day: int): int { (GetDay(day) + 6) % 7 }

    function CalStart(): int { start - WeekDay(start) }

    function CalEnd(): int { end + (6 - WeekDay(end)) }

    function InRange(day: int): bool { start <= day <= end }

    function JournalsOn(day: int): seq<Journal> {
      if InRange(day) then Get(journalMap, FormatLocalDate(day)) else []
    }

    function AchievementsOn(day: int): seq<Achievement> {
      if InRange(day) then Get(achievementMap, FormatLocalDate(day)) else []
    }

    function CellOf(day: int): Cell {
      var journals, achievements := JournalsOn(day), AchievementsOn(day);
      Cell(day, FormatLocalDate(day), InRange(day), WeekDay(day), WeekDay(day) >= 5,
           FormatLocalDate(day) == FormatLocalDate(today),
           |journals|, if |journals| >= 4 then 4 else |journals|, achievements != [],
           TopImportance(achievements), DominantCategory(journals), journals, achievements)
    }

    function WeekCount(): nat { if CalEnd() < CalStart() then 0 else (CalEnd() - CalStart() + 1) / 7 }

    function Grid(): seq<seq<Cell>> { Weeks(CellOf, CalStart(), WeekCount()) }
  }

  /** The first Monday and every first of a month, up to the cursor. */
  function HeaderDays(calStart: int, cursor: int): seq<int>
    decreases cursor - calStart
  {
    if cursor <= calStart then []
    else
      HeaderDays(calStart, cursor - 1)
      + (if cursor - 1 == calStart || GetDate(cursor - 1) == 1 then [cursor - 1] else [])
  }

  datatype Header = Header(weekIndex: int, name: string)

  function MonthName(m: int): string
    requires 0 <= m <= 11
  {
    ["Jan", "Feb", "Mar", "Apr", "May", "Jun", "Jul", "Aug", "Sep", "Oct", "Nov", "Dec"][m]
  }

  function HeaderOf(calStart: int, day: int): Header {
    Header((day - calStart) / 7, MonthName(GetMonth(day)))
  }

  function Headers(calStart: int, days: seq<int>): (headers: seq<Header>)
    ensures |headers| == |days|
  {
    seq(|days|, i requires 0 <= i < |days| => HeaderOf(calStart, days[i]))
  }

  // ----- The loop -----

  method FindTopImportance(achievements: seq<Achievement>) returns (top: Option<Importance>)
    ensures top == TopImportance(achievements)
  {
    top := None;
    for i := 0 to |achievements|
      invariant top == TopImportance(achievements[..i])
    {
      assert achievements[..i+1][..i] == achievements[..i];
      var imp := ImportanceOf(achievements[i]);
      if top.None? || Rank(imp) > Rank(top.value) {
        top := Some(imp);
      }
    }
    assert achievements[..|achievements|] == achievements;
  }

  /** Counts per category, and the categories in order of first occurrence. */
  method CountCategories(journals: seq<Journal>) returns (categories: seq<string>, counts: map<string, nat>)
    ensures categories == Categories(journals)
    ensures forall c :: c in categories ==> c in counts && counts[c] == CountOf(journals, c)
  {
    categories, counts := [], map[];
    for i := 0 to |journals|
      invariant categories == Categories(journals[..i])
      invariant forall c :: c in categories <==> c in counts
      invariant forall c :: (if c in counts then counts[c] else 0) == CountOf(journals[..i], c)
    {
      assert journals[..i+1][..i] == journals[..i];
      var c := CategoryOf(journals[i]);
      if c !in counts {
        categories := categories + [c];
      }
      counts := counts[c := (if c in counts then counts[c] else 0) + 1];
    }
    assert journals[..|journals|] == journals;
  }

  method FindDominantCategory(journals: seq<Journal>) returns (dominant: string)
    ensures dominant == DominantCategory(journals)
  {
    dominant := "general";
    var categories, counts := CountCategories(journals);
    if categories != [] {
      dominant := categories[0];
      for i := 1 to |categories|
        invariant dominant == Fold(journals, categories[..i]) && dominant in categories
      {
        assert categories[..i+1][..i] == categories[..i];
        if !(counts[dominant] > counts[categories[i]]) {
          dominant := categories[i];
        }
      }
      assert categories[..|categories|] == categories;
    }
  }

  method MakeCell(input: Input, day: int) returns (cell: Cell)
    ensures cell == input.CellOf(day)
  {
    var dateStr := FormatLocalDate(day);
    var inRange := input.start <= day && day <= input.end;
    var journals := if inRange then Get(input.journalMap, dateStr) else [];
    var achievements := if inRange then Get(input.achievementMap, dateStr) else [];
    var count := |journals|;
    var topImportance := FindTopImportance(achievements);
    var dominantCategory := FindDominantCategory(journals);
    var dayOfWeek := Input.WeekDay(day);
    var level :=
      if count == 1 then 1
      else if count == 2 then 2
      else if count == 3 then 3
      else if count >= 4 then 4
      else 0;
    cell := Cell(day, dateStr, inRange, dayOfWeek, dayOfWeek >= 5, dateStr == FormatLocalDate(input.today),
                 count, level, achievements != [], topImportance, dominantCategory, journals, achievements);
  }

  /** A first of a month is in the month after that of the day before. */
  lemma LabelIsNew(day: int)
    requires GetDate(day) == 1
    ensures GetMonth(day) != GetMonth(day - 1)
  {
    NextDay(day);
  }

  lemma LabelIsOld(day: int)
    requires GetDate(day) != 1
    ensures GetMonth(day) == GetMonth(day - 1)
  {
    NextDay(day);
  }

  lemma HeadersAppend(calStart: int, days: seq<int>, day: int)
    ensures Headers(calStart, days + [day]) == Headers(calStart, days) + [HeaderOf(calStart, day)]
  {
  }

  /** In the grid the position in the week is the day of the week. */
  lemma CursorPosition(monday: int, w: nat, k: nat)
    requires Input.WeekDay(monday) == 0 && k < 7
    ensures var day := monday + 7 * w + k; Input.WeekDay(day) == k && (day - monday) / 7 == w
  {
  }

  lemma WeekEnds(day: int)
    ensures Input.WeekDay(day - Input.WeekDay(day)) == 0 && Input.WeekDay(day + (6 - Input.WeekDay(day))) == 6
  {
    assert Input.WeekDay(day) == (day + 5) % 7;
  }

  lemma MondayToSunday(monday: int, sunday: int)
    requires Input.WeekDay(monday) == 0 && Input.WeekDay(sunday) == 6
    ensures (sunday - monday + 1) % 7 == 0
  {
    assert (monday + 5) % 7 == 0 && (sunday + 5) % 7 == 6;
  }

  lemma WeeksBetween(monday: int, sunday: int, n: int)
    requires Input.WeekDay(monday) == 0 && Input.WeekDay(sunday) == 6 && n == (sunday - monday + 1) / 7
    ensures sunday == monday + 7 * n - 1
  {
    MondayToSunday(monday, sunday);
  }

  /** The walk starts on a Monday, ends on a Sunday, and covers whole weeks. */
  lemma GridIsWhole(input: Input)
    ensures Input.WeekDay(input.CalStart()) == 0 && Input.WeekDay(input.CalEnd()) == 6
    ensures if input.CalEnd() < input.CalStart() then input.WeekCount() == 0
            else input.CalEnd() == input.CalStart() + 7 * input.WeekCount() - 1
  {
    var calStart, calEnd := input.CalStart(), input.CalEnd();
    WeekEnds(input.start);
    WeekEnds(input.end);
    if calStart <= calEnd { WeeksBetween(calStart, calEnd, input.WeekCount()); }
  }

  /** The test of the loop body: the first Monday, or a first of a month. */
  lemma LabelTest(calStart: int, curr: int, weekIndex: nat, k: nat)
    requires Input.WeekDay(calStart) == 0 && k < 7 && curr == calStart + 7 * weekIndex + k
    ensures weekIndex == 0 && Input.WeekDay(curr) == 0 <==> curr == calStart
    ensures (curr - calStart) / 7 == weekIndex
  {
    CursorPosition(calStart, weekIndex, k);
  }

  /** The header part of the loop body: the month is compared with the last one labelled. */
  method AddHeader(ghost calStart: int, curr: int, weekIndex: nat, ghost k: nat, headers: seq<Header>,
                   lastLabeledMonth: int)
      returns (headers': seq<Header>, lastLabeledMonth': int)
    requires Input.WeekDay(calStart) == 0 && k < 7 && curr == calStart + 7 * weekIndex + k
    requires headers == Headers(calStart, HeaderDays(calStart, curr))
    requires lastLabeledMonth == if curr == calStart then -1 else GetMonth(curr - 1)
    ensures headers' == Headers(calStart, HeaderDays(calStart, curr + 1))
    ensures lastLabeledMonth' == GetMonth(curr)
  {
    LabelTest(calStart, curr, weekIndex, k);
    headers', lastLabeledMonth' := headers, lastLabeledMonth;
    var dayOfWeek := Input.WeekDay(curr);
    if GetDate(curr) == 1 || (weekIndex == 0 && dayOfWeek == 0) {
      var m := GetMonth(curr);
      if curr != calStart { LabelIsNew(curr); }
      if m != lastLabeledMonth {
        HeadersAppend(calStart, HeaderDays(calStart, curr), curr);
        headers' := headers + [Header(weekIndex, MonthName(m))];
        lastLabeledMonth' := m;
      }
    } else {
      LabelIsOld(curr);
      assert HeaderDays(calStart, curr + 1) == HeaderDays(calStart, curr);
    }
  }

  /** The week part of the loop body: a full week is stored and a new one begun. */
  method AddCell<T>(ghost f: int -> T, ghost calStart: int, ghost curr: int, cell: T,
                    weeks: seq<seq<T>>, currentWeek: seq<T>, weekIndex: nat)
      returns (weeks': seq<seq<T>>, currentWeek': seq<T>, weekIndex': nat)
    requires |currentWeek| < 7 && curr == calStart + 7 * weekIndex + |currentWeek| && cell == f(curr)
    requires weeks == Weeks(f, calStart, weekIndex)
    requires currentWeek == Days(f, calStart + 7 * weekIndex, |currentWeek|)
    ensures |currentWeek'| < 7 && curr + 1 == calStart + 7 * weekIndex' + |currentWeek'|
    ensures weeks' == Weeks(f, calStart, weekIndex')
    ensures currentWeek' == Days(f, calStart + 7 * weekIndex', |currentWeek'|)
  {
    weeks', currentWeek', weekIndex' := weeks, currentWeek + [cell], weekIndex;
    if |currentWeek'| == 7 {
      weeks', currentWeek', weekIndex' := weeks + [currentWeek'], [], weekIndex + 1;
    }
  }

  lemma WholeWeeks(n: nat, w: nat, rest: nat)
    requires 7 * n == 7 * w + rest && rest < 7
    ensures n == w && rest == 0
  {
  }

  /** The cursor loop. The push after it would store a partial week; there never is one. */
  method Walk(input: Input, calStart: int, calEnd: int, ghost n: nat)
      returns (weeks: seq<seq<Cell>>, headers: seq<Header>)
    requires Input.WeekDay(calStart) == 0
    requires if calEnd < calStart then n == 0 else calEnd == calStart + 7 * n - 1
    ensures weeks == Weeks(input.CellOf, calStart, n)
    ensures headers == Headers(calStart, HeaderDays(calStart, calStart + 7 * n))
  {
    weeks, headers := [], [];
    var currentWeek: seq<Cell> := [];
    var weekIndex := 0;
    var lastLabeledMonth := -1;

    var curr := calStart;
    while curr <= calEnd
      invariant curr <= calEnd + 1 || (curr == calStart && calEnd < calStart)
      invariant |weeks| == weekIndex && |currentWeek| < 7
      invariant curr == calStart + 7 * weekIndex + |currentWeek|
      invariant weeks == Weeks(input.CellOf, calStart, weekIndex)
      invariant currentWeek == Days(input.CellOf, calStart + 7 * weekIndex, |currentWeek|)
      invariant headers == Headers(calStart, HeaderDays(calStart, curr))
      invariant lastLabeledMonth == if curr == calStart then -1 else GetMonth(curr - 1)
      decreases calEnd - curr
    {
      headers, lastLabeledMonth := AddHeader(calStart, curr, weekIndex, |currentWeek|, headers, lastLabeledMonth);
      var cell := MakeCell(input, curr);
      weeks, currentWeek, weekIndex := AddCell(input.CellOf, calStart, curr, cell, weeks, currentWeek, weekIndex);
      curr := curr + 1;
    }

    WholeWeeks(n, weekIndex, |currentWeek|);
    if |currentWeek| > 0 {
      weeks := weeks + [currentWeek];
    }
  }

  method Build(input: Input) returns (weeks: seq<seq<Cell>>, headers: seq<Header>)
    ensures weeks == input.Grid()
    ensures headers == Headers(input.CalStart(), HeaderDays(input.CalStart(), input.CalStart() + 7 * |weeks|))
  {
    GridIsWhole(input);
    weeks, headers := Walk(input, input.CalStart(), input.CalEnd(), input.WeekCount());
  }
}
