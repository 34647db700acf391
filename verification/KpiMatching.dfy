/** Which KPI period a new journal belongs to: the server chooses when it stores the journal, the
    browser shows its own choice beforehand. Days are day numbers; the server's clock runs in UTC. */
module KpiMatching {
  import opened Options
  import opened Gregorian
  import opened DateStrings

  datatype Period = Period(id: int, start: int, end: int)

  const NANOS_PER_DAY := 86_400_000_000_000

  /** A moment: the day, and the nanoseconds since its midnight. */
  datatype Moment = Moment(day: int, nanos: int) {
    predicate Valid() { 0 <= nanos < NANOS_PER_DAY }

    function SinceEpoch(): int { day * NANOS_PER_DAY + nanos }
  }

  // ----- The server's choice -----

  predicate Covers(p: Period, day: int) { p.start <= day && day <= p.end }

  /** In the query a date stands for its midnight, so a period is over once its last day begins. */
  predicate ActiveInQuery(p: Period, now: Moment) {
    && Moment(p.start, 0).SinceEpoch() <= now.SinceEpoch()
    && Moment(p.end, 0).SinceEpoch() >= now.SinceEpoch()
  }

  /** A possible answer of `WHERE wanted ORDER BY start_date DESC LIMIT 1`. */
  ghost predicate IsLatest(answer: Option<Period>, periods: seq<Period>, wanted: Period -> bool) {
    match answer
    case None => forall p :: p in periods ==> !wanted(p)
    case Some(a) => a in periods && wanted(a) && forall p :: p in periods && wanted(p) ==> p.start <= a.start
  }

  ghost predicate IsLatestId(id: Option<int>, periods: seq<Period>, wanted: Period -> bool) {
    id.Some? && exists p :: IsLatest(Some(p), periods, wanted) && id.value == p.id
  }

  function CoversDay(day: int): (f: Period -> bool)
    ensures forall p {:trigger f(p)} :: f(p) == Covers(p, day)
  {
    (p: Period) => Covers(p, day)
  }

  function ActiveAt(now: Moment): (f: Period -> bool)
    ensures forall p {:trigger f(p)} :: f(p) == ActiveInQuery(p, now)
  {
    (p: Period) => ActiveInQuery(p, now)
  }

  /** The period a journal is stored with: a latest one that covers its date; if there is none, a
      latest one active now; if there is none either, no period. */
  ghost predicate IsStoredWith(id: Option<int>, periods: seq<Period>, entryDay: int, now: Moment) {
    if exists p :: p in periods && Covers(p, entryDay) then IsLatestId(id, periods, CoversDay(entryDay))
    else if exists p :: p in periods && ActiveInQuery(p, now) then IsLatestId(id, periods, ActiveAt(now))
    else id == None
  }

  /** The branches of `Create`, on the answers of the two queries. Ids are positive. */
  method ChooseKpiPeriod(covering: Option<Period>, active: Option<Period>, ghost periods: seq<Period>,
                         ghost entryDay: int, ghost now: Moment)
      returns (kpiPeriodId: Option<int>)
    requires IsLatest(covering, periods, CoversDay(entryDay)) && IsLatest(active, periods, ActiveAt(now))
    ensures kpiPeriodId.Some? ==> kpiPeriodId.value > 0
    ensures (forall p :: p in periods ==> p.id > 0) ==> IsStoredWith(kpiPeriodId, periods, entryDay, now)
  {
    if covering.Some? && covering.value.id > 0 {
      kpiPeriodId := Some(covering.value.id);
    } else {
      if active.Some? && active.value.id > 0 {
        kpiPeriodId := Some(active.value.id);
      } else {
        kpiPeriodId := None;
      }
    }
  }

  // ----- What the browser is sent -----

  datatype PeriodDto = PeriodDto(id: int, startDate: string, endDate: string, isActive: bool)

  predicate Printable(day: int) { 0 <= GetFullYear(day) <= 9999 }

  predicate PrintablePeriod(p: Period) { Printable(p.start) && Printable(p.end) }

  /** The last moment of a period as the service computes it: 23:59:59 and 999 ns. */
  const LAST_MOMENT := (86_400 - 1) * 1_000_000_000 + 999

  function FormatDto(p: Period, now: Moment): PeriodDto
    requires PrintablePeriod(p)
  {
    var nowDate, sDate := Moment(now.day, 0).SinceEpoch(), Moment(p.start, 0).SinceEpoch();
    var eDate := Moment(p.end, LAST_MOMENT).SinceEpoch();
    var isActive := (nowDate == sDate || nowDate > sDate) && (nowDate == eDate || nowDate < eDate);
    PeriodDto(p.id, Iso(p.start), Iso(p.end), isActive)
  }

  ghost predicate IsDto(dto: PeriodDto, p: Period, now: Moment) {
    PrintablePeriod(p) && dto == FormatDto(p, now)
  }

  ghost predicate Pointwise<S, T>(ss: seq<S>, ts: seq<T>, related: (S, T) -> bool) {
    |ss| == |ts| && forall i :: 0 <= i < |ss| ==> related(ss[i], ts[i])
  }

  lemma PointwiseAppend<S, T>(ss: seq<S>, ts: seq<T>, s: S, t: T, related: (S, T) -> bool)
    requires Pointwise(ss, ts, related) && related(s, t)
    ensures Pointwise(ss + [s], ts + [t], related)
  {
  }

  ghost function DtoAt(now: Moment): (PeriodDto, Period) -> bool { (dto, p) => IsDto(dto, p, now) }

  /** The list as the browser receives it. */
  ghost predicate IsServed(list: seq<PeriodDto>, listed: seq<Period>, now: Moment) {
    Pointwise(list, listed, DtoAt(now))
  }

  method MakeDto(p: Period, now: Moment) returns (dto: PeriodDto)
    requires PrintablePeriod(p)
    ensures IsDto(dto, p, now)
  {
    dto := FormatDto(p, now);
  }

  /** The service calls a period active on all of its days, the last one included. */
  lemma ActiveInDtoByDay(p: Period, now: Moment)
    requires PrintablePeriod(p)
    ensures FormatDto(p, now).isActive <==> Covers(p, now.day)
  {
    DayFromMoment(p.start, now.day, 0);
    DayFromMoment(now.day, p.end, LAST_MOMENT);
  }

  lemma DayFromMoment(a: int, b: int, nanos: int)
    requires 0 <= nanos < NANOS_PER_DAY
    ensures Moment(a, 0).SinceEpoch() <= Moment(b, nanos).SinceEpoch() <==> a <= b
  {
  }

  /** The query calls a period active on all of its days but the last, and on that at midnight. */
  lemma ActiveInQueryByDay(p: Period, now: Moment)
    requires now.Valid()
    ensures ActiveInQuery(p, now) <==> Covers(p, now.day) && (now.day < p.end || now.nanos == 0)
  {
    DayFromMoment(p.start, now.day, now.nanos);
    if now.day < p.end { DayFromMoment(now.day + 1, p.end, 0); }
    if p.end < now.day { DayFromMoment(p.end + 1, now.day, 0); }
  }

  /** What a reader learns: the id, the first and the last day, and whether today is one of the days. */
  ghost predicate Tells(dto: PeriodDto, p: Period, today: int) {
    && dto.id == p.id
    && ReadDate(dto.startDate) == Some(DateOf(p.start)) && ReadDate(dto.endDate) == Some(DateOf(p.end))
    && (dto.isActive <==> p.start <= today <= p.end)
  }

  lemma DtoTells(p: Period, now: Moment)
    requires PrintablePeriod(p)
    ensures Tells(FormatDto(p, now), p, now.day)
  {
    IsoReadsBack(p.start);
    IsoReadsBack(p.end);
    ActiveInDtoByDay(p, now);
  }

  /** Every period is sent, in order. */
  method ListKpiPeriods(periods: seq<Period>, now: Moment) returns (result: seq<PeriodDto>)
    requires forall i :: 0 <= i < |periods| ==> PrintablePeriod(periods[i])
    ensures IsServed(result, periods, now)
    ensures |result| == |periods| && forall i :: 0 <= i < |periods| ==> Tells(result[i], periods[i], now.day)
  {
    ghost var isDto := DtoAt(now);
    result := [];
    for i := 0 to |periods|
      invariant Pointwise(result, periods[..i], isDto)
    {
      var dto := MakeDto(periods[i], now);
      PointwiseAppend(result, periods[..i], dto, periods[i], isDto);
      assert periods[..i+1] == periods[..i] + [periods[i]];
      result := result + [dto];
    }
    assert periods[..|periods|] == periods;
    forall i | 0 <= i < |periods| ensures Tells(result[i], periods[i], now.day) {
      assert isDto(result[i], periods[i]);
      DtoTells(periods[i], now);
    }
  }

  // ----- The browser's choice -----

  function Find<T>(list: seq<T>, wanted: T -> bool): Option<T> {
    if list == [] then None else if wanted(list[0]) then Some(list[0]) else Find(list[1..], wanted)
  }

  function CoversDate(entryDate: string): PeriodDto -> bool {
    (kp: PeriodDto) => LexLeq(kp.startDate, entryDate) && LexLeq(entryDate, kp.endDate)
  }

  function IsActive(kp: PeriodDto): bool { kp.isActive }

  function MatchedPeriod(entryDate: string, list: seq<PeriodDto>): Option<PeriodDto> {
    if entryDate == "" || list == [] then None
    else
      var covering := Find(list, CoversDate(entryDate));
      if covering.Some? then covering else Find(list, IsActive)
  }

  lemma {:induction false} FindFirst<T>(list: seq<T>, wanted: T -> bool) returns (k: nat)
    ensures k <= |list| && (forall i :: 0 <= i < k ==> !wanted(list[i]))
    ensures Find(list, wanted) == if k < |list| then Some(list[k]) else None
    ensures k < |list| ==> wanted(list[k])
    decreases |list|
  {
    if list == [] || wanted(list[0]) {
      k := 0;
    } else {
      k := FindFirst(list[1..], wanted);
      assert forall i :: 1 <= i < |list| ==> list[i] == list[1..][i-1];
      k := k + 1;
    }
  }

  /** The list as it is served: all the periods, latest start first. */
  ghost predicate IsListing(listed: seq<Period>, periods: seq<Period>) {
    && (forall p :: p in listed <==> p in periods)
    && (forall i, j :: 0 <= i < j < |listed| ==> listed[i].start >= listed[j].start)
  }

  ghost predicate DistinctStarts(periods: seq<Period>) {
    forall p, q :: p in periods && q in periods && p.start == q.start ==> p == q
  }

  /** The first wanted period of the list is the answer of the query for wanted periods. */
  lemma FirstIsLatest(list: seq<PeriodDto>, listed: seq<Period>, periods: seq<Period>, now: Moment,
                      wantedDto: PeriodDto -> bool, wanted: Period -> bool, answer: Option<Period>)
    requires IsListing(listed, periods) && IsServed(list, listed, now) && DistinctStarts(periods)
    requires forall i :: 0 <= i < |listed| ==> (wantedDto(list[i]) <==> wanted(listed[i]))
    requires IsLatest(answer, periods, wanted)
    ensures match answer
            case None => Find(list, wantedDto) == None
            case Some(p) => Find(list, wantedDto).Some? && IsDto(Find(list, wantedDto).value, p, now)
  {
    var k := FindFirst(list, wantedDto);
    match answer
    case None =>
    case Some(p) =>
      var i :| 0 <= i < |listed| && listed[i] == p;
      assert k <= i;
      assert listed[k] in periods && listed[k].start == p.start;
  }

  /** The period's last day has begun. */
  predicate InLastDay(p: Period, now: Moment) { p.end == now.day && now.nanos > 0 }

  /** The two notions of the active period single out the same one, or none, if and only if the
      latest period active today, if there is one, is not in its last day. */
  lemma ActiveNotions(periods: seq<Period>, now: Moment, active: Option<Period>, today: Option<Period>)
    requires now.Valid() && DistinctStarts(periods)
    requires IsLatest(active, periods, ActiveAt(now))
    requires IsLatest(today, periods, CoversDay(now.day))
    ensures active == today <==> today.None? || !InLastDay(today.value, now)
  {
    forall p | p in periods
      ensures ActiveInQuery(p, now) <==> Covers(p, now.day) && (now.day < p.end || now.nanos == 0)
    {
      ActiveInQueryByDay(p, now);
    }
  }

  lemma CoveringInBrowser(periods: seq<Period>, listed: seq<Period>, list: seq<PeriodDto>, entryDay: int, now: Moment,
                          covering: Option<Period>)
    requires Printable(entryDay) && DistinctStarts(periods)
    requires IsListing(listed, periods) && IsServed(list, listed, now)
    requires IsLatest(covering, periods, CoversDay(entryDay))
    ensures var found := Find(list, CoversDate(Iso(entryDay)));
            match covering case None => found == None case Some(p) => found.Some? && found.value.id == p.id
  {
    var covers := CoversDate(Iso(entryDay));
    forall i | 0 <= i < |listed| ensures covers(list[i]) <==> Covers(listed[i], entryDay) {
      assert DtoAt(now)(list[i], listed[i]);
      IsoOrder(listed[i].start, entryDay);
      IsoOrder(entryDay, listed[i].end);
    }
    FirstIsLatest(list, listed, periods, now, covers, CoversDay(entryDay), covering);
  }

  lemma ActiveInBrowser(periods: seq<Period>, listed: seq<Period>, list: seq<PeriodDto>, now: Moment,
                        today: Option<Period>)
    requires DistinctStarts(periods)
    requires IsListing(listed, periods) && IsServed(list, listed, now)
    requires IsLatest(today, periods, CoversDay(now.day))
    ensures var found := Find(list, IsActive);
            match today case None => found == None case Some(p) => found.Some? && found.value.id == p.id
  {
    forall i | 0 <= i < |listed| ensures IsActive(list[i]) <==> Covers(listed[i], now.day) {
      assert DtoAt(now)(list[i], listed[i]);
      ActiveInDtoByDay(listed[i], now);
    }
    FirstIsLatest(list, listed, periods, now, IsActive, CoversDay(now.day), today);
  }

  function IdOf(dto: Option<PeriodDto>): Option<int> {
    if dto.None? then None else Some(dto.value.id)
  }

  ghost predicate Identified(periods: seq<Period>) {
    && (forall p :: p in periods ==> p.id > 0)
    && forall p, q :: p in periods && q in periods && p.id == q.id ==> p == q
  }

  /** With different start dates the server's choice is determined. */
  lemma StoredWithIsUnique(periods: seq<Period>, entryDay: int, now: Moment, stored: Option<int>,
                           covering: Option<Period>, active: Option<Period>)
    requires DistinctStarts(periods) && IsStoredWith(stored, periods, entryDay, now)
    requires IsLatest(covering, periods, CoversDay(entryDay)) && IsLatest(active, periods, ActiveAt(now))
    ensures stored == if covering.Some? then Some(covering.value.id)
                      else if active.Some? then Some(active.value.id) else None
  {
  }

  lemma {:induction false} SomeLatest(periods: seq<Period>, wanted: Period -> bool) returns (answer: Option<Period>)
    ensures IsLatest(answer, periods, wanted)
    decreases |periods|
  {
    if periods == [] {
      answer := None;
    } else {
      var rest := SomeLatest(periods[1..], wanted);
      assert forall p :: p in periods <==> p == periods[0] || p in periods[1..];
      var better := wanted(periods[0]) && (rest.None? || periods[0].start >= rest.value.start);
      answer := if better then Some(periods[0]) else rest;
    }
  }

  /** The latest period covering the day the list was loaded is still running when the journal is
      stored, if there is one, and no other period begun since then is running. */
  predicate NothingChanged(periods: seq<Period>, today: Option<Period>, loaded: Moment, now: Moment) {
    && (today.Some? ==> now.day <= today.value.end && !InLastDay(today.value, now))
    && forall p :: p in periods && loaded.day < p.start <= now.day ==> p.end < now.day || InLastDay(p, now)
  }

  lemma SameActive(periods: seq<Period>, loaded: Moment, now: Moment, today: Option<Period>, active: Option<Period>)
    requires loaded.Valid() && now.Valid() && loaded.day <= now.day && DistinctStarts(periods)
    requires IsLatest(today, periods, CoversDay(loaded.day)) && IsLatest(active, periods, ActiveAt(now))
    ensures today == active <==> NothingChanged(periods, today, loaded, now)
  {
    forall p | p in periods
      ensures ActiveInQuery(p, now) <==> Covers(p, now.day) && (now.day < p.end || now.nanos == 0)
    {
      ActiveInQueryByDay(p, now);
    }
    if today.Some? && active.Some? && today != active && ActiveInQuery(today.value, now) {
      assert ActiveAt(now)(today.value);
      assert active.value.start > today.value.start;
    }
    if today.None? && active.Some? { assert !CoversDay(loaded.day)(active.value); }
    if NothingChanged(periods, today, loaded, now) && today.Some? { assert ActiveAt(now)(today.value); }
  }

  /** The browser loads the list at one moment and the server chooses at a later one. They choose the
      same period if and only if some period covers the entry date, or the latest period active on the
      day of loading is not yet in its last day, or past it, and none has begun since. */
  lemma PreviewIsRight(periods: seq<Period>, listed: seq<Period>, list: seq<PeriodDto>, entryDay: int, loaded: Moment,
                       now: Moment, today: Option<Period>, stored: Option<int>)
    requires loaded.Valid() && now.Valid() && loaded.day <= now.day
    requires Printable(entryDay) && DistinctStarts(periods) && Identified(periods)
    requires IsListing(listed, periods) && IsServed(list, listed, loaded)
    requires IsLatest(today, periods, CoversDay(loaded.day))
    requires IsStoredWith(stored, periods, entryDay, now)
    ensures IdOf(MatchedPeriod(Iso(entryDay), list)) == stored
            <==> (exists p :: p in periods && Covers(p, entryDay)) || NothingChanged(periods, today, loaded, now)
  {
    var covering := SomeLatest(periods, CoversDay(entryDay));
    var active := SomeLatest(periods, ActiveAt(now));
    StoredWithIsUnique(periods, entryDay, now, stored, covering, active);
    CoveringInBrowser(periods, listed, list, entryDay, loaded, covering);
    ActiveInBrowser(periods, listed, list, loaded, today);
    SameActive(periods, loaded, now, today, active);
    assert |Iso(entryDay)| == 10;
  }

  lemma NothingEnds(periods: seq<Period>, today: Option<Period>, loaded: Moment, now: Moment)
    requires loaded.day == now.day && IsLatest(today, periods, CoversDay(loaded.day))
    requires forall p :: p in periods ==> p.end != now.day
    ensures NothingChanged(periods, today, loaded, now)
  {
    assert today.Some? ==> CoversDay(loaded.day)(today.value);
  }

  /** In particular it is right on the day of loading, if no period of the team ends that day. */
  lemma PreviewIsRightAwayFromLastDays(periods: seq<Period>, listed: seq<Period>, list: seq<PeriodDto>, entryDay: int,
                                       loaded: Moment, now: Moment, stored: Option<int>)
    requires loaded.Valid() && now.Valid() && loaded.day == now.day
    requires Printable(entryDay) && DistinctStarts(periods) && Identified(periods)
    requires forall p :: p in periods ==> p.end != now.day
    requires IsListing(listed, periods) && IsServed(list, listed, loaded)
    requires IsStoredWith(stored, periods, entryDay, now)
    ensures IdOf(MatchedPeriod(Iso(entryDay), list)) == stored
  {
    var today := SomeLatest(periods, CoversDay(loaded.day));
    NothingEnds(periods, today, loaded, now);
    PreviewIsRight(periods, listed, list, entryDay, loaded, now, today, stored);
  }

  /** A team with one period, seen on its last day just after midnight, for an entry dated before it:
      the browser names the period, the server stores none. */
  lemma PreviewCanBeWrong(day: int, p: Period, now: Moment) returns (list: seq<PeriodDto>, stored: Option<int>)
    requires Printable(day) && Printable(day + 1) && Printable(day + 5)
    requires p == Period(1, day + 1, day + 5) && now == Moment(day + 5, 1)
    ensures IsServed(list, [p], now) && IsStoredWith(stored, [p], day, now)
    ensures IdOf(MatchedPeriod(Iso(day), list)) == Some(1) && stored == None
  {
    list, stored := [FormatDto(p, now)], None;
    assert IsDto(list[0], p, now);
    ActiveInQueryByDay(p, now);
    assert CoversDay(now.day)(p);
    CoveringInBrowser([p], [p], list, day, now, None);
    ActiveInBrowser([p], [p], list, now, Some(p));
    assert |Iso(day)| == 10;
  }

  /** A period that begins between loading and storing: the browser still shows none, the server
      stores the new one. */
  lemma PreviewCanBeOutdated(day: int, p: Period, loaded: Moment, now: Moment)
      returns (list: seq<PeriodDto>, stored: Option<int>)
    requires Printable(day) && Printable(day + 1) && Printable(day + 5)
    requires p == Period(1, day + 1, day + 5) && loaded == Moment(day, 1) && now == Moment(day + 1, 1)
    ensures IsServed(list, [p], loaded) && IsStoredWith(stored, [p], day, now)
    ensures IdOf(MatchedPeriod(Iso(day), list)) == None && stored == Some(1)
  {
    list, stored := [FormatDto(p, loaded)], Some(1);
    assert IsDto(list[0], p, loaded);
    ActiveInQueryByDay(p, now);
    assert p in [p] && IsLatest(Some(p), [p], ActiveAt(now));
    CoveringInBrowser([p], [p], list, day, loaded, None);
    ActiveInBrowser([p], [p], list, loaded, None);
  }
}
