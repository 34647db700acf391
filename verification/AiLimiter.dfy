/** The per-user limiter of the AI summaries: at least 3 seconds between admitted requests, and at
    most 6 in a window that opens with an admitted request and lasts 60 seconds. Times are
    nanoseconds; nothing below needs the clock to be monotone. */
module AiLimiter {
  import opened Options
  import opened FiniteSets

  const SECOND := 1_000_000_000
  const COOLDOWN := 3 * SECOND
  const WINDOW := 60 * SECOND
  const WINDOW_MAX := 6

  datatype Entry = Entry(lastRequest: int, count: int, windowStart: int)

  datatype Outcome = Admitted | TooSoon | WindowFull

  type Table = map<string, Entry>

  function Lookup(m: Table, user: string): Option<Entry> {
    if user in m then Some(m[user]) else None
  }

  /** One request of a user, given the user's entry, if any: the entry afterwards and the outcome. */
  function Decide(known: Option<Entry>, now: int): (Entry, Outcome) {
    match known
    case None => (Entry(now, 1, now), Admitted)
    case Some(e) =>
      if now - e.lastRequest < COOLDOWN then (e, TooSoon)
      else if now - e.windowStart > WINDOW then (Entry(now, 1, now), Admitted)
      else if e.count >= WINDOW_MAX then (e, WindowFull)
      else (Entry(now, e.count + 1, e.windowStart), Admitted)
  }

  function Allow(m: Table, user: string, now: int): (Table, Outcome) {
    var (e, outcome) := Decide(Lookup(m, user), now);
    (m[user := e], outcome)
  }

  // ----- The handler's table -----

  class UserRateLimit {
    var lastRequest: int
    var count: int
    var windowStart: int

    constructor (lastRequest: int, count: int, windowStart: int)
      ensures Value() == Entry(lastRequest, count, windowStart)
    {
      this.lastRequest, this.count, this.windowStart := lastRequest, count, windowStart;
    }

    ghost function Value(): Entry
      reads this
    {
      Entry(lastRequest, count, windowStart)
    }
  }

  class Handler {
    var limits: map<string, UserRateLimit>

    /** No two users share an entry. */
    ghost predicate Valid()
      reads this
    {
      forall u, w :: u in limits && w in limits && u != w ==> limits[u] != limits[w]
    }

    ghost function Entries(): Table
      reads this, limits.Values
    {
      map u | u in limits :: limits[u].Value()
    }

    constructor ()
      ensures Valid() && Entries() == map[]
    {
      limits := map[];
    }

    method AllowRequest(user: string, now: int) returns (outcome: Outcome)
      requires Valid()
      modifies this`limits, limits.Values
      ensures Valid()
      ensures (Entries(), outcome) == Allow(old(Entries()), user, now)
    {
      if user !in limits {
        var entry := new UserRateLimit(now, 1, now);
        limits := limits[user := entry];
        assert Entries() == old(Entries())[user := entry.Value()];
        return Admitted;
      }
      var entry := limits[user];
      if now - entry.lastRequest < COOLDOWN {
        assert Entries() == old(Entries())[user := entry.Value()];
        return TooSoon;
      }
      if now - entry.windowStart > WINDOW {
        entry.windowStart := now;
        entry.count := 1;
        entry.lastRequest := now;
        assert Entries() == old(Entries())[user := entry.Value()];
        return Admitted;
      }
      if entry.count >= WINDOW_MAX {
        assert Entries() == old(Entries())[user := entry.Value()];
        return WindowFull;
      }
      entry.count := entry.count + 1;
      entry.lastRequest := now;
      assert Entries() == old(Entries())[user := entry.Value()];
      return Admitted;
    }
  }

  // ----- Runs -----

  datatype Call = Call(user: string, at: int)

  /** The outcomes of one user's calls, in order. */
  function OutcomesOf(m: Table, calls: seq<Call>, user: string): seq<Outcome>
    decreases |calls|
  {
    if calls == [] then []
    else
      var (m', outcome) := Allow(m, calls[0].user, calls[0].at);
      (if calls[0].user == user then [outcome] else []) + OutcomesOf(m', calls[1..], user)
  }

  function CallsOf(calls: seq<Call>, user: string): seq<Call> {
    if calls == [] then []
    else (if calls[0].user == user then [calls[0]] else []) + CallsOf(calls[1..], user)
  }

  /** The user's entry after each of the user's admissions, in order. */
  function Log(m: Table, calls: seq<Call>, user: string): seq<Entry>
    decreases |calls|
  {
    if calls == [] then []
    else
      var (m', outcome) := Allow(m, calls[0].user, calls[0].at);
      (if calls[0].user == user && outcome == Admitted then [m'[user]] else []) + Log(m', calls[1..], user)
  }

  lemma {:induction false} OthersDoNotMatter(m: Table, n: Table, calls: seq<Call>, user: string)
    requires Lookup(m, user) == Lookup(n, user)
    ensures OutcomesOf(m, calls, user) == OutcomesOf(n, CallsOf(calls, user), user)
    decreases |calls|
  {
    if calls != [] {
      var m' := Allow(m, calls[0].user, calls[0].at).0;
      if calls[0].user == user {
        OthersDoNotMatter(m', Allow(n, user, calls[0].at).0, calls[1..], user);
        assert CallsOf(calls, user) == [calls[0]] + CallsOf(calls[1..], user);
      } else {
        OthersDoNotMatter(m', n, calls[1..], user);
        assert CallsOf(calls, user) == CallsOf(calls[1..], user);
      }
    }
  }

  /** Users do not disturb each other: in an interleaved run each user sees the outcomes of the
      run made of that user's calls alone. */
  lemma UsersAreIndependent(calls: seq<Call>, user: string)
    ensures OutcomesOf(map[], calls, user) == OutcomesOf(map[], CallsOf(calls, user), user)
  {
    OthersDoNotMatter(map[], map[], calls, user);
  }

  // ----- Exactly when a call is admitted -----

  function TableAfter(calls: seq<Call>): Table {
    if calls == [] then map[]
    else
      var last := calls[|calls|-1];
      Allow(TableAfter(calls[..|calls|-1]), last.user, last.at).0
  }

  /** The outcomes of all calls of a run. */
  function Outcomes(calls: seq<Call>): (outcomes: seq<Outcome>)
    ensures |outcomes| == |calls|
  {
    if calls == [] then []
    else
      var front, last := calls[..|calls|-1], calls[|calls|-1];
      Outcomes(front) + [Allow(TableAfter(front), last.user, last.at).1]
  }

  /** When the user's calls were admitted, in order. */
  function AdmittedAt(calls: seq<Call>, user: string): seq<int> {
    if calls == [] then []
    else
      var last := calls[|calls|-1];
      AdmittedAt(calls[..|calls|-1], user)
      + (if last.user == user && Outcomes(calls)[|calls|-1] == Admitted then [last.at] else [])
  }

  /** Which admission opened the window that holds the last one: the first admission opens one, and
      so does each that comes more than 60 seconds after the one before opened. */
  function Opening(times: seq<int>): (k: nat)
    requires times != []
    ensures k < |times|
  {
    if |times| == 1 then 0
    else
      var k := Opening(times[..|times|-1]);
      if times[|times|-1] - times[k] > 60_000_000_000 then |times| - 1 else k
  }

  /** What the user's entry says about the admissions so far. */
  ghost predicate EntryTells(known: Option<Entry>, times: seq<int>) {
    if times == [] then known == None
    else known == Some(Entry(times[|times|-1], |times| - Opening(times), times[Opening(times)]))
  }

  lemma DecideFollowsTimes(known: Option<Entry>, times: seq<int>, at: int)
    requires EntryTells(known, times)
    ensures var (e, outcome) := Decide(known, at);
            EntryTells(Some(e), if outcome == Admitted then times + [at] else times)
  {
    assert (times + [at])[..|times|] == times;
  }

  lemma {:induction false} TableFollowsTimes(calls: seq<Call>, user: string)
    ensures EntryTells(Lookup(TableAfter(calls), user), AdmittedAt(calls, user))
    decreases |calls|
  {
    if calls != [] {
      var front, last := calls[..|calls|-1], calls[|calls|-1];
      TableFollowsTimes(front, user);
      DecideFollowsTimes(Lookup(TableAfter(front), user), AdmittedAt(front, user), last.at);
      assert AdmittedAt(front, user) + [] == AdmittedAt(front, user);
      assert Outcomes(calls)[|front|] == Allow(TableAfter(front), last.user, last.at).1;
    }
  }

  /** One call more. */
  lemma NextCall(calls: seq<Call>, call: Call)
    ensures TableAfter(calls + [call]) == Allow(TableAfter(calls), call.user, call.at).0
    ensures Outcomes(calls + [call]) == Outcomes(calls) + [Allow(TableAfter(calls), call.user, call.at).1]
  {
    assert (calls + [call])[..|calls|] == calls;
  }

  /** After any run, a call is admitted if and only if the user has no earlier admission, or at least
      3 seconds have passed since the last one and either more than 60 seconds since the opening of its
      window, or fewer than 6 admissions fall into that window. It is too soon if and only if less than
      3 seconds have passed since the last admission; otherwise the window is full. */
  lemma ExactlyWhenAdmitted(calls: seq<Call>, user: string, at: int)
    ensures var times := AdmittedAt(calls, user);
            var outcome := Outcomes(calls + [Call(user, at)])[|calls|];
            if times == [] then outcome == Admitted
            else
              var last, opening := times[|times|-1], Opening(times);
              && (outcome == Admitted <==>
                    && at - last >= 3_000_000_000
                    && (at - times[opening] > 60_000_000_000 || |times| - opening < 6))
              && (outcome == TooSoon <==> at - last < 3_000_000_000)
  {
    TableFollowsTimes(calls, user);
    LastOutcome(calls, Call(user, at));
  }

  lemma RefusalKeepsTable(m: Table, user: string, at: int)
    requires Allow(m, user, at).1 != Admitted
    ensures Allow(m, user, at).0 == m
  {
    assert Decide(Lookup(m, user), at).0 == m[user];
    assert m[user := m[user]] == m;
  }

  /** A refused call leaves no trace. */
  lemma RefusedLeavesTable(calls: seq<Call>, refused: Call, m: Table)
    requires m == TableAfter(calls) && Allow(m, refused.user, refused.at).1 != Admitted
    ensures TableAfter(calls + [refused]) == m
  {
    NextCall(calls, refused);
    RefusalKeepsTable(m, refused.user, refused.at);
  }

  lemma LastOutcome(calls: seq<Call>, call: Call)
    ensures Outcomes(calls + [call])[|calls|] == Allow(TableAfter(calls), call.user, call.at).1
  {
    NextCall(calls, call);
    var before, outcome := Outcomes(calls), Allow(TableAfter(calls), call.user, call.at).1;
    assert (before + [outcome])[|calls|] == outcome;
  }

  lemma NextAfter(calls: seq<Call>, front: seq<Call>, call: Call, m: Table)
    requires TableAfter(calls + front) == m
    ensures TableAfter(calls + (front + [call])) == Allow(m, call.user, call.at).0
    ensures Outcomes(calls + (front + [call])) == Outcomes(calls + front) + [Allow(m, call.user, call.at).1]
  {
    assert calls + (front + [call]) == calls + front + [call];
    NextCall(calls + front, call);
  }

  /** Runs that leave the same table go on alike. */
  lemma {:induction false} SameTableGoesOn(a: seq<Call>, b: seq<Call>, after: seq<Call>) returns (rest: seq<Outcome>)
    requires TableAfter(a) == TableAfter(b)
    ensures TableAfter(a + after) == TableAfter(b + after)
    ensures Outcomes(a + after) == Outcomes(a) + rest && Outcomes(b + after) == Outcomes(b) + rest
    decreases |after|
  {
    if after == [] {
      rest := [];
      assert a + after == a && b + after == b;
    } else {
      var front, last := after[..|after|-1], after[|after|-1];
      var outcomes := SameTableGoesOn(a, b, front);
      var m := TableAfter(a + front);
      assert after == front + [last];
      NextAfter(a, front, last, m);
      NextAfter(b, front, last, m);
      rest := outcomes + [Allow(m, last.user, last.at).1];
    }
  }

  /** Dropping a refused call from a run changes no other outcome. */
  lemma RefusalsDoNotMatter(before: seq<Call>, refused: Call, after: seq<Call>) returns (rest: seq<Outcome>)
    requires Outcomes(before + [refused])[|before|] != Admitted
    ensures Outcomes(before + after) == Outcomes(before) + rest
    ensures Outcomes(before + [refused] + after) == Outcomes(before) + [Outcomes(before + [refused])[|before|]] + rest
  {
    LastOutcome(before, refused);
    NextCall(before, refused);
    RefusedLeavesTable(before, refused, TableAfter(before));
    rest := SameTableGoesOn(before + [refused], before, after);
  }

  // ----- How admissions follow each other -----

  /** `e` can be the entry after the admission that comes next after `prev`. */
  ghost predicate Follows(prev: Option<Entry>, e: Entry) {
    match prev
    case None => e == Entry(e.lastRequest, 1, e.lastRequest)
    case Some(p) =>
      && e.lastRequest >= p.lastRequest + COOLDOWN
      && (|| (e == Entry(e.lastRequest, 1, e.lastRequest) && e.lastRequest - p.windowStart > WINDOW)
          || (e == Entry(e.lastRequest, p.count + 1, p.windowStart) && e.count <= WINDOW_MAX))
  }

  function Before(first: Option<Entry>, log: seq<Entry>, j: nat): Option<Entry>
    requires j <= |log|
  {
    if j == 0 then first else Some(log[j-1])
  }

  ghost predicate LinkAt(first: Option<Entry>, log: seq<Entry>, j: nat)
    requires j < |log|
  {
    Follows(Before(first, log, j), log[j])
  }

  ghost predicate Chained(first: Option<Entry>, log: seq<Entry>) {
    forall j :: 0 <= j < |log| ==> LinkAt(first, log, j)
  }

  lemma {:induction false} LogIsChained(m: Table, calls: seq<Call>, user: string)
    ensures Chained(Lookup(m, user), Log(m, calls, user))
    decreases |calls|
  {
    if calls != [] {
      var (m', outcome) := Allow(m, calls[0].user, calls[0].at);
      LogIsChained(m', calls[1..], user);
      var log, rest := Log(m, calls, user), Log(m', calls[1..], user);
      if calls[0].user == user && outcome == Admitted {
        assert log == [m'[user]] + rest;
        forall j | 0 <= j < |log| ensures LinkAt(Lookup(m, user), log, j) {
          if j > 0 {
            assert LinkAt(Lookup(m', user), rest, j - 1);
            assert Before(Lookup(m, user), log, j) == Before(Lookup(m', user), rest, j - 1) && log[j] == rest[j-1];
          }
        }
      } else {
        assert log == rest && Lookup(m', user) == Lookup(m, user);
      }
    }
  }

  /** The log of a run that starts with no entries. */
  ghost predicate IsLog(log: seq<Entry>) { Chained(None, log) }

  lemma {:induction false} LogTimesGrow(log: seq<Entry>, i: nat, j: nat)
    requires IsLog(log) && i <= j < |log|
    ensures log[j].lastRequest >= log[i].lastRequest + (j - i) * COOLDOWN
    decreases j
  {
    if i < j {
      LogTimesGrow(log, i, j - 1);
      assert LinkAt(None, log, j);
    }
  }

  /** The window of the j-th admission opened with the admission that many counts before. */
  lemma {:induction false} WindowOpenedBy(log: seq<Entry>, j: nat)
    requires IsLog(log) && j < |log|
    ensures 1 <= log[j].count <= WINDOW_MAX && log[j].count <= j + 1
    ensures var first := log[j - (log[j].count - 1)];
            first.count == 1 && first.windowStart == first.lastRequest == log[j].windowStart
    decreases j
  {
    assert LinkAt(None, log, j);
    if j > 0 { WindowOpenedBy(log, j - 1); }
  }

  /** Twelve admissions in a row span more than one window length. */
  lemma TwelveSpanAWindow(log: seq<Entry>, k: nat)
    requires IsLog(log) && k + 11 < |log|
    ensures log[k + 11].lastRequest - log[k].lastRequest > 60_000_000_000
  {
    WindowOpenedBy(log, k + 11);
    var q := k + 12 - log[k + 11].count;
    assert LinkAt(None, log, q);
    WindowOpenedBy(log, q - 1);
    var p := q - log[q-1].count;
    LogTimesGrow(log, k, p);
    LogTimesGrow(log, q, k + 11);
  }

  /** The admissions that fall into the closed interval [a, b]. */
  ghost function InInterval(log: seq<Entry>, a: int, b: int): set<nat> {
    set j: nat | j < |log| && a <= log[j].lastRequest <= b
  }

  /** Any closed interval no longer than the window holds at most 11 admissions of a user, in
      every run of every set of users: 5 left over from one window and 6 of the next. */
  lemma AtMostElevenPerMinute(calls: seq<Call>, user: string, a: int, b: int)
    requires b - a <= 60_000_000_000
    ensures |InInterval(Log(map[], calls, user), a, b)| <= 11
  {
    var log := Log(map[], calls, user);
    LogIsChained(map[], calls, user);
    assert IsLog(log);
    var inside := InInterval(log, a, b);
    if inside != {} {
      var k := FirstOf(inside);
      forall j | j in inside ensures j <= k + 10 {
        if j >= k + 11 {
          TwelveSpanAWindow(log, k);
          LogTimesGrow(log, k + 11, j);
        }
      }
      AtMost(inside, k, 11);
    }
  }

  /** Two admissions of a user are at least the cooldown apart. */
  lemma AdmissionsAreSpaced(calls: seq<Call>, user: string, i: nat, j: nat)
    requires i < j < |Log(map[], calls, user)|
    ensures var log := Log(map[], calls, user); log[j].lastRequest - log[i].lastRequest >= 3_000_000_000
  {
    LogIsChained(map[], calls, user);
    LogTimesGrow(Log(map[], calls, user), i, j);
  }

  // ----- The bound is attained -----

  function CallsAt(user: string, times: seq<int>): seq<Call> {
    seq(|times|, i requires 0 <= i < |times| => Call(user, times[i]))
  }

  /** `n` moments, one cooldown apart. */
  function Burst(at: int, n: nat): seq<int>
    decreases n
  {
    if n == 0 then [] else [at] + Burst(at + COOLDOWN, n - 1)
  }

  /** One cooldown after the last moment of the burst. */
  function BurstEnd(at: int, n: nat): (end: int)
    ensures at <= end
    decreases n
  {
    if n == 0 then at else BurstEnd(at + COOLDOWN, n - 1)
  }

  lemma AdmitFirst(m: Table, user: string, times: seq<int>)
    requires times != [] && Decide(Lookup(m, user), times[0]).1 == Admitted
    ensures var e := Decide(Lookup(m, user), times[0]).0;
            Log(m, CallsAt(user, times), user) == [e] + Log(m[user := e], CallsAt(user, times[1..]), user)
  {
    assert CallsAt(user, times)[1..] == CallsAt(user, times[1..]);
  }

  /** A burst that stays inside the open window and its quota is admitted call by call. */
  lemma {:induction false} BurstIsAdmitted(m: Table, user: string, e: Entry, at: int, n: nat, rest: seq<int>)
      returns (m': Table, e': Entry)
    requires Lookup(m, user) == Some(e)
    requires at - e.lastRequest >= COOLDOWN
    requires BurstEnd(at, n) - e.windowStart <= WINDOW
    requires e.count + n <= WINDOW_MAX
    ensures Lookup(m', user) == Some(e')
    ensures e'.count == e.count + n && e'.windowStart == e.windowStart
    ensures if n == 0 then e' == e else e'.lastRequest + COOLDOWN == BurstEnd(at, n)
    ensures var log := Log(m, CallsAt(user, Burst(at, n) + rest), user);
            && |log| >= n && log[n..] == Log(m', CallsAt(user, rest), user)
            && forall i :: 0 <= i < n ==> at <= log[i].lastRequest <= BurstEnd(at, n)
    decreases n
  {
    var times := Burst(at, n) + rest;
    if n == 0 {
      m', e' := m, e;
      assert times == rest;
    } else {
      AdmitFirst(m, user, times);
      var first := Entry(at, e.count + 1, e.windowStart);
      assert times[1..] == Burst(at + COOLDOWN, n - 1) + rest;
      m', e' := BurstIsAdmitted(m[user := first], user, first, at + COOLDOWN, n - 1, rest);
    }
  }

  /** One early call and five late ones fill a window; six more follow as soon as it is over. */
  function Crowd(): seq<int> {
    [0] + (Burst(45 * SECOND, 5) + ([WINDOW + 1] + Burst(WINDOW + 1 + COOLDOWN, 5)))
  }

  lemma ElevenIsAttained(user: string)
    ensures |InInterval(Log(map[], CallsAt(user, Crowd()), user), 45_000_000_000, 105_000_000_000)| == 11
  {
    var second := Burst(WINDOW + 1 + COOLDOWN, 5);
    var later := [WINDOW + 1] + second;
    var log := Log(map[], CallsAt(user, Crowd()), user);
    AdmitFirst(map[], user, Crowd());
    assert Crowd()[1..] == Burst(45 * SECOND, 5) + later;

    var first := Entry(0, 1, 0);
    var m, e := BurstIsAdmitted(map[user := first], user, first, 45 * SECOND, 5, later);
    AdmitFirst(m, user, later);
    var reset := Entry(WINDOW + 1, 1, WINDOW + 1);
    assert later[1..] == second + [];
    var _, _ := BurstIsAdmitted(m[user := reset], user, reset, WINDOW + 1 + COOLDOWN, 5, []);

    assert log[1..][5..] == log[6..] && log[6..][1..] == log[7..];
    assert forall i :: 1 <= i < 6 ==> log[i] == log[1..][i-1];
    assert forall i :: 7 <= i < 12 ==> log[i] == log[7..][i-7];
    assert log[6] == log[6..][0] == reset;
    AtLeast(InInterval(log, 45 * SECOND, 105 * SECOND), 1, 11);
    AtMostElevenPerMinute(CallsAt(user, Crowd()), user, 45 * SECOND, 105 * SECOND);
  }
}
