/** Sessions kept in the database: created at login, looked up by every request, deleted at logout,
    swept when expired, and touched by activity updates that arrive some time after the request. */
module Sessions {
  import opened Options

  /** Seven days, in seconds. */
  const SESSION_DURATION := 7 * 24 * 3600

  datatype Session = Session(user: int, expiresAt: int, lastActiveAt: int)

  type Table = map<string, Session>

  // ----- The statements -----

  /** The primary key refuses a token that is already there. */
  function Create(table: Table, token: string, user: int, now: int): (Table, bool) {
    if token in table then (table, false)
    else (table[token := Session(user, now + SESSION_DURATION, now)], true)
  }

  function Lookup(table: Table, token: string, now: int): Option<Session> {
    if token in table && table[token].expiresAt > now then Some(table[token]) else None
  }

  function Touch(table: Table, token: string, now: int): Table {
    if token in table then table[token := table[token].(lastActiveAt := now)] else table
  }

  function CleanExpired(table: Table, now: int): Table {
    map token | token in table && !(table[token].expiresAt <= now) :: table[token]
  }

  /** The empty cookie is turned away before any query. */
  function Authenticate(table: Table, token: string, now: int): Option<int> {
    if token == "" then None
    else match Lookup(table, token, now)
      case None => None
      case Some(session) => Some(session.user)
  }

  // ----- Runs -----

  /** `updates` are the activity updates started by requests and not yet carried out. */
  datatype State = State(now: int, table: Table, updates: multiset<string>)

  datatype Step =
    | Login(token: string, user: int)
    | Request(token: string)
    | Logout(token: string)
    | Tick(seconds: nat)
    | Cleanup
    | Update(token: string)

  function Init(now: int): State { State(now, map[], multiset{}) }

  function Do(s: State, step: Step): State {
    match step
    case Login(token, user) => s.(table := Create(s.table, token, user, s.now).0)
    case Request(token) =>
      if Authenticate(s.table, token, s.now).Some? then s.(updates := s.updates + multiset{token}) else s
    case Logout(token) => s.(table := s.table - {token})
    case Tick(seconds) => s.(now := s.now + seconds)
    case Cleanup => s.(table := CleanExpired(s.table, s.now))
    case Update(token) =>
      if token in s.updates
      then s.(table := Touch(s.table, token, s.now), updates := s.updates - multiset{token})
      else s
  }

  function Run(s: State, steps: seq<Step>): State
    decreases |steps|
  {
    if steps == [] then s else Do(Run(s, steps[..|steps|-1]), steps[|steps|-1])
  }

  /** Who each request is authenticated as, in order. */
  function Outcomes(s: State, steps: seq<Step>): seq<Option<int>>
    decreases |steps|
  {
    if steps == [] then []
    else
      (if steps[0].Request? then [Authenticate(s.table, steps[0].token, s.now)] else [])
      + Outcomes(Do(s, steps[0]), steps[1..])
  }

  function WithoutCleanup(steps: seq<Step>): seq<Step> {
    if steps == [] then []
    else (if steps[0].Cleanup? then [] else [steps[0]]) + WithoutCleanup(steps[1..])
  }

  /** Random tokens: no two logins draw the same one, and none draws the empty string. */
  predicate FreshTokens(steps: seq<Step>) {
    && (forall i, j :: 0 <= i < j < |steps| && steps[i].Login? && steps[j].Login? ==> steps[i].token != steps[j].token)
    && (forall i :: 0 <= i < |steps| && steps[i].Login? ==> steps[i].token != "")
  }

  // ----- Cleanup is transparent -----

  /** `swept` has lost some sessions of `full`, all of them expired. */
  ghost predicate Swept(swept: State, full: State) {
    && swept.now == full.now && swept.updates == full.updates
    && (forall token :: token in swept.table ==> token in full.table && swept.table[token] == full.table[token])
    && (forall token :: token in full.table && token !in swept.table ==> full.table[token].expiresAt <= full.now)
  }

  ghost predicate Unused(s: State, steps: seq<Step>) {
    forall i :: 0 <= i < |steps| && steps[i].Login? ==> steps[i].token !in s.table
  }

  lemma StepKeepsSwept(swept: State, full: State, step: Step)
    requires Swept(swept, full) && (step.Login? ==> step.token !in full.table)
    ensures step.Request? ==>
              Authenticate(swept.table, step.token, swept.now) == Authenticate(full.table, step.token, full.now)
    ensures Swept(Do(swept, step), if step.Cleanup? then full else Do(full, step))
  {
    match step
    case Login(token, user) => LoginKeepsSwept(swept, full, token, user);
    case Request(_) =>
    case Logout(token) => LogoutKeepsSwept(swept, full, token);
    case Tick(_) =>
    case Cleanup => SweepKeepsSwept(swept, full);
    case Update(token) => UpdateKeepsSwept(swept, full, token);
  }

  lemma LoginKeepsSwept(swept: State, full: State, token: string, user: int)
    requires Swept(swept, full) && token !in full.table
    ensures Swept(Do(swept, Login(token, user)), Do(full, Login(token, user)))
  {
  }

  lemma LogoutKeepsSwept(swept: State, full: State, token: string)
    requires Swept(swept, full)
    ensures Swept(Do(swept, Logout(token)), Do(full, Logout(token)))
  {
  }

  lemma UpdateKeepsSwept(swept: State, full: State, token: string)
    requires Swept(swept, full)
    ensures Swept(Do(swept, Update(token)), Do(full, Update(token)))
  {
  }

  lemma SweepKeepsSwept(swept: State, full: State)
    requires Swept(swept, full)
    ensures Swept(Do(swept, Cleanup), full)
  {
  }

  lemma UnusedAfter(s: State, step: Step, rest: seq<Step>)
    requires Unused(s, rest)
    requires forall i :: 0 <= i < |rest| && rest[i].Login? ==> !(step.Login? && step.token == rest[i].token)
    ensures Unused(Do(s, step), rest)
  {
  }

  lemma FreshTail(steps: seq<Step>)
    requires FreshTokens(steps) && steps != []
    ensures var rest := steps[1..];
            && FreshTokens(rest)
            && forall i :: 0 <= i < |rest| && rest[i].Login? ==> !(steps[0].Login? && steps[0].token == rest[i].token)
  {
    var rest := steps[1..];
    assert forall i :: 0 <= i < |rest| ==> rest[i] == steps[i + 1];
  }

  lemma {:induction false} CleanupDoesNotMatter(swept: State, full: State, steps: seq<Step>)
    requires Swept(swept, full) && FreshTokens(steps) && Unused(full, steps)
    ensures Outcomes(swept, steps) == Outcomes(full, WithoutCleanup(steps))
    decreases |steps|
  {
    if steps != [] {
      var step, rest := steps[0], steps[1..];
      var full' := if step.Cleanup? then full else Do(full, step);
      FreshTail(steps);
      assert Unused(full, rest) by {
        assert forall i :: 0 <= i < |rest| ==> rest[i] == steps[i + 1];
      }
      UnusedAfter(full, step, rest);
      StepKeepsSwept(swept, full, step);
      CleanupDoesNotMatter(Do(swept, step), full', rest);
      if !step.Cleanup? {
        assert WithoutCleanup(steps) == [step] + WithoutCleanup(rest);
        assert ([step] + WithoutCleanup(rest))[1..] == WithoutCleanup(rest);
      } else {
        assert WithoutCleanup(steps) == WithoutCleanup(rest);
      }
    }
  }

  /** Cleanup changes no request's outcome: any run and the run without its cleanups authenticate
      every request alike. */
  lemma CleanupIsTransparent(start: int, steps: seq<Step>)
    requires FreshTokens(steps)
    ensures Outcomes(Init(start), steps) == Outcomes(Init(start), WithoutCleanup(steps))
  {
    CleanupDoesNotMatter(Init(start), Init(start), steps);
  }

  // ----- Who is authenticated -----

  /** Who a token stands for after the history, and until when: granted by its login, taken back by
      a later logout. */
  function Grant(start: int, steps: seq<Step>, token: string): Option<(int, int)>
    decreases |steps|
  {
    if steps == [] then None
    else
      var front, last := steps[..|steps|-1], steps[|steps|-1];
      if last.Login? && last.token == token
      then Some((last.user, Run(Init(start), front).now + SESSION_DURATION))
      else if last == Logout(token) then None
      else Grant(start, front, token)
  }

  predicate LogsIn(steps: seq<Step>, token: string) {
    exists i :: 0 <= i < |steps| && steps[i].Login? && steps[i].token == token
  }

  lemma FreshFront(steps: seq<Step>)
    requires FreshTokens(steps) && steps != []
    ensures FreshTokens(steps[..|steps|-1])
    ensures steps[|steps|-1].Login? ==> !LogsIn(steps[..|steps|-1], steps[|steps|-1].token)
  {
  }

  /** What one step does to one token's row. */
  lemma StepEffect(s: State, step: Step, token: string)
    ensures var s' := Do(s, step);
            && s.now <= s'.now
            && (step.Login? && step.token == token && token !in s.table ==>
                  token in s'.table && s'.table[token] == Session(step.user, s.now + SESSION_DURATION, s.now))
            && (step == Logout(token) ==> token !in s'.table)
            && (!(step.Login? && step.token == token) && step != Logout(token) ==>
                  && (token in s'.table ==> token in s.table && s'.table[token].user == s.table[token].user
                                            && s'.table[token].expiresAt == s.table[token].expiresAt)
                  && (token in s.table && s.table[token].expiresAt > s'.now ==> token in s'.table))
  {
  }

  /** The row of a token says what was granted; only expired grants may lack a row. */
  ghost predicate RowFollowsGrant(s: State, grant: Option<(int, int)>, token: string) {
    && (token in s.table ==> grant == Some((s.table[token].user, s.table[token].expiresAt)))
    && (grant.Some? && grant.value.1 > s.now ==> token in s.table)
  }

  lemma {:induction false} GrantedTokensLoggedIn(start: int, steps: seq<Step>, token: string)
    requires FreshTokens(steps) && Grant(start, steps, token).Some?
    ensures LogsIn(steps, token) && token != ""
    decreases |steps|
  {
    var front, last := steps[..|steps|-1], steps[|steps|-1];
    if !(last.Login? && last.token == token) {
      FreshFront(steps);
      GrantedTokensLoggedIn(start, front, token);
      var i :| 0 <= i < |front| && front[i].Login? && front[i].token == token;
      assert steps[i] == front[i];
    }
  }

  lemma {:induction false} TableFollowsGrants(start: int, steps: seq<Step>, token: string)
    requires FreshTokens(steps)
    ensures RowFollowsGrant(Run(Init(start), steps), Grant(start, steps, token), token)
    decreases |steps|
  {
    if steps != [] {
      var front, last := steps[..|steps|-1], steps[|steps|-1];
      var s := Run(Init(start), front);
      FreshFront(steps);
      TableFollowsGrants(start, front, token);
      StepEffect(s, last, token);
      if last.Login? && last.token == token && token in s.table {
        GrantedTokensLoggedIn(start, front, token);
        assert false;
      }
    }
  }

  /** What a token authenticates as, from the end of the run until anything else happens. */
  lemma GrantStandsFor(start: int, steps: seq<Step>, token: string, now: int)
    requires FreshTokens(steps) && now >= Run(Init(start), steps).now
    ensures var s, grant := Run(Init(start), steps), Grant(start, steps, token);
            Authenticate(s.table, token, now)
            == if grant.Some? && now < grant.value.1 then Some(grant.value.0) else None
  {
    TableFollowsGrants(start, steps, token);
    if Grant(start, steps, token).Some? { GrantedTokensLoggedIn(start, steps, token); }
  }

  /** A token authenticates, as the user who logged in with it, exactly while it is unexpired and
      not logged out; cleanups and late activity updates make no difference. */
  lemma AuthenticatedExactlyWhileGranted(start: int, steps: seq<Step>, token: string)
    requires FreshTokens(steps)
    ensures var s, grant := Run(Init(start), steps), Grant(start, steps, token);
            Authenticate(s.table, token, s.now)
            == if grant.Some? && s.now < grant.value.1 then Some(grant.value.0) else None
  {
    GrantStandsFor(start, steps, token, Run(Init(start), steps).now);
  }

  lemma {:induction false} NoGrantWithoutLogin(start: int, before: seq<Step>, after: seq<Step>, token: string)
    requires Grant(start, before, token).None? && !LogsIn(after, token)
    ensures Grant(start, before + after, token).None?
    decreases |after|
  {
    if after == [] {
      assert before + after == before;
    } else {
      var front := after[..|after|-1];
      assert (before + after)[..|before + after|-1] == before + front;
      assert forall i :: 0 <= i < |front| ==> front[i] == after[i];
      NoGrantWithoutLogin(start, before, front, token);
    }
  }

  /** Logout is final: whatever follows, updates started before it included, the token never
      authenticates again. */
  lemma LogoutIsFinal(start: int, before: seq<Step>, token: string, after: seq<Step>)
    requires FreshTokens(before + [Logout(token)] + after)
    requires LogsIn(before, token)
    ensures var s := Run(Init(start), before + [Logout(token)] + after);
            Authenticate(s.table, token, s.now) == None
  {
    var upTo := before + [Logout(token)];
    assert upTo[..|upTo|-1] == before;
    assert !LogsIn(after, token) by {
      var i :| 0 <= i < |before| && before[i].Login? && before[i].token == token;
      assert (upTo + after)[i] == before[i];
      assert forall j :: 0 <= j < |after| ==> (upTo + after)[|upTo| + j] == after[j];
    }
    NoGrantWithoutLogin(start, upTo, after, token);
    AuthenticatedExactlyWhileGranted(start, upTo + after, token);
  }

  // ----- The middleware -----

  lemma RunAppend(s: State, steps: seq<Step>, step: Step)
    ensures Run(s, steps + [step]) == Do(Run(s, steps), step)
  {
    assert (steps + [step])[..|steps|] == steps;
  }

  /** A login with a fresh token finds no row under it. */
  lemma FreshLoginIsAccepted(start: int, steps: seq<Step>, token: string, user: int)
    requires FreshTokens(steps + [Login(token, user)])
    ensures token !in Run(Init(start), steps).table
  {
    var all := steps + [Login(token, user)];
    assert all[..|all|-1] == steps;
    FreshFront(all);
    TableFollowsGrants(start, steps, token);
    if Grant(start, steps, token).Some? { GrantedTokensLoggedIn(start, steps, token); }
  }

  /** The middleware over the sessions table. The steps taken so far are kept to say what the table
      stands for; each method adds its own, after the time that has passed. */
  class AuthMiddleware {
    var sessions: Table
    const start: int
    ghost var history: seq<Step>

    ghost function Now(): State
      reads this
    {
      Run(Init(start), history)
    }

    ghost predicate Valid()
      reads this
    {
      sessions == Now().table
    }

    constructor (now: int)
      ensures Valid() && start == now && history == []
    {
      sessions, start, history := map[], now, [];
    }

    ghost method Record(now: int, step: Step)
      requires Valid() && now >= Now().now
      modifies this`history
      ensures history == old(history) + [Tick(now - old(Now().now)), step]
      ensures Now() == Do(old(Now()).(now := now), step)
    {
      var tick := Tick(now - Now().now);
      RunAppend(Init(start), history, tick);
      RunAppend(Init(start), history + [tick], step);
      history := history + [tick, step];
      assert history == old(history) + [tick] + [step];
    }

    /** A fresh token is always accepted; it then authenticates as the user until it expires. */
    method CreateSession(token: string, user: int, now: int) returns (ok: bool)
      requires Valid() && now >= Now().now
      modifies this
      ensures Valid() && history == old(history) + [Tick(now - old(Now().now)), Login(token, user)]
      ensures ok <==> token !in old(sessions)
      ensures FreshTokens(history) ==> ok
      ensures ok && token != "" ==>
                forall t :: Authenticate(sessions, token, t) == if t < now + 604_800 then Some(user) else None
      ensures ok ==> token in sessions && sessions[token].lastActiveAt == now
      ensures forall other, t :: other != token || !ok ==>
                Authenticate(sessions, other, t) == Authenticate(old(sessions), other, t)
    {
      ghost var steps := history + [Tick(now - Now().now)];
      RunAppend(Init(start), history, Tick(now - Now().now));
      Record(now, Login(token, user));
      assert history == steps + [Login(token, user)];
      if FreshTokens(history) { FreshLoginIsAccepted(start, steps, token, user); }
      if token in sessions {
        return false;
      }
      sessions := sessions[token := Session(user, now + SESSION_DURATION, now)];
      return true;
    }

    /** The token authenticates at no time any more, and every other as before. */
    method DeleteSession(token: string)
      requires Valid()
      modifies this
      ensures Valid() && history == old(history) + [Logout(token)]
      ensures forall t :: Authenticate(sessions, token, t) == None
      ensures forall other, t :: other != token ==>
                Authenticate(sessions, other, t) == Authenticate(old(sessions), other, t)
    {
      RunAppend(Init(start), history, Logout(token));
      history := history + [Logout(token)];
      sessions := sessions - {token};
    }

    /** A request is let through exactly while its token is granted, as the user it was granted to,
        and only then starts an activity update. */
    method RequireAuth(token: string, now: int) returns (user: Option<int>)
      requires Valid() && now >= Now().now
      modifies this
      ensures Valid() && history == old(history) + [Tick(now - old(Now().now)), Request(token)]
      ensures FreshTokens(old(history)) ==>
                var grant := Grant(start, old(history), token);
                user == if grant.Some? && now < grant.value.1 then Some(grant.value.0) else None
      ensures sessions == old(sessions)
      ensures Now().updates == old(Now().updates) + (if user.Some? then multiset{token} else multiset{})
    {
      ghost var before := history;
      Record(now, Request(token));
      user := None;
      if token != "" {
        if token in sessions && sessions[token].expiresAt > now {
          user := Some(sessions[token].user);
        }
      }
      assert user == Authenticate(sessions, token, now);
      if FreshTokens(before) { GrantStandsFor(start, before, token, now); }
    }

    /** An update that arrives, however late, changes nobody's authentication at any time. */
    method UpdateSessionActivity(token: string, now: int)
      requires Valid() && now >= Now().now && token in Now().updates
      modifies this
      ensures Valid() && history == old(history) + [Tick(now - old(Now().now)), Update(token)]
      ensures forall any, t :: Authenticate(sessions, any, t) == Authenticate(old(sessions), any, t)
      ensures sessions.Keys == old(sessions).Keys && (token in sessions ==> sessions[token].lastActiveAt == now)
      ensures forall other :: other in sessions && other != token ==> sessions[other] == old(sessions)[other]
    {
      Record(now, Update(token));
      if token in sessions {
        sessions := sessions[token := sessions[token].(lastActiveAt := now)];
      }
    }

    /** From now on everybody is authenticated as before, and no expired row is left. */
    method CleanExpiredSessions(now: int)
      requires Valid() && now >= Now().now
      modifies this
      ensures Valid() && history == old(history) + [Tick(now - old(Now().now)), Cleanup]
      ensures forall any, t :: t >= now ==> Authenticate(sessions, any, t) == Authenticate(old(sessions), any, t)
      ensures forall any :: any in sessions ==> now < sessions[any].expiresAt
    {
      Record(now, Cleanup);
      sessions := map token | token in sessions && sessions[token].expiresAt > now :: sessions[token];
    }
  }
}
