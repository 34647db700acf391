/** The per-client limiter when every call runs alone: the bucket table, requests against it,
    and the sweep that drops idle clients. */
module RateLimiter {
  import opened Options
  import opened TokenBucket

  type Table = map<string, Bucket>

  /** One request, with the table it leaves behind. A client without an entry starts full. */
  function Allow(c: Config, m: Table, ip: string, now: real): (Table, Verdict)
    requires c.Valid()
  {
    var b := if ip in m then m[ip] else Bucket(c.capacity, now);
    var (b', v) := Consume(c, b, now);
    (m[ip := b'], v)
  }

  /** The sweep: entries idle for longer than `maxAge` go. */
  function Prune(m: Table, maxAge: real, now: real): Table {
    map ip | ip in m && !(now - m[ip].lastRefill > maxAge) :: m[ip]
  }

  // ----- The imperative limiter -----

  class ClientTracker {
    var tokens: real
    var lastRefill: real

    constructor (tokens: real, lastRefill: real)
      ensures this.tokens == tokens && this.lastRefill == lastRefill
    {
      this.tokens, this.lastRefill := tokens, lastRefill;
    }

    ghost function Value(): Bucket
      reads this
    {
      Bucket(tokens, lastRefill)
    }

    /** The part of `allow` that runs under the tracker's lock. */
    method Charge(config: Config, now: real) returns (allowed: bool, retryAfter: int)
      requires config.Valid()
      modifies this
      ensures (Value(), Verdict(allowed, retryAfter)) == Consume(config, old(Value()), now)
    {
      var elapsed := now - lastRefill;
      lastRefill := now;
      tokens := tokens + elapsed * config.refillRate;
      if tokens > config.capacity {
        tokens := config.capacity;
      }
      assert tokens == Refill(config, old(Value()), now);

      if tokens >= 1.0 {
        tokens := tokens - 1.0;
        return true, 0;
      }

      var missing := 1.0 - tokens;
      retryAfter := (missing / config.refillRate).Floor;
      if retryAfter < 1 {
        retryAfter := 1;
      }
      allowed := false;
    }
  }

  class Limiter {
    const config: Config
    var clients: map<string, ClientTracker>

    /** No two clients share a tracker. */
    ghost predicate Valid()
      reads this
    {
      && config.Valid()
      && forall i, j :: i in clients && j in clients && i != j ==> clients[i] != clients[j]
    }

    ghost function Buckets(): Table
      reads this, clients.Values
    {
      map ip | ip in clients :: clients[ip].Value()
    }

    constructor (capacity: real, refillInterval: real)
      requires capacity > 0.0 && refillInterval > 0.0
      ensures Valid() && Buckets() == map[]
      ensures config == Config(capacity, capacity / refillInterval)
    {
      config := Config(capacity, capacity / refillInterval);
      clients := map[];
    }

    method GetClient(ip: string, now: real) returns (client: ClientTracker)
      requires Valid()
      modifies this`clients
      ensures Valid()
      ensures ip in clients && clients[ip] == client
      ensures ip in old(clients) ==> clients == old(clients)
      ensures ip !in old(clients) ==> fresh(client) && clients == old(clients)[ip := client]
      ensures ip !in old(clients) ==> client.tokens == config.capacity && client.lastRefill == now
    {
      if ip in clients {
        return clients[ip];
      }
      client := new ClientTracker(config.capacity, now);
      clients := clients[ip := client];
    }

    /** A missing tracker is created at `created`; the charge is made at `now`, under the
        tracker's own lock. */
    method AllowRequest(ip: string, created: real, now: real) returns (allowed: bool, retryAfter: int)
      requires Valid() && created <= now
      modifies this`clients, clients.Values
      ensures Valid()
      ensures (Buckets(), Verdict(allowed, retryAfter)) == Allow(config, old(Buckets()), ip, now)
    {
      ghost var before := Buckets();
      var client := GetClient(ip, created);
      NewTrackerIsFull(config, created, now);
      ghost var b := client.Value();
      allowed, retryAfter := client.Charge(config, now);
      assert Buckets() == before[ip := client.Value()];
    }

    /** The loop visits the clients in some order; deletion during the visit is safe. */
    method PruneClients(maxAge: real, now: real)
      requires Valid()
      modifies this`clients
      ensures Valid()
      ensures forall ip :: ip in clients <==> ip in old(clients) && now - old(clients[ip].lastRefill) <= maxAge
      ensures forall ip :: ip in clients ==> clients[ip] == old(clients[ip])
      ensures Buckets() == Prune(old(Buckets()), maxAge, now)
    {
      var remaining := clients.Keys;
      while remaining != {}
        invariant Valid()
        invariant remaining <= clients.Keys <= old(clients).Keys
        invariant forall ip :: ip in clients ==> clients[ip] == old(clients)[ip]
        invariant forall ip :: ip in old(clients) && ip !in remaining ==>
            (ip in clients <==> !(now - old(clients)[ip].lastRefill > maxAge))
        decreases remaining
      {
        var ip :| ip in remaining;
        remaining := remaining - {ip};
        if now - clients[ip].lastRefill > maxAge {
          clients := map k | k in clients && k != ip :: clients[k];
        }
      }
    }
  }

  /** It does not matter how long before its first charge a tracker was created. */
  lemma NewTrackerIsFull(c: Config, created: real, now: real)
    requires c.Valid() && created <= now
    ensures Refill(c, Bucket(c.capacity, created), now) == c.capacity
    ensures Consume(c, Bucket(c.capacity, created), now) == Consume(c, Bucket(c.capacity, now), now)
  {
    Gain(c.refillRate, created, now);
    Gain(c.refillRate, now, now);
  }

  // ----- Levels: what a client can observe of the table -----

  /** The tokens `ip` would find at `now`; a client without an entry would find a full bucket. */
  function Level(c: Config, m: Table, ip: string, now: real): real {
    if ip in m then Refill(c, m[ip], now) else c.capacity
  }

  ghost predicate WellFormed(m: Table, now: real) {
    forall ip :: ip in m ==> m[ip].tokens >= 0.0 && m[ip].lastRefill <= now
  }

  lemma LevelIsNonNegative(c: Config, m: Table, ip: string, now: real)
    requires c.Valid() && WellFormed(m, now)
    ensures 0.0 <= Level(c, m, ip, now) <= c.capacity
  {
    if ip in m { RefillIsNonNegative(c, m[ip], now); }
  }

  /** Levels only drift up with time, at the refill rate, to the capacity. */
  lemma LevelLater(c: Config, m: Table, ip: string, mid: real, now: real)
    requires c.Valid() && mid <= now
    ensures Level(c, m, ip, now) == Min(c.capacity, Level(c, m, ip, mid) + (now - mid) * c.refillRate)
  {
    Gain(c.refillRate, mid, now);
    if ip in m {
      RefillTwice(c, m[ip], mid, now);
      assert Bucket(Refill(c, m[ip], mid), mid).lastRefill == mid;
    }
  }

  /** A request is judged by its client's level alone, and moves that level alone. */
  lemma AllowByLevel(c: Config, m: Table, ip: string, now: real)
    requires c.Valid() && WellFormed(m, now)
    ensures var (m', v) := Allow(c, m, ip, now);
            var level := Level(c, m, ip, now);
            && v == (if level >= 1.0 then Verdict(true, 0) else Verdict(false, RetryAfter(c, level)))
            && Level(c, m', ip, now) == (if level >= 1.0 then level - 1.0 else level)
            && (forall other :: other != ip ==> Level(c, m', other, now) == Level(c, m, other, now))
            && WellFormed(m', now)
  {
    LevelIsNonNegative(c, m, ip, now);
    NewTrackerIsFull(c, now, now);
    var level := Level(c, m, ip, now);
    RefillAtOnce(c, level - 1.0, now);
    RefillAtOnce(c, level, now);
    assert Allow(c, m, ip, now).0[ip] == Bucket(if level >= 1.0 then level - 1.0 else level, now);
  }

  /** With a long enough idle limit the sweep only drops full buckets. */
  lemma PruneKeepsLevels(c: Config, m: Table, maxAge: real, now: real, ip: string)
    requires c.Valid() && WellFormed(m, now)
    requires maxAge >= c.capacity / c.refillRate
    ensures Level(c, Prune(m, maxAge, now), ip, now) == Level(c, m, ip, now)
    ensures WellFormed(Prune(m, maxAge, now), now)
  {
    if ip in m && now - m[ip].lastRefill > maxAge {
      IdleBucketIsFull(c, m[ip], maxAge, now);
    }
  }

  // ----- Runs -----

  datatype Event = Request(ip: string, at: real) | Sweep(at: real)

  function Play(c: Config, maxAge: real, m: Table, events: seq<Event>): (r: (Table, seq<Verdict>))
    requires c.Valid()
    decreases |events|
  {
    if events == [] then (m, [])
    else match events[0]
      case Request(ip, at) =>
        var (m', v) := Allow(c, m, ip, at);
        var (last, vs) := Play(c, maxAge, m', events[1..]);
        (last, [v] + vs)
      case Sweep(at) =>
        Play(c, maxAge, Prune(m, maxAge, at), events[1..])
  }

  function WithoutSweeps(events: seq<Event>): seq<Event> {
    if events == [] then []
    else (if events[0].Sweep? then [] else [events[0]]) + WithoutSweeps(events[1..])
  }

  /** The events happen in this order between `from` and `to`. */
  predicate Timed(events: seq<Event>, from: real, to: real) {
    if events == [] then from <= to
    else from <= events[0].at && Timed(events[1..], events[0].at, to)
  }

  ghost predicate SameLevels(c: Config, m: Table, n: Table, now: real) {
    forall ip :: Level(c, m, ip, now) == Level(c, n, ip, now)
  }

  lemma SameLevelsLater(c: Config, m: Table, n: Table, mid: real, now: real)
    requires c.Valid() && mid <= now && SameLevels(c, m, n, mid)
    ensures SameLevels(c, m, n, now)
  {
    forall ip ensures Level(c, m, ip, now) == Level(c, n, ip, now) {
      LevelLater(c, m, ip, mid, now);
      LevelLater(c, n, ip, mid, now);
      assert Level(c, m, ip, mid) == Level(c, n, ip, mid);
    }
  }

  lemma {:induction false} SweepsDoNotMatter(c: Config, maxAge: real, m: Table, n: Table, events: seq<Event>,
                                             from: real, to: real)
    requires c.Valid() && maxAge >= c.capacity / c.refillRate
    requires Timed(events, from, to)
    requires WellFormed(m, from) && WellFormed(n, from) && SameLevels(c, m, n, from)
    ensures Play(c, maxAge, m, events).1 == Play(c, maxAge, n, WithoutSweeps(events)).1
    decreases |events|
  {
    if events != [] {
      var now, rest := events[0].at, events[1..];
      SameLevelsLater(c, m, n, from, now);
      match events[0]
      case Request(ip, _) =>
        AllowByLevel(c, m, ip, now);
        AllowByLevel(c, n, ip, now);
        assert Level(c, m, ip, now) == Level(c, n, ip, now);
        SweepsDoNotMatter(c, maxAge, Allow(c, m, ip, now).0, Allow(c, n, ip, now).0, rest, now, to);
        assert WithoutSweeps(events) == [events[0]] + WithoutSweeps(rest);
      case Sweep(_) =>
        forall ip ensures Level(c, Prune(m, maxAge, now), ip, now) == Level(c, n, ip, now) {
          PruneKeepsLevels(c, m, maxAge, now, ip);
        }
        PruneKeepsLevels(c, m, maxAge, now, "");
        SweepsDoNotMatter(c, maxAge, Prune(m, maxAge, now), n, rest, now, to);
        assert WithoutSweeps(events) == WithoutSweeps(rest);
    }
  }

  /** Pruning is invisible: every verdict and every announced wait is that of a limiter which
      never forgets a client, as long as the idle limit covers a full refill. */
  lemma PruningIsInvisible(c: Config, maxAge: real, events: seq<Event>, from: real, to: real)
    requires c.Valid() && maxAge >= c.capacity / c.refillRate
    requires Timed(events, from, to)
    ensures Play(c, maxAge, map[], events).1 == Play(c, maxAge, map[], WithoutSweeps(events)).1
  {
    SweepsDoNotMatter(c, maxAge, map[], map[], events, from, to);
  }

  /** Both limiters the server builds, 5 and 100 requests a minute with a 15 minute idle limit; times are
      in seconds. */
  lemma PruningIsInvisibleAsConfigured(capacity: real, events: seq<Event>, from: real, to: real)
    requires capacity == 5.0 || capacity == 100.0
    requires Timed(events, from, to)
    ensures var c := Config(capacity, capacity / 60.0);
            c.Valid() && Play(c, 900.0, map[], events).1 == Play(c, 900.0, map[], WithoutSweeps(events)).1
  {
    PruningIsInvisible(Config(capacity, capacity / 60.0), 900.0, events, from, to);
  }

  // ----- Whom a sweep forgets -----

  /** When the client last made a request. */
  function LastRequest(events: seq<Event>, ip: string): Option<real> {
    if events == [] then None
    else
      var last := events[|events|-1];
      if last.Request? && last.ip == ip then Some(last.at) else LastRequest(events[..|events|-1], ip)
  }

  lemma {:induction false} PlayAppend(c: Config, maxAge: real, m: Table, events: seq<Event>, event: Event)
    requires c.Valid()
    ensures Play(c, maxAge, m, events + [event]).0
         == match event
            case Request(ip, at) => Allow(c, Play(c, maxAge, m, events).0, ip, at).0
            case Sweep(at) => Prune(Play(c, maxAge, m, events).0, maxAge, at)
    decreases |events|
  {
    if events == [] {
      assert [] + [event] == [event] && [event][1..] == [];
    } else {
      assert (events + [event])[1..] == events[1..] + [event];
      var m' := match events[0]
                case Request(ip, at) => Allow(c, m, ip, at).0
                case Sweep(at) => Prune(m, maxAge, at);
      PlayAppend(c, maxAge, m', events[1..], event);
    }
  }

  lemma {:induction false} TimedFront(events: seq<Event>, from: real, to: real)
    requires events != [] && Timed(events, from, to)
    ensures Timed(events[..|events|-1], from, events[|events|-1].at) && events[|events|-1].at <= to
    decreases |events|
  {
    if |events| > 1 {
      TimedFront(events[1..], events[0].at, to);
      assert events[..|events|-1][1..] == events[1..][..|events|-2];
    }
  }

  /** The table holds for each client the time of its last request, and has forgotten only clients
      whose last request is more than the idle limit ago. */
  ghost predicate Remembers(m: Table, maxAge: real, events: seq<Event>, now: real) {
    && (forall ip :: ip in m ==> LastRequest(events, ip) == Some(m[ip].lastRefill))
    && (forall ip :: ip !in m && LastRequest(events, ip).Some? ==> now - LastRequest(events, ip).value > maxAge)
  }

  lemma {:induction false} TableRemembers(c: Config, maxAge: real, events: seq<Event>, from: real, to: real)
    requires c.Valid() && Timed(events, from, to)
    ensures Remembers(Play(c, maxAge, map[], events).0, maxAge, events, to)
    decreases |events|
  {
    if events != [] {
      var front, last := events[..|events|-1], events[|events|-1];
      TimedFront(events, from, to);
      TableRemembers(c, maxAge, front, from, last.at);
      assert events == front + [last];
      PlayAppend(c, maxAge, map[], front, last);
    }
  }

  /** Right after a sweep the table holds exactly the clients whose last request is at most the idle
      limit ago, whatever earlier sweeps have done. */
  lemma ExactlyTheRecentClients(c: Config, maxAge: real, events: seq<Event>, from: real, at: real, ip: string)
    requires c.Valid() && Timed(events, from, at)
    ensures ip in Play(c, maxAge, map[], events + [Sweep(at)]).0
        <==> LastRequest(events, ip).Some? && at - LastRequest(events, ip).value <= maxAge
  {
    TableRemembers(c, maxAge, events, from, at);
    PlayAppend(c, maxAge, map[], events, Sweep(at));
  }

  // ----- How many requests get through -----

  /** Requests of `ip` admitted while playing the events. */
  function Admitted(c: Config, maxAge: real, m: Table, events: seq<Event>, ip: string): nat
    requires c.Valid()
    decreases |events|
  {
    if events == [] then 0
    else match events[0]
      case Request(who, at) =>
        var (m', v) := Allow(c, m, who, at);
        (if who == ip && v.allowed then 1 else 0) + Admitted(c, maxAge, m', events[1..], ip)
      case Sweep(at) => Admitted(c, maxAge, Prune(m, maxAge, at), events[1..], ip)
  }

  lemma {:induction false} AdmittedWithinLevel(c: Config, maxAge: real, m: Table, events: seq<Event>, ip: string,
                                               from: real, to: real)
    requires c.Valid() && maxAge >= c.capacity / c.refillRate
    requires Timed(events, from, to) && WellFormed(m, from)
    ensures from <= to
    ensures Admitted(c, maxAge, m, events, ip) as real <= Level(c, m, ip, from) + (to - from) * c.refillRate
    decreases |events|
  {
    if events == [] {
      LevelIsNonNegative(c, m, ip, from);
      Gain(c.refillRate, from, to);
      assert Admitted(c, maxAge, m, events, ip) as real == 0.0;
      assert 0.0 <= Level(c, m, ip, from);
      assert 0.0 <= (to - from) * c.refillRate;
    } else {
      var now, rest := events[0].at, events[1..];
      LevelLater(c, m, ip, from, now);
      match events[0] {
        case Request(who, _) =>
          AllowByLevel(c, m, who, now);
          AdmittedWithinLevel(c, maxAge, Allow(c, m, who, now).0, rest, ip, now, to);
        case Sweep(_) =>
          PruneKeepsLevels(c, m, maxAge, now, ip);
          AdmittedWithinLevel(c, maxAge, Prune(m, maxAge, now), rest, ip, now, to);
      }
      assert (to - from) * c.refillRate == (now - from) * c.refillRate + (to - now) * c.refillRate;
    }
  }

  lemma {:induction false} RunsStayWellFormed(c: Config, maxAge: real, m: Table, events: seq<Event>,
                                              from: real, to: real)
    requires c.Valid() && Timed(events, from, to) && WellFormed(m, from)
    ensures WellFormed(Play(c, maxAge, m, events).0, to)
    decreases |events|
  {
    if events != [] {
      var now := events[0].at;
      match events[0]
      case Request(ip, _) =>
        AllowByLevel(c, m, ip, now);
        RunsStayWellFormed(c, maxAge, Allow(c, m, ip, now).0, events[1..], now, to);
      case Sweep(_) =>
        RunsStayWellFormed(c, maxAge, Prune(m, maxAge, now), events[1..], now, to);
    }
  }

  /** After any history, the requests of one client admitted in an interval of length T number
      at most capacity + refillRate * T. */
  lemma BurstBound(c: Config, maxAge: real, before: seq<Event>, during: seq<Event>, ip: string,
                   start: real, a: real, b: real)
    requires c.Valid() && maxAge >= c.capacity / c.refillRate
    requires Timed(before, start, a) && Timed(during, a, b)
    ensures Admitted(c, maxAge, Play(c, maxAge, map[], before).0, during, ip) as real
         <= c.capacity + c.refillRate * (b - a)
  {
    RunsStayWellFormed(c, maxAge, map[], before, start, a);
    var m := Play(c, maxAge, map[], before).0;
    AdmittedWithinLevel(c, maxAge, m, during, ip, a, b);
    LevelIsNonNegative(c, m, ip, a);
  }
}
