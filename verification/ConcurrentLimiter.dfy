/** The limiter under concurrency. A request first looks its tracker up under the read lock; on a
    miss it looks again, and creates, under the write lock; then it is charged under the tracker's
    own lock. The sweep deletes idle trackers from the table, but a request may still hold one. */
module ConcurrentLimiter {
  import opened TokenBucket
  import opened RateLimiter

  /** Where an unfinished request stands: it missed at its first lookup, or it holds a tracker. */
  datatype Phase = Missed(ip: string) | Holding(ip: string, id: nat)

  datatype Tracker = Tracker(ip: string, bucket: Bucket)

  /** `trackers` are all the trackers ever created; `clients` says which ones are in the table. */
  datatype State = State(now: real, clients: map<string, nat>, trackers: seq<Tracker>, requests: map<nat, Phase>)

  /** `DropIdle` is one deletion of a sweep that read the clock at `sweptAt`. */
  datatype Step =
    | Tick(delta: real)
    | Lookup(r: nat, ip: string)
    | Create(r: nat)
    | Charge(r: nat)
    | DropIdle(ip: string, sweptAt: real)

  function Init(now: real): State { State(now, map[], [], map[]) }

  predicate Enabled(maxAge: real, s: State, step: Step) {
    match step
    case Tick(delta) => delta >= 0.0
    case Lookup(r, _) => r !in s.requests
    case Create(r) => r in s.requests && s.requests[r].Missed?
    case Charge(r) => r in s.requests && s.requests[r].Holding? && s.requests[r].id < |s.trackers|
    case DropIdle(ip, sweptAt) =>
      && sweptAt <= s.now && ip in s.clients && s.clients[ip] < |s.trackers|
      && sweptAt - s.trackers[s.clients[ip]].bucket.lastRefill > maxAge
  }

  function Do(c: Config, maxAge: real, s: State, step: Step): State
    requires c.Valid() && Enabled(maxAge, s, step)
  {
    match step
    case Tick(delta) => s.(now := s.now + delta)
    case Lookup(r, ip) =>
      s.(requests := s.requests[r := if ip in s.clients then Holding(ip, s.clients[ip]) else Missed(ip)])
    case Create(r) =>
      var ip := s.requests[r].ip;
      if ip in s.clients then s.(requests := s.requests[r := Holding(ip, s.clients[ip])])
      else
        var id := |s.trackers|;
        State(s.now, s.clients[ip := id], s.trackers + [Tracker(ip, Bucket(c.capacity, s.now))],
              s.requests[r := Holding(ip, id)])
    case Charge(r) =>
      var id := s.requests[r].id;
      var bucket := Consume(c, s.trackers[id].bucket, s.now).0;
      s.(trackers := s.trackers[id := s.trackers[id].(bucket := bucket)], requests := s.requests - {r})
    case DropIdle(ip, _) => s.(clients := s.clients - {ip})
  }

  function VerdictOf(c: Config, s: State, r: nat): Verdict
    requires c.Valid() && r in s.requests && s.requests[r].Holding? && s.requests[r].id < |s.trackers|
  {
    Consume(c, s.trackers[s.requests[r].id].bucket, s.now).1
  }

  // ----- The invariant and the table it shows -----

  ghost predicate Inv(s: State) {
    && (forall ip :: ip in s.clients ==> s.clients[ip] < |s.trackers| && s.trackers[s.clients[ip]].ip == ip)
    && (forall i :: 0 <= i < |s.trackers| ==>
          s.trackers[i].bucket.tokens >= 0.0 && s.trackers[i].bucket.lastRefill <= s.now)
    && (forall r :: r in s.requests && s.requests[r].Holding? ==>
          s.requests[r].id < |s.trackers| && s.trackers[s.requests[r].id].ip == s.requests[r].ip)
  }

  ghost function View(s: State): Table
    requires Inv(s)
  {
    map ip | ip in s.clients :: s.trackers[s.clients[ip]].bucket
  }

  ghost predicate IsLive(s: State, ip: string, id: nat) { ip in s.clients && s.clients[ip] == id }

  /** Requests of `ip` that hold a tracker no longer in the table. */
  ghost function Orphans(s: State, ip: string): set<nat> {
    set r | r in s.requests && s.requests[r].Holding? && s.requests[r].ip == ip
            && !IsLive(s, ip, s.requests[r].id)
  }

  /** Requests of `ip` that hold the tracker in the table. */
  ghost function Holders(s: State, ip: string): set<nat> {
    set r | r in s.requests && s.requests[r].Holding? && s.requests[r].ip == ip
            && IsLive(s, ip, s.requests[r].id)
  }

  lemma StepKeepsInv(c: Config, maxAge: real, s: State, step: Step)
    requires c.Valid() && Inv(s) && Enabled(maxAge, s, step)
    ensures Inv(Do(c, maxAge, s, step))
    ensures s.now <= Do(c, maxAge, s, step).now
  {
    if step.Charge? {
      var b := s.trackers[s.requests[step.r].id].bucket;
      RefillIsNonNegative(c, b, s.now);
    }
  }

  // ----- Runs -----

  predicate Legal(c: Config, maxAge: real, s: State, steps: seq<Step>)
    requires c.Valid()
    decreases |steps|
  {
    steps == [] ||
    (Enabled(maxAge, s, steps[0]) && Legal(c, maxAge, Do(c, maxAge, s, steps[0]), steps[1..]))
  }

  function Run(c: Config, maxAge: real, s: State, steps: seq<Step>): State
    requires c.Valid() && Legal(c, maxAge, s, steps)
    decreases |steps|
  {
    if steps == [] then s else Run(c, maxAge, Do(c, maxAge, s, steps[0]), steps[1..])
  }

  lemma {:induction false} RunKeepsInv(c: Config, maxAge: real, s: State, steps: seq<Step>)
    requires c.Valid() && Inv(s) && Legal(c, maxAge, s, steps)
    ensures Inv(Run(c, maxAge, s, steps)) && s.now <= Run(c, maxAge, s, steps).now
    decreases |steps|
  {
    if steps != [] {
      StepKeepsInv(c, maxAge, s, steps[0]);
      RunKeepsInv(c, maxAge, Do(c, maxAge, s, steps[0]), steps[1..]);
    }
  }

  // ----- One tracker per client -----

  ghost predicate AllTrackersLive(s: State) {
    forall i :: 0 <= i < |s.trackers| ==> IsLive(s, s.trackers[i].ip, i)
  }

  predicate Sweeps(steps: seq<Step>) {
    steps != [] && (steps[0].DropIdle? || Sweeps(steps[1..]))
  }

  lemma {:induction false} TrackersStayLive(c: Config, maxAge: real, s: State, steps: seq<Step>)
    requires c.Valid() && Inv(s) && Legal(c, maxAge, s, steps)
    requires AllTrackersLive(s) && !Sweeps(steps)
    ensures AllTrackersLive(Run(c, maxAge, s, steps))
    decreases |steps|
  {
    if steps != [] {
      StepKeepsInv(c, maxAge, s, steps[0]);
      TrackersStayLive(c, maxAge, Do(c, maxAge, s, steps[0]), steps[1..]);
    }
  }

  /** Double-checked creation: however lookups, creations and charges interleave, without a sweep
      at most one tracker is ever created for a client. */
  lemma OneTrackerPerClient(c: Config, maxAge: real, start: real, steps: seq<Step>, i: nat, j: nat)
    requires c.Valid() && Legal(c, maxAge, Init(start), steps) && !Sweeps(steps)
    requires i < j < |Run(c, maxAge, Init(start), steps).trackers|
    ensures var s := Run(c, maxAge, Init(start), steps); s.trackers[i].ip != s.trackers[j].ip
  {
    TrackersStayLive(c, maxAge, Init(start), steps);
    var s := Run(c, maxAge, Init(start), steps);
    assert IsLive(s, s.trackers[i].ip, i) && IsLive(s, s.trackers[j].ip, j);
  }

  // ----- Admissions under concurrency -----

  ghost function AdmittedBy(c: Config, s: State, step: Step, ip: string): nat
    requires c.Valid() && Inv(s)
  {
    if step.Charge? && step.r in s.requests && s.requests[step.r].Holding? && s.requests[step.r].ip == ip
       && VerdictOf(c, s, step.r).allowed
    then 1 else 0
  }

  /** Requests of `ip` that hold a tracker when this step deletes it. */
  ghost function OrphanedBy(s: State, step: Step, ip: string): nat {
    if step.DropIdle? && step.ip == ip then |Holders(s, ip)| else 0
  }

  ghost function Admissions(c: Config, maxAge: real, s: State, steps: seq<Step>, ip: string): nat
    requires c.Valid() && Inv(s) && Legal(c, maxAge, s, steps)
    decreases |steps|
  {
    if steps == [] then 0
    else
      StepKeepsInv(c, maxAge, s, steps[0]);
      AdmittedBy(c, s, steps[0], ip) + Admissions(c, maxAge, Do(c, maxAge, s, steps[0]), steps[1..], ip)
  }

  ghost function Orphaned(c: Config, maxAge: real, s: State, steps: seq<Step>, ip: string): nat
    requires c.Valid() && Legal(c, maxAge, s, steps)
    decreases |steps|
  {
    if steps == [] then 0
    else OrphanedBy(s, steps[0], ip) + Orphaned(c, maxAge, Do(c, maxAge, s, steps[0]), steps[1..], ip)
  }

  /** What a charge does: on a live tracker it is a request to the table; on a deleted one the
      table does not notice, and one orphan fewer remains. */
  lemma ChargeEffect(c: Config, maxAge: real, s: State, r: nat, ip: string)
    requires c.Valid() && Inv(s) && Enabled(maxAge, s, Charge(r)) && Inv(Do(c, maxAge, s, Charge(r)))
    ensures var s' := Do(c, maxAge, s, Charge(r));
            var Holding(who, id) := s.requests[r];
            if IsLive(s, who, id)
            then (View(s'), VerdictOf(c, s, r)) == Allow(c, View(s), who, s.now) && Orphans(s', ip) == Orphans(s, ip)
            else View(s') == View(s) && Orphans(s', ip) == Orphans(s, ip) - {r} && (who == ip ==> r in Orphans(s, ip))
  {
    var s' := Do(c, maxAge, s, Charge(r));
    var Holding(who, id) := s.requests[r];
    assert forall k :: k in s'.clients && s'.clients[k] == id ==> k == who;
    if IsLive(s, who, id) {
      assert View(s') == View(s)[who := Consume(c, s.trackers[id].bucket, s.now).0];
    } else {
      assert View(s') == View(s);
    }
  }

  /** What a deletion does: the table loses a full bucket, and the holders become orphans. */
  lemma DropEffect(c: Config, maxAge: real, s: State, who: string, sweptAt: real, ip: string)
    requires c.Valid() && maxAge >= c.capacity / c.refillRate
    requires Inv(s) && Enabled(maxAge, s, DropIdle(who, sweptAt)) && Inv(Do(c, maxAge, s, DropIdle(who, sweptAt)))
    ensures var s' := Do(c, maxAge, s, DropIdle(who, sweptAt));
            && View(s') == View(s) - {who}
            && Level(c, View(s'), ip, s.now) == Level(c, View(s), ip, s.now)
  {
    var s' := Do(c, maxAge, s, DropIdle(who, sweptAt));
    assert View(s') == View(s) - {who};
    if who == ip { IdleBucketIsFull(c, View(s)[who], maxAge, s.now); }
  }

  /** What creation does: the table gains a full bucket, or nothing. */
  lemma CreateEffect(c: Config, maxAge: real, s: State, r: nat, ip: string)
    requires c.Valid() && Inv(s) && Enabled(maxAge, s, Create(r)) && Inv(Do(c, maxAge, s, Create(r)))
    ensures var s' := Do(c, maxAge, s, Create(r));
            && Level(c, View(s'), ip, s.now) == Level(c, View(s), ip, s.now)
            && Orphans(s', ip) == Orphans(s, ip)
  {
    RefillAtOnce(c, c.capacity, s.now);
    var s' := Do(c, maxAge, s, Create(r));
    assert Orphans(s', ip) == Orphans(s, ip);
    assert ip in s.clients ==> View(s')[ip] == View(s)[ip];
  }

  lemma OrphansAfter(c: Config, maxAge: real, s: State, step: Step, ip: string)
    requires c.Valid() && Inv(s) && Enabled(maxAge, s, step) && Inv(Do(c, maxAge, s, step))
    ensures |Orphans(Do(c, maxAge, s, step), ip)| <= |Orphans(s, ip)| + OrphanedBy(s, step, ip)
  {
    var s' := Do(c, maxAge, s, step);
    if step.DropIdle? && step.ip == ip {
      assert Orphans(s', ip) == Orphans(s, ip) + Holders(s, ip);
    } else if step.Charge? {
      ChargeEffect(c, maxAge, s, step.r, ip);
    } else {
      assert Orphans(s', ip) == Orphans(s, ip);
    }
  }

  /** What the client could still be granted now, discounted by what refilling has brought. */
  ghost function Credit(c: Config, s: State, ip: string): real
    requires Inv(s)
  {
    Level(c, View(s), ip, s.now) + |Orphans(s, ip)| as real - s.now * c.refillRate
  }

  lemma TickSpendsNothing(c: Config, maxAge: real, s: State, delta: real, ip: string)
    requires c.Valid() && Inv(s) && Enabled(maxAge, s, Tick(delta)) && Inv(Do(c, maxAge, s, Tick(delta)))
    ensures Credit(c, Do(c, maxAge, s, Tick(delta)), ip) <= Credit(c, s, ip)
  {
    var s' := Do(c, maxAge, s, Tick(delta));
    assert Orphans(s', ip) == Orphans(s, ip) && View(s') == View(s);
    LevelLater(c, View(s), ip, s.now, s'.now);
    var gain := (s'.now - s.now) * c.refillRate;
    assert s'.now * c.refillRate == s.now * c.refillRate + gain;
  }

  /** A charge admits at most what it takes from the level, or from the orphans. */
  lemma ChargeSpends(c: Config, maxAge: real, s: State, r: nat, ip: string)
    requires c.Valid() && Inv(s) && Enabled(maxAge, s, Charge(r)) && Inv(Do(c, maxAge, s, Charge(r)))
    ensures var s' := Do(c, maxAge, s, Charge(r));
            var admitted := AdmittedBy(c, s, Charge(r), ip);
            || (Level(c, View(s'), ip, s.now) == Level(c, View(s), ip, s.now) - admitted as real
                && Orphans(s', ip) == Orphans(s, ip))
            || (Level(c, View(s'), ip, s.now) == Level(c, View(s), ip, s.now)
                && |Orphans(s', ip)| + admitted <= |Orphans(s, ip)|)
  {
    ChargeEffect(c, maxAge, s, r, ip);
    var Holding(who, id) := s.requests[r];
    if IsLive(s, who, id) {
      AllowByLevel(c, View(s), who, s.now);
    } else if who == ip {
      assert r in Orphans(s, ip);
    } else {
      assert r !in Orphans(s, ip);
    }
  }

  /** At a fixed time, credit moves with the level and the orphans. */
  lemma CreditMoves(c: Config, s: State, s': State, ip: string, admitted: nat, orphaned: nat)
    requires Inv(s) && Inv(s') && s.now == s'.now
    requires admitted as real + Level(c, View(s'), ip, s'.now) + |Orphans(s', ip)| as real
          <= Level(c, View(s), ip, s.now) + |Orphans(s, ip)| as real + orphaned as real
    ensures admitted as real + Credit(c, s', ip) <= Credit(c, s, ip) + orphaned as real
  {
  }

  lemma ChargeSpendsCredit(c: Config, maxAge: real, s: State, r: nat, ip: string)
    requires c.Valid() && Inv(s) && Enabled(maxAge, s, Charge(r)) && Inv(Do(c, maxAge, s, Charge(r)))
    ensures AdmittedBy(c, s, Charge(r), ip) as real + Credit(c, Do(c, maxAge, s, Charge(r)), ip) <= Credit(c, s, ip)
  {
    ChargeSpends(c, maxAge, s, r, ip);
    CreditMoves(c, s, Do(c, maxAge, s, Charge(r)), ip, AdmittedBy(c, s, Charge(r), ip), 0);
  }

  lemma DropSpendsCredit(c: Config, maxAge: real, s: State, who: string, sweptAt: real, ip: string)
    requires c.Valid() && maxAge >= c.capacity / c.refillRate
    requires Inv(s) && Enabled(maxAge, s, DropIdle(who, sweptAt)) && Inv(Do(c, maxAge, s, DropIdle(who, sweptAt)))
    ensures Credit(c, Do(c, maxAge, s, DropIdle(who, sweptAt)), ip)
         <= Credit(c, s, ip) + OrphanedBy(s, DropIdle(who, sweptAt), ip) as real
  {
    DropEffect(c, maxAge, s, who, sweptAt, ip);
    OrphansAfter(c, maxAge, s, DropIdle(who, sweptAt), ip);
    CreditMoves(c, s, Do(c, maxAge, s, DropIdle(who, sweptAt)), ip, 0, OrphanedBy(s, DropIdle(who, sweptAt), ip));
  }

  lemma LookupOrCreateSpendsNothing(c: Config, maxAge: real, s: State, step: Step, ip: string)
    requires c.Valid() && Inv(s) && Enabled(maxAge, s, step) && Inv(Do(c, maxAge, s, step))
    requires step.Lookup? || step.Create?
    ensures Credit(c, Do(c, maxAge, s, step), ip) <= Credit(c, s, ip)
  {
    var s' := Do(c, maxAge, s, step);
    if step.Lookup? {
      assert Orphans(s', ip) == Orphans(s, ip) && View(s') == View(s);
    } else {
      CreateEffect(c, maxAge, s, step.r, ip);
    }
    CreditMoves(c, s, s', ip, 0, 0);
  }

  lemma StepSpendsCredit(c: Config, maxAge: real, s: State, step: Step, ip: string)
    requires c.Valid() && (step.DropIdle? ==> maxAge >= c.capacity / c.refillRate)
    requires Inv(s) && Enabled(maxAge, s, step) && Inv(Do(c, maxAge, s, step))
    ensures AdmittedBy(c, s, step, ip) as real + Credit(c, Do(c, maxAge, s, step), ip)
         <= Credit(c, s, ip) + OrphanedBy(s, step, ip) as real
  {
    match step
    case Tick(delta) => TickSpendsNothing(c, maxAge, s, delta, ip);
    case Lookup(_, _) => LookupOrCreateSpendsNothing(c, maxAge, s, step, ip);
    case Create(_) => LookupOrCreateSpendsNothing(c, maxAge, s, step, ip);
    case Charge(r) => ChargeSpendsCredit(c, maxAge, s, r, ip);
    case DropIdle(who, sweptAt) => DropSpendsCredit(c, maxAge, s, who, sweptAt, ip);
  }

  lemma {:induction false} RunSpendsCredit(c: Config, maxAge: real, s: State, steps: seq<Step>, ip: string)
    requires c.Valid() && (Sweeps(steps) ==> maxAge >= c.capacity / c.refillRate)
    requires Inv(s) && Legal(c, maxAge, s, steps)
    ensures Inv(Run(c, maxAge, s, steps))
    ensures Admissions(c, maxAge, s, steps, ip) as real + Credit(c, Run(c, maxAge, s, steps), ip)
         <= Credit(c, s, ip) + Orphaned(c, maxAge, s, steps, ip) as real
    decreases |steps|
  {
    if steps != [] {
      var next := Do(c, maxAge, s, steps[0]);
      StepKeepsInv(c, maxAge, s, steps[0]);
      StepSpendsCredit(c, maxAge, s, steps[0], ip);
      RunSpendsCredit(c, maxAge, next, steps[1..], ip);
    }
  }

  lemma {:induction false} OrphansComeFromSweeps(c: Config, maxAge: real, s: State, steps: seq<Step>, ip: string)
    requires c.Valid() && Inv(s) && Legal(c, maxAge, s, steps)
    ensures |Orphans(Run(c, maxAge, s, steps), ip)| <= |Orphans(s, ip)| + Orphaned(c, maxAge, s, steps, ip)
    decreases |steps|
  {
    if steps != [] {
      StepKeepsInv(c, maxAge, s, steps[0]);
      OrphansAfter(c, maxAge, s, steps[0], ip);
      OrphansComeFromSweeps(c, maxAge, Do(c, maxAge, s, steps[0]), steps[1..], ip);
    }
  }

  lemma CreditBounds(c: Config, s: State, ip: string)
    requires c.Valid() && Inv(s)
    ensures -(s.now * c.refillRate) <= Credit(c, s, ip) <= c.capacity + |Orphans(s, ip)| as real - s.now * c.refillRate
  {
    LevelIsNonNegative(c, View(s), ip, s.now);
    var level, orphans, brought := Level(c, View(s), ip, s.now), |Orphans(s, ip)| as real, s.now * c.refillRate;
    assert orphans >= 0.0;
    assert 0.0 <= level <= c.capacity;
    assert Credit(c, s, ip) == level + orphans - brought;
  }

  /** No more admissions in `elapsed` seconds than one bucket grants, and `excess` beyond. */
  ghost predicate WithinBucket(c: Config, admitted: nat, elapsed: real, excess: nat) {
    admitted as real <= c.capacity + elapsed * c.refillRate + excess as real
  }

  lemma AdmittedWithinCredit(c: Config, s: State, s': State, ip: string, admitted: nat, orphans: nat, orphaned: nat)
    requires c.Valid() && Inv(s) && Inv(s')
    requires admitted as real + Credit(c, s', ip) <= Credit(c, s, ip) + orphaned as real
    requires |Orphans(s, ip)| <= orphans
    ensures WithinBucket(c, admitted, s'.now - s.now, orphans + orphaned)
  {
    CreditBounds(c, s, ip);
    CreditBounds(c, s', ip);
    var brought, brought' := s.now * c.refillRate, s'.now * c.refillRate;
    assert (s'.now - s.now) * c.refillRate == brought' - brought;
  }

  /** The bound under concurrency, over any interval of any run: capacity plus refill, plus one for
      each request that holds a deleted tracker of the client when the interval begins, or holds one
      when a sweep deletes it during the interval. */
  lemma ConcurrentBurstBound(c: Config, maxAge: real, start: real, before: seq<Step>, during: seq<Step>, ip: string)
    requires c.Valid() && (Sweeps(during) ==> maxAge >= c.capacity / c.refillRate)
    requires Legal(c, maxAge, Init(start), before)
    requires Legal(c, maxAge, Run(c, maxAge, Init(start), before), during)
    ensures var s := Run(c, maxAge, Init(start), before);
            var s' := Run(c, maxAge, s, during);
            && Inv(s)
            && WithinBucket(c, Admissions(c, maxAge, s, during, ip), s'.now - s.now,
                            |Orphans(s, ip)| + Orphaned(c, maxAge, s, during, ip))
  {
    RunKeepsInv(c, maxAge, Init(start), before);
    var s := Run(c, maxAge, Init(start), before);
    RunSpendsCredit(c, maxAge, s, during, ip);
    AdmittedWithinCredit(c, s, Run(c, maxAge, s, during), ip, Admissions(c, maxAge, s, during, ip),
                         |Orphans(s, ip)|, Orphaned(c, maxAge, s, during, ip));
  }

  /** The requests that hold a deleted tracker are among those orphaned since the start. */
  lemma OrphansAreOrphaned(c: Config, maxAge: real, start: real, steps: seq<Step>, ip: string)
    requires c.Valid() && Legal(c, maxAge, Init(start), steps)
    ensures |Orphans(Run(c, maxAge, Init(start), steps), ip)| <= Orphaned(c, maxAge, Init(start), steps, ip)
  {
    assert Orphans(Init(start), ip) == {};
    OrphansComeFromSweeps(c, maxAge, Init(start), steps, ip);
  }

  lemma {:induction false} NoSweepNoOrphan(c: Config, maxAge: real, s: State, steps: seq<Step>, ip: string)
    requires c.Valid() && Legal(c, maxAge, s, steps) && !Sweeps(steps)
    ensures Orphaned(c, maxAge, s, steps, ip) == 0
    decreases |steps|
  {
    if steps != [] {
      NoSweepNoOrphan(c, maxAge, Do(c, maxAge, s, steps[0]), steps[1..], ip);
    }
  }

  /** Without sweeps concurrency costs nothing: the bound is that of a single bucket. */
  lemma ConcurrentBurstBoundWithoutSweeps(c: Config, maxAge: real, start: real, before: seq<Step>, during: seq<Step>,
                                          ip: string)
    requires c.Valid()
    requires Legal(c, maxAge, Init(start), before) && !Sweeps(before)
    requires Legal(c, maxAge, Run(c, maxAge, Init(start), before), during) && !Sweeps(during)
    ensures var s := Run(c, maxAge, Init(start), before);
            && Inv(s)
            && WithinBucket(c, Admissions(c, maxAge, s, during, ip), Run(c, maxAge, s, during).now - s.now, 0)
  {
    NoSweepNoOrphan(c, maxAge, Init(start), before, ip);
    OrphansAreOrphaned(c, maxAge, start, before, ip);
    NoSweepNoOrphan(c, maxAge, Run(c, maxAge, Init(start), before), during, ip);
    ConcurrentBurstBound(c, maxAge, start, before, during, ip);
  }

  // ----- Equivalence with the limiter whose calls run alone -----

  /** The verdicts of a run, in the order in which the charges happen. */
  function Verdicts(c: Config, maxAge: real, s: State, steps: seq<Step>): seq<Verdict>
    requires c.Valid() && Legal(c, maxAge, s, steps)
    decreases |steps|
  {
    if steps == [] then []
    else
      (if steps[0].Charge? then [VerdictOf(c, s, steps[0].r)] else [])
      + Verdicts(c, maxAge, Do(c, maxAge, s, steps[0]), steps[1..])
  }

  /** The same charges as requests to the sequential limiter. */
  function Charges(c: Config, maxAge: real, s: State, steps: seq<Step>): seq<Event>
    requires c.Valid() && Legal(c, maxAge, s, steps)
    decreases |steps|
  {
    if steps == [] then []
    else
      (if steps[0].Charge? then [Request(s.requests[steps[0].r].ip, s.now)] else [])
      + Charges(c, maxAge, Do(c, maxAge, s, steps[0]), steps[1..])
  }

  /** No sweep deletes a tracker that some request holds. */
  ghost predicate OrphanFree(c: Config, maxAge: real, s: State, steps: seq<Step>)
    requires c.Valid() && Legal(c, maxAge, s, steps)
    decreases |steps|
  {
    steps == [] ||
    ((steps[0].DropIdle? ==> Holders(s, steps[0].ip) == {})
     && OrphanFree(c, maxAge, Do(c, maxAge, s, steps[0]), steps[1..]))
  }

  ghost predicate AllHoldLive(s: State) {
    forall r :: r in s.requests && s.requests[r].Holding? ==> IsLive(s, s.requests[r].ip, s.requests[r].id)
  }

  lemma ChargeRefines(c: Config, maxAge: real, s: State, r: nat, m: Table)
    requires c.Valid() && Inv(s) && Enabled(maxAge, s, Charge(r)) && Inv(Do(c, maxAge, s, Charge(r)))
    requires AllHoldLive(s) && WellFormed(m, s.now) && SameLevels(c, View(s), m, s.now)
    ensures var s' := Do(c, maxAge, s, Charge(r));
            var (m', v) := Allow(c, m, s.requests[r].ip, s.now);
            v == VerdictOf(c, s, r) && WellFormed(m', s.now) && SameLevels(c, View(s'), m', s.now)
  {
    var ip := s.requests[r].ip;
    ChargeEffect(c, maxAge, s, r, ip);
    AllowByLevel(c, View(s), ip, s.now);
    AllowByLevel(c, m, ip, s.now);
    assert Level(c, View(s), ip, s.now) == Level(c, m, ip, s.now);
  }

  lemma StepRefines(c: Config, maxAge: real, s: State, step: Step, m: Table)
    requires c.Valid() && maxAge >= c.capacity / c.refillRate
    requires Inv(s) && Enabled(maxAge, s, step) && Inv(Do(c, maxAge, s, step))
    requires AllHoldLive(s) && (step.DropIdle? ==> Holders(s, step.ip) == {})
    requires WellFormed(m, s.now) && SameLevels(c, View(s), m, s.now)
    ensures var s' := Do(c, maxAge, s, step);
            && AllHoldLive(s')
            && (if step.Charge?
                then var (m', v) := Allow(c, m, s.requests[step.r].ip, s.now);
                     v == VerdictOf(c, s, step.r) && WellFormed(m', s'.now) && SameLevels(c, View(s'), m', s'.now)
                else WellFormed(m, s'.now) && SameLevels(c, View(s'), m, s'.now))
  {
    var s' := Do(c, maxAge, s, step);
    match step
    case Tick(_) =>
      assert View(s') == View(s);
      SameLevelsLater(c, View(s), m, s.now, s'.now);
    case Lookup(_, _) =>
      assert View(s') == View(s);
    case Create(r) =>
      forall ip ensures Level(c, View(s'), ip, s.now) == Level(c, View(s), ip, s.now) {
        CreateEffect(c, maxAge, s, r, ip);
      }
    case Charge(r) =>
      ChargeRefines(c, maxAge, s, r, m);
    case DropIdle(who, sweptAt) =>
      forall ip ensures Level(c, View(s'), ip, s.now) == Level(c, View(s), ip, s.now) {
        DropEffect(c, maxAge, s, who, sweptAt, ip);
      }
      assert forall r :: r in s'.requests && s'.requests[r].Holding? ==> r !in Holders(s, who);
  }

  lemma {:induction false} RunRefines(c: Config, maxAge: real, s: State, steps: seq<Step>, m: Table)
    requires c.Valid() && maxAge >= c.capacity / c.refillRate
    requires Inv(s) && Legal(c, maxAge, s, steps) && OrphanFree(c, maxAge, s, steps) && AllHoldLive(s)
    requires WellFormed(m, s.now) && SameLevels(c, View(s), m, s.now)
    ensures Verdicts(c, maxAge, s, steps) == Play(c, maxAge, m, Charges(c, maxAge, s, steps)).1
    decreases |steps|
  {
    if steps != [] {
      var step, next := steps[0], Do(c, maxAge, s, steps[0]);
      StepKeepsInv(c, maxAge, s, step);
      StepRefines(c, maxAge, s, step, m);
      var m' := if step.Charge? then Allow(c, m, s.requests[step.r].ip, s.now).0 else m;
      RunRefines(c, maxAge, next, steps[1..], m');
      var later := Charges(c, maxAge, next, steps[1..]);
      if step.Charge? {
        assert Charges(c, maxAge, s, steps) == [Request(s.requests[step.r].ip, s.now)] + later;
      } else {
        assert Charges(c, maxAge, s, steps) == later;
      }
    }
  }

  /** Every interleaving in which no held tracker is deleted gives each request the verdict and
      the wait it would get if calls ran one at a time, in the order of their charges. */
  lemma ConcurrentRunsAreSequential(c: Config, maxAge: real, start: real, steps: seq<Step>)
    requires c.Valid() && maxAge >= c.capacity / c.refillRate
    requires Legal(c, maxAge, Init(start), steps) && OrphanFree(c, maxAge, Init(start), steps)
    ensures Verdicts(c, maxAge, Init(start), steps)
         == Play(c, maxAge, map[], Charges(c, maxAge, Init(start), steps)).1
  {
    RunRefines(c, maxAge, Init(start), steps, map[]);
  }
}
