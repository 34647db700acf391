/** The token bucket kept for one client: its refill, its verdict, and its wait estimate.
    Times are seconds and tokens are fractional, both exact reals. */
module TokenBucket {

  datatype Config = Config(capacity: real, refillRate: real) {
    predicate Valid() { capacity > 0.0 && refillRate > 0.0 }
  }

  datatype Bucket = Bucket(tokens: real, lastRefill: real)

  /** `retryAfter` is a whole number of seconds, 0 when the request is allowed. */
  datatype Verdict = Verdict(allowed: bool, retryAfter: int)

  function Min(x: real, y: real): real { if x <= y then x else y }

  function Max(x: real, y: real): real { if x <= y then y else x }

  /** The tokens a bucket holds at `now`, after refilling and capping. */
  function Refill(c: Config, b: Bucket, now: real): real {
    Min(c.capacity, b.tokens + (now - b.lastRefill) * c.refillRate)
  }

  /** The exact wait, in seconds, until a bucket holding `tokens` reaches one token. */
  function ExactWait(c: Config, tokens: real): real
    requires c.Valid()
  {
    (1.0 - tokens) / c.refillRate
  }

  /** The wait announced to the client: truncated to whole seconds, and at least one second. */
  function RetryAfter(c: Config, tokens: real): int
    requires c.Valid()
  {
    var whole := ExactWait(c, tokens).Floor;
    if whole < 1 then 1 else whole
  }

  /** What one request does to the bucket it is charged to. */
  function Consume(c: Config, b: Bucket, now: real): (r: (Bucket, Verdict))
    requires c.Valid()
  {
    var tokens := Refill(c, b, now);
    if tokens >= 1.0
    then (Bucket(tokens - 1.0, now), Verdict(true, 0))
    else (Bucket(tokens, now), Verdict(false, RetryAfter(c, tokens)))
  }

  // ----- Refilling -----

  lemma RateTimes(rate: real, x: real, y: real)
    requires rate >= 0.0 && x <= y
    ensures x * rate <= y * rate
  {
  }

  lemma Gain(rate: real, from: real, to: real)
    requires rate >= 0.0 && from <= to
    ensures (to - from) * rate >= 0.0
  {
    RateTimes(rate, 0.0, to - from);
  }

  lemma RateStrict(rate: real, x: real, y: real)
    requires rate > 0.0 && x < y
    ensures x * rate < y * rate
  {
  }

  lemma RefillIsNonNegative(c: Config, b: Bucket, now: real)
    requires c.Valid() && b.tokens >= 0.0 && b.lastRefill <= now
    ensures 0.0 <= Refill(c, b, now) <= c.capacity
  {
    var gain := (now - b.lastRefill) * c.refillRate;
    Gain(c.refillRate, b.lastRefill, now);
    assert Refill(c, b, now) == Min(c.capacity, b.tokens + gain);
  }

  lemma RefillAtOnce(c: Config, tokens: real, now: real)
    ensures Refill(c, Bucket(tokens, now), now) == Min(c.capacity, tokens)
  {
    assert (now - now) * c.refillRate == 0.0;
  }

  /** Refilling in two stages is refilling once: nothing is gained or lost by looking. */
  lemma RefillTwice(c: Config, b: Bucket, mid: real, now: real)
    requires c.Valid() && mid <= now
    ensures Refill(c, Bucket(Refill(c, b, mid), mid), now) == Refill(c, b, now)
  {
    var before, after := (mid - b.lastRefill) * c.refillRate, (now - mid) * c.refillRate;
    Gain(c.refillRate, mid, now);
    assert Refill(c, b, now) == Min(c.capacity, b.tokens + before + after) by {
      assert (now - b.lastRefill) * c.refillRate == before + after;
    }
    var once := Refill(c, b, mid);
    var settled := Bucket(once, mid);
    assert (now - settled.lastRefill) * c.refillRate == after;
    assert Refill(c, settled, now) == Min(c.capacity, once + after);
  }

  /** A bucket left alone for capacity/refillRate seconds is full. */
  lemma IdleBucketIsFull(c: Config, b: Bucket, idle: real, now: real)
    requires c.Valid() && b.tokens >= 0.0
    requires idle >= c.capacity / c.refillRate
    requires now - b.lastRefill >= idle
    ensures Refill(c, b, now) == c.capacity
  {
    RateTimes(c.refillRate, c.capacity / c.refillRate, now - b.lastRefill);
    assert c.capacity / c.refillRate * c.refillRate == c.capacity;
  }

  // ----- Polling -----

  /** The bucket after a series of requests, charged one after another. */
  function Poll(c: Config, b: Bucket, times: seq<real>): Bucket
    requires c.Valid()
    decreases |times|
  {
    if times == [] then b else Poll(c, Consume(c, b, times[0]).0, times[1..])
  }

  predicate AllDenied(c: Config, b: Bucket, times: seq<real>)
    requires c.Valid()
    decreases |times|
  {
    times == [] ||
    (!Consume(c, b, times[0]).1.allowed && AllDenied(c, Consume(c, b, times[0]).0, times[1..]))
  }

  predicate NonDecreasing(times: seq<real>, from: real, to: real) {
    if times == [] then from <= to else from <= times[0] && NonDecreasing(times[1..], times[0], to)
  }

  /** Denied polling is free: after any number of denied requests, the next request gets the
      verdict, and leaves the bucket, it would have had if the client had kept silent. */
  lemma {:induction false} DeniedPollingIsFree(c: Config, b: Bucket, polls: seq<real>, now: real)
    requires c.Valid()
    requires NonDecreasing(polls, b.lastRefill, now)
    requires AllDenied(c, b, polls)
    ensures Consume(c, Poll(c, b, polls), now) == Consume(c, b, now)
    decreases |polls|
  {
    if polls == [] {
    } else {
      var polled := Consume(c, b, polls[0]).0;
      DeniedPollingIsFree(c, polled, polls[1..], now);
      EndsAfter(polls[1..], polls[0], now);
      RefillTwice(c, b, polls[0], now);
    }
  }

  lemma {:induction false} EndsAfter(times: seq<real>, from: real, to: real)
    requires NonDecreasing(times, from, to)
    ensures from <= to
    decreases |times|
  {
    if times != [] { EndsAfter(times[1..], times[0], to); }
  }

  /** A polling client is admitted no later than a silent one: if a request at `now` would be
      admitted after silence, then some poll or the request itself is admitted. */
  lemma PollingNeverDelays(c: Config, b: Bucket, polls: seq<real>, now: real)
    requires c.Valid()
    requires NonDecreasing(polls, b.lastRefill, now)
    requires Consume(c, b, now).1.allowed
    ensures !AllDenied(c, b, polls) || Consume(c, Poll(c, b, polls), now).1.allowed
  {
    if AllDenied(c, b, polls) { DeniedPollingIsFree(c, b, polls, now); }
  }

  // ----- The announced wait -----

  /** After a denial, and with no other consumer, a request is admitted exactly when the exact
      wait has passed (and never, if the bucket cannot hold a whole token). */
  lemma AdmittedExactlyAfterWait(c: Config, b: Bucket, now: real, delay: real)
    requires c.Valid() && delay >= 0.0
    requires !Consume(c, b, now).1.allowed
    ensures var denied := Consume(c, b, now).0;
            Consume(c, denied, now + delay).1.allowed
            <==> c.capacity >= 1.0 && delay >= ExactWait(c, denied.tokens)
  {
    var denied := Consume(c, b, now).0;
    var wait := ExactWait(c, denied.tokens);
    assert wait * c.refillRate == 1.0 - denied.tokens;
    assert (now + delay) - denied.lastRefill == delay;
    if delay >= wait { RateTimes(c.refillRate, wait, delay); } else { RateStrict(c.refillRate, delay, wait); }
  }

  /** How far the announced wait is from the exact one. */
  lemma AnnouncedWaitIsWithinOneSecond(c: Config, tokens: real)
    requires c.Valid() && tokens < 1.0
    ensures ExactWait(c, tokens) - 1.0 < RetryAfter(c, tokens) as real <= Max(1.0, ExactWait(c, tokens))
    ensures RetryAfter(c, tokens) >= 1
  {
  }

  /** Waiting one second more than announced always suffices. Waiting exactly as announced
      suffices if and only if the exact wait is at most one second or a whole number of seconds. */
  lemma WhenAnnouncedWaitSuffices(c: Config, b: Bucket, now: real)
    requires c.Valid() && c.capacity >= 1.0
    requires !Consume(c, b, now).1.allowed
    ensures var (denied, verdict) := Consume(c, b, now);
            && Consume(c, denied, now + verdict.retryAfter as real + 1.0).1.allowed
            && (Consume(c, denied, now + verdict.retryAfter as real).1.allowed
                <==> (ExactWait(c, denied.tokens) <= 1.0
                      || ExactWait(c, denied.tokens) == ExactWait(c, denied.tokens).Floor as real))
  {
    var (denied, verdict) := Consume(c, b, now);
    AnnouncedWaitIsWithinOneSecond(c, denied.tokens);
    AdmittedExactlyAfterWait(c, b, now, verdict.retryAfter as real);
    AdmittedExactlyAfterWait(c, b, now, verdict.retryAfter as real + 1.0);
    assert now + (verdict.retryAfter as real + 1.0) == now + verdict.retryAfter as real + 1.0;
  }

  /** A client of the login limiter (5 requests a minute) that waits exactly as told and is
      denied again: 5.4 s are missing, 5 s are announced. */
  lemma AnnouncedWaitCanBeTooShort()
    ensures var c := Config(5.0, 5.0 / 60.0);
            var (denied, verdict) := Consume(c, Bucket(0.0, 0.0), 6.6);
            && !verdict.allowed && verdict.retryAfter == 5
            && !Consume(c, denied, 6.6 + 5.0).1.allowed
  {
    var c := Config(5.0, 5.0 / 60.0);
    assert 6.6 * c.refillRate == 0.55;
    assert ExactWait(c, 0.55) == 5.4;
    assert 5.4.Floor == 5;
    assert Refill(c, Bucket(0.0, 0.0), 6.6) == 0.55;
    assert (6.6 + 5.0 - 6.6) * c.refillRate < 0.45;
  }
}
