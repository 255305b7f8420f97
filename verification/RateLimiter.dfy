/** The per-key token bucket limiter with its periodic eviction of idle buckets.
    Times are integer nanoseconds. */
module RateLimiter {
  import opened Integers
  import opened Options

  const TEN_MINUTES := 600_000_000_000

  /** `rate` tokens per `interval`, at most `burst` of them. */
  datatype Limits = Limits(rate: int, interval: int, burst: int)

  datatype BucketState = BucketState(tokens: int, lastRefill: int)

  function Refills(limits: Limits, b: BucketState, now: int): int
    requires limits.interval > 0
  {
    (now - b.lastRefill) / limits.interval
  }

  function Refilled(limits: Limits, b: BucketState, now: int): BucketState
    requires limits.interval > 0
  {
    var refills := Refills(limits, b, now);
    if refills > 0 then
      var tokens := b.tokens + refills * limits.rate;
      BucketState(if tokens > limits.burst then limits.burst else tokens, now)
    else b
  }

  datatype Outcome = Outcome(bucket: BucketState, admitted: bool)

  /** One request on a key whose bucket is `b`, or which has none. */
  function Serve(limits: Limits, b: Option<BucketState>, now: int): Outcome
    requires limits.interval > 0
  {
    match b
    case None => Outcome(BucketState(limits.burst - 1, now), true)
    case Some(bucket) =>
      var filled := Refilled(limits, bucket, now);
      if filled.tokens <= 0 then Outcome(filled, false)
      else Outcome(filled.(tokens := filled.tokens - 1), true)
  }

  /** The buckets not refilled since ten minutes before `now`. */
  function Stale(contents: map<string, BucketState>, now: int): set<string> {
    set k | k in contents && contents[k].lastRefill < now - TEN_MINUTES
  }

  lemma SweepStep(start: map<string, BucketState>, stale: set<string>, keys: set<string>, key: string)
    requires key !in keys
    ensures start - (stale - keys)
      == if key in stale then (start - (stale - (keys + {key}))) - {key} else start - (stale - (keys + {key}))
  {
  }

  class Bucket {
    var tokens: int
    var lastRefill: int

    constructor (tokens: int, lastRefill: int)
      ensures this.tokens == tokens && this.lastRefill == lastRefill
    {
      this.tokens, this.lastRefill := tokens, lastRefill;
    }

    /** The refill block of a request: whole intervals elapsed bring `rate` tokens each,
        capped at the burst, and the remainder of the time is dropped. */
    method Refill(limits: Limits, now: int)
      requires limits.interval > 0
      modifies this
      ensures var refills := (now - old(lastRefill)) / limits.interval;
        && lastRefill == (if refills > 0 then now else old(lastRefill))
        && tokens == (if refills > 0 then Min(limits.burst, old(tokens) + limits.rate * refills) else old(tokens))
      ensures BucketState(tokens, lastRefill) == Refilled(limits, old(BucketState(tokens, lastRefill)), now)
    {
      var elapsed := now - lastRefill;
      var refills := elapsed / limits.interval;
      if refills > 0 {
        tokens := tokens + refills * limits.rate;
        if tokens > limits.burst {
          tokens := limits.burst;
        }
        lastRefill := now;
      }
    }
  }

  class Limiter {
    const limits: Limits
    var visitors: map<string, Bucket>
    ghost var contents: map<string, BucketState>  // the buckets' values

    ghost predicate Valid()
      reads this, visitors.Values
    {
      && limits.interval > 0
      && contents.Keys == visitors.Keys
      && (forall k | k in visitors :: contents[k] == BucketState(visitors[k].tokens, visitors[k].lastRefill))
      && (forall j, k | j in visitors && k in visitors && j != k :: visitors[j] != visitors[k])
    }

    constructor (limits: Limits)
      requires limits.interval > 0
      ensures Valid() && contents == map[] && this.limits == limits && visitors == map[]
    {
      this.limits := limits;
      visitors, contents := map[], map[];
    }

    method Allow(key: string, now: int) returns (admitted: bool)
      requires Valid()
      modifies this, visitors.Values
      ensures Valid() && fresh(visitors.Values - old(visitors.Values))
      ensures var o := Serve(limits, Lookup(old(contents), key), now);
        admitted == o.admitted && contents == old(contents)[key := o.bucket]
    {
      if key !in visitors {
        var b := new Bucket(limits.burst - 1, now);
        visitors := visitors[key := b];
        contents := contents[key := BucketState(limits.burst - 1, now)];
        return true;
      }
      var b := visitors[key];
      b.Refill(limits, now);
      if b.tokens <= 0 {
        admitted := false;
      } else {
        b.tokens := b.tokens - 1;
        admitted := true;
      }
      contents := contents[key := BucketState(b.tokens, b.lastRefill)];
    }

    /** One pass of the background cleanup. */
    method CleanupPass(now: int)
      requires Valid()
      modifies this
      ensures Valid() && visitors.Values <= old(visitors.Values)
      ensures forall k :: k in contents <==> k in old(contents) && old(contents)[k].lastRefill >= now - 600_000_000_000
      ensures forall k | k in contents :: contents[k] == old(contents)[k]
      ensures contents == old(contents) - Stale(old(contents), now)
    {
      var cutoff := now - TEN_MINUTES;
      var keys := visitors.Keys;
      ghost var start, all := contents, visitors;
      while keys != {}
        invariant keys <= visitors.Keys <= all.Keys
        invariant forall k | k in visitors :: visitors[k] == all[k]
        invariant Valid()
        invariant contents == start - (Stale(start, now) - keys)
        decreases keys
      {
        var key :| key in keys;
        assert keys - {key} + {key} == keys;
        keys := keys - {key};
        SweepStep(start, Stale(start, now), keys, key);
        if visitors[key].lastRefill < cutoff {
          visitors := visitors - {key};
          contents := contents - {key};
        }
      }
      assert Stale(start, now) - keys == Stale(start, now);
    }
  }

  // ---------- Runs of one key ----------

  ghost predicate Sorted(times: seq<int>) {
    forall i, j | 0 <= i < j < |times| :: times[i] <= times[j]
  }

  /** The bucket of a key after requests at the given times. */
  function BucketAfter(limits: Limits, b: Option<BucketState>, times: seq<int>): Option<BucketState>
    requires limits.interval > 0
  {
    if times == [] then b
    else Some(Serve(limits, BucketAfter(limits, b, times[..|times| - 1]), times[|times| - 1]).bucket)
  }

  /** How many of the requests are admitted. */
  function Admissions(limits: Limits, b: Option<BucketState>, times: seq<int>): nat
    requires limits.interval > 0
  {
    if times == [] then 0
    else
      var front := times[..|times| - 1];
      Admissions(limits, b, front)
      + if Serve(limits, BucketAfter(limits, b, front), times[|times| - 1]).admitted then 1 else 0
  }

  lemma {:induction false} RunsCompose(limits: Limits, b: Option<BucketState>, first: seq<int>, second: seq<int>)
    requires limits.interval > 0
    ensures var mid := BucketAfter(limits, b, first);
      && BucketAfter(limits, b, first + second) == BucketAfter(limits, mid, second)
      && Admissions(limits, b, first + second) == Admissions(limits, b, first) + Admissions(limits, mid, second)
  {
    if second == [] {
      assert first + second == first;
    } else {
      var front := second[..|second| - 1];
      assert (first + second)[..|first + second| - 1] == first + front;
      RunsCompose(limits, b, first, front);
    }
  }

  lemma OneThenRest(limits: Limits, b: Option<BucketState>, times: seq<int>)
    requires limits.interval > 0 && times != []
    ensures var o := Serve(limits, b, times[0]);
      && BucketAfter(limits, b, times) == BucketAfter(limits, Some(o.bucket), times[1..])
      && Admissions(limits, b, times)
         == (if o.admitted then 1 else 0) + Admissions(limits, Some(o.bucket), times[1..])
  {
    assert times == times[..1] + times[1..] && times[..1][..0] == [];
    RunsCompose(limits, b, times[..1], times[1..]);
    assert Admissions(limits, b, []) == 0;
  }

  /** What a bucket is at any time: not above the burst; with a burst, not negative;
      without one, never positive. */
  ghost predicate Sound(limits: Limits, b: BucketState) {
    && b.tokens <= limits.burst
    && (limits.burst >= 1 ==> b.tokens >= 0)
  }

  lemma ServeKeepsSound(limits: Limits, b: Option<BucketState>, now: int)
    requires limits.interval > 0 && limits.rate >= 0
    requires b.Some? ==> Sound(limits, b.value)
    ensures Sound(limits, Serve(limits, b, now).bucket)
  {
    if b.Some? && Refills(limits, b.value, now) > 0 {
      MulOrder(limits.rate, 0, Refills(limits, b.value, now));
    }
  }

  lemma {:induction false} RunKeepsSound(limits: Limits, b: Option<BucketState>, times: seq<int>)
    requires limits.interval > 0 && limits.rate >= 0
    requires b.Some? ==> Sound(limits, b.value)
    ensures var c := BucketAfter(limits, b, times); c.Some? ==> Sound(limits, c.value)
  {
    if times != [] {
      RunKeepsSound(limits, b, times[..|times| - 1]);
      ServeKeepsSound(limits, BucketAfter(limits, b, times[..|times| - 1]), times[|times| - 1]);
    }
  }

  /** Tokens held plus requests admitted never exceed the tokens at the start plus one
      rate for each of the `k` whole intervals that refills have used up. Each refill
      drops a remainder, so `k` may be less than the intervals elapsed. */
  ghost predicate Accounted(limits: Limits, start: BucketState, admitted: int, b: BucketState, k: int) {
    && limits.interval * k <= b.lastRefill - start.lastRefill
    && b.tokens + admitted <= start.tokens + limits.rate * k
  }

  lemma ServeKeepsAccount(limits: Limits, start: BucketState, admitted: int, b: BucketState, now: int, k: nat)
    returns (next: nat)
    requires limits.interval > 0 && limits.rate >= 0
    requires Accounted(limits, start, admitted, b, k)
    ensures var o := Serve(limits, Some(b), now);
      Accounted(limits, start, admitted + if o.admitted then 1 else 0, o.bucket, next)
  {
    var r := Refills(limits, b, now);
    next := k;
    if r > 0 {
      next := k + r;
      QuotientAtLeast(now - b.lastRefill, limits.interval, r);
      Distribute(limits.interval, k, r);
      Distribute(limits.rate, k, r);
      assert r * limits.rate == limits.rate * r;
    }
  }

  lemma {:induction false} RunKeepsAccount(limits: Limits, start: BucketState, times: seq<int>) returns (k: nat)
    requires limits.interval > 0 && limits.rate >= 0
    ensures var b := BucketAfter(limits, Some(start), times);
      b.Some? && Accounted(limits, start, Admissions(limits, Some(start), times), b.value, k)
  {
    if times == [] {
      k := 0;
    } else {
      var front := times[..|times| - 1];
      var j := RunKeepsAccount(limits, start, front);
      k := ServeKeepsAccount(limits, start, Admissions(limits, Some(start), front),
                             BucketAfter(limits, Some(start), front).value, times[|times| - 1], j);
    }
  }

  lemma {:induction false} RefillNotAfterNow(limits: Limits, b: Option<BucketState>, times: seq<int>, latest: int)
    requires limits.interval > 0
    requires (b.Some? ==> b.value.lastRefill <= latest) && forall i | 0 <= i < |times| :: times[i] <= latest
    ensures var c := BucketAfter(limits, b, times); c.Some? ==> c.value.lastRefill <= latest
  {
    if times != [] {
      RefillNotAfterNow(limits, b, times[..|times| - 1], latest);
    }
  }

  lemma {:induction false} NoBurstNoAdmission(limits: Limits, b: BucketState, times: seq<int>)
    requires limits.interval > 0 && limits.rate >= 0 && limits.burst <= 0 && Sound(limits, b)
    ensures Admissions(limits, Some(b), times) == 0
  {
    if times != [] {
      var front := times[..|times| - 1];
      NoBurstNoAdmission(limits, b, front);
      RunKeepsSound(limits, Some(b), front);
    }
  }

  function Max(a: int, b: int): int {
    if a > b then a else b
  }

  function Min(a: int, b: int): int {
    if a < b then a else b
  }

  /** Admissions are covered by the tokens at the start and `k` whole intervals. */
  lemma AdmissionsFrom(limits: Limits, start: BucketState, times: seq<int>, end: int) returns (k: nat)
    requires limits.interval > 0 && limits.rate >= 0 && Sound(limits, start)
    requires start.lastRefill <= end && forall i | 0 <= i < |times| :: times[i] <= end
    ensures limits.interval * k <= end - start.lastRefill
    ensures Admissions(limits, Some(start), times) <= Max(start.tokens, 0) + limits.rate * k
  {
    if limits.burst <= 0 {
      k := 0;
      NoBurstNoAdmission(limits, start, times);
    } else {
      k := RunKeepsAccount(limits, start, times);
      RunKeepsSound(limits, Some(start), times);
      RefillNotAfterNow(limits, Some(start), times, end);
    }
  }

  /** Admissions of a key since its bucket was created. The first request is admitted
      even with a burst of zero. */
  lemma {:induction false} AdmissionBound(limits: Limits, times: seq<int>)
    requires limits.interval > 0 && limits.rate >= 0 && times != [] && Sorted(times)
    ensures Admissions(limits, None, times)
      <= Max(limits.burst, 1) + limits.rate * ((times[|times| - 1] - times[0]) / limits.interval)
  {
    var span := times[|times| - 1] - times[0];
    OneThenRest(limits, None, times);
    var k := AdmissionsFrom(limits, BucketState(limits.burst - 1, times[0]), times[1..], times[|times| - 1]);
    QuotientAtLeast(span, limits.interval, k);
    MulOrder(limits.rate, k, span / limits.interval);
  }

  lemma WindowIntervals(refill: int, from: int, to: int, d: int, k: nat)
    requires d > 0 && refill > from - d && from <= to && d * k <= to - refill
    ensures k <= (to - from) / d + 1
  {
    Distribute(d, k, -1);
    QuotientAtLeast(to - from, d, k - 1);
  }

  /** Admissions within any window of a run: the requests `times[i..]` fall between
      `from` and `to`, whatever came before them. */
  lemma {:induction false} WindowBound(limits: Limits, times: seq<int>, i: nat, from: int, to: int)
    requires limits.interval > 0 && limits.rate >= 0 && Sorted(times) && i <= |times|
    requires from <= to && forall k | i <= k < |times| :: from <= times[k] <= to
    ensures Admissions(limits, BucketAfter(limits, None, times[..i]), times[i..])
      <= Max(limits.burst, 1) + limits.rate * ((to - from) / limits.interval + 1)
  {
    RunKeepsSound(limits, None, times[..i]);
    if i < |times| {
      RefillNotAfterNow(limits, None, times[..i], times[i]);
    }
    WindowFrom(limits, BucketAfter(limits, None, times[..i]), times[i..], from, to);
  }

  lemma WindowFrom(limits: Limits, b: Option<BucketState>, window: seq<int>, from: int, to: int)
    requires limits.interval > 0 && limits.rate >= 0 && (b.Some? ==> Sound(limits, b.value))
    requires from <= to && forall k | 0 <= k < |window| :: from <= window[k] <= to
    requires Sorted(window)
    requires b.Some? && window != [] ==> b.value.lastRefill <= window[0]
    ensures Admissions(limits, b, window) <= Max(limits.burst, 1) + limits.rate * ((to - from) / limits.interval + 1)
  {
    var k: nat;
    if window == [] {
      k := 0;
      QuotientAtLeast(to - from, limits.interval, 0);
    } else {
      k := WindowAdmissions(limits, b, window, to);
      FirstRefill(limits, b, window[0]);
      WindowIntervals(Serve(limits, b, window[0]).bucket.lastRefill, from, to, limits.interval, k);
    }
    MulOrder(limits.rate, k, (to - from) / limits.interval + 1);
  }

  lemma WindowAdmissions(limits: Limits, b: Option<BucketState>, window: seq<int>, to: int) returns (k: nat)
    requires limits.interval > 0 && limits.rate >= 0 && (b.Some? ==> Sound(limits, b.value))
    requires window != [] && (b.Some? ==> b.value.lastRefill <= to) && forall i | 0 <= i < |window| :: window[i] <= to
    ensures limits.interval * k <= to - Serve(limits, b, window[0]).bucket.lastRefill
    ensures Admissions(limits, b, window) <= Max(limits.burst, 1) + limits.rate * k
  {
    OneThenRest(limits, b, window);
    ServeKeepsSound(limits, b, window[0]);
    FirstRefill(limits, b, window[0]);
    k := AdmissionsFrom(limits, Serve(limits, b, window[0]).bucket, window[1..], to);
  }

  /** After any request the last refill is less than one interval old, and the request
      itself is covered by the burst. */
  lemma FirstRefill(limits: Limits, b: Option<BucketState>, now: int)
    requires limits.interval > 0 && limits.rate >= 0 && (b.Some? ==> Sound(limits, b.value))
    ensures var o := Serve(limits, b, now);
      && now - o.bucket.lastRefill < limits.interval
      && Max(o.bucket.tokens, 0) + (if o.admitted then 1 else 0) <= Max(limits.burst, 1)
  {
    if b.Some? {
      QuotientAtLeast(now - b.value.lastRefill, limits.interval, 1);
    }
  }

  // ---------- No starvation ----------

  /** Request `j` of the run creates or refills the bucket. */
  ghost predicate RefillAt(limits: Limits, times: seq<int>, j: nat)
    requires limits.interval > 0 && j < |times|
  {
    var b := BucketAfter(limits, None, times[..j]);
    b.None? || Refills(limits, b.value, times[j]) > 0
  }

  /** Request `j` refilled the bucket, and the tokens it brought are either still there
      or were spent on requests admitted from it on. */
  ghost predicate SpentSince(limits: Limits, times: seq<int>, j: nat)
    requires limits.interval > 0
  {
    && j < |times|
    && RefillAt(limits, times, j)
    && var b := BucketAfter(limits, None, times);
       && b.Some? && b.value.lastRefill == times[j]
       && Admissions(limits, BucketAfter(limits, None, times[..j]), times[j..]) + b.value.tokens
          >= Min(limits.rate, limits.burst)
  }

  lemma RefillNow(limits: Limits, front: seq<int>, now: int)
    requires limits.interval > 0 && limits.rate >= 1 && limits.burst >= 1
    requires var b := BucketAfter(limits, None, front); b.None? || Refills(limits, b.value, now) > 0
    ensures SpentSince(limits, front + [now], |front|)
  {
    var times := front + [now];
    assert times[..|front|] == front && times[|front|..] == [now];
    var b := BucketAfter(limits, None, front);
    RunKeepsSound(limits, None, front);
    OneThenRest(limits, b, [now]);
    if b.Some? {
      MulOrder(limits.rate, 1, Refills(limits, b.value, now));
    }
  }

  lemma RefillEarlier(limits: Limits, front: seq<int>, last: BucketState, now: int, j: nat)
    requires limits.interval > 0 && SpentSince(limits, front, j)
    requires BucketAfter(limits, None, front) == Some(last) && Refills(limits, last, now) <= 0
    ensures SpentSince(limits, front + [now], j)
  {
    var times := front + [now];
    assert times[..|front|] == front && times[..j] == front[..j];
    assert times[j..] == front[j..] + [now];
    assert front[..j] + front[j..] == front;
    var b := BucketAfter(limits, None, front[..j]);
    RunsCompose(limits, None, front[..j], front[j..]);
    RunsCompose(limits, b, front[j..], [now]);
    OneThenRest(limits, BucketAfter(limits, None, front), [now]);
    assert Admissions(limits, Some(Serve(limits, BucketAfter(limits, None, front), now).bucket), []) == 0;
  }

  lemma {:induction false} LatestRefill(limits: Limits, times: seq<int>) returns (j: nat)
    requires limits.interval > 0 && limits.rate >= 1 && limits.burst >= 1 && times != []
    ensures SpentSince(limits, times, j)
  {
    var front, now := times[..|times| - 1], times[|times| - 1];
    assert times == front + [now];
    var b := BucketAfter(limits, None, front);
    if b.None? || Refills(limits, b.value, now) > 0 {
      RefillNow(limits, front, now);
      j := |front|;
    } else {
      j := LatestRefill(limits, front);
      RefillEarlier(limits, front, b.value, now, j);
    }
  }

  /** Request `j` is the cause of a denial at `now`: it refilled the bucket less than an
      interval ago, and at least min(rate, burst) requests were admitted from it on. */
  ghost predicate CauseOfDenial(limits: Limits, times: seq<int>, now: int, j: nat)
    requires limits.interval > 0
  {
    && j < |times|
    && RefillAt(limits, times, j)
    && now - times[j] < limits.interval
    && Admissions(limits, BucketAfter(limits, None, times[..j]), times[j..]) >= Min(limits.rate, limits.burst)
  }

  lemma DeniedIsEmpty(limits: Limits, b: BucketState, now: int)
    requires limits.interval > 0 && limits.rate >= 1 && limits.burst >= 1 && Sound(limits, b)
    ensures !Serve(limits, Some(b), now).admitted ==> b.tokens == 0 && now - b.lastRefill < limits.interval
  {
    var r := Refills(limits, b, now);
    QuotientAtLeast(now - b.lastRefill, limits.interval, 1);
    if r > 0 {
      MulOrder(limits.rate, 1, r);
    }
  }

  /** A denied request comes less than one interval after the bucket was last created
      or refilled, and since then at least min(rate, burst) requests were admitted. */
  lemma {:induction false} DeniedOnlyWhenSpent(limits: Limits, times: seq<int>, now: int)
    requires limits.interval > 0 && limits.rate >= 1 && limits.burst >= 1
    requires !Serve(limits, BucketAfter(limits, None, times), now).admitted
    ensures exists j: nat :: CauseOfDenial(limits, times, now, j)
  {
    assert times != [];
    RunKeepsSound(limits, None, times);
    DeniedIsEmpty(limits, BucketAfter(limits, None, times).value, now);
    var j := LatestRefill(limits, times);
    assert CauseOfDenial(limits, times, now, j);
  }

  /** A key that has been quiet for a whole interval is always admitted. */
  lemma {:induction false} QuietIntervalAdmits(limits: Limits, times: seq<int>, now: int)
    requires limits.interval > 0 && limits.rate >= 1 && limits.burst >= 1
    requires forall i | 0 <= i < |times| :: now - times[i] >= limits.interval
    ensures Serve(limits, BucketAfter(limits, None, times), now).admitted
  {
    if !Serve(limits, BucketAfter(limits, None, times), now).admitted {
      DeniedOnlyWhenSpent(limits, times, now);
    }
  }

  // ---------- Exact supply ----------

  /** `n` requests at the same time. */
  function SameTime(n: nat, at: int): seq<int> {
    seq(n, _ => at)
  }

  lemma SameTimeTail(n: nat, at: int)
    requires n > 0
    ensures SameTime(n, at)[0] == at && SameTime(n, at)[1..] == SameTime(n - 1, at)
    ensures SameTime(n, at)[..n - 1] == SameTime(n - 1, at)
  {
  }

  /** Requests at a time that brings no refill spend one token each. */
  lemma {:induction false} BurstSpends(limits: Limits, b: BucketState, n: nat, at: int)
    requires limits.interval > 0 && n <= b.tokens && Refills(limits, b, at) <= 0
    ensures BucketAfter(limits, Some(b), SameTime(n, at)) == Some(b.(tokens := b.tokens - n))
  {
    if n > 0 {
      assert SameTime(n, at)[..n - 1] == SameTime(n - 1, at);
      BurstSpends(limits, b, n - 1, at);
    }
  }

  lemma NoRefillAtOnce(limits: Limits, tokens: int, now: int)
    requires limits.interval > 0
    ensures Refills(limits, BucketState(tokens, now), now) == 0
  {
  }

  /** The first request of a missing bucket creates it. */
  lemma AfterCreation(limits: Limits, n: nat, at: int)
    requires limits.interval > 0 && n > 0
    ensures var created := Some(BucketState(limits.burst - 1, at));
      && BucketAfter(limits, None, SameTime(n, at)) == BucketAfter(limits, created, SameTime(n - 1, at))
      && Admissions(limits, None, SameTime(n, at)) == 1 + Admissions(limits, created, SameTime(n - 1, at))
  {
    SameTimeTail(n, at);
    OneThenRest(limits, None, SameTime(n, at));
  }

  lemma BurstFromNothing(limits: Limits, n: nat, at: int)
    requires limits.interval > 0 && 1 <= n <= limits.burst
    ensures BucketAfter(limits, None, SameTime(n, at)) == Some(BucketState(limits.burst - n, at))
  {
    var created := BucketState(limits.burst - 1, at);
    AfterCreation(limits, n, at);
    NoRefillAtOnce(limits, limits.burst - 1, at);
    BurstSpends(limits, created, n - 1, at);
    assert created.(tokens := created.tokens - (n - 1)) == BucketState(limits.burst - n, at);
  }

  /** Requests on an empty bucket that brings no refill are all denied. */
  lemma {:induction false} SpentDenies(limits: Limits, b: BucketState, n: nat, at: int)
    requires limits.interval > 0 && b.tokens <= 0 && Refills(limits, b, at) <= 0
    ensures BucketAfter(limits, Some(b), SameTime(n, at)) == Some(b) && Admissions(limits, Some(b), SameTime(n, at)) == 0
  {
    if n > 0 {
      SameTimeTail(n, at);
      SpentDenies(limits, b, n - 1, at);
    }
  }

  lemma SpendsOne(limits: Limits, b: BucketState, n: nat, at: int)
    requires limits.interval > 0 && n > 0 && b.tokens > 0 && Refills(limits, b, at) <= 0
    ensures Admissions(limits, Some(b), SameTime(n, at))
      == 1 + Admissions(limits, Some(b.(tokens := b.tokens - 1)), SameTime(n - 1, at))
  {
    SameTimeTail(n, at);
    OneThenRest(limits, Some(b), SameTime(n, at));
  }

  lemma {:induction false} SpendsAll(limits: Limits, b: BucketState, n: nat, at: int)
    requires limits.interval > 0 && b.tokens >= 0 && Refills(limits, b, at) <= 0
    ensures Admissions(limits, Some(b), SameTime(n, at)) == Min(n, b.tokens)
    decreases n
  {
    if n > 0 {
      if b.tokens > 0 {
        SpendsOne(limits, b, n, at);
        SpendsAll(limits, b.(tokens := b.tokens - 1), n - 1, at);
      } else {
        SpentDenies(limits, b, n, at);
      }
    }
  }

  /** A second refill at the same time brings nothing. */
  lemma RefillOnce(limits: Limits, b: BucketState, now: int)
    requires limits.interval > 0
    ensures var filled := Refilled(limits, b, now);
      Refilled(limits, filled, now) == filled && Refills(limits, filled, now) <= 0
  {
    NoRefillAtOnce(limits, Refilled(limits, b, now).tokens, now);
  }

  lemma RefillBeforeBurst(limits: Limits, b: BucketState, filled: BucketState, n: nat, now: int)
    requires limits.interval > 0 && filled == Refilled(limits, b, now) && Refilled(limits, filled, now) == filled
    ensures Admissions(limits, Some(b), SameTime(n, now)) == Admissions(limits, Some(filled), SameTime(n, now))
  {
    if n > 0 {
      assert Serve(limits, Some(b), now) == Serve(limits, Some(filled), now);
      SameTimeTail(n, now);
      OneThenRest(limits, Some(b), SameTime(n, now));
      OneThenRest(limits, Some(filled), SameTime(n, now));
    }
  }

  lemma FilledTokens(limits: Limits, b: BucketState, now: int, r: int)
    requires limits.interval > 0 && limits.rate >= 0 && limits.burst >= 1
    requires 0 <= b.tokens <= limits.burst && r == Refills(limits, b, now) && r >= 0
    ensures Refilled(limits, b, now).tokens == Min(limits.burst, b.tokens + limits.rate * r) >= 0
  {
    MulOrder(limits.rate, 0, r);
    assert r * limits.rate == limits.rate * r;
  }

  /** What a burst of requests on a bucket gets: its unspent tokens survive, every whole
      interval since the last refill adds `rate`, and the sum is capped at the burst. */
  lemma ExactSupply(limits: Limits, b: BucketState, n: nat, now: int)
    requires limits.interval > 0 && limits.rate >= 0 && limits.burst >= 1
    requires 0 <= b.tokens <= limits.burst && b.lastRefill <= now
    ensures Admissions(limits, Some(b), SameTime(n, now))
      == Min(n, Min(limits.burst, b.tokens + limits.rate * ((now - b.lastRefill) / limits.interval)))
  {
    var filled, r := Refilled(limits, b, now), (now - b.lastRefill) / limits.interval;
    QuotientAtLeast(now - b.lastRefill, limits.interval, 0);
    RefillOnce(limits, b, now);
    RefillBeforeBurst(limits, b, filled, n, now);
    FilledTokens(limits, b, now, r);
    SpendsAll(limits, filled, n, now);
  }

  /** A key without a bucket gets the burst, and one request even without a burst. */
  lemma ExactSupplyAtCreation(limits: Limits, n: nat, now: int)
    requires limits.interval > 0
    ensures Admissions(limits, None, SameTime(n, now)) == Min(n, Max(limits.burst, 1))
  {
    if n > 0 {
      var created := BucketState(limits.burst - 1, now);
      AfterCreation(limits, n, now);
      NoRefillAtOnce(limits, created.tokens, now);
      if limits.burst >= 1 {
        SpendsAll(limits, created, n - 1, now);
      } else {
        SpentDenies(limits, created, n - 1, now);
      }
    }
  }

  /** A refill at `now` brings no more tokens than the bucket has room for. */
  predicate Fits(limits: Limits, b: BucketState, now: int)
    requires limits.interval > 0
  {
    b.tokens + limits.rate * ((now - b.lastRefill) / limits.interval) <= limits.burst
  }

  /** No request of the run finds its bucket overflowing. */
  predicate NeverCapped(limits: Limits, start: BucketState, times: seq<int>)
    requires limits.interval > 0
  {
    times == []
    || var front := times[..|times| - 1];
       var b := BucketAfter(limits, Some(start), front);
       NeverCapped(limits, start, front) && b.Some? && Fits(limits, b.value, times[|times| - 1])
  }

  /** Tokens held plus requests admitted are the tokens at the start plus one rate for
      each of the `k` intervals that refills have used up; the time they took is at most
      twice that. */
  ghost predicate Balanced(limits: Limits, start: BucketState, admitted: int, b: BucketState, k: int) {
    && b.tokens + admitted == start.tokens + limits.rate * k
    && limits.interval * k <= b.lastRefill - start.lastRefill <= 2 * (limits.interval * k)
  }

  lemma ServeKeepsBalance(limits: Limits, start: BucketState, admitted: int, b: BucketState, now: int, k: nat)
    returns (next: nat)
    requires limits.interval > 0 && limits.rate >= 0
    requires Balanced(limits, start, admitted, b, k) && Fits(limits, b, now)
    ensures var o := Serve(limits, Some(b), now);
      Balanced(limits, start, admitted + if o.admitted then 1 else 0, o.bucket, next)
  {
    var r := Refills(limits, b, now);
    next := k;
    if r > 0 {
      next := k + r;
      RefillTime(limits.interval, now - b.lastRefill, r);
      Distribute(limits.interval, k, r);
      Distribute(limits.rate, k, r);
      assert r * limits.rate == limits.rate * r;
    }
  }

  /** A refill drops less than one interval, so it takes less than twice what it uses. */
  lemma RefillTime(interval: int, elapsed: int, r: int)
    requires interval > 0 && r > 0 && r == elapsed / interval
    ensures interval * r <= elapsed <= 2 * (interval * r)
  {
    QuotientAtLeast(elapsed, interval, r);
    QuotientAtLeast(elapsed, interval, r + 1);
    Distribute(interval, r, 1);
    MulOrder(interval, 1, r);
  }

  lemma {:induction false} RunKeepsBalance(limits: Limits, start: BucketState, times: seq<int>) returns (k: nat)
    requires limits.interval > 0 && limits.rate >= 0 && NeverCapped(limits, start, times)
    ensures var b := BucketAfter(limits, Some(start), times);
      b.Some? && Balanced(limits, start, Admissions(limits, Some(start), times), b.value, k)
  {
    if times == [] {
      k := 0;
    } else {
      var front := times[..|times| - 1];
      var j := RunKeepsBalance(limits, start, front);
      k := ServeKeepsBalance(limits, start, Admissions(limits, Some(start), front),
                             BucketAfter(limits, Some(start), front).value, times[|times| - 1], j);
    }
  }

  lemma LastRefillIsRecent(limits: Limits, b: BucketState, now: int)
    requires limits.interval > 0
    ensures now - Serve(limits, Some(b), now).bucket.lastRefill < limits.interval
  {
    QuotientAtLeast(now - b.lastRefill, limits.interval, 1);
  }

  lemma RunTime(interval: int, k: nat, used: int, rest: int)
    requires interval * k <= used <= 2 * (interval * k) && 0 <= rest < interval
    ensures interval * k <= used + rest < interval * (2 * k + 1)
  {
    Distribute(interval, 2 * k, 1);
    Distribute(interval, k, k);
  }

  /** The exact supply of a whole run that never overflows its bucket: with the tokens
      left, admissions are the tokens at the start and `k` rates, where `k` intervals fit
      into the time of the run and the remainders dropped by refills are at most `k` more. */
  lemma {:induction false} UncappedSupply(limits: Limits, start: BucketState, times: seq<int>) returns (k: nat)
    requires limits.interval > 0 && limits.rate >= 0 && times != []
    requires Sorted([start.lastRefill] + times) && NeverCapped(limits, start, times)
    ensures Admissions(limits, Some(start), times) + BucketAfter(limits, Some(start), times).value.tokens
      == start.tokens + limits.rate * k
    ensures limits.interval * k <= times[|times| - 1] - start.lastRefill < limits.interval * (2 * k + 1)
  {
    var n := |times| - 1;
    k := RunKeepsBalance(limits, start, times);
    TimesBefore(start.lastRefill, times);
    RefillNotAfterNow(limits, Some(start), times, times[n]);
    var before := BucketAfter(limits, Some(start), times[..n]);
    LastRefillIsRecent(limits, before.value, times[n]);
    var b := BucketAfter(limits, Some(start), times).value;
    RunTime(limits.interval, k, b.lastRefill - start.lastRefill, times[n] - b.lastRefill);
  }

  lemma TimesBefore(first: int, times: seq<int>)
    requires times != [] && Sorted([first] + times)
    ensures first <= times[|times| - 1] && forall i | 0 <= i < |times| :: times[i] <= times[|times| - 1]
  {
    var all := [first] + times;
    assert all[0] == first && all[|times|] == times[|times| - 1];
    forall i | 0 <= i < |times| - 1 ensures times[i] <= times[|times| - 1] {
      assert all[i + 1] == times[i];
    }
  }
}
