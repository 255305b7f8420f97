/** Whole runs of the limiter over many keys, with cleanup passes anywhere: keys do not
    interfere, and exactly when the eviction of idle buckets cannot be observed. */
module Eviction {
  import opened Integers
  import opened Options
  import opened RateLimiter

  datatype Op = Request(key: string, at: int) | Sweep(at: int)

  type Run = seq<Op>

  type Contents = map<string, BucketState>

  ghost predicate InOrder(ops: Run) {
    forall i, j | 0 <= i < j < |ops| :: ops[i].at <= ops[j].at
  }

  /** The limiter after one operation; a limiter that never cleans up ignores sweeps. */
  function Step(limits: Limits, evicting: bool, s: Contents, op: Op): Contents
    requires limits.interval > 0
  {
    match op
    case Request(key, at) => s[key := Serve(limits, Lookup(s, key), at).bucket]
    case Sweep(at) => if evicting then s - Stale(s, at) else s
  }

  function After(limits: Limits, evicting: bool, s: Contents, ops: Run): Contents
    requires limits.interval > 0
  {
    if ops == [] then s
    else Step(limits, evicting, After(limits, evicting, s, ops[..|ops| - 1]), ops[|ops| - 1])
  }

  /** The answer to a request on `key` after the run. */
  function Answer(limits: Limits, evicting: bool, ops: Run, key: string, now: int): bool
    requires limits.interval > 0
  {
    Serve(limits, Lookup(After(limits, evicting, map[], ops), key), now).admitted
  }

  /** The times of the requests on one key. */
  function TimesOf(ops: Run, key: string): seq<int> {
    if ops == [] then []
    else
      var op := ops[|ops| - 1];
      TimesOf(ops[..|ops| - 1], key) + if op.Request? && op.key == key then [op.at] else []
  }

  ghost predicate NoSweeps(ops: Run) {
    forall i | 0 <= i < |ops| :: ops[i].Request?
  }

  /** Without evictions the bucket of a key is that of the key's own requests. */
  lemma {:induction false} KeysIndependent(limits: Limits, evicting: bool, s: Contents, ops: Run, key: string)
    requires limits.interval > 0 && (evicting ==> NoSweeps(ops))
    ensures Lookup(After(limits, evicting, s, ops), key) == BucketAfter(limits, Lookup(s, key), TimesOf(ops, key))
  {
    if ops != [] {
      var front, op := ops[..|ops| - 1], ops[|ops| - 1];
      KeysIndependent(limits, evicting, s, front, key);
      var times := TimesOf(front, key);
      if op.Request? && op.key == key {
        assert (times + [op.at])[..|times|] == times;
      } else {
        assert TimesOf(ops, key) == times;
      }
    }
  }

  /** Requests on other keys never change an answer. */
  lemma OtherKeysIrrelevant(limits: Limits, ops: Run, other: Run, key: string, now: int)
    requires limits.interval > 0 && TimesOf(ops, key) == TimesOf(other, key)
    ensures Answer(limits, false, ops, key, now) == Answer(limits, false, other, key, now)
  {
    KeysIndependent(limits, false, map[], ops, key);
    KeysIndependent(limits, false, map[], other, key);
  }

  // ---------- What a sweep keeps ----------

  /** A bucket was last refilled by one of its key's own requests. */
  lemma {:induction false} RefilledByRequest(limits: Limits, ops: Run, key: string)
    requires limits.interval > 0 && key in After(limits, true, map[], ops)
    ensures Request(key, After(limits, true, map[], ops)[key].lastRefill) in ops
  {
    var front, op := ops[..|ops| - 1], ops[|ops| - 1];
    assert ops == front + [op];
    if key in After(limits, true, map[], front) {
      RefilledByRequest(limits, front, key);
    }
  }

  /** After any run, a sweep leaves no key whose requests are all older than ten minutes. */
  lemma {:induction false} IdleKeysForgotten(limits: Limits, ops: Run, key: string, at: int)
    requires limits.interval > 0
    requires forall t | Request(key, t) in ops :: t < at - 600_000_000_000
    ensures key !in After(limits, true, map[], ops + [Sweep(at)])
  {
    assert (ops + [Sweep(at)])[..|ops|] == ops;
    if key in After(limits, true, map[], ops) {
      RefilledByRequest(limits, ops, key);
    }
  }

  lemma {:induction false} RefilledRecently(limits: Limits, ops: Run, key: string, t: int, at: int)
    requires limits.interval > 0 && Request(key, t) in ops && at - t + limits.interval <= TEN_MINUTES
    requires forall i | 0 <= i < |ops| :: ops[i].at <= at
    ensures var s := After(limits, true, map[], ops); key in s && s[key].lastRefill > t - limits.interval
  {
    var front, op := ops[..|ops| - 1], ops[|ops| - 1];
    assert ops == front + [op];
    if Request(key, t) in front {
      RefilledRecently(limits, front, key, t, at);
    } else {
      var b := Lookup(After(limits, true, map[], front), key);
      if b.Some? {
        LastRefillIsRecent(limits, b.value, t);
      }
    }
    if op.Request? && op.key == key && Request(key, t) in front {
      RefillNotEarlier(limits, After(limits, true, map[], front)[key], op.at);
    }
  }

  lemma RefillNotEarlier(limits: Limits, b: BucketState, now: int)
    requires limits.interval > 0
    ensures Serve(limits, Some(b), now).bucket.lastRefill >= b.lastRefill
  {
    QuotientAtLeast(now - b.lastRefill, limits.interval, 1);
  }

  /** A key requested within ten minutes less one interval keeps its bucket, unchanged. */
  lemma {:induction false} RecentKeysKept(limits: Limits, ops: Run, key: string, t: int, at: int)
    requires limits.interval > 0 && Request(key, t) in ops && at - t + limits.interval <= 600_000_000_000
    requires forall i | 0 <= i < |ops| :: ops[i].at <= at
    ensures var s, swept := After(limits, true, map[], ops), After(limits, true, map[], ops + [Sweep(at)]);
      key in s && key in swept && swept[key] == s[key]
  {
    assert (ops + [Sweep(at)])[..|ops|] == ops;
    RefilledRecently(limits, ops, key, t, at);
  }

  /** Evicting changes no answer of any run in time order. */
  ghost predicate Unobservable(limits: Limits)
    requires limits.interval > 0
  {
    forall ops: Run, key: string, now: int | InOrder(ops) && (forall i | 0 <= i < |ops| :: ops[i].at <= now) ::
      Answer(limits, true, ops, key, now) == Answer(limits, false, ops, key, now)
  }

  /** The tokens an idle bucket earns before it can be evicted fill it. */
  predicate RefillsBeforeEviction(limits: Limits)
    requires limits.interval > 0
  {
    limits.burst >= 1 && limits.rate * ((TEN_MINUTES + 1) / limits.interval) >= limits.burst
  }

  // ---------- The condition suffices ----------

  /** The two limiters hold the same bucket, or one evicted a bucket that the other
      keeps but has not refilled for more than ten minutes. */
  ghost predicate Related(evicted: Option<BucketState>, kept: Option<BucketState>, clock: int) {
    evicted == kept || (evicted.None? && kept.Some? && kept.value.lastRefill + TEN_MINUTES < clock)
  }

  lemma ServeRelated(limits: Limits, evicted: Option<BucketState>, kept: Option<BucketState>, clock: int, now: int)
    requires limits.interval > 0 && limits.rate >= 0 && RefillsBeforeEviction(limits)
    requires kept.Some? ==> Sound(limits, kept.value)
    requires Related(evicted, kept, clock) && clock <= now
    ensures Serve(limits, evicted, now) == Serve(limits, kept, now)
  {
    if evicted != kept {
      var b := kept.value;
      var least, r := (TEN_MINUTES + 1) / limits.interval, Refills(limits, b, now);
      QuotientMonotone(TEN_MINUTES + 1, now - b.lastRefill, limits.interval);
      MulOrder(limits.rate, least, r);
      assert r * limits.rate == limits.rate * r;
      RefillsPositive(limits.rate, r, limits.burst);
    }
  }

  lemma RefillsPositive(rate: int, r: int, burst: int)
    requires rate >= 0 && burst >= 1 && rate * r >= burst
    ensures r > 0
  {
    if r <= 0 {
      MulOrder(rate, r, 0);
    }
  }

  lemma {:induction false} RunsRelated(limits: Limits, ops: Run, key: string, clock: int)
    requires limits.interval > 0 && limits.rate >= 0 && RefillsBeforeEviction(limits)
    requires InOrder(ops) && forall i | 0 <= i < |ops| :: ops[i].at <= clock
    ensures Related(Lookup(After(limits, true, map[], ops), key), Lookup(After(limits, false, map[], ops), key), clock)
  {
    if ops != [] {
      var front, op := ops[..|ops| - 1], ops[|ops| - 1];
      RunsRelated(limits, front, key, op.at);
      var kept := Lookup(After(limits, false, map[], front), key);
      if op.Request? && op.key == key {
        KeysIndependent(limits, false, map[], front, key);
        RunKeepsSound(limits, None, TimesOf(front, key));
        ServeRelated(limits, Lookup(After(limits, true, map[], front), key), kept, op.at, op.at);
      }
    }
  }

  lemma ConditionSuffices(limits: Limits)
    requires limits.interval > 0 && limits.rate >= 0 && RefillsBeforeEviction(limits)
    ensures Unobservable(limits)
  {
    forall ops: Run, key: string, now: int | InOrder(ops) && (forall i | 0 <= i < |ops| :: ops[i].at <= now)
      ensures Answer(limits, true, ops, key, now) == Answer(limits, false, ops, key, now)
    {
      RunsRelated(limits, ops, key, now);
      KeysIndependent(limits, false, map[], ops, key);
      RunKeepsSound(limits, None, TimesOf(ops, key));
      ServeRelated(limits, Lookup(After(limits, true, map[], ops), key),
                   Lookup(After(limits, false, map[], ops), key), now, now);
    }
  }

  // ---------- The condition is necessary ----------

  /** `n` requests on the empty key at the same time. */
  function Repeat(n: nat, at: int): Run {
    seq(n, _ => Request("", at))
  }

  lemma {:induction false} RepeatTimes(n: nat, at: int)
    ensures TimesOf(Repeat(n, at), "") == SameTime(n, at)
  {
    if n > 0 {
      assert Repeat(n, at)[..n - 1] == Repeat(n - 1, at);
      RepeatTimes(n - 1, at);
      assert SameTime(n, at) == SameTime(n - 1, at) + [at];
    }
  }

  lemma {:induction false} AfterConcat(limits: Limits, evicting: bool, s: Contents, first: Run, second: Run)
    requires limits.interval > 0
    ensures After(limits, evicting, s, first + second) == After(limits, evicting, After(limits, evicting, s, first), second)
  {
    if second == [] {
      assert first + second == first;
    } else {
      assert (first + second)[..|first + second| - 1] == first + second[..|second| - 1];
      AfterConcat(limits, evicting, s, first, second[..|second| - 1]);
    }
  }

  /** `n` requests at time 0, a sweep just past ten minutes later, `m` more requests. */
  function Witness(n: nat, m: nat): Run {
    Repeat(n, 0) + [Sweep(TEN_MINUTES + 1)] + Repeat(m, TEN_MINUTES + 1)
  }

  lemma WitnessBuckets(limits: Limits, n: nat, m: nat)
    requires limits.interval > 0 && n >= 1
    requires Lookup(After(limits, true, map[], Repeat(n, 0)), "").Some?
    requires Lookup(After(limits, true, map[], Repeat(n, 0)), "").value.lastRefill == 0
    ensures Lookup(After(limits, true, map[], Witness(n, m)), "") == BucketAfter(limits, None, SameTime(m, TEN_MINUTES + 1))
    ensures Lookup(After(limits, false, map[], Witness(n, m)), "")
      == BucketAfter(limits, BucketAfter(limits, None, SameTime(n, 0)), SameTime(m, TEN_MINUTES + 1))
  {
    var first, sweep, second := Repeat(n, 0), [Sweep(TEN_MINUTES + 1)], Repeat(m, TEN_MINUTES + 1);
    RepeatTimes(n, 0);
    RepeatTimes(m, TEN_MINUTES + 1);
    assert sweep[..0] == [];
    forall evicting: bool
      ensures After(limits, evicting, map[], Witness(n, m))
        == After(limits, evicting, Step(limits, evicting, After(limits, evicting, map[], first), sweep[0]), second)
    {
      AfterConcat(limits, evicting, map[], first + sweep, second);
      AfterConcat(limits, evicting, map[], first, sweep);
      assert After(limits, evicting, After(limits, evicting, map[], first), []) == After(limits, evicting, map[], first);
    }
    KeysIndependent(limits, false, map[], first, "");
    var swept := Step(limits, true, After(limits, true, map[], first), sweep[0]);
    KeysIndependent(limits, true, swept, second, "");
    KeysIndependent(limits, false, After(limits, false, map[], first), second, "");
  }

  lemma WitnessInOrder(n: nat, m: nat)
    ensures InOrder(Witness(n, m)) && forall i | 0 <= i < |Witness(n, m)| :: Witness(n, m)[i].at <= TEN_MINUTES + 1
  {
  }

  /** Without a burst the first request of a bucket is its only admission, so evicting
      it lets another one through. */
  lemma NoBurstIsObservable(limits: Limits)
    requires limits.interval > 0 && limits.rate >= 0 && limits.burst < 1
    ensures !Unobservable(limits)
  {
    var now := TEN_MINUTES + 1;
    RepeatTimes(1, 0);
    KeysIndependent(limits, true, map[], Repeat(1, 0), "");
    OneThenRest(limits, None, SameTime(1, 0));
    assert SameTime(1, 0)[1..] == [];
    WitnessBuckets(limits, 1, 0);
    WitnessInOrder(1, 0);
    var kept := BucketState(limits.burst - 1, 0);
    NoBurstNoAdmission(limits, kept, [now]);
    OneThenRest(limits, Some(kept), [now]);
    assert !Answer(limits, false, Witness(1, 0), "", now);
    assert Answer(limits, true, Witness(1, 0), "", now);
  }

  /** If ten idle minutes do not fill the bucket, spending it, waiting and spending it
      again tells the two limiters apart. */
  lemma SlowRefillIsObservable(limits: Limits)
    requires limits.interval > 0 && limits.rate >= 0 && limits.burst >= 1
    requires limits.rate * ((TEN_MINUTES + 1) / limits.interval) < limits.burst
    ensures !Unobservable(limits)
  {
    var now, r := TEN_MINUTES + 1, (TEN_MINUTES + 1) / limits.interval;
    QuotientAtLeast(now, limits.interval, 0);
    MulOrder(limits.rate, 0, r);
    var n, m: nat := limits.burst, limits.rate * r;
    RepeatTimes(n, 0);
    KeysIndependent(limits, true, map[], Repeat(n, 0), "");
    BurstFromNothing(limits, n, 0);
    WitnessBuckets(limits, n, m);
    WitnessInOrder(n, m);
    SpentBucketDenies(limits, m);
    FreshBucketAdmits(limits, m);
    assert Answer(limits, true, Witness(n, m), "", now) != Answer(limits, false, Witness(n, m), "", now);
  }

  lemma SpentBucketDenies(limits: Limits, m: nat)
    requires limits.interval > 0 && limits.rate >= 0 && m < limits.burst
    requires m == limits.rate * ((TEN_MINUTES + 1) / limits.interval)
    ensures !Serve(limits, BucketAfter(limits, Some(BucketState(0, 0)), SameTime(m, TEN_MINUTES + 1)), TEN_MINUTES + 1).admitted
  {
    var now := TEN_MINUTES + 1;
    if m == 0 {
      NothingEarned(limits, now);
    } else {
      EarnedAfterWait(limits, m, now);
      SpentAgain(limits, m, now);
    }
  }

  lemma SpentAgain(limits: Limits, m: nat, now: int)
    requires limits.interval > 0 && m > 0
    requires Serve(limits, Some(BucketState(0, 0)), now) == Outcome(BucketState(m - 1, now), true)
    ensures !Serve(limits, BucketAfter(limits, Some(BucketState(0, 0)), SameTime(m, now)), now).admitted
  {
    OneThenRest(limits, Some(BucketState(0, 0)), SameTime(m, now));
    assert SameTime(m, now)[1..] == SameTime(m - 1, now);
    NoRefillAtOnce(limits, m - 1, now);
    NoRefillAtOnce(limits, 0, now);
    BurstSpends(limits, BucketState(m - 1, now), m - 1, now);
  }

  lemma NothingEarned(limits: Limits, now: int)
    requires limits.interval > 0 && limits.burst > 0 && limits.rate * (now / limits.interval) == 0
    ensures Refilled(limits, BucketState(0, 0), now).tokens == 0
  {
    var r := now / limits.interval;
    assert r * limits.rate == limits.rate * r;
    assert Refills(limits, BucketState(0, 0), now) == r;
  }

  lemma EarnedAfterWait(limits: Limits, m: nat, now: int)
    requires limits.interval > 0 && limits.rate >= 0 && 0 < m < limits.burst
    requires m == limits.rate * (now / limits.interval)
    ensures Serve(limits, Some(BucketState(0, 0)), now) == Outcome(BucketState(m - 1, now), true)
  {
    var r := now / limits.interval;
    RefillsPositive(limits.rate, r, m);
    assert r * limits.rate == limits.rate * r;
    assert Refills(limits, BucketState(0, 0), now) == r;
  }

  lemma FreshBucketAdmits(limits: Limits, m: nat)
    requires limits.interval > 0 && m < limits.burst
    ensures Serve(limits, BucketAfter(limits, None, SameTime(m, TEN_MINUTES + 1)), TEN_MINUTES + 1).admitted
  {
    if m > 0 {
      BurstFromNothing(limits, m, TEN_MINUTES + 1);
      NoRefillAtOnce(limits, limits.burst - m, TEN_MINUTES + 1);
    }
  }

  /** Eviction changes no answer of any run exactly when there is a burst and the tokens
      of ten minutes and a tick cover it. */
  lemma EvictionUnobservable(limits: Limits)
    requires limits.interval > 0 && limits.rate >= 0
    ensures Unobservable(limits) <==> RefillsBeforeEviction(limits)
  {
    if RefillsBeforeEviction(limits) {
      ConditionSuffices(limits);
    } else if limits.burst < 1 {
      NoBurstIsObservable(limits);
    } else {
      SlowRefillIsObservable(limits);
    }
  }
}
