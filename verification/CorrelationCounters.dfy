/** The evaluation and mismatch counters of the correlation engine: the exact growth of
    each one at every event, and what holds of them in every run. */
module CorrelationCounters {
  import opened AsPaths
  import opened Correlation
  import opened CorrelationRuns

  ghost function AtPop(s: EngineState, keys: set<string>, pop: string): set<string>
    requires keys <= s.traces.Keys
  {
    set k | k in keys && s.traces[k].pop == pop
  }

  ghost function AtPopWith(s: EngineState, p: string, keys: set<string>, pop: string, v: Verdict): set<string>
    requires p in s.bgpPaths && keys <= s.traces.Keys
  {
    set k | k in keys && s.traces[k].pop == pop && VerdictAt(s, p, k) == v
  }

  lemma OneMoreAtPop(s: EngineState, keys: set<string>, k: string, pop: string)
    requires keys <= s.traces.Keys && k in keys
    ensures |AtPop(s, keys, pop)| == |AtPop(s, keys - {k}, pop)| + if s.traces[k].pop == pop then 1 else 0
  {
    var all, rest := AtPop(s, keys, pop), AtPop(s, keys - {k}, pop);
    assert all == if s.traces[k].pop == pop then rest + {k} else rest;
  }

  lemma OneMoreAtPopWith(s: EngineState, p: string, keys: set<string>, k: string, pop: string, v: Verdict)
    requires p in s.bgpPaths && keys <= s.traces.Keys && k in keys
    ensures |AtPopWith(s, p, keys, pop, v)| == |AtPopWith(s, p, keys - {k}, pop, v)|
      + if s.traces[k].pop == pop && VerdictAt(s, p, k) == v then 1 else 0
  {
    var all, rest := AtPopWith(s, p, keys, pop, v), AtPopWith(s, p, keys - {k}, pop, v);
    if s.traces[k].pop == pop && VerdictAt(s, p, k) == v {
      assert all == rest + {k};
    } else {
      assert all == rest;
    }
  }

  lemma IncCounts(s: EngineState, r: CorrelationResult, p: string, pop: string, v: Verdict)
    ensures var t := RecordOne(s, r);
      && Count(t.evaluations, PairLabel(p, pop))
         == Count(s.evaluations, PairLabel(p, pop)) + (if r.prefix == p && r.pop == pop then 1 else 0)
      && (v in {Partial, Mismatch} ==>
            Count(t.mismatches, MismatchLabel(p, pop, v))
            == Count(s.mismatches, MismatchLabel(p, pop, v))
               + if r.prefix == p && r.pop == pop && r.verdict == v then 1 else 0)
  {
  }

  lemma {:induction false} RecordAllCounts(s: EngineState, p: string, keys: set<string>, pop: string, v: Verdict)
    requires WellFormed(s) && p in s.bgpPaths && keys <= s.traces.Keys
    ensures var t := RecordAll(s, p, keys);
      && Count(t.evaluations, PairLabel(p, pop)) == Count(s.evaluations, PairLabel(p, pop)) + |AtPop(s, keys, pop)|
      && (v in {Partial, Mismatch} ==>
            Count(t.mismatches, MismatchLabel(p, pop, v))
            == Count(s.mismatches, MismatchLabel(p, pop, v)) + |AtPopWith(s, p, keys, pop, v)|)
    decreases |keys|
  {
    if keys == {} {
      assert AtPop(s, keys, pop) == {} && AtPopWith(s, p, keys, pop, v) == {};
    } else {
      var k :| k in keys && RecordAll(s, p, keys) == RecordOne(RecordAll(s, p, keys - {k}), ResultAt(s, p, k));
      RecordAllCounts(s, p, keys - {k}, pop, v);
      IncCounts(RecordAll(s, p, keys - {k}), ResultAt(s, p, k), p, pop, v);
      OneMoreAtPop(s, keys, k, pop);
      OneMoreAtPopWith(s, p, keys, k, pop, v);
    }
  }

  /** An announcement evaluates every trace under its prefix exactly once: each pop's
      evaluation counter grows by the number of its covered traces, and each mismatch
      counter by the number of those that now have that verdict. */
  lemma AnnouncementCountsEachTraceOnce(s: EngineState, u: BgpUpdate, pop: string, v: Verdict)
    requires WellFormed(s) && u.eventType != "withdrawal" && v in {Partial, Mismatch}
    ensures var t, p := AfterBgpUpdate(s, u), u.prefix;
      && Count(t.evaluations, PairLabel(p, pop))
         == Count(s.evaluations, PairLabel(p, pop)) + |AtPop(t, Covered(t, p), pop)|
      && Count(t.mismatches, MismatchLabel(p, pop, v))
         == Count(s.mismatches, MismatchLabel(p, pop, v)) + |AtPopWith(t, p, Covered(t, p), pop, v)|
  {
    var known := s.(bgpPaths := s.bgpPaths[u.prefix := Announced(u)]);
    RecordAllCounts(known, u.prefix, Covered(known, u.prefix), pop, v);
    var t := AfterBgpUpdate(s, u);
    assert Covered(t, u.prefix) == Covered(known, u.prefix);
    assert AtPopWith(t, u.prefix, Covered(t, u.prefix), pop, v)
        == AtPopWith(known, u.prefix, Covered(known, u.prefix), pop, v);
  }

  lemma {:induction false} RecordAllOtherCounts(s: EngineState, p: string, keys: set<string>, q: string, pop: string, v: Verdict)
    requires WellFormed(s) && keys <= s.traces.Keys && q != p
    ensures var t := RecordAll(s, p, keys);
      && Count(t.evaluations, PairLabel(q, pop)) == Count(s.evaluations, PairLabel(q, pop))
      && (v in {Partial, Mismatch} ==>
            Count(t.mismatches, MismatchLabel(q, pop, v)) == Count(s.mismatches, MismatchLabel(q, pop, v)))
    decreases |keys|
  {
    if p in s.bgpPaths && keys != {} {
      var k :| k in keys && RecordAll(s, p, keys) == RecordOne(RecordAll(s, p, keys - {k}), ResultAt(s, p, k));
      RecordAllOtherCounts(s, p, keys - {k}, q, pop, v);
      IncCounts(RecordAll(s, p, keys - {k}), ResultAt(s, p, k), q, pop, v);
    }
  }

  /** The keys event `e` evaluates for a prefix and pop. */
  ghost function EvaluatedKeys(s: EngineState, e: Event, p: string, pop: string): set<string> {
    set k | k in s.traces.Keys + (if e.Traceroute? then {e.trace.target + "@" + e.trace.pop} else {})
      && Evaluates(s, e, p, k) && EvaluatedTrace(s, e, p, k).pop == pop
  }

  /** Those of them that come out with verdict `v`. */
  ghost function EvaluatedKeysWith(s: EngineState, e: Event, p: string, pop: string, v: Verdict): set<string> {
    set k | k in EvaluatedKeys(s, e, p, pop)
      && Classify(EvaluatedPath(s, e, p, k), EvaluatedTrace(s, e, p, k).asPath, EvaluatedTrace(s, e, p, k).reached) == v
  }

  /** The two counter changes of one event, for one prefix, pop and kind. */
  ghost predicate CountsGrow(s: EngineState, e: Event, t: EngineState, p: string, pop: string, v: Verdict) {
    && Count(t.evaluations, PairLabel(p, pop))
       == Count(s.evaluations, PairLabel(p, pop)) + |EvaluatedKeys(s, e, p, pop)|
    && Count(t.mismatches, MismatchLabel(p, pop, v))
       == Count(s.mismatches, MismatchLabel(p, pop, v)) + |EvaluatedKeysWith(s, e, p, pop, v)|
  }

  /** The whole effect of any event on the counters: each evaluated pair counts once,
      and once more under its kind if it is a partial match or a mismatch. */
  lemma {:induction false} StepCounts(s: EngineState, e: Event, p: string, pop: string, v: Verdict)
    requires WellFormed(s) && v in {Partial, Mismatch}
    ensures CountsGrow(s, e, Next(s, e), p, pop, v)
  {
    match e
    case Bgp(u) =>
      if u.eventType != "withdrawal" && u.prefix == p {
        AnnouncementCounts(s, u, pop, v);
      } else {
        UncountedUpdate(s, u, p, pop, v);
      }
    case Traceroute(trace) => ProbeCounts(s, trace, p, pop, v);
    case Register(_, _) => NothingEvaluated(s, e, p, pop, v);
  }

  lemma NothingEvaluated(s: EngineState, e: Event, p: string, pop: string, v: Verdict)
    requires forall k :: !Evaluates(s, e, p, k)
    ensures EvaluatedKeys(s, e, p, pop) == {} && EvaluatedKeysWith(s, e, p, pop, v) == {}
  {
  }

  lemma AnnouncedKeys(s: EngineState, u: BgpUpdate, pop: string, v: Verdict)
    requires u.eventType != "withdrawal"
    ensures var known, p := s.(bgpPaths := s.bgpPaths[u.prefix := Announced(u)]), u.prefix;
      && EvaluatedKeys(s, Bgp(u), p, pop) == AtPop(known, Covered(known, p), pop)
      && EvaluatedKeysWith(s, Bgp(u), p, pop, v) == AtPopWith(known, p, Covered(known, p), pop, v)
  {
  }

  lemma AnnouncementCounts(s: EngineState, u: BgpUpdate, pop: string, v: Verdict)
    requires WellFormed(s) && u.eventType != "withdrawal" && v in {Partial, Mismatch}
    ensures CountsGrow(s, Bgp(u), AfterBgpUpdate(s, u), u.prefix, pop, v)
  {
    var known := s.(bgpPaths := s.bgpPaths[u.prefix := Announced(u)]);
    RecordAllCounts(known, u.prefix, Covered(known, u.prefix), pop, v);
    AnnouncedKeys(s, u, pop, v);
  }

  ghost predicate Correlates(s: EngineState, trace: TracePath, p: string) {
    trace.target in s.prefixOf && s.prefixOf[trace.target] == p && p in s.bgpPaths
  }

  lemma UncountedUpdate(s: EngineState, u: BgpUpdate, p: string, pop: string, v: Verdict)
    requires WellFormed(s) && v in {Partial, Mismatch} && (u.eventType == "withdrawal" || u.prefix != p)
    ensures CountsGrow(s, Bgp(u), AfterBgpUpdate(s, u), p, pop, v)
  {
    NothingEvaluated(s, Bgp(u), p, pop, v);
    OtherPrefixUpdated(s, u, p, pop, v);
  }

  lemma OtherPrefixUpdated(s: EngineState, u: BgpUpdate, p: string, pop: string, v: Verdict)
    requires WellFormed(s) && v in {Partial, Mismatch} && (u.eventType == "withdrawal" || u.prefix != p)
    ensures var t := AfterBgpUpdate(s, u);
      && Count(t.evaluations, PairLabel(p, pop)) == Count(s.evaluations, PairLabel(p, pop))
      && Count(t.mismatches, MismatchLabel(p, pop, v)) == Count(s.mismatches, MismatchLabel(p, pop, v))
  {
    if u.eventType != "withdrawal" {
      var known := s.(bgpPaths := s.bgpPaths[u.prefix := Announced(u)]);
      RecordAllOtherCounts(known, u.prefix, Covered(known, u.prefix), p, pop, v);
    }
  }

  lemma ProbedKeys(s: EngineState, trace: TracePath, p: string, pop: string, v: Verdict)
    requires Correlates(s, trace, p)
    ensures var k := TraceKey(trace.target, trace.pop);
      var known := s.(traces := s.traces[k := trace]);
      && EvaluatedKeys(s, Traceroute(trace), p, pop) == AtPop(known, {k}, pop)
      && EvaluatedKeysWith(s, Traceroute(trace), p, pop, v) == AtPopWith(known, p, {k}, pop, v)
  {
  }

  lemma UncorrelatedProbe(s: EngineState, trace: TracePath, p: string, pop: string, v: Verdict)
    requires WellFormed(s) && v in {Partial, Mismatch} && !Correlates(s, trace, p)
    ensures CountsGrow(s, Traceroute(trace), AfterTraceroute(s, trace), p, pop, v)
  {
    var k := TraceKey(trace.target, trace.pop);
    var known := s.(traces := s.traces[k := trace]);
    NothingEvaluated(s, Traceroute(trace), p, pop, v);
    if trace.target in s.prefixOf && s.prefixOf[trace.target] != p {
      RecordAllOtherCounts(known, s.prefixOf[trace.target], {k}, p, pop, v);
    }
  }

  lemma ProbeCounts(s: EngineState, trace: TracePath, p: string, pop: string, v: Verdict)
    requires WellFormed(s) && v in {Partial, Mismatch}
    ensures CountsGrow(s, Traceroute(trace), AfterTraceroute(s, trace), p, pop, v)
  {
    if Correlates(s, trace, p) {
      var k := TraceKey(trace.target, trace.pop);
      RecordAllCounts(s.(traces := s.traces[k := trace]), p, {k}, pop, v);
      ProbedKeys(s, trace, p, pop, v);
    } else {
      UncorrelatedProbe(s, trace, p, pop, v);
    }
  }

  // ---------- Counters over runs ----------

  /** Each evaluation counts at most once as a mismatch of either kind. */
  ghost predicate CountersConsistent(s: EngineState) {
    forall p, pop ::
      Count(s.mismatches, MismatchLabel(p, pop, Partial)) + Count(s.mismatches, MismatchLabel(p, pop, Mismatch))
      <= Count(s.evaluations, PairLabel(p, pop))
  }

  lemma RecordOneKeepsCounters(s: EngineState, r: CorrelationResult)
    requires CountersConsistent(s)
    ensures CountersConsistent(RecordOne(s, r))
  {
    var t := RecordOne(s, r);
    forall p, pop
      ensures Count(t.mismatches, MismatchLabel(p, pop, Partial)) + Count(t.mismatches, MismatchLabel(p, pop, Mismatch))
           <= Count(t.evaluations, PairLabel(p, pop))
    {
      IncCounts(s, r, p, pop, Partial);
      IncCounts(s, r, p, pop, Mismatch);
    }
  }

  lemma {:induction false} RecordAllKeepsCounters(s: EngineState, p: string, keys: set<string>)
    requires keys <= s.traces.Keys && CountersConsistent(s)
    ensures CountersConsistent(RecordAll(s, p, keys))
    decreases |keys|
  {
    if p in s.bgpPaths && keys != {} {
      var k :| k in keys && RecordAll(s, p, keys) == RecordOne(RecordAll(s, p, keys - {k}), ResultAt(s, p, k));
      RecordAllKeepsCounters(s, p, keys - {k});
      RecordOneKeepsCounters(RecordAll(s, p, keys - {k}), ResultAt(s, p, k));
    }
  }

  lemma {:induction false} CountersStayConsistent(run: Run)
    ensures CountersConsistent(After(run))
  {
    if run != [] {
      var front, e := run[..|run| - 1], run[|run| - 1];
      var s := After(front);
      CountersStayConsistent(front);
      match e
      case Bgp(u) =>
        if u.eventType != "withdrawal" {
          var known := s.(bgpPaths := s.bgpPaths[u.prefix := Announced(u)]);
          RecordAllKeepsCounters(known, u.prefix, Covered(known, u.prefix));
        }
      case Traceroute(trace) =>
        var k := TraceKey(trace.target, trace.pop);
        var known := s.(traces := s.traces[k := trace]);
        if trace.target in s.prefixOf {
          RecordAllKeepsCounters(known, s.prefixOf[trace.target], {k});
        }
      case Register(_, _) =>
    }
  }
}
