/** Whole runs of the correlation engine: when the incrementally maintained gauge
    agrees with the verdicts a recomputation would give. */
module CorrelationRuns {
  import opened AsPaths
  import opened Correlation
  import opened Options

  datatype Event =
    | Bgp(update: BgpUpdate)
    | Traceroute(trace: TracePath)
    | Register(target: string, prefix: string)

  type Run = seq<Event>

  ghost function Next(s: EngineState, e: Event): (t: EngineState)
    requires WellFormed(s)
    ensures WellFormed(t)
  {
    match e
    case Bgp(u) => AfterBgpUpdate(s, u)
    case Traceroute(t) => AfterTraceroute(s, t)
    case Register(target, prefix) => AfterRegister(s, target, prefix)
  }

  ghost function After(run: Run): (s: EngineState)
    ensures WellFormed(s)
  {
    if run == [] then INITIAL else Next(After(run[..|run| - 1]), run[|run| - 1])
  }

  // ---------- The tables, read off the run ----------

  /** The latest trace of a run stored under a key. */
  function LatestTrace(run: Run, key: string): Option<TracePath> {
    if run == [] then None
    else
      var e := run[|run| - 1];
      if e.Traceroute? && e.trace.target + "@" + e.trace.pop == key then Some(e.trace)
      else LatestTrace(run[..|run| - 1], key)
  }

  /** The prefix a target was last registered under. */
  function LatestMapping(run: Run, target: string): Option<string> {
    if run == [] then None
    else
      var e := run[|run| - 1];
      if e.Register? && e.target == target then Some(e.prefix) else LatestMapping(run[..|run| - 1], target)
  }

  /** The path of the latest update on a prefix, unless that is a withdrawal. Every
      other event type announces. */
  function LatestPath(run: Run, prefix: string): Option<BgpPath> {
    if run == [] then None
    else
      var e := run[|run| - 1];
      if e.Bgp? && e.update.prefix == prefix then
        if e.update.eventType == "withdrawal" then None
        else Some(BgpPath(prefix, e.update.originAsn, e.update.asPath, e.update.peerAsn, e.update.collector))
      else LatestPath(run[..|run| - 1], prefix)
  }

  /** What one event does to one entry of each table. */
  lemma StepTables(s: EngineState, e: Event, key: string, target: string, prefix: string)
    requires WellFormed(s)
    ensures Lookup(Next(s, e).traces, key)
      == if e.Traceroute? && e.trace.target + "@" + e.trace.pop == key then Some(e.trace) else Lookup(s.traces, key)
    ensures Lookup(Next(s, e).prefixOf, target)
      == if e.Register? && e.target == target then Some(e.prefix) else Lookup(s.prefixOf, target)
    ensures Lookup(Next(s, e).bgpPaths, prefix) ==
      if e.Bgp? && e.update.prefix == prefix then
        if e.update.eventType == "withdrawal" then None
        else Some(BgpPath(prefix, e.update.originAsn, e.update.asPath, e.update.peerAsn, e.update.collector))
      else Lookup(s.bgpPaths, prefix)
  {
  }

  /** After any run a key holds exactly its latest trace, whatever was announced,
      withdrawn or registered in between. */
  lemma {:induction false} TracesAreLatest(run: Run, key: string)
    ensures Lookup(After(run).traces, key) == LatestTrace(run, key)
  {
    if run != [] {
      TracesAreLatest(run[..|run| - 1], key);
      StepTables(After(run[..|run| - 1]), run[|run| - 1], key, "", "");
    }
  }

  lemma {:induction false} MappingsAreLatest(run: Run, target: string)
    ensures Lookup(After(run).prefixOf, target) == LatestMapping(run, target)
  {
    if run != [] {
      MappingsAreLatest(run[..|run| - 1], target);
      StepTables(After(run[..|run| - 1]), run[|run| - 1], "", target, "");
    }
  }

  lemma {:induction false} PathsAreLatest(run: Run, prefix: string)
    ensures Lookup(After(run).bgpPaths, prefix) == LatestPath(run, prefix)
  {
    if run != [] {
      PathsAreLatest(run[..|run| - 1], prefix);
      StepTables(After(run[..|run| - 1]), run[|run| - 1], "", "", prefix);
    }
  }

  // ---------- What one event evaluates ----------

  /** Event `e` compares the trace under key `k` with the path of prefix `p`. */
  ghost predicate Evaluates(s: EngineState, e: Event, p: string, k: string) {
    match e
    case Bgp(u) =>
      && u.eventType != "withdrawal" && u.prefix == p
      && k in s.traces && s.traces[k].target in s.prefixOf && s.prefixOf[s.traces[k].target] == p
    case Traceroute(trace) =>
      && k == trace.target + "@" + trace.pop
      && trace.target in s.prefixOf && s.prefixOf[trace.target] == p && p in s.bgpPaths
    case Register(_, _) => false
  }

  ghost function EvaluatedTrace(s: EngineState, e: Event, p: string, k: string): TracePath
    requires Evaluates(s, e, p, k)
  {
    match e
    case Bgp(_) => s.traces[k]
    case Traceroute(trace) => trace
  }

  ghost function EvaluatedPath(s: EngineState, e: Event, p: string, k: string): AsPath
    requires Evaluates(s, e, p, k)
  {
    match e
    case Bgp(u) => u.asPath
    case Traceroute(_) => s.bgpPaths[p].asPath
  }

  /** The documented gauge values: 1 for exact, 0.5 for partial, 0 for mismatch and -1
      for insufficient data, in terms of the paths themselves. */
  ghost predicate GaugeMeans(x: real, bgp: AsPath, trace: TracePath) {
    if !Sufficient(bgp, trace.asPath, trace.reached) then x == -1.0
    else if Last(bgp) != Last(trace.asPath) then x == 0.0
    else if IsSegment(trace.asPath, bgp) then x == 1.0
    else x == 0.5
  }

  lemma StatusMeans(bgp: AsPath, trace: TracePath)
    ensures GaugeMeans(StatusValue(Classify(bgp, trace.asPath, trace.reached)), bgp, trace)
  {
    ClassificationTheorem(bgp, trace.asPath, trace.reached);
  }

  ghost predicate GaugeUnchanged(s: EngineState, t: EngineState, l: StatusLabel) {
    && (l in t.matchStatus <==> l in s.matchStatus)
    && (l in s.matchStatus ==> t.matchStatus[l] == s.matchStatus[l])
  }

  /** Label `l` belongs to a pair that event `e` evaluates. */
  ghost predicate Touches(s: EngineState, e: Event, l: StatusLabel) {
    var k := l.target + "@" + l.pop;
    && Evaluates(s, e, l.prefix, k)
    && EvaluatedTrace(s, e, l.prefix, k).target == l.target
    && EvaluatedTrace(s, e, l.prefix, k).pop == l.pop
  }

  /** The whole effect of any event on the gauge: the evaluated pairs show their
      documented value and every other entry, or missing entry, stays as it was. */
  lemma {:induction false} StepWritesGauge(s: EngineState, e: Event, l: StatusLabel)
    requires WellFormed(s)
    ensures var t, k := Next(s, e), l.target + "@" + l.pop;
      if Touches(s, e, l) then
        && l in t.matchStatus
        && GaugeMeans(t.matchStatus[l], EvaluatedPath(s, e, l.prefix, k), EvaluatedTrace(s, e, l.prefix, k))
      else GaugeUnchanged(s, t, l)
  {
    match e
    case Bgp(u) =>
      if u.eventType != "withdrawal" {
        AnnouncementWritesGauge(s, u, l);
      }
    case Traceroute(trace) => ProbeWritesGauge(s, trace, l);
    case Register(_, _) =>
  }

  lemma AnnouncementWritesGauge(s: EngineState, u: BgpUpdate, l: StatusLabel)
    requires WellFormed(s) && u.eventType != "withdrawal"
    ensures var t, e, k := AfterBgpUpdate(s, u), Bgp(u), l.target + "@" + l.pop;
      if Touches(s, e, l) then l in t.matchStatus && GaugeMeans(t.matchStatus[l], u.asPath, s.traces[k])
      else GaugeUnchanged(s, t, l)
  {
    var known := s.(bgpPaths := s.bgpPaths[u.prefix := Announced(u)]);
    var keys, k := Covered(known, u.prefix), l.target + "@" + l.pop;
    if Touches(s, Bgp(u), l) {
      RecordAllWrites(known, u.prefix, keys, k);
      StatusMeans(u.asPath, s.traces[k]);
    } else {
      forall j | j in keys ensures l != LabelAt(known, u.prefix, j) {
      }
      RecordAllKeeps(known, u.prefix, keys, l);
    }
  }

  lemma ProbeWritesGauge(s: EngineState, trace: TracePath, l: StatusLabel)
    requires WellFormed(s)
    ensures var t, e := AfterTraceroute(s, trace), Traceroute(trace);
      if Touches(s, e, l)
      then l in t.matchStatus && GaugeMeans(t.matchStatus[l], s.bgpPaths[l.prefix].asPath, trace)
      else GaugeUnchanged(s, t, l)
  {
    var k := TraceKey(trace.target, trace.pop);
    var known := s.(traces := s.traces[k := trace]);
    if trace.target in s.prefixOf {
      var p := s.prefixOf[trace.target];
      if Touches(s, Traceroute(trace), l) {
        RecordAllWrites(known, p, {k}, k);
        StatusMeans(s.bgpPaths[p].asPath, trace);
      } else {
        RecordAllKeeps(known, p, {k}, l);
      }
    }
  }

  // ---------- Agreement with the recomputing query ----------

  /** The gauge entry of trace `k` shows the verdict a recomputation gives. */
  ghost predicate InSync(s: EngineState, k: string)
    requires Correlatable(s, k)
  {
    var p := s.prefixOf[s.traces[k].target];
    LabelAt(s, p, k) in s.matchStatus && s.matchStatus[LabelAt(s, p, k)] == StatusValue(VerdictAt(s, p, k))
  }

  ghost predicate Synced(s: EngineState) {
    forall k | Correlatable(s, k) :: InSync(s, k)
  }

  /** The entry of the gauge a query result speaks about. */
  function StatusOf(r: CorrelationResult): StatusLabel {
    StatusLabel(r.prefix, r.pop, r.target)
  }

  /** `Synced` says exactly that every entry of a query result is what the gauge
      shows, and distinct verdicts never share a gauge value. */
  lemma {:induction false} SyncedMeansQueryAgrees(s: EngineState, results: map<string, CorrelationResult>)
    requires WellFormed(s) && IsRecomputation(s, results)
    ensures Synced(s) <==> forall k | k in results ::
      && StatusOf(results[k]) in s.matchStatus
      && forall v: Verdict :: s.matchStatus[StatusOf(results[k])] == StatusValue(v) <==> v == results[k].verdict
  {
    forall k | k in results
      ensures StatusOf(results[k]) == LabelAt(s, s.prefixOf[s.traces[k].target], k)
      ensures results[k].verdict == VerdictAt(s, s.prefixOf[s.traces[k].target], k)
    {
      assert Correlatable(s, k);
    }
    if forall k | k in results ::
      && StatusOf(results[k]) in s.matchStatus
      && forall v: Verdict :: s.matchStatus[StatusOf(results[k])] == StatusValue(v) <==> v == results[k].verdict
    {
      forall k | Correlatable(s, k) ensures InSync(s, k) {
        assert k in results;
        assert s.matchStatus[StatusOf(results[k])] == StatusValue(results[k].verdict);
      }
    } else if Synced(s) {
      forall k | k in results ensures InSync(s, k) { assert Correlatable(s, k); }
    }
  }

  /** A registration that gives a target a new prefix while both the prefix's path
      and a trace of the target are already known: nothing evaluates the pair. */
  ghost predicate Late(s: EngineState, e: Event) {
    && e.Register?
    && (e.target in s.prefixOf ==> s.prefixOf[e.target] != e.prefix)
    && e.prefix in s.bgpPaths
    && exists k :: k in s.traces && s.traces[k].target == e.target
  }

  /** The gauge entry of trace `k` under prefix `p` is missing or shows another verdict. */
  ghost predicate Stale(s: EngineState, p: string, k: string)
    requires p in s.bgpPaths && k in s.traces
  {
    LabelAt(s, p, k) in s.matchStatus ==> s.matchStatus[LabelAt(s, p, k)] != StatusValue(VerdictAt(s, p, k))
  }

  /** A late registration under which some trace of the target has a stale entry. It is
      one for every first registration of a pair; an entry from an earlier registration
      of the same pair may happen to be right. */
  ghost predicate Uncovers(s: EngineState, e: Event) {
    Late(s, e) && exists k :: k in s.traces && s.traces[k].target == e.target && Stale(s, e.prefix, k)
  }

  /** An announcement brings every trace under its prefix into agreement, whatever
      the state before, and leaves the gauge entries of other prefixes alone. */
  lemma AnnouncementSyncs(s: EngineState, u: BgpUpdate)
    requires WellFormed(s) && u.eventType != "withdrawal"
    ensures var t := AfterBgpUpdate(s, u);
      && (forall k | Correlatable(t, k) && t.prefixOf[t.traces[k].target] == u.prefix :: InSync(t, k))
      && (forall l: StatusLabel | l.prefix != u.prefix ::
            && (l in t.matchStatus <==> l in s.matchStatus)
            && (l in s.matchStatus ==> t.matchStatus[l] == s.matchStatus[l]))
  {
    var known := s.(bgpPaths := s.bgpPaths[u.prefix := Announced(u)]);
    var keys := Covered(known, u.prefix);
    var t := AfterBgpUpdate(s, u);
    forall k | Correlatable(t, k) && t.prefixOf[t.traces[k].target] == u.prefix ensures InSync(t, k) {
      RecordAllWrites(known, u.prefix, keys, k);
    }
    forall l: StatusLabel | l.prefix != u.prefix
      ensures l in t.matchStatus <==> l in s.matchStatus
      ensures l in s.matchStatus ==> t.matchStatus[l] == s.matchStatus[l]
    {
      RecordAllKeeps(known, u.prefix, keys, l);
    }
  }

  lemma AnnouncementKeepsSync(s: EngineState, u: BgpUpdate)
    requires WellFormed(s) && Synced(s) && u.eventType != "withdrawal"
    ensures Synced(AfterBgpUpdate(s, u))
  {
    var t := AfterBgpUpdate(s, u);
    AnnouncementSyncs(s, u);
    forall k | Correlatable(t, k) ensures InSync(t, k) {
      var p := t.prefixOf[t.traces[k].target];
      if p != u.prefix {
        assert Correlatable(s, k) && InSync(s, k);
        assert LabelAt(s, p, k).prefix != u.prefix;
      }
    }
  }

  lemma TracerouteKeepsSync(s: EngineState, trace: TracePath)
    requires WellFormed(s) && Synced(s)
    ensures Synced(AfterTraceroute(s, trace))
  {
    var k0 := TraceKey(trace.target, trace.pop);
    var known := s.(traces := s.traces[k0 := trace]);
    var t := AfterTraceroute(s, trace);
    forall k | Correlatable(t, k) ensures InSync(t, k) {
      var p := t.prefixOf[t.traces[k].target];
      if k == k0 {
        RecordAllWrites(known, p, {k0}, k0);
      } else {
        assert Correlatable(s, k) && InSync(s, k);
        if trace.target in s.prefixOf {
          var l := LabelAt(known, p, k);
          assert l != LabelAt(known, s.prefixOf[trace.target], k0);
          RecordAllKeeps(known, s.prefixOf[trace.target], {k0}, l);
        }
      }
    }
  }

  /** A registration keeps the agreement exactly when it uncovers no stale entry. */
  lemma {:induction false} RegistrationKeepsSync(s: EngineState, e: Event)
    requires WellFormed(s) && Synced(s) && e.Register?
    ensures Synced(Next(s, e)) <==> !Uncovers(s, e)
  {
    var t := Next(s, e);
    if Uncovers(s, e) {
      var k :| k in s.traces && s.traces[k].target == e.target && Stale(s, e.prefix, k);
      assert Correlatable(t, k) && !InSync(t, k);
    } else {
      forall k | Correlatable(t, k) ensures InSync(t, k) {
        if s.traces[k].target != e.target || (e.target in s.prefixOf && s.prefixOf[e.target] == e.prefix) {
          assert Correlatable(s, k) && InSync(s, k);
        } else {
          assert !Stale(s, e.prefix, k);
        }
      }
    }
  }

  /** Every event keeps the agreement, except a registration that uncovers a stale entry. */
  lemma StepKeepsSync(s: EngineState, e: Event)
    requires WellFormed(s) && Synced(s)
    ensures Synced(Next(s, e)) <==> !Uncovers(s, e)
  {
    var t := Next(s, e);
    match e
    case Bgp(u) =>
      if u.eventType == "withdrawal" {
        forall k | Correlatable(t, k) ensures InSync(t, k) { assert Correlatable(s, k) && InSync(s, k); }
      } else {
        AnnouncementKeepsSync(s, u);
      }
    case Traceroute(trace) => TracerouteKeepsSync(s, trace);
    case Register(_, _) => RegistrationKeepsSync(s, e);
  }

  // ---------- Exactness over runs ----------

  ghost predicate Registered(run: Run, target: string, prefix: string) {
    Register(target, prefix) in run
  }

  /** Mappings and gauge entries only exist for registered pairs. */
  ghost predicate PairsRegistered(run: Run, s: EngineState) {
    && (forall t | t in s.prefixOf :: Registered(run, t, s.prefixOf[t]))
    && (forall l | l in s.matchStatus :: Registered(run, l.target, l.prefix))
  }

  lemma {:induction false} NewLabelsAreCovered(s: EngineState, p: string, keys: set<string>, l: StatusLabel)
    requires WellFormed(s) && keys <= s.traces.Keys
    requires l in RecordAll(s, p, keys).matchStatus && l !in s.matchStatus
    ensures p in s.bgpPaths && l.prefix == p && exists k :: k in keys && s.traces[k].target == l.target
  {
    if p !in s.bgpPaths || forall k | k in keys :: l != LabelAt(s, p, k) {
      RecordAllKeeps(s, p, keys, l);
      assert false;
    }
  }

  lemma NewLabelRegistered(front: Run, s: EngineState, e: Event, l: StatusLabel)
    requires WellFormed(s) && PairsRegistered(front, s)
    requires l in Next(s, e).matchStatus
    ensures Registered(front, l.target, l.prefix)
  {
    if l !in s.matchStatus {
      match e
      case Bgp(u) => AnnouncedLabelRegistered(front, s, u, l);
      case Traceroute(trace) => ProbedLabelRegistered(front, s, trace, l);
    }
  }

  lemma AnnouncedLabelRegistered(front: Run, s: EngineState, u: BgpUpdate, l: StatusLabel)
    requires WellFormed(s) && PairsRegistered(front, s)
    requires l in AfterBgpUpdate(s, u).matchStatus && l !in s.matchStatus
    ensures Registered(front, l.target, l.prefix)
  {
    var known := s.(bgpPaths := s.bgpPaths[u.prefix := Announced(u)]);
    NewLabelsAreCovered(known, u.prefix, Covered(known, u.prefix), l);
  }

  lemma ProbedLabelRegistered(front: Run, s: EngineState, trace: TracePath, l: StatusLabel)
    requires WellFormed(s) && PairsRegistered(front, s)
    requires l in AfterTraceroute(s, trace).matchStatus && l !in s.matchStatus
    ensures Registered(front, l.target, l.prefix)
  {
    var k := TraceKey(trace.target, trace.pop);
    NewLabelsAreCovered(s.(traces := s.traces[k := trace]), s.prefixOf[trace.target], {k}, l);
  }

  lemma {:induction false} GaugeOnlyForRegistered(run: Run)
    ensures PairsRegistered(run, After(run))
  {
    if run != [] {
      var front, e := run[..|run| - 1], run[|run| - 1];
      var s, t := After(front), After(run);
      GaugeOnlyForRegistered(front);
      assert forall x | x in front :: x in run;
      forall l | l in t.matchStatus ensures Registered(run, l.target, l.prefix) {
        NewLabelRegistered(front, s, e, l);
      }
      forall x | x in t.prefixOf ensures Registered(run, x, t.prefixOf[x]) {
        if e.Register? && e.target == x {
          assert run[|run| - 1] == Register(x, t.prefixOf[x]);
        } else {
          assert Registered(front, x, s.prefixOf[x]);
        }
      }
    }
  }

  /** No target goes back to a prefix it was moved away from. */
  ghost predicate NoReturns(run: Run) {
    forall i | 0 <= i < |run| && run[i].Register? ::
      var s, e := After(run[..i]), run[i];
      (e.target in s.prefixOf && s.prefixOf[e.target] == e.prefix) || !Registered(run[..i], e.target, e.prefix)
  }

  /** The first registration of a pair, if late, uncovers a missing entry. */
  lemma FirstLateUncovers(run: Run, e: Event)
    requires Late(After(run), e) && !Registered(run, e.target, e.prefix)
    ensures Uncovers(After(run), e)
  {
    var s := After(run);
    GaugeOnlyForRegistered(run);
    var k :| k in s.traces && s.traces[k].target == e.target;
    assert LabelAt(s, e.prefix, k) !in s.matchStatus;
    assert Stale(s, e.prefix, k);
  }

  ghost predicate SyncedThroughout(run: Run) {
    forall i | 0 <= i <= |run| :: Synced(After(run[..i]))
  }

  ghost predicate NeverUncovers(run: Run) {
    forall i | 0 <= i < |run| :: !Uncovers(After(run[..i]), run[i])
  }

  lemma AfterSnoc(front: Run, e: Event)
    ensures After(front + [e]) == Next(After(front), e)
  {
    assert (front + [e])[..|front|] == front;
  }

  lemma SyncedThroughoutSnoc(front: Run, e: Event)
    ensures SyncedThroughout(front + [e]) <==> SyncedThroughout(front) && Synced(After(front + [e]))
  {
    var run := front + [e];
    forall i | 0 <= i <= |front| ensures run[..i] == front[..i] {
    }
    assert run[..|run|] == run;
    if SyncedThroughout(run) {
      forall i | 0 <= i <= |front| ensures Synced(After(front[..i])) { assert Synced(After(run[..i])); }
    }
  }

  lemma NeverUncoversSnoc(front: Run, e: Event)
    ensures NeverUncovers(front + [e]) <==> NeverUncovers(front) && !Uncovers(After(front), e)
  {
    var run := front + [e];
    forall i | 0 <= i <= |front| ensures run[..i] == front[..i] {
    }
    assert front[..|front|] == front && run[|front|] == e;
    if NeverUncovers(run) {
      forall i | 0 <= i < |front| ensures !Uncovers(After(front[..i]), front[i]) {
        assert !Uncovers(After(run[..i]), run[i]);
      }
      assert !Uncovers(After(run[..|front|]), run[|front|]);
    }
  }

  lemma SyncedAtEnd(run: Run)
    requires SyncedThroughout(run)
    ensures Synced(After(run))
  {
    assert run[..|run|] == run;
  }

  /** In every run the gauge agrees with a recomputation after every event exactly when
      no registration of the run uncovers a stale entry. */
  lemma {:induction false} IncrementalEqualsRecompute(run: Run)
    ensures SyncedThroughout(run) <==> NeverUncovers(run)
  {
    if run == [] {
      assert run[..0] == [];
    } else {
      var front, e := run[..|run| - 1], run[|run| - 1];
      assert run == front + [e];
      IncrementalEqualsRecompute(front);
      SyncedThroughoutSnoc(front, e);
      NeverUncoversSnoc(front, e);
      if SyncedThroughout(front) {
        SyncedAtEnd(front);
        StepKeepsSync(After(front), e);
      }
    }
  }

  ghost predicate NeverLate(run: Run) {
    forall i | 0 <= i < |run| :: !Late(After(run[..i]), run[i])
  }

  /** If no target goes back to a prefix it was moved away from, in particular if every
      target is registered once, that is: exactly when no registration is late. */
  lemma {:induction false} TimelyRegistrationsSuffice(run: Run)
    requires NoReturns(run)
    ensures SyncedThroughout(run) <==> NeverLate(run)
  {
    IncrementalEqualsRecompute(run);
    forall i | 0 <= i < |run| ensures Late(After(run[..i]), run[i]) <==> Uncovers(After(run[..i]), run[i]) {
      if Late(After(run[..i]), run[i]) {
        FirstLateUncovers(run[..i], run[i]);
      }
    }
  }

  /** A concrete run in which the property fails: trace and announcement first, the
      registration after them. */
  lemma LateRegistrationExample(u: BgpUpdate, trace: TracePath)
    requires u.eventType != "withdrawal"
    ensures var run := [Traceroute(trace), Bgp(u), Register(trace.target, u.prefix)];
      NoReturns(run) && !Synced(After(run))
  {
    var e := Register(trace.target, u.prefix);
    var r1, r2 := [Traceroute(trace)], [Traceroute(trace), Bgp(u)];
    var run := [Traceroute(trace), Bgp(u), e];
    assert [] + [Traceroute(trace)] == r1 && r1 + [Bgp(u)] == r2 && r2 + [e] == run && run[..2] == r2;
    AfterSnoc([], Traceroute(trace));
    AfterSnoc(r1, Bgp(u));
    AfterSnoc(r2, e);
    BothKnownThenLate(After(r1), u, trace);
    FirstLateUncovers(r2, e);
    StepKeepsSync(INITIAL, Traceroute(trace));
    StepKeepsSync(After(r1), Bgp(u));
    StepKeepsSync(After(r2), e);
  }

  lemma BothKnownThenLate(s: EngineState, u: BgpUpdate, trace: TracePath)
    requires u.eventType != "withdrawal" && s == AfterTraceroute(INITIAL, trace)
    ensures Late(Next(s, Bgp(u)), Register(trace.target, u.prefix))
  {
    var k := TraceKey(trace.target, trace.pop);
    assert k in Next(s, Bgp(u)).traces && Next(s, Bgp(u)).traces[k] == trace;
  }
}
