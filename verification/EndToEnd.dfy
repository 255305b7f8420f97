/** The analyzer and the correlation engine as one system, assuming that published
    updates arrive decoded, in order and without loss. */
module EndToEnd {
  import opened AsPaths
  import opened AsPathParser
  import opened Analyzer
  import opened Correlation
  import CorrelationRuns
  import opened Options
  import opened RouteTable
  import opened Traceroute

  datatype SystemEvent =
    | Feed(element: Element)
    | Probed(trace: TracePath)
    | Map(target: string, prefix: string)

  type Run = seq<SystemEvent>

  datatype SystemState = SystemState(analyzer: AnalyzerState, engine: EngineState)

  ghost function Step(config: Config, s: SystemState, e: SystemEvent): (t: SystemState)
    requires WellFormed(s.engine)
    ensures WellFormed(t.engine)
  {
    match e
    case Feed(element) =>
      var a := AfterElement(config, s.analyzer, element);
      var news := a.published[|s.analyzer.published|..];
      SystemState(a, if news == [] then s.engine else AfterBgpUpdate(s.engine, news[0]))
    case Probed(trace) => s.(engine := AfterTraceroute(s.engine, trace))
    case Map(target, prefix) => s.(engine := AfterRegister(s.engine, target, prefix))
  }

  ghost function AfterRun(config: Config, run: Run): (s: SystemState)
    ensures WellFormed(s.engine)
  {
    if run == [] then SystemState(FRESH, INITIAL)
    else Step(config, AfterRun(config, run[..|run| - 1]), run[|run| - 1])
  }

  function StreamOf(run: Run): Stream {
    if run == [] then []
    else
      StreamOf(run[..|run| - 1])
      + match run[|run| - 1] case Feed(element) => [element] case Probed(_) => [] case Map(_, _) => []
  }

  /** The route events of a run. */
  function HistoryOf(config: Config, run: Run): History {
    EventsOf(config, StreamOf(run))
  }

  /** The latest event on a prefix, from any peer. */
  function LastOn(history: History, prefix: string): Option<RouteEvent> {
    if history == [] then None
    else
      var e := history[|history| - 1];
      if e.prefix == prefix then Some(e) else LastOn(history[..|history| - 1], prefix)
  }

  /** What the engine should hold for a prefix, given the latest event on it. */
  ghost predicate Shows(engine: EngineState, prefix: string, last: Option<RouteEvent>) {
    match last
    case Some(Announce(_, peer, route)) =>
      && prefix in engine.bgpPaths
      && engine.bgpPaths[prefix].peerAsn == peer
      && engine.bgpPaths[prefix].originAsn == route.originAsn
      && engine.bgpPaths[prefix].asPath == route.asPath
    case Some(Withdraw(_, _)) => prefix !in engine.bgpPaths
    case None => prefix !in engine.bgpPaths
  }

  lemma {:induction false} AnalyzerFollowsStream(config: Config, run: Run)
    ensures AfterRun(config, run).analyzer == AfterStream(config, StreamOf(run))
  {
    if run != [] {
      var front, e := run[..|run| - 1], run[|run| - 1];
      AnalyzerFollowsStream(config, front);
      assert run == front + [e];
      StreamStep(front, e);
      if e.Feed? {
        assert (StreamOf(front) + [e.element])[..|StreamOf(front)|] == StreamOf(front);
      }
    }
  }

  lemma StreamStep(front: Run, e: SystemEvent)
    ensures StreamOf(front + [e]) == if e.Feed? then StreamOf(front) + [e.element] else StreamOf(front)
  {
    assert (front + [e])[..|front|] == front;
    assert StreamOf(front) + [] == StreamOf(front);
  }

  lemma EventsStep(config: Config, stream: Stream, element: Element)
    ensures EventsOf(config, stream + [element]) ==
      match EventOf(config, element)
      case None => EventsOf(config, stream)
      case Some(event) => EventsOf(config, stream) + [event]
  {
    assert (stream + [element])[..|stream|] == stream;
    assert EventsOf(config, stream) + [] == EventsOf(config, stream);
  }

  lemma HistoryStep(config: Config, front: Run, e: SystemEvent)
    ensures HistoryOf(config, front + [e]) ==
      if e.Feed? && EventOf(config, e.element).Some?
      then HistoryOf(config, front) + [EventOf(config, e.element).value] else HistoryOf(config, front)
  {
    StreamStep(front, e);
    if e.Feed? {
      EventsStep(config, StreamOf(front), e.element);
    }
  }

  lemma LastOnStep(history: History, e: RouteEvent, prefix: string)
    ensures LastOn(history + [e], prefix) == if e.prefix == prefix then Some(e) else LastOn(history, prefix)
  {
    assert (history + [e])[..|history|] == history;
  }

  lemma FeedShows(config: Config, s: SystemState, element: Element, event: RouteEvent, prefix: string, last: Option<RouteEvent>)
    requires config.publishing && WellFormed(s.engine)
    requires EventOf(config, element) == Some(event) && Shows(s.engine, prefix, last)
    ensures Shows(Step(config, s, Feed(element)).engine, prefix, if event.prefix == prefix then Some(event) else last)
  {
    var a := AfterElement(config, s.analyzer, element);
    var update := UpdateFor(event, element.collector);
    assert a.published == s.analyzer.published + [update];
    assert a.published[|s.analyzer.published|..] == [update];
  }

  lemma QuietStepShows(config: Config, s: SystemState, e: SystemEvent, prefix: string, last: Option<RouteEvent>)
    requires WellFormed(s.engine) && Shows(s.engine, prefix, last)
    requires e.Feed? ==> EventOf(config, e.element).None?
    ensures Shows(Step(config, s, e).engine, prefix, last)
  {
    if e.Feed? {
      assert AfterElement(config, s.analyzer, e.element).published == s.analyzer.published;
    }
  }

  /** Whatever peers, probes and registrations do in between, the engine's entry for a
      prefix is the latest announcement on it, unless a withdrawal came later. */
  lemma {:induction false} EngineShowsLatest(config: Config, run: Run, prefix: string)
    requires config.publishing
    ensures Shows(AfterRun(config, run).engine, prefix, LastOn(HistoryOf(config, run), prefix))
  {
    if run != [] {
      var front, e := run[..|run| - 1], run[|run| - 1];
      assert run == front + [e];
      EngineShowsLatest(config, front, prefix);
      HistoryStep(config, front, e);
      var history, s := HistoryOf(config, front), AfterRun(config, front);
      var last := LastOn(history, prefix);
      if e.Feed? && EventOf(config, e.element).Some? {
        LastOnStep(history, EventOf(config, e.element).value, prefix);
        FeedShows(config, s, e.element, EventOf(config, e.element).value, prefix, last);
      } else {
        QuietStepShows(config, s, e, prefix, last);
      }
    }
  }

  lemma {:induction false} LatestAnnouncementIsLive(history: History, prefix: string)
    ensures var last := LastOn(history, prefix);
      && (last.Some? ==> last.value.prefix == prefix)
      && (last.Some? && last.value.Announce? ==> LiveRoute(history, prefix, last.value.peer) == Some(last.value.route))
      && (last.None? ==> forall peer :: LiveRoute(history, prefix, peer) == None)
  {
    if history != [] {
      LatestAnnouncementIsLive(history[..|history| - 1], prefix);
    }
  }

  lemma TableHoldsHistory(config: Config, run: Run, prefix: string, peer: Asn)
    ensures Lookup(AfterRun(config, run).analyzer.table.announcements, (prefix, peer))
         == LiveRoute(HistoryOf(config, run), prefix, peer)
  {
    AnalyzerFollowsStream(config, run);
    TableFollowsEvents(config, StreamOf(run));
    TableHoldsLiveRoutes(HistoryOf(config, run), prefix, peer);
  }

  lemma SomePeerHeld(config: Config, run: Run, prefix: string)
    ensures (exists peer :: (prefix, peer) in AfterRun(config, run).analyzer.table.announcements)
       <==> (exists peer :: LiveRoute(HistoryOf(config, run), prefix, peer).Some?)
  {
    if exists peer :: (prefix, peer) in AfterRun(config, run).analyzer.table.announcements {
      var peer :| (prefix, peer) in AfterRun(config, run).analyzer.table.announcements;
      TableHoldsHistory(config, run, prefix, peer);
    }
    if exists peer :: LiveRoute(HistoryOf(config, run), prefix, peer).Some? {
      var peer :| LiveRoute(HistoryOf(config, run), prefix, peer).Some?;
      TableHoldsHistory(config, run, prefix, peer);
      assert (prefix, peer) in AfterRun(config, run).analyzer.table.announcements;
    }
  }

  /** Simulation: in every reachable state each path the engine holds is the path of
      the live announcement, in the analyzer's table, of the peer the engine names. */
  lemma {:induction false} EnginePathsAreLive(config: Config, run: Run, prefix: string)
    requires config.publishing
    ensures var s := AfterRun(config, run);
      prefix in s.engine.bgpPaths ==>
        var info := s.engine.bgpPaths[prefix];
        Lookup(s.analyzer.table.announcements, (prefix, info.peerAsn)) == Some(Route(info.originAsn, info.asPath))
  {
    var s, history := AfterRun(config, run), HistoryOf(config, run);
    EngineShowsLatest(config, run, prefix);
    LatestAnnouncementIsLive(history, prefix);
    if prefix in s.engine.bgpPaths {
      TableHoldsHistory(config, run, prefix, s.engine.bgpPaths[prefix].peerAsn);
    }
  }

  /** The converse fails exactly when the latest event on the prefix is a withdrawal
      and another peer still announces it: one withdrawal deletes the whole prefix. */
  lemma {:induction false} EngineMissesLiveRoute(config: Config, run: Run, prefix: string)
    requires config.publishing
    ensures var s, history := AfterRun(config, run), HistoryOf(config, run);
      (prefix !in s.engine.bgpPaths && exists peer :: (prefix, peer) in s.analyzer.table.announcements)
      <==> (LastOn(history, prefix).Some? && LastOn(history, prefix).value.Withdraw?
            && exists peer :: LiveRoute(history, prefix, peer).Some?)
  {
    EngineShowsLatest(config, run, prefix);
    LatestAnnouncementIsLive(HistoryOf(config, run), prefix);
    SomePeerHeld(config, run, prefix);
  }

  /** The engine events of a run. */
  ghost function EngineEvents(config: Config, run: Run): CorrelationRuns.Run {
    if run == [] then []
    else
      EngineEvents(config, run[..|run| - 1])
      + match run[|run| - 1]
        case Feed(e) =>
          if config.publishing && EventOf(config, e).Some?
          then [CorrelationRuns.Bgp(UpdateFor(EventOf(config, e).value, e.collector))] else []
        case Probed(trace) => [CorrelationRuns.Traceroute(trace)]
        case Map(target, prefix) => [CorrelationRuns.Register(target, prefix)]
  }

  /** Every state the engine reaches in the system is one it reaches on its own, so the
      theorems about its runs hold in the system. */
  lemma {:induction false} EngineRunsAlone(config: Config, run: Run)
    ensures AfterRun(config, run).engine == CorrelationRuns.After(EngineEvents(config, run))
  {
    if run != [] {
      var front, e := run[..|run| - 1], run[|run| - 1];
      EngineRunsAlone(config, front);
      var events, all := EngineEvents(config, front), EngineEvents(config, run);
      assert events + [] == events;
      assert |all| > |events| ==> all[..|all| - 1] == events;
      if e.Feed? {
        var s := AfterRun(config, front).analyzer;
        var a := AfterElement(config, s, e.element);
        if config.publishing && EventOf(config, e.element).Some? {
          assert a.published[|s.published|..] == [UpdateFor(EventOf(config, e.element).value, e.element.collector)];
        } else {
          assert a.published[|s.published|..] == [];
        }
      }
    }
  }

  // ---------- Honest paths ----------

  /** The hops list the given ASes in order, each on one or more consecutive hops, with
      unknown hops anywhere. */
  ghost predicate Observes(hops: seq<Hop>, route: AsPath) {
    Stretches(KnownAsns(hops), route)
  }

  /** The route passes from one AS to another. */
  ghost predicate Crosses(route: AsPath) {
    exists j | 0 < j < |route| :: route[j - 1] != route[j]
  }

  /** A path written with any prepending and spacing, and a trace observing the part
      `seen` of its route `hidden + seen`: the verdict is exact precisely when the target
      was reached and that part crosses from one AS to another; otherwise insufficient. */
  lemma {:induction false} HonestPathVerdict(text: string, asns: AsPath, hidden: AsPath, seen: AsPath,
                                             hops: seq<Hop>, reached: bool)
    requires Writes(text, asns) && Stretches(asns, hidden + seen) && Observes(hops, seen)
    ensures Classify(Parsed(text), RunCompress(KnownAsns(hops)), reached)
      == if reached && Crosses(seen) then Exact else Insufficient
  {
    PrependingInvisible(text, asns, text, asns, hidden + seen);
    StretchesSameCompression(KnownAsns(hops), seen);
    RouteVerdict(Parsed(text), RunCompress(KnownAsns(hops)), hidden, seen, reached);
  }

  lemma RouteVerdict(bgp: AsPath, trace: AsPath, hidden: AsPath, seen: AsPath, reached: bool)
    requires bgp == RunCompress(hidden + seen) && trace == RunCompress(seen)
    ensures Classify(bgp, trace, reached) == if reached && Crosses(seen) then Exact else Insufficient
  {
    CompressedLength(seen);
    CompressSuffix(hidden, seen);
    SuffixClassified(bgp, trace, reached, Crosses(seen));
  }

  lemma SuffixClassified(bgp: AsPath, trace: AsPath, reached: bool, crosses: bool)
    requires |trace| <= |bgp| && bgp[|bgp| - |trace|..] == trace && (crosses <==> |trace| >= 2)
    ensures Classify(bgp, trace, reached) == if reached && crosses then Exact else Insufficient
  {
    assert SegmentAt(trace, bgp, |bgp| - |trace|);
    if trace != [] {
      assert Last(trace) == bgp[|bgp| - |trace|..][|trace| - 1];
    }
  }

  /** After any run in which the latest event on the target's prefix is an announcement,
      probing the target writes the verdict on that announcement to its gauge. */
  lemma {:induction false} ProbeGaugesVerdict(config: Config, run: Run, trace: TracePath, prefix: string, event: RouteEvent)
    requires config.publishing && event.Announce? && LastOn(HistoryOf(config, run), prefix) == Some(event)
    requires trace.target in AfterRun(config, run).engine.prefixOf
    requires AfterRun(config, run).engine.prefixOf[trace.target] == prefix
    ensures var gauge := AfterRun(config, run + [Probed(trace)]).engine.matchStatus;
      var metric := StatusLabel(prefix, trace.pop, trace.target);
      metric in gauge && gauge[metric] == StatusValue(Classify(event.route.asPath, trace.asPath, trace.reached))
  {
    var s := AfterRun(config, run).engine;
    EngineShowsLatest(config, run, prefix);
    assert (run + [Probed(trace)])[..|run|] == run;
    var k := TraceKey(trace.target, trace.pop);
    RecordAllWrites(s.(traces := s.traces[k := trace]), prefix, {k}, k);
  }

  /** The same for an honest path: the gauge shows exact if and only if the target was
      reached and the observed suffix crosses an AS border. */
  lemma {:induction false} HonestPathIsGauged(config: Config, run: Run, trace: TracePath, prefix: string, peer: Asn,
                                              text: string, asns: AsPath, hidden: AsPath, seen: AsPath, hops: seq<Hop>)
    requires config.publishing && LastOn(HistoryOf(config, run), prefix) == Some(Announce(prefix, peer, RouteOf(text)))
    requires trace.target in AfterRun(config, run).engine.prefixOf
    requires AfterRun(config, run).engine.prefixOf[trace.target] == prefix
    requires Writes(text, asns) && Stretches(asns, hidden + seen) && Observes(hops, seen)
    requires trace.asPath == RunCompress(KnownAsns(hops))
    ensures var gauge := AfterRun(config, run + [Probed(trace)]).engine.matchStatus;
      var metric := StatusLabel(prefix, trace.pop, trace.target);
      metric in gauge && gauge[metric] == if trace.reached && Crosses(seen) then 1.0 else -1.0
  {
    ProbeGaugesVerdict(config, run, trace, prefix, Announce(prefix, peer, RouteOf(text)));
    HonestPathVerdict(text, asns, hidden, seen, hops, trace.reached);
  }

  /** In particular after any run that ends by mapping the target and announcing the
      written path for its prefix. */
  lemma {:induction false} AnnounceThenProbe(config: Config, before: Run, e: Element, trace: TracePath,
                                             asns: AsPath, hidden: AsPath, seen: AsPath, hops: seq<Hop>)
    requires config.publishing && e.kind == "A" && Matched(config, e).Some?
    requires Writes(e.asPathText, asns) && Stretches(asns, hidden + seen) && Observes(hops, seen)
    requires trace.asPath == RunCompress(KnownAsns(hops))
    ensures var run := before + [Map(trace.target, e.prefix)] + [Feed(e)];
      var gauge := AfterRun(config, run + [Probed(trace)]).engine.matchStatus;
      var metric := StatusLabel(e.prefix, trace.pop, trace.target);
      metric in gauge && gauge[metric] == if trace.reached && Crosses(seen) then 1.0 else -1.0
  {
    var mapped := before + [Map(trace.target, e.prefix)];
    var run := mapped + [Feed(e)];
    assert mapped[..|before|] == before && run[..|mapped|] == mapped;
    var event := EventOf(config, e).value;
    HistoryStep(config, mapped, Feed(e));
    LastOnStep(HistoryOf(config, mapped), event, e.prefix);
    FeedKeepsMapping(config, AfterRun(config, mapped), e);
    HonestPathIsGauged(config, run, trace, e.prefix, e.peer, e.asPathText, asns, hidden, seen, hops);
  }

  lemma FeedKeepsMapping(config: Config, s: SystemState, e: Element)
    requires WellFormed(s.engine)
    ensures Step(config, s, Feed(e)).engine.prefixOf == s.engine.prefixOf
  {
  }
}
