/** What the raw elements fed to the joined system leave in the engine. */
module EngineContents {
  import opened Analyzer
  import opened AsPaths
  import opened AsPathParser
  import opened Correlation
  import opened EndToEnd
  import opened Options
  import opened StreamRuns

  /** One covered element, with a publisher: what is published and what the engine's
      path table becomes. */
  lemma FeedMeans(config: Config, run: Run, e: Element)
    requires config.publishing && IsCovered(config, e)
    ensures var s, t := AfterRun(config, run), AfterRun(config, run + [Feed(e)]);
      var path := Parsed(e.asPathText);
      var origin := if path == [] then 0 else Last(path);
      && (e.kind == "W" ==>
            && t.analyzer.published == s.analyzer.published + [BgpUpdate(e.prefix, 0, [], e.peer, e.collector, "withdrawal")]
            && t.engine == s.engine.(bgpPaths := s.engine.bgpPaths - {e.prefix}))
      && (e.kind == "A" ==>
            && t.analyzer.published == s.analyzer.published
                 + [BgpUpdate(e.prefix, origin, path, e.peer, e.collector, "announcement")]
            && t.engine.bgpPaths == s.engine.bgpPaths[e.prefix := BgpPath(e.prefix, origin, path, e.peer, e.collector)]
            && t.engine.traces == s.engine.traces && t.engine.prefixOf == s.engine.prefixOf)
  {
    assert (run + [Feed(e)])[..|run|] == run;
    EventMeans(config, e);
    var s := AfterRun(config, run).analyzer;
    if EventOf(config, e).Some? {
      var update := UpdateFor(EventOf(config, e).value, e.collector);
      assert (s.published + [update])[|s.published|..] == [update];
    }
  }

  /** Everything else leaves the engine's paths and the published messages alone. */
  lemma OthersKeepPaths(config: Config, run: Run, event: SystemEvent)
    requires event.Feed? ==>
      !config.publishing || !IsCovered(config, event.element) || event.element.kind !in {"A", "W"}
    ensures var s, t := AfterRun(config, run), AfterRun(config, run + [event]);
      t.engine.bgpPaths == s.engine.bgpPaths && t.analyzer.published == s.analyzer.published
  {
    assert (run + [event])[..|run|] == run;
    if event.Feed? {
      EventMeans(config, event.element);
      var s := AfterRun(config, run).analyzer;
      assert s.published + [] == s.published;
      assert AfterElement(config, s, event.element).published == s.published;
    }
  }

  /** In every interleaving the engine has a path for a prefix exactly when the latest
      covered element on it, from any peer, is an announcement: the path written there. */
  lemma {:induction false} EngineHoldsLatestElement(config: Config, run: Run, prefix: string)
    requires config.publishing
    ensures var paths := AfterRun(config, run).engine.bgpPaths;
      var latest := Latest(config, StreamOf(run), prefix, None);
      && (prefix in paths <==> latest.Some? && latest.value.kind == "A")
      && (prefix in paths ==>
            var path := Parsed(latest.value.asPathText);
            paths[prefix] == BgpPath(prefix, if path == [] then 0 else Last(path), path, latest.value.peer, latest.value.collector))
  {
    if run != [] {
      var front, event := run[..|run| - 1], run[|run| - 1];
      assert run == front + [event];
      EngineHoldsLatestElement(config, front, prefix);
      StreamStep(front, event);
      if event.Feed? {
        LatestStep(config, StreamOf(front), event.element, prefix);
      }
      if event.Feed? && IsCovered(config, event.element) && event.element.kind in {"A", "W"} {
        FeedMeans(config, front, event.element);
      } else {
        OthersKeepPaths(config, front, event);
      }
    }
  }

  lemma LatestStep(config: Config, stream: Stream, e: Element, prefix: string)
    ensures Latest(config, stream + [e], prefix, None)
      == if Concerns(config, e, prefix, None) then Some(e) else Latest(config, stream, prefix, None)
  {
    assert (stream + [e])[..|stream|] == stream;
  }

  /** Without a publisher the engine never learns a path, so it evaluates nothing. */
  lemma {:induction false} SilentWithoutPublisher(config: Config, run: Run)
    requires !config.publishing
    ensures var s := AfterRun(config, run);
      && s.analyzer.published == [] && s.engine.bgpPaths == map[]
      && s.engine.matchStatus == map[] && s.engine.evaluations == map[]
  {
    if run != [] {
      var front, event := run[..|run| - 1], run[|run| - 1];
      assert run == front + [event];
      SilentWithoutPublisher(config, front);
      OthersKeepPaths(config, front, event);
      if event.Feed? {
        var a := AfterElement(config, AfterRun(config, front).analyzer, event.element);
        assert a.published[0..] == [];
      }
    }
  }
}
