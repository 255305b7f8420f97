/** The metrics processor's handling of traceroute results: counting AS path changes per
    target and vantage point, and feeding the correlation engine. */
module PathChanges {
  import opened AsPaths
  import opened AsPathParser
  import opened Text
  import opened Correlation

  datatype Pair = Pair(target: string, pop: string)

  datatype Report = Report(pair: Pair, asPath: AsPath)

  datatype TrackerState = TrackerState(lastPaths: map<string, string>, changes: map<Pair, nat>)

  const NO_PATHS := TrackerState(map[], map[])

  function Key(pair: Pair): string {
    TraceKey(pair.target, pair.pop)
  }

  function Parts(path: AsPath): seq<string> {
    seq(|path|, i requires 0 <= i < |path| => PrintInt(path[i]))
  }

  function PathText(path: AsPath): string {
    Join(Parts(path), ' ')
  }

  method AsPathString(path: AsPath) returns (text: string)
    ensures text == PathText(path)
  {
    if |path| == 0 {
      return "";
    }
    var parts := new string[|path|];
    for i := 0 to |path|
      invariant parts[..i] == Parts(path)[..i]
    {
      parts[i] := PrintInt(path[i]);
    }
    assert parts[..] == parts[..|path|] && Parts(path) == Parts(path)[..|path|];
    text := Join(parts[..], ' ');
  }

  /** The text of a path identifies it, and is empty only for the empty path. */
  lemma PathTextInjective(a: AsPath, b: AsPath)
    ensures PathText(a) == PathText(b) <==> a == b
    ensures PathText(a) == "" <==> a == []
  {
    PathTextNonEmpty(a);
    PathTextNonEmpty(b);
    if PathText(a) == PathText(b) && a != [] {
      PartsRecovered(a);
      PartsRecovered(b);
      forall i | 0 <= i < |a| ensures |a| == |b| && a[i] == b[i] {
        assert |Parts(a)| == |Parts(b)|;
        assert Parts(a)[i] == Parts(b)[i];
        PrintIntInjective(a[i], b[i]);
      }
      assert |Parts(a)| == |Parts(b)|;
    }
  }

  lemma PathTextNonEmpty(a: AsPath)
    ensures PathText(a) == "" <==> a == []
  {
    if a != [] {
      PrintIntNonEmpty(a[0]);
      assert Parts(a)[0] == PrintInt(a[0]);
    }
  }

  lemma PartsRecovered(a: AsPath)
    requires a != []
    ensures Split(PathText(a), ' ') == Parts(a)
  {
    forall i | 0 <= i < |a| ensures ' ' !in Parts(a)[i] {
      if ' ' in PrintInt(a[i]) {
        PrintIntChars(a[i], ' ');
      }
    }
    SplitJoin(Parts(a), ' ');
  }

  function AfterReport(s: TrackerState, r: Report): TrackerState {
    var key, current := Key(r.pair), PathText(r.asPath);
    TrackerState(
      if current != "" then s.lastPaths[key := current] else s.lastPaths,
      if key in s.lastPaths && s.lastPaths[key] != current && current != "" then Inc(s.changes, r.pair) else s.changes)
  }

  class Processor {
    const correlator: Engine
    var lastAsPaths: map<string, string>
    var tracerouteChanges: map<Pair, nat>

    function Tracked(): TrackerState
      reads this
    {
      TrackerState(lastAsPaths, tracerouteChanges)
    }

    constructor (correlator: Engine)
      ensures this.correlator == correlator && Tracked() == NO_PATHS
    {
      this.correlator := correlator;
      lastAsPaths, tracerouteChanges := map[], map[];
    }

    method HandleTracerouteResult(target: string, pop: string, agent: string, asPath: AsPath,
                                  hopCount: int, reached: bool)
      requires correlator.Valid()
      modifies this, correlator
      ensures correlator.Valid()
      ensures Tracked() == AfterReport(old(Tracked()), Report(Pair(target, pop), asPath))
      ensures correlator.State()
        == AfterTraceroute(old(correlator.State()), TracePath(target, pop, agent, asPath, hopCount, reached))
    {
      var pathKey := target + "@" + pop;
      var currentPath := AsPathString(asPath);
      if pathKey in lastAsPaths {
        var lastPath := lastAsPaths[pathKey];
        if lastPath != currentPath && currentPath != "" {
          tracerouteChanges := Inc(tracerouteChanges, Pair(target, pop));
        }
      }
      if currentPath != "" {
        lastAsPaths := lastAsPaths[pathKey := currentPath];
      }
      correlator.HandleTracerouteResult(target, pop, agent, asPath, hopCount, reached);
    }
  }

  // ---------- Runs ----------

  type Run = seq<Report>

  function After(run: Run): TrackerState {
    if run == [] then NO_PATHS else AfterReport(After(run[..|run| - 1]), run[|run| - 1])
  }

  /** The non-empty paths reported for a pair, in order. */
  function PathsOf(run: Run, pair: Pair): seq<AsPath> {
    if run == [] then []
    else
      var r := run[|run| - 1];
      PathsOf(run[..|run| - 1], pair) + if r.pair == pair && r.asPath != [] then [r.asPath] else []
  }

  /** How many neighbours in a sequence of paths differ. */
  function AdjacentChanges(paths: seq<AsPath>): nat {
    if |paths| < 2 then 0
    else AdjacentChanges(paths[..|paths| - 1]) + if paths[|paths| - 1] != paths[|paths| - 2] then 1 else 0
  }

  /** The counter of `pair` is the number of path changes of its own reports. */
  predicate CountsExactly(run: Run, pair: Pair) {
    Count(After(run).changes, pair) == AdjacentChanges(PathsOf(run, pair))
  }

  /** No other pair reported in the run spells the same key. */
  ghost predicate OwnsKey(run: Run, pair: Pair) {
    forall r | r in run && Key(r.pair) == Key(pair) :: r.pair == pair
  }

  ghost predicate LastIsOwn(run: Run, pair: Pair) {
    var s, paths := After(run), PathsOf(run, pair);
    if paths == [] then Key(pair) !in s.lastPaths
    else Key(pair) in s.lastPaths && s.lastPaths[Key(pair)] == PathText(paths[|paths| - 1])
  }

  lemma AdjacentChangesSnoc(paths: seq<AsPath>, path: AsPath)
    ensures AdjacentChanges(paths + [path])
      == AdjacentChanges(paths) + if paths != [] && paths[|paths| - 1] != path then 1 else 0
  {
    assert (paths + [path])[..|paths|] == paths;
  }

  lemma ReportStep(front: Run, r: Report, pair: Pair)
    ensures After(front + [r]) == AfterReport(After(front), r)
    ensures PathsOf(front + [r], pair) ==
      if r.pair == pair && r.asPath != [] then PathsOf(front, pair) + [r.asPath] else PathsOf(front, pair)
  {
    assert (front + [r])[..|front|] == front;
    assert PathsOf(front, pair) + [] == PathsOf(front, pair);
  }

  lemma OwnReportCounts(front: Run, r: Report)
    requires LastIsOwn(front, r.pair) && CountsExactly(front, r.pair) && r.asPath != []
    ensures LastIsOwn(front + [r], r.pair) && CountsExactly(front + [r], r.pair)
  {
    var paths := PathsOf(front, r.pair);
    ReportStep(front, r, r.pair);
    PathTextInjective(r.asPath, []);
    AdjacentChangesSnoc(paths, r.asPath);
    if paths != [] {
      PathTextInjective(paths[|paths| - 1], r.asPath);
    }
  }

  lemma OtherReportKeeps(front: Run, r: Report, pair: Pair)
    requires LastIsOwn(front, pair) && CountsExactly(front, pair)
    requires r.asPath == [] || Key(r.pair) != Key(pair)
    ensures LastIsOwn(front + [r], pair) && CountsExactly(front + [r], pair)
  {
    ReportStep(front, r, pair);
    PathTextInjective(r.asPath, []);
  }

  lemma {:induction false} OwnKeyCountsExactly(run: Run, pair: Pair)
    requires OwnsKey(run, pair)
    ensures LastIsOwn(run, pair) && CountsExactly(run, pair)
  {
    if run != [] {
      var front, r := run[..|run| - 1], run[|run| - 1];
      assert run == front + [r] && r in run && forall x | x in front :: x in run;
      OwnKeyCountsExactly(front, pair);
      if r.pair == pair && r.asPath != [] {
        OwnReportCounts(front, r);
      } else {
        OtherReportKeeps(front, r, pair);
      }
    }
  }

  ghost predicate KeysDistinct(pairs: set<Pair>) {
    forall a, b | a in pairs && b in pairs && Key(a) == Key(b) :: a == b
  }

  ghost predicate RunOver(run: Run, pairs: set<Pair>) {
    forall r | r in run :: r.pair in pairs
  }

  /** Every run over a set of pairs counts every pair exactly precisely when no two of
      the pairs spell the same key. */
  lemma CountingIsExactIffKeysDistinct(pairs: set<Pair>)
    ensures KeysDistinct(pairs) <==> forall run, pair | RunOver(run, pairs) && pair in pairs :: CountsExactly(run, pair)
  {
    if KeysDistinct(pairs) {
      forall run, pair | RunOver(run, pairs) && pair in pairs ensures CountsExactly(run, pair) {
        OwnKeyCountsExactly(run, pair);
      }
    } else {
      var a, b :| a in pairs && b in pairs && Key(a) == Key(b) && a != b;
      var run := [Report(a, [1]), Report(b, [2])];
      CollisionMiscounts(a, b);
      assert RunOver(run, pairs);
    }
  }

  lemma CollisionMiscounts(a: Pair, b: Pair)
    requires Key(a) == Key(b) && a != b
    ensures !CountsExactly([Report(a, [1]), Report(b, [2])], b)
  {
    var r1, r2 := Report(a, [1]), Report(b, [2]);
    var run := [r1, r2];
    assert run[..1] == [r1] && [r1][..0] == [];
    PathTextInjective([1], [2]);
    PathTextInjective([2], []);
    assert After([r1]) == AfterReport(NO_PATHS, r1);
    assert PathsOf([r1], b) == [];
    assert PathsOf(run, b) == [[2]];
    assert Count(After(run).changes, b) == 1;
  }

  /** Pop names without '@' keep keys apart, whatever the targets contain. */
  lemma PlainPopsKeepKeysDistinct(pairs: set<Pair>)
    requires forall p | p in pairs :: '@' !in p.pop
    ensures KeysDistinct(pairs)
  {
    forall a, b | a in pairs && b in pairs && Key(a) == Key(b) ensures a == b {
      SameKeySamePair(a, b);
    }
  }

  lemma SameKeySamePair(a: Pair, b: Pair)
    requires '@' !in a.pop && '@' !in b.pop && Key(a) == Key(b)
    ensures a == b
  {
    SamePopLength(a, b);
    SamePopLength(b, a);
    var s, n := Key(a), |a.target|;
    assert n == |b.target|;
    assert s[..n] == a.target && s[..n] == b.target;
    assert s[n + 1..] == a.pop && s[n + 1..] == b.pop;
  }

  lemma SamePopLength(a: Pair, b: Pair)
    requires '@' !in b.pop && Key(a) == Key(b)
    ensures |a.pop| >= |b.pop|
  {
    var s := Key(a);
    assert s[|a.target|] == '@';
    forall i | |b.target| < i < |s| ensures s[i] != '@' {
      assert s[i] == b.pop[i - |b.target| - 1];
    }
  }

  // ---------- The text as the analyzer's parser reads it ----------

  /** Both components write paths alike: the analyzer's parser reads a counted path back,
      up to the repeats it drops. */
  lemma PathTextParses(path: seq<nat>)
    ensures PathText(path) == Join(Decimals(path), ' ')
    ensures Parsed(PathText(path)) == RunCompress(path)
    ensures Parsed(PathText(path)) == path <==> NoAdjacentRepeats(path)
  {
    assert Parts(path) == Decimals(path);
    PrintedIsWritten(path);
    TextAsnsOfWritten(PathText(path), path);
    CompressedOnlyIfFixed(path);
  }
}
