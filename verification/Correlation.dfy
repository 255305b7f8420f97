/** The BGP and traceroute correlation engine: tables of the latest routes, a
    verdict gauge updated incrementally, and a query that recomputes every verdict. */
module Correlation {
  import opened AsPaths

  datatype BgpPath = BgpPath(prefix: string, originAsn: Asn, asPath: AsPath, peerAsn: Asn, collector: string)

  datatype BgpUpdate = BgpUpdate(prefix: string, originAsn: Asn, asPath: AsPath, peerAsn: Asn,
                                 collector: string, eventType: string)

  datatype TracePath = TracePath(target: string, pop: string, agent: string, asPath: AsPath,
                                 hopCount: int, reached: bool)

  datatype Verdict = Exact | Partial | Mismatch | Insufficient

  datatype CorrelationResult = CorrelationResult(prefix: string, target: string, pop: string,
                                                 bgpPath: AsPath, tracePath: AsPath, verdict: Verdict)

  datatype StatusLabel = StatusLabel(prefix: string, pop: string, target: string)
  datatype PairLabel = PairLabel(prefix: string, pop: string)
  datatype MismatchLabel = MismatchLabel(prefix: string, pop: string, kind: Verdict)

  // ---------- Classification ----------

  /** The decision sequence of the evaluation, branch by branch. */
  ghost function Classify(bgp: AsPath, trace: AsPath, reached: bool): Verdict {
    if !reached || |trace| < 2 then Insufficient
    else if bgp == [] then Insufficient
    else if Last(bgp) != Last(trace) then Mismatch
    else if IsSegment(trace, bgp) then Exact
    else if CountIn(trace, Asns(bgp)) > 0 then Partial
    else Mismatch
  }

  ghost predicate Sufficient(bgp: AsPath, trace: AsPath, reached: bool) {
    reached && |trace| >= 2 && bgp != []
  }

  /** What each verdict means. The last mismatch branch is dead: a shared origin is
      itself an overlap, so a mismatch is exactly an origin change. */
  lemma {:induction false} ClassificationTheorem(bgp: AsPath, trace: AsPath, reached: bool)
    ensures var v := Classify(bgp, trace, reached);
      && (v == Insufficient <==> !Sufficient(bgp, trace, reached))
      && (Sufficient(bgp, trace, reached) ==>
           && (v == Mismatch <==> Last(bgp) != Last(trace))
           && (v == Exact <==> Last(bgp) == Last(trace) && IsSegment(trace, bgp))
           && (v == Partial <==> Last(bgp) == Last(trace) && !IsSegment(trace, bgp)))
  {
    if bgp != [] && trace != [] && Last(bgp) == Last(trace) {
      assert bgp[|bgp| - 1] in Asns(bgp);
      SharedLastCounts(trace, Asns(bgp));
    }
  }

  method Evaluate(bgp: BgpPath, trace: TracePath) returns (result: CorrelationResult)
    ensures result == CorrelationResult(bgp.prefix, trace.target, trace.pop, bgp.asPath, trace.asPath,
                                        Classify(bgp.asPath, trace.asPath, trace.reached))
  {
    var verdict;
    if !trace.reached || |trace.asPath| < 2 {
      verdict := Insufficient;
    } else if |bgp.asPath| == 0 {
      verdict := Insufficient;
    } else if Last(bgp.asPath) != Last(trace.asPath) {
      verdict := Mismatch;
    } else {
      var segment := IsSubsequence(trace.asPath, bgp.asPath);
      if segment {
        verdict := Exact;
      } else {
        var overlap := PathOverlap(bgp.asPath, trace.asPath);
        verdict := if overlap > 0 then Partial else Mismatch;
      }
    }
    result := CorrelationResult(bgp.prefix, trace.target, trace.pop, bgp.asPath, trace.asPath, verdict);
  }

  function StatusValue(verdict: Verdict): real {
    match verdict
    case Exact => 1.0
    case Partial => 0.5
    case Mismatch => 0.0
    case Insufficient => -1.0
  }

  // ---------- Counters ----------

  function Count<L>(counts: map<L, nat>, metric: L): nat {
    if metric in counts then counts[metric] else 0
  }

  function Inc<L>(counts: map<L, nat>, metric: L): map<L, nat> {
    counts[metric := Count(counts, metric) + 1]
  }

  // ---------- The state machine ----------

  datatype EngineState = EngineState(
    bgpPaths: map<string, BgpPath>,
    traces: map<string, TracePath>,
    prefixOf: map<string, string>,
    matchStatus: map<StatusLabel, real>,
    evaluations: map<PairLabel, nat>,
    mismatches: map<MismatchLabel, nat>)

  const INITIAL := EngineState(map[], map[], map[], map[], map[], map[])

  function TraceKey(target: string, pop: string): string {
    target + "@" + pop
  }

  /** Every stored record sits under the key its own fields spell. */
  ghost predicate WellFormed(s: EngineState) {
    && (forall p | p in s.bgpPaths :: s.bgpPaths[p].prefix == p)
    && (forall k | k in s.traces :: k == TraceKey(s.traces[k].target, s.traces[k].pop))
  }

  ghost function VerdictAt(s: EngineState, p: string, k: string): Verdict
    requires p in s.bgpPaths && k in s.traces
  {
    Classify(s.bgpPaths[p].asPath, s.traces[k].asPath, s.traces[k].reached)
  }

  ghost function ResultAt(s: EngineState, p: string, k: string): CorrelationResult
    requires p in s.bgpPaths && k in s.traces
  {
    CorrelationResult(s.bgpPaths[p].prefix, s.traces[k].target, s.traces[k].pop,
                      s.bgpPaths[p].asPath, s.traces[k].asPath, VerdictAt(s, p, k))
  }

  ghost function LabelAt(s: EngineState, p: string, k: string): StatusLabel
    requires k in s.traces
  {
    StatusLabel(p, s.traces[k].pop, s.traces[k].target)
  }

  /** Recording one result: the effect of a single evaluation on the metrics. */
  ghost function RecordOne(s: EngineState, r: CorrelationResult): EngineState {
    s.(evaluations := Inc(s.evaluations, PairLabel(r.prefix, r.pop)),
       mismatches := if r.verdict in {Partial, Mismatch}
                     then Inc(s.mismatches, MismatchLabel(r.prefix, r.pop, r.verdict)) else s.mismatches,
       matchStatus := s.matchStatus[StatusLabel(r.prefix, r.pop, r.target) := StatusValue(r.verdict)])
  }

  /** Evaluating every trace in `keys` against the path of `p`, in some order. */
  ghost function RecordAll(s: EngineState, p: string, keys: set<string>): (t: EngineState)
    requires keys <= s.traces.Keys
    ensures t.bgpPaths == s.bgpPaths && t.traces == s.traces && t.prefixOf == s.prefixOf
  {
    if p !in s.bgpPaths || keys == {} then s
    else
      var k :| k in keys;
      RecordOne(RecordAll(s, p, keys - {k}), ResultAt(s, p, k))
  }

  lemma IncCommutes<L>(counts: map<L, nat>, l: L, m: L)
    ensures Inc(Inc(counts, l), m) == Inc(Inc(counts, m), l)
  {
  }

  lemma SetCommutes<L, V>(gauge: map<L, V>, l: L, m: L, x: V, y: V)
    requires l != m
    ensures gauge[l := x][m := y] == gauge[m := y][l := x]
  {
  }

  lemma RecordCommutes(s: EngineState, r1: CorrelationResult, r2: CorrelationResult)
    requires StatusLabel(r1.prefix, r1.pop, r1.target) != StatusLabel(r2.prefix, r2.pop, r2.target)
    ensures RecordOne(RecordOne(s, r1), r2) == RecordOne(RecordOne(s, r2), r1)
  {
    SetCommutes(s.matchStatus, StatusLabel(r1.prefix, r1.pop, r1.target), StatusLabel(r2.prefix, r2.pop, r2.target),
                StatusValue(r1.verdict), StatusValue(r2.verdict));
    IncCommutes(s.evaluations, PairLabel(r1.prefix, r1.pop), PairLabel(r2.prefix, r2.pop));
    IncCommutes(s.mismatches, MismatchLabel(r1.prefix, r1.pop, r1.verdict),
                MismatchLabel(r2.prefix, r2.pop, r2.verdict));
  }

  /** The order of a map traversal does not matter: any key may come last. */
  lemma {:induction false} RecordAllAnyOrder(s: EngineState, p: string, keys: set<string>, k: string)
    requires WellFormed(s) && keys <= s.traces.Keys && k in keys && p in s.bgpPaths
    ensures RecordAll(s, p, keys) == RecordOne(RecordAll(s, p, keys - {k}), ResultAt(s, p, k))
    decreases |keys|
  {
    var j :| j in keys && RecordAll(s, p, keys) == RecordOne(RecordAll(s, p, keys - {j}), ResultAt(s, p, j));
    if j != k {
      RecordAllAnyOrder(s, p, keys - {j}, k);
      RecordAllAnyOrder(s, p, keys - {k}, j);
      assert keys - {j} - {k} == keys - {k} - {j};
      RecordCommutes(RecordAll(s, p, keys - {j} - {k}), ResultAt(s, p, j), ResultAt(s, p, k));
    }
  }

  lemma RecordOneMore(s: EngineState, p: string, keys: set<string>, k: string)
    requires WellFormed(s) && keys <= s.traces.Keys && k in s.traces && k !in keys && p in s.bgpPaths
    ensures RecordAll(s, p, keys + {k}) == RecordOne(RecordAll(s, p, keys), ResultAt(s, p, k))
  {
    RecordAllAnyOrder(s, p, keys + {k}, k);
    assert keys + {k} - {k} == keys;
  }

  /** Every evaluated trace leaves its own verdict in the gauge. */
  lemma {:induction false} RecordAllWrites(s: EngineState, p: string, keys: set<string>, k: string)
    requires WellFormed(s) && keys <= s.traces.Keys && k in keys && p in s.bgpPaths
    ensures var t := RecordAll(s, p, keys);
      LabelAt(s, p, k) in t.matchStatus && t.matchStatus[LabelAt(s, p, k)] == StatusValue(VerdictAt(s, p, k))
  {
    RecordAllAnyOrder(s, p, keys, k);
  }

  /** Every other gauge entry keeps its value. */
  lemma {:induction false} RecordAllKeeps(s: EngineState, p: string, keys: set<string>, l: StatusLabel)
    requires WellFormed(s) && keys <= s.traces.Keys
    requires p in s.bgpPaths ==> forall k | k in keys :: l != LabelAt(s, p, k)
    ensures var t := RecordAll(s, p, keys);
      (l in t.matchStatus <==> l in s.matchStatus) && (l in s.matchStatus ==> t.matchStatus[l] == s.matchStatus[l])
    decreases |keys|
  {
    if p in s.bgpPaths && keys != {} {
      var k :| k in keys && RecordAll(s, p, keys) == RecordOne(RecordAll(s, p, keys - {k}), ResultAt(s, p, k));
      RecordAllKeeps(s, p, keys - {k}, l);
      var before, t := RecordAll(s, p, keys - {k}), RecordAll(s, p, keys);
      var r := ResultAt(s, p, k);
      assert StatusLabel(r.prefix, r.pop, r.target) == LabelAt(s, p, k);
      assert t == RecordOne(before, r);
      assert t.matchStatus == before.matchStatus[LabelAt(s, p, k) := StatusValue(VerdictAt(s, p, k))];
      assert l != LabelAt(s, p, k);
    }
  }

  ghost function TracesOf(s: EngineState, target: string): set<string> {
    set k | k in s.traces && s.traces[k].target == target
  }

  /** The traces whose target is registered under `p`. */
  ghost function Covered(s: EngineState, p: string): set<string> {
    set k | k in s.traces && s.traces[k].target in s.prefixOf && s.prefixOf[s.traces[k].target] == p
  }

  function Announced(u: BgpUpdate): BgpPath {
    BgpPath(u.prefix, u.originAsn, u.asPath, u.peerAsn, u.collector)
  }

  ghost function AfterBgpUpdate(s: EngineState, u: BgpUpdate): EngineState
    requires WellFormed(s)
  {
    if u.eventType == "withdrawal" then s.(bgpPaths := s.bgpPaths - {u.prefix})
    else
      var known := s.(bgpPaths := s.bgpPaths[u.prefix := Announced(u)]);
      RecordAll(known, u.prefix, Covered(known, u.prefix))
  }

  ghost function AfterTraceroute(s: EngineState, t: TracePath): EngineState
    requires WellFormed(s)
  {
    var k := TraceKey(t.target, t.pop);
    var known := s.(traces := s.traces[k := t]);
    if t.target in s.prefixOf then RecordAll(known, s.prefixOf[t.target], {k}) else known
  }

  ghost function AfterRegister(s: EngineState, target: string, prefix: string): EngineState {
    s.(prefixOf := s.prefixOf[target := prefix])
  }

  // ---------- The recomputing query ----------

  ghost predicate Correlatable(s: EngineState, k: string) {
    && k in s.traces
    && s.traces[k].target in s.prefixOf
    && s.prefixOf[s.traces[k].target] in s.bgpPaths
  }

  /** `results` holds exactly the entries a recomputation from scratch yields. */
  ghost predicate IsRecomputation(s: EngineState, results: map<string, CorrelationResult>) {
    && (forall k :: k in results <==> Correlatable(s, k))
    && (forall k | k in results :: results[k] == ResultAt(s, s.prefixOf[s.traces[k].target], k))
  }

  /** Drops a leading prefix if there is one. */
  function TrimPrefix(s: string, prefix: string): string {
    if prefix <= s then s[|prefix|..] else s
  }

  /** The engine as the source writes it: maps reassigned in place, one loop per
      map traversal, visiting entries in an arbitrary order. */
  class Engine {
    var bgpPaths: map<string, BgpPath>
    var traceroutePaths: map<string, TracePath>
    var prefixTargetMap: map<string, string>
    var matchStatus: map<StatusLabel, real>
    var correlationsRun: map<PairLabel, nat>
    var mismatchTotal: map<MismatchLabel, nat>

    ghost function State(): EngineState
      reads this
    {
      EngineState(bgpPaths, traceroutePaths, prefixTargetMap, matchStatus, correlationsRun, mismatchTotal)
    }

    ghost predicate Valid()
      reads this
    {
      WellFormed(State())
    }

    constructor ()
      ensures Valid() && State() == INITIAL
    {
      bgpPaths, traceroutePaths, prefixTargetMap := map[], map[], map[];
      matchStatus, correlationsRun, mismatchTotal := map[], map[], map[];
    }

    method RecordResult(result: CorrelationResult)
      modifies `matchStatus, `correlationsRun, `mismatchTotal
      ensures State() == RecordOne(old(State()), result)
    {
      var pair := PairLabel(result.prefix, result.pop);
      correlationsRun := Inc(correlationsRun, pair);
      match result.verdict {
        case Exact =>
        case Partial =>
          mismatchTotal := Inc(mismatchTotal, MismatchLabel(result.prefix, result.pop, Partial));
        case Mismatch =>
          mismatchTotal := Inc(mismatchTotal, MismatchLabel(result.prefix, result.pop, Mismatch));
        case Insufficient =>
      }
      var metric := StatusLabel(result.prefix, result.pop, result.target);
      matchStatus := matchStatus[metric := StatusValue(result.verdict)];
    }

    method CorrelateTarget(target: string, pop: string)
      requires Valid()
      modifies `matchStatus, `correlationsRun, `mismatchTotal
      ensures Valid()
      ensures var k := TraceKey(target, pop);
        State() == if target in prefixTargetMap && prefixTargetMap[target] in bgpPaths && k in traceroutePaths
                   then RecordOne(old(State()), ResultAt(old(State()), prefixTargetMap[target], k))
                   else old(State())
    {
      if target !in prefixTargetMap {
        return;
      }
      var prefix := prefixTargetMap[target];
      var k := TraceKey(target, pop);
      if prefix !in bgpPaths || k !in traceroutePaths {
        return;
      }
      var result := Evaluate(bgpPaths[prefix], traceroutePaths[k]);
      RecordResult(result);
    }

    method CorrelatePrefix(prefix: string)
      requires Valid()
      modifies `matchStatus, `correlationsRun, `mismatchTotal
      ensures Valid()
      ensures State() == RecordAll(old(State()), prefix, Covered(old(State()), prefix))
    {
      ghost var start := State();
      var targets := set t | t in prefixTargetMap && prefixTargetMap[t] == prefix;
      ghost var seen: set<string> := {};
      while targets != {}
        invariant targets <= (set t | t in prefixTargetMap && prefixTargetMap[t] == prefix)
        invariant seen == set k | k in Covered(start, prefix) && start.traces[k].target !in targets
        invariant State() == RecordAll(start, prefix, seen)
        decreases targets
      {
        var target :| target in targets;
        targets := targets - {target};
        CorrelateTraces(target, prefix, start, seen);
        seen := seen + TracesOf(start, target);
      }
      assert seen == Covered(start, prefix);
    }

    /** The inner loop: evaluates every stored trace of one covered target. */
    method CorrelateTraces(target: string, prefix: string, ghost start: EngineState, ghost seen: set<string>)
      requires WellFormed(start) && seen <= start.traces.Keys && seen !! TracesOf(start, target)
      requires State() == RecordAll(start, prefix, seen)
      requires target in prefixTargetMap && prefixTargetMap[target] == prefix
      modifies `matchStatus, `correlationsRun, `mismatchTotal
      ensures State() == RecordAll(start, prefix, seen + TracesOf(start, target))
    {
      var keys := traceroutePaths.Keys;
      ghost var done := seen;
      while keys != {}
        invariant keys <= traceroutePaths.Keys
        invariant done == seen + (TracesOf(start, target) - keys)
        invariant State() == RecordAll(start, prefix, done)
        decreases keys
      {
        var key :| key in keys;
        keys := keys - {key};
        if traceroutePaths[key].target == target {
          var pop := TrimPrefix(key, target + "@");
          assert pop == start.traces[key].pop;
          CorrelateTarget(target, pop);
          if prefix in bgpPaths {
            RecordOneMore(start, prefix, done, key);
          }
          done := done + {key};
        }
      }
      assert done == seen + TracesOf(start, target);
    }

    method HandleBgpUpdate(update: BgpUpdate)
      requires Valid()
      modifies `bgpPaths, `matchStatus, `correlationsRun, `mismatchTotal
      ensures Valid()
      ensures bgpPaths == if update.eventType == "withdrawal" then old(bgpPaths) - {update.prefix}
                          else old(bgpPaths)[update.prefix := BgpPath(update.prefix, update.originAsn, update.asPath,
                                                                      update.peerAsn, update.collector)]
      ensures State() == AfterBgpUpdate(old(State()), update)
    {
      if update.eventType == "withdrawal" {
        bgpPaths := bgpPaths - {update.prefix};
        return;
      }
      bgpPaths := bgpPaths[update.prefix := Announced(update)];
      CorrelatePrefix(update.prefix);
    }

    method HandleTracerouteResult(target: string, pop: string, agent: string, asPath: AsPath,
                                  hopCount: int, reached: bool)
      requires Valid()
      modifies `traceroutePaths, `matchStatus, `correlationsRun, `mismatchTotal
      ensures Valid()
      ensures traceroutePaths
        == old(traceroutePaths)[target + "@" + pop := TracePath(target, pop, agent, asPath, hopCount, reached)]
      ensures State() == AfterTraceroute(old(State()), TracePath(target, pop, agent, asPath, hopCount, reached))
    {
      var k := TraceKey(target, pop);
      traceroutePaths := traceroutePaths[k := TracePath(target, pop, agent, asPath, hopCount, reached)];
      ghost var known := State();
      CorrelateTarget(target, pop);
      if target in prefixTargetMap && prefixTargetMap[target] in bgpPaths {
        RecordOneMore(known, prefixTargetMap[target], {}, k);
        assert {} + {k} == {k};
      }
    }

    method RegisterPrefix(target: string, prefix: string)
      requires Valid()
      modifies `prefixTargetMap
      ensures Valid()
      ensures prefixTargetMap == old(prefixTargetMap)[target := prefix]
      ensures State() == AfterRegister(old(State()), target, prefix)
    {
      prefixTargetMap := prefixTargetMap[target := prefix];
    }

    method GetCorrelationState() returns (results: map<string, CorrelationResult>)
      requires Valid()
      ensures IsRecomputation(State(), results)
      ensures forall k :: k in results <==>
        && k in traceroutePaths
        && traceroutePaths[k].target in prefixTargetMap
        && prefixTargetMap[traceroutePaths[k].target] in bgpPaths
      ensures forall k | k in results ::
        var trace := traceroutePaths[k];
        var bgp := bgpPaths[prefixTargetMap[trace.target]];
        results[k] == CorrelationResult(bgp.prefix, trace.target, trace.pop, bgp.asPath, trace.asPath,
                                        Classify(bgp.asPath, trace.asPath, trace.reached))
    {
      results := map[];
      var keys := traceroutePaths.Keys;
      while keys != {}
        invariant keys <= traceroutePaths.Keys
        invariant forall k :: k in results <==> Correlatable(State(), k) && k !in keys
        invariant forall k | k in results ::
            results[k] == ResultAt(State(), prefixTargetMap[traceroutePaths[k].target], k)
        decreases keys
      {
        var key :| key in keys;
        keys := keys - {key};
        var trace := traceroutePaths[key];
        if trace.target in prefixTargetMap && prefixTargetMap[trace.target] in bgpPaths {
          var result := Evaluate(bgpPaths[prefixTargetMap[trace.target]], trace);
          results := results[key := result];
        }
      }
    }
  }
}
