/** The BGP analyzer: what it decides for each stream element, and what it publishes for
    the correlation engine. */
module Analyzer {
  import opened AsPaths
  import opened AsPathParser
  import opened Correlation
  import opened Options
  import opened Prefixes
  import opened RouteTable

  /** A stream element; `kind` is "A" for an announcement, "W" for a withdrawal. */
  datatype Element = Element(prefix: string, peer: Asn, collector: string, kind: string, asPathText: string)

  /** `order` is the iteration order of the monitored set, `net` the network a prefix
      text denotes. */
  datatype Config = Config(order: seq<string>, expectedOrigins: map<string, Asn>, net: string -> Network, publishing: bool)

  datatype Alerts = Alerts(originChange: bool, pathChange: bool, hijack: bool, moas: bool, subPrefixHijack: bool)

  datatype Report =
    | Unmonitored
    | Announced(matched: string, alerts: Alerts)
    | Withdrawn(matched: string, previous: Option<Route>)
    | OtherKind

  datatype AnalyzerState = AnalyzerState(table: TableState, published: seq<BgpUpdate>)

  const FRESH := AnalyzerState(EMPTY, [])

  /** The route an announcement carries: the parsed path and its last ASN, or 0. */
  function RouteOf(text: string): Route {
    var path := Parsed(text);
    Route(if path == [] then 0 else Last(path), path)
  }

  function UnexpectedOrigin(config: Config, matched: string, origin: Asn): bool {
    matched in config.expectedOrigins && origin != config.expectedOrigins[matched]
  }

  function AlertsFor(config: Config, table: TableState, matched: string, e: Element): Alerts {
    var route, prev := RouteOf(e.asPathText), Lookup(table.announcements, (e.prefix, e.peer));
    var originChange := prev.Some? && prev.value.originAsn != route.originAsn;
    Alerts(originChange,
           prev.Some? && prev.value.asPath != route.asPath && !originChange,
           UnexpectedOrigin(config, matched, route.originAsn),
           MoasFlag(AfterAnnouncement(table, e.prefix, e.peer, route), e.prefix),
           e.prefix != matched && IsSubPrefix(config.net(matched), config.net(e.prefix))
             && UnexpectedOrigin(config, matched, route.originAsn))
  }

  function Matched(config: Config, e: Element): Option<string> {
    if e.prefix == "" then None else MatchesAnyMonitored(e.prefix, config.order, config.net)
  }

  /** The event an element records in the route table, if any. */
  function EventOf(config: Config, e: Element): Option<RouteEvent> {
    if Matched(config, e).None? then None
    else if e.kind == "A" then Some(Announce(e.prefix, e.peer, RouteOf(e.asPathText)))
    else if e.kind == "W" then Some(Withdraw(e.prefix, e.peer))
    else None
  }

  /** The message published for an event; a withdrawal carries no path. */
  function UpdateFor(event: RouteEvent, collector: string): BgpUpdate {
    match event
    case Announce(prefix, peer, route) =>
      BgpUpdate(prefix, route.originAsn, route.asPath, peer, collector, "announcement")
    case Withdraw(prefix, peer) => BgpUpdate(prefix, 0, [], peer, collector, "withdrawal")
  }

  function AfterElement(config: Config, s: AnalyzerState, e: Element): AnalyzerState {
    match EventOf(config, e)
    case None => s
    case Some(event) =>
      AnalyzerState(RouteTable.Next(s.table, event),
                    s.published + if config.publishing then [UpdateFor(event, e.collector)] else [])
  }

  function ReportFor(config: Config, s: AnalyzerState, e: Element): Report {
    match Matched(config, e)
    case None => Unmonitored
    case Some(matched) =>
      if e.kind == "A" then Announced(matched, AlertsFor(config, s.table, matched, e))
      else if e.kind == "W" then Withdrawn(matched, Lookup(s.table.announcements, (e.prefix, e.peer)))
      else OtherKind
  }

  class BgpAnalyzer {
    const config: Config
    const state: PrefixState
    var published: seq<BgpUpdate>

    function State(): AnalyzerState
      reads this, state
    {
      AnalyzerState(state.State(), published)
    }

    constructor (config: Config, state: PrefixState)
      ensures this.config == config && this.state == state && published == []
    {
      this.config, this.state, published := config, state, [];
    }

    method ProcessElement(e: Element) returns (report: Report)
      modifies this, state
      ensures State() == AfterElement(config, old(State()), e)
      ensures report == ReportFor(config, old(State()), e)
    {
      if e.prefix == "" {
        return Unmonitored;
      }
      var matched := MatchesAnyMonitored(e.prefix, config.order, config.net);
      if matched.None? {
        return Unmonitored;
      }
      if e.kind == "A" {
        var asPath := ParseAsPath(e.asPathText);
        var originAsn := if asPath != [] then Last(asPath) else 0;
        var alerts := HandleAnnouncement(e.prefix, originAsn, asPath, e.peer, e.collector, matched.value);
        return Announced(matched.value, alerts);
      } else if e.kind == "W" {
        var previous := HandleWithdrawal(e.prefix, e.peer, e.collector);
        return Withdrawn(matched.value, previous);
      }
      return OtherKind;
    }

    method HandleAnnouncement(prefix: string, originAsn: Asn, asPath: AsPath, peer: Asn, collector: string,
                              matched: string) returns (alerts: Alerts)
      modifies this, state
      ensures state.State() == AfterAnnouncement(old(state.State()), prefix, peer, Route(originAsn, asPath))
      ensures published == old(published)
        + if config.publishing then [BgpUpdate(prefix, originAsn, asPath, peer, collector, "announcement")] else []
      ensures var prev := Lookup(old(state.announcements), (prefix, peer));
        && alerts.originChange == (prev.Some? && prev.value.originAsn != originAsn)
        && alerts.pathChange == (prev.Some? && prev.value.asPath != asPath && prev.value.originAsn == originAsn)
        && alerts.hijack == (matched in config.expectedOrigins && originAsn != config.expectedOrigins[matched])
        && alerts.moas == MoasFlag(state.State(), prefix)
        && alerts.subPrefixHijack == (prefix != matched && IsSubPrefix(config.net(matched), config.net(prefix))
                                      && matched in config.expectedOrigins && originAsn != config.expectedOrigins[matched])
    {
      var changes := state.RecordAnnouncement(prefix, originAsn, asPath, peer);
      var hijack := CheckHijack(originAsn, matched);
      var moas := |state.GetActiveOrigins(prefix)| > 1;
      var subPrefixHijack := false;
      if prefix != matched && IsSubPrefix(config.net(matched), config.net(prefix)) {
        if matched in config.expectedOrigins && originAsn != config.expectedOrigins[matched] {
          subPrefixHijack := true;
        }
      }
      alerts := Alerts(changes.originChanged, changes.pathChanged && !changes.originChanged, hijack, moas, subPrefixHijack);
      if config.publishing {
        published := published + [BgpUpdate(prefix, originAsn, asPath, peer, collector, "announcement")];
      }
    }

    method CheckHijack(originAsn: Asn, matched: string) returns (hijack: bool)
      ensures hijack <==> matched in config.expectedOrigins && originAsn != config.expectedOrigins[matched]
    {
      if matched !in config.expectedOrigins {
        return false;
      }
      return originAsn != config.expectedOrigins[matched];
    }

    method HandleWithdrawal(prefix: string, peer: Asn, collector: string) returns (previous: Option<Route>)
      modifies this, state
      ensures state.State() == AfterWithdrawal(old(state.State()), prefix, peer)
      ensures published == old(published)
        + if config.publishing then [BgpUpdate(prefix, 0, [], peer, collector, "withdrawal")] else []
      ensures previous == Lookup(old(state.announcements), (prefix, peer))
    {
      previous := state.RecordWithdrawal(prefix, peer);
      if config.publishing {
        published := published + [BgpUpdate(prefix, 0, [], peer, collector, "withdrawal")];
      }
    }
  }

  // ---------- Runs ----------

  type Stream = seq<Element>

  function AfterStream(config: Config, stream: Stream): AnalyzerState {
    if stream == [] then FRESH
    else AfterElement(config, AfterStream(config, stream[..|stream| - 1]), stream[|stream| - 1])
  }

  /** The route events of a stream: what the table's history is. */
  function EventsOf(config: Config, stream: Stream): History {
    if stream == [] then []
    else
      EventsOf(config, stream[..|stream| - 1])
      + match EventOf(config, stream[|stream| - 1]) case None => [] case Some(event) => [event]
  }

  lemma {:induction false} TableFollowsEvents(config: Config, stream: Stream)
    ensures AfterStream(config, stream).table == RouteTable.After(EventsOf(config, stream))
  {
    if stream != [] {
      var front, e := stream[..|stream| - 1], stream[|stream| - 1];
      TableFollowsEvents(config, front);
      var events := EventsOf(config, front);
      assert events + [] == events;
      if EventOf(config, e).Some? {
        assert (events + [EventOf(config, e).value])[..|events|] == events;
      }
    }
  }

  /** What the alerts of an announcement say about the history of its prefix, and how
      the two hijack alerts relate. The lookup covers the announcement, so the
      sub-prefix alert is the origin alert on a strictly smaller network. */
  lemma AlertsMean(config: Config, stream: Stream, e: Element)
    requires e.kind == "A" && Matched(config, e).Some?
    ensures var matched, route := Matched(config, e).value, RouteOf(e.asPathText);
      var live := LiveRoute(EventsOf(config, stream), e.prefix, e.peer);
      var alerts := AlertsFor(config, AfterStream(config, stream).table, matched, e);
      && (alerts.originChange <==> live.Some? && live.value.originAsn != route.originAsn)
      && (alerts.pathChange <==>
            live.Some? && live.value.originAsn == route.originAsn && live.value.asPath != route.asPath)
      && (alerts.subPrefixHijack <==> alerts.hijack && config.net(matched) != config.net(e.prefix))
      && (MoasConflict(EventsOf(config, stream) + [Announce(e.prefix, e.peer, route)], e.prefix) ==> alerts.moas)
  {
    var matched := Matched(config, e).value;
    var events := EventsOf(config, stream);
    TableFollowsEvents(config, stream);
    TableHoldsLiveRoutes(events, e.prefix, e.peer);
    LookupFinds(e.prefix, config.order, config.net);
    SubPrefixIsStrict(config.net(matched), config.net(e.prefix));
    MoasAlertMeans(config, stream, e);
  }

  /** The multiple-origin alert is raised for a conflict, or for an abandoned origin that
      nobody announces any more. */
  lemma MoasAlertMeans(config: Config, stream: Stream, e: Element)
    requires e.kind == "A" && Matched(config, e).Some?
    ensures var h := EventsOf(config, stream) + [Announce(e.prefix, e.peer, RouteOf(e.asPathText))];
      AlertsFor(config, AfterStream(config, stream).table, Matched(config, e).value, e).moas <==>
        || MoasConflict(h, e.prefix)
        || exists o :: Abandoned(h, e.prefix, o) && !LiveOrigin(h, e.prefix, o)
  {
    var events, event := EventsOf(config, stream), Announce(e.prefix, e.peer, RouteOf(e.asPathText));
    TableFollowsEvents(config, stream);
    MoasFlagExact(events, event);
    assert (events + [event])[..|events|] == events;
  }

  /** A withdrawal reports the route the peer was announcing until then. */
  lemma WithdrawalReportsLiveRoute(config: Config, stream: Stream, e: Element)
    requires e.kind == "W" && Matched(config, e).Some?
    ensures ReportFor(config, AfterStream(config, stream), e)
      == Withdrawn(Matched(config, e).value, LiveRoute(EventsOf(config, stream), e.prefix, e.peer))
  {
    TableFollowsEvents(config, stream);
    TableHoldsLiveRoutes(EventsOf(config, stream), e.prefix, e.peer);
  }

  lemma SameMatch(config: Config, other: seq<string>, monitored: set<string>, e: Element)
    requires Incomparable(monitored, config.net)
    requires Enumerates(config.order, monitored) && Enumerates(other, monitored)
    ensures Matched(config.(order := other), e) == Matched(config, e)
  {
    OrderIrrelevant(e.prefix, monitored, config.order, other, config.net);
  }

  lemma {:induction false} StatesIgnoreOrder(config: Config, other: seq<string>, monitored: set<string>, stream: Stream)
    requires Incomparable(monitored, config.net)
    requires Enumerates(config.order, monitored) && Enumerates(other, monitored)
    ensures AfterStream(config.(order := other), stream) == AfterStream(config, stream)
  {
    if stream != [] {
      StatesIgnoreOrder(config, other, monitored, stream[..|stream| - 1]);
      SameMatch(config, other, monitored, stream[|stream| - 1]);
    }
  }

  /** If no monitored prefix contains another, no report and no state of any run depends
      on the order in which the monitored set is iterated. */
  lemma RunsIgnoreOrder(config: Config, other: seq<string>, monitored: set<string>, stream: Stream, e: Element)
    requires Incomparable(monitored, config.net)
    requires Enumerates(config.order, monitored) && Enumerates(other, monitored)
    ensures var reordered := config.(order := other);
      && AfterStream(reordered, stream) == AfterStream(config, stream)
      && ReportFor(reordered, AfterStream(reordered, stream), e) == ReportFor(config, AfterStream(config, stream), e)
  {
    StatesIgnoreOrder(config, other, monitored, stream);
    SameMatch(config, other, monitored, e);
  }
}
