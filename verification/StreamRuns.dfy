/** Whole streams of the analyzer, read off the raw elements: which routes it holds,
    what it publishes, and what each report means. */
module StreamRuns {
  import opened Analyzer
  import opened AsPaths
  import opened AsPathParser
  import opened Correlation
  import opened Options
  import opened Prefixes
  import opened RouteTable

  /** Some monitored network contains the element's prefix. */
  ghost predicate IsCovered(config: Config, e: Element) {
    e.prefix != "" && exists m | m in config.order :: PrefixContains(config.net(m), config.net(e.prefix))
  }

  lemma MatchedMeans(config: Config, e: Element)
    ensures match Matched(config, e)
      case None => !IsCovered(config, e)
      case Some(m) => IsCovered(config, e) && exists i :: FirstCovering(e.prefix, config.order, config.net, i) && config.order[i] == m
  {
    LookupFinds(e.prefix, config.order, config.net);
  }

  /** The element announces or withdraws the prefix; `peer` restricts it to one peer. */
  ghost predicate Concerns(config: Config, e: Element, prefix: string, peer: Option<Asn>) {
    && IsCovered(config, e)
    && (e.kind == "A" || e.kind == "W")
    && e.prefix == prefix
    && (peer.Some? ==> e.peer == peer.value)
  }

  /** The latest such element of a stream. */
  ghost function Latest(config: Config, stream: Stream, prefix: string, peer: Option<Asn>): Option<Element> {
    if stream == [] then None
    else
      var e := stream[|stream| - 1];
      if Concerns(config, e, prefix, peer) then Some(e) else Latest(config, stream[..|stream| - 1], prefix, peer)
  }

  /** The event of an element: only covered announcements and withdrawals have one. */
  lemma EventMeans(config: Config, e: Element)
    ensures EventOf(config, e) ==
      if IsCovered(config, e) && e.kind == "A" then
        var path := Parsed(e.asPathText);
        Some(Announce(e.prefix, e.peer, Route(if path == [] then 0 else Last(path), path)))
      else if IsCovered(config, e) && e.kind == "W" then Some(Withdraw(e.prefix, e.peer))
      else None
  {
    MatchedMeans(config, e);
  }

  /** After any stream a peer's route is held exactly when its latest element on the
      prefix is an announcement, and is the path written there with its last ASN. */
  lemma {:induction false} TableHoldsLatestElement(config: Config, stream: Stream, prefix: string, peer: Asn)
    ensures var held := AfterStream(config, stream).table.announcements;
      var latest := Latest(config, stream, prefix, Some(peer));
      && ((prefix, peer) in held <==> latest.Some? && latest.value.kind == "A")
      && ((prefix, peer) in held ==>
            var path := Parsed(latest.value.asPathText);
            held[(prefix, peer)] == Route(if path == [] then 0 else Last(path), path))
  {
    if stream != [] {
      TableHoldsLatestElement(config, stream[..|stream| - 1], prefix, peer);
      EventMeans(config, stream[|stream| - 1]);
    }
  }

  /** The messages of a stream: one per covered announcement or withdrawal. */
  ghost function Messages(config: Config, stream: Stream): seq<BgpUpdate> {
    if stream == [] then []
    else
      var e := stream[|stream| - 1];
      var before := Messages(config, stream[..|stream| - 1]);
      if IsCovered(config, e) && e.kind == "A" then
        var path := Parsed(e.asPathText);
        before + [BgpUpdate(e.prefix, if path == [] then 0 else Last(path), path, e.peer, e.collector, "announcement")]
      else if IsCovered(config, e) && e.kind == "W" then
        before + [BgpUpdate(e.prefix, 0, [], e.peer, e.collector, "withdrawal")]
      else before
  }

  /** The analyzer publishes exactly these messages, in order, or nothing without a
      publisher. */
  lemma {:induction false} PublishesEveryMessage(config: Config, stream: Stream)
    ensures AfterStream(config, stream).published == if config.publishing then Messages(config, stream) else []
  {
    if stream != [] {
      PublishesEveryMessage(config, stream[..|stream| - 1]);
      EventMeans(config, stream[|stream| - 1]);
    }
  }

  /** The report tells coverage and kind, and names the first monitored prefix that
      covers the element. */
  lemma ReportMeans(config: Config, s: AnalyzerState, e: Element)
    ensures var report := ReportFor(config, s, e);
      && (report.Unmonitored? <==> !IsCovered(config, e))
      && (report.Announced? <==> IsCovered(config, e) && e.kind == "A")
      && (report.Withdrawn? <==> IsCovered(config, e) && e.kind == "W")
      && (report.Announced? || report.Withdrawn? ==>
            exists i :: FirstCovering(e.prefix, config.order, config.net, i) && config.order[i] == report.matched)
  {
    MatchedMeans(config, e);
  }

  /** The hijack alert of an announcement: the last ASN of its path, or 0, is not the
      origin expected for the monitored prefix. On a strictly smaller network the
      sub-prefix alert says the same. */
  lemma HijackMeans(config: Config, s: AnalyzerState, e: Element)
    requires IsCovered(config, e) && e.kind == "A"
    ensures var report, path := ReportFor(config, s, e), Parsed(e.asPathText);
      && report.Announced?
      && var m, origin := report.matched, if path == [] then 0 else Last(path);
      && (report.alerts.hijack <==> m in config.expectedOrigins && origin != config.expectedOrigins[m])
      && (report.alerts.subPrefixHijack <==> m in config.expectedOrigins && origin != config.expectedOrigins[m]
                                             && config.net(m) != config.net(e.prefix))
  {
    MatchedMeans(config, e);
    SubPrefixIsStrict(config.net(Matched(config, e).value), config.net(e.prefix));
  }

  /** On a written path that is the last ASN written, however it is prepended. */
  lemma HijackOfWrittenPath(config: Config, s: AnalyzerState, e: Element, asns: AsPath)
    requires IsCovered(config, e) && e.kind == "A" && Writes(e.asPathText, asns)
    ensures var report := ReportFor(config, s, e);
      && report.Announced?
      && (report.alerts.hijack <==>
            && report.matched in config.expectedOrigins
            && (if asns == [] then 0 else Last(asns)) != config.expectedOrigins[report.matched])
  {
    HijackMeans(config, s, e);
    ParseOfRendering(e.asPathText, asns);
  }

  /** The change alerts compare the announcement with the peer's latest element on the
      prefix: nothing changes after a withdrawal or at first sight. */
  lemma ChangeAlertsMean(config: Config, stream: Stream, e: Element)
    requires IsCovered(config, e) && e.kind == "A"
    ensures var report := ReportFor(config, AfterStream(config, stream), e);
      var latest := Latest(config, stream, e.prefix, Some(e.peer));
      && report.Announced?
      && (report.alerts.originChange || report.alerts.pathChange <==>
            latest.Some? && latest.value.kind == "A" && Parsed(latest.value.asPathText) != Parsed(e.asPathText))
      && (report.alerts.originChange <==>
            && latest.Some? && latest.value.kind == "A"
            && var was, now := Parsed(latest.value.asPathText), Parsed(e.asPathText);
               (if was == [] then 0 else Last(was)) != (if now == [] then 0 else Last(now)))
      && !(report.alerts.originChange && report.alerts.pathChange)
  {
    MatchedMeans(config, e);
    TableHoldsLatestElement(config, stream, e.prefix, e.peer);
  }

  /** A withdrawal reports a previous route exactly when the peer's latest element on the
      prefix is an announcement, and then the path written there. */
  lemma WithdrawalReportMeans(config: Config, stream: Stream, e: Element)
    requires IsCovered(config, e) && e.kind == "W"
    ensures var report := ReportFor(config, AfterStream(config, stream), e);
      var latest := Latest(config, stream, e.prefix, Some(e.peer));
      && report.Withdrawn?
      && (report.previous.Some? <==> latest.Some? && latest.value.kind == "A")
      && (report.previous.Some? ==> report.previous.value.asPath == Parsed(latest.value.asPathText))
  {
    MatchedMeans(config, e);
    TableHoldsLatestElement(config, stream, e.prefix, e.peer);
  }
}
