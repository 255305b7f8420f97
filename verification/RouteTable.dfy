/** The analyzer's table of the latest route per prefix and peer, with its derived
    index of origins per prefix. */
module RouteTable {
  import opened AsPaths
  import opened Options

  type PeerKey = (string, Asn)

  datatype Route = Route(originAsn: Asn, asPath: AsPath)

  datatype Changes = Changes(isNew: bool, originChanged: bool, pathChanged: bool,
                             previousOrigin: Option<Asn>, previousPath: Option<AsPath>)

  datatype TableState = TableState(announcements: map<PeerKey, Route>, activeOrigins: map<string, set<Asn>>)

  const EMPTY := TableState(map[], map[])

  function Origins(s: TableState, prefix: string): set<Asn> {
    if prefix in s.activeOrigins then s.activeOrigins[prefix] else {}
  }

  /** The origins of the announcements of `prefix` held in the table. */
  function HeldOrigins(announcements: map<PeerKey, Route>, prefix: string): set<Asn> {
    set key | key in announcements && key.0 == prefix :: announcements[key].originAsn
  }

  function AfterAnnouncement(s: TableState, prefix: string, peer: Asn, route: Route): TableState {
    TableState(s.announcements[(prefix, peer) := route],
               s.activeOrigins[prefix := Origins(s, prefix) + {route.originAsn}])
  }

  function AfterWithdrawal(s: TableState, prefix: string, peer: Asn): TableState {
    var left := s.announcements - {(prefix, peer)};
    TableState(left, s.activeOrigins[prefix := HeldOrigins(left, prefix)])
  }

  class PrefixState {
    var announcements: map<PeerKey, Route>
    var activeOrigins: map<string, set<Asn>>

    function State(): TableState
      reads this
    {
      TableState(announcements, activeOrigins)
    }

    constructor ()
      ensures State() == EMPTY
    {
      announcements, activeOrigins := map[], map[];
    }

    method RecordAnnouncement(prefix: string, originAsn: Asn, asPath: AsPath, peer: Asn) returns (changes: Changes)
      modifies this
      ensures State() == AfterAnnouncement(old(State()), prefix, peer, Route(originAsn, asPath))
      ensures changes == match Lookup(old(announcements), (prefix, peer))
                         case None => Changes(true, false, false, None, None)
                         case Some(prev) =>
                           Changes(false, prev.originAsn != originAsn, prev.asPath != asPath,
                                   if prev.originAsn != originAsn then Some(prev.originAsn) else None,
                                   if prev.asPath != asPath then Some(prev.asPath) else None)
    {
      var prev := Lookup(announcements, (prefix, peer));
      changes := Changes(prev.None?, false, false, None, None);
      if prev.Some? {
        if prev.value.originAsn != originAsn {
          changes := changes.(originChanged := true, previousOrigin := Some(prev.value.originAsn));
        }
        if prev.value.asPath != asPath {
          changes := changes.(pathChanged := true, previousPath := Some(prev.value.asPath));
        }
      }
      announcements := announcements[(prefix, peer) := Route(originAsn, asPath)];
      if prefix !in activeOrigins {
        activeOrigins := activeOrigins[prefix := {}];
      }
      activeOrigins := activeOrigins[prefix := activeOrigins[prefix] + {originAsn}];
    }

    method RecordWithdrawal(prefix: string, peer: Asn) returns (prev: Option<Route>)
      modifies this
      ensures State() == AfterWithdrawal(old(State()), prefix, peer)
      ensures prev == Lookup(old(announcements), (prefix, peer))
    {
      prev := Lookup(announcements, (prefix, peer));
      announcements := announcements - {(prefix, peer)};
      var remaining: set<Asn> := {};
      var keys := announcements.Keys;
      while keys != {}
        invariant keys <= announcements.Keys
        invariant remaining == set k | k in announcements && k !in keys && k.0 == prefix :: announcements[k].originAsn
        decreases keys
      {
        var key :| key in keys;
        keys := keys - {key};
        if key.0 == prefix {
          remaining := remaining + {announcements[key].originAsn};
        }
      }
      assert remaining == HeldOrigins(announcements, prefix);
      activeOrigins := activeOrigins[prefix := remaining];
    }

    function GetActiveOrigins(prefix: string): set<Asn>
      reads this
    {
      Origins(State(), prefix)
    }
  }

  // ---------- Runs ----------

  datatype RouteEvent =
    | Announce(prefix: string, peer: Asn, route: Route)
    | Withdraw(prefix: string, peer: Asn)

  type History = seq<RouteEvent>

  function Next(s: TableState, e: RouteEvent): TableState {
    match e
    case Announce(prefix, peer, route) => AfterAnnouncement(s, prefix, peer, route)
    case Withdraw(prefix, peer) => AfterWithdrawal(s, prefix, peer)
  }

  function After(history: History): TableState {
    if history == [] then EMPTY else Next(After(history[..|history| - 1]), history[|history| - 1])
  }

  /** The route a peer announces for a prefix, read off the history alone: that of
      the peer's latest event on the prefix, if it is an announcement. */
  function LiveRoute(history: History, prefix: string, peer: Asn): Option<Route> {
    if history == [] then None
    else
      var e := history[|history| - 1];
      if e.prefix == prefix && e.peer == peer then
        match e
        case Announce(_, _, route) => Some(route)
        case Withdraw(_, _) => None
      else LiveRoute(history[..|history| - 1], prefix, peer)
  }

  ghost predicate LiveFrom(history: History, prefix: string, origin: Asn, peer: Asn) {
    LiveRoute(history, prefix, peer).Some? && LiveRoute(history, prefix, peer).value.originAsn == origin
  }

  ghost predicate LiveOrigin(history: History, prefix: string, origin: Asn) {
    exists peer :: LiveFrom(history, prefix, origin, peer)
  }

  ghost predicate WithdrawnSince(history: History, j: nat, prefix: string) {
    exists i | j < i < |history| :: history[i].Withdraw? && history[i].prefix == prefix
  }

  /** Event `j` is a peer replacing its live origin `origin` by another one, and
      nobody has withdrawn the prefix since. */
  ghost predicate AbandonedAt(history: History, j: nat, prefix: string, origin: Asn) {
    && j < |history|
    && history[j].Announce? && history[j].prefix == prefix
    && history[j].route.originAsn != origin
    && LiveFrom(history[..j], prefix, origin, history[j].peer)
    && !WithdrawnSince(history, j, prefix)
  }

  ghost predicate Abandoned(history: History, prefix: string, origin: Asn) {
    exists j: nat :: AbandonedAt(history, j, prefix, origin)
  }

  /** The table holds exactly the live routes. */
  lemma {:induction false} TableHoldsLiveRoutes(history: History, prefix: string, peer: Asn)
    ensures Lookup(After(history).announcements, (prefix, peer)) == LiveRoute(history, prefix, peer)
  {
    if history != [] {
      TableHoldsLiveRoutes(history[..|history| - 1], prefix, peer);
    }
  }

  lemma HeldIsLive(history: History, prefix: string, origin: Asn)
    ensures origin in HeldOrigins(After(history).announcements, prefix) <==> LiveOrigin(history, prefix, origin)
  {
    var held := After(history).announcements;
    if origin in HeldOrigins(held, prefix) {
      var key :| key in held && key.0 == prefix && held[key].originAsn == origin;
      TableHoldsLiveRoutes(history, prefix, key.1);
      assert LiveFrom(history, prefix, origin, key.1);
    }
    if LiveOrigin(history, prefix, origin) {
      var peer :| LiveFrom(history, prefix, origin, peer);
      TableHoldsLiveRoutes(history, prefix, peer);
      assert (prefix, peer) in held;
    }
  }

  lemma AbandonedExtends(front: History, e: RouteEvent, j: nat, prefix: string, origin: Asn)
    requires j < |front|
    ensures AbandonedAt(front + [e], j, prefix, origin) <==>
      AbandonedAt(front, j, prefix, origin) && !(e.Withdraw? && e.prefix == prefix)
  {
    var history := front + [e];
    assert history[..j] == front[..j];
    assert history[|front|] == e;
    if WithdrawnSince(front, j, prefix) {
      var i :| j < i < |front| && front[i].Withdraw? && front[i].prefix == prefix;
      assert history[i] == front[i];
    }
  }

  lemma AbandonedStep(front: History, e: RouteEvent, prefix: string, origin: Asn)
    ensures Abandoned(front + [e], prefix, origin) <==>
      || (Abandoned(front, prefix, origin) && !(e.Withdraw? && e.prefix == prefix))
      || (e.Announce? && e.prefix == prefix && e.route.originAsn != origin && LiveFrom(front, prefix, origin, e.peer))
  {
    var history := front + [e];
    assert history[..|front|] == front && history[|front|] == e;
    if Abandoned(history, prefix, origin) {
      var j: nat :| AbandonedAt(history, j, prefix, origin);
      if j < |front| {
        AbandonedExtends(front, e, j, prefix, origin);
      }
    }
    if Abandoned(front, prefix, origin) {
      var j: nat :| AbandonedAt(front, j, prefix, origin);
      AbandonedExtends(front, e, j, prefix, origin);
    }
    if e.Announce? && e.prefix == prefix && e.route.originAsn != origin && LiveFrom(front, prefix, origin, e.peer) {
      assert AbandonedAt(history, |front|, prefix, origin);
    }
  }

  lemma LiveStep(front: History, e: RouteEvent, prefix: string, origin: Asn, peer: Asn)
    ensures LiveFrom(front + [e], prefix, origin, peer) <==>
      if e.prefix == prefix && e.peer == peer then e.Announce? && e.route.originAsn == origin
      else LiveFrom(front, prefix, origin, peer)
  {
    assert (front + [e])[..|front|] == front;
  }

  /** Exact content of the origin index: the live origins, and those a re-announcing
      peer abandoned since the last withdrawal of the prefix. */
  lemma {:induction false} ActiveOriginsExact(history: History, prefix: string, origin: Asn)
    ensures origin in Origins(After(history), prefix) <==>
      LiveOrigin(history, prefix, origin) || Abandoned(history, prefix, origin)
  {
    if history == [] {
    } else {
      var front, e := history[..|history| - 1], history[|history| - 1];
      assert history == front + [e];
      ActiveOriginsExact(front, prefix, origin);
      AbandonedStep(front, e, prefix, origin);
      if e.Withdraw? && e.prefix == prefix {
        HeldIsLive(history, prefix, origin);
      } else {
        AnnouncementOrOther(front, e, prefix, origin);
      }
    }
  }

  lemma AnnouncementOrOther(front: History, e: RouteEvent, prefix: string, origin: Asn)
    requires !(e.Withdraw? && e.prefix == prefix)
    ensures LiveOrigin(front + [e], prefix, origin) || Abandoned(front + [e], prefix, origin) <==>
      || LiveOrigin(front, prefix, origin) || Abandoned(front, prefix, origin)
      || (e.prefix == prefix && e.route.originAsn == origin)
  {
    var history := front + [e];
    AbandonedStep(front, e, prefix, origin);
    if LiveOrigin(front, prefix, origin) {
      var peer :| LiveFrom(front, prefix, origin, peer);
      LiveStep(front, e, prefix, origin, peer);
    }
    if LiveOrigin(history, prefix, origin) {
      var peer :| LiveFrom(history, prefix, origin, peer);
      LiveStep(front, e, prefix, origin, peer);
    }
    if e.prefix == prefix && e.route.originAsn == origin {
      LiveStep(front, e, prefix, origin, e.peer);
    }
  }

  /** Right after a withdrawal of the prefix the index is exact. */
  lemma ExactAfterWithdrawal(history: History, prefix: string, peer: Asn, origin: Asn)
    ensures var h := history + [Withdraw(prefix, peer)];
      origin in Origins(After(h), prefix) <==> LiveOrigin(h, prefix, origin)
  {
    var h := history + [Withdraw(prefix, peer)];
    ActiveOriginsExact(h, prefix, origin);
    AbandonedStep(history, Withdraw(prefix, peer), prefix, origin);
  }

  // ---------- Multiple-origin detection ----------

  predicate MoasFlag(s: TableState, prefix: string) {
    |Origins(s, prefix)| > 1
  }

  /** Two different origins are announced for the prefix at the same time. */
  ghost predicate MoasConflict(history: History, prefix: string) {
    exists o1, o2 | o1 != o2 :: LiveOrigin(history, prefix, o1) && LiveOrigin(history, prefix, o2)
  }

  lemma MoreThanOne(s: set<Asn>, o: Asn)
    requires o in s
    ensures |s| > 1 <==> exists x :: x in s && x != o
  {
    if exists x :: x in s && x != o {
      var x :| x in s && x != o;
      assert x in s - {o} && |s - {o}| == |s| - 1;
    } else {
      assert s == {o};
    }
  }

  /** The flag checked after an announcement of the prefix never misses a conflict, and
      is raised without one exactly when an abandoned origin nobody announces any more
      is still indexed. */
  lemma MoasFlagExact(history: History, e: RouteEvent)
    requires e.Announce?
    ensures var h := history + [e];
      MoasFlag(After(h), e.prefix) <==>
        || MoasConflict(h, e.prefix)
        || exists o :: Abandoned(h, e.prefix, o) && !LiveOrigin(h, e.prefix, o)
  {
    var h := history + [e];
    var s := Origins(After(h), e.prefix);
    var o := e.route.originAsn;
    LiveStep(history, e, e.prefix, o, e.peer);
    assert LiveOrigin(h, e.prefix, o);
    forall x ensures x in s <==> LiveOrigin(h, e.prefix, x) || Abandoned(h, e.prefix, x) {
      ActiveOriginsExact(h, e.prefix, x);
    }
    MoreThanOne(s, o);
    if MoasFlag(After(h), e.prefix) {
      var other :| other in s && other != o;
      assert LiveOrigin(h, e.prefix, other) || Abandoned(h, e.prefix, other);
    }
    if MoasConflict(h, e.prefix) {
      var a, b :| a != b && LiveOrigin(h, e.prefix, a) && LiveOrigin(h, e.prefix, b);
      assert a in s && b in s;
    }
    if exists x :: Abandoned(h, e.prefix, x) && !LiveOrigin(h, e.prefix, x) {
      var x :| Abandoned(h, e.prefix, x) && !LiveOrigin(h, e.prefix, x);
      assert x in s && o in s && x != o;
    }
  }

  /** The index is not the set of current origins: one peer changing its origin raises
      the flag although a single origin is announced. */
  lemma OriginChangeRaisesFlag(prefix: string, peer: Asn, r1: Route, r2: Route)
    requires r1.originAsn != r2.originAsn
    ensures var h := [Announce(prefix, peer, r1), Announce(prefix, peer, r2)];
      MoasFlag(After(h), prefix) && !MoasConflict(h, prefix)
  {
    var e1, e2 := Announce(prefix, peer, r1), Announce(prefix, peer, r2);
    var h := [e1, e2];
    assert h[..1] == [e1] && [e1][..0] == [];
    assert After([e1]) == Next(EMPTY, e1);
    assert Origins(After(h), prefix) == {r1.originAsn, r2.originAsn};
    forall o, p | LiveFrom(h, prefix, o, p) ensures o == r2.originAsn {
      LiveStep([e1], e2, prefix, o, p);
      LiveStep([], e1, prefix, o, p);
      assert [e1] + [e2] == h && [] + [e1] == [e1];
    }
  }
}
