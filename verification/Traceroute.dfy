/** The traceroute canary's per-hop results: the AS path built from hops, and the
    probe statistics of the two backends, over exact numbers. */
module Traceroute {
  import opened AsPaths
  import opened Reals

  // ---------- AS path of a hop list ----------

  datatype Hop = Hop(hopNumber: int, ip: string, hostname: string, asn: Asn)

  /** The ASNs of the hops that have one; 0 stands for an unknown ASN. */
  function KnownAsns(hops: seq<Hop>): AsPath {
    if hops == [] then []
    else
      var asn := hops[|hops| - 1].asn;
      KnownAsns(hops[..|hops| - 1]) + if asn == 0 then [] else [asn]
  }

  lemma KnownStep(hops: seq<Hop>, i: nat)
    requires i < |hops|
    ensures KnownAsns(hops[..i + 1]) == KnownAsns(hops[..i]) + if hops[i].asn == 0 then [] else [hops[i].asn]
  {
    assert hops[..i + 1][..i] == hops[..i];
  }

  method BuildAsPath(hops: seq<Hop>) returns (path: AsPath)
    ensures path == RunCompress(KnownAsns(hops))
  {
    path := [];
    ghost var known: AsPath := [];
    for i := 0 to |hops|
      invariant known == KnownAsns(hops[..i])
      invariant path == RunCompress(known)
    {
      KnownStep(hops, i);
      if hops[i].asn == 0 {
        assert known + [] == known;
        continue;
      }
      RunCompressSnoc(known, hops[i].asn);
      known := known + [hops[i].asn];
      if |path| == 0 || path[|path| - 1] != hops[i].asn {
        path := path + [hops[i].asn];
      }
    }
    assert hops[..|hops|] == hops;
  }

  // ---------- mtr: received count from the reported loss ----------

  /** Conversion of a real to an integer, towards zero. */
  function Truncate(x: real): int {
    if x >= 0.0 then x.Floor else -((-x).Floor)
  }

  function MtrReceived(sent: int, lossPercent: real): int {
    var packetLoss := lossPercent / 100.0;
    if sent > 0 then sent - Truncate(sent as real * packetLoss + 0.5) else 0
  }

  /** The count of lost probes is recovered exactly when the reported loss, scaled to
      probes, is within half a probe of it; truncation towards zero also forgives up to
      one more probe below zero when none was lost, and a negative count, which only a
      negative report can give, is met from below. */
  lemma MtrRecoversReceived(sent: int, lost: int, lossPercent: real)
    ensures var error := sent as real * (lossPercent / 100.0) - lost as real;
      && (sent > 0 ==>
           (MtrReceived(sent, lossPercent) == sent - lost <==>
              if lost > 0 then -0.5 <= error < 0.5
              else if lost == 0 then -1.5 < error < 0.5
              else -1.5 < error <= -0.5))
      && (sent <= 0 ==> MtrReceived(sent, lossPercent) == 0)
  {
    var x := sent as real * (lossPercent / 100.0) + 0.5;
    assert x.Floor as real <= x < x.Floor as real + 1.0;
    assert (-x).Floor as real <= -x < (-x).Floor as real + 1.0;
  }

  /** In particular when the reported ratio is less than 1 / (2 * sent) away. */
  lemma MtrSmallErrorIsHarmless(sent: int, lost: int, lossPercent: real)
    requires 0 <= lost <= sent && sent > 0
    requires -1.0 / (2 * sent) as real < lossPercent / 100.0 - lost as real / sent as real < 1.0 / (2 * sent) as real
    ensures MtrReceived(sent, lossPercent) == sent - lost
  {
    assert (2 * sent) as real == 2.0 * sent as real;
    WithinHalf(sent as real, lossPercent / 100.0, lost as real);
    MtrRecoversReceived(sent, lost, lossPercent);
  }

  lemma WithinHalf(n: real, ratio: real, lost: real)
    requires n > 0.0 && -1.0 / (2.0 * n) < ratio - lost / n < 1.0 / (2.0 * n)
    ensures -0.5 < n * ratio - lost < 0.5
  {
    var h, q := 1.0 / (2.0 * n), lost / n;
    assert n * h == 0.5 && n * q == lost;
    assert -1.0 / (2.0 * n) == -h;
    ScaleOrder(n, ratio - q, h);
    ScaleOrder(n, -h, ratio - q);
    assert n * (ratio - q) == n * ratio - n * q;
    assert n * (-h) == -0.5;
  }

  // ---------- scamper: statistics of one hop's probes ----------

  datatype Probe = Probe(rtt: real, reply: int)

  datatype HopStats = HopStats(sent: nat, received: nat, rttMin: real, rttAvg: real, rttMax: real, packetLoss: real)

  /** The round-trip times of the answered probes. */
  function Replies(probes: seq<Probe>): seq<real> {
    if probes == [] then []
    else
      var p := probes[|probes| - 1];
      Replies(probes[..|probes| - 1]) + if p.reply > 0 then [p.rtt] else []
  }

  function Sum(xs: seq<real>): real {
    if xs == [] then 0.0 else Sum(xs[..|xs| - 1]) + xs[|xs| - 1]
  }

  function MinFrom(start: real, xs: seq<real>): real {
    if xs == [] then start
    else
      var m := MinFrom(start, xs[..|xs| - 1]);
      if xs[|xs| - 1] < m then xs[|xs| - 1] else m
  }

  function MaxFrom(start: real, xs: seq<real>): real {
    if xs == [] then start
    else
      var m := MaxFrom(start, xs[..|xs| - 1]);
      if xs[|xs| - 1] > m then xs[|xs| - 1] else m
  }

  lemma RepliesStep(probes: seq<Probe>, i: nat)
    requires i < |probes|
    ensures var before, after := Replies(probes[..i]), Replies(probes[..i + 1]);
      if probes[i].reply > 0 then after != [] && after[..|after| - 1] == before && after[|after| - 1] == probes[i].rtt
      else after == before
  {
    assert probes[..i + 1][..i] == probes[..i];
  }

  function Answered(probes: seq<Probe>): set<int> {
    set i | 0 <= i < |probes| && probes[i].reply > 0
  }

  lemma {:induction false} RepliesAreAnswered(probes: seq<Probe>)
    ensures |Replies(probes)| == |Answered(probes)|
  {
    if probes == [] {
      assert Answered(probes) == {};
    } else {
      var n := |probes| - 1;
      RepliesAreAnswered(probes[..n]);
      assert Answered(probes) == if probes[n].reply > 0 then Answered(probes[..n]) + {n} else Answered(probes[..n]);
    }
  }

  /** Every answered probe's time stands after those of the answered ones before it. */
  lemma {:induction false} RepliesInOrder(probes: seq<Probe>, i: nat)
    requires i < |probes| && probes[i].reply > 0
    ensures var k, rs := |Answered(probes[..i])|, Replies(probes); k < |rs| && rs[k] == probes[i].rtt
  {
    var n := |probes| - 1;
    if i < n {
      assert probes[..n][..i] == probes[..i];
      RepliesInOrder(probes[..n], i);
    } else {
      RepliesAreAnswered(probes[..i]);
    }
  }

  /** What the loop leaves in a hop: the minimum starts at the first probe's time,
      answered or not, and the maximum at zero. */
  function StatsOf(probes: seq<Probe>): HopStats {
    if probes == [] then HopStats(0, 0, 0.0, 0.0, 0.0, 0.0)
    else
      var rs := Replies(probes);
      var loss := 1.0 - |rs| as real / |probes| as real;
      if rs == [] then HopStats(|probes|, 0, 0.0, 0.0, 0.0, loss)
      else HopStats(|probes|, |rs|, MinFrom(probes[0].rtt, rs), Sum(rs) / |rs| as real, MaxFrom(0.0, rs), loss)
  }

  method ProbeStats(probes: seq<Probe>) returns (stats: HopStats)
    ensures stats == StatsOf(probes)
    ensures stats.sent == |probes|
    ensures var answered := set i | 0 <= i < |probes| && probes[i].reply > 0; stats.received == |answered|
    ensures probes != [] ==> (stats.packetLoss == 1.0 <==> forall i | 0 <= i < |probes| :: probes[i].reply <= 0)
    ensures stats.received == 0 ==> stats.rttMin == stats.rttAvg == stats.rttMax == 0.0
    ensures probes == [] ==> stats.packetLoss == 0.0
  {
    StatsCount(probes);
    stats := HopStats(0, 0, 0.0, 0.0, 0.0, 0.0);
    if |probes| > 0 {
      var sum, min, max := 0.0, probes[0].rtt, 0.0;
      var received := 0;
      for i := 0 to |probes|
        invariant received == |Replies(probes[..i])|
        invariant sum == Sum(Replies(probes[..i]))
        invariant min == MinFrom(probes[0].rtt, Replies(probes[..i]))
        invariant max == MaxFrom(0.0, Replies(probes[..i]))
      {
        var p := probes[i];
        RepliesStep(probes, i);
        if p.reply > 0 {
          received := received + 1;
          sum := sum + p.rtt;
          if p.rtt < min { min := p.rtt; }
          if p.rtt > max { max := p.rtt; }
        }
      }
      assert probes[..|probes|] == probes;
      stats := stats.(sent := |probes|, received := received);
      if received > 0 {
        stats := stats.(rttMin := min, rttMax := max, rttAvg := sum / received as real);
      }
      stats := stats.(packetLoss := 1.0 - received as real / |probes| as real);
    }
  }

  lemma {:induction false} ExtremesBound(start: real, xs: seq<real>, lo: real, hi: real)
    requires lo <= MinFrom(start, xs) && MaxFrom(0.0, xs) <= hi
    ensures Times(|xs|, lo) <= Sum(xs) <= Times(|xs|, hi)
  {
    if xs != [] {
      ExtremesBound(start, xs[..|xs| - 1], lo, hi);
    }
  }

  lemma {:induction false} ExtremesAttained(start: real, xs: seq<real>)
    ensures MinFrom(start, xs) == start || MinFrom(start, xs) in xs
    ensures MinFrom(start, xs) <= start
    ensures forall i | 0 <= i < |xs| :: MinFrom(start, xs) <= xs[i]
    ensures MaxFrom(start, xs) == start || MaxFrom(start, xs) in xs
    ensures MaxFrom(start, xs) >= start
    ensures forall i | 0 <= i < |xs| :: xs[i] <= MaxFrom(start, xs)
  {
    if xs != [] {
      ExtremesAttained(start, xs[..|xs| - 1]);
    }
  }

  lemma {:induction false} RepliesCount(probes: seq<Probe>)
    ensures |Replies(probes)| <= |probes|
  {
    if probes != [] {
      RepliesCount(probes[..|probes| - 1]);
    }
  }

  lemma LossScaled(received: nat, sent: nat)
    requires sent > 0
    ensures (1.0 - received as real / sent as real) * sent as real == (sent - received) as real
  {
    var n, ratio := sent as real, received as real / sent as real;
    assert ratio * n == received as real;
    assert (1.0 - ratio) * n == n - ratio * n;
  }

  /** The counts and the loss of every probe list, silent ones included. */
  lemma StatsCount(probes: seq<Probe>)
    ensures var s, answered := StatsOf(probes), set i | 0 <= i < |probes| && probes[i].reply > 0;
      && s.sent == |probes| && s.received == |answered|
      && (probes != [] ==> (s.packetLoss == 1.0 <==> forall i | 0 <= i < |probes| :: probes[i].reply <= 0))
      && (probes != [] ==> (s.packetLoss == 0.0 <==> forall i | 0 <= i < |probes| :: probes[i].reply > 0))
      && (s.received == 0 ==> s.rttMin == s.rttAvg == s.rttMax == 0.0)
      && (probes == [] ==> s.packetLoss == 0.0)
  {
    RepliesAreAnswered(probes);
    assert Answered(probes) == set i | 0 <= i < |probes| && probes[i].reply > 0;
    if probes != [] {
      AllOrNone(probes);
      LossIsRatio(|Replies(probes)|, |probes|);
    }
  }

  lemma LossIsRatio(received: nat, sent: nat)
    requires sent > 0
    ensures 1.0 - received as real / sent as real == 1.0 <==> received == 0
    ensures 1.0 - received as real / sent as real == 0.0 <==> received == sent
  {
    var n := sent as real;
    var ratio := received as real / n;
    assert ratio * n == received as real;
    if received == sent {
      assert (ratio - 1.0) * n == ratio * n - n;
      if ratio < 1.0 { ScaleOrder(n, ratio, 1.0); } else if ratio > 1.0 { ScaleOrder(n, 1.0, ratio); }
    }
  }

  lemma {:induction false} AllOrNone(probes: seq<Probe>)
    ensures |Replies(probes)| == 0 <==> forall i | 0 <= i < |probes| :: probes[i].reply <= 0
    ensures |Replies(probes)| == |probes| <==> forall i | 0 <= i < |probes| :: probes[i].reply > 0
  {
    if probes != [] {
      var n := |probes| - 1;
      AllOrNone(probes[..n]);
      RepliesCount(probes[..n]);
      assert forall i | 0 <= i < n :: probes[..n][i] == probes[i];
    }
  }

  lemma QuotientScaled(total: real, n: real)
    requires n > 0.0
    ensures total / n * n == total
  {
  }

  /** The loss scaled back to probes is the number unanswered, and the average scaled
      back to replies is their sum. */
  lemma {:induction false} StatsBalance(probes: seq<Probe>)
    requires probes != []
    ensures var s := StatsOf(probes);
      && s.packetLoss * s.sent as real == (s.sent - s.received) as real
      && s.rttAvg * s.received as real == Sum(Replies(probes))
  {
    var rs := Replies(probes);
    LossScaled(|rs|, |probes|);
    if rs != [] {
      QuotientScaled(Sum(rs), |rs| as real);
    }
  }

  /** For every probe list: counts and loss are in range and, with a reply, the average
      lies between the extremes. No sign condition on the times is needed. */
  lemma StatsInRange(probes: seq<Probe>)
    requires probes != []
    ensures var s := StatsOf(probes);
      && 0 <= s.received <= s.sent == |probes|
      && 0.0 <= s.packetLoss <= 1.0
      && s.rttMin <= s.rttAvg <= s.rttMax
  {
    RepliesCount(probes);
    var rs := Replies(probes);
    QuotientBounds(|rs| as real, |probes| as real, 0.0, 1.0);
    if rs != [] {
      var lo, hi := MinFrom(probes[0].rtt, rs), MaxFrom(0.0, rs);
      ExtremesBound(probes[0].rtt, rs, lo, hi);
      AverageBetween(Sum(rs), |rs|, lo, hi);
    }
  }

  lemma MinimumOfReplies(start: real, rs: seq<real>)
    ensures MinFrom(start, rs) in rs <==> exists i | 0 <= i < |rs| :: rs[i] <= start
  {
    ExtremesAttained(start, rs);
    if exists i | 0 <= i < |rs| :: rs[i] <= start {
      var i :| 0 <= i < |rs| && rs[i] <= start;
      assert MinFrom(start, rs) == start ==> rs[i] == start;
    }
  }

  lemma MaximumOfReplies(start: real, rs: seq<real>)
    ensures MaxFrom(start, rs) in rs <==> exists i | 0 <= i < |rs| :: rs[i] >= start
  {
    ExtremesAttained(start, rs);
    if exists i | 0 <= i < |rs| :: rs[i] >= start {
      var i :| 0 <= i < |rs| && rs[i] >= start;
      assert MaxFrom(start, rs) == start ==> rs[i] == start;
    }
  }

  /** The minimum is the smallest answered time exactly when some answer is no slower
      than the first probe's recorded time, which an unanswered first probe may set
      below every answer; the maximum is the largest exactly when it is not negative. */
  lemma {:induction false} ExtremesOfReplies(probes: seq<Probe>)
    requires Replies(probes) != []
    ensures var s, rs := StatsOf(probes), Replies(probes);
      && (s.rttMin in rs <==> exists i | 0 <= i < |rs| :: rs[i] <= probes[0].rtt)
      && (s.rttMax in rs <==> exists i | 0 <= i < |rs| :: rs[i] >= 0.0)
      && (s.rttMin in rs || s.rttMin == probes[0].rtt) && s.rttMin <= probes[0].rtt
      && (s.rttMax in rs || s.rttMax == 0.0) && s.rttMax >= 0.0
      && forall i | 0 <= i < |rs| :: s.rttMin <= rs[i] <= s.rttMax
  {
    var rs := Replies(probes);
    MinimumOfReplies(probes[0].rtt, rs);
    MaximumOfReplies(0.0, rs);
    ExtremesAttained(probes[0].rtt, rs);
    ExtremesAttained(0.0, rs);
  }

  lemma {:induction false} SumOfParts(left: seq<real>, right: seq<real>)
    ensures Sum(left + right) == Sum(left) + Sum(right)
  {
    if right == [] {
      assert left + right == left;
    } else {
      assert (left + right)[..|left + right| - 1] == left + right[..|right| - 1];
      SumOfParts(left, right[..|right| - 1]);
    }
  }

  lemma {:induction false} RepliesOfParts(left: seq<Probe>, right: seq<Probe>)
    ensures Replies(left + right) == Replies(left) + Replies(right)
  {
    if right == [] {
      assert left + right == left;
    } else {
      assert (left + right)[..|left + right| - 1] == left + right[..|right| - 1];
      RepliesOfParts(left, right[..|right| - 1]);
    }
  }

  lemma {:induction false} MaximumOfParts(left: seq<real>, right: seq<real>)
    ensures var a, b := MaxFrom(0.0, left), MaxFrom(0.0, right);
      MaxFrom(0.0, left + right) == if a > b then a else b
  {
    ExtremesAttained(0.0, left);
    if right == [] {
      assert left + right == left;
    } else {
      assert (left + right)[..|left + right| - 1] == left + right[..|right| - 1];
      MaximumOfParts(left, right[..|right| - 1]);
    }
  }

  /** The total of the answered times, which the average scales back to: one probe adds
      its own time if it was answered. */
  lemma {:induction false} TotalOfParts(left: seq<Probe>, right: seq<Probe>, p: Probe)
    ensures Sum(Replies(left + right)) == Sum(Replies(left)) + Sum(Replies(right))
    ensures Sum(Replies([p])) == if p.reply > 0 then p.rtt else 0.0
  {
    RepliesOfParts(left, right);
    SumOfParts(Replies(left), Replies(right));
    assert [p][..0] == [];
    assert Replies([p]) == if p.reply > 0 then [p.rtt] else [];
    assert [p.rtt][..0] == [];
  }

  /** One probe gives its own time, or a total loss. */
  lemma StatsOfOne(p: Probe)
    ensures StatsOf([p]) == if p.reply > 0 then HopStats(1, 1, p.rtt, p.rtt, if p.rtt > 0.0 then p.rtt else 0.0, 0.0)
                            else HopStats(1, 0, 0.0, 0.0, 0.0, 1.0)
  {
    assert [p][..0] == [];
    assert Replies([p]) == if p.reply > 0 then [p.rtt] else [];
    if p.reply > 0 {
      assert [p.rtt][..0] == [];
      assert Sum([p.rtt]) == p.rtt;
      assert MinFrom(p.rtt, [p.rtt]) == p.rtt;
      assert MaxFrom(0.0, [p.rtt]) == if p.rtt > 0.0 then p.rtt else 0.0;
    }
  }

  lemma CountAndMaximum(probes: seq<Probe>)
    ensures StatsOf(probes).received == |Replies(probes)| && StatsOf(probes).rttMax == MaxFrom(0.0, Replies(probes))
  {
    RepliesCount(probes);
  }

  /** More probes add to the count and keep the larger maximum. */
  lemma StatsOfParts(left: seq<Probe>, right: seq<Probe>)
    ensures StatsOf(left + right).received == StatsOf(left).received + StatsOf(right).received
    ensures StatsOf(left + right).rttMax ==
      if StatsOf(left).rttMax > StatsOf(right).rttMax then StatsOf(left).rttMax else StatsOf(right).rttMax
  {
    CountAndMaximum(left);
    CountAndMaximum(right);
    CountAndMaximum(left + right);
    RepliesOfParts(left, right);
    MaximumOfParts(Replies(left), Replies(right));
  }

  /** Known ASNs are read hop by hop: unknown ones leave no trace. */
  lemma {:induction false} KnownOfParts(left: seq<Hop>, right: seq<Hop>, h: Hop)
    ensures KnownAsns(left + right) == KnownAsns(left) + KnownAsns(right)
    ensures KnownAsns([h]) == if h.asn == 0 then [] else [h.asn]
  {
    assert [h][..0] == [];
    if right == [] {
      assert left + right == left;
    } else {
      assert (left + right)[..|left + right| - 1] == left + right[..|right| - 1];
      KnownOfParts(left, right[..|right| - 1], h);
    }
  }
}
