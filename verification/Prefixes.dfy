/** IP networks and containment by address range. The prefix notation is that of
    section 3.1 of RFC 4632 and section 2.3 of RFC 4291: a base address and the
    number of leading bits every address of the network shares with it. */
module Prefixes {
  import opened Integers
  import opened Options

  datatype Family = V4 | V6

  function Width(family: Family): nat {
    match family
    case V4 => 32
    case V6 => 128
  }

  function Pow2(n: nat): (p: nat)
    ensures p > 0
  {
    if n == 0 then 1 else 2 * Pow2(n - 1)
  }

  datatype RawNetwork = RawNetwork(family: Family, base: nat, length: nat)

  /** The number of addresses of a network. */
  function Size(n: RawNetwork): nat
    requires n.length <= Width(n.family)
  {
    Pow2(Width(n.family) - n.length)
  }

  /** The length fits the family, the base is an address, the host bits are clear. */
  ghost predicate IsNetwork(n: RawNetwork) {
    && n.length <= Width(n.family)
    && n.base < Pow2(Width(n.family))
    && n.base % Size(n) == 0
  }

  ghost function DefaultNetwork(): (n: RawNetwork)
    ensures IsNetwork(n)
  {
    RawNetwork(V4, 0, 32)
  }

  type Network = n: RawNetwork | IsNetwork(n) ghost witness DefaultNetwork()

  function Broadcast(n: Network): nat {
    n.base + Size(n) - 1
  }

  predicate PrefixContains(parent: Network, child: Network) {
    && parent.family == child.family
    && child.base >= parent.base
    && Broadcast(child) <= Broadcast(parent)
  }

  predicate IsSubPrefix(monitored: Network, announced: Network) {
    && monitored.family == announced.family
    && !(announced.length <= monitored.length)
    && PrefixContains(monitored, announced)
  }

  predicate PrefixesOverlap(a: Network, b: Network) {
    PrefixContains(a, b) || PrefixContains(b, a)
  }

  /** The address `x` of family `family` lies in `n`. */
  ghost predicate Covers(n: Network, family: Family, x: nat) {
    n.family == family && n.base <= x <= Broadcast(n)
  }

  // ---------- Division by powers of two ----------

  lemma {:induction false} Pow2Sum(a: nat, b: nat)
    ensures Pow2(a + b) == Pow2(a) * Pow2(b)
  {
    if a > 0 {
      Pow2Sum(a - 1, b);
      assert Pow2(a + b) == 2 * (Pow2(a - 1) * Pow2(b));
    }
  }

  lemma Pow2Order(a: nat, b: nat)
    ensures a <= b <==> Pow2(a) <= Pow2(b)
    ensures a == b <==> Pow2(a) == Pow2(b)
  {
    Pow2Doubles(if a <= b then a else b, if a <= b then b else a);
  }

  lemma {:induction false} Pow2Doubles(a: nat, b: nat)
    requires a <= b
    ensures if a == b then Pow2(a) == Pow2(b) else 2 * Pow2(a) <= Pow2(b)
  {
    if a < b {
      Pow2Doubles(a, b - 1);
    }
  }

  /** An aligned block of size s lies inside one aligned block of size s * t. */
  lemma AlignedBlock(base: nat, s: nat, t: nat, d: nat)
    requires s > 0 && t > 0 && s * t > 0 && base % s == 0 && d < s
    ensures (base + d) / (s * t) == base / (s * t)
    ensures base % (s * t) + s <= s * t
  {
    var big := s * t;
    var q, r, m := base / big, base % big, base / s;
    assert base == big * q + r && base == s * m;
    var j := m - t * q;
    assert r == s * j by {
      assert s * (t * q) == big * q;
      assert s * j == s * m - s * (t * q);
    }
    MulReflectsOrder(s, j, t);
    DivisionIs(base + d, big, q, r + d);
  }

  /** Every address of a network falls in one block of any coarser length. */
  lemma BlockOf(n: Network, length: nat, x: nat)
    requires length <= n.length && n.base <= x <= Broadcast(n)
    ensures LeadingBits(n.family, x, length) == LeadingBits(n.family, n.base, length)
    ensures var big := Pow2(Width(n.family) - length); n.base % big + Size(n) <= big
  {
    var s, t := Size(n), Pow2(n.length - length);
    Pow2Sum(Width(n.family) - n.length, n.length - length);
    AlignedBlock(n.base, s, t, x - n.base);
  }

  /** The first `length` bits of an address, as a number. */
  function LeadingBits(family: Family, x: nat, length: nat): int
    requires length <= Width(family)
  {
    x / Pow2(Width(family) - length)
  }

  /** Bit `i` of an address, counted from the most significant one. */
  function BitAt(family: Family, x: nat, i: nat): nat
    requires i < Width(family)
  {
    LeadingBits(family, x, i + 1) % 2
  }

  lemma HalveTwice(x: nat, p: nat)
    requires p > 0
    ensures x / p == 2 * (x / (2 * p)) + x / p % 2
  {
    var k, b := x / p / 2, x / p % 2;
    assert x / p == 2 * k + b;
    assert x == p * (2 * k + b) + x % p;
    assert p * (2 * k + b) == (2 * p) * k + p * b;
    DivisionIs(x, 2 * p, k, p * b + x % p);
  }

  lemma LeadingBitsStep(family: Family, x: nat, i: nat)
    requires i < Width(family)
    ensures LeadingBits(family, x, i + 1) == 2 * LeadingBits(family, x, i) + BitAt(family, x, i)
  {
    HalveTwice(x, Pow2(Width(family) - i - 1));
  }

  lemma {:induction false} LeadingBitsAgree(family: Family, x: nat, y: nat, length: nat)
    requires length <= Width(family) && x < Pow2(Width(family)) && y < Pow2(Width(family))
    ensures LeadingBits(family, x, length) == LeadingBits(family, y, length)
       <==> forall i | 0 <= i < length :: BitAt(family, x, i) == BitAt(family, y, i)
  {
    if length == 0 {
      DivisionIs(x, Pow2(Width(family)), 0, x);
      DivisionIs(y, Pow2(Width(family)), 0, y);
    } else {
      LeadingBitsAgree(family, x, y, length - 1);
      LeadingBitsStep(family, x, length - 1);
      LeadingBitsStep(family, y, length - 1);
    }
  }

  // ---------- Containment ----------

  lemma ContainsIsLeadingBits(parent: Network, child: Network)
    requires parent.family == child.family
    ensures PrefixContains(parent, child) <==>
      && parent.length <= child.length
      && LeadingBits(parent.family, child.base, parent.length) == LeadingBits(parent.family, parent.base, parent.length)
  {
    var w := Width(parent.family);
    var big := Size(parent);
    Pow2Order(w - parent.length, w - child.length);
    if PrefixContains(parent, child) {
      assert Size(child) <= Size(parent);
      BlockOf(parent, parent.length, child.base);
    } else if parent.length <= child.length {
      BlockOf(child, parent.length, child.base);
      SameQuotient(child.base, parent.base, big);
    }
  }

  lemma SameQuotient(x: nat, y: nat, big: nat)
    requires big > 0 && y % big == 0
    ensures x / big == y / big ==> x == y + x % big
  {
  }

  /** The range test is the bit test: the parent is no longer than the child and the
      parent's leading bits are the child's. */
  lemma ContainsIsBitPrefix(parent: Network, child: Network)
    ensures PrefixContains(parent, child) <==>
      && parent.family == child.family
      && parent.length <= child.length
      && forall i | 0 <= i < parent.length :: BitAt(parent.family, parent.base, i) == BitAt(parent.family, child.base, i)
  {
    if parent.family == child.family {
      ContainsIsLeadingBits(parent, child);
      if parent.length <= child.length {
        LeadingBitsAgree(parent.family, parent.base, child.base, parent.length);
      }
    }
  }

  /** Two networks that share an address are nested. */
  lemma SharedAddressNests(a: Network, b: Network, family: Family, x: nat)
    requires Covers(a, family, x) && Covers(b, family, x)
    ensures if a.length <= b.length then PrefixContains(a, b) else PrefixContains(b, a)
  {
    var outer, inner := if a.length <= b.length then a else b, if a.length <= b.length then b else a;
    BlockOf(outer, outer.length, x);
    BlockOf(inner, outer.length, x);
    ContainsIsLeadingBits(outer, inner);
  }

  /** Laminarity: networks are nested or disjoint, so the overlap test holds exactly
      when some address lies in both. */
  lemma Laminarity(a: Network, b: Network)
    ensures PrefixesOverlap(a, b) <==> exists family, x: nat :: Covers(a, family, x) && Covers(b, family, x)
  {
    if PrefixContains(a, b) {
      assert Covers(a, b.family, b.base) && Covers(b, b.family, b.base);
    } else if PrefixContains(b, a) {
      assert Covers(a, a.family, a.base) && Covers(b, a.family, a.base);
    } else if exists family, x: nat :: Covers(a, family, x) && Covers(b, family, x) {
      var family, x: nat :| Covers(a, family, x) && Covers(b, family, x);
      SharedAddressNests(a, b, family, x);
    }
  }

  /** Containment is inclusion of address sets. */
  lemma ContainsIsInclusion(parent: Network, child: Network)
    ensures PrefixContains(parent, child) <==>
      forall family, x: nat | Covers(child, family, x) :: Covers(parent, family, x)
  {
    if forall family, x: nat | Covers(child, family, x) :: Covers(parent, family, x) {
      assert Covers(child, child.family, child.base);
      assert Covers(child, child.family, Broadcast(child));
    }
  }

  /** A sub-prefix is a strictly smaller set of addresses. */
  lemma SubPrefixIsStrict(monitored: Network, announced: Network)
    ensures IsSubPrefix(monitored, announced) <==> PrefixContains(monitored, announced) && monitored != announced
  {
    if monitored.family == announced.family {
      ContainsIsLeadingBits(monitored, announced);
      if PrefixContains(monitored, announced) && announced.length == monitored.length {
        assert Size(announced) == Size(monitored);
      }
    }
  }

  // ---------- Monitored-prefix lookup ----------

  /** The first prefix of `order`, one iteration order of the monitored set, that
      covers the announcement. `net` gives the network a prefix text denotes. */
  function MatchesAnyMonitored(announced: string, order: seq<string>, net: string -> Network): Option<string> {
    if order == [] then None
    else if PrefixContains(net(order[0]), net(announced)) then Some(order[0])
    else MatchesAnyMonitored(announced, order[1..], net)
  }

  lemma {:induction false} LookupFinds(announced: string, order: seq<string>, net: string -> Network)
    ensures match MatchesAnyMonitored(announced, order, net)
      case None => forall m | m in order :: !PrefixContains(net(m), net(announced))
      case Some(m) => exists i :: FirstCovering(announced, order, net, i) && order[i] == m
  {
    if order != [] {
      if PrefixContains(net(order[0]), net(announced)) {
        assert FirstCovering(announced, order, net, 0);
      } else {
        LookupFinds(announced, order[1..], net);
        assert order == [order[0]] + order[1..];
        if MatchesAnyMonitored(announced, order[1..], net).Some? {
          var i :| FirstCovering(announced, order[1..], net, i) && order[1..][i] == MatchesAnyMonitored(announced, order, net).value;
          assert FirstCovering(announced, order, net, i + 1);
        }
      }
    }
  }

  /** `order[i]` covers the announcement and no earlier entry does. */
  ghost predicate FirstCovering(announced: string, order: seq<string>, net: string -> Network, i: int) {
    && 0 <= i < |order|
    && PrefixContains(net(order[i]), net(announced))
    && forall j | 0 <= j < i :: !PrefixContains(net(order[j]), net(announced))
  }

  /** `order` is one iteration order of the monitored set. */
  ghost predicate Enumerates(order: seq<string>, monitored: set<string>) {
    && (forall m :: m in order <==> m in monitored)
    && (forall i, j | 0 <= i < j < |order| :: order[i] != order[j])
  }

  ghost predicate Incomparable(monitored: set<string>, net: string -> Network) {
    forall m, n | m in monitored && n in monitored && m != n :: !PrefixContains(net(m), net(n))
  }

  lemma AtMostOneMatch(announced: string, monitored: set<string>, net: string -> Network, m: string, n: string)
    requires Incomparable(monitored, net) && m in monitored && n in monitored
    requires PrefixContains(net(m), net(announced)) && PrefixContains(net(n), net(announced))
    ensures m == n
  {
    var a := net(announced);
    SharedAddressNests(net(m), net(n), a.family, a.base);
  }

  /** When no monitored prefix contains another, every iteration order gives the one
      covering prefix, and none exactly when nothing covers the announcement. */
  lemma OrderIrrelevant(announced: string, monitored: set<string>, order: seq<string>, other: seq<string>,
                        net: string -> Network)
    requires Incomparable(monitored, net) && Enumerates(order, monitored) && Enumerates(other, monitored)
    ensures MatchesAnyMonitored(announced, order, net) == MatchesAnyMonitored(announced, other, net)
    ensures MatchesAnyMonitored(announced, order, net) == None <==>
      forall m | m in monitored :: !PrefixContains(net(m), net(announced))
  {
    LookupFinds(announced, order, net);
    LookupFinds(announced, other, net);
    var x, y := MatchesAnyMonitored(announced, order, net), MatchesAnyMonitored(announced, other, net);
    if x.Some? && y.Some? {
      AtMostOneMatch(announced, monitored, net, x.value, y.value);
    }
  }

  lemma {:induction false} SomeOrder(monitored: set<string>) returns (order: seq<string>)
    ensures Enumerates(order, monitored)
  {
    if monitored == {} {
      order := [];
    } else {
      var m :| m in monitored;
      var rest := SomeOrder(monitored - {m});
      order := [m] + rest;
    }
  }

  lemma OrderStartingWith(monitored: set<string>, m: string) returns (order: seq<string>)
    requires m in monitored
    ensures Enumerates(order, monitored) && order != [] && order[0] == m
  {
    var rest := SomeOrder(monitored - {m});
    order := [m] + rest;
  }

  ghost predicate OrderDecides(announced: string, order: seq<string>, other: seq<string>, net: string -> Network) {
    MatchesAnyMonitored(announced, order, net) != MatchesAnyMonitored(announced, other, net)
  }

  /** The lookup is independent of the iteration order, for every announcement,
      exactly when no monitored prefix contains another one. */
  lemma LookupOrderIndependence(monitored: set<string>, net: string -> Network)
    ensures Incomparable(monitored, net) <==>
      !exists announced, order, other ::
        && Enumerates(order, monitored) && Enumerates(other, monitored)
        && OrderDecides(announced, order, other, net)
  {
    if Incomparable(monitored, net) {
      forall announced, order, other | Enumerates(order, monitored) && Enumerates(other, monitored)
        ensures !OrderDecides(announced, order, other, net)
      {
        OrderIrrelevant(announced, monitored, order, other, net);
      }
    } else {
      var m, n :| m in monitored && n in monitored && m != n && PrefixContains(net(m), net(n));
      var order := OrderStartingWith(monitored, m);
      var other := OrderStartingWith(monitored, n);
      assert OrderDecides(n, order, other, net);
    }
  }
}
