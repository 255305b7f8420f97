/** AS paths as sequences of AS numbers: run compression, the "same route with
    repeats" relation, contiguous segments and shared ASNs. */
module AsPaths {

  type Asn = int
  type AsPath = seq<Asn>

  function Last(path: AsPath): Asn
    requires path != []
  {
    path[|path| - 1]
  }

  ghost predicate NoAdjacentRepeats(path: AsPath) {
    forall i | 0 < i < |path| :: path[i - 1] != path[i]
  }

  /** Appends an ASN unless it repeats the last one: the step both the analyzer's
      parser and the traceroute canary take per ASN. */
  function AppendDistinct(path: AsPath, asn: Asn): AsPath {
    if path == [] || Last(path) != asn then path + [asn] else path
  }

  function RunCompress(path: AsPath): AsPath {
    if path == [] then [] else AppendDistinct(RunCompress(path[..|path| - 1]), Last(path))
  }

  lemma RunCompressSnoc(path: AsPath, asn: Asn)
    ensures RunCompress(path + [asn]) == AppendDistinct(RunCompress(path), asn)
  {
    assert (path + [asn])[..|path|] == path;
  }

  /** Appends several ASNs, one at a time. */
  function AppendAll(path: AsPath, asns: AsPath): AsPath {
    if asns == [] then path else AppendDistinct(AppendAll(path, asns[..|asns| - 1]), Last(asns))
  }

  lemma AppendAllSnoc(path: AsPath, asns: AsPath, asn: Asn)
    ensures AppendAll(path, asns + [asn]) == AppendDistinct(AppendAll(path, asns), asn)
  {
    assert (asns + [asn])[..|asns|] == asns;
  }

  lemma {:induction false} RunCompressAppend(path: AsPath, asns: AsPath)
    ensures RunCompress(path + asns) == AppendAll(RunCompress(path), asns)
  {
    if asns == [] {
      assert path + asns == path;
    } else {
      var front := asns[..|asns| - 1];
      assert path + asns == (path + front) + [Last(asns)];
      RunCompressAppend(path, front);
      RunCompressSnoc(path + front, Last(asns));
    }
  }

  /** `path` is `route` with every entry repeated one or more times in place. */
  ghost predicate Stretches(path: AsPath, route: AsPath) {
    if route == [] then path == []
    else
      && path != []
      && path[0] == route[0]
      && (Stretches(path[1..], route) || Stretches(path[1..], route[1..]))
  }

  /** Concatenation of two compressed paths, merging an equal seam. */
  ghost function Glue(left: AsPath, right: AsPath): AsPath {
    if left != [] && right != [] && Last(left) == right[0] then left + right[1..] else left + right
  }

  lemma {:induction false} RunCompressShape(path: AsPath)
    ensures var c := RunCompress(path);
      && NoAdjacentRepeats(c)
      && (c == [] <==> path == [])
      && (path != [] ==> Last(c) == Last(path))
  {
    if path != [] {
      RunCompressShape(path[..|path| - 1]);
    }
  }

  /** Compression is a homomorphism into glued concatenation. */
  lemma {:induction false} RunCompressConcat(left: AsPath, right: AsPath)
    ensures RunCompress(left + right) == Glue(RunCompress(left), RunCompress(right))
  {
    if right == [] {
      assert left + right == left;
    } else {
      var front := right[..|right| - 1];
      assert left + right == (left + front) + [Last(right)] && right == front + [Last(right)];
      RunCompressSnoc(left + front, Last(right));
      RunCompressSnoc(front, Last(right));
      RunCompressConcat(left, front);
      RunCompressShape(left);
      RunCompressShape(front);
      GlueSnoc(RunCompress(left), RunCompress(front), Last(right));
    }
  }

  lemma GlueSnoc(left: AsPath, right: AsPath, asn: Asn)
    ensures AppendDistinct(Glue(left, right), asn) == Glue(left, AppendDistinct(right, asn))
  {
    if right == [] {
      assert left + right == left;
    } else {
      assert Last(Glue(left, right)) == Last(right);
    }
  }

  lemma {:induction false} RunCompressCons(asn: Asn, rest: AsPath)
    ensures RunCompress([asn] + rest) == Glue([asn], RunCompress(rest))
  {
    RunCompressConcat([asn], rest);
    assert [asn][..0] == [];
    assert RunCompress([asn]) == [asn];
  }

  lemma {:induction false} RunCompressHead(path: AsPath)
    requires path != []
    ensures RunCompress(path) != [] && RunCompress(path)[0] == path[0]
  {
    assert path == [path[0]] + path[1..];
    RunCompressCons(path[0], path[1..]);
  }

  lemma {:induction false} CompressedIsFixed(path: AsPath)
    requires NoAdjacentRepeats(path)
    ensures RunCompress(path) == path
  {
    if path != [] {
      CompressedIsFixed(path[..|path| - 1]);
    }
  }

  lemma {:induction false} StretchesOwnCompression(path: AsPath)
    ensures Stretches(path, RunCompress(path))
  {
    if path != [] {
      var rest := path[1..];
      assert path == [path[0]] + rest;
      RunCompressCons(path[0], rest);
      StretchesOwnCompression(rest);
      var c := RunCompress(rest);
      if c != [] && c[0] == path[0] {
        assert RunCompress(path) == c;
      } else {
        assert RunCompress(path)[1..] == c;
      }
    }
  }

  lemma {:induction false} StretchesSameCompression(path: AsPath, route: AsPath)
    requires Stretches(path, route)
    ensures RunCompress(path) == RunCompress(route)
    decreases |path| + |route|
  {
    if route != [] {
      var a := route[0];
      assert path == [a] + path[1..] && route == [a] + route[1..];
      RunCompressCons(a, path[1..]);
      RunCompressCons(a, route[1..]);
      RunCompressHead(route);
      if Stretches(path[1..], route) {
        StretchesSameCompression(path[1..], route);
      } else {
        StretchesSameCompression(path[1..], route[1..]);
      }
    }
  }

  /** Run compression is exactly the repeat-free route that the path stretches. */
  lemma RunCompressUnique(path: AsPath, route: AsPath)
    ensures Stretches(path, route) && NoAdjacentRepeats(route) <==> route == RunCompress(path)
  {
    StretchesOwnCompression(path);
    RunCompressShape(path);
    if Stretches(path, route) && NoAdjacentRepeats(route) {
      StretchesSameCompression(path, route);
      CompressedIsFixed(route);
    }
  }

  /** Compressing a suffix yields a suffix of the compression. */
  lemma CompressSuffix(front: AsPath, back: AsPath)
    ensures var c, s := RunCompress(front + back), RunCompress(back);
      |s| <= |c| && c[|c| - |s|..] == s
  {
    RunCompressConcat(front, back);
    GlueEndsInRight(RunCompress(front), RunCompress(back));
  }

  lemma GlueEndsInRight(left: AsPath, right: AsPath)
    ensures var c := Glue(left, right);
      |right| <= |c| && c[|c| - |right|..] == right
  {
  }

  lemma {:induction false} CompressedLength(path: AsPath)
    ensures |RunCompress(path)| >= 2 <==> exists i | 0 < i < |path| :: path[i - 1] != path[i]
  {
    if path != [] {
      var front := path[..|path| - 1];
      CompressedLength(front);
      RunCompressShape(front);
      if exists i | 0 < i < |front| :: front[i - 1] != front[i] {
        var i :| 0 < i < |front| && front[i - 1] != front[i];
        assert path[i - 1] != path[i];
      } else if front != [] && Last(front) == Last(path) {
        forall i | 0 < i < |path| ensures path[i - 1] == path[i] {
          if i < |front| { assert front[i - 1] == front[i]; }
        }
      } else if front != [] {
        assert path[|path| - 2] != path[|path| - 1];
      }
    }
  }

  /** `sub` occurs in `full` as a contiguous segment. */
  ghost predicate IsSegment(sub: AsPath, full: AsPath) {
    exists i | 0 <= i <= |full| - |sub| :: SegmentAt(sub, full, i)
  }

  ghost predicate SegmentAt(sub: AsPath, full: AsPath, i: int) {
    0 <= i <= |full| - |sub| && full[i..i + |sub|] == sub
  }

  method IsSubsequence(sub: AsPath, full: AsPath) returns (found: bool)
    ensures found <==> IsSegment(sub, full)
  {
    if |sub| == 0 {
      assert SegmentAt(sub, full, 0);
      return true;
    }
    if |sub| > |full| {
      return false;
    }
    var i := 0;
    while i <= |full| - |sub|
      invariant 0 <= i <= |full| - |sub| + 1
      invariant forall k | 0 <= k < i :: !SegmentAt(sub, full, k)
    {
      var same := true;
      var j := 0;
      while j < |sub|
        invariant 0 <= j <= |sub| && same
        invariant forall k | 0 <= k < j :: full[i + k] == sub[k]
      {
        if full[i + j] != sub[j] {
          same := false;
          assert full[i..i + |sub|][j] != sub[j];
          break;
        }
        j := j + 1;
      }
      if same {
        assert SegmentAt(sub, full, i);
        return true;
      }
      i := i + 1;
    }
    return false;
  }

  ghost function Asns(path: AsPath): set<Asn> {
    set i | 0 <= i < |path| :: path[i]
  }

  /** Positions of `path` whose ASN belongs to `asns`, with multiplicity. */
  ghost function CountIn(path: AsPath, asns: set<Asn>): nat {
    if path == [] then 0
    else CountIn(path[..|path| - 1], asns) + if Last(path) in asns then 1 else 0
  }

  method PathOverlap(a: AsPath, b: AsPath) returns (count: nat)
    ensures count == CountIn(b, Asns(a))
    ensures var shared := set j | 0 <= j < |b| && exists i :: 0 <= i < |a| && a[i] == b[j]; count == |shared|
  {
    var members: set<Asn> := {};
    for i := 0 to |a|
      invariant members == Asns(a[..i])
    {
      assert a[..i + 1] == a[..i] + [a[i]];
      members := members + {a[i]};
    }
    assert a[..|a|] == a;
    count := 0;
    for i := 0 to |b|
      invariant count == CountIn(b[..i], members)
    {
      assert b[..i + 1][..i] == b[..i];
      if b[i] in members {
        count := count + 1;
      }
    }
    assert b[..|b|] == b;
    CountInIsSetSize(b, Asns(a));
    assert (set j | 0 <= j < |b| && b[j] in Asns(a))
        == (set j | 0 <= j < |b| && exists i :: 0 <= i < |a| && a[i] == b[j]);
  }

  lemma {:induction false} CountInIsSetSize(path: AsPath, asns: set<Asn>)
    ensures var positions := set j | 0 <= j < |path| && path[j] in asns; CountIn(path, asns) == |positions|
  {
    var positions := set j | 0 <= j < |path| && path[j] in asns;
    if path == [] {
      assert positions == {};
    } else {
      var n := |path| - 1;
      CountInIsSetSize(path[..n], asns);
      var before := set j | 0 <= j < |path[..n]| && path[..n][j] in asns;
      assert positions == if path[n] in asns then before + {n} else before;
    }
  }

  /** No ASN of `asns` occupies two positions of `path`. */
  ghost predicate SharedOnce(path: AsPath, asns: set<Asn>) {
    forall i, j | 0 <= i < j < |path| && path[i] in asns :: path[i] != path[j]
  }

  lemma SharedOnceStep(front: AsPath, x: Asn, asns: set<Asn>)
    ensures SharedOnce(front + [x], asns) <==> SharedOnce(front, asns) && !(x in asns && x in Asns(front))
  {
    var b := front + [x];
    if SharedOnce(b, asns) {
      forall i, j | 0 <= i < j < |front| && front[i] in asns ensures front[i] != front[j] {
        assert b[i] == front[i] && b[j] == front[j];
      }
      forall i | 0 <= i < |front| && front[i] in asns ensures front[i] != x {
        assert b[i] == front[i] && b[|front|] == x;
      }
    }
  }

  lemma IntersectionStep(front: AsPath, x: Asn, asns: set<Asn>)
    ensures |asns * Asns(front + [x])| == |asns * Asns(front)| + if x in asns && x !in Asns(front) then 1 else 0
  {
    var b := front + [x];
    assert b[|front|] == x && forall i | 0 <= i < |front| :: b[i] == front[i];
    assert Asns(b) == Asns(front) + {x};
    if x in asns && x !in Asns(front) {
      assert asns * Asns(front + [x]) == asns * Asns(front) + {x};
    } else {
      assert asns * Asns(front + [x]) == asns * Asns(front);
    }
  }

  /** The overlap count is the size of the set intersection exactly when no shared
      ASN occurs twice in the second path, and exceeds it otherwise. */
  lemma {:induction false} OverlapVersusIntersection(b: AsPath, asns: set<Asn>)
    ensures CountIn(b, asns) >= |asns * Asns(b)|
    ensures CountIn(b, asns) == |asns * Asns(b)| <==> SharedOnce(b, asns)
  {
    if b == [] {
      assert asns * Asns(b) == {};
    } else {
      var front, x := b[..|b| - 1], Last(b);
      assert b == front + [x];
      OverlapVersusIntersection(front, asns);
      SharedOnceStep(front, x, asns);
      IntersectionStep(front, x, asns);
    }
  }

  lemma {:induction false} SharedLastCounts(b: AsPath, asns: set<Asn>)
    requires b != [] && Last(b) in asns
    ensures CountIn(b, asns) > 0
  {
  }
}
