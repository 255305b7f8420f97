/** The ping canary's jitter: mean absolute difference of consecutive round-trip
    times, over exact numbers. */
module Ping {
  import opened Reals

  const NANOS_PER_MILLI := 1000000.0

  function Abs(x: real): real {
    if x < 0.0 then -x else x
  }

  /** The difference of two times in nanoseconds, as milliseconds. */
  function Millis(later: int, earlier: int): real {
    (later - earlier) as real / NANOS_PER_MILLI
  }

  /** Total variation of the first samples. */
  function Variation(rtts: seq<int>): real {
    if |rtts| < 2 then 0.0
    else Variation(rtts[..|rtts| - 1]) + Abs(Millis(rtts[|rtts| - 1], rtts[|rtts| - 2]))
  }

  function Jitter(rtts: seq<int>): real {
    if |rtts| < 2 then 0.0 else Variation(rtts) / (|rtts| - 1) as real
  }

  method ComputeJitter(rtts: seq<int>) returns (jitter: real)
    ensures jitter == Jitter(rtts)
  {
    if |rtts| < 2 {
      return 0.0;
    }
    var totalDiff := 0.0;
    for i := 1 to |rtts|
      invariant totalDiff == Variation(rtts[..i])
    {
      assert rtts[..i + 1][..i] == rtts[..i];
      var diff := Abs(Millis(rtts[i], rtts[i - 1]));
      totalDiff := totalDiff + diff;
    }
    assert rtts[..|rtts|] == rtts;
    return totalDiff / (|rtts| - 1) as real;
  }

  lemma {:induction false} VariationAtLeastNetChange(rtts: seq<int>)
    requires rtts != []
    ensures Variation(rtts) >= Abs(Millis(rtts[|rtts| - 1], rtts[0]))
  {
    if |rtts| > 1 {
      VariationAtLeastNetChange(rtts[..|rtts| - 1]);
    }
  }

  lemma {:induction false} VariationAtMostSpread(rtts: seq<int>, spread: real)
    requires rtts != [] && forall i | 0 < i < |rtts| :: Abs(Millis(rtts[i], rtts[i - 1])) <= spread
    ensures Variation(rtts) <= Times(|rtts| - 1, spread)
  {
    if |rtts| > 1 {
      VariationAtMostSpread(rtts[..|rtts| - 1], spread);
    }
  }

  lemma StepWithinSpread(a: int, b: int, lo: int, hi: int)
    requires lo <= a <= hi && lo <= b <= hi
    ensures Abs(Millis(a, b)) <= Millis(hi, lo)
  {
  }

  lemma {:induction false} VariationZero(rtts: seq<int>)
    ensures Variation(rtts) >= 0.0
    ensures Variation(rtts) == 0.0 <==> forall i | 0 < i < |rtts| :: rtts[i] == rtts[i - 1]
  {
    if |rtts| > 1 {
      var front := rtts[..|rtts| - 1];
      VariationZero(front);
      assert forall i | 0 <= i < |front| :: front[i] == rtts[i];
    }
  }

  lemma {:induction false} VariationPrepend(x: int, rtts: seq<int>)
    requires rtts != []
    ensures Variation([x] + rtts) == Abs(Millis(rtts[0], x)) + Variation(rtts)
  {
    var all := [x] + rtts;
    if |rtts| == 1 {
      assert all[..1] == [x] && Variation([x]) == 0.0;
    } else {
      var front := rtts[..|rtts| - 1];
      assert all[..|all| - 1] == [x] + front;
      VariationPrepend(x, front);
    }
  }

  function Reverse(rtts: seq<int>): (r: seq<int>)
    ensures |r| == |rtts|
    ensures forall i | 0 <= i < |r| :: r[i] == rtts[|rtts| - 1 - i]
  {
    if rtts == [] then [] else [rtts[|rtts| - 1]] + Reverse(rtts[..|rtts| - 1])
  }

  lemma {:induction false} VariationReversed(rtts: seq<int>)
    ensures Variation(Reverse(rtts)) == Variation(rtts)
  {
    if |rtts| > 1 {
      var front := rtts[..|rtts| - 1];
      VariationReversed(front);
      VariationPrepend(rtts[|rtts| - 1], Reverse(front));
    }
  }

  lemma JitterAtMost(rtts: seq<int>, spread: real)
    requires |rtts| >= 2 && forall i | 0 < i < |rtts| :: Abs(Millis(rtts[i], rtts[i - 1])) <= spread
    ensures Jitter(rtts) <= spread
  {
    var n := |rtts| - 1;
    VariationAtMostSpread(rtts, spread);
    TimesIsProduct(n, spread);
    UpperQuotient(Variation(rtts), n as real, spread);
  }

  lemma UpperQuotient(total: real, m: real, hi: real)
    requires m > 0.0 && total <= m * hi
    ensures total / m <= hi
  {
    assert m * (total / m) == total;
    ScaleOrder(m, hi, total / m);
  }

  /** With at least two samples the jitter lies between the net change per step and the
      spread of the samples. */
  lemma JitterBounds(rtts: seq<int>, lo: int, hi: int)
    requires |rtts| >= 2 && forall i | 0 <= i < |rtts| :: lo <= rtts[i] <= hi
    ensures Abs(Millis(rtts[|rtts| - 1], rtts[0])) / (|rtts| - 1) as real <= Jitter(rtts) <= Millis(hi, lo)
  {
    VariationAtLeastNetChange(rtts);
    forall i | 0 < i < |rtts| ensures Abs(Millis(rtts[i], rtts[i - 1])) <= Millis(hi, lo) {
      StepWithinSpread(rtts[i], rtts[i - 1], lo, hi);
    }
    JitterAtMost(rtts, Millis(hi, lo));
    QuotientMonotone(Abs(Millis(rtts[|rtts| - 1], rtts[0])), Variation(rtts), (|rtts| - 1) as real);
  }

  lemma {:induction false} AdjacentEqualMeansAllEqual(rtts: seq<int>, i: nat)
    requires i < |rtts| && forall j | 0 < j < |rtts| :: rtts[j] == rtts[j - 1]
    ensures rtts[i] == rtts[0]
  {
    if i > 0 {
      AdjacentEqualMeansAllEqual(rtts, i - 1);
    }
  }

  /** The jitter is zero exactly when all samples are equal. */
  lemma JitterZero(rtts: seq<int>)
    ensures Jitter(rtts) >= 0.0
    ensures Jitter(rtts) == 0.0 <==> forall i, j | 0 <= i < |rtts| && 0 <= j < |rtts| :: rtts[i] == rtts[j]
  {
    VariationZero(rtts);
    if |rtts| >= 2 {
      var n := (|rtts| - 1) as real;
      assert Jitter(rtts) * n == Variation(rtts);
      if Variation(rtts) == 0.0 {
        forall i, j | 0 <= i < |rtts| && 0 <= j < |rtts| ensures rtts[i] == rtts[j] {
          AdjacentEqualMeansAllEqual(rtts, i);
          AdjacentEqualMeansAllEqual(rtts, j);
        }
      }
    }
  }

  lemma JitterReversed(rtts: seq<int>)
    ensures Jitter(Reverse(rtts)) == Jitter(rtts)
  {
    VariationReversed(rtts);
  }

  lemma VariationSnoc(rtts: seq<int>, x: int)
    requires rtts != []
    ensures Variation(rtts + [x]) == Variation(rtts) + (if x < rtts[|rtts| - 1] then rtts[|rtts| - 1] - x else x - rtts[|rtts| - 1]) as real / 1000000.0
  {
    assert (rtts + [x])[..|rtts|] == rtts;
  }

  lemma JitterScaled(rtts: seq<int>)
    requires |rtts| >= 2
    ensures Jitter(rtts) * (|rtts| - 1) as real == Variation(rtts)
  {
  }

  /** One more sample adds its distance, in milliseconds, from the one before; fewer
      than two samples have no jitter. Together this determines the jitter. */
  lemma JitterGrows(rtts: seq<int>, x: int)
    ensures |rtts| < 2 ==> Jitter(rtts) == 0.0
    ensures rtts != [] ==>
      var last := rtts[|rtts| - 1];
      Jitter(rtts + [x]) * |rtts| as real
        == Jitter(rtts) * (|rtts| - 1) as real + (if x < last then last - x else x - last) as real / 1000000.0
  {
    if rtts != [] {
      VariationSnoc(rtts, x);
      JitterScaled(rtts + [x]);
      if |rtts| > 1 {
        JitterScaled(rtts);
      }
    }
  }
}
