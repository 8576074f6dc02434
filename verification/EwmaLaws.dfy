/** What the smoothed estimator learns and how it weighs it, said over the samples alone. */
module EwmaLaws {
  import opened Prelude
  import opened Multiples
  import opened Ewma

  // ----- which gaps are learned

  /** Samples `i` and `j` are consecutive content changes, the later one may teach, and time has passed between them. */
  ghost predicate Teaches(samples: seq<Sample>, i: nat, j: nat) {
    && i < j < |samples| && samples[i].contentChanged && samples[j].contentChanged
    && (forall k :: i < k < j ==> !samples[k].contentChanged)
    && samples[j].learnInterval && samples[i].at < samples[j].at
  }

  ghost predicate IsTaught(samples: seq<Sample>, j: nat) {
    exists i: nat :: Teaches(samples, i, j)
  }

  lemma {:induction false} LastChangeIsLast(samples: seq<Sample>, n: nat)
    requires n <= |samples|
    ensures LastChange(samples[..n]).None? <==> forall k :: 0 <= k < n ==> !samples[k].contentChanged
    ensures LastChange(samples[..n]).Some? ==> exists i: nat ::
              && i < n && samples[i].contentChanged && samples[i].at == LastChange(samples[..n]).value
              && forall k :: i < k < n ==> !samples[k].contentChanged
  {
    if n > 0 {
      assert samples[..n][..n - 1] == samples[..n - 1];
      LastChangeIsLast(samples, n - 1);
    }
  }

  /** The gap a sample teaches is the time since the content change before it. */
  lemma IntervalIsGap(samples: seq<Sample>, j: nat)
    requires j < |samples|
    ensures Interval(LastChange(samples[..j]), samples[j]).Some? <==> IsTaught(samples, j)
    ensures forall i: nat :: Teaches(samples, i, j) ==>
              Interval(LastChange(samples[..j]), samples[j]) == Some(samples[j].at - samples[i].at)
  {
    LastChangeIsLast(samples, j);
    var last := LastChange(samples[..j]);
    if last.Some? {
      var i: nat :| i < j && samples[i].contentChanged && samples[i].at == last.value
                    && forall k :: i < k < j ==> !samples[k].contentChanged;
      assert Interval(last, samples[j]).Some? ==> Teaches(samples, i, j);
      forall k: nat | Teaches(samples, k, j)
        ensures k == i
      {}
    }
  }

  ghost function Taught(samples: seq<Sample>, n: nat): set<nat> {
    set j: nat | j < n && IsTaught(samples, j)
  }

  lemma LearnedNext(samples: seq<Sample>, n: nat)
    requires n < |samples|
    ensures Learned(samples[..n + 1]) == Extended(Learned(samples[..n]), Interval(LastChange(samples[..n]), samples[n]))
  {
    LearnedStep(samples[..n], samples[n]);
    assert samples[..n + 1] == samples[..n] + [samples[n]];
  }

  lemma TaughtNext(samples: seq<Sample>, n: nat)
    ensures |Taught(samples, n + 1)| == |Taught(samples, n)| + if IsTaught(samples, n) then 1 else 0
  {
    assert Taught(samples, n + 1) == Taught(samples, n) + if IsTaught(samples, n) then {n} else {};
  }

  /** As many intervals are learned as samples teach one. */
  lemma {:induction false} LearnedCount(samples: seq<Sample>, n: nat)
    requires n <= |samples|
    ensures |Learned(samples[..n])| == |Taught(samples, n)|
  {
    if n == 0 {
      assert Taught(samples, 0) == {};
    } else {
      LearnedCount(samples, n - 1);
      LearnedNext(samples, n - 1);
      IntervalIsGap(samples, n - 1);
      TaughtNext(samples, n - 1);
    }
  }

  lemma NewestGap(samples: seq<Sample>, i: nat, j: nat)
    requires Teaches(samples, i, j)
    ensures |Taught(samples, j)| < |Learned(samples[..j + 1])|
    ensures Learned(samples[..j + 1])[|Taught(samples, j)|] == samples[j].at - samples[i].at
  {
    LearnedCount(samples, j);
    IntervalIsGap(samples, j);
    LearnedNext(samples, j);
  }

  /** Each of them, in order, is the gap it teaches. */
  lemma {:induction false} LearnedGap(samples: seq<Sample>, n: nat, i: nat, j: nat)
    requires j < n <= |samples| && Teaches(samples, i, j)
    ensures |Taught(samples, j)| < |Learned(samples[..n])|
    ensures Learned(samples[..n])[|Taught(samples, j)|] == samples[j].at - samples[i].at
  {
    if j < n - 1 {
      LearnedGap(samples, n - 1, i, j);
      LearnedNext(samples, n - 1);
    } else {
      NewestGap(samples, i, j);
    }
  }

  // ----- how they are weighed

  function Decay(k: nat): real {
    if k == 0 then 1.0 else 7.0 / 8.0 * Decay(k - 1)
  }

  function Repeated(r: real, k: nat): seq<real> {
    seq(k, _ => r)
  }

  lemma RepeatedNext(intervals: seq<real>, r: real, k: nat)
    requires k > 0
    ensures intervals + Repeated(r, k) == intervals + Repeated(r, k - 1) + [r]
  {}

  /** After `k` intervals of one length the mean has kept seven eighths, `k` times over, of its distance to it. */
  lemma {:induction false} MeanDecays(intervals: seq<real>, r: real, k: nat)
    requires intervals != []
    ensures Mean(intervals + Repeated(r, k)) - r == Mul(Decay(k), Mean(intervals) - r)
  {
    if k == 0 {
      assert intervals + Repeated(r, 0) == intervals;
    } else {
      var before := intervals + Repeated(r, k - 1);
      MeanDecays(intervals, r, k - 1);
      RepeatedNext(intervals, r, k);
      AverageStep(before, r);
      OneDecay(Mean(before), r, Decay(k - 1), Mean(intervals) - r);
    }
  }

  lemma OneDecay(mean: real, r: real, d: real, x: real)
    requires mean - r == Mul(d, x)
    ensures 0.875 * mean + 0.125 * r - r == Mul(7.0 / 8.0 * d, x)
  {}

  /** The first two intervals: the mean moves an eighth of the way to the second, and the variation a quarter of the way
      from half of the first to the distance between them. The answer is the mean and four variations. */
  lemma TwoIntervals(a: real, b: real)
    requires 0.0 < a <= b
    ensures Answer([a]) == 3.0 * a
    ensures Mean([a, b]) == a + (b - a) / 8.0
    ensures Variation([a, b]) == a / 2.0 + ((b - a) - a / 2.0) / 4.0
    ensures Answer([a, b]) == 11.0 / 8.0 * a + 9.0 / 8.0 * b
  {
    AverageStep([], a);
    AverageStep([a], b);
    assert [] + [a] == [a] && [a] + [b] == [a, b];
  }
}
