/** The smoothed-interval estimator. */
module Ewma {
  import opened Prelude

  /** What the estimator reads from one observation. */
  datatype Sample = Sample(at: real, contentChanged: bool, learnInterval: bool)

  function Distance(x: real, y: real): (d: real)
    ensures d >= 0.0 && (d == x - y || d == y - x)
  {
    if x < y then y - x else x - y
  }

  /** The interval a sample teaches after a content change at `last`. */
  function Interval(last: Option<real>, sample: Sample): Option<real> {
    if sample.contentChanged && last.Some? && sample.learnInterval && sample.at > last.value
    then Some(sample.at - last.value)
    else None
  }

  /** The time of the last content change among the samples. */
  function LastChange(samples: seq<Sample>): Option<real> {
    if samples == [] then None
    else
      var sample := samples[|samples| - 1];
      if sample.contentChanged then Some(sample.at) else LastChange(samples[..|samples| - 1])
  }

  /** The intervals a history teaches, oldest first: the gaps between
      consecutive content changes whose later end is allowed to teach. */
  function Learned(samples: seq<Sample>): (intervals: seq<real>)
    ensures forall i :: 0 <= i < |intervals| ==> intervals[i] > 0.0
  {
    if samples == [] then []
    else
      var before := samples[..|samples| - 1];
      var interval := Interval(LastChange(before), samples[|samples| - 1]);
      Learned(before) + if interval.Some? then [interval.value] else []
  }

  /** Section 2 of RFC 6298 with alpha = 1/8 and beta = 1/4: the first interval R
      gives (R, R/2). */
  function Mean(intervals: seq<real>): real
    requires intervals != []
  {
    var n := |intervals| - 1;
    if n == 0 then intervals[0]
    else 0.875 * Mean(intervals[..n]) + 0.125 * intervals[n]
  }

  function Variation(intervals: seq<real>): real {
    if intervals == [] then 0.0
    else
      var n := |intervals| - 1;
      if n == 0 then intervals[0] / 2.0
      else 0.75 * Variation(intervals[..n]) + 0.25 * Distance(Mean(intervals[..n]), intervals[n])
  }

  function Answer(intervals: seq<real>): real {
    if intervals == [] then 0.0 else Mean(intervals) + 4.0 * Variation(intervals)
  }

  predicate Within(intervals: seq<real>, low: real, high: real) {
    forall i :: 0 <= i < |intervals| ==> low <= intervals[i] <= high
  }

  /** The mean stays among the intervals it averages. */
  lemma {:induction false} MeanWithin(intervals: seq<real>, low: real, high: real)
    requires intervals != [] && Within(intervals, low, high)
    ensures low <= Mean(intervals) <= high
  {
    var n := |intervals| - 1;
    if n > 0 {
      MeanWithin(intervals[..n], low, high);
    }
  }

  /** The variation is at most half of the greatest interval or the spread,
      whichever is larger, and never negative. */
  lemma {:induction false} VariationWithin(intervals: seq<real>, low: real, high: real)
    requires intervals != [] && 0.0 < low && Within(intervals, low, high)
    ensures 0.0 <= Variation(intervals) <= if high - low <= high / 2.0 then high / 2.0 else high - low
  {
    var n := |intervals| - 1;
    if n > 0 {
      MeanWithin(intervals[..n], low, high);
      VariationWithin(intervals[..n], low, high);
    }
  }

  /** An answer is never negative, at least the smallest interval learned, and
      less than five times the greatest one. */
  lemma AnswerBounds(intervals: seq<real>, low: real, high: real)
    requires 0.0 < low && Within(intervals, low, high)
    ensures 0.0 <= Answer(intervals)
    ensures intervals != [] ==> low <= Answer(intervals) < 5.0 * high
  {
    if intervals != [] {
      assert low <= intervals[0] <= high;
      MeanWithin(intervals, low, high);
      VariationWithin(intervals, low, high);
    }
  }

  function Power(n: nat): (p: real)
    ensures p > 0.0
  {
    if n == 0 then 1.0 else 0.75 * Power(n - 1)
  }

  /** On a steady stream of interval R the mean is R and the answer falls
      geometrically from 3R towards R. */
  lemma {:induction false} SteadyAnswer(intervals: seq<real>, r: real)
    requires intervals != [] && Within(intervals, r, r)
    ensures Mean(intervals) == r
    ensures Variation(intervals) == Power(|intervals| - 1) * (r / 2.0)
    ensures Answer(intervals) == r + Power(|intervals| - 1) * (2.0 * r)
  {
    var n := |intervals| - 1;
    if n > 0 {
      SteadyAnswer(intervals[..n], r);
    }
  }

  function Extended(intervals: seq<real>, interval: Option<real>): seq<real> {
    if interval.Some? then intervals + [interval.value] else intervals
  }

  /** What one more sample does to the intervals learned. */
  lemma LearnedStep(samples: seq<Sample>, sample: Sample)
    ensures LastChange(samples + [sample]) == if sample.contentChanged then Some(sample.at) else LastChange(samples)
    ensures Learned(samples + [sample]) == Extended(Learned(samples), Interval(LastChange(samples), sample))
  {
    assert (samples + [sample])[..|samples|] == samples;
  }

  /** What one more interval does to the two averages. */
  lemma AverageStep(intervals: seq<real>, interval: real)
    ensures intervals == [] ==> Mean(intervals + [interval]) == interval && Variation(intervals + [interval]) == interval / 2.0
    ensures intervals != [] ==>
              && Mean(intervals + [interval]) == 0.875 * Mean(intervals) + 0.125 * interval
              && Variation(intervals + [interval])
                 == 0.75 * Variation(intervals) + 0.25 * Distance(Mean(intervals), interval)
  {
    assert (intervals + [interval])[..|intervals|] == intervals;
  }

  lemma {:induction false} AveragesNonnegative(intervals: seq<real>)
    requires forall i :: 0 <= i < |intervals| ==> intervals[i] > 0.0
    ensures intervals != [] ==> Mean(intervals) > 0.0
    ensures Variation(intervals) >= 0.0
  {
    var n := |intervals| - 1;
    if n > 0 {
      AveragesNonnegative(intervals[..n]);
    }
  }

  class EwmaEstimator {
    var last: Option<real>
    var mean: Option<real>
    var variation: real
    ghost var history: seq<Sample>

    ghost predicate Averages(intervals: seq<real>)
      reads this
    {
      && (mean.None? <==> intervals == [])
      && (mean.Some? ==> mean.value == Mean(intervals))
      && variation == Variation(intervals)
    }

    ghost predicate Valid()
      reads this
    {
      && last == LastChange(history)
      && Averages(Learned(history))
    }

    constructor ()
      ensures Valid() && history == []
    {
      last, mean, variation, history := None, None, 0.0, [];
    }

    /** The variation is updated first, with the mean of the earlier intervals. */
    method Learn(interval: real, ghost intervals: seq<real>)
      requires Averages(intervals)
      modifies this`mean, this`variation
      ensures Averages(intervals + [interval])
    {
      AverageStep(intervals, interval);
      if mean.None? {
        mean, variation := Some(interval), interval / 2.0;
      } else {
        variation := 0.75 * variation + 0.25 * Distance(mean.value, interval);
        mean := Some(0.875 * mean.value + 0.125 * interval);
      }
    }

    function Quiet(ghost intervals: seq<real>): (quiet: real)
      requires Averages(intervals)
      reads this
      ensures quiet == Answer(intervals)
    {
      if mean.None? then 0.0 else mean.value + 4.0 * variation
    }

    method Update(event: Sample, ghost intervals: seq<real>)
      requires Averages(intervals)
      modifies this`last, this`mean, this`variation
      ensures last == if event.contentChanged then Some(event.at) else old(last)
      ensures Averages(Extended(intervals, Interval(old(last), event)))
    {
      if event.contentChanged {
        if last.Some? && event.learnInterval && event.at > last.value {
          Learn(event.at - last.value, intervals);
        }
        last := Some(event.at);
      }
    }

    method Observe(event: Sample) returns (quiet: real)
      requires Valid()
      modifies this
      ensures Valid() && history == old(history) + [event]
      ensures quiet == Answer(Learned(history)) && quiet >= 0.0
    {
      LearnedStep(history, event);
      ghost var intervals := Extended(Learned(history), Interval(last, event));
      Update(event, Learned(history));
      history := history + [event];
      AveragesNonnegative(intervals);
      quiet := Quiet(intervals);
    }
  }
}
