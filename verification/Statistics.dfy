/** Burst metric: the most timestamps inside any half-open window of a fixed duration. */
module Statistics {
  import opened Multiples
  import opened Prelude
  import opened Sorting

  predicate Ordered(ts: seq<int>) {
    forall i, j :: 0 <= i < j < |ts| ==> ts[i] <= ts[j]
  }

  predicate AtMost(a: int, b: int) {
    a <= b
  }

  predicate InWindow(t: int, start: real, span: int) {
    start <= t as real < start + span as real
  }

  /** Timestamps inside the window [start, start + span), for any real start. */
  function Count(ts: seq<int>, start: real, span: int): nat {
    if ts == [] then 0 else Count(ts[1..], start, span) + if InWindow(ts[0], start, span) then 1 else 0
  }

  /** `peak` is the largest number of timestamps any window holds. */
  ghost predicate IsPeak(ts: seq<int>, span: int, peak: nat) {
    && (forall start: real :: Count(ts, start, span) <= peak)
    && exists start: real :: Count(ts, start, span) == peak
  }

  // ----- counting

  lemma {:induction false} CountConcat(a: seq<int>, b: seq<int>, start: real, span: int)
    ensures Count(a + b, start, span) == Count(a, start, span) + Count(b, start, span)
  {
    if a == [] {
      assert a + b == b;
    } else {
      assert (a + b)[1..] == a[1..] + b;
      CountConcat(a[1..], b, start, span);
    }
  }

  lemma CountNext(ts: seq<int>, n: nat, start: real, span: int)
    requires n < |ts|
    ensures Count(ts[..n + 1], start, span) == Count(ts[..n], start, span) + if InWindow(ts[n], start, span) then 1 else 0
  {
    assert ts[..n + 1] == ts[..n] + [ts[n]];
    CountConcat(ts[..n], [ts[n]], start, span);
  }

  lemma CountTaken(b: seq<int>, i: nat, start: real, span: int)
    requires i < |b|
    ensures multiset(b) == multiset{b[i]} + multiset(b[..i] + b[i + 1..])
    ensures Count(b, start, span) == Count([b[i]] + (b[..i] + b[i + 1..]), start, span)
  {
    var front, back := b[..i], b[i + 1..];
    assert b == front + ([b[i]] + back);
    CountConcat(front, [b[i]] + back, start, span);
    CountConcat([b[i]], back, start, span);
    CountConcat([b[i]], front + back, start, span);
    CountConcat(front, back, start, span);
  }

  /** The count depends on the timestamps alone, not on their order. */
  lemma {:induction false} CountPermuted(a: seq<int>, b: seq<int>, start: real, span: int)
    requires multiset(a) == multiset(b)
    ensures Count(a, start, span) == Count(b, start, span)
  {
    if a == [] {
      assert |multiset(b)| == 0;
    } else {
      assert a == [a[0]] + a[1..];
      assert a[0] in multiset(b);
      var i :| 0 <= i < |b| && b[i] == a[0];
      var rest := b[..i] + b[i + 1..];
      CountTaken(b, i, start, span);
      assert multiset(a) - multiset{a[0]} == multiset(a[1..]);
      assert multiset(b) - multiset{a[0]} == multiset(rest);
      CountPermuted(a[1..], rest, start, span);
      CountConcat([a[0]], a[1..], start, span);
      CountConcat([a[0]], rest, start, span);
    }
  }

  // ----- the sliding window

  /** All of ts[from..n] fits in one window that holds nothing earlier. */
  ghost predicate TightAt(ts: seq<int>, from: nat, n: nat, span: int)
    requires from <= n <= |ts|
  {
    && (forall i :: from <= i < n ==> ts[n - 1] - ts[i] < span)
    && (forall i :: 0 <= i < from ==> span <= ts[n - 1] - ts[i])
  }

  lemma {:induction false} CountInside(ts: seq<int>, from: nat, n: nat, start: real, span: int)
    requires from <= n <= |ts|
    requires forall i :: 0 <= i < from ==> !InWindow(ts[i], start, span)
    ensures Count(ts[..n], start, span) <= n - from
    ensures (forall i :: from <= i < n ==> InWindow(ts[i], start, span)) ==> Count(ts[..n], start, span) == n - from
  {
    if n > 0 {
      CountNext(ts, n - 1, start, span);
      if from < n {
        CountInside(ts, from, n - 1, start, span);
      } else {
        CountInside(ts, n - 1, n - 1, start, span);
      }
    }
  }

  /** A window that holds the last of `n` ordered timestamps holds at most the tight stretch behind it. */
  lemma WindowEndingHere(ts: seq<int>, from: nat, n: nat, start: real, span: int)
    requires Ordered(ts) && from < n <= |ts| && TightAt(ts, from, n, span)
    requires InWindow(ts[n - 1], start, span)
    ensures Count(ts[..n], start, span) <= n - from
  {
    forall i | 0 <= i < from
      ensures !InWindow(ts[i], start, span)
    {
      assert span as real <= ts[n - 1] as real - ts[i] as real;
    }
    CountInside(ts, from, n, start, span);
  }

  lemma TightWindow(ts: seq<int>, from: nat, n: nat, span: int)
    requires Ordered(ts) && from < n <= |ts| && TightAt(ts, from, n, span)
    ensures Count(ts[..n], (ts[n - 1] - span + 1) as real, span) == n - from
  {
    CountInside(ts, from, n, (ts[n - 1] - span + 1) as real, span);
  }

  /** Two pointers over the sorted timestamps find the exact peak. */
  method SlidingPeak(ts: seq<int>, span: int) returns (peak: nat)
    requires Ordered(ts) && 0 < span
    ensures IsPeak(ts, span, peak)
  {
    var left := 0;
    peak := 0;
    assert Count(ts[..0], 0.0, span) == 0;
    for right := 0 to |ts|
      invariant 0 <= left <= right
      invariant forall i :: 0 <= i < left ==> span <= ts[right - 1] - ts[i]
      invariant IsPeak(ts[..right], span, peak)
    {
      while span <= ts[right] - ts[left]
        invariant 0 <= left <= right
        invariant forall i :: 0 <= i < left ==> span <= ts[right] - ts[i]
        decreases right - left
      {
        left := left + 1;
      }
      PeakNext(ts, left, right, span, peak);
      peak := if peak < right - left + 1 then right - left + 1 else peak;
    }
    assert ts[..|ts|] == ts;
  }

  lemma PeakNext(ts: seq<int>, left: nat, right: nat, span: int, peak: nat)
    requires Ordered(ts) && 0 < span && left <= right < |ts| && IsPeak(ts[..right], span, peak)
    requires forall i :: 0 <= i < left ==> span <= ts[right] - ts[i]
    requires ts[right] - ts[left] < span
    ensures IsPeak(ts[..right + 1], span, if peak < right - left + 1 then right - left + 1 else peak)
  {
    var n := right + 1;
    assert TightAt(ts, left, n, span);
    TightWindow(ts, left, n, span);
    var next := if peak < n - left then n - left else peak;
    forall start: real
      ensures Count(ts[..n], start, span) <= next
    {
      CountNext(ts, right, start, span);
      if InWindow(ts[right], start, span) {
        WindowEndingHere(ts, left, n, start, span);
      }
    }
    if next == peak {
      var start: real :| Count(ts[..right], start, span) == peak;
      CountNext(ts, right, start, span);
    }
  }

  lemma PeakUnique(ts: seq<int>, span: int, p: nat, q: nat)
    requires IsPeak(ts, span, p) && IsPeak(ts, span, q)
    ensures p == q
  {
    var s: real :| Count(ts, s, span) == p;
    var t: real :| Count(ts, t, span) == q;
  }

  // ----- laws of the metric

  /** A longer window never holds less. */
  lemma {:induction false} CountMonotone(ts: seq<int>, start: real, span: int, longer: int)
    requires span <= longer
    ensures Count(ts, start, span) <= Count(ts, start, longer)
  {
    if ts != [] { CountMonotone(ts[1..], start, span, longer); }
  }

  lemma {:induction false} CountSplit(ts: seq<int>, start: real, first: int, second: int)
    requires 0 <= first && 0 <= second
    ensures Count(ts, start, first + second) == Count(ts, start, first) + Count(ts, start + first as real, second)
  {
    if ts != [] { CountSplit(ts[1..], start, first, second); }
  }

  /** A window of `k` spans is `k` windows of one span. */
  lemma {:induction false} CountTimes(ts: seq<int>, start: real, span: int, k: nat, peak: nat)
    requires 0 < span && forall s: real :: Count(ts, s, span) <= peak
    ensures Count(ts, start, k * span) <= k * peak
    decreases k
  {
    if k == 0 {
      EmptyWindow(ts, start);
    } else {
      var rest := (k - 1) * span;
      assert k * span == span + rest && k * peak == peak + (k - 1) * peak;
      assert 0 <= rest;
      CountSplit(ts, start, span, rest);
      CountTimes(ts, start + span as real, span, k - 1, peak);
    }
  }

  lemma {:induction false} EmptyWindow(ts: seq<int>, start: real)
    ensures Count(ts, start, 0) == 0
  {
    if ts != [] { EmptyWindow(ts[1..], start); }
  }

  /** k times the span holds at least as much, and at most k times as much. */
  lemma PeakScaling(ts: seq<int>, span: int, k: nat, peak: nat, longerPeak: nat)
    requires 0 < span && 0 < k && IsPeak(ts, span, peak) && IsPeak(ts, k * span, longerPeak)
    ensures peak <= longerPeak <= k * peak
  {
    var s: real :| Count(ts, s, span) == peak;
    assert span <= k * span;
    CountMonotone(ts, s, span, k * span);
    var t: real :| Count(ts, t, k * span) == longerPeak;
    CountTimes(ts, t, span, k, peak);
  }

  /** A longer window never has a lower peak. */
  lemma PeakMonotone(ts: seq<int>, span: int, longer: int, peak: nat, longerPeak: nat)
    requires 0 < span <= longer && IsPeak(ts, span, peak) && IsPeak(ts, longer, longerPeak)
    ensures peak <= longerPeak
  {
    var s: real :| Count(ts, s, span) == peak;
    CountMonotone(ts, s, span, longer);
  }

  function Flatten(histories: seq<seq<int>>): seq<int> {
    if histories == [] then [] else histories[0] + Flatten(histories[1..])
  }

  ghost predicate ArePeaks(histories: seq<seq<int>>, span: int, peaks: seq<nat>) {
    |peaks| == |histories| && forall i :: 0 <= i < |peaks| ==> IsPeak(histories[i], span, peaks[i])
  }

  lemma {:induction false} CountFlatten(histories: seq<seq<int>>, span: int, peaks: seq<nat>, start: real)
    requires ArePeaks(histories, span, peaks)
    ensures Count(Flatten(histories), start, span) <= Sum(peaks)
    ensures forall i :: 0 <= i < |histories| ==> Count(histories[i], start, span) <= Count(Flatten(histories), start, span)
  {
    if histories != [] {
      CountConcat(histories[0], Flatten(histories[1..]), start, span);
      assert IsPeak(histories[0], span, peaks[0]);
      assert ArePeaks(histories[1..], span, peaks[1..]) by {
        forall i | 0 <= i < |peaks[1..]|
          ensures IsPeak(histories[1..][i], span, peaks[1..][i])
        {
          assert IsPeak(histories[i + 1], span, peaks[i + 1]);
        }
      }
      CountFlatten(histories[1..], span, peaks[1..], start);
      forall i | 0 <= i < |histories|
        ensures Count(histories[i], start, span) <= Count(Flatten(histories), start, span)
      {
        if i > 0 {
          assert histories[i] == histories[1..][i - 1];
        }
      }
    }
  }

  /** All inputs together peak at least as high as each of them and at most as high as their sum. */
  lemma PeakOfAll(histories: seq<seq<int>>, all: seq<int>, span: int, peaks: seq<nat>, total: nat)
    requires ArePeaks(histories, span, peaks) && multiset(all) == multiset(Flatten(histories))
    requires IsPeak(all, span, total)
    ensures total <= Sum(peaks)
    ensures forall i :: 0 <= i < |peaks| ==> peaks[i] <= total
  {
    var s: real :| Count(all, s, span) == total;
    CountPermuted(all, Flatten(histories), s, span);
    CountFlatten(histories, span, peaks, s);
    forall i | 0 <= i < |peaks|
      ensures peaks[i] <= total
    {
      assert IsPeak(histories[i], span, peaks[i]);
      var t: real :| Count(histories[i], t, span) == peaks[i];
      CountFlatten(histories, span, peaks, t);
      CountPermuted(all, Flatten(histories), t, span);
    }
  }

  // ----- quantiles

  function Ceiling(x: real): (r: int)
    ensures x <= r as real < x + 1.0
  {
    if x == x.Floor as real then x.Floor else x.Floor + 1
  }

  /** The broken line through the points (0, v[0]), (1, v[1]), ... */
  function Interpolate(v: seq<real>, position: real): real
    requires v != [] && 0.0 <= position <= (|v| - 1) as real
  {
    var lower, upper := position.Floor, Ceiling(position);
    v[lower] + Mul(v[upper] - v[lower], position - lower as real)
  }

  lemma InRange(a: real, p: real)
    requires 0.0 <= a && 0.0 <= p <= 1.0
    ensures 0.0 <= Mul(a, p) <= a
  {}

  lemma Steeper(d: real, f: real, g: real)
    requires 0.0 <= d && f <= g
    ensures Mul(d, f) <= Mul(d, g)
  {}

  function Position(last: real, probability: real): (position: real)
    requires 0.0 <= last && 0.0 <= probability <= 1.0
    ensures 0.0 <= position <= last
  {
    InRange(last, probability);
    Mul(last, probability)
  }

  lemma PositionMonotone(last: real, p: real, q: real)
    requires 0.0 <= last && 0.0 <= p <= q <= 1.0
    ensures Position(last, 0.0) == 0.0 && Position(last, 1.0) == last
    ensures Position(last, p) <= Position(last, q)
  {
    Steeper(last, p, q);
  }

  function QuantileOf(sorted: seq<real>, probability: real): real
    requires sorted != [] && 0.0 <= probability <= 1.0
  {
    Interpolate(sorted, Position((|sorted| - 1) as real, probability))
  }

  function SortedValues(values: seq<real>): (sorted: seq<real>)
    ensures multiset(sorted) == multiset(values) && |sorted| == |values|
    ensures forall x :: x in sorted <==> x in values
    ensures forall i, j :: 0 <= i < j < |sorted| ==> sorted[i] <= sorted[j]
  {
    SortMultiset(RealAtMost, values);
    SortMembers(RealAtMost, values);
    SortSorted(RealAtMost, values);
    var sorted := Sort(RealAtMost, values);
    assert forall i, j :: 0 <= i < j < |sorted| ==> RealAtMost(sorted[i], sorted[j]);
    sorted
  }

  function Quantile(values: seq<real>, probability: real): Option<real>
    requires 0.0 <= probability <= 1.0
  {
    if values == [] then None else Some(QuantileOf(SortedValues(values), probability))
  }

  lemma InterpolateBounds(v: seq<real>, position: real)
    requires v != [] && 0.0 <= position <= (|v| - 1) as real
    requires forall i, j :: 0 <= i < j < |v| ==> v[i] <= v[j]
    ensures v[position.Floor] <= Interpolate(v, position) <= v[Ceiling(position)]
  {
    var lower, upper := position.Floor, Ceiling(position);
    var d := v[upper] - v[lower];
    assert 0.0 <= d by {
      assert lower <= upper;
    }
    InRange(d, position - lower as real);
  }

  lemma InterpolateMonotone(v: seq<real>, p: real, q: real)
    requires v != [] && 0.0 <= p <= q <= (|v| - 1) as real
    requires forall i, j :: 0 <= i < j < |v| ==> v[i] <= v[j]
    ensures Interpolate(v, p) <= Interpolate(v, q)
  {
    InterpolateBounds(v, p);
    InterpolateBounds(v, q);
    if p == p.Floor as real {
      assert Interpolate(v, p) == v[p.Floor] <= v[q.Floor] by {
        assert p.Floor <= q.Floor;
      }
    } else if p.Floor == q.Floor {
      var d := v[Ceiling(p)] - v[p.Floor];
      assert 0.0 <= d by {
        assert p.Floor <= Ceiling(p);
      }
      assert Ceiling(q) == Ceiling(p);
      Steeper(d, p - p.Floor as real, q - p.Floor as real);
    } else {
      assert Ceiling(p) <= q.Floor;
    }
  }

  lemma SortedQuantiles(sorted: seq<real>, p: real, q: real)
    requires sorted != [] && forall i, j :: 0 <= i < j < |sorted| ==> sorted[i] <= sorted[j]
    requires 0.0 <= p <= q <= 1.0
    ensures QuantileOf(sorted, 0.0) == sorted[0] && QuantileOf(sorted, 1.0) == sorted[|sorted| - 1]
    ensures sorted[0] <= QuantileOf(sorted, p) <= QuantileOf(sorted, q) <= sorted[|sorted| - 1]
  {
    var last := (|sorted| - 1) as real;
    PositionMonotone(last, p, q);
    InterpolateMonotone(sorted, 0.0, Position(last, p));
    InterpolateMonotone(sorted, Position(last, p), Position(last, q));
    InterpolateMonotone(sorted, Position(last, q), last);
  }

  /** Quantiles rise with the probability, from the smallest value to the largest. */
  lemma QuantileLaws(values: seq<real>, p: real, q: real)
    requires values != [] && 0.0 <= p <= q <= 1.0
    ensures Quantile(values, 0.0).value in values && Quantile(values, 1.0).value in values
    ensures forall x :: x in values ==> Quantile(values, 0.0).value <= x <= Quantile(values, 1.0).value
    ensures Quantile(values, 0.0).value <= Quantile(values, p).value <= Quantile(values, q).value
            <= Quantile(values, 1.0).value
  {
    SortedQuantiles(SortedValues(values), p, q);
  }

  /** The probability k / (n - 1) gives the value of rank k, so the quantiles in between interpolate ranks. */
  lemma QuantileAtRank(values: seq<real>, k: nat)
    requires 1 < |values| && k < |values|
    ensures 0.0 <= k as real / (|values| - 1) as real <= 1.0
    ensures Quantile(values, k as real / (|values| - 1) as real) == Some(SortedValues(values)[k])
  {
    ShareOfLast(k as real, (|values| - 1) as real);
    assert (k as real).Floor == k;
  }

  lemma ShareOfLast(k: real, last: real)
    requires 0.0 <= k <= last && 0.0 < last
    ensures 0.0 <= k / last <= 1.0 && Mul(last, k / last) == k
  {}

  // ----- the reported bursts

  /** A scored input: when it became processable, if ever, and its proposals, in seconds. */
  datatype Input = Input(ready: Option<real>, proposals: seq<real>)

  /** Round half to even. */
  function Round(x: real): (r: int)
    ensures -0.5 <= x - r as real <= 0.5
    ensures x - r as real == 0.5 || r as real - x == 0.5 ==> r % 2 == 0
  {
    var below := x.Floor;
    var rest := x - below as real;
    if rest < 0.5 || (rest == 0.5 && below % 2 == 0) then below else below + 1
  }

  /** Rounding reorders nothing, so windows over rounded instants see the proposals in their order. */
  lemma RoundMonotone(x: real, y: real)
    requires x <= y
    ensures Round(x) <= Round(y)
  {
    assert x.Floor <= y.Floor;
  }

  function Nanoseconds(ats: seq<real>): (ts: seq<int>)
    ensures |ts| == |ats| && forall i :: 0 <= i < |ts| ==> ts[i] == Round(ats[i] * 1_000_000_000.0)
  {
    seq(|ats|, i requires 0 <= i < |ats| => Round(ats[i] * 1_000_000_000.0))
  }

  function Premature(input: Input): real -> bool {
    (at: real) => input.ready.None? || at < input.ready.value
  }

  function Invalid(input: Input): seq<int> {
    Sort(AtMost, Nanoseconds(Filter(Premature(input), input.proposals)))
  }

  /** The metrics of one window: its peak for each input, their mean, 95th percentile and maximum, and the
      peak of all inputs together. */
  datatype Bursts = Bursts(peaks: seq<nat>, perInput: Option<real>, p95: Option<real>, inputMax: nat, allInputs: nat)

  const WINDOW: int := 100_000_000

  lemma AtMostIsTotal()
    ensures TotalPreorder(AtMost)
  {}

  function Histories(inputs: seq<Input>): (r: seq<seq<int>>)
    ensures |r| == |inputs| && forall i :: 0 <= i < |r| ==> r[i] == Invalid(inputs[i])
  {
    if inputs == [] then [] else [Invalid(inputs[0])] + Histories(inputs[1..])
  }

  lemma SortOrdered(s: seq<int>)
    ensures Ordered(Sort(AtMost, s))
  {
    AtMostIsTotal();
    SortSorted(AtMost, s);
    var r := Sort(AtMost, s);
    forall i, j | 0 <= i < j < |r|
      ensures r[i] <= r[j]
    {
      assert AtMost(r[i], r[j]);
    }
  }

  function AsReals(ns: seq<nat>): (xs: seq<real>)
    ensures |xs| == |ns| && forall i :: 0 <= i < |ns| ==> xs[i] == ns[i] as real
  {
    seq(|ns|, i requires 0 <= i < |ns| => ns[i] as real)
  }

  /** `mean` is the mean of the numbers, if there are any. */
  predicate IsMean(ns: seq<nat>, mean: Option<real>) {
    (mean.None? <==> ns == []) && (mean.Some? ==> Mul(mean.value, |ns| as real) == Sum(ns) as real)
  }

  lemma {:induction false} SumAtMost(ns: seq<nat>, top: nat)
    requires forall i :: 0 <= i < |ns| ==> ns[i] <= top
    ensures Sum(ns) <= Times(|ns|, top)
  {
    if ns != [] { SumAtMost(ns[1..], top); }
  }

  lemma {:induction false} SumNext(ns: seq<nat>, n: nat)
    ensures Sum(ns + [n]) == Sum(ns) + n
  {
    if ns == [] {
      assert ns + [n] == [n];
    } else {
      assert (ns + [n])[1..] == ns[1..] + [n];
      SumNext(ns[1..], n);
    }
  }

  lemma MeanAtMost(mean: real, count: real, sum: real, top: real)
    requires 0.0 < count && Mul(mean, count) == sum && sum <= Mul(count, top)
    ensures mean <= top
  {
    Positive(mean - top, count);
    assert Mul(mean - top, count) == Mul(mean, count) - Mul(count, top);
  }

  lemma Positive(x: real, y: real)
    ensures 0.0 < x && 0.0 < y ==> 0.0 < Mul(x, y)
  {}

  lemma MeanIsMean(sum: real, count: real)
    requires 0.0 < count
    ensures Mul(sum / count, count) == sum
  {}

  /** Neither the mean nor the 95th percentile of the peaks exceeds the highest one. */
  lemma SummariesAtMost(peaks: seq<nat>, mean: Option<real>, top: nat)
    requires peaks != [] && IsMean(peaks, mean) && forall i :: 0 <= i < |peaks| ==> peaks[i] <= top
    ensures mean.value <= top as real && Quantile(AsReals(peaks), 0.95).value <= top as real
  {
    SumAtMost(peaks, top);
    RealProduct(|peaks|, top);
    MeanAtMost(mean.value, |peaks| as real, Sum(peaks) as real, top as real);
    var xs := AsReals(peaks);
    QuantileLaws(xs, 0.95, 1.0);
    var i :| 0 <= i < |xs| && xs[i] == Quantile(xs, 1.0).value;
  }

  ghost predicate BurstsOf(b: Bursts, histories: seq<seq<int>>, span: int) {
    && ArePeaks(histories, span, b.peaks)
    && IsPeak(Flatten(histories), span, b.allInputs)
    && IsMean(b.peaks, b.perInput) && b.p95 == Quantile(AsReals(b.peaks), 0.95)
    && (forall i :: 0 <= i < |b.peaks| ==> b.peaks[i] <= b.inputMax)
    && (if b.peaks == [] then b.inputMax == 0 else b.inputMax in b.peaks)
  }

  method PeaksFor(histories: seq<seq<int>>, span: int) returns (peaks: seq<nat>, highest: nat, sum: nat)
    requires 0 < span && forall i :: 0 <= i < |histories| ==> Ordered(histories[i])
    ensures ArePeaks(histories, span, peaks) && sum == Sum(peaks)
    ensures forall i :: 0 <= i < |peaks| ==> peaks[i] <= highest
    ensures if peaks == [] then highest == 0 else highest in peaks
  {
    peaks, highest, sum := [], 0, 0;
    for i := 0 to |histories|
      invariant |peaks| == i && forall j :: 0 <= j < i ==> IsPeak(histories[j], span, peaks[j])
      invariant forall j :: 0 <= j < i ==> peaks[j] <= highest
      invariant if peaks == [] then highest == 0 else highest in peaks
      invariant sum == Sum(peaks)
    {
      var peak := SlidingPeak(histories[i], span);
      highest := if peaks == [] || highest < peak then peak else highest;
      SumNext(peaks, peak);
      peaks, sum := peaks + [peak], sum + peak;
    }
  }

  method BurstsFor(histories: seq<seq<int>>, concurrent: seq<int>, span: int) returns (b: Bursts)
    requires 0 < span && Ordered(concurrent) && multiset(concurrent) == multiset(Flatten(histories))
    requires forall i :: 0 <= i < |histories| ==> Ordered(histories[i])
    ensures BurstsOf(b, histories, span)
    ensures b.inputMax <= b.allInputs <= Sum(b.peaks)
    ensures histories != [] ==> b.perInput.value <= b.inputMax as real && b.p95.value <= b.inputMax as real
  {
    var peaks, highest, sum := PeaksFor(histories, span);
    var mean := None;
    if peaks != [] {
      mean := Some(sum as real / |peaks| as real);
      MeanIsMean(sum as real, |peaks| as real);
      SummariesAtMost(peaks, mean, highest);
    }
    var total := SlidingPeak(concurrent, span);
    PeakOfAll(histories, concurrent, span, peaks, total);
    PeakPermuted(concurrent, Flatten(histories), span, total);
    b := Bursts(peaks, mean, Quantile(AsReals(peaks), 0.95), highest, total);
  }

  lemma PeakPermuted(a: seq<int>, b: seq<int>, span: int, peak: nat)
    requires multiset(a) == multiset(b) && IsPeak(a, span, peak)
    ensures IsPeak(b, span, peak)
  {
    var s: real :| Count(a, s, span) == peak;
    CountPermuted(a, b, s, span);
    forall start: real { CountPermuted(a, b, start, span); }
  }

  /** The 100 ms, 1 s and 10 s bursts of one trace. */
  method InvalidBursts(inputs: seq<Input>) returns (short: Bursts, medium: Bursts, long: Bursts)
    ensures BurstsOf(short, Histories(inputs), 100_000_000) && BurstsOf(medium, Histories(inputs), 1_000_000_000)
    ensures BurstsOf(long, Histories(inputs), 10_000_000_000)
    ensures forall b :: b in {short, medium, long} ==> b.inputMax <= b.allInputs <= Sum(b.peaks)
    ensures short.allInputs <= medium.allInputs <= 10 * short.allInputs
    ensures medium.allInputs <= long.allInputs <= 10 * medium.allInputs
    ensures forall i :: 0 <= i < |inputs| ==>
      && short.peaks[i] <= medium.peaks[i] <= 10 * short.peaks[i]
      && medium.peaks[i] <= long.peaks[i] <= 10 * medium.peaks[i]
  {
    var histories := Histories(inputs);
    forall i | 0 <= i < |histories|
      ensures Ordered(histories[i])
    {
      SortOrdered(Nanoseconds(Filter(Premature(inputs[i]), inputs[i].proposals)));
    }
    var concurrent := Sort(AtMost, Flatten(histories));
    SortOrdered(Flatten(histories));
    SortMultiset(AtMost, Flatten(histories));
    short := BurstsFor(histories, concurrent, WINDOW);
    medium := BurstsFor(histories, concurrent, 10 * WINDOW);
    long := BurstsFor(histories, concurrent, 100 * WINDOW);
    BurstsScale(histories, WINDOW, short, medium);
    BurstsScale(histories, 10 * WINDOW, medium, long);
  }

  lemma BurstsScale(histories: seq<seq<int>>, span: int, b: Bursts, c: Bursts)
    requires 0 < span && BurstsOf(b, histories, span) && BurstsOf(c, histories, 10 * span)
    ensures b.allInputs <= c.allInputs <= 10 * b.allInputs
    ensures forall i :: 0 <= i < |histories| ==> b.peaks[i] <= c.peaks[i] <= 10 * b.peaks[i]
  {
    PeakScaling(Flatten(histories), span, 10, b.allInputs, c.allInputs);
    forall i | 0 <= i < |histories|
      ensures b.peaks[i] <= c.peaks[i] <= 10 * b.peaks[i]
    {
      PeakScaling(histories[i], span, 10, b.peaks[i], c.peaks[i]);
    }
  }
}
