/** Which proposals the burst metrics are about, and what quantiles are in between ranks. */
module StatisticsLaws {
  import opened Multiples
  import opened Prelude
  import opened Sorting
  import opened Ranges
  import opened Scoring
  import opened Statistics

  // ----- the history of an input

  /** Proposal number `i` came before its input could be processed. */
  predicate CameEarly(input: Input, i: nat) {
    i < |input.proposals| && (input.ready.None? || input.proposals[i] < input.ready.value)
  }

  ghost function EarlyOnes(input: Input, n: nat): set<nat> {
    set i: nat | i < n && CameEarly(input, i)
  }

  function NanosecondOf(input: Input, i: nat): int
    requires i < |input.proposals|
  {
    Round(input.proposals[i] * 1_000_000_000.0)
  }

  /** The early ones that round to nanosecond `t`. */
  ghost function EarlyAt(input: Input, n: nat, t: int): set<nat> {
    set i: nat | i < n && CameEarly(input, i) && NanosecondOf(input, i) == t
  }

  lemma {:induction false} FilterNext<T>(p: T -> bool, s: seq<T>, x: T)
    ensures Filter(p, s + [x]) == Filter(p, s) + if p(x) then [x] else []
  {
    if s == [] {
      assert s + [x] == [x];
    } else {
      FilterNext(p, s[1..], x);
      assert s == [s[0]] + s[1..] && s + [x] == [s[0]] + (s[1..] + [x]);
      FilterCons(p, s[0], s[1..]);
      FilterCons(p, s[0], s[1..] + [x]);
    }
  }

  lemma NanosecondsNext(ats: seq<real>, at: real)
    ensures Nanoseconds(ats + [at]) == Nanoseconds(ats) + [Round(at * 1_000_000_000.0)]
  {}

  /** The early proposals among the first `n`. */
  function EarlyNanoseconds(input: Input, n: nat): seq<int>
    requires n <= |input.proposals|
  {
    Nanoseconds(Filter(Premature(input), input.proposals[..n]))
  }

  lemma EarlyNext(input: Input, n: nat)
    requires n < |input.proposals|
    ensures EarlyNanoseconds(input, n + 1)
         == EarlyNanoseconds(input, n) + if CameEarly(input, n) then [NanosecondOf(input, n)] else []
  {
    assert input.proposals[..n + 1] == input.proposals[..n] + [input.proposals[n]];
    FilterNext(Premature(input), input.proposals[..n], input.proposals[n]);
    NanosecondsNext(Filter(Premature(input), input.proposals[..n]), input.proposals[n]);
  }

  lemma EarlyOnesNext(input: Input, n: nat)
    ensures |EarlyOnes(input, n + 1)| == |EarlyOnes(input, n)| + if CameEarly(input, n) then 1 else 0
  {
    assert EarlyOnes(input, n + 1) == EarlyOnes(input, n) + if CameEarly(input, n) then {n} else {};
  }

  lemma EarlyAtNext(input: Input, n: nat, t: int)
    ensures |EarlyAt(input, n + 1, t)|
         == |EarlyAt(input, n, t)| + if CameEarly(input, n) && NanosecondOf(input, n) == t then 1 else 0
  {
    assert EarlyAt(input, n + 1, t)
        == EarlyAt(input, n, t) + if CameEarly(input, n) && NanosecondOf(input, n) == t then {n} else {};
  }

  lemma {:induction false} EarlyCounted(input: Input, n: nat, t: int)
    requires n <= |input.proposals|
    ensures |EarlyNanoseconds(input, n)| == |EarlyOnes(input, n)|
    ensures multiset(EarlyNanoseconds(input, n))[t] == |EarlyAt(input, n, t)|
  {
    if n > 0 {
      EarlyCounted(input, n - 1, t);
      EarlyNext(input, n - 1);
      EarlyOnesNext(input, n - 1);
      EarlyAtNext(input, n - 1, t);
    }
  }

  /** The history of an input holds, in order, the nanoseconds of exactly its early proposals, each as often as there
      are such proposals. */
  lemma HistoryIsEarly(input: Input)
    ensures Ordered(Invalid(input)) && |Invalid(input)| == |EarlyOnes(input, |input.proposals|)|
    ensures forall t :: multiset(Invalid(input))[t] == |EarlyAt(input, |input.proposals|, t)|
  {
    var n := |input.proposals|;
    var h := EarlyNanoseconds(input, n);
    assert input.proposals[..n] == input.proposals;
    SortOrdered(h);
    SortMultiset(AtMost, h);
    EarlyCounted(input, n, 0);
    forall t
      ensures multiset(Invalid(input))[t] == |EarlyAt(input, n, t)|
    {
      EarlyCounted(input, n, t);
    }
  }

  lemma {:induction false} CountAll(ts: seq<int>, start: real, span: int)
    ensures Count(ts, start, span) <= |ts|
    ensures Count(ts, start, span) == |ts| <==> forall t :: t in ts ==> InWindow(t, start, span)
  {
    if ts != [] {
      CountAll(ts[1..], start, span);
      assert forall t :: t in ts <==> t == ts[0] || t in ts[1..];
    }
  }

  lemma InHistory(input: Input, t: int)
    ensures t in Invalid(input) <==> exists i: nat :: CameEarly(input, i) && NanosecondOf(input, i) == t
  {
    HistoryIsEarly(input);
    var early := EarlyAt(input, |input.proposals|, t);
    assert t in Invalid(input) <==> multiset(Invalid(input))[t] > 0;
    if i: nat :| CameEarly(input, i) && NanosecondOf(input, i) == t {
      assert i in early;
    }
    if t in Invalid(input) {
      assert early != {};
      var i :| i in early;
    }
  }

  /** All early proposals lie less than a window apart. */
  ghost predicate FitOneWindow(input: Input, span: int) {
    forall i: nat, j: nat :: CameEarly(input, i) && CameEarly(input, j) ==>
      NanosecondOf(input, j) - NanosecondOf(input, i) < span
  }

  predicate Spans(ts: seq<int>, span: int) {
    forall t, u :: t in ts && u in ts ==> u - t < span
  }

  lemma FitsHistory(input: Input, span: int)
    ensures FitOneWindow(input, span) <==> Spans(Invalid(input), span)
  {
    if FitOneWindow(input, span) {
      forall t, u | t in Invalid(input) && u in Invalid(input)
        ensures u - t < span
      {
        InHistory(input, t);
        InHistory(input, u);
      }
    } else {
      var i: nat, j: nat :| && CameEarly(input, i) && CameEarly(input, j)
                            && NanosecondOf(input, j) - NanosecondOf(input, i) >= span;
      InHistory(input, NanosecondOf(input, i));
      InHistory(input, NanosecondOf(input, j));
    }
  }

  lemma FullWindow(ts: seq<int>, start: real, span: int)
    requires Count(ts, start, span) == |ts|
    ensures Spans(ts, span)
  {
    CountAll(ts, start, span);
    forall t, u | t in ts && u in ts
      ensures u - t < span
    {
      assert InWindow(t, start, span) && InWindow(u, start, span);
    }
  }

  lemma FirstWindow(ts: seq<int>, span: int)
    requires Ordered(ts) && ts != [] && Spans(ts, span)
    ensures Count(ts, ts[0] as real, span) == |ts|
  {
    CountAll(ts, ts[0] as real, span);
    forall t | t in ts
      ensures InWindow(t, ts[0] as real, span)
    {
      var i :| 0 <= i < |ts| && ts[i] == t;
      assert ts[0] in ts && ts[0] <= ts[i];
    }
  }

  /** A peak is at most the number of timestamps, and it is that number exactly when one window holds them all. */
  lemma PeakAtMostAll(ts: seq<int>, span: int, peak: nat)
    requires Ordered(ts) && 0 < span && IsPeak(ts, span, peak)
    ensures peak <= |ts|
    ensures peak == |ts| <==> Spans(ts, span)
  {
    var s: real :| Count(ts, s, span) == peak;
    CountAll(ts, s, span);
    if peak == |ts| {
      FullWindow(ts, s, span);
    }
    if ts != [] && Spans(ts, span) {
      FirstWindow(ts, span);
      assert Count(ts, ts[0] as real, span) <= peak;
    }
  }

  /** The peak of an input is at most its number of early proposals, and it is that number exactly when they all fit in
      one window. */
  lemma PeakOfEarly(input: Input, span: int, peak: nat)
    requires 0 < span && IsPeak(Invalid(input), span, peak)
    ensures peak <= |EarlyOnes(input, |input.proposals|)|
    ensures peak == |EarlyOnes(input, |input.proposals|)| <==> FitOneWindow(input, span)
  {
    HistoryIsEarly(input);
    FitsHistory(input, span);
    PeakAtMostAll(Invalid(input), span, peak);
  }

  /** So does every peak in the reported metrics count early proposals of its input, and nothing else. */
  lemma BurstsCountEarly(inputs: seq<Input>, span: int, b: Bursts, i: nat)
    requires 0 < span && BurstsOf(b, Histories(inputs), span) && i < |inputs|
    ensures b.peaks[i] <= |EarlyOnes(inputs[i], |inputs[i].proposals|)|
    ensures b.peaks[i] == |EarlyOnes(inputs[i], |inputs[i].proposals|)| <==> FitOneWindow(inputs[i], span)
  {
    assert IsPeak(Histories(inputs)[i], span, b.peaks[i]);
    PeakOfEarly(inputs[i], span, b.peaks[i]);
  }

  // ----- what the replay hands over

  function Seconds(t: int): real {
    t as real / 1_000_000_000.0
  }

  /** Proposal times and readiness as the report states them, in seconds. */
  function InSeconds(ready: Option<int>, ts: seq<int>): Input {
    Input(if ready.Some? then Some(Seconds(ready.value)) else None,
          seq(|ts|, i requires 0 <= i < |ts| => Seconds(ts[i])))
  }

  lemma SecondsRoundTrip(t: int)
    ensures Round(Seconds(t) * 1_000_000_000.0) == t
  {
    assert Seconds(t) * 1_000_000_000.0 == t as real;
  }

  lemma {:induction false} EarlyIsPrefix(ready: Option<int>, ts: seq<int>, n: nat)
    requires Nondecreasing(ts) && n <= |ts| && CountWhere(Unready(ready), ts) <= |ts|
    requires forall i :: 0 <= i < |ts| ==> (Unready(ready)(ts[i]) <==> i < CountWhere(Unready(ready), ts))
    ensures EarlyNanoseconds(InSeconds(ready, ts), n) == ts[..Min(n, CountWhere(Unready(ready), ts))]
  {
    if n > 0 {
      EarlyIsPrefix(ready, ts, n - 1);
      EarlyNext(InSeconds(ready, ts), n - 1);
      SecondsRoundTrip(ts[n - 1]);
      assert Unready(ready)(ts[n - 1]) <==> CameEarly(InSeconds(ready, ts), n - 1);
    }
  }

  /** The history of an input is the initial stretch of its proposals that the offline scorer counts as invalid,
      to the nanosecond. */
  lemma HistoryIsInvalidStretch(boundary: Boundary, ts: seq<int>)
    requires Nondecreasing(ts)
    ensures ValidityOf(boundary, ts).invalid <= |ts|
    ensures Invalid(InSeconds(boundary.ready, ts)) == ts[..ValidityOf(boundary, ts).invalid]
  {
    var input, k := InSeconds(boundary.ready, ts), ValidityOf(boundary, ts).invalid;
    InvalidIsPrefix(boundary.ready, ts);
    EarlyIsPrefix(boundary.ready, ts, |ts|);
    assert input.proposals[..|ts|] == input.proposals;
    SortIdentity(AtMost, ts[..k]);
  }

  // ----- quantiles between ranks

  /** Between two ranks the quantile moves along the straight line from one value to the next. */
  lemma QuantileBetweenRanks(values: seq<real>, k: nat, f: real)
    requires k + 1 < |values| && 0.0 <= f <= 1.0
    ensures 0.0 <= (k as real + f) / (|values| - 1) as real <= 1.0
    ensures Quantile(values, (k as real + f) / (|values| - 1) as real)
         == Some(SortedValues(values)[k] + Mul(SortedValues(values)[k + 1] - SortedValues(values)[k], f))
  {
    ShareOfLast(k as real + f, (|values| - 1) as real);
    InterpolateBetween(SortedValues(values), k, f);
  }

  lemma InterpolateBetween(v: seq<real>, k: nat, f: real)
    requires k + 1 < |v| && 0.0 <= f <= 1.0
    ensures Interpolate(v, k as real + f) == v[k] + Mul(v[k + 1] - v[k], f)
  {
    var position := k as real + f;
    if f < 1.0 {
      assert position.Floor == k;
    } else {
      assert position.Floor == k + 1;
      assert Mul(v[k + 1] - v[k + 1], 0.0) == 0.0;
      assert Mul(v[k + 1] - v[k], 1.0) == v[k + 1] - v[k];
    }
  }
}
