/** The exact law of the median of an odd number of draws with replacement. */
module MedianBootstrap {
  import opened Sorting
  import opened Multiples

  // ----- the resamples

  function Prepend(x: nat, ts: set<seq<nat>>): set<seq<nat>> {
    set t | t in ts :: [x] + t
  }

  /** Prepend each of `low` .. `high - 1` to every tuple. */
  function PrependRange(low: nat, high: nat, ts: set<seq<nat>>): set<seq<nat>>
    requires low <= high
    decreases high - low
  {
    if low == high then {} else PrependRange(low, high - 1, ts) + Prepend(high - 1, ts)
  }

  /** All ways to draw `m` of `n` ranks with replacement. */
  function Tuples(n: nat, m: nat): set<seq<nat>> {
    if m == 0 then {[]} else PrependRange(0, n, Tuples(n, m - 1))
  }

  function Below(t: seq<nat>, i: nat): nat {
    if t == [] then 0 else (if t[0] < i then 1 else 0) + Below(t[1..], i)
  }

  /** Resamples with exactly `j` draws below rank `i`. */
  function WithBelow(n: nat, m: nat, i: nat, j: nat): set<seq<nat>> {
    set t | t in Tuples(n, m) && Below(t, i) == j
  }

  lemma {:induction false} PrependRangeHas(low: nat, high: nat, ts: set<seq<nat>>, t: seq<nat>)
    requires low <= high
    ensures t in PrependRange(low, high, ts) <==> t != [] && low <= t[0] < high && t[1..] in ts
    decreases high - low
  {
    if low < high {
      PrependRangeHas(low, high - 1, ts, t);
      if t != [] && t[0] == high - 1 && t[1..] in ts {
        assert t == [high - 1] + t[1..];
      }
      if t in Prepend(high - 1, ts) {
        var u :| u in ts && t == [high - 1] + u;
        assert t[1..] == u;
      }
    }
  }

  lemma {:induction false} TuplesAre(n: nat, m: nat, t: seq<nat>)
    ensures t in Tuples(n, m) <==> |t| == m && forall k :: 0 <= k < |t| ==> t[k] < n
  {
    if m > 0 {
      PrependRangeHas(0, n, Tuples(n, m - 1), t);
      if t != [] {
        TuplesAre(n, m - 1, t[1..]);
        assert t == [t[0]] + t[1..];
      }
    }
  }

  // ----- counting them

  lemma {:induction false} PrependSize(x: nat, ts: set<seq<nat>>)
    ensures |Prepend(x, ts)| == |ts|
  {
    if ts == {} {
      assert Prepend(x, ts) == {};
    } else {
      var t :| t in ts;
      PrependSize(x, ts - {t});
      assert Prepend(x, ts) == Prepend(x, ts - {t}) + {[x] + t};
      forall u | u in ts - {t}
        ensures [x] + u != [x] + t
      {
        assert ([x] + u)[1..] == u && ([x] + t)[1..] == t;
      }
    }
  }

  lemma UnionSize<T>(whole: set<T>, a: set<T>, b: set<T>)
    requires whole == a + b && a !! b
    ensures |whole| == |a| + |b|
  {}

  lemma PrependRangeLast(low: nat, last: nat, high: nat, ts: set<seq<nat>>)
    requires low <= last && high == last + 1
    ensures |PrependRange(low, high, ts)| == |PrependRange(low, last, ts)| + |Prepend(last, ts)|
  {
    var front, back := PrependRange(low, last, ts), Prepend(last, ts);
    forall t | t in front
      ensures t !in back
    {
      PrependRangeHas(low, last, ts, t);
    }
    UnionSize(PrependRange(low, high, ts), front, back);
  }

  lemma {:induction false} PrependCountSize(low: nat, count: nat, ts: set<seq<nat>>)
    ensures |PrependRange(low, low + count, ts)| == Times(count, |ts|)
  {
    if count > 0 {
      PrependCountSize(low, count - 1, ts);
      var last := low + count - 1;
      PrependSize(last, ts);
      PrependRangeLast(low, last, last + 1, ts);
    }
  }

  lemma PrependRangeSize(low: nat, high: nat, ts: set<seq<nat>>)
    requires low <= high
    ensures |PrependRange(low, high, ts)| == Times(high - low, |ts|)
  {
    PrependCountSize(low, high - low, ts);
  }

  function Ways(m: nat, j: nat, p: nat, q: nat): nat {
    if m == 0 then (if j == 0 then 1 else 0)
    else (if j == 0 then 0 else Times(p, Ways(m - 1, j - 1, p, q))) + Times(q, Ways(m - 1, j, p, q))
  }

  lemma WithBelowSplits(n: nat, m: nat, i: nat, j: nat)
    requires 0 < m && i <= n
    ensures var fewer := if j == 0 then {} else WithBelow(n, m - 1, i, j - 1);
      && WithBelow(n, m, i, j) == PrependRange(0, i, fewer) + PrependRange(i, n, WithBelow(n, m - 1, i, j))
      && PrependRange(0, i, fewer) !! PrependRange(i, n, WithBelow(n, m - 1, i, j))
  {
    var fewer := if j == 0 then {} else WithBelow(n, m - 1, i, j - 1);
    var small, large := PrependRange(0, i, fewer), PrependRange(i, n, WithBelow(n, m - 1, i, j));
    forall t
      ensures t in WithBelow(n, m, i, j) <==> t in small || t in large
      ensures !(t in small && t in large)
    {
      PrependRangeHas(0, n, Tuples(n, m - 1), t);
      PrependRangeHas(0, i, fewer, t);
      PrependRangeHas(i, n, WithBelow(n, m - 1, i, j), t);
    }
  }

  lemma WithBelowRecurrence(n: nat, m: nat, i: nat, j: nat)
    requires 0 < m && i <= n
    ensures |WithBelow(n, m, i, j)|
         == (if j == 0 then 0 else Times(i, |WithBelow(n, m - 1, i, j - 1)|)) + Times(n - i, |WithBelow(n, m - 1, i, j)|)
  {
    var fewer := if j == 0 then {} else WithBelow(n, m - 1, i, j - 1);
    var same := WithBelow(n, m - 1, i, j);
    WithBelowSplits(n, m, i, j);
    UnionSize(WithBelow(n, m, i, j), PrependRange(0, i, fewer), PrependRange(i, n, same));
    PrependRangeSize(0, i, fewer);
    PrependRangeSize(i, n, same);
    if j == 0 { TimesIsProduct(i, 0); }
  }

  lemma {:induction false} WithBelowSize(n: nat, m: nat, i: nat, j: nat)
    requires i <= n
    ensures |WithBelow(n, m, i, j)| == Ways(m, j, i, n - i)
  {
    if m == 0 {
      assert WithBelow(n, m, i, j) == if j == 0 then {[]} else {};
    } else {
      WithBelowRecurrence(n, m, i, j);
      if j > 0 { WithBelowSize(n, m - 1, i, j - 1); }
      WithBelowSize(n, m - 1, i, j);
    }
  }

  // ----- the binomial terms

  function Choose(m: nat, j: nat): nat {
    if j == 0 then 1 else if m == 0 then 0 else Choose(m - 1, j - 1) + Choose(m - 1, j)
  }

  function Power(x: real, k: nat): real {
    if k == 0 then 1.0 else Mul(x, Power(x, k - 1))
  }

  lemma {:induction false} ChooseVanishes(m: nat, j: nat)
    requires m < j
    ensures Choose(m, j) == 0
  {
    if m > 0 {
      ChooseVanishes(m - 1, j - 1);
      ChooseVanishes(m - 1, j);
    }
  }

  /** One term of the sum: choose which draws fall below. */
  function Term(m: nat, j: nat, p: real, q: real): real {
    if m < j then 0.0 else Mul(Mul(Choose(m, j) as real, Power(p, j)), Power(q, m - j))
  }

  lemma TermStep(c: real, d: real, p: real, q: real, x: real, y: real)
    ensures Mul(Mul(c + d, Mul(p, x)), Mul(q, y)) == Mul(p, Mul(Mul(c, x), Mul(q, y))) + Mul(q, Mul(Mul(d, Mul(p, x)), y))
  {}

  lemma Reorder(p: real, x: real)
    ensures Mul(p, Mul(Mul(1.0, x), 1.0)) == Mul(Mul(1.0, Mul(p, x)), 1.0)
    ensures Mul(p, Mul(Mul(1.0, 1.0), x)) == Mul(Mul(1.0, 1.0), Mul(p, x))
    ensures Mul(p, 0.0) == 0.0
  {}

  lemma {:induction false} ChooseAll(m: nat)
    ensures Choose(m, m) == 1
  {
    if m > 0 {
      ChooseAll(m - 1);
      ChooseVanishes(m - 1, m);
    }
  }

  /** Pascal's rule, term by term. */
  lemma TermPascal(m: nat, j: nat, p: real, q: real)
    requires 0 < m
    ensures Term(m, j, p, q) == (if j == 0 then 0.0 else Mul(p, Term(m - 1, j - 1, p, q))) + Mul(q, Term(m - 1, j, p, q))
  {
    Reorder(p, 0.0);
    Reorder(q, 0.0);
    if j == 0 {
      Reorder(q, Power(q, m - 1));
    } else if j < m {
      TermStep(Choose(m - 1, j - 1) as real, Choose(m - 1, j) as real, p, q, Power(p, j - 1), Power(q, m - j - 1));
    } else if j == m {
      ChooseAll(m);
      ChooseAll(m - 1);
      Reorder(p, Power(p, j - 1));
    }
  }

  lemma {:induction false} WaysAreTerms(m: nat, j: nat, p: nat, q: nat)
    ensures Ways(m, j, p, q) as real == Term(m, j, p as real, q as real)
  {
    if m > 0 {
      WaysAreTerms(m - 1, j, p, q);
      RealProduct(q, Ways(m - 1, j, p, q));
      if j > 0 {
        WaysAreTerms(m - 1, j - 1, p, q);
        RealProduct(p, Ways(m - 1, j - 1, p, q));
      }
      TermPascal(m, j, p as real, q as real);
    }
  }

  // ----- the median of a resample

  predicate AtMost(a: nat, b: nat) {
    a <= b
  }

  function Median(t: seq<nat>): nat
    requires t != []
  {
    SortMultiset(AtMost, t);
    Sort(AtMost, t)[|t| / 2]
  }

  lemma {:induction false} BelowInsert(x: nat, s: seq<nat>, i: nat)
    ensures Below(Insert(AtMost, x, s), i) == (if x < i then 1 else 0) + Below(s, i)
  {
    if s != [] && !AtMost(x, s[0]) {
      BelowInsert(x, s[1..], i);
      assert ([s[0]] + Insert(AtMost, x, s[1..]))[1..] == Insert(AtMost, x, s[1..]);
    } else {
      assert ([x] + s)[1..] == s;
    }
  }

  lemma {:induction false} BelowSorted(t: seq<nat>, i: nat)
    ensures Below(Sort(AtMost, t), i) == Below(t, i)
  {
    if t != [] {
      BelowSorted(t[1..], i);
      BelowInsert(t[0], Sort(AtMost, t[1..]), i);
    }
  }

  lemma {:induction false} BelowIsPrefix(s: seq<nat>, i: nat, k: nat)
    requires k < |s| && forall a, b :: 0 <= a < b < |s| ==> s[a] <= s[b]
    ensures s[k] < i <==> k < Below(s, i)
  {
    if s[0] < i {
      if k > 0 {
        BelowIsPrefix(s[1..], i, k - 1);
      }
    } else {
      NoneBelow(s, i);
    }
  }

  lemma {:induction false} NoneBelow(s: seq<nat>, i: nat)
    requires forall a :: 0 <= a < |s| ==> i <= s[a]
    ensures Below(s, i) == 0
  {
    if s != [] { NoneBelow(s[1..], i); }
  }

  lemma {:induction false} BelowAtMost(t: seq<nat>, i: nat)
    ensures Below(t, i) <= |t|
  {
    if t != [] { BelowAtMost(t[1..], i); }
  }

  /** The median lies below a rank exactly when more than half of the draws do. */
  lemma MedianBelow(t: seq<nat>, i: nat)
    requires t != []
    ensures Median(t) < i <==> |t| / 2 < Below(t, i)
  {
    var s := Sort(AtMost, t);
    SortMultiset(AtMost, t);
    SortSorted(AtMost, t);
    assert forall a, b :: 0 <= a < b < |s| ==> AtMost(s[a], s[b]);
    BelowIsPrefix(s, i, |t| / 2);
    BelowSorted(t, i);
  }

  // ----- the cumulative distribution

  /** Resamples with at least `j` draws below rank `i`. */
  function AtLeastBelow(n: nat, i: nat, j: nat): set<seq<nat>> {
    set t | t in Tuples(n, n) && j <= Below(t, i)
  }

  /** Resamples whose median rank is less than `i`. */
  function MedianLess(n: nat, i: nat): set<seq<nat>>
    requires 0 < n
  {
    set t | t in Tuples(n, n) && t != [] && Median(t) < i
  }

  lemma MedianLessIsTail(n: nat, i: nat)
    requires 0 < n
    ensures MedianLess(n, i) == AtLeastBelow(n, i, n / 2 + 1)
  {
    forall t
      ensures t in MedianLess(n, i) <==> t in AtLeastBelow(n, i, n / 2 + 1)
    {
      TuplesAre(n, n, t);
      if t != [] { MedianBelow(t, i); }
    }
  }

  /** The upper tail of the binomial, as the comprehension sums it. */
  function TailSum(n: nat, j: nat, p: real, q: real): real
    requires j <= n + 1
    decreases n + 1 - j
  {
    if j == n + 1 then 0.0 else Term(n, j, p, q) + TailSum(n, j + 1, p, q)
  }

  lemma {:induction false} TailSize(n: nat, i: nat, j: nat)
    requires i <= n && j <= n + 1
    ensures |AtLeastBelow(n, i, j)| as real == TailSum(n, j, i as real, (n - i) as real)
    decreases n + 1 - j
  {
    if j == n + 1 {
      forall t | t in AtLeastBelow(n, i, j)
        ensures false
      {
        TuplesAre(n, n, t);
        BelowAtMost(t, i);
      }
      assert AtLeastBelow(n, i, j) == {};
    } else {
      TailSize(n, i, j + 1);
      UnionSize(AtLeastBelow(n, i, j), WithBelow(n, n, i, j), AtLeastBelow(n, i, j + 1));
      WithBelowSize(n, n, i, j);
      WaysAreTerms(n, j, i, n - i);
    }
  }

  /** The i-th entry of the table: the chance that the median rank is less than `i`. */
  function Cdf(n: nat, i: nat): real
    requires 0 < n
  {
    MajorityChance(n, i as real / n as real)
  }

  function MajorityChance(n: nat, p: real): real
    requires 0 < n
  {
    TailSum(n, n / 2 + 1, p, 1.0 - p)
  }

  lemma PowerStep(x: real, a: real, y: real, b: real)
    ensures Mul(Mul(x, a), Mul(y, b)) == Mul(Mul(x, y), Mul(a, b))
  {}

  lemma {:induction false} PowerOfProduct(x: real, y: real, k: nat)
    ensures Mul(Power(x, k), Power(y, k)) == Power(Mul(x, y), k)
  {
    if k > 0 {
      PowerOfProduct(x, y, k - 1);
      PowerStep(x, Power(x, k - 1), y, Power(y, k - 1));
    }
  }

  lemma {:induction false} PowerOfSum(x: real, j: nat, k: nat)
    ensures Mul(Power(x, j), Power(x, k)) == Power(x, j + k)
  {
    if j > 0 {
      PowerOfSum(x, j - 1, k);
      MulLaws(x, Power(x, j - 1), Power(x, k));
    }
  }

  lemma Regroup(c: real, x: real, y: real, u: real, v: real)
    ensures Mul(Mul(Mul(c, x), y), Mul(u, v)) == Mul(Mul(c, Mul(x, u)), Mul(y, v))
  {}

  /** Scaling both chances by `s` scales a term by its n-th power. */
  lemma TermScales(n: nat, j: nat, p: real, q: real, s: real)
    ensures Mul(Term(n, j, p, q), Power(s, n)) == Term(n, j, Mul(p, s), Mul(q, s))
  {
    if j <= n {
      PowerOfSum(s, j, n - j);
      PowerOfProduct(p, s, j);
      PowerOfProduct(q, s, n - j);
      Regroup(Choose(n, j) as real, Power(p, j), Power(q, n - j), Power(s, j), Power(s, n - j));
    }
  }

  lemma {:induction false} TailScales(n: nat, j: nat, p: real, q: real, s: real)
    requires j <= n + 1
    ensures Mul(TailSum(n, j, p, q), Power(s, n)) == TailSum(n, j, Mul(p, s), Mul(q, s))
    decreases n + 1 - j
  {
    if j <= n {
      TailScales(n, j + 1, p, q, s);
      TermScales(n, j, p, q, s);
      MulLaws(Term(n, j, p, q), TailSum(n, j + 1, p, q), Power(s, n));
    }
  }

  lemma Chances(x: real, s: real)
    requires s != 0.0
    ensures Mul(x / s, s) == x && Mul(1.0 - x / s, s) == s - x
  {}

  /** n^n times a table entry counts the resamples whose median rank is less than `i`. */
  lemma CdfCounts(n: nat, i: nat)
    requires 0 < n && i <= n
    ensures Mul(Cdf(n, i), Power(n as real, n)) == |MedianLess(n, i)| as real
  {
    var s, x := n as real, i as real;
    Chances(x, s);
    TailScales(n, n / 2 + 1, x / s, 1.0 - x / s, s);
    assert (n - i) as real == s - x;
    TailSize(n, i, n / 2 + 1);
    MedianLessIsTail(n, i);
  }

  lemma {:induction false} PowerPositive(x: real, k: nat)
    requires 0.0 < x
    ensures 0.0 < Power(x, k)
  {
    if k > 0 {
      PowerPositive(x, k - 1);
      Positive(x, Power(x, k - 1));
    }
  }

  lemma Positive(x: real, y: real)
    requires 0.0 < x && 0.0 < y
    ensures 0.0 < Mul(x, y)
  {}

  lemma {:induction false} TuplesSize(n: nat, m: nat)
    ensures |Tuples(n, m)| as real == Power(n as real, m)
  {
    if m > 0 {
      TuplesSize(n, m - 1);
      PrependRangeSize(0, n, Tuples(n, m - 1));
      RealProduct(n, |Tuples(n, m - 1)|);
    }
  }

  lemma SubsetSize<T>(a: set<T>, b: set<T>)
    requires a <= b
    ensures |a| <= |b|
  {
    UnionSize(b, a, b - a);
  }

  lemma Compare(x: real, y: real, s: real)
    requires 0.0 < s && Mul(x, s) <= Mul(y, s)
    ensures x <= y
  {}

  /** The table never decreases. */
  lemma CdfMonotone(n: nat, i: nat, k: nat)
    requires 0 < n && i <= k <= n
    ensures Cdf(n, i) <= Cdf(n, k)
  {
    CdfCounts(n, i);
    CdfCounts(n, k);
    assert MedianLess(n, i) <= MedianLess(n, k);
    SubsetSize(MedianLess(n, i), MedianLess(n, k));
    PowerPositive(n as real, n);
    Compare(Cdf(n, i), Cdf(n, k), Power(n as real, n));
  }

  lemma EveryMedianIsRank(n: nat)
    requires 0 < n
    ensures MedianLess(n, n) == Tuples(n, n)
  {
    forall t | t in Tuples(n, n)
      ensures t in MedianLess(n, n)
    {
      TuplesAre(n, n, t);
      SortMembers(AtMost, t);
      SortMultiset(AtMost, t);
      assert Sort(AtMost, t)[|t| / 2] in Sort(AtMost, t);
    }
  }

  lemma Whole(x: real, s: real)
    requires 0.0 < s && Mul(x, s) == s
    ensures x == 1.0
  {}

  /** The table ends at exactly one. */
  lemma CdfEndsAtOne(n: nat)
    requires 0 < n
    ensures Cdf(n, n) == 1.0
  {
    CdfCounts(n, n);
    EveryMedianIsRank(n);
    TuplesSize(n, n);
    PowerPositive(n as real, n);
    Whole(Cdf(n, n), Power(n as real, n));
  }

  // ----- the sampler

  /** The chance that more than half of `n` draws fall below a rank that one draw falls below with chance `p`. */
  method Majority(n: nat, p: real) returns (sum: real)
    requires 0 < n
    ensures sum == MajorityChance(n, p)
  {
    sum := 0.0;
    var j := n + 1;
    while n / 2 + 1 < j
      invariant n / 2 + 1 <= j <= n + 1 && sum == TailSum(n, j, p, 1.0 - p)
    {
      j := j - 1;
      sum := Mul(Mul(Choose(n, j) as real, Power(p, j)), Power(1.0 - p, n - j)) + sum;
    }
  }

  /** The table of the sampler: entry `i` is the chance of a median rank of at most `i`. */
  method Table(n: nat) returns (cdf: seq<real>)
    requires 0 < n
    ensures |cdf| == n && forall i :: 0 <= i < n ==> cdf[i] == Cdf(n, i + 1)
  {
    cdf := [];
    for i := 1 to n + 1
      invariant |cdf| == i - 1 && forall k :: 0 <= k < i - 1 ==> cdf[k] == Cdf(n, k + 1)
    {
      var p := i as real / n as real;
      var sum := Majority(n, p);
      cdf := cdf + [sum];
    }
  }

  /** Draw a rank by inverting the table at a uniform number `u`. */
  method BisectLeft(cdf: seq<real>, u: real) returns (index: nat)
    requires forall i, k :: 0 <= i < k < |cdf| ==> cdf[i] <= cdf[k]
    ensures index <= |cdf|
    ensures forall i :: 0 <= i < |cdf| ==> (index <= i <==> u <= cdf[i])
  {
    var low, high := 0, |cdf|;
    while low < high
      invariant 0 <= low <= high <= |cdf|
      invariant forall i :: 0 <= i < low ==> cdf[i] < u
      invariant forall i :: high <= i < |cdf| ==> u <= cdf[i]
    {
      var middle := (low + high) / 2;
      if cdf[middle] < u {
        low := middle + 1;
      } else {
        high := middle;
      }
    }
    index := low;
  }

  // ----- medians of values

  predicate Ranks(t: seq<nat>, n: nat) {
    forall k :: 0 <= k < |t| ==> t[k] < n
  }

  /** The values drawn, when `t` holds their positions in the ordered sample. */
  function Drawn(ordered: seq<real>, t: seq<nat>): (values: seq<real>)
    requires Ranks(t, |ordered|)
    ensures |values| == |t|
  {
    seq(|t|, k requires 0 <= k < |t| => ordered[t[k]])
  }

  ghost predicate Rising(ordered: seq<real>) {
    forall i, j :: 0 <= i <= j < |ordered| ==> ordered[i] <= ordered[j]
  }

  lemma DrawnCons(ordered: seq<real>, x: nat, t: seq<nat>)
    requires x < |ordered| && Ranks(t, |ordered|)
    ensures Ranks([x] + t, |ordered|) && Drawn(ordered, [x] + t) == [ordered[x]] + Drawn(ordered, t)
  {}

  lemma {:induction false} InsertDrawn(ordered: seq<real>, x: nat, s: seq<nat>)
    requires Rising(ordered) && x < |ordered| && Ranks(s, |ordered|) && Sorted(AtMost, s)
    ensures Ranks(Insert(AtMost, x, s), |ordered|)
    ensures Insert(RealAtMost, ordered[x], Drawn(ordered, s)) == Drawn(ordered, Insert(AtMost, x, s))
  {
    DrawnCons(ordered, x, s);
    if s != [] && !AtMost(x, s[0]) {
      var rest := s[1..];
      assert s == [s[0]] + rest;
      DrawnCons(ordered, s[0], rest);
      InsertDrawn(ordered, x, rest);
      DrawnCons(ordered, s[0], Insert(AtMost, x, rest));
      assert Drawn(ordered, s)[1..] == Drawn(ordered, rest);
      if ordered[x] <= ordered[s[0]] && rest != [] {
        assert AtMost(s[0], s[1]);
      }
    }
  }

  lemma {:induction false} SortDrawn(ordered: seq<real>, t: seq<nat>)
    requires Rising(ordered) && Ranks(t, |ordered|)
    ensures Ranks(Sort(AtMost, t), |ordered|)
    ensures Sort(RealAtMost, Drawn(ordered, t)) == Drawn(ordered, Sort(AtMost, t))
  {
    if t != [] {
      assert t == [t[0]] + t[1..];
      DrawnCons(ordered, t[0], t[1..]);
      assert Drawn(ordered, t)[1..] == Drawn(ordered, t[1..]);
      SortDrawn(ordered, t[1..]);
      SortSorted(AtMost, t[1..]);
      InsertDrawn(ordered, t[0], Sort(AtMost, t[1..]));
    }
  }

  /** The middle value of an odd number of values. */
  function MedianValue(values: seq<real>): real
    requires |values| % 2 == 1
  {
    SortMultiset(RealAtMost, values);
    Sort(RealAtMost, values)[|values| / 2]
  }

  /** The median of the drawn values is the value at the median rank, also when values repeat. */
  lemma MedianOfDrawn(ordered: seq<real>, t: seq<nat>)
    requires Rising(ordered) && Ranks(t, |ordered|) && |t| % 2 == 1
    ensures Median(t) < |ordered| && MedianValue(Drawn(ordered, t)) == ordered[Median(t)]
  {
    SortDrawn(ordered, t);
    SortMultiset(AtMost, t);
    assert Median(t) == Sort(AtMost, t)[|t| / 2];
  }

  /** The least value is the greatest. */
  predicate Constant(values: seq<real>)
    requires values != []
  {
    forall i :: 0 <= i < |values| ==> values[i] == values[0]
  }

  /** Every resample of a constant sample has that constant as its median. */
  lemma ConstantSample(values: seq<real>, t: seq<nat>)
    requires values != [] && Constant(values)
    requires Ranks(t, |values|) && |t| % 2 == 1
    ensures MedianValue(Drawn(values, t)) == values[0]
  {
    MedianOfDrawn(values, t);
  }

  /** Of the n^n resamples, at least the share `u` has a median rank of at most `i`. */
  predicate ShareReached(n: nat, u: real, i: nat)
    requires 0 < n
  {
    Mul(u, Power(n as real, n)) <= |MedianLess(n, i + 1)| as real
  }

  lemma Scale(x: real, y: real, s: real, z: real)
    requires 0.0 < s && Mul(y, s) == z
    ensures x <= y <==> Mul(x, s) <= z
  {}

  lemma ShareFromTable(n: nat, u: real, i: nat)
    requires i < n
    ensures ShareReached(n, u, i) <==> u <= Cdf(n, i + 1)
  {
    CdfCounts(n, i + 1);
    PowerPositive(n as real, n);
    Scale(u, Cdf(n, i + 1), Power(n as real, n), |MedianLess(n, i + 1)| as real);
  }

  lemma TableAscends(n: nat, cdf: seq<real>)
    requires 0 < n == |cdf| && forall i :: 0 <= i < n ==> cdf[i] == Cdf(n, i + 1)
    ensures forall i, k :: 0 <= i < k < |cdf| ==> cdf[i] <= cdf[k]
    ensures cdf[n - 1] == 1.0
  {
    forall i, k | 0 <= i < k < |cdf|
      ensures cdf[i] <= cdf[k]
    {
      CdfMonotone(n, i + 1, k + 1);
    }
    CdfEndsAtOne(n);
  }

  /** Rank `rank` is drawn by the uniform number `u`: it is at most `i` exactly when the share of resamples
      whose median rank is at most `i` reaches `u`. */
  ghost predicate DrawnRank(n: nat, u: real, rank: nat) {
    rank < n && forall i: nat :: i < n ==> (rank <= i <==> ShareReached(n, u, i))
  }

  lemma ShareRises(n: nat, u: real, i: nat, k: nat)
    requires i <= k < n && ShareReached(n, u, i)
    ensures ShareReached(n, u, k)
  {
    ShareFromTable(n, u, i);
    ShareFromTable(n, u, k);
    CdfMonotone(n, i + 1, k + 1);
  }

  lemma LastShare(n: nat, u: real)
    requires 0 < n && u < 1.0
    ensures ShareReached(n, u, n - 1)
  {
    ShareFromTable(n, u, n - 1);
    CdfEndsAtOne(n);
  }

  lemma RankExists(n: nat, u: real) returns (rank: nat)
    requires 0 < n && u < 1.0
    ensures DrawnRank(n, u, rank)
  {
    LastShare(n, u);
    rank := 0;
    while !ShareReached(n, u, rank)
      invariant rank < n && forall i: nat :: i < rank ==> !ShareReached(n, u, i)
      decreases n - rank
    {
      rank := rank + 1;
    }
    forall i: nat | rank <= i < n
      ensures ShareReached(n, u, i)
    {
      ShareRises(n, u, rank, i);
    }
  }

  /** The sampler for an odd number of values, with its shortcut for a constant sample. */
  method SampleMedian(values: seq<real>, u: real) returns (median: real)
    requires |values| % 2 == 1 && 0.0 <= u < 1.0
    ensures |Sort(RealAtMost, values)| == |values|
    ensures exists rank: nat :: DrawnRank(|values|, u, rank) && median == Sort(RealAtMost, values)[rank]
  {
    var ordered := Sort(RealAtMost, values);
    SortMultiset(RealAtMost, values);
    if Constant(values) {
      median := values[0];
      ghost var rank := RankExists(|values|, u);
      SortMembers(RealAtMost, values);
      assert ordered[rank] in values;
    } else {
      var rank := SampleRank(|values|, u);
      median := ordered[rank];
    }
  }

  method SampleRank(n: nat, u: real) returns (rank: nat)
    requires 0 < n && 0.0 <= u < 1.0
    ensures DrawnRank(n, u, rank)
  {
    var cdf := Table(n);
    TableAscends(n, cdf);
    rank := BisectLeft(cdf, u);
    assert rank <= n - 1;
    forall i: nat | i < n
      ensures rank <= i <==> ShareReached(n, u, i)
    {
      ShareFromTable(n, u, i);
      assert cdf[i] == Cdf(n, i + 1);
    }
  }
}
