/** Lists of half-open ranges: the interval algebra behind coverage and lock tracking. */
module Ranges {
  import opened Sorting

  datatype Range = Range(left: int, right: int)

  predicate Inside(r: Range, p: int) {
    r.left <= p < r.right
  }

  /** The point set a list stands for. */
  ghost predicate Denotes(rs: seq<Range>, p: int) {
    exists i :: 0 <= i < |rs| && Inside(rs[i], p)
  }

  predicate AllNonempty(rs: seq<Range>) {
    forall i :: 0 <= i < |rs| ==> rs[i].left < rs[i].right
  }

  /** Ascending, nonempty and strictly separated: touching ranges are already joined. */
  ghost predicate Canonical(rs: seq<Range>) {
    && AllNonempty(rs)
    && forall i, j :: 0 <= i < j < |rs| ==> rs[i].right < rs[j].left
  }

  function Min(a: int, b: int): int { if a < b then a else b }

  function Max(a: int, b: int): int { if a < b then b else a }

  /** Tuple order of Python: left first, then right. */
  predicate Precedes(a: Range, b: Range) {
    a.left < b.left || (a.left == b.left && a.right <= b.right)
  }

  lemma PrecedesIsTotal()
    ensures TotalPreorder(Precedes)
  {}

  predicate Ascending(rs: seq<Range>) {
    forall i, j :: 0 <= i < j < |rs| ==> rs[i].left <= rs[j].left
  }

  // ----- subtraction

  function Pieces(r: Range, start: int, end: int): seq<Range> {
    var low := Range(r.left, Min(r.right, start));
    var high := Range(Max(r.left, end), r.right);
    (if low.left < low.right then [low] else []) + (if high.left < high.right then [high] else [])
  }

  function Remove(rs: seq<Range>, start: int, end: int): seq<Range> {
    if rs == [] then [] else Pieces(rs[0], start, end) + Remove(rs[1..], start, end)
  }

  lemma DenotesConcat(a: seq<Range>, b: seq<Range>, p: int)
    ensures Denotes(a + b, p) <==> Denotes(a, p) || Denotes(b, p)
  {
    if Denotes(a, p) {
      var i :| 0 <= i < |a| && Inside(a[i], p);
      assert (a + b)[i] == a[i];
    }
    if Denotes(b, p) {
      var i :| 0 <= i < |b| && Inside(b[i], p);
      assert (a + b)[|a| + i] == b[i];
    }
  }

  lemma DenotesSingle(r: Range, p: int)
    ensures Denotes([r], p) <==> Inside(r, p)
  {
    assert [r][0] == r;
  }

  lemma PiecesDenote(r: Range, start: int, end: int, p: int)
    ensures Denotes(Pieces(r, start, end), p) <==> Inside(r, p) && !(start <= p < end)
  {
    var ps := Pieces(r, start, end);
    var low := Range(r.left, Min(r.right, start));
    var high := Range(Max(r.left, end), r.right);
    if Inside(low, p) { assert Inside(ps[0], p); }
    if Inside(high, p) { assert Inside(ps[|ps| - 1], p); }
  }

  /** Subtraction removes exactly the requested points, for any bounds and any list. */
  lemma {:induction false} RemoveDenotes(rs: seq<Range>, start: int, end: int, p: int)
    ensures Denotes(Remove(rs, start, end), p) <==> Denotes(rs, p) && !(start <= p < end)
  {
    if rs != [] {
      assert rs == [rs[0]] + rs[1..];
      DenotesConcat([rs[0]], rs[1..], p);
      DenotesSingle(rs[0], p);
      PiecesDenote(rs[0], start, end, p);
      RemoveDenotes(rs[1..], start, end, p);
      DenotesConcat(Pieces(rs[0], start, end), Remove(rs[1..], start, end), p);
    }
  }

  /** Every remaining range comes from some range of the input. */
  lemma {:induction false} RemoveWithin(rs: seq<Range>, start: int, end: int, k: nat)
    requires k < |Remove(rs, start, end)|
    ensures var r := Remove(rs, start, end)[k];
            r.left < r.right && exists i :: 0 <= i < |rs| && rs[i].left <= r.left && r.right <= rs[i].right
  {
    var ps := Pieces(rs[0], start, end);
    if k < |ps| {
      assert rs[0].left <= ps[k].left && ps[k].right <= rs[0].right;
    } else {
      RemoveWithin(rs[1..], start, end, k - |ps|);
      var r := Remove(rs, start, end)[k];
      var i :| 0 <= i < |rs[1..]| && rs[1..][i].left <= r.left && r.right <= rs[1..][i].right;
      assert rs[i + 1] == rs[1..][i];
    }
  }

  /** No range of `rs` lies on both sides of the cut. */
  ghost predicate NoStraddle(rs: seq<Range>, start: int, end: int) {
    forall i :: 0 <= i < |rs| ==> rs[i].right <= end || start <= rs[i].left
  }

  lemma {:induction false} RemoveCanonicalIf(rs: seq<Range>, start: int, end: int)
    requires Canonical(rs) && (start < end || NoStraddle(rs, start, end))
    ensures Canonical(Remove(rs, start, end))
  {
    if rs != [] {
      var ps, rest := Pieces(rs[0], start, end), Remove(rs[1..], start, end);
      assert forall i :: 0 <= i < |rs[1..]| ==> rs[1..][i] == rs[i + 1];
      RemoveCanonicalIf(rs[1..], start, end);
      assert start >= end ==> rs[0].right <= end || start <= rs[0].left;
      forall k | 0 <= k < |rest|
        ensures rs[0].right < rest[k].left
      {
        RemoveWithin(rs[1..], start, end, k);
      }
    }
  }

  lemma {:induction false} RemoveStraddles(rs: seq<Range>, start: int, end: int, i: nat) returns (k: nat)
    requires i < |rs| && end <= start && rs[i].left < rs[i].right
    requires end < rs[i].right && rs[i].left < start
    ensures k + 1 < |Remove(rs, start, end)|
    ensures Remove(rs, start, end)[k + 1].left <= Remove(rs, start, end)[k].right
  {
    if i == 0 {
      k := 0;
    } else {
      var j := RemoveStraddles(rs[1..], start, end, i - 1);
      k := j + |Pieces(rs[0], start, end)|;
    }
  }

  /** Subtraction keeps a canonical list canonical exactly when it does not split a range at an empty cut. */
  lemma RemoveCanonical(rs: seq<Range>, start: int, end: int)
    requires Canonical(rs)
    ensures Canonical(Remove(rs, start, end)) <==> start < end || NoStraddle(rs, start, end)
  {
    if start < end || NoStraddle(rs, start, end) {
      RemoveCanonicalIf(rs, start, end);
    } else {
      var i :| 0 <= i < |rs| && end < rs[i].right && rs[i].left < start;
      var k := RemoveStraddles(rs, start, end, i);
    }
  }

  // ----- lists that need not be canonical

  /** Left ends ascend and each range ends before any later one begins. Empty ranges may be among them. */
  ghost predicate Separated(rs: seq<Range>) {
    forall i, j :: 0 <= i < j < |rs| ==> rs[i].left <= rs[j].left && rs[i].right < rs[j].left
  }

  /** The same for the ranges that begin below `limit`. */
  ghost predicate SeparatedBelow(rs: seq<Range>, limit: int) {
    forall i, j :: 0 <= i < j < |rs| && rs[j].left < limit ==> rs[i].right < rs[j].left
  }

  /** What a sequence of unions and subtractions leaves behind, whatever their bounds. */
  ghost predicate Tidy(rs: seq<Range>, limit: int) {
    Separated(rs) || (AllNonempty(rs) && SeparatedBelow(rs, limit))
  }

  /** Subtraction drops empty ranges and keeps the order below the limit, if an empty cut lies past it. */
  lemma {:induction false} RemoveTidy(rs: seq<Range>, start: int, end: int, limit: int)
    requires SeparatedBelow(rs, limit) && (start < end || limit <= end)
    ensures AllNonempty(Remove(rs, start, end)) && SeparatedBelow(Remove(rs, start, end), limit)
  {
    if rs != [] {
      var ps, rest := Pieces(rs[0], start, end), Remove(rs[1..], start, end);
      assert forall i :: 0 <= i < |rs[1..]| ==> rs[1..][i] == rs[i + 1];
      RemoveTidy(rs[1..], start, end, limit);
      forall k | 0 <= k < |rest| && rest[k].left < limit
        ensures rs[0].right < rest[k].left
      {
        RemoveWithin(rs[1..], start, end, k);
      }
    }
  }

  // ----- union

  /** One turn of the pass: widen the last range if the next one touches it. */
  function Widen(result: seq<Range>, r: Range): seq<Range> {
    if result != [] && r.left <= result[|result| - 1].right then
      var last := result[|result| - 1];
      result[..|result| - 1] + [Range(last.left, Max(r.right, last.right))]
    else result + [r]
  }

  /** Range `x` has gone into `r`: it is `r`, or an earlier range reached its left end. */
  predicate Holder(r: Range, x: Range) {
    && r.left <= x.left && x.right <= r.right
    && (r == x || (x.left <= r.right && (x.right < x.left ==> r.left < x.left)))
  }

  ghost predicate Held(result: seq<Range>, x: Range) {
    exists i :: 0 <= i < |result| && Holder(result[i], x)
  }

  /** An empty range is one of those given. */
  ghost predicate EmptyFrom(result: seq<Range>, given: seq<Range>) {
    forall r :: r in result && r.right <= r.left ==> r in given
  }

  /** The last range begins where some given one begins; if that one is inverted, nothing has widened it. */
  ghost predicate BegunBy(last: Range, seen: seq<Range>) {
    exists y :: y in seen && y.left == last.left && (y == last || y.left <= y.right)
  }

  /** What the pass has made of the ranges seen so far. */
  ghost predicate Pass(result: seq<Range>, seen: seq<Range>) {
    && (seen == [] <==> result == [])
    && Separated(result)
    && (forall p :: Denotes(result, p) <==> Denotes(seen, p))
    && (AllNonempty(seen) ==> AllNonempty(result))
    && EmptyFrom(result, seen)
    && (forall x :: x in seen ==> Held(result, x))
    && (result != [] ==> BegunBy(result[|result| - 1], seen))
  }

  lemma WidenDenotes(result: seq<Range>, r: Range, p: int)
    requires result != [] ==> result[|result| - 1].left <= r.left
    ensures Denotes(Widen(result, r), p) <==> Denotes(result, p) || Inside(r, p)
  {
    if result != [] && r.left <= result[|result| - 1].right {
      var front, last := result[..|result| - 1], result[|result| - 1];
      var wide := Range(last.left, Max(r.right, last.right));
      assert result == front + [last];
      DenotesConcat(front, [last], p);
      DenotesConcat(front, [wide], p);
      DenotesSingle(last, p);
      DenotesSingle(wide, p);
    } else {
      DenotesConcat(result, [r], p);
      DenotesSingle(r, p);
    }
  }

  lemma WidenHolds(result: seq<Range>, seen: seq<Range>, r: Range, x: Range)
    requires Pass(result, seen) && (forall y :: y in seen ==> Precedes(y, r)) && (x in seen || x == r)
    ensures Held(Widen(result, r), x)
  {
    var next := Widen(result, r);
    if result != [] && r.left <= result[|result| - 1].right {
      var k := |result| - 1;
      var y :| y in seen && y.left == result[k].left && (y == result[k] || y.left <= y.right);
      if x in seen {
        var i :| 0 <= i < |result| && Holder(result[i], x);
        assert Precedes(x, r);
        assert Holder(next[i], x);
      } else {
        assert Holder(next[k], x);
      }
    } else if x in seen {
      var i :| 0 <= i < |result| && Holder(result[i], x);
      assert next[i] == result[i];
    } else {
      assert Holder(next[|result|], r);
    }
  }

  lemma WidenEmpty(result: seq<Range>, seen: seq<Range>, r: Range)
    requires Pass(result, seen) && forall y :: y in seen ==> Precedes(y, r)
    ensures EmptyFrom(Widen(result, r), seen + [r])
    ensures var next := Widen(result, r); BegunBy(next[|next| - 1], seen + [r])
  {
    var next := Widen(result, r);
    if result != [] && r.left <= result[|result| - 1].right {
      var last := result[|result| - 1];
      var y :| y in seen && y.left == last.left && (y == last || y.left <= y.right);
      assert Precedes(y, r) && y in seen + [r];
      assert BegunBy(next[|next| - 1], seen + [r]);
    } else {
      assert r in seen + [r];
      assert BegunBy(next[|next| - 1], seen + [r]);
    }
  }

  lemma WidenSeparated(result: seq<Range>, r: Range)
    requires Separated(result) && (result != [] ==> result[|result| - 1].left <= r.left)
    ensures Separated(Widen(result, r))
    ensures AllNonempty(result) && r.left < r.right ==> AllNonempty(Widen(result, r))
  {
    var k := |result| - 1;
    if result != [] {
      assert forall i :: 0 <= i < k ==> result[i].left <= result[k].left && result[i].right < result[k].left;
    }
  }

  lemma PassStep(result: seq<Range>, seen: seq<Range>, r: Range)
    requires Pass(result, seen) && forall y :: y in seen ==> Precedes(y, r)
    ensures Pass(Widen(result, r), seen + [r])
  {
    var next, more := Widen(result, r), seen + [r];
    if result != [] {
      var y :| y in seen && y.left == result[|result| - 1].left;
      assert Precedes(y, r);
    }
    WidenSeparated(result, r);
    forall p
      ensures Denotes(next, p) <==> Denotes(more, p)
    {
      WidenDenotes(result, r, p);
      DenotesConcat(seen, [r], p);
      DenotesSingle(r, p);
    }
    WidenEmpty(result, seen, r);
    forall x | x in more
      ensures Held(next, x)
    {
      WidenHolds(result, seen, r, x);
    }
    if AllNonempty(more) {
      assert forall i :: 0 <= i < |seen| ==> seen[i] == more[i];
      assert more[|seen|] == r;
    }
  }

  lemma NextInOrder(sorted: seq<Range>, n: nat)
    requires Sorted(Precedes, sorted) && n < |sorted|
    ensures sorted[..n + 1] == sorted[..n] + [sorted[n]]
    ensures forall y :: y in sorted[..n] ==> Precedes(y, sorted[n])
  {}

  /** The pass over ranges in order. */
  method Join(sorted: seq<Range>) returns (result: seq<Range>)
    requires Sorted(Precedes, sorted)
    ensures Pass(result, sorted)
  {
    result := [];
    for n := 0 to |sorted|
      invariant Pass(result, sorted[..n])
    {
      var r := sorted[n];
      NextInOrder(sorted, n);
      PassStep(result, sorted[..n], r);
      result := Widen(result, r);
    }
    assert sorted[..|sorted|] == sorted;
  }

  /** One pass over the sorted ranges, widening the last one while they touch. */
  method Add(rs: seq<Range>, start: int, end: int) returns (result: seq<Range>)
    ensures forall p :: Denotes(result, p) <==> Denotes(rs, p) || start <= p < end
    ensures AllNonempty(rs) && start < end ==> Canonical(result)
    ensures Separated(result) && EmptyFrom(result, rs + [Range(start, end)])
    ensures forall x :: x in rs + [Range(start, end)] ==> Held(result, x)
  {
    var all := rs + [Range(start, end)];
    var sorted := Sort(Precedes, all);
    PrecedesIsTotal();
    SortSorted(Precedes, all);
    SortMembers(Precedes, all);
    result := Join(sorted);
    SameMembers(sorted, all);
    forall p
      ensures Denotes(all, p) <==> Denotes(rs, p) || start <= p < end
    {
      DenotesConcat(rs, [Range(start, end)], p);
      DenotesSingle(Range(start, end), p);
    }
    if AllNonempty(rs) && start < end {
      forall i | 0 <= i < |sorted|
        ensures sorted[i].left < sorted[i].right
      {
        assert sorted[i] in all;
      }
    }
  }

  lemma SameMembers(a: seq<Range>, b: seq<Range>)
    requires forall r :: r in a <==> r in b
    ensures forall p :: Denotes(a, p) <==> Denotes(b, p)
  {
    forall p
      ensures Denotes(a, p) <==> Denotes(b, p)
    {
      if Denotes(a, p) {
        var i :| 0 <= i < |a| && Inside(a[i], p);
        assert a[i] in b;
      }
      if Denotes(b, p) {
        var i :| 0 <= i < |b| && Inside(b[i], p);
        assert b[i] in a;
      }
    }
  }

  // ----- canonical lists are unique

  lemma HeadBounds(rs: seq<Range>, p: int)
    requires Canonical(rs) && rs != []
    ensures Denotes(rs, rs[0].left) && !Denotes(rs, rs[0].right)
    ensures p < rs[0].left ==> !Denotes(rs, p)
    ensures rs[0].left <= p < rs[0].right ==> Denotes(rs, p)
    ensures Denotes(rs[1..], p) <==> Denotes(rs, p) && rs[0].right <= p
  {
    assert rs == [rs[0]] + rs[1..];
    assert Inside(rs[0], rs[0].left);
    assert Inside(rs[0], p) ==> Denotes(rs, p);
    DenotesConcat([rs[0]], rs[1..], p);
    DenotesSingle(rs[0], p);
  }

  /** A canonical list is determined by the points it stands for. */
  lemma {:induction false} CanonicalUnique(a: seq<Range>, b: seq<Range>)
    requires Canonical(a) && Canonical(b)
    requires forall p :: Denotes(a, p) <==> Denotes(b, p)
    ensures a == b
  {
    if a != [] { HeadBounds(a, a[0].left); }
    if b != [] { HeadBounds(b, b[0].left); }
    if a != [] && b != [] {
      HeadBounds(a, b[0].left);
      HeadBounds(b, a[0].left);
      HeadBounds(a, b[0].right);
      HeadBounds(b, a[0].right);
      assert a[0] == b[0];
      forall p
        ensures Denotes(a[1..], p) <==> Denotes(b[1..], p)
      {
        HeadBounds(a, p);
        HeadBounds(b, p);
      }
      CanonicalUnique(a[1..], b[1..]);
      assert a == [a[0]] + a[1..] && b == [b[0]] + b[1..];
    }
  }

  /** The one list equality in the completion test says that every byte, and no other, is covered. */
  lemma WholeRange(rs: seq<Range>, expected: int)
    requires Canonical(rs) && 0 < expected
    ensures rs == [Range(0, expected)] <==> forall p :: Denotes(rs, p) <==> 0 <= p < expected
  {
    var whole := [Range(0, expected)];
    forall p
      ensures Denotes(whole, p) <==> 0 <= p < expected
    {
      DenotesSingle(whole[0], p);
    }
    if forall p :: Denotes(rs, p) <==> 0 <= p < expected {
      CanonicalUnique(rs, whole);
    }
  }

  /** A range whose left end no stretch [0, limit) reaches, from either side. */
  predicate Outside(r: Range, limit: int) {
    r.left < 0 || limit < r.left || (r.left == 0 && r.right < 0)
  }

  ghost predicate EmptyOutside(rs: seq<Range>, limit: int) {
    exists i :: 0 <= i < |rs| && rs[i].right <= rs[i].left && Outside(rs[i], limit)
  }

  ghost predicate CoversExactly(rs: seq<Range>, limit: int) {
    forall p :: Denotes(rs, p) <==> 0 <= p < limit
  }

  lemma OneBlock(rs: seq<Range>, limit: int) returns (k: nat)
    requires Separated(rs) && 0 < limit && CoversExactly(rs, limit)
    ensures k < |rs| && rs[k] == Range(0, limit)
  {
    assert Denotes(rs, 0);
    k :| 0 <= k < |rs| && Inside(rs[k], 0);
    var r := rs[k];
    assert Inside(r, r.left) && Inside(r, r.right - 1);
    assert Denotes(rs, r.left) && Denotes(rs, r.right - 1);
    GapAfter(rs, k);
  }

  lemma GapAfter(rs: seq<Range>, k: nat)
    requires Separated(rs) && k < |rs| && rs[k].left < rs[k].right
    ensures !Denotes(rs, rs[k].right)
  {
    forall j | 0 <= j < |rs|
      ensures !Inside(rs[j], rs[k].right)
    {
      if j < k {
        assert rs[j].right < rs[k].left;
      } else if k < j {
        assert rs[k].right < rs[j].left;
      }
    }
  }

  /** In a separated list an empty range beside exactly [0, limit) lies outside it. */
  lemma EmptyIsOutside(rs: seq<Range>, limit: int, i: nat)
    requires Separated(rs) && 0 < limit && CoversExactly(rs, limit)
    requires i < |rs| && rs[i].right <= rs[i].left
    ensures Outside(rs[i], limit)
  {
    var k := OneBlock(rs, limit);
    if i < k {
      assert rs[i].left <= rs[k].left && rs[i].right < rs[k].left;
    } else {
      assert rs[k].right < rs[i].left;
    }
  }

  /** The list equality of the completion test, whatever ranges were ever added: exactly the bytes of the
      target are covered, and no empty range is left outside it. */
  lemma WholeWhenTidy(rs: seq<Range>, limit: int)
    requires Tidy(rs, limit) && 0 < limit
    ensures rs == [Range(0, limit)] <==> CoversExactly(rs, limit) && !EmptyOutside(rs, limit)
  {
    if rs == [Range(0, limit)] {
      WholeRange(rs, limit);
    }
    if CoversExactly(rs, limit) && !EmptyOutside(rs, limit) {
      forall i | 0 <= i < |rs|
        ensures rs[i].left < rs[i].right
      {
        if rs[i].right <= rs[i].left { EmptyIsOutside(rs, limit, i); }
      }
      forall i | 0 <= i < |rs|
        ensures rs[i].left < limit
      {
        assert Inside(rs[i], rs[i].left) && Denotes(rs, rs[i].left);
      }
      WholeRange(rs, limit);
    }
  }

  // ----- the readiness pass

  /** Walk past each range that holds the current instant. */
  function Advance(rs: seq<Range>, at: int): int {
    if rs == [] then at
    else Advance(rs[1..], if Inside(rs[0], at) then rs[0].right else at)
  }

  lemma {:induction false} AdvanceStays(rs: seq<Range>, at: int)
    requires forall i :: 0 <= i < |rs| ==> at < rs[i].left
    ensures Advance(rs, at) == at
  {
    if rs != [] { AdvanceStays(rs[1..], at); }
  }

  /** `next` is the first point from `at` on that the list leaves free. */
  ghost predicate FirstFree(rs: seq<Range>, at: int, next: int) {
    && at <= next
    && !Denotes(rs, next)
    && forall t :: at <= t < next ==> Denotes(rs, t)
  }

  /** One pass in order of left ends suffices, even when ranges overlap or nest. */
  lemma {:induction false} AdvanceFirstFree(rs: seq<Range>, at: int)
    requires Ascending(rs)
    ensures FirstFree(rs, at, Advance(rs, at))
  {
    if rs != [] {
      var head, tail := rs[0], rs[1..];
      var at' := if Inside(head, at) then head.right else at;
      var next := Advance(tail, at');
      assert rs == [head] + tail;
      AdvanceFirstFree(tail, at');
      if at < head.left { AdvanceStays(tail, at); }
      DenotesConcat([head], tail, next);
      DenotesSingle(head, next);
      forall t | at <= t < next
        ensures Denotes(rs, t)
      {
        DenotesConcat([head], tail, t);
        DenotesSingle(head, t);
      }
    }
  }
}
