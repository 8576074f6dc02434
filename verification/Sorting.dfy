/** Python's `sorted`: a stable sort by an arbitrary total preorder. */
module Sorting {

  ghost predicate TotalPreorder<T(!new)>(le: (T, T) -> bool) {
    && (forall x, y :: le(x, y) || le(y, x))
    && (forall x, y, z :: le(x, y) && le(y, z) ==> le(x, z))
  }

  ghost predicate Sorted<T>(le: (T, T) -> bool, s: seq<T>) {
    forall i, j :: 0 <= i < j < |s| ==> le(s[i], s[j])
  }

  predicate RealAtMost(a: real, b: real) {
    a <= b
  }

  function Insert<T>(le: (T, T) -> bool, x: T, s: seq<T>): seq<T> {
    if s == [] then [x]
    else if le(x, s[0]) then [x] + s
    else [s[0]] + Insert(le, x, s[1..])
  }

  function Sort<T>(le: (T, T) -> bool, s: seq<T>): seq<T> {
    if s == [] then [] else Insert(le, s[0], Sort(le, s[1..]))
  }

  function Filter<T>(p: T -> bool, s: seq<T>): seq<T> {
    if s == [] then [] else (if p(s[0]) then [s[0]] else []) + Filter(p, s[1..])
  }

  lemma {:induction false} InsertMultiset<T>(le: (T, T) -> bool, x: T, s: seq<T>)
    ensures multiset(Insert(le, x, s)) == multiset{x} + multiset(s)
  {
    if s != [] {
      assert s == [s[0]] + s[1..];
      InsertMultiset(le, x, s[1..]);
    }
  }

  lemma {:induction false} SortMultiset<T>(le: (T, T) -> bool, s: seq<T>)
    ensures multiset(Sort(le, s)) == multiset(s)
    ensures |Sort(le, s)| == |s|
  {
    if s != [] {
      assert s == [s[0]] + s[1..];
      SortMultiset(le, s[1..]);
      InsertMultiset(le, s[0], Sort(le, s[1..]));
    }
    assert |multiset(Sort(le, s))| == |multiset(s)|;
  }

  lemma SortMembers<T>(le: (T, T) -> bool, s: seq<T>)
    ensures forall x :: x in Sort(le, s) <==> x in s
  {
    SortMultiset(le, s);
    forall x
      ensures x in Sort(le, s) <==> x in s
    {
      assert x in Sort(le, s) <==> x in multiset(Sort(le, s));
      assert x in s <==> x in multiset(s);
    }
  }

  lemma {:induction false} InsertSorted<T(!new)>(le: (T, T) -> bool, x: T, s: seq<T>)
    requires TotalPreorder(le) && Sorted(le, s)
    ensures Sorted(le, Insert(le, x, s))
  {
    if s != [] && !le(x, s[0]) {
      InsertSorted(le, x, s[1..]);
      InsertMultiset(le, x, s[1..]);
      var rest := Insert(le, x, s[1..]);
      forall y | y in rest
        ensures le(s[0], y)
      {
        assert y in multiset(rest);
        if y != x {
          assert y in s[1..];
        }
      }
    }
  }

  /** The result is in order. */
  lemma {:induction false} SortSorted<T(!new)>(le: (T, T) -> bool, s: seq<T>)
    requires TotalPreorder(le)
    ensures Sorted(le, Sort(le, s))
  {
    if s != [] {
      SortSorted(le, s[1..]);
      InsertSorted(le, s[0], Sort(le, s[1..]));
    }
  }

  /** An ordered list is left as it is. */
  lemma {:induction false} SortIdentity<T>(le: (T, T) -> bool, s: seq<T>)
    requires Sorted(le, s)
    ensures Sort(le, s) == s
  {
    if s != [] {
      SortIdentity(le, s[1..]);
      assert s == [s[0]] + s[1..];
      if |s| > 1 {
        assert le(s[0], s[1]);
      }
    }
  }

  lemma FilterCons<T>(p: T -> bool, x: T, s: seq<T>)
    ensures Filter(p, [x] + s) == if p(x) then [x] + Filter(p, s) else Filter(p, s)
  {
    assert ([x] + s)[1..] == s;
  }

  lemma {:induction false} InsertFilter<T>(le: (T, T) -> bool, p: T -> bool, x: T, s: seq<T>)
    requires forall a, b :: p(a) && p(b) ==> le(a, b)
    ensures Filter(p, Insert(le, x, s)) == Filter(p, [x] + s)
  {
    FilterCons(p, x, s);
    if s != [] && !le(x, s[0]) {
      InsertFilter(le, p, x, s[1..]);
      FilterCons(p, x, s[1..]);
      FilterCons(p, s[0], Insert(le, x, s[1..]));
    }
  }

  /** Elements the order does not tell apart keep their relative positions. */
  lemma {:induction false} SortStable<T>(le: (T, T) -> bool, p: T -> bool, s: seq<T>)
    requires forall a, b :: p(a) && p(b) ==> le(a, b)
    ensures Filter(p, Sort(le, s)) == Filter(p, s)
  {
    if s != [] {
      SortStable(le, p, s[1..]);
      InsertFilter(le, p, s[0], Sort(le, s[1..]));
      FilterCons(p, s[0], Sort(le, s[1..]));
    }
  }

  lemma {:induction false} DistinctOnce<T>(s: seq<T>)
    requires forall i, j :: 0 <= i < j < |s| ==> s[i] != s[j]
    ensures forall x :: multiset(s)[x] <= 1
  {
    if s != [] {
      DistinctOnce(s[1..]);
      assert s == [s[0]] + s[1..];
      assert s[0] !in s[1..];
    }
  }

  lemma TwiceInSeq<T>(s: seq<T>, i: nat, j: nat)
    requires i < j < |s| && s[i] == s[j]
    ensures multiset(s)[s[i]] >= 2
  {
    assert s == s[..i] + [s[i]] + s[i + 1..j] + [s[j]] + s[j + 1..];
  }

  /** Sorting introduces no duplicates. */
  lemma SortDistinct<T>(le: (T, T) -> bool, s: seq<T>)
    requires forall i, j :: 0 <= i < j < |s| ==> s[i] != s[j]
    ensures forall i, j :: 0 <= i < j < |s| ==> |Sort(le, s)| == |s| && Sort(le, s)[i] != Sort(le, s)[j]
  {
    SortMultiset(le, s);
    DistinctOnce(s);
    var r := Sort(le, s);
    forall i, j | 0 <= i < j < |s|
      ensures r[i] != r[j]
    {
      if r[i] == r[j] { TwiceInSeq(r, i, j); }
    }
  }
}
