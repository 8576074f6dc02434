/** Symbolic quiet-time policies: canonical expression trees over one observed interval. */
module Expressions {
  import opened Sorting

  datatype Operator = Log | Sqrt | Sat | Power | Mul | Add

  datatype Tree = X | Unary(op: Operator, child: Tree) | Binary(op: Operator, left: Tree, right: Tree)

  predicate IsUnary(op: Operator) {
    op.Log? || op.Sqrt? || op.Sat? || op.Power?
  }

  /** Operators are applied to as many arguments as they take. */
  predicate WellFormed(t: Tree) {
    match t
    case X => true
    case Unary(op, child) => IsUnary(op) && WellFormed(child)
    case Binary(op, left, right) => !IsUnary(op) && WellFormed(left) && WellFormed(right)
  }

  function Operators(t: Tree): seq<Operator> {
    match t
    case X => []
    case Unary(op, child) => [op] + Operators(child)
    case Binary(op, left, right) => [op] + Operators(left) + Operators(right)
  }

  // ----- the printed form, which decides the order of commutative arguments

  function Name(op: Operator): string {
    match op
    case Log => "log"
    case Sqrt => "sqrt"
    case Sat => "sat"
    case Power => "power"
    case Mul => "mul"
    case Add => "add"
  }

  function Head(op: Operator): string {
    "('" + Name(op) + "', "
  }

  /** The text Python prints for the nested tuples. */
  function Repr(t: Tree): string {
    match t
    case X => "'x'"
    case Unary(op, child) => Head(op) + Repr(child) + ")"
    case Binary(op, left, right) => Head(op) + Repr(left) + ", " + Repr(right) + ")"
  }

  predicate TextAtMost(a: string, b: string) {
    if a == [] then true
    else if b == [] then false
    else a[0] < b[0] || (a[0] == b[0] && TextAtMost(a[1..], b[1..]))
  }

  lemma {:induction false} TextTotal(a: string, b: string)
    ensures TextAtMost(a, b) || TextAtMost(b, a)
  {
    if a != [] && b != [] { TextTotal(a[1..], b[1..]); }
  }

  lemma {:induction false} TextTransitive(a: string, b: string, c: string)
    requires TextAtMost(a, b) && TextAtMost(b, c)
    ensures TextAtMost(a, c)
  {
    if a != [] { TextTransitive'(a, b, c); }
  }

  lemma {:induction false} TextTransitive'(a: string, b: string, c: string)
    requires a != [] && TextAtMost(a, b) && TextAtMost(b, c)
    ensures TextAtMost(a, c)
  {
    if a[0] == b[0] == c[0] && a[1..] != [] { TextTransitive'(a[1..], b[1..], c[1..]); }
  }

  lemma {:induction false} TextAntisymmetric(a: string, b: string)
    requires TextAtMost(a, b) && TextAtMost(b, a)
    ensures a == b
  {
    if a != [] {
      TextAntisymmetric(a[1..], b[1..]);
      assert a == [a[0]] + a[1..] && b == [b[0]] + b[1..];
    }
  }

  predicate NotAfter(a: Tree, b: Tree) {
    TextAtMost(Repr(a), Repr(b))
  }

  lemma NotAfterTotal()
    ensures TotalPreorder(NotAfter)
  {
    forall a, b
      ensures NotAfter(a, b) || NotAfter(b, a)
    {
      TextTotal(Repr(a), Repr(b));
    }
    forall a, b, c | NotAfter(a, b) && NotAfter(b, c)
      ensures NotAfter(a, c)
    {
      TextTransitive(Repr(a), Repr(b), Repr(c));
    }
  }

  lemma HeadsDiffer(a: Operator, b: Operator, s: string, t: string)
    requires Head(a) + s == Head(b) + t
    ensures a == b && s == t
  {
    var u, v := Head(a) + s, Head(b) + t;
    assert u[2] == Name(a)[0] && v[2] == Name(b)[0];
    assert u[3] == Name(a)[1] && v[3] == Name(b)[1];
    assert s == u[|Head(a)|..] && t == v[|Head(b)|..];
  }

  /** What follows the head of a printed tree, and then `s`. */
  function Tail(t: Tree, s: string): string
    requires t != X
  {
    if t.Unary? then Repr(t.child) + (")" + s) else Repr(t.left) + (", " + (Repr(t.right) + (")" + s)))
  }

  lemma HeadAndTail(t: Tree, s: string)
    ensures |Repr(t)| > 0 && Repr(t)[0] == if t == X then '\'' else '('
    ensures t != X ==> Repr(t) + s == Head(t.op) + Tail(t, s)
  {
    match t
    case X =>
    case Unary(op, child) =>
      Associative(Head(op) + Repr(child), ")", s);
      Associative(Head(op), Repr(child), ")" + s);
      assert Head(op)[0] == '(';
    case Binary(op, left, right) =>
      Associative(Head(op) + Repr(left) + ", " + Repr(right), ")", s);
      Associative(Head(op) + Repr(left) + ", ", Repr(right), ")" + s);
      Associative(Head(op) + Repr(left), ", ", Repr(right) + (")" + s));
      Associative(Head(op), Repr(left), ", " + (Repr(right) + (")" + s)));
      assert Head(op)[0] == '(';
  }

  lemma Associative(a: string, b: string, c: string)
    ensures (a + b) + c == a + (b + c)
  {}

  lemma DropPrefix(p: string, s: string, t: string)
    requires p + s == p + t
    ensures s == t
  {
    assert s == (p + s)[|p|..] && t == (p + t)[|p|..];
  }

  /** Printed trees are a prefix code: what follows a tree cannot be confused with the tree. */
  lemma {:induction false} PrefixCode(a: Tree, b: Tree, s: string, t: string)
    requires WellFormed(a) && WellFormed(b) && Repr(a) + s == Repr(b) + t
    ensures a == b && s == t
  {
    HeadAndTail(a, s);
    HeadAndTail(b, t);
    assert (Repr(a) + s)[0] == Repr(a)[0] && (Repr(b) + t)[0] == Repr(b)[0];
    if a == X {
      DropPrefix(Repr(X), s, t);
    } else {
      HeadsDiffer(a.op, b.op, Tail(a, s), Tail(b, t));
      if a.Unary? {
        PrefixCode(a.child, b.child, ")" + s, ")" + t);
      } else {
        PrefixCode(a.left, b.left, ", " + (Repr(a.right) + (")" + s)), ", " + (Repr(b.right) + (")" + t)));
        DropPrefix(", ", Repr(a.right) + (")" + s), Repr(b.right) + (")" + t));
        PrefixCode(a.right, b.right, ")" + s, ")" + t);
      }
      DropPrefix(")", s, t);
    }
  }

  /** Different trees print differently. */
  lemma ReprInjective(a: Tree, b: Tree)
    requires WellFormed(a) && WellFormed(b) && Repr(a) == Repr(b)
    ensures a == b
  {
    assert Repr(a) + [] == Repr(b) + [];
    PrefixCode(a, b, [], []);
  }

  // ----- the grammar

  /** Every binary node has its arguments in order, a right argument that is not a leaf, and different
      arguments when it adds. */
  predicate Canonical(t: Tree) {
    match t
    case X => true
    case Unary(op, child) => IsUnary(op) && Canonical(child)
    case Binary(op, left, right) =>
      && !IsUnary(op) && Canonical(left) && Canonical(right)
      && NotAfter(left, right) && right != X && (op == Add ==> left != right)
  }

  function Occurrences(op: Operator, t: Tree): nat {
    multiset(Operators(t))[op]
  }

  lemma OccurrencesSplit(op: Operator, t: Tree)
    requires t.Binary?
    ensures Occurrences(op, t) == (if t.op == op then 1 else 0) + Occurrences(op, t.left) + Occurrences(op, t.right)
  {
    var a, b := Operators(t.left), Operators(t.right);
    assert Operators(t) == [t.op] + (a + b);
    assert multiset([t.op] + (a + b)) == multiset{t.op} + multiset(a + b);
    assert multiset(a + b) == multiset(a) + multiset(b);
  }

  predicate AtMostOnce(t: Tree) {
    Occurrences(Add, t) <= 1 && Occurrences(Power, t) <= 1
  }

  /** The trees of the registered grammar. */
  predicate Registered(t: Tree) {
    Canonical(t) && AtMostOnce(t)
  }

  lemma {:induction false} CanonicalWellFormed(t: Tree)
    requires Canonical(t)
    ensures WellFormed(t)
  {
    match t
    case X =>
    case Unary(op, child) => CanonicalWellFormed(child);
    case Binary(op, left, right) => CanonicalWellFormed(left); CanonicalWellFormed(right);
  }

  /** The filter is closed under subtrees, so applying it level by level loses nothing. */
  lemma SubtreesRegistered(t: Tree)
    requires Registered(t)
    ensures t.Unary? ==> Registered(t.child)
    ensures t.Binary? ==> Registered(t.left) && Registered(t.right)
  {
    if t.Binary? {
      OccurrencesSplit(Add, t);
      OccurrencesSplit(Power, t);
    } else if t.Unary? {
      assert Operators(t) == [t.op] + Operators(t.child);
    }
  }

  /** The non-leaf condition only rules out applying a binary operator to the bare interval twice. */
  lemma RightLeafMeansBoth(left: Tree, right: Tree)
    requires NotAfter(left, right) && right == X
    ensures left == X
  {
    assert Repr(right)[0] == '\'';
    assert Repr(left)[0] == if left == X then '\'' else '(';
  }

  ghost predicate IsLevel(level: seq<Tree>, n: nat) {
    forall t :: t in level <==> Registered(t) && |Operators(t)| == n
  }

  ghost predicate Ascending(ts: seq<Tree>) {
    forall i, j :: 0 <= i < j < |ts| ==> NotAfter(ts[i], ts[j]) && ts[i] != ts[j]
  }

  method Listed(found: set<Tree>) returns (list: seq<Tree>)
    ensures forall t :: t in list <==> t in found
    ensures forall i, j :: 0 <= i < j < |list| ==> list[i] != list[j]
  {
    list := [];
    var rest := found;
    while rest != {}
      invariant forall t :: t in found <==> t in list || t in rest
      invariant forall t :: t in list ==> t !in rest
      invariant forall i, j :: 0 <= i < j < |list| ==> list[i] != list[j]
      decreases |rest|
    {
      var t :| t in rest;
      list, rest := list + [t], rest - {t};
    }
  }

  method SortedTrees(found: set<Tree>) returns (ts: seq<Tree>)
    ensures Ascending(ts) && forall t :: t in ts <==> t in found
  {
    var list := Listed(found);
    NotAfterTotal();
    SortSorted(NotAfter, list);
    SortMembers(NotAfter, list);
    SortDistinct(NotAfter, list);
    SortMultiset(NotAfter, list);
    ts := Sort(NotAfter, list);
  }

  predicate Unaries(level: seq<Tree>, t: Tree) {
    t.Unary? && IsUnary(t.op) && t.child in level
  }

  predicate Pairs(left: seq<Tree>, right: seq<Tree>, t: Tree) {
    t.Binary? && !IsUnary(t.op) && t.left in left && t.right in right && NotAfter(t.left, t.right)
    && (t.op == Add ==> t.left != t.right)
  }

  /** Every unary operator on every tree of the level. */
  method Products(level: seq<Tree>) returns (found: set<Tree>)
    ensures forall t :: t in found <==> Unaries(level, t)
  {
    found := {};
    for i := 0 to |level|
      invariant forall t :: t in found <==> Unaries(level[..i], t)
    {
      var child := level[i];
      assert level[..i + 1] == level[..i] + [child];
      found := found + {Unary(Log, child), Unary(Sqrt, child), Unary(Sat, child), Unary(Power, child)};
    }
    assert level[..|level|] == level;
  }

  /** The ordered products and sums of two levels. */
  method Combinations(lefts: seq<Tree>, rights: seq<Tree>) returns (found: set<Tree>)
    ensures forall t :: t in found <==> Pairs(lefts, rights, t)
  {
    found := {};
    for i := 0 to |lefts|
      invariant forall t :: t in found <==> Pairs(lefts[..i], rights, t)
    {
      assert lefts[..i + 1] == lefts[..i] + [lefts[i]];
      for j := 0 to |rights|
        invariant forall t :: t in found <==> Pairs(lefts[..i], rights, t) || Pairs([lefts[i]], rights[..j], t)
      {
        assert rights[..j + 1] == rights[..j] + [rights[j]];
        var left, right := lefts[i], rights[j];
        if TextAtMost(Repr(left), Repr(right)) {
          found := found + {Binary(Mul, left, right)};
          if left != right {
            found := found + {Binary(Add, left, right)};
          }
        }
      }
      assert rights[..|rights|] == rights;
    }
    assert lefts[..|lefts|] == lefts;
  }

  ghost predicate AreLevels(levels: seq<seq<Tree>>) {
    forall n :: 0 <= n < |levels| ==> IsLevel(levels[n], n) && Ascending(levels[n])
  }

  /** The trees of `count` operators whose parts lie in the levels, before the filter; binary nodes with at
      most `bound - 1` operators on the left. */
  ghost predicate Built(levels: seq<seq<Tree>>, count: nat, bound: nat, t: Tree)
    requires 0 < count == |levels| && bound <= count
  {
    || Unaries(levels[count - 1], t)
    || exists leftCount: nat :: leftCount < bound && PairedAt(levels, count, leftCount, t)
  }

  predicate PairedAt(levels: seq<seq<Tree>>, count: nat, leftCount: nat, t: Tree)
    requires leftCount < count == |levels|
  {
    Pairs(levels[leftCount], levels[count - 1 - leftCount], t)
  }

  lemma BuiltIsLevel(levels: seq<seq<Tree>>, count: nat, t: Tree)
    requires 0 < count == |levels| && AreLevels(levels)
    ensures Built(levels, count, count - 1, t) && AtMostOnce(t) <==> Registered(t) && |Operators(t)| == count
  {
    assert IsLevel(levels[count - 1], count - 1);
    if Registered(t) && |Operators(t)| == count {
      SubtreesRegistered(t);
      if t.Binary? {
        var leftCount := |Operators(t.left)|;
        assert |Operators(t.right)| == count - 1 - leftCount;
        assert IsLevel(levels[leftCount], leftCount);
        assert IsLevel(levels[count - 1 - leftCount], count - 1 - leftCount);
        RightNonLeaf(t.right);
        assert PairedAt(levels, count, leftCount, t);
      }
    }
    if leftCount: nat :| leftCount < count - 1 && PairedAt(levels, count, leftCount, t) {
      assert IsLevel(levels[leftCount], leftCount);
      assert IsLevel(levels[count - 1 - leftCount], count - 1 - leftCount);
      RightNonLeaf(t.right);
    }
  }

  lemma RightNonLeaf(t: Tree)
    ensures t == X <==> |Operators(t)| == 0
  {}

  /** One level of the enumeration. */
  method NextLevel(levels: seq<seq<Tree>>, count: nat) returns (level: seq<Tree>)
    requires 0 < count == |levels| && AreLevels(levels)
    ensures IsLevel(level, count) && Ascending(level)
  {
    var found := Products(levels[count - 1]);
    for leftCount := 0 to count - 1
      invariant forall t :: t in found <==> Built(levels, count, leftCount, t)
    {
      var more := Combinations(levels[leftCount], levels[count - 1 - leftCount]);
      ghost var before := found;
      found := found + more;
      forall t
        ensures t in found <==> Built(levels, count, leftCount + 1, t)
      {
        assert t in more <==> PairedAt(levels, count, leftCount, t);
        assert t in before <==> Built(levels, count, leftCount, t);
      }
    }
    var kept := set t | t in found && AtMostOnce(t);
    forall t { BuiltIsLevel(levels, count, t); }
    level := SortedTrees(kept);
  }

  /** Earlier trees have fewer operators, or as many and an earlier printed form. */
  ghost predicate Ranked(ts: seq<Tree>) {
    forall i, j :: 0 <= i < j < |ts| ==>
      && ts[i] != ts[j]
      && (|Operators(ts[i])| < |Operators(ts[j])| || (|Operators(ts[i])| == |Operators(ts[j])| && NotAfter(ts[i], ts[j])))
  }

  /** The registered trees with at most `maxOperations` operators, each once. */
  method Grammar(maxOperations: nat) returns (trees: seq<Tree>)
    ensures forall t :: t in trees <==> Registered(t) && |Operators(t)| <= maxOperations
    ensures Ranked(trees)
  {
    var levels := [[X]];
    trees := [X];
    LeafLevel();
    for count := 1 to maxOperations + 1
      invariant |levels| == count && AreLevels(levels)
      invariant forall t :: t in trees <==> Registered(t) && |Operators(t)| < count
      invariant Ranked(trees)
    {
      var level := NextLevel(levels, count);
      forall t | t in level
        ensures |Operators(t)| == count
      {}
      RankedNext(trees, level, count);
      levels, trees := levels + [level], trees + level;
    }
  }

  lemma LeafLevel()
    ensures IsLevel([X], 0) && Ascending([X])
  {
    forall t
      ensures t in [X] <==> Registered(t) && |Operators(t)| == 0
    {
      RightNonLeaf(t);
    }
  }

  lemma RankedNext(ts: seq<Tree>, level: seq<Tree>, count: nat)
    requires Ranked(ts) && Ascending(level)
    requires forall t :: t in ts ==> |Operators(t)| < count
    requires forall t :: t in level ==> |Operators(t)| == count
    ensures Ranked(ts + level)
  {
    var all := ts + level;
    forall i, j | 0 <= i < j < |all|
      ensures all[i] != all[j]
      ensures |Operators(all[i])| < |Operators(all[j])|
           || (|Operators(all[i])| == |Operators(all[j])| && NotAfter(all[i], all[j]))
    {
      if i < |ts| { assert all[i] in ts; } else { assert all[i] in level; }
      if j < |ts| { assert all[j] in ts; } else { assert all[j] in level; }
    }
  }
}
