/** What an expression tree means as a mapping of the observed interval, and why the grammar suffices. */
module Policies {
  import opened Expressions

  /** The operations an expression performs; `power` has its exponent fixed. */
  datatype AnyOperations = AnyOperations(
    log1p: real -> real, root: real -> real, saturate: real -> real, power: real -> real,
    product: (real, real) -> real, mix: (real, real, real) -> real)

  /** Zero at zero and nondecreasing from there on. */
  ghost predicate Rising(f: real -> real) {
    && f(0.0) == 0.0
    && forall a: real, b: real :: 0.0 <= a <= b ==> f(a) <= f(b)
  }

  ghost predicate RisingProduct(f: (real, real) -> real) {
    && f(0.0, 0.0) == 0.0
    && (forall a: real, b: real, c: real, d: real :: 0.0 <= a <= b && 0.0 <= c <= d ==> f(a, c) <= f(b, d))
    && forall a: real, b: real :: f(a, b) == f(b, a)
  }

  ghost predicate RisingMix(f: (real, real, real) -> real) {
    && (forall r: real :: f(r, 0.0, 0.0) == 0.0)
    && (forall r: real, a: real, b: real, c: real, d: real ::
          0.0 <= r <= 1.0 && 0.0 <= a <= b && 0.0 <= c <= d ==> f(r, a, c) <= f(r, b, d))
    && forall r: real, a: real, b: real :: f(1.0 - r, b, a) == f(r, a, b)
  }

  ghost predicate Sound(f: AnyOperations) {
    && Rising(f.log1p) && Rising(f.root) && Rising(f.saturate) && Rising(f.power)
    && RisingProduct(f.product) && RisingMix(f.mix)
  }

  type Operations = f: AnyOperations | Sound(f)
    ghost witness AnyOperations(_ => 0.0, _ => 0.0, _ => 0.0, _ => 0.0, (_, _) => 0.0, (_, _, _) => 0.0)

  function Saturate(a: real): real {
    if a < 0.0 then 0.0 else a / (1.0 + a)
  }

  function Product(a: real, b: real): real {
    a * b
  }

  function Mix(r: real, a: real, b: real): real {
    r * a + (1.0 - r) * b
  }

  /** The rendered arithmetic, over any three library functions. */
  function Rendered(log1p: real -> real, root: real -> real, power: real -> real): AnyOperations {
    AnyOperations(log1p, root, Saturate, power, Product, Mix)
  }

  lemma ProductRises(a: real, b: real, c: real, d: real)
    requires 0.0 <= a <= b && 0.0 <= c <= d
    ensures 0.0 <= a * c <= b * d
  {
    assert a * c <= b * c;
    assert b * c <= b * d;
  }

  lemma SaturationRises(a: real, b: real)
    requires 0.0 <= a <= b
    ensures Saturate(a) <= Saturate(b)
  {
    assert a / (1.0 + a) == 1.0 - 1.0 / (1.0 + a);
    assert b / (1.0 + b) == 1.0 - 1.0 / (1.0 + b);
  }

  lemma ProductIsRising()
    ensures RisingProduct(Product)
  {
    forall a: real, b: real, c: real, d: real | 0.0 <= a <= b && 0.0 <= c <= d
      ensures Product(a, c) <= Product(b, d)
    {
      ProductRises(a, b, c, d);
    }
  }

  lemma MixRises(r: real, a: real, b: real, c: real, d: real)
    requires 0.0 <= r <= 1.0 && 0.0 <= a <= b && 0.0 <= c <= d
    ensures Mix(r, a, c) <= Mix(r, b, d)
  {
    ProductRises(r, r, a, b);
    ProductRises(1.0 - r, 1.0 - r, c, d);
  }

  lemma MixIsRising()
    ensures RisingMix(Mix)
  {
    forall r: real, a: real, b: real, c: real, d: real | 0.0 <= r <= 1.0 && 0.0 <= a <= b && 0.0 <= c <= d
      ensures Mix(r, a, c) <= Mix(r, b, d)
    {
      MixRises(r, a, b, c, d);
    }
  }

  /** The rendered arithmetic is sound, given only that the library functions rise from zero. */
  lemma RenderedSound(log1p: real -> real, root: real -> real, power: real -> real)
    requires Rising(log1p) && Rising(root) && Rising(power)
    ensures Sound(Rendered(log1p, root, power))
  {
    ProductIsRising();
    MixIsRising();
    forall a: real, b: real | 0.0 <= a <= b
      ensures Saturate(a) <= Saturate(b)
    {
      SaturationRises(a, b);
    }
  }

  /** The value of the expression at `x`, with mixing weight `r`: nonnegative, and zero at zero. */
  ghost function Eval(t: Tree, x: real, f: Operations, r: real): (v: real)
    requires WellFormed(t) && 0.0 <= x && 0.0 <= r <= 1.0
    ensures 0.0 <= v
    ensures x == 0.0 ==> v == 0.0
  {
    match t
    case X => x
    case Unary(op, child) =>
      var a := Eval(child, x, f, r);
      (match op
       case Log => f.log1p(a)
       case Sqrt => f.root(a)
       case Sat => f.saturate(a)
       case _ => f.power(a))
    case Binary(op, left, right) =>
      var a, b := Eval(left, x, f, r), Eval(right, x, f, r);
      assert f.mix(r, 0.0, 0.0) == 0.0 <= f.mix(r, a, b);
      assert f.product(0.0, 0.0) <= f.product(a, b);
      if op == Add then f.mix(r, a, b) else f.product(a, b)
  }

  /** Longer intervals never shorten the quiet time. */
  lemma {:induction false} EvalMonotone(t: Tree, x: real, y: real, f: Operations, r: real)
    requires WellFormed(t) && 0.0 <= x <= y && 0.0 <= r <= 1.0
    ensures Eval(t, x, f, r) <= Eval(t, y, f, r)
  {
    match t
    case X =>
    case Unary(op, child) => EvalMonotone(child, x, y, f, r);
    case Binary(op, left, right) =>
      EvalMonotone(left, x, y, f, r);
      EvalMonotone(right, x, y, f, r);
  }

  // ----- whole policies

  datatype Policy =
    | Baseline
    | Zero
    | Linear(gain: real)
    | Mapping(tree: Tree, gain: real, scale: real, weight: real)

  /** Constants lie in the registered bounds. */
  predicate InBounds(p: Policy) {
    match p
    case Linear(gain) => 0.001 <= gain <= 100.0
    case Mapping(tree, gain, scale, weight) =>
      WellFormed(tree) && 0.001 <= gain <= 100.0 && 0.001 <= scale <= 100.0 && 0.0 <= weight <= 1.0
    case _ => true
  }

  function Quotient(a: real, p: real): (q: real)
    requires 0.0 <= a && 0.0 < p
    ensures 0.0 <= q && (a == 0.0 ==> q == 0.0)
  {
    a / p
  }

  lemma QuotientRises(a: real, b: real, p: real)
    requires 0.0 <= a <= b && 0.0 < p
    ensures Quotient(a, p) <= Quotient(b, p)
  {}

  lemma ProductFromZero(gain: real, a: real, b: real)
    requires 0.0 <= gain && 0.0 <= a <= b
    ensures 0.0 <= Product(gain, a) <= Product(gain, b)
    ensures a == 0.0 ==> Product(gain, a) == 0.0
  {
    ProductRises(gain, gain, a, b);
  }

  ghost function Scaled(t: Tree, gain: real, scale: real, weight: real, interval: real, f: Operations): real
    requires WellFormed(t) && 0.0 < scale && 0.0 <= weight <= 1.0 && 0.0 <= interval
  {
    Product(gain, Eval(t, Quotient(interval, scale), f, weight))
  }

  ghost function QuietTime(p: Policy, interval: real, f: Operations): real
    requires InBounds(p) && 0.0 <= interval
  {
    match p
    case Baseline => interval + 0.75 * f.log1p(interval / 2.0)
    case Zero => 0.0
    case Linear(gain) => Product(gain, interval)
    case Mapping(tree, gain, scale, weight) => Scaled(tree, gain, scale, weight, interval, f)
  }

  lemma ScaledRises(t: Tree, gain: real, scale: real, weight: real, a: real, b: real, f: Operations)
    requires WellFormed(t) && 0.0 < gain && 0.0 < scale && 0.0 <= weight <= 1.0 && 0.0 <= a <= b
    ensures 0.0 <= Scaled(t, gain, scale, weight, a, f) <= Scaled(t, gain, scale, weight, b, f)
    ensures a == 0.0 ==> Scaled(t, gain, scale, weight, a, f) == 0.0
  {
    QuotientRises(a, b, scale);
    var x, y := Quotient(a, scale), Quotient(b, scale);
    EvalMonotone(t, x, y, f, weight);
    ProductFromZero(gain, Eval(t, x, f, weight), Eval(t, y, f, weight));
  }

  /** Every policy with constants in bounds is nonnegative and monotone in the interval and answers zero
      to zero, whatever its tree; the trees of the grammar are all well formed. */
  lemma PolicyLaws(p: Policy, a: real, b: real, f: Operations)
    requires InBounds(p) && 0.0 <= a <= b
    ensures 0.0 <= QuietTime(p, a, f) <= QuietTime(p, b, f)
    ensures QuietTime(p, 0.0, f) == 0.0
  {
    match p
    case Baseline => BaselineLaws(a, b, f);
    case Zero =>
    case Linear(gain) => LinearLaws(gain, a, b, f);
    case Mapping(tree, gain, scale, weight) => MappingLaws(tree, gain, scale, weight, a, b, f);
  }

  lemma BaselineLaws(a: real, b: real, f: Operations)
    requires 0.0 <= a <= b
    ensures 0.0 <= QuietTime(Baseline, a, f) <= QuietTime(Baseline, b, f) && QuietTime(Baseline, 0.0, f) == 0.0
  {
    assert f.log1p(0.0) <= f.log1p(a / 2.0) <= f.log1p(b / 2.0);
  }

  lemma LinearLaws(gain: real, a: real, b: real, f: Operations)
    requires InBounds(Linear(gain)) && 0.0 <= a <= b
    ensures 0.0 <= QuietTime(Linear(gain), a, f) <= QuietTime(Linear(gain), b, f) && QuietTime(Linear(gain), 0.0, f) == 0.0
  {
    ProductRises(gain, gain, a, b);
  }

  lemma MappingLaws(tree: Tree, gain: real, scale: real, weight: real, a: real, b: real, f: Operations)
    requires InBounds(Mapping(tree, gain, scale, weight)) && 0.0 <= a <= b
    ensures var p := Mapping(tree, gain, scale, weight);
      0.0 <= QuietTime(p, a, f) <= QuietTime(p, b, f) && QuietTime(p, 0.0, f) == 0.0
  {
    ScaledRises(tree, gain, scale, weight, a, b, f);
    ScaledRises(tree, gain, scale, weight, 0.0, 0.0, f);
  }

  // ----- canonical trees lose no policy

  /** Put the arguments of every binary operator in order. */
  function Normalize(t: Tree): Tree {
    match t
    case X => X
    case Unary(op, child) => Unary(op, Normalize(child))
    case Binary(op, left, right) =>
      var a, b := Normalize(left), Normalize(right);
      if NotAfter(a, b) then Binary(op, a, b) else Binary(op, b, a)
  }

  /** No operator is applied to the bare interval twice, and no sum mixes a tree with itself. */
  predicate Worthwhile(t: Tree) {
    match t
    case X => true
    case Unary(op, child) => Worthwhile(child)
    case Binary(op, left, right) =>
      && Worthwhile(left) && Worthwhile(right)
      && !(left == X && right == X) && (op == Add ==> Normalize(left) != Normalize(right))
  }

  lemma BinaryOperators(op: Operator, a: Tree, b: Tree)
    ensures multiset(Operators(Binary(op, a, b))) == multiset{op} + multiset(Operators(a)) + multiset(Operators(b))
  {
    assert Operators(Binary(op, a, b)) == [op] + (Operators(a) + Operators(b));
  }

  lemma {:induction false} NormalizeOperators(t: Tree)
    ensures multiset(Operators(Normalize(t))) == multiset(Operators(t))
  {
    match t
    case X =>
    case Unary(op, child) => NormalizeOperators(child);
    case Binary(op, left, right) =>
      NormalizeOperators(left);
      NormalizeOperators(right);
      BinaryOperators(op, left, right);
      BinaryOperators(op, Normalize(left), Normalize(right));
      BinaryOperators(op, Normalize(right), Normalize(left));
  }

  lemma {:induction false} NormalizeKeeps(t: Tree)
    ensures multiset(Operators(Normalize(t))) == multiset(Operators(t))
    ensures WellFormed(t) ==> WellFormed(Normalize(t))
    ensures Normalize(t) == X <==> t == X
  {
    NormalizeOperators(t);
    match t
    case X =>
    case Unary(op, child) => NormalizeKeeps(child);
    case Binary(op, left, right) => NormalizeKeeps(left); NormalizeKeeps(right);
  }

  /** One of two trees may come first, and the bare interval always may. */
  lemma LeafFirst(a: Tree, b: Tree)
    ensures NotAfter(a, b) || NotAfter(b, a)
    ensures NotAfter(a, b) && b == X ==> a == X
    ensures NotAfter(b, a) && a == X ==> b == X
  {
    TextTotal(Repr(a), Repr(b));
    if NotAfter(a, b) && b == X { RightLeafMeansBoth(a, b); }
    if NotAfter(b, a) && a == X { RightLeafMeansBoth(b, a); }
  }

  /** Ordering the arguments gives a canonical tree exactly for the worthwhile trees. */
  lemma {:induction false} NormalizeCanonical(t: Tree)
    requires WellFormed(t)
    ensures Canonical(Normalize(t)) <==> Worthwhile(t)
  {
    match t
    case X =>
    case Unary(op, child) => NormalizeCanonical(child);
    case Binary(op, left, right) =>
      NormalizeCanonical(left);
      NormalizeCanonical(right);
      var a, b := Normalize(left), Normalize(right);
      NormalizeKeeps(left);
      NormalizeKeeps(right);
      LeafFirst(a, b);
  }

  /** Ordering has put the arguments of the sum the other way round. */
  predicate Swapped(t: Tree) {
    match t
    case X => false
    case Unary(op, child) => Swapped(child)
    case Binary(op, left, right) =>
      (op == Add && !NotAfter(Normalize(left), Normalize(right))) || Swapped(left) || Swapped(right)
  }

  lemma {:induction false} WithoutSum(t: Tree, x: real, f: Operations, r: real, s: real)
    requires WellFormed(t) && 0.0 <= x && 0.0 <= r <= 1.0 && 0.0 <= s <= 1.0
    requires Occurrences(Add, t) == 0
    ensures Eval(t, x, f, r) == Eval(t, x, f, s)
  {
    match t
    case X =>
    case Unary(op, child) => WithoutSum(child, x, f, r, s);
    case Binary(op, left, right) =>
      OccurrencesSplit(Add, t);
      WithoutSum(left, x, f, r, s);
      WithoutSum(right, x, f, r, s);
  }

  function Weight(t: Tree, r: real): real {
    if Swapped(t) then 1.0 - r else r
  }

  /** The ordered tree means the same, with the mixing weight turned round when the sum was. */
  lemma {:induction false} NormalizeMeaning(t: Tree, x: real, f: Operations, r: real)
    requires WellFormed(t) && Occurrences(Add, t) <= 1 && 0.0 <= x && 0.0 <= r <= 1.0
    ensures WellFormed(Normalize(t)) && Eval(Normalize(t), x, f, Weight(t, r)) == Eval(t, x, f, r)
  {
    NormalizeKeeps(t);
    match t
    case X =>
    case Unary(op, child) => NormalizeMeaning(child, x, f, r);
    case Binary(op, left, right) =>
      OccurrencesSplit(Add, t);
      NormalizeMeaning(left, x, f, r);
      NormalizeMeaning(right, x, f, r);
      NormalizeBinary(t, x, f, r);
  }

  lemma NormalizeBinary(t: Tree, x: real, f: Operations, r: real)
    requires t.Binary? && WellFormed(t) && Occurrences(Add, t) <= 1 && 0.0 <= x && 0.0 <= r <= 1.0
    requires WellFormed(Normalize(t)) && WellFormed(Normalize(t.left)) && WellFormed(Normalize(t.right))
    requires Eval(Normalize(t.left), x, f, Weight(t.left, r)) == Eval(t.left, x, f, r)
    requires Eval(Normalize(t.right), x, f, Weight(t.right, r)) == Eval(t.right, x, f, r)
    ensures Eval(Normalize(t), x, f, Weight(t, r)) == Eval(t, x, f, r)
  {
    SwappedSplit(t);
    ArgumentMeaning(t.left, x, f, r, Weight(t, r));
    ArgumentMeaning(t.right, x, f, r, Weight(t, r));
    Reassembled(t, x, f, r);
  }

  lemma {:induction false} NoSumNotSwapped(t: Tree)
    requires Occurrences(Add, t) == 0
    ensures !Swapped(t)
  {
    match t
    case X =>
    case Unary(op, child) => NoSumNotSwapped(child);
    case Binary(op, left, right) =>
      OccurrencesSplit(Add, t);
      NoSumNotSwapped(left);
      NoSumNotSwapped(right);
  }

  /** The one sum decides whether the weight turns round. */
  lemma SwappedSplit(t: Tree)
    requires t.Binary? && Occurrences(Add, t) <= 1
    ensures t.op == Add ==> (Swapped(t) <==> !NotAfter(Normalize(t.left), Normalize(t.right)))
    ensures Occurrences(Add, t.left) == 0 || Occurrences(Add, t.right) == 0
    ensures t.op == Add ==> Occurrences(Add, t.left) == Occurrences(Add, t.right) == 0
    ensures t.op != Add && Occurrences(Add, t.left) == 0 ==> Swapped(t) == Swapped(t.right)
    ensures t.op != Add && Occurrences(Add, t.right) == 0 ==> Swapped(t) == Swapped(t.left)
  {
    OccurrencesSplit(Add, t);
    if Occurrences(Add, t.left) == 0 { NoSumNotSwapped(t.left); }
    if Occurrences(Add, t.right) == 0 { NoSumNotSwapped(t.right); }
  }

  /** An argument without a sum has its meaning at any weight. */
  lemma ArgumentMeaning(t: Tree, x: real, f: Operations, r: real, w: real)
    requires WellFormed(t) && 0.0 <= x && 0.0 <= r <= 1.0 && 0.0 <= w <= 1.0
    requires WellFormed(Normalize(t)) && Eval(Normalize(t), x, f, Weight(t, r)) == Eval(t, x, f, r)
    ensures Occurrences(Add, t) == 0 ==> Eval(Normalize(t), x, f, w) == Eval(t, x, f, r)
  {
    NormalizeKeeps(t);
    if Occurrences(Add, t) == 0 {
      WithoutSum(Normalize(t), x, f, Weight(t, r), w);
    }
  }

  lemma Reassembled(t: Tree, x: real, f: Operations, r: real)
    requires t.Binary? && WellFormed(t) && 0.0 <= x && 0.0 <= r <= 1.0
    requires WellFormed(Normalize(t))
    requires WellFormed(Normalize(t.left)) && Eval(Normalize(t.left), x, f, Weight(t, r)) == Eval(t.left, x, f, r)
    requires WellFormed(Normalize(t.right)) && Eval(Normalize(t.right), x, f, Weight(t, r)) == Eval(t.right, x, f, r)
    requires t.op == Add ==> (Swapped(t) <==> !NotAfter(Normalize(t.left), Normalize(t.right)))
    ensures Eval(Normalize(t), x, f, Weight(t, r)) == Eval(t, x, f, r)
  {
    var a, b := Eval(t.left, x, f, r), Eval(t.right, x, f, r);
    assert f.mix(1.0 - r, b, a) == f.mix(r, a, b);
    assert f.product(a, b) == f.product(b, a);
  }

  /** Every worthwhile tree within the limits has a registered tree of the same size and meaning. */
  lemma GrammarSuffices(t: Tree, f: Operations, r: real)
    requires WellFormed(t) && Worthwhile(t) && AtMostOnce(t) && 0.0 <= r <= 1.0
    ensures Registered(Normalize(t)) && |Operators(Normalize(t))| == |Operators(t)|
    ensures WellFormed(Normalize(t)) && 0.0 <= Weight(t, r) <= 1.0
    ensures forall x: real :: 0.0 <= x ==> Eval(Normalize(t), x, f, Weight(t, r)) == Eval(t, x, f, r)
  {
    NormalizeKeeps(t);
    NormalizeCanonical(t);
    assert |Operators(Normalize(t))| == |multiset(Operators(Normalize(t)))|;
    forall x: real | 0.0 <= x
      ensures Eval(Normalize(t), x, f, Weight(t, r)) == Eval(t, x, f, r)
    {
      NormalizeMeaning(t, x, f, r);
    }
  }

  /** Two trees that differ only in the order of arguments. */
  predicate Rearranged(a: Tree, b: Tree) {
    match a
    case X => b == X
    case Unary(op, child) => b.Unary? && b.op == op && Rearranged(child, b.child)
    case Binary(op, left, right) =>
      && b.Binary? && b.op == op
      && ((Rearranged(left, b.left) && Rearranged(right, b.right)) || (Rearranged(left, b.right) && Rearranged(right, b.left)))
  }

  /** No two registered trees are rearrangements of each other. */
  lemma {:induction false} RegisteredOnce(a: Tree, b: Tree)
    requires Canonical(a) && Canonical(b) && Rearranged(a, b)
    ensures a == b
  {
    match a
    case X =>
    case Unary(op, child) => RegisteredOnce(child, b.child);
    case Binary(op, left, right) =>
      if Rearranged(left, b.left) && Rearranged(right, b.right) {
        RegisteredOnce(left, b.left);
        RegisteredOnce(right, b.right);
      } else {
        RegisteredOnce(left, b.right);
        RegisteredOnce(right, b.left);
        TextAntisymmetric(Repr(left), Repr(right));
        CanonicalWellFormed(left);
        CanonicalWellFormed(right);
        ReprInjective(left, right);
      }
  }
}
