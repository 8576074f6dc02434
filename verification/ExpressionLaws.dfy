/** What the operators of an expression mean, each by what undoes it. */
module ExpressionLaws {
  import opened Expressions
  import opened Policies

  /** The logarithm, the root and the power stand for what their inverses undo. */
  lemma OperatorsUndone(t: Tree, x: real, f: Operations, r: real,
                        unlog: real -> real, square: real -> real, unpower: real -> real)
    requires WellFormed(t) && 0.0 <= x && 0.0 <= r <= 1.0
    requires forall a: real :: 0.0 <= a ==> unlog(f.log1p(a)) == a && square(f.root(a)) == a && unpower(f.power(a)) == a
    ensures unlog(Eval(Unary(Log, t), x, f, r)) == Eval(t, x, f, r)
    ensures square(Eval(Unary(Sqrt, t), x, f, r)) == Eval(t, x, f, r)
    ensures unpower(Eval(Unary(Power, t), x, f, r)) == Eval(t, x, f, r)
  {
    var a := Eval(t, x, f, r);
    assert unlog(f.log1p(a)) == a && square(f.root(a)) == a && unpower(f.power(a)) == a;
  }

  ghost predicate Renders(f: Operations, log1p: real -> real, root: real -> real, power: real -> real) {
    f == Rendered(log1p, root, power)
  }

  predicate IsSaturated(v: real, a: real) {
    v < 1.0 && a == v / (1.0 - v)
  }

  predicate IsProduct(v: real, a: real, b: real) {
    if b == 0.0 then v == 0.0 else v / b == a
  }

  /** How far `v` has come from `b` towards `a`. */
  predicate IsShare(v: real, r: real, a: real, b: real) {
    v - b == r * (a - b) && (r == 1.0 ==> v == a) && (r == 0.0 ==> v == b)
  }

  /** Saturation stays below one, and v / (1 - v) gives back its argument. */
  lemma SaturationMeans(t: Tree, x: real, f: Operations, r: real,
                        log1p: real -> real, root: real -> real, power: real -> real)
    requires WellFormed(t) && 0.0 <= x && 0.0 <= r <= 1.0 && Renders(f, log1p, root, power)
    ensures IsSaturated(Eval(Unary(Sat, t), x, f, r), Eval(t, x, f, r))
  {
    SaturateInverse(Eval(t, x, f, r));
  }

  /** A product divided by a factor is the other one. */
  lemma ProductMeans(t: Tree, u: Tree, x: real, f: Operations, r: real,
                     log1p: real -> real, root: real -> real, power: real -> real)
    requires WellFormed(t) && WellFormed(u) && 0.0 <= x && 0.0 <= r <= 1.0 && Renders(f, log1p, root, power)
    ensures IsProduct(Eval(Binary(Mul, t, u), x, f, r), Eval(t, x, f, r), Eval(u, x, f, r))
  {
    ProductInverse(Eval(t, x, f, r), Eval(u, x, f, r));
  }

  /** A sum lies the share `r` of the way from its right term to its left one. */
  lemma SumMeans(t: Tree, u: Tree, x: real, f: Operations, r: real,
                 log1p: real -> real, root: real -> real, power: real -> real)
    requires WellFormed(t) && WellFormed(u) && 0.0 <= x && 0.0 <= r <= 1.0 && Renders(f, log1p, root, power)
    ensures IsShare(Eval(Binary(Add, t, u), x, f, r), r, Eval(t, x, f, r), Eval(u, x, f, r))
  {
    MixPlace(r, Eval(t, x, f, r), Eval(u, x, f, r));
  }

  lemma SaturateInverse(a: real)
    requires 0.0 <= a
    ensures IsSaturated(Saturate(a), a)
  {
    assert Saturate(a) == 1.0 - 1.0 / (1.0 + a);
  }

  lemma ProductInverse(a: real, b: real)
    ensures IsProduct(Product(a, b), a, b)
  {}

  lemma MixPlace(r: real, a: real, b: real)
    ensures IsShare(Mix(r, a, b), r, a, b)
  {}

  // ----- whole policies

  /** A mapping answers its gain times its tree, at the interval measured in its scale. */
  lemma MappingScales(tree: Tree, gain: real, scale: real, weight: real, x: real, interval: real, f: Operations)
    requires InBounds(Mapping(tree, gain, scale, weight)) && 0.0 <= x && 0.0 <= interval == scale * x
    ensures QuietTime(Mapping(tree, gain, scale, weight), interval, f) == Product(gain, Eval(tree, x, f, weight))
  {
    Unscaled(scale, x);
    assert Quotient(interval, scale) == x;
  }

  lemma Unscaled(scale: real, x: real)
    requires 0.0 < scale && 0.0 <= x
    ensures 0.0 <= scale * x && Quotient(scale * x, scale) == x
  {}

  /** A mapping of the bare interval is a linear policy whose gain is divided by the scale. */
  lemma BareMappingIsLinear(gain: real, scale: real, weight: real, interval: real, f: Operations)
    requires InBounds(Mapping(X, gain, scale, weight)) && InBounds(Linear(gain / scale)) && 0.0 <= interval
    ensures QuietTime(Mapping(X, gain, scale, weight), interval, f) == QuietTime(Linear(gain / scale), interval, f)
  {
    Regrouped(gain, scale, interval);
  }

  lemma Regrouped(gain: real, scale: real, interval: real)
    requires 0.0 < scale && 0.0 <= interval
    ensures Product(gain, Quotient(interval, scale)) == Product(gain / scale, interval)
  {
    var q := interval / scale;
    assert interval == q * scale;
    assert (gain / scale) * (q * scale) == ((gain / scale) * scale) * q;
  }

  /** The baseline adds three quarters of the logarithm of half the interval. */
  lemma BaselineAdds(half: real, f: Operations)
    requires 0.0 <= half
    ensures QuietTime(Baseline, 2.0 * half, f) - 2.0 * half == f.log1p(half) * 3.0 / 4.0
    ensures QuietTime(Zero, 2.0 * half, f) == 0.0
  {}

  // ----- the grammar

  /** The registered trees are the canonical ones with at most one sum and at most one power. */
  lemma RegisteredLimits(t: Tree)
    ensures Registered(t) <==>
            Canonical(t) && multiset(Operators(t))[Add] <= 1 && multiset(Operators(t))[Power] <= 1
  {}

  // ----- texts

  /** The texts of the operators are those of Python's nested tuples. */
  lemma UnaryTexts()
    ensures Repr(Unary(Log, X)) == "('log', 'x')" && Repr(Unary(Sqrt, X)) == "('sqrt', 'x')"
    ensures Repr(Unary(Sat, X)) == "('sat', 'x')" && Repr(Unary(Power, X)) == "('power', 'x')"
  {}

  lemma BinaryTexts()
    ensures Repr(Binary(Mul, X, X)) == "('mul', 'x', 'x')" && Repr(Binary(Add, X, X)) == "('add', 'x', 'x')"
  {}
}
