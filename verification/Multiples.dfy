/** Products as repeated addition, so that counting lemmas stay linear. */
module Multiples {

  function Times(a: nat, p: nat): nat {
    if a == 0 then 0 else p + Times(a - 1, p)
  }

  lemma {:induction false} TimesIsProduct(a: nat, p: nat)
    ensures Times(a, p) == a * p
  {
    if a > 0 {
      TimesIsProduct(a - 1, p);
      assert a * p == p + (a - 1) * p;
    }
  }

  lemma {:induction false} TimesMonotone(a: nat, c: nat, p: nat)
    requires a <= c
    ensures Times(a, p) <= Times(c, p)
    ensures a < c ==> Times(a, p) + p <= Times(c, p)
  {
    if a < c { TimesMonotone(a, c - 1, p); }
  }

  lemma TimesCommutes(a: nat, p: nat)
    ensures Times(a, p) == Times(p, a)
  {
    TimesIsProduct(a, p);
    TimesIsProduct(p, a);
    assert a * p == p * a;
  }

  lemma TimesDistributes(x: nat, y: nat, b: nat)
    ensures Times(x + y, b) == Times(x, b) + Times(y, b)
  {
    TimesIsProduct(x + y, b);
    TimesIsProduct(x, b);
    TimesIsProduct(y, b);
    assert (x + y) * b == x * b + y * b;
  }

  lemma {:induction false} TimesAssociative(x: nat, y: nat, b: nat)
    ensures Times(Times(x, y), b) == Times(x, Times(b, y))
  {
    if x > 0 {
      TimesAssociative(x - 1, y, b);
      TimesDistributes(y, Times(x - 1, y), b);
      TimesCommutes(y, b);
    }
  }

  lemma RealProduct(a: nat, b: nat)
    ensures Times(a, b) as real == Mul(a as real, b as real)
    ensures 0 < a && 0 < b ==> 0 < Times(a, b)
  {
    TimesIsProduct(a, b);
    if 0 < a { TimesMonotone(1, a, b); }
    assert (a * b) as real == a as real * b as real;
  }

  /** Real products by name, so that equal factors give equal products without nonlinear reasoning. */
  function Mul(x: real, y: real): real {
    x * y
  }

  lemma MulLaws(x: real, y: real, z: real)
    ensures Mul(x, y) == Mul(y, x) && Mul(Mul(x, y), z) == Mul(x, Mul(y, z))
    ensures Mul(x + y, z) == Mul(x, z) + Mul(y, z)
  {}
}
