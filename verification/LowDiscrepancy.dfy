/** Van der Corput points: the digits of an index, mirrored behind the radix point. */
module LowDiscrepancy {

  import opened Multiples

  // ----- quotients

  /** Leading digit and rest. */
  datatype Split = Split(high: nat, low: nat)

  function Divide(i: nat, b: nat): (s: Split)
    requires 0 < b
    ensures s.low < b && i == Times(s.high, b) + s.low
  {
    if i < b then Split(0, i)
    else
      var s := Divide(i - b, b);
      Split(s.high + 1, s.low)
  }

  lemma DivideUnique(d: nat, r: nat, e: nat, s: nat, p: nat)
    requires r < p && s < p && Times(d, p) + r == Times(e, p) + s
    ensures d == e && r == s
  {
    if d < e {
      TimesMonotone(d, e, p);
    } else if e < d {
      TimesMonotone(e, d, p);
    }
  }

  lemma DivideIsDivMod(i: nat, b: nat)
    requires 0 < b
    ensures Divide(i, b) == Split(i / b, i % b)
  {
    var high, low := i / b, i % b;
    TimesIsProduct(high, b);
    DivideUnique(high, low, Divide(i, b).high, Divide(i, b).low, b);
  }

  lemma DigitBound(d: nat, r: nat, b: nat, p: nat)
    requires d < b && r < p
    ensures Times(d, p) + r < Times(b, p)
  {
    TimesMonotone(d, b, p);
  }

  lemma QuotientBound(i: nat, b: nat, p: nat)
    requires 0 < p && i < Times(b, p)
    ensures Divide(i, p).high < b
  {
    var high := Divide(i, p).high;
    if b <= high { TimesMonotone(b, high, p); }
  }

  // ----- digit strings

  function Power(b: nat, k: nat): (p: nat)
    requires 2 <= b
    ensures k < p
  {
    if k == 0 then 1
    else
      TimesMonotone(2, b, Power(b, k - 1));
      Times(b, Power(b, k - 1))
  }

  /** The last `k` digits of the index in reverse order. */
  function Reverse(i: nat, k: nat, b: nat): nat
    requires 2 <= b
    decreases k
  {
    if k == 0 then 0 else Times(Divide(i, b).low, Power(b, k - 1)) + Reverse(Divide(i, b).high, k - 1, b)
  }

  lemma {:induction false} ReverseBound(i: nat, k: nat, b: nat)
    requires 2 <= b
    ensures Reverse(i, k, b) < Power(b, k)
    decreases k
  {
    if k > 0 {
      ReverseBound(Divide(i, b).high, k - 1, b);
      DigitBound(Divide(i, b).low, Reverse(Divide(i, b).high, k - 1, b), b, Power(b, k - 1));
    }
  }

  lemma HighPart(i: nat, k: nat, b: nat)
    requires 2 <= b && 0 < k && i < Power(b, k)
    ensures Divide(i, b).high < Power(b, k - 1)
  {
    TimesCommutes(b, Power(b, k - 1));
    QuotientBound(i, Power(b, k - 1), b);
  }

  lemma {:induction false} ReverseInjective(i: nat, j: nat, k: nat, b: nat)
    requires 2 <= b && i < Power(b, k) && j < Power(b, k) && Reverse(i, k, b) == Reverse(j, k, b)
    ensures i == j
    decreases k
  {
    if k > 0 {
      var s, t := Divide(i, b), Divide(j, b);
      ReverseBound(s.high, k - 1, b);
      ReverseBound(t.high, k - 1, b);
      DivideUnique(s.low, Reverse(s.high, k - 1, b), t.low, Reverse(t.high, k - 1, b), Power(b, k - 1));
      HighPart(i, k, b);
      HighPart(j, k, b);
      ReverseInjective(s.high, t.high, k - 1, b);
    }
  }

  lemma {:induction false} PowerGrows(b: nat, m: nat, n: nat)
    requires 2 <= b && m <= n
    ensures Power(b, m) <= Power(b, n)
  {
    if m < n {
      PowerGrows(b, m, n - 1);
      TimesMonotone(1, b, Power(b, n - 1));
    }
  }

  /** The index whose `k` reversed digits are `c`. */
  function Index(c: nat, k: nat, b: nat): nat
    requires 2 <= b
  {
    if k == 0 then 0
    else
      var s := Divide(c, Power(b, k - 1));
      s.high + Times(Index(s.low, k - 1, b), b)
  }

  lemma {:induction false} ReverseOfIndex(c: nat, k: nat, b: nat)
    requires 2 <= b && c < Power(b, k)
    ensures Index(c, k, b) < Power(b, k) && Reverse(Index(c, k, b), k, b) == c
  {
    if k > 0 {
      var p := Power(b, k - 1);
      var s := Divide(c, p);
      var rest, i := Index(s.low, k - 1, b), Index(c, k, b);
      ReverseOfIndex(s.low, k - 1, b);
      QuotientBound(c, b, p);
      DivideUnique(rest, s.high, Divide(i, b).high, Divide(i, b).low, b);
      DigitBound(rest, s.high, p, b);
      TimesCommutes(b, p);
    }
  }

  // ----- one more digit

  /** The index without its last `k` digits. */
  function Shift(i: nat, k: nat, b: nat): nat
    requires 2 <= b
    decreases k
  {
    if k == 0 then i else Shift(Divide(i, b).high, k - 1, b)
  }

  lemma {:induction false} ShiftNext(i: nat, k: nat, b: nat)
    requires 2 <= b
    ensures Shift(i, k + 1, b) == Divide(Shift(i, k, b), b).high
    decreases k
  {
    if k > 0 { ShiftNext(Divide(i, b).high, k - 1, b); }
  }

  /** The next digit of the index becomes the last digit of the reversed string. */
  lemma {:induction false} ReverseNext(i: nat, k: nat, b: nat)
    requires 2 <= b
    ensures Reverse(i, k + 1, b) == Times(Reverse(i, k, b), b) + Divide(Shift(i, k, b), b).low
    decreases k
  {
    var s := Divide(i, b);
    if k == 0 {
      TimesIsProduct(s.low, Power(b, 0));
    } else {
      ReverseNext(s.high, k - 1, b);
      TimesDistributes(Times(s.low, Power(b, k - 1)), Reverse(s.high, k - 1, b), b);
      TimesAssociative(s.low, Power(b, k - 1), b);
    }
  }

  lemma {:induction false} ShiftVanishes(i: nat, k: nat, b: nat)
    requires 2 <= b
    ensures i < Power(b, k) <==> Shift(i, k, b) == 0
    decreases k
  {
    if k > 0 {
      var s := Divide(i, b);
      ShiftVanishes(s.high, k - 1, b);
      if i < Power(b, k) {
        HighPart(i, k, b);
      } else if s.high < Power(b, k - 1) {
        DigitBound(s.high, s.low, Power(b, k - 1), b);
        TimesCommutes(b, Power(b, k - 1));
      }
    }
  }

  // ----- the points

  function Fraction(r: nat, p: nat): real
    requires 0 < p
  {
    r as real / p as real
  }

  lemma FractionScales(r: nat, p: nat, b: nat)
    requires 0 < p && 0 < b
    ensures 0 < Times(b, p) && Fraction(Times(r, b), Times(b, p)) == Fraction(r, p)
  {
    RealProduct(r, b);
    RealProduct(b, p);
    Ratio(Times(r, b) as real, Times(b, p) as real, r as real, p as real, b as real);
  }

  lemma Ratio(top: real, bottom: real, r: real, p: real, b: real)
    requires p != 0.0 && b != 0.0 && bottom != 0.0 && top == Mul(r, b) && bottom == Mul(b, p)
    ensures top / bottom == r / p
  {
    Cancels(r, p, b);
  }

  lemma Cancels(r: real, p: real, b: real)
    requires p != 0.0 && b != 0.0 && b * p != 0.0
    ensures (r * b) / (b * p) == r / p
  {
    var q := r / p;
    assert q * p == r;
    assert q * (b * p) == r * b;
  }

  /** The digit-reversed fraction of the index. */
  function Point(i: nat, b: nat): real
    requires 2 <= b
  {
    Fraction(Reverse(i, i, b), Power(b, i))
  }

  /** Digits beyond the last one do not move the point. */
  lemma {:induction false} PointIsReverse(i: nat, k: nat, b: nat)
    requires 2 <= b && i < Power(b, k)
    ensures Point(i, b) == Fraction(Reverse(i, k, b), Power(b, k))
    decreases if i < k then k - i else i - k
  {
    if i < k {
      PowerGrows(b, i, k - 1);
      PointIsReverse(i, k - 1, b);
      Padded(i, k - 1, b);
    } else if k < i {
      PowerGrows(b, k, k + 1);
      PointIsReverse(i, k + 1, b);
      Padded(i, k, b);
    }
  }

  lemma Padded(i: nat, k: nat, b: nat)
    requires 2 <= b && i < Power(b, k)
    ensures Fraction(Reverse(i, k + 1, b), Power(b, k + 1)) == Fraction(Reverse(i, k, b), Power(b, k))
  {
    ReverseNext(i, k, b);
    ShiftVanishes(i, k, b);
    FractionScales(Reverse(i, k, b), Power(b, k), b);
  }

  lemma FractionStep(r: nat, p: nat, d: nat, b: nat, weight: real)
    requires 0 < p && 0 < b && weight == Fraction(1, p) / b as real
    ensures 0 < Times(b, p) && weight == Fraction(1, Times(b, p))
    ensures Fraction(r, p) + d as real * weight == Fraction(Times(r, b) + d, Times(b, p))
  {
    RealProduct(b, p);
    RealProduct(r, b);
    NextDigit(Times(r, b) as real, Times(b, p) as real, r as real, p as real, d as real, b as real, weight);
  }

  lemma NextDigit(top: real, bottom: real, r: real, p: real, d: real, b: real, weight: real)
    requires p != 0.0 && b != 0.0 && bottom != 0.0 && top == Mul(r, b) && bottom == Mul(b, p) && weight == 1.0 / p / b
    ensures weight == 1.0 / bottom && r / p + d * weight == (top + d) / bottom
  {
    Thinner(p, b);
    Ratio(top, bottom, r, p, b);
    SumOver(top, d, bottom);
  }

  lemma Thinner(p: real, b: real)
    requires p != 0.0 && b != 0.0 && b * p != 0.0
    ensures 1.0 / p / b == 1.0 / (b * p)
  {
    var q := 1.0 / p / b;
    assert q * b * p == 1.0;
    assert q * (b * p) == 1.0;
  }

  lemma SumOver(x: real, d: real, q: real)
    requires q != 0.0
    ensures x / q + d * (1.0 / q) == (x + d) / q
  {}

  /** The loop peels digits off the index while the weight shrinks. */
  method RadicalInverse(index: nat, b: nat) returns (result: real)
    requires 2 <= b
    ensures result == Point(index, b)
  {
    var i: nat := index;
    var base := b as real;
    var weight := 1.0 / base;
    result := 0.0;
    ghost var k: nat := 0;
    while i != 0
      invariant i == Shift(index, k, b)
      invariant weight == Fraction(1, Power(b, k)) / base
      invariant result == Fraction(Reverse(index, k, b), Power(b, k))
      decreases i
    {
      var digit: nat := i % b;
      DivideIsDivMod(i, b);
      Smaller(i, b);
      ShiftNext(index, k, b);
      ReverseNext(index, k, b);
      FractionStep(Reverse(index, k, b), Power(b, k), digit, b, weight);
      i := Quotient(i, b);
      result := result + digit as real * weight;
      weight := weight / base;
      k := k + 1;
    }
    ShiftVanishes(index, k, b);
    PointIsReverse(index, k, b);
  }

  function Quotient(i: nat, b: nat): (q: nat)
    requires 0 < b
    ensures q == Divide(i, b).high
  {
    DivideIsDivMod(i, b);
    i / b
  }

  lemma Smaller(i: nat, b: nat)
    requires 2 <= b && 0 < i
    ensures Divide(i, b).high < i
  {
    var h := Divide(i, b).high;
    TimesCommutes(h, b);
    TimesMonotone(2, b, h);
    assert Times(2, h) == h + Times(1, h) == h + h;
  }

  lemma FractionBelowOne(r: nat, p: nat)
    requires r < p
    ensures 0.0 <= Fraction(r, p) < 1.0
  {}

  lemma FractionEqual(r: nat, s: nat, p: nat)
    requires 0 < p && Fraction(r, p) == Fraction(s, p)
    ensures r == s
  {
    var x, q := Fraction(r, p), p as real;
    assert x * q == r as real && x * q == s as real;
  }

  predicate InCell(x: real, c: nat, cells: nat) {
    c as real <= x * cells as real < (c + 1) as real
  }

  lemma FractionInCell(r: nat, p: nat, c: nat)
    requires 0 < p
    ensures InCell(Fraction(r, p), c, p) <==> r == c
  {
    var x, q := Fraction(r, p), p as real;
    assert x * q == r as real;
  }

  /** Every point lies in the unit interval. */
  lemma PointInUnit(i: nat, b: nat)
    requires 2 <= b
    ensures 0.0 <= Point(i, b) < 1.0
  {
    ReverseBound(i, i, b);
    FractionBelowOne(Reverse(i, i, b), Power(b, i));
  }

  /** The last digit of the index leads the point, and the rest of it follows one place further. */
  lemma PointLeadsWithDigit(i: nat, b: nat)
    requires 2 <= b
    ensures Point(0, b) == 0.0
    ensures Point(i, b) == ((i % b) as real + Point(i / b, b)) / b as real
  {
    DivideIsDivMod(i, b);
    if i > 0 { Smaller(i, b); }
    DigitLeads(i, Divide(i, b).low, Divide(i, b).high, b);
  }

  lemma DigitLeads(i: nat, digit: nat, rest: nat, b: nat)
    requires 2 <= b && Divide(i, b) == Split(rest, digit) && rest <= i
    ensures Point(i, b) == (digit as real + Point(rest, b)) / b as real
  {
    var p, k := Power(b, i), i + 1;
    PointIsReverse(i, k, b);
    PointIsReverse(rest, i, b);
    RealProduct(digit, p);
    RealProduct(b, p);
    Leading(digit as real, p as real, Reverse(rest, i, b) as real, b as real,
            Reverse(i, k, b) as real, Power(b, k) as real);
  }

  lemma Leading(d: real, p: real, r: real, b: real, top: real, bottom: real)
    requires p != 0.0 && b != 0.0 && bottom != 0.0 && top == Mul(d, p) + r && bottom == Mul(b, p)
    ensures top / bottom == (d + r / p) / b
  {
    var q := r / p;
    assert r == q * p;
    assert top == (d + q) * p;
    Cancels(d + q, b, p);
  }

  /** Different indices give different points. */
  lemma PointInjective(i: nat, j: nat, b: nat)
    requires 2 <= b && Point(i, b) == Point(j, b)
    ensures i == j
  {
    var k := if i < j then j else i;
    PowerGrows(b, i, k);
    PowerGrows(b, j, k);
    PointIsReverse(i, k, b);
    PointIsReverse(j, k, b);
    FractionEqual(Reverse(i, k, b), Reverse(j, k, b), Power(b, k));
    ReverseInjective(i, j, k, b);
  }

  /** Point `i` of the first b^k lies in the cell its reversed digits name. */
  lemma CellOf(i: nat, c: nat, k: nat, b: nat)
    requires 2 <= b && i < Power(b, k)
    ensures InCell(Point(i, b), c, Power(b, k)) <==> Reverse(i, k, b) == c
  {
    PointIsReverse(i, k, b);
    FractionInCell(Reverse(i, k, b), Power(b, k), c);
  }

  /** The first b^k points fall one into each of the b^k equal cells of the unit interval. */
  lemma OnePointPerCell(c: nat, k: nat, b: nat)
    requires 2 <= b && c < Power(b, k)
    ensures Index(c, k, b) < Power(b, k) && InCell(Point(Index(c, k, b), b), c, Power(b, k))
    ensures forall i: nat :: i < Power(b, k) && InCell(Point(i, b), c, Power(b, k)) ==> i == Index(c, k, b)
  {
    var n := Index(c, k, b);
    ReverseOfIndex(c, k, b);
    CellOf(n, c, k, b);
    forall i: nat | i < Power(b, k) && InCell(Point(i, b), c, Power(b, k))
      ensures i == n
    {
      CellOf(i, c, k, b);
      ReverseInjective(i, n, k, b);
    }
  }
}
