/** Products and quotients of variables, for which the solver has no rules of its own. */
module Arithmetic {
  lemma MulMono(a: nat, b: nat, c: nat)
    requires a <= b
    ensures a * c <= b * c
  {
  }

  lemma DivUnique(x: nat, q: nat, d: nat)
    requires d > 0 && q * d <= x < (q + 1) * d
    ensures x / d == q && x % d == x - q * d
  {
    var p := x / d;
    assert x == p * d + x % d;
    if p < q {
      MulMono(p + 1, q, d);
      assert false;
    } else if q < p {
      MulMono(q + 1, p, d);
      assert false;
    }
  }

  lemma DivBounds(x: nat, d: nat)
    requires d > 0
    ensures x / d * d <= x < (x / d + 1) * d && x % d == x - x / d * d
  {
    assert x == x / d * d + x % d;
  }

  lemma StepUp(p: nat, q: nat, u: nat)
    requires p < q
    ensures p * u + u <= q * u
  {
    assert (p + 1) * u == p * u + u;
    MulMono(p + 1, q, u);
  }

  // ----- products and quotients by name, which keeps them out of the solver's way -----

  function Times(a: nat, b: nat): nat {
    a * b
  }

  function Quotient(x: nat, d: nat): nat
    requires d > 0
  {
    x / d
  }

  lemma TimesAdd(a: nat, b: nat, n: nat)
    ensures Times(a + b, n) == Times(a, n) + Times(b, n)
  {
  }

  lemma TimesRegroup(a: nat, b: nat, c: nat)
    ensures Times(Times(a, b), c) == Times(a, Times(c, b))
  {
  }

  lemma TimesBelow(a: nat, b: nat, n: nat)
    requires a < b
    ensures Times(a, n) + n <= Times(n, b)
  {
    StepUp(a, b, n);
  }

  lemma TimesMono(a: nat, b: nat, n: nat)
    requires a <= b
    ensures Times(a, n) <= Times(b, n)
  {
    MulMono(a, b, n);
  }

  lemma QuotientBounds(x: nat, d: nat) returns (r: nat)
    requires d > 0
    ensures r < d && x == Times(Quotient(x, d), d) + r
  {
    r := x % d;
    DivBounds(x, d);
  }

  /** Numbers below a multiple of `d` are in the multiples of `d` below it. */
  lemma QuotientBelow(x: nat, m: nat, d: nat)
    requires d > 0 && x < Times(m, d)
    ensures Times(Quotient(x, d), d) + d <= Times(m, d)
  {
    hide Times, Quotient;
    var r := QuotientBounds(x, d);
    var q := Quotient(x, d);
    if m <= q {
      TimesMono(m, q, d);
    } else {
      TimesNext(q, d);
      TimesMono(q + 1, m, d);
    }
  }

  lemma TimesNext(q: nat, d: nat)
    ensures Times(q + 1, d) == Times(q, d) + d
  {
  }

  lemma QuotientUnique(x: nat, q: nat, d: nat, r: nat)
    requires r < d && x == Times(q, d) + r
    ensures Quotient(x, d) == q
  {
    assert (q + 1) * d == q * d + d;
    DivUnique(x, q, d);
  }

  /** A multiple of the divisor adds to the quotient. */
  lemma MultipleAdded(x: nat, m: nat, d: nat)
    requires d > 0
    ensures Quotient(x + Times(m, d), d) == Quotient(x, d) + m
  {
    hide Times, Quotient;
    var q := Quotient(x, d);
    var r := QuotientBounds(x, d);
    TimesAdd(q, m, d);
    QuotientUnique(x + Times(m, d), q + m, d, r);
  }

  /** Dividing twice is dividing by the product. */
  lemma DivTwice(high: nat, low: nat, n: nat, d: nat)
    requires low < n && d > 0
    ensures Times(n, d) > 0 && Quotient(Times(high, n) + low, Times(n, d)) == Quotient(high, d)
  {
    hide Times, Quotient;
    var q := Quotient(high, d);
    var r := QuotientBounds(high, d);
    TimesAdd(Times(q, d), r, n);
    TimesRegroup(q, d, n);
    TimesBelow(r, d, n);
    QuotientUnique(Times(high, n) + low, q, Times(n, d), Times(r, n) + low);
  }

  // ----- powers of two -----

  predicate IsPow2(x: nat) {
    x == 1 || (x > 1 && x % 2 == 0 && IsPow2(x / 2))
  }

  lemma Pow2Positive(x: nat)
    ensures IsPow2(x) ==> x > 0
  {
  }

  lemma {:induction false} Pow2Divides(m: nat, n: nat)
    requires IsPow2(m) && IsPow2(n) && m <= n
    ensures n % m == 0
  {
    if m > 1 {
      Pow2Divides(m / 2, n / 2);
      var q := n / 2 / (m / 2);
      assert n / 2 == q * (m / 2);
      assert n == q * m;
      DivUnique(n, q, m);
    }
  }

  lemma {:induction false} Pow2Product(m: nat, n: nat)
    requires IsPow2(m) && IsPow2(n)
    ensures IsPow2(m * n)
  {
    if m > 1 {
      Pow2Product(m / 2, n);
      assert m * n == 2 * (m / 2 * n);
    }
  }

  lemma Pow2At16M()
    ensures IsPow2(0x100_0000)
  {
    assert IsPow2(0x4);
    Pow2Product(0x4, 0x4);
    Pow2Product(0x10, 0x10);
    Pow2Product(0x100, 0x100);
    Pow2Product(0x1_0000, 0x100);
  }

  function Power(i: nat): (p: nat)
    ensures p > 0
  {
    if i == 0 then 1 else 2 * Power(i - 1)
  }

  lemma PowerIsPow2(i: nat)
    ensures IsPow2(Power(i))
  {
    if i > 0 {
      assert Power(i) / 2 == Power(i - 1);
    }
  }

  lemma {:induction false} Pow2IsPower(x: nat, n: nat) returns (i: nat)
    requires IsPow2(x) && x < Power(n)
    ensures i < n && x == Power(i)
  {
    if x == 1 {
      i := 0;
    } else {
      i := Pow2IsPower(x / 2, n - 1);
      i := i + 1;
    }
  }

  lemma {:induction false} PowersMultiply(i: nat, j: nat)
    ensures Times(Power(i), Power(j)) == Power(i + j)
  {
    if i > 0 {
      PowersMultiply(i - 1, j);
      hide Times;
      TimesRegroup(2, Power(i - 1), Power(j));
      DoubleTimes(Power(i - 1), Power(j));
    }
  }

  lemma DoubleTimes(a: nat, b: nat)
    ensures Times(2 * a, b) == 2 * Times(a, b)
  {
  }

  lemma PowerNext(i: nat)
    ensures Power(i + 1) == 2 * Power(i)
  {
  }

  lemma TimesTwice(a: nat, b: nat)
    ensures Times(a, 2 * b) == Times(2 * a, b)
  {
  }

  /** A multiple of a power is an even multiple of a lower one. */
  lemma EvenMultiple(high: nat, n: nat, i: nat) returns (m: nat)
    requires i < n
    ensures Times(high, Power(n)) == Times(2 * m, Power(i))
  {
    hide Times, Power;
    var half := Power(n - i - 1);
    m := Times(high, half);
    PowersMultiply(i + 1, n - i - 1);
    TimesRegroup(high, half, Power(i + 1));
    PowerNext(i);
    TimesTwice(m, Power(i));
  }

  /** The lower bits of a number in two parts. */
  lemma LowerBit(high: nat, low: nat, n: nat, i: nat)
    requires i < n
    ensures Quotient(Times(high, Power(n)) + low, Power(i)) % 2 == Quotient(low, Power(i)) % 2
  {
    hide Quotient, Times, Power;
    var m := EvenMultiple(high, n, i);
    MultipleAdded(low, 2 * m, Power(i));
    EvenAdded(Quotient(low, Power(i)), m);
  }

  lemma EvenAdded(x: nat, m: nat)
    ensures (x + 2 * m) % 2 == x % 2
  {
  }

  /** The upper bits of a number in two parts. */
  lemma UpperBit(high: nat, low: nat, n: nat, i: nat)
    requires low < Power(n) && n <= i
    ensures Quotient(Times(high, Power(n)) + low, Power(i)) == Quotient(high, Power(i - n))
  {
    hide Quotient, Times;
    DivTwice(high, low, Power(n), Power(i - n));
    PowersMultiply(n, i - n);
  }
}
