/** Facts about products and finite sets, where the solver needs the step spelled out. */
module Basics {

  lemma Monotone(n: int, a: int, b: int)
    requires n >= 0 && a <= b
    ensures n * a <= n * b
  {
    assert n * (b - a) >= 0;
  }

  lemma LessByFactor(n: int, a: int, b: int)
    requires n > 0 && n * a < n * b
    ensures a < b
  {
    assert n * (b - a) > 0;
  }

  lemma Distribute(n: int, a: int, b: int)
    ensures n * (a + b) == n * a + n * b
  {
  }

  /** Quotient and remainder are determined by what they add up to. */
  lemma SameQuotient(n: int, q: int, m: int, x: int, r: int)
    requires n > 0 && 0 <= m < n && 0 <= r < n && n * q + m == n * x + r
    ensures q == x
  {
    Distribute(n, q, 1);
    Distribute(n, x, 1);
    LessByFactor(n, q, x + 1);
    LessByFactor(n, x, q + 1);
  }

  lemma Divided(v: int, n: int)
    requires n > 0
    ensures v == n * (v / n) + v % n && 0 <= v % n < n
  {
  }

  /** Dividing twice is dividing by the product. */
  lemma DividedTwice(v: nat, a: nat, b: nat, ab: nat)
    requires a > 0 && b > 0 && ab == a * b
    ensures ab > 0 && v / a / b == v / ab
  {
    assert a * b > 0;
    var q, x := v / a, v / a / b;
    Divided(v, a);
    Divided(q, b);
    Divided(v, ab);
    Recombined(v, a, b, ab, q, v % a, x, q % b);
    SameQuotient(ab, v / ab, v % ab, x, a * (q % b) + v % a);
  }

  lemma Recombined(v: int, a: int, b: int, ab: int, q: int, r: int, x: int, y: int)
    requires a > 0 && ab == a * b && v == a * q + r && q == b * x + y && 0 <= r < a && 0 <= y < b
    ensures v == ab * x + (a * y + r) && 0 <= a * y + r < ab
  {
    Distribute(a, b * x, y);
    assert a * (b * x) == ab * x;
    Monotone(a, y + 1, b);
    Distribute(a, y, 1);
    Monotone(a, 0, y);
  }

  lemma {:induction false} SubsetSize<T>(a: set<T>, b: set<T>)
    requires a <= b
    ensures |a| <= |b|
  {
    if a != {} {
      var x :| x in a;
      SubsetSize(a - {x}, b - {x});
    }
  }
}
