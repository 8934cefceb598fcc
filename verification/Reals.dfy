/** Facts about products and quotients of reals that the solver does not find in
    company. Factors and results are named, so that they match where they are used. */
module Reals {

  lemma Positive(a: real, b: real)
    requires a >= 0.0 && b >= 0.0
    ensures a * b >= 0.0
  {}

  lemma Product(a: real, b: real)
    requires a > 0.0 && b > 0.0
    ensures a * b > 0.0
  {}

  lemma Square(a: real, s: real)
    requires s == a * a && a > 0.0
    ensures s > 0.0
  {
    assert s / a == a;
  }

  lemma Scale(a: real, b: real, c: real)
    requires a <= b && c >= 0.0
    ensures a * c <= b * c
  {}

  lemma ScaleTo(a: real, b: real, c: real, s: real, t: real)
    requires a <= b && c >= 0.0 && s == a * c && t == b * c
    ensures s <= t
  {}

  lemma Fraction(k: real, x: real, g: real)
    requires 0.0 <= k <= 1.0 && x >= 0.0 && g == k * x
    ensures 0.0 <= g <= x
  {}

  function Ratio(n: real, d: real): (q: real)
    requires d > 0.0
    ensures q * d == n
    ensures n >= 0.0 ==> q >= 0.0
  {
    Quotient(n, d);
    n / d
  }

  lemma Quotient(n: real, d: real)
    requires d > 0.0
    ensures n / d * d == n
    ensures n >= 0.0 ==> n / d >= 0.0
  {}

  lemma Cancel(a: real, b: real, c: real)
    requires c > 0.0
    ensures a * c <= b * c ==> a <= b
    ensures a * c == b * c ==> a == b
  {}

  lemma CancelTo(a: real, b: real, c: real, s: real, t: real)
    requires c > 0.0 && s == a * c && t == b * c && s <= t
    ensures a <= b
  {}
}
