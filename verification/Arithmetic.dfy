/** Facts about products and floor division that the solver does not find alone. */
module Arithmetic {

  /** Floor division is the right adjoint of multiplication. */
  lemma FloorDivision(n: nat, d: nat, q: nat)
    requires d > 0
    ensures q <= n / d <==> q * d <= n
  {
    var r := n / d;
    assert n == r * d + n % d;
    if q <= r {
      MulLe(q, r, d);
    } else {
      MulLe(r + 1, q, d);
      assert (r + 1) * d == r * d + d;
    }
  }

  lemma MulLe(a: int, b: int, c: int)
    requires a <= b && c >= 0
    ensures a * c <= b * c
  {}

  lemma MulLt(a: int, b: int, c: int)
    requires a < b && c > 0
    ensures a * c < b * c
  {}

  lemma MulLeLeft(c: int, a: int, b: int)
    requires a <= b && c >= 0
    ensures c * a <= c * b
  {}

  lemma MulLtLeft(c: int, a: int, b: int)
    requires a < b && c > 0
    ensures c * a < c * b
  {}

  /** The same with named products, so that they match where they are used. */
  lemma MulLeTo(a: int, b: int, c: int, s: int, t: int)
    requires a <= b && c >= 0 && s == a * c && t == b * c
    ensures s <= t
  {}

  lemma MulLtTo(a: int, b: int, c: int, s: int, t: int)
    requires a < b && c > 0 && s == a * c && t == b * c
    ensures s < t
  {}

  /** Cancel a positive factor. */
  lemma CancelLe(a: int, b: int, c: int)
    requires c > 0 && a * c <= b * c
    ensures a <= b
  {}

  function Min(a: nat, b: nat): (r: nat)
    ensures r <= a && r <= b && (r == a || r == b)
  {
    if a <= b then a else b
  }

  /** Unsigned subtraction that stops at zero, as Rust's `saturating_sub`. */
  function MonusNat(a: nat, b: nat): (r: nat)
    ensures a <= b + r && (r > 0 ==> a == b + r)
  {
    if a >= b then a - b else 0
  }

  function Pow(base: nat, n: nat): (r: nat)
    ensures base > 0 ==> r > 0
  {
    if n == 0 then 1 else base * Pow(base, n - 1)
  }

  lemma {:induction false} PowAdd(base: nat, m: nat, n: nat)
    ensures Pow(base, m + n) == Pow(base, m) * Pow(base, n)
  {
    if m == 0 {
      assert Pow(base, 0) == 1;
    } else {
      PowAdd(base, m - 1, n);
      assert Pow(base, m + n) == base * Pow(base, m + n - 1);
      Associate(base, Pow(base, m - 1), Pow(base, n));
    }
  }

  lemma Associate(a: int, b: int, c: int)
    ensures a * (b * c) == a * b * c
  {}
}
