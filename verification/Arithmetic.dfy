/** Facts about products and division that the solver does not find by itself. */
module Arithmetic {
  function Pow2(n: nat): (p: nat)
    ensures p >= 1
  {
    if n == 0 then 1 else 2 * Pow2(n - 1)
  }

  lemma {:induction false} Pow2Monotone(a: nat, b: nat)
    requires a <= b
    ensures Pow2(a) <= Pow2(b)
  {
    if a < b {
      Pow2Monotone(a, b - 1);
    }
  }

  lemma Times(x: nat, c: nat, y: nat)
    ensures x <= c ==> x * y <= c * y
  {
  }

  /** Division with remainder is unique. */
  lemma DivisionUnique(a: int, d: nat, q: int, r: int)
    requires d >= 1 && a == q * d + r && 0 <= r < d
    ensures a / d == q && a % d == r
  {
    var q', r' := a / d, a % d;
    assert a == q' * d + r' && 0 <= r' < d;
    assert (q - q') * d == r' - r;
    assert q - q' >= 1 ==> (q - q') * d >= d;
    assert q' - q >= 1 ==> (q' - q) * d >= d;
  }

  lemma Divides(a: nat, d: nat)
    requires d >= 1
    ensures a / d * d + a % d == a
  {
  }

  lemma {:induction false} QuotientBound(a: nat, d: nat)
    requires d >= 1
    ensures 0 <= a / d <= a
  {
    if a < d {
      DivisionUnique(a, d, 0, a);
    } else {
      QuotientBound(a - d, d);
      var q, r := (a - d) / d, (a - d) % d;
      assert a - d == q * d + r && (q + 1) * d == q * d + d;
      DivisionUnique(a, d, q + 1, r);
    }
  }

  /** The operator / on unsigned numbers, as a function so that proofs need not look inside. */
  function Div(a: nat, d: nat): (q: nat)
    requires d >= 1
    ensures q <= a
  {
    QuotientBound(a, d);
    a / d
  }

  /** Equal residues differ by a multiple. */
  lemma SameModulo(a: nat, b: nat, d: nat) returns (k: int)
    requires d >= 1 && a % d == b % d
    ensures a - b == k * d
  {
    Divides(a, d);
    Divides(b, d);
    k := a / d - b / d;
  }

  lemma AddMultiple(x: nat, y: nat, k: int, d: nat)
    requires d >= 1 && y == x + k * d
    ensures y % d == x % d
  {
    Divides(x, d);
    DivisionUnique(y, d, x / d + k, x % d);
  }
}
