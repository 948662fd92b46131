/** Residues modulo a number, prime numbers, Fermat's little theorem and the square roots of 1. */
module Primes {
  import opened Arithmetic
  // ---- residues -----------------------------------------------------------------------------------

  /** The operator %, as a function so that proofs need not look inside. */
  function Mod(a: int, n: nat): (r: nat)
    requires 0 < n
    ensures r < n
  {
    a % n
  }

  /** a is k * n plus its residue. */
  lemma Quotient(a: int, n: nat) returns (k: int)
    requires 0 < n
    ensures a == k * n + Mod(a, n)
  {
    k := a / n;
  }

  /** Division with remainder is unique. */
  lemma Residue(a: int, n: nat, q: int, r: int)
    requires 0 < n && a == q * n + r && 0 <= r < n
    ensures Mod(a, n) == r
  {
    DivisionUnique(a, n, q, r);
  }

  lemma SmallResidue(a: nat, n: nat)
    requires a < n
    ensures Mod(a, n) == a
  {
    Residue(a, n, 0, a);
  }

  lemma Shift(x: int, k: int, n: nat)
    requires 0 < n
    ensures Mod(x + k * n, n) == Mod(x, n)
  {
    hide Mod;
    var q := Quotient(x, n);
    assert x + k * n == (q + k) * n + Mod(x, n);
    Residue(x + k * n, n, q + k, Mod(x, n));
  }

  lemma MulResidue(a: int, b: int, n: nat)
    requires 0 < n
    ensures Mod(Mod(a, n) * b, n) == Mod(a * b, n)
  {
    hide Mod;
    var q := Quotient(a, n);
    var r := Mod(a, n);
    assert a * b == r * b + (q * b) * n;
    Shift(r * b, q * b, n);
  }

  lemma MulBoth(a: int, b: int, n: nat)
    requires 0 < n
    ensures Mod(Mod(a, n) * Mod(b, n), n) == Mod(a * b, n)
  {
    hide Mod;
    var s := Mod(b, n);
    MulResidue(a, s, n);
    assert a * s == s * a;
    MulResidue(b, a, n);
    assert b * a == a * b;
  }

  /** A number is a multiple exactly if its residue is 0. */
  lemma Multiple(k: int, n: nat)
    requires 0 < n
    ensures Mod(k * n, n) == 0
  {
    Residue(k * n, n, k, 0);
  }

  /** Equal residues are those whose difference is a multiple. */
  lemma SameResidue(a: int, b: int, n: nat)
    requires 0 < n
    ensures Mod(a, n) == Mod(b, n) <==> Mod(a - b, n) == 0
  {
    hide Mod;
    var p := Quotient(a, n);
    var q := Quotient(b, n);
    if Mod(a, n) == Mod(b, n) {
      assert a - b == (p - q) * n;
      Multiple(p - q, n);
    }
    if Mod(a - b, n) == 0 {
      var k := Quotient(a - b, n);
      assert a == b + k * n;
      Shift(b, k, n);
    }
  }

  // ---- powers ---------------------------------------------------------------------------------------

  function Power(a: nat, e: nat): nat {
    if e == 0 then 1 else a * Power(a, e - 1)
  }

  lemma {:induction false} PowerAdds(a: nat, d: nat, e: nat)
    ensures Power(a, d + e) == Power(a, d) * Power(a, e)
  {
    if d > 0 {
      PowerAdds(a, d - 1, e);
      Associates(a, Power(a, d - 1), Power(a, e));
    }
  }

  lemma Associates(a: int, b: int, c: int)
    ensures a * (b * c) == (a * b) * c == b * (a * c)
  {
  }

  lemma {:induction false} PowerResidue(a: nat, e: nat, n: nat)
    requires 0 < n
    ensures Mod(Power(Mod(a, n), e), n) == Mod(Power(a, e), n)
  {
    hide Mod;
    if e > 0 {
      var r := Mod(a, n);
      PowerResidue(a, e - 1, n);
      MulBoth(r, Power(r, e - 1), n);
      MulBoth(a, Power(a, e - 1), n);
      SmallResidue(r, n);
    }
  }

  // ---- primes ---------------------------------------------------------------------------------------

  ghost predicate Prime(p: nat) {
    p > 1 && forall d: nat :: 2 <= d < p ==> Mod(p, d) != 0
  }

  /** A prime that divides a product divides the second factor, when the first is smaller than it. */
  lemma {:induction false} EuclidSmall(p: nat, a: nat, b: int)
    requires Prime(p) && 0 < a < p && Mod(a * b, p) == 0
    ensures Mod(b, p) == 0
    decreases a
  {
    hide Mod;
    if a > 1 {
      var q := Quotient(p, a);
      var r := Mod(p, a);
      var k := Quotient(a * b, p);
      assert r * b == p * b - q * (a * b) by { Expand(p, q, a, r, b); }
      assert r * b == (b - q * k) * p by { Collect(p, b, q, k); }
      Multiple(b - q * k, p);
      EuclidSmall(p, r, b);
    }
  }

  lemma Expand(p: int, q: int, a: int, r: int, b: int)
    requires p == q * a + r
    ensures r * b == p * b - q * (a * b)
  {
  }

  lemma Collect(p: int, b: int, q: int, k: int)
    ensures p * b - q * (k * p) == (b - q * k) * p
  {
  }

  /** Euclid's lemma. */
  lemma Euclid(p: nat, a: int, b: int)
    requires Prime(p) && Mod(a * b, p) == 0
    ensures Mod(a, p) == 0 || Mod(b, p) == 0
  {
    hide Mod;
    if Mod(a, p) != 0 {
      MulResidue(a, b, p);
      EuclidSmall(p, Mod(a, p), b);
    }
  }

  lemma SmallMultiple(y: int, p: nat)
    requires 0 < p && 0 < y + p && y <= p && Mod(y, p) == 0
    ensures y == 0 || y == p
  {
    hide Mod;
    var k := Quotient(y, p);
    assert k >= 2 ==> k * p >= 2 * p;
    assert k <= -1 ==> k * p + p <= 0;
  }

  /** The square roots of 1 modulo a prime are 1 and p - 1. */
  lemma RootsOfOne(p: nat, x: nat)
    requires Prime(p) && x < p && Mod(x * x, p) == 1
    ensures x == 1 || x == p - 1
  {
    hide Mod, Prime;
    assert p > 1 by { PrimeSize(p); }
    SmallResidue(1, p);
    SameResidue(x * x, 1, p);
    var y: int := x;
    assert y * y - 1 == (y - 1) * (y + 1);
    Euclid(p, y - 1, y + 1);
    if Mod(y - 1, p) == 0 {
      SmallMultiple(y - 1, p);
    } else {
      SmallMultiple(y + 1, p);
    }
  }

  lemma PrimeSize(p: nat)
    requires Prime(p)
    ensures p > 1
  {
  }

  // ---- Fermat's little theorem --------------------------------------------------------------------------

  ghost function Product(s: seq<nat>): nat {
    if s == [] then 1 else s[0] * Product(s[1..])
  }

  ghost function Factorial(n: nat): nat {
    if n == 0 then 1 else n * Factorial(n - 1)
  }

  ghost predicate Permutation(s: seq<nat>) {
    && (forall i :: 0 <= i < |s| ==> 1 <= s[i] <= |s|)
    && forall i, j :: 0 <= i < j < |s| ==> s[i] != s[j]
  }

  lemma {:induction false} TakeOut(s: seq<nat>, k: nat)
    requires k < |s|
    ensures Product(s) == s[k] * Product(s[..k] + s[k + 1..])
  {
    var t := s[..k] + s[k + 1..];
    if k == 0 {
      assert t == s[1..];
    } else {
      TakeOut(s[1..], k - 1);
      var u := s[1..][..k - 1] + s[1..][k..];
      assert t[0] == s[0] && t[1..] == u;
      Associates(s[0], s[k], Product(u));
    }
  }

  /** There are at most n distinct numbers in 1..n. */
  lemma {:induction false} Pigeons(s: seq<nat>, n: nat)
    requires forall i :: 0 <= i < |s| ==> 1 <= s[i] <= n
    requires forall i, j :: 0 <= i < j < |s| ==> s[i] != s[j]
    ensures |s| <= n
    decreases n
  {
    if s != [] {
      assert 1 <= s[0] <= n;
      if k :| 0 <= k < |s| && s[k] == n {
        Pigeons(s[..k] + s[k + 1..], n - 1);
      } else {
        Pigeons(s, n - 1);
      }
    }
  }

  /** Distinct numbers in 1..n, n of them: the largest is there. */
  lemma HasLargest(s: seq<nat>) returns (k: nat)
    requires Permutation(s) && s != []
    ensures k < |s| && s[k] == |s|
  {
    if forall i :: 0 <= i < |s| ==> s[i] != |s| {
      Pigeons(s, |s| - 1);
    }
    k :| 0 <= k < |s| && s[k] == |s|;
  }

  lemma {:induction false} PermutationProduct(s: seq<nat>)
    requires Permutation(s)
    ensures Product(s) == Factorial(|s|)
    decreases |s|
  {
    if s != [] {
      var k := HasLargest(s);
      var t := s[..k] + s[k + 1..];
      forall i | 0 <= i < |t|
        ensures 1 <= t[i] <= |t|
      {
        var o := if i < k then i else i + 1;
        assert t[i] == s[o] && s[o] != s[k];
      }
      TakeOut(s, k);
      PermutationProduct(t);
    }
  }

  /** The residues of a, 2a, ..., n * a. */
  ghost function Multiples(a: nat, n: nat, p: nat): (s: seq<nat>)
    requires 0 < p
    ensures |s| == n
    ensures forall i :: 0 <= i < n ==> s[i] == Mod(a * (i + 1), p)
  {
    seq(n, i requires 0 <= i < n => Mod(a * (i + 1), p))
  }

  lemma MultipleNonzero(a: nat, p: nat, i: nat)
    requires Prime(p) && Mod(a, p) != 0 && 0 < i < p
    ensures Mod(a * i, p) != 0
  {
    hide Mod, Prime;
    if Mod(a * i, p) == 0 {
      Euclid(p, a, i);
      SmallMultiple(i, p);
    }
  }

  lemma MultiplesPermute(a: nat, p: nat)
    requires Prime(p) && Mod(a, p) != 0
    ensures Permutation(Multiples(a, p - 1, p))
  {
    hide Mod, Multiples;
    var s := Multiples(a, p - 1, p);
    forall i | 0 <= i < p - 1
      ensures 1 <= s[i] <= p - 1
    {
      MultipleNonzero(a, p, i + 1);
    }
    forall i, j | 0 <= i < j < p - 1
      ensures s[i] != s[j]
    {
      SameResidue(a * (j + 1), a * (i + 1), p);
      assert a * (j + 1) - a * (i + 1) == a * (j - i);
      MultipleNonzero(a, p, j - i);
    }
  }

  lemma {:induction false} MultiplesProduct(a: nat, n: nat, p: nat)
    requires 0 < p
    ensures Mod(Product(Multiples(a, n, p)), p) == Mod(Power(a, n) * Factorial(n), p)
    decreases n
  {
    hide Mod, Multiples;
    if n > 0 {
      MultiplesProduct(a, n - 1, p);
      var s, t := Multiples(a, n, p), Multiples(a, n - 1, p);
      TakeOut(s, n - 1);
      assert s[..n - 1] + s[n..] == t;
      var x, y, r := Power(a, n - 1), Factorial(n - 1), Mod(a * n, p);
      assert s[n - 1] == r;
      MulBoth(r, Product(t), p);
      SmallResidue(r, p);
      MulBoth(a * n, x * y, p);
      assert (a * n) * (x * y) == (a * x) * (n * y) by { Rearrange(a, n, x, y); }
    }
  }

  lemma Rearrange(a: nat, n: nat, x: nat, y: nat)
    ensures (a * n) * (x * y) == (a * x) * (n * y)
  {
    Associates(a * n, x, y);
    Associates(a, n, x);
    Associates(a * x, n, y);
    assert (a * n) * x == (a * x) * n;
  }

  lemma {:induction false} FactorialUnit(n: nat, p: nat)
    requires Prime(p) && n < p
    ensures Mod(Factorial(n), p) != 0
  {
    hide Mod, Prime;
    PrimeSize(p);
    if n == 0 {
      SmallResidue(1, p);
    } else {
      FactorialUnit(n - 1, p);
      if Mod(Factorial(n), p) == 0 {
        Euclid(p, n, Factorial(n - 1));
        SmallMultiple(n, p);
      }
    }
  }

  /** Fermat's little theorem. */
  lemma Fermat(a: nat, p: nat)
    requires Prime(p) && Mod(a, p) != 0
    ensures Mod(Power(a, p - 1), p) == 1
  {
    hide Mod, Prime, Multiples, Power, Factorial;
    PrimeSize(p);
    var x: int, f: int := Power(a, p - 1), Factorial(p - 1);
    MultiplesPermute(a, p);
    PermutationProduct(Multiples(a, p - 1, p));
    MultiplesProduct(a, p - 1, p);
    SameResidue(x * f, f, p);
    assert x * f - f == (x - 1) * f;
    FactorialUnit(p - 1, p);
    Euclid(p, x - 1, f);
    SameResidue(x, 1, p);
    SmallResidue(1, p);
  }

  // ---- there are infinitely many primes -----------------------------------------------------------------

  lemma {:induction false} FactorialMultiple(n: nat, d: nat)
    requires 1 <= d <= n
    ensures Mod(Factorial(n), d) == 0
  {
    hide Mod;
    if d == n {
      assert Factorial(n) == Factorial(n - 1) * d;
      Multiple(Factorial(n - 1), d);
    } else {
      FactorialMultiple(n - 1, d);
      var k := Quotient(Factorial(n - 1), d);
      Associates(n, k, d);
      Multiple(n * k, d);
    }
  }

  /** The smallest divisor from d on is prime when no smaller one divides. */
  lemma {:induction false} SmallestDivisor(n: nat, d: nat) returns (p: nat)
    requires 2 <= d <= n && forall e: nat :: 2 <= e < d ==> Mod(n, e) != 0
    ensures d <= p <= n && Prime(p) && Mod(n, p) == 0
    decreases n - d
  {
    hide Mod;
    if Mod(n, d) == 0 {
      p := d;
      forall e: nat | 2 <= e < p
        ensures Mod(p, e) != 0
      {
        if Mod(p, e) == 0 {
          var k := Quotient(n, p);
          var l := Quotient(p, e);
          Associates(k, l, e);
          Multiple(k * l, e);
        }
      }
    } else {
      Multiple(1, n);
      p := SmallestDivisor(n, d + 1);
    }
  }

  lemma {:induction false} FactorialPositive(n: nat)
    ensures Factorial(n) >= 1
  {
    if n > 0 {
      FactorialPositive(n - 1);
      assert n * Factorial(n - 1) >= 1;
    }
  }

  /** There is a prime above every number. */
  lemma PrimeAbove(n: nat) returns (p: nat)
    ensures p > n && Prime(p)
  {
    hide Mod, Factorial;
    FactorialPositive(n);
    var f := Factorial(n) + 1;
    p := SmallestDivisor(f, 2);
    SmallResidue(1, p);
    SameResidue(f, Factorial(n), p);
    if p <= n {
      FactorialMultiple(n, p);
    }
  }
}
