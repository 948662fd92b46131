/** miller_rabin.c, and the search of chd_ph_new for a number of bins that the test accepts. */
module MillerRabin {
  import opened Arithmetic
  import opened Primes

  const TWO64: int := 0x1_0000_0000_0000_0000

  /** Products of 32-bit numbers stay within 64 bits. */
  lemma ProductFits(x: nat, y: nat)
    requires x <= 0xFFFF_FFFF && y <= 0xFFFF_FFFF
    ensures x * y < TWO64
  {
    Times(x, 0xFFFF_FFFF, y);
  }

  /** int_pow: a to the power d modulo n. No product leaves 64 bits when n has at most 32. */
  method IntPow(a: nat, d: nat, n: nat) returns (res: nat)
    requires 1 < n && a < 0x1_0000_0000
    ensures res == Mod(Power(a, d), n)
  {
    hide Mod, Power;
    var aPow: nat, e: nat := a, d;
    res := 1;
    SmallResidue(1, n);
    PowerZero(a);
    while e > 0
      invariant res < n && (aPow < n || aPow < 0x1_0000_0000)
      invariant Mod(res * Power(aPow, e), n) == Mod(Power(a, d), n)
    {
      if n <= 0x1_0000_0000 {
        ProductFits(res, aPow);
        ProductFits(aPow, aPow);
        assert res * aPow < TWO64 && aPow * aPow < TWO64;
      }
      PowStep(res, aPow, e, n);
      if e % 2 == 1 {
        res := Mod(res * aPow, n);
      }
      aPow := Mod(aPow * aPow, n);
      e := e / 2;
    }
    PowerZero(aPow);
    SmallResidue(res, n);
  }

  lemma PowerZero(a: nat)
    ensures Power(a, 0) == 1
  {
  }

  lemma {:induction false} PowerSquare(a: nat, e: nat)
    ensures Power(a * a, e) == Power(a, 2 * e)
  {
    if e > 0 {
      PowerSquare(a, e - 1);
      assert Power(a, 2 * e) == a * (a * Power(a, 2 * (e - 1)));
      Associates(a, a, Power(a, 2 * (e - 1)));
    }
  }

  /** Squaring the base halves the exponent; an odd exponent gives one factor to the result. */
  lemma PowStep(res: nat, aPow: nat, e: nat, n: nat)
    requires 1 < n && e > 0
    ensures
      var res' := if e % 2 == 1 then Mod(res * aPow, n) else res;
      Mod(res' * Power(Mod(aPow * aPow, n), e / 2), n) == Mod(res * Power(aPow, e), n)
  {
    hide Mod, Power;
    var res' := if e % 2 == 1 then Mod(res * aPow, n) else res;
    var b, h := Mod(aPow * aPow, n), e / 2;
    PowerResidue(aPow * aPow, h, n);
    PowerSquare(aPow, h);
    var s, t := Power(b, h), Power(aPow, 2 * h);
    assert Mod(s, n) == Mod(t, n);
    MulBoth(res', s, n);
    MulBoth(res', t, n);
    if e % 2 == 1 {
      MulResidue(res * aPow, t, n);
      assert Power(aPow, e) == aPow * t by { PowerOne(aPow, e); }
      Associates(res, aPow, t);
    } else {
      assert 2 * h == e;
    }
  }

  lemma PowerOne(a: nat, e: nat)
    requires e % 2 == 1
    ensures Power(a, e) == a * Power(a, 2 * (e / 2))
  {
  }

  // ---- witnesses ----------------------------------------------------------------------------------------

  /** The residue that check_witness reaches after i squarings. */
  ghost function Squared(x: nat, i: nat, n: nat): (r: nat)
    requires 1 < n
    ensures r < n
  {
    if i == 0 then Mod(x, n) else Mod(Squared(x, i - 1, n) * Squared(x, i - 1, n), n)
  }

  /** Some squaring gives n - 1, or already the start is 1: what a base shows that does not witness. */
  ghost predicate NoWitness(x: nat, n: nat, s: nat)
    requires 1 < n
  {
    x == 1 || x == n - 1 || exists i: nat :: 1 <= i < s && Squared(x, i, n) == n - 1
  }

  lemma SquaredFirst(x: nat, n: nat)
    requires 1 < n && x < n
    ensures Squared(x, 0, n) == x
  {
    SmallResidue(x, n);
  }

  lemma SquaredNext(x: nat, i: nat, n: nat)
    requires 1 < n && 0 < i
    ensures Squared(x, i, n) == Mod(Squared(x, i - 1, n) * Squared(x, i - 1, n), n)
  {
  }

  /** check_witness: 1 if the base does not witness that n is composite. */
  method CheckWitness(aExpD: nat, n: nat, s: nat) returns (res: nat)
    requires 1 < n && aExpD < n
    ensures res <= 1 && (res == 1 <==> NoWitness(aExpD, n, s))
  {
    hide Mod, Squared;
    var aExp := aExpD;
    if aExp == 1 || aExp == n - 1 {
      return 1;
    }
    SquaredFirst(aExpD, n);
    var i: nat := 1;
    while i < s
      invariant 1 <= i && aExp == Squared(aExpD, i - 1, n)
      invariant forall k: nat :: 1 <= k < i && k < s ==> Squared(aExpD, k, n) != n - 1
    {
      if n <= 0x1_0000_0000 {
        ProductFits(aExp, aExp);
        assert aExp * aExp < TWO64;
      }
      SquaredNext(aExpD, i, n);
      aExp := Mod(aExp * aExp, n);
      if aExp == n - 1 {
        return 1;
      }
      i := i + 1;
    }
    return 0;
  }

  lemma {:induction false} SquaredIsPower(a: nat, d: nat, i: nat, n: nat)
    requires 1 < n
    ensures Squared(Mod(Power(a, d), n), i, n) == Mod(Power(a, Pow2(i) * d), n)
  {
    hide Mod, Power;
    if i == 0 {
      SmallResidue(Mod(Power(a, d), n), n);
    } else {
      SquaredIsPower(a, d, i - 1, n);
      var e := Pow2(i - 1) * d;
      MulBoth(Power(a, e), Power(a, e), n);
      PowerAdds(a, e, e);
      assert e + e == Pow2(i) * d;
    }
  }

  /** Once 1 is reached squaring leads nowhere else: without n - 1 on the way it was there from the start. */
  lemma {:induction false} BackFromOne(x: nat, n: nat, s: nat)
    requires Prime(n) && x < n && Squared(x, s, n) == 1
    requires forall k: nat :: 1 <= k < s ==> Squared(x, k, n) != n - 1
    ensures x == 1 || x == n - 1
    decreases s
  {
    hide Mod, Prime;
    SmallResidue(x, n);
    if s > 0 {
      RootsOfOne(n, Squared(x, s - 1, n));
      if s > 1 {
        BackFromOne(x, n, s - 1);
      }
    }
  }

  /** From 1 or n - 1 squaring leads to 1, and there it stays. */
  lemma {:induction false} SquaredStays(x: nat, i: nat, s: nat, n: nat)
    requires 1 < n && i < s && (Squared(x, i, n) == n - 1 || Squared(x, i, n) == 1)
    ensures Squared(x, s, n) == 1
    decreases s
  {
    hide Mod;
    if i < s - 1 {
      SquaredStays(x, i, s - 1, n);
    }
    var r := Squared(x, s - 1, n);
    SquaredNext(x, s, n);
    SmallResidue(1, n);
    if r == n - 1 {
      Residue(r * r, n, n - 2, 1);
    }
  }

  lemma NoWitnessHasPower(a: nat, d: nat, s: nat, n: nat)
    requires 1 < n && 0 < s && NoWitness(Mod(Power(a, d), n), n, s) && Mod(Power(a, d), n) != 1
    ensures exists i: nat :: i < s && Mod(Power(a, Pow2(i) * d), n) == n - 1
  {
    hide Mod, Power;
    var x := Mod(Power(a, d), n);
    if x == n - 1 {
      assert Pow2(0) * d == d;
    } else {
      var i: nat :| 1 <= i < s && Squared(x, i, n) == n - 1;
      SquaredIsPower(a, d, i, n);
    }
  }

  lemma PowerIsNoWitness(a: nat, d: nat, s: nat, n: nat, i: nat)
    requires 1 < n && i < s && Mod(Power(a, Pow2(i) * d), n) == n - 1
    ensures NoWitness(Mod(Power(a, d), n), n, s)
  {
    hide Mod, Power;
    if i == 0 {
      assert Pow2(0) * d == d;
    } else {
      SquaredIsPower(a, d, i, n);
      assert Squared(Mod(Power(a, d), n), i, n) == n - 1;
    }
  }

  /** What it means that a base does not witness, in terms of its powers. */
  lemma NoWitnessByPowers(a: nat, d: nat, s: nat, n: nat)
    requires 1 < n && 0 < s
    ensures NoWitness(Mod(Power(a, d), n), n, s) <==>
      Mod(Power(a, d), n) == 1 || exists i: nat :: i < s && Mod(Power(a, Pow2(i) * d), n) == n - 1
  {
    var x := Mod(Power(a, d), n);
    if x == 1 {
      assert NoWitness(x, n, s);
    } else if NoWitness(x, n, s) {
      NoWitnessHasPower(a, d, s, n);
    } else if i: nat :| i < s && Mod(Power(a, Pow2(i) * d), n) == n - 1 {
      PowerIsNoWitness(a, d, s, n, i);
    }
  }

  /** A base that does not witness against n satisfies Fermat's congruence. */
  lemma NoWitnessIsFermat(a: nat, d: nat, s: nat, n: nat)
    requires 1 < n && 0 < s && n - 1 == Pow2(s) * d && NoWitness(Mod(Power(a, d), n), n, s)
    ensures Mod(Power(a, n - 1), n) == 1
  {
    hide Mod, Power;
    var x := Mod(Power(a, d), n);
    SquaredFirst(x, n);
    SquaredIsPower(a, d, s, n);
    if x == 1 || x == n - 1 {
      SquaredStays(x, 0, s, n);
    } else {
      var i: nat :| 1 <= i < s && Squared(x, i, n) == n - 1;
      SquaredStays(x, i, s, n);
    }
  }

  /** No base that the prime does not divide witnesses against it. */
  lemma PrimeHasNoWitness(a: nat, d: nat, s: nat, n: nat)
    requires Prime(n) && n - 1 == Pow2(s) * d && Mod(a, n) != 0
    ensures NoWitness(Mod(Power(a, d), n), n, s)
  {
    hide Mod, Prime, Power;
    PrimeSize(n);
    Fermat(a, n);
    SquaredIsPower(a, d, s, n);
    var x := Mod(Power(a, d), n);
    if forall k: nat :: 1 <= k < s ==> Squared(x, k, n) != n - 1 {
      BackFromOne(x, n, s);
    }
  }

  lemma {:induction false} SquaredZero(i: nat, n: nat)
    requires 1 < n
    ensures Squared(0, i, n) == 0
  {
    hide Mod;
    SmallResidue(0, n);
    if i > 0 {
      SquaredZero(i - 1, n);
    }
  }

  /** A base that the prime divides always witnesses. */
  lemma DividingBaseWitnesses(a: nat, d: nat, s: nat, n: nat)
    requires 2 < n && 0 < d && Mod(a, n) == 0
    ensures !NoWitness(Mod(Power(a, d), n), n, s)
  {
    hide Mod;
    MulResidue(a, Power(a, d - 1), n);
    SmallResidue(0, n);
    forall i: nat
      ensures Squared(0, i, n) == 0
    {
      SquaredZero(i, n);
    }
  }

  // ---- the test -------------------------------------------------------------------------------------------

  /** d after k turns of the loop that halves it. */
  ghost function Halved(d: nat, k: nat): nat {
    if k == 0 then d else Halved(d, k - 1) / 2
  }

  lemma {:induction false} HalvedFirst(d: nat, k: nat)
    ensures Halved(d, k + 1) == Halved(d / 2, k)
  {
    if k > 0 {
      HalvedFirst(d, k - 1);
    }
  }

  lemma {:induction false} HalvedZero(k: nat)
    ensures Halved(0, k) == 0
  {
    if k > 0 {
      HalvedZero(k - 1);
    }
  }

  /** The guard of the loop holds for the first k turns. */
  ghost predicate EvenFor(d: nat, k: nat) {
    forall i: nat :: i < k ==> Halved(d, i) % 2 == 0
  }

  /** The guard of the loop holds for ever. */
  ghost predicate NeverOdd(d: nat) {
    forall k: nat :: Halved(d, k) % 2 == 0
  }

  /** The loop reaches an odd number, which ends it, exactly if it does not start from 0. */
  lemma {:induction false} HalvingEnds(d: nat)
    ensures NeverOdd(d) <==> d == 0
    decreases d
  {
    if d == 0 {
      forall k: nat
        ensures Halved(d, k) % 2 == 0
      {
        HalvedZero(k);
      }
    } else if d % 2 == 1 {
      assert Halved(d, 0) == d;
    } else {
      HalvingEnds(d / 2);
      var k: nat :| Halved(d / 2, k) % 2 != 0;
      HalvedFirst(d, k);
    }
  }

  /** For odd n the loop of check_primality goes on for ever exactly if n is 1. */
  lemma DecompositionEnds(n: nat)
    requires n % 2 == 1
    ensures NeverOdd((n - 1) / 2) <==> n == 1
  {
    HalvingEnds((n - 1) / 2);
  }

  /** n - 1 == 2^s * d with d odd */
  method Decompose(n: nat) returns (d: nat, s: nat)
    requires 2 < n && n % 2 == 1
    ensures n - 1 == Pow2(s) * d && d % 2 == 1
    ensures 1 <= s && d == Halved((n - 1) / 2, s - 1)
    ensures EvenFor((n - 1) / 2, s - 1)
  {
    s, d := 1, (n - 1) / 2;
    assert Pow2(1) == 2;
    while d % 2 == 0
      invariant n - 1 == Pow2(s) * d && 0 < d
      invariant 1 <= s && d == Halved((n - 1) / 2, s - 1)
      invariant EvenFor((n - 1) / 2, s - 1)
      decreases d
    {
      assert Pow2(s) * d == Pow2(s + 1) * (d / 2) by { assert d == 2 * (d / 2); }
      s := s + 1;
      d := d / 2;
    }
  }

  /** What check_primality accepts. */
  ghost predicate Accepts(n: nat) {
    && 2 < n && n % 2 != 0 && n % 3 != 0 && n % 5 != 0 && n % 7 != 0
    && forall d: nat, s: nat :: n - 1 == Pow2(s) * d && d % 2 == 1 ==> Passes(n, d, s)
  }

  ghost predicate Passes(n: nat, d: nat, s: nat)
    requires 2 < n
  {
    && NoWitness(Mod(Power(2, d), n), n, s)
    && NoWitness(Mod(Power(7, d), n), n, s)
    && NoWitness(Mod(Power(61, d), n), n, s)
  }

  lemma {:induction false} DecomposeUnique(d: nat, s: nat, d': nat, s': nat)
    requires Pow2(s) * d == Pow2(s') * d' && d % 2 == 1 && d' % 2 == 1
    ensures d == d' && s == s'
  {
    hide Pow2;
    if s > 0 && s' > 0 {
      Halve(s, d);
      Halve(s', d');
      DecomposeUnique(d, s - 1, d', s' - 1);
    } else if s > 0 {
      Halve(s, d);
      NoHalve(d');
      Doubled(Pow2(s - 1) * d, d');
    } else if s' > 0 {
      Halve(s', d');
      NoHalve(d);
      Doubled(Pow2(s' - 1) * d', d);
    } else {
      NoHalve(d);
      NoHalve(d');
    }
  }

  lemma Doubled(x: nat, y: nat)
    requires 2 * x == y
    ensures y % 2 == 0
  {
  }

  lemma NoHalve(d: nat)
    ensures Pow2(0) * d == d
  {
  }

  lemma Halve(s: nat, d: nat)
    requires s > 0
    ensures Pow2(s) * d == 2 * (Pow2(s - 1) * d)
  {
    Associates(2, Pow2(s - 1), d);
  }

  /** check_primality. At n == 1 its decomposition does not end: DecompositionEnds. */
  method CheckPrimality(n: nat) returns (res: nat)
    requires n != 1
    ensures res <= 1 && (res == 1 <==> Accepts(n))
  {
    hide NoWitness, Mod, Power;
    if n % 2 == 0 || n % 3 == 0 || n % 5 == 0 || n % 7 == 0 {
      return 0;
    }
    var d, s := Decompose(n);
    AcceptsIfPasses(n, d, s);
    var aExpD := IntPow(2, d, n);
    var w := CheckWitness(aExpD, n, s);
    if w == 0 {
      return 0;
    }
    aExpD := IntPow(7, d, n);
    w := CheckWitness(aExpD, n, s);
    if w == 0 {
      return 0;
    }
    aExpD := IntPow(61, d, n);
    w := CheckWitness(aExpD, n, s);
    if w == 0 {
      return 0;
    }
    return 1;
  }

  lemma AcceptsIfPasses(n: nat, d: nat, s: nat)
    requires 2 < n && n % 2 != 0 && n % 3 != 0 && n % 5 != 0 && n % 7 != 0
    requires n - 1 == Pow2(s) * d && d % 2 == 1
    ensures Accepts(n) <==> Passes(n, d, s)
  {
    hide Passes;
    forall d': nat, s': nat | n - 1 == Pow2(s') * d' && d' % 2 == 1
      ensures Passes(n, d', s') <==> Passes(n, d, s)
    {
      DecomposeUnique(d, s, d', s');
    }
  }

  lemma {:induction false} Decomposition(m: nat) returns (d: nat, s: nat)
    requires 0 < m
    ensures m == Pow2(s) * d && d % 2 == 1 && (m % 2 == 0 ==> 0 < s)
  {
    if m % 2 == 1 {
      d, s := m, 0;
      NoHalve(m);
    } else {
      d, s := Decomposition(m / 2);
      s := s + 1;
      Halve(s, d);
    }
  }

  lemma AcceptedSize(n: nat)
    requires Accepts(n)
    ensures 11 <= n
  {
    hide Passes;
  }

  /** Whatever is accepted satisfies Fermat's congruence for the three bases. */
  lemma AcceptedIsFermat(n: nat)
    requires Accepts(n)
    ensures Mod(Power(2, n - 1), n) == Mod(Power(7, n - 1), n) == Mod(Power(61, n - 1), n) == 1
  {
    hide Mod, Power, NoWitness;
    var d, s := Decomposition(n - 1);
    assert Passes(n, d, s);
    NoWitnessIsFermat(2, d, s, n);
    NoWitnessIsFermat(7, d, s, n);
    NoWitnessIsFermat(61, d, s, n);
  }

  lemma NotDivided(a: nat, n: nat)
    requires Prime(a) && Prime(n) && a != n
    ensures Mod(a, n) != 0 && Mod(n, a) != 0
  {
    if a < n {
      SmallResidue(a, n);
    } else {
      SmallResidue(n, a);
    }
  }

  lemma NoFactor(k: int, d: nat)
    requires 2 <= d < 61
    ensures k * d != 61
  {
    if k >= 8 {
      Times(8, k, d);
    } else if k > 0 {
      assert k == 1 || k == 2 || k == 3 || k == 4 || k == 5 || k == 6 || k == 7;
    } else {
      Times(-k, -k, d);
    }
  }

  lemma SmallPrimes()
    ensures Prime(2) && Prime(3) && Prime(5) && Prime(7) && Prime(61)
  {
    assert Mod(3, 2) == 1 && Mod(5, 2) == 1 && Mod(5, 3) == 2 && Mod(5, 4) == 1;
    assert Mod(7, 2) == 1 && Mod(7, 3) == 1 && Mod(7, 4) == 3 && Mod(7, 5) == 2 && Mod(7, 6) == 1;
    forall d: nat | 2 <= d < 61
      ensures Mod(61, d) != 0
    {
      var k := Quotient(61, d);
      NoFactor(k, d);
    }
  }

  /** Of the primes, exactly 2, 3, 5, 7 and 61 are turned away. */
  lemma PrimesAccepted(n: nat)
    requires Prime(n)
    ensures Accepts(n) <==> n != 2 && n != 3 && n != 5 && n != 7 && n != 61
  {
    hide Prime, NoWitness, Power;
    SmallPrimes();
    if n != 2 && n != 3 && n != 5 && n != 7 && n != 61 {
      NotDivided(2, n);
      NotDivided(3, n);
      NotDivided(5, n);
      NotDivided(7, n);
      NotDivided(61, n);
      PrimeSize(n);
      forall d: nat, s: nat | n - 1 == Pow2(s) * d && d % 2 == 1
        ensures Passes(n, d, s)
      {
        PrimeHasNoWitness(2, d, s, n);
        PrimeHasNoWitness(7, d, s, n);
        PrimeHasNoWitness(61, d, s, n);
      }
    }
    if n == 61 {
      assert Pow2(2) * 15 == 60 by { assert Pow2(1) == 2; }
      DividingBaseWitnesses(61, 15, 2, 61);
      assert !Passes(61, 15, 2);
    }
  }

  /** The search of chd_ph_new: it ends, at the latest at the first prime from n on that is above 61. */
  method FindBins(n: nat, ghost p: nat) returns (bins: nat)
    requires 0 < n && Prime(p) && p > 61 && n <= p
    requires n != 1 // check_primality does not return for one bin: DecompositionEnds
    ensures n <= bins <= p && bins % 2 == 1 && Accepts(bins)
    ensures forall x :: n <= x < bins && x % 2 == 1 ==> !Accepts(x)
  {
    hide Prime, Accepts;
    OddPrime(p);
    PrimesAccepted(p);
    bins := n;
    if bins % 2 == 0 {
      bins := bins + 1;
    }
    while true
      invariant n <= bins <= p && bins % 2 == 1 && bins != 1
      invariant forall x :: n <= x < bins && x % 2 == 1 ==> !Accepts(x)
      decreases p - bins
    {
      var prime := CheckPrimality(bins);
      if prime == 1 {
        break;
      }
      bins := bins + 2;
    }
  }

  lemma OddPrime(p: nat)
    requires Prime(p) && p > 2
    ensures p % 2 == 1
  {
    assert Mod(p, 2) != 0;
  }

  /** Such a prime exists for every n, so over unbounded integers the search always ends. */
  lemma BinsExist(n: nat) returns (p: nat)
    ensures Prime(p) && p > 61 && n <= p
  {
    p := PrimeAbove(n + 61);
  }
}
