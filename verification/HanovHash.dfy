/** examples/epmh.py: the hash function, and what it tells apart. */
module HanovHash {
  import opened Arithmetic
  import opened Words
  import opened Bits
  import opened Primes

  const FNV_PRIME: nat := 0x0100_0193

  function Fnv(d: nat, str: string): nat
    decreases |str|
  {
    if str == "" then d else Fnv(Xor(d * FNV_PRIME, str[0] as nat) % TWO32, str[1..])
  }

  /** hash */
  function Hash(d: nat, str: string): nat {
    Fnv(if d == 0 then FNV_PRIME else d, str)
  }

  // ---- the exclusive or ----------------------------------------------------------------------------------

  lemma XorSymmetric(a: nat, b: nat)
    ensures Xor(a, b) == Xor(b, a)
  {
    hide Xor, Bit;
    forall i: nat
      ensures Bit(Xor(a, b), i) == Bit(Xor(b, a), i)
    {
      XorBit(a, b, i);
      XorBit(b, a, i);
    }
    SameBits(Xor(a, b), Xor(b, a));
  }

  /** The lowest n bits are the same. */
  ghost predicate SameBelow(a: nat, b: nat, n: nat) {
    forall i: nat :: i < n ==> Bit(a, i) == Bit(b, i)
  }

  lemma SameLowBits(a: nat, b: nat, n: nat)
    ensures a % Pow2(n) == b % Pow2(n) <==> SameBelow(a, b, n)
  {
    hide Pow2;
    var r, s := a % Pow2(n), b % Pow2(n);
    forall i: nat
      ensures (Bit(r, i) <==> i < n && Bit(a, i)) && (Bit(s, i) <==> i < n && Bit(b, i))
    {
      LowBit(a, n, i);
      LowBit(b, n, i);
    }
    if SameBelow(a, b, n) {
      SameBits(r, s);
    }
  }

  lemma XorBelow(a: nat, b: nat, c: nat, n: nat)
    ensures SameBelow(Xor(a, c), Xor(b, c), n) <==> SameBelow(a, b, n)
  {
    hide Xor;
    forall i: nat
      ensures (Bit(Xor(a, c), i) == Bit(Xor(b, c), i)) == (Bit(a, i) == Bit(b, i))
    {
      XorBit(a, c, i);
      XorBit(b, c, i);
    }
  }

  /** Modulo 2^32 the exclusive or with a fixed number can be undone. */
  lemma XorInjective(a: nat, b: nat, c: nat)
    ensures Xor(a, c) % TWO32 == Xor(b, c) % TWO32 <==> a % TWO32 == b % TWO32
  {
    hide Xor, SameBelow;
    Pow32();
    SameLowBits(a, b, 32);
    SameLowBits(Xor(a, c), Xor(b, c), 32);
    XorBelow(a, b, c, 32);
  }

  lemma XorParity(a: nat, b: nat)
    ensures Xor(a, b) % 2 == (a + b) % 2
  {
    XorBit(a, b, 0);
    hide Xor;
  }

  // ---- the multiplier -------------------------------------------------------------------------------------

  /** The inverse of FNV_PRIME modulo 2^32. */
  const FNV_INVERSE: nat := 0x359C_449B

  /** The multiplication can be undone modulo 2^32. */
  lemma ProductInjective(d: nat, e: nat)
    requires (d * FNV_PRIME) % TWO32 == (e * FNV_PRIME) % TWO32
    ensures d % TWO32 == e % TWO32
  {
    Undone(d);
    Undone(e);
  }

  lemma Undone(d: nat)
    ensures ((d * FNV_PRIME) % TWO32 * FNV_INVERSE) % TWO32 == d % TWO32
  {
    MulResidue(d * FNV_PRIME, FNV_INVERSE, TWO32);
    assert d * FNV_PRIME * FNV_INVERSE == d + d * 0x35_9C99 * TWO32;
    AddMultiple(d, d * FNV_PRIME * FNV_INVERSE, d * 0x35_9C99, TWO32);
  }

  // ---- what the hash tells apart ----------------------------------------------------------------------------

  /** One step of the loop, from states that differ modulo 2^32, leads to different states. */
  lemma StepInjective(d: nat, e: nat, c: nat)
    ensures Xor(d * FNV_PRIME, c) % TWO32 == Xor(e * FNV_PRIME, c) % TWO32 <==> d % TWO32 == e % TWO32
  {
    hide Xor;
    XorInjective(d * FNV_PRIME, e * FNV_PRIME, c);
    if d % TWO32 == e % TWO32 {
      MulResidue(d, FNV_PRIME, TWO32);
      MulResidue(e, FNV_PRIME, TWO32);
    } else if (d * FNV_PRIME) % TWO32 == (e * FNV_PRIME) % TWO32 {
      ProductInjective(d, e);
    }
  }

  /** From the same state different chars lead to different states. */
  lemma CharInjective(d: nat, x: char, y: char)
    requires x != y
    ensures Xor(d * FNV_PRIME, x as nat) % TWO32 != Xor(d * FNV_PRIME, y as nat) % TWO32
  {
    hide Xor;
    XorSymmetric(d * FNV_PRIME, x as nat);
    XorSymmetric(d * FNV_PRIME, y as nat);
    XorInjective(x as nat, y as nat, d * FNV_PRIME);
  }

  /** The same chars keep different states different. */
  lemma {:induction false} FnvInjective(d: nat, e: nat, str: string)
    requires str != ""
    ensures Fnv(d, str) == Fnv(e, str) <==> d % TWO32 == e % TWO32
    decreases |str|
  {
    hide Xor;
    StepInjective(d, e, str[0] as nat);
    if |str| > 1 {
      FnvInjective(Xor(d * FNV_PRIME, str[0] as nat) % TWO32, Xor(e * FNV_PRIME, str[0] as nat) % TWO32, str[1..]);
    }
  }

  lemma {:induction false} OneChar(d: nat, p: string, x: char, y: char, q: string)
    requires x != y
    ensures Fnv(d, p + [x] + q) != Fnv(d, p + [y] + q)
    decreases |p|
  {
    hide Xor;
    var s, t := p + [x] + q, p + [y] + q;
    if p == "" {
      assert s[1..] == q && t[1..] == q;
      CharInjective(d, x, y);
      var d', e' := Xor(d * FNV_PRIME, x as nat) % TWO32, Xor(d * FNV_PRIME, y as nat) % TWO32;
      if q != "" {
        FnvInjective(d', e', q);
      }
    } else {
      assert s[1..] == p[1..] + [x] + q && t[1..] == p[1..] + [y] + q;
      OneChar(Xor(d * FNV_PRIME, p[0] as nat) % TWO32, p[1..], x, y, q);
    }
  }

  /** Keys that differ in a single char have different hashes, whatever the displacement is. */
  lemma OneCharDiffers(d: nat, s: string, t: string, i: nat)
    requires i < |s| == |t| && s[i] != t[i] && forall k :: 0 <= k < |s| && k != i ==> s[k] == t[k]
    ensures Hash(d, s) != Hash(d, t)
  {
    OneChar(if d == 0 then FNV_PRIME else d, s[..i], s[i], t[i], s[i + 1..]);
    assert s == s[..i] + [s[i]] + s[i + 1..];
    assert t == s[..i] + [t[i]] + s[i + 1..];
  }

  /** Different displacements modulo 2^32 are different hash functions on every key that is not empty. */
  lemma DisplacementsDiffer(d: nat, e: nat, str: string)
    requires 0 < d && 0 < e && str != ""
    ensures Hash(d, str) == Hash(e, str) <==> d % TWO32 == e % TWO32
  {
    FnvInjective(d, e, str);
  }

  ghost function CharSum(str: string): nat {
    if str == "" then 0 else str[0] as nat + CharSum(str[1..])
  }

  lemma StepParity(d: nat, c: nat)
    ensures Xor(d * FNV_PRIME, c) % TWO32 % 2 == (d + c) % 2
  {
    hide Xor;
    XorParity(d * FNV_PRIME, c);
    AddMultiple(d + c, d * FNV_PRIME + c, d * 0x80_00C9, 2);
    var x := Xor(d * FNV_PRIME, c);
    Divides(x, TWO32);
    AddMultiple(x % TWO32, x, x / TWO32 * 0x8000_0000, 2);
  }

  lemma {:induction false} FnvParity(d: nat, str: string)
    ensures Fnv(d, str) % 2 == (d + CharSum(str)) % 2
    decreases |str|
  {
    hide Xor;
    if str != "" {
      StepParity(d, str[0] as nat);
      FnvParity(Xor(d * FNV_PRIME, str[0] as nat) % TWO32, str[1..]);
    }
  }

  /** The lowest bit of the hash is that of the displacement and the sum of the chars. */
  lemma HashParity(d: nat, str: string)
    ensures Hash(d, str) % 2 == ((if d == 0 then 1 else d) + CharSum(str)) % 2
  {
    FnvParity(if d == 0 then FNV_PRIME else d, str);
  }

  lemma KnownXor()
    ensures Xor(281488499309161, 97) == 281488499309064
  {
    hide Xor;
    XorHalves(281488499309161, 97);
    XorHalves(140744249654580, 48);
    XorHalves(70372124827290, 24);
    XorHalves(35186062413645, 12);
    XorHalves(17593031206822, 6);
    XorHalves(8796515603411, 3);
    XorHalves(4398257801705, 1);
    XorZero(2199128900852);
  }

  /** The first hash of a key of one char. */
  lemma HashOfA()
    ensures Hash(0, "a") == 0x2602_7A08
  {
    KnownXor();
    hide Xor;
    assert FNV_PRIME * FNV_PRIME == 281488499309161 && "a"[0] as nat == 97 && "a"[1..] == "";
  }
}
