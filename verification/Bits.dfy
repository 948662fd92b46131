/** Words as bit strings: the C operators &, |, ~, << and >> on unsigned integers. */
module Bits {
  import opened Arithmetic
  import opened Words

  /** Bit i of a. */
  predicate Bit(a: nat, i: nat) {
    if i == 0 then a % 2 == 1 else Bit(a / 2, i - 1)
  }

  function BitOf(b: bool): nat {
    if b then 1 else 0
  }

  function And(a: nat, b: nat): nat {
    if a == 0 || b == 0 then 0 else BitOf(a % 2 == 1 && b % 2 == 1) + 2 * And(a / 2, b / 2)
  }

  function Or(a: nat, b: nat): nat
    decreases a + b
  {
    if a == 0 && b == 0 then 0 else BitOf(a % 2 == 1 || b % 2 == 1) + 2 * Or(a / 2, b / 2)
  }

  function Xor(a: nat, b: nat): nat
    decreases a + b
  {
    if a == 0 && b == 0 then 0 else BitOf((a % 2 == 1) != (b % 2 == 1)) + 2 * Xor(a / 2, b / 2)
  }

  function Shr(a: nat, s: nat): nat {
    if s == 0 then a else Shr(a / 2, s - 1)
  }

  function Shl(a: nat, s: nat): nat {
    a * Pow2(s)
  }

  /** << on 32-bit words. */
  function Shl32(a: uint32, s: nat): uint32 {
    Shl(a, s) % TWO32
  }

  function Not32(a: uint32): uint32 {
    TWO32 - 1 - a
  }

  /** (1U << n) - 1U */
  function Mask(n: nat): nat {
    Pow2(n) - 1
  }

  // ---- a number is its bits ---------------------------------------------------------------------

  lemma {:induction false} ZeroBits(i: nat)
    ensures !Bit(0, i)
  {
    if i > 0 {
      ZeroBits(i - 1);
    }
  }

  lemma {:induction false} SameBits(a: nat, b: nat)
    requires forall i: nat :: Bit(a, i) == Bit(b, i)
    ensures a == b
    decreases a + b
  {
    assert Bit(a, 0) == Bit(b, 0);
    if a + b > 0 {
      forall i: nat
        ensures Bit(a / 2, i) == Bit(b / 2, i)
      {
        assert Bit(a, i + 1) == Bit(b, i + 1);
      }
      SameBits(a / 2, b / 2);
    }
  }

  lemma {:induction false} AndBit(a: nat, b: nat, i: nat)
    ensures Bit(And(a, b), i) <==> Bit(a, i) && Bit(b, i)
  {
    if a == 0 || b == 0 {
      ZeroBits(i);
    } else {
      var c := And(a, b);
      assert c / 2 == And(a / 2, b / 2);
      if i > 0 {
        AndBit(a / 2, b / 2, i - 1);
      }
    }
  }

  lemma {:induction false} OrBit(a: nat, b: nat, i: nat)
    ensures Bit(Or(a, b), i) <==> Bit(a, i) || Bit(b, i)
    decreases i
  {
    if a == 0 && b == 0 {
      ZeroBits(i);
    } else {
      var c := Or(a, b);
      assert c / 2 == Or(a / 2, b / 2);
      if i > 0 {
        OrBit(a / 2, b / 2, i - 1);
      }
    }
  }

  lemma {:induction false} XorBit(a: nat, b: nat, i: nat)
    ensures Bit(Xor(a, b), i) <==> Bit(a, i) != Bit(b, i)
    decreases i
  {
    if a == 0 && b == 0 {
      ZeroBits(i);
    } else {
      var c := Xor(a, b);
      assert c / 2 == Xor(a / 2, b / 2);
      if i > 0 {
        XorBit(a / 2, b / 2, i - 1);
      }
    }
  }

  /** ^ undoes itself. */
  lemma XorTwice(a: nat, b: nat)
    ensures Xor(Xor(a, b), b) == a
  {
    hide Xor, Bit;
    forall i: nat
      ensures Bit(Xor(Xor(a, b), b), i) == Bit(a, i)
    {
      XorBit(a, b, i);
      XorBit(Xor(a, b), b, i);
    }
    SameBits(Xor(Xor(a, b), b), a);
  }

  lemma XorHalves(a: nat, b: nat)
    ensures Xor(a, b) == (if a % 2 == b % 2 then 0 else 1) + 2 * Xor(a / 2, b / 2)
  {
  }

  lemma XorZero(a: nat)
    ensures Xor(a, 0) == a
  {
    hide Xor, Bit;
    forall i: nat
      ensures Bit(Xor(a, 0), i) == Bit(a, i)
    {
      XorBit(a, 0, i);
      ZeroBits(i);
    }
    SameBits(Xor(a, 0), a);
  }

  lemma {:induction false} ShrBit(a: nat, s: nat, i: nat)
    ensures Bit(Shr(a, s), i) == Bit(a, i + s)
  {
    if s > 0 {
      ShrBit(a / 2, s - 1, i);
    }
  }

  lemma {:induction false} ShlBit(a: nat, s: nat, i: nat)
    ensures Bit(Shl(a, s), i) <==> i >= s && Bit(a, i - s)
    decreases s
  {
    if s > 0 {
      var c := Shl(a, s);
      assert c == 2 * Shl(a, s - 1) by { Doubles(a, Pow2(s - 1)); }
      if i > 0 {
        ShlBit(a, s - 1, i - 1);
      }
    }
  }

  lemma Doubles(a: nat, p: nat)
    ensures a * (2 * p) == 2 * (a * p)
  {
  }

  lemma {:induction false} MaskBit(n: nat, i: nat)
    ensures Bit(Mask(n), i) <==> i < n
    decreases n
  {
    if n == 0 {
      ZeroBits(i);
    } else if i > 0 {
      assert Mask(n) / 2 == Mask(n - 1);
      MaskBit(n - 1, i - 1);
    }
  }

  /** Reducing modulo a power of two keeps the low bits. */
  lemma {:induction false} LowBit(a: nat, n: nat, i: nat)
    ensures Bit(a % Pow2(n), i) <==> i < n && Bit(a, i)
    decreases n
  {
    if n == 0 {
      assert a % 1 == 0;
      ZeroBits(i);
    } else {
      var p := Pow2(n - 1);
      HalfDivision(a, p);
      FirstBit(a % 2, (a / 2) % p, i);
      if i > 0 {
        LowBit(a / 2, n - 1, i - 1);
      }
    }
  }

  lemma FirstBit(b: nat, h: nat, i: nat)
    requires b < 2
    ensures Bit(b + 2 * h, i) == if i == 0 then b == 1 else Bit(h, i - 1)
  {
  }

  /** Halving first and dividing then. */
  lemma HalfDivision(a: nat, p: nat)
    requires p >= 1
    ensures a / (2 * p) == (a / 2) / p && a % (2 * p) == a % 2 + 2 * ((a / 2) % p)
  {
    var h, b := a / 2, a % 2;
    var q, r := h / p, h % p;
    assert q * p + r == h && r < p by { Divides(h, p); }
    assert a == q * (2 * p) + (b + 2 * r) by { Doubles(q, p); }
    DivisionUnique(a, 2 * p, q, b + 2 * r);
  }

  lemma SmallBits(a: nat, n: nat)
    requires a < Pow2(n)
    ensures forall i: nat :: i >= n ==> !Bit(a, i)
  {
    DivisionUnique(a, Pow2(n), 0, a);
    forall i: nat | i >= n
      ensures !Bit(a, i)
    {
      LowBit(a, n, i);
    }
  }

  /** A number without bits from n on is below 2^n. */
  lemma NoHighBits(a: nat, n: nat)
    requires forall i: nat :: i >= n ==> !Bit(a, i)
    ensures a < Pow2(n)
  {
    var b := a % Pow2(n);
    assert b < Pow2(n);
    forall i: nat
      ensures Bit(b, i) == Bit(a, i)
    {
      LowBit(a, n, i);
    }
    SameBits(b, a);
  }

  lemma {:induction false} ShrIsDivision(a: nat, s: nat)
    ensures Shr(a, s) == a / Pow2(s)
    decreases s
  {
    if s > 0 {
      ShrIsDivision(a / 2, s - 1);
      HalfDivision(a, Pow2(s - 1));
    }
  }

  lemma {:induction false} Pow2Adds(a: nat, b: nat)
    ensures Pow2(a + b) == Pow2(a) * Pow2(b)
    decreases a
  {
    if a > 0 {
      Pow2Adds(a - 1, b);
      assert 2 * (Pow2(a - 1) * Pow2(b)) == (2 * Pow2(a - 1)) * Pow2(b);
    }
  }

  lemma Pow32()
    ensures Pow2(32) == TWO32
  {
    assert Pow2(8) == 256;
    Pow2Adds(8, 8);
    Pow2Adds(16, 16);
  }

  lemma Shl32Bit(a: uint32, s: nat, i: nat)
    ensures Bit(Shl32(a, s), i) <==> s <= i < 32 && Bit(a, i - s)
  {
    Pow32();
    LowBit(Shl(a, s), 32, i);
    ShlBit(a, s, i);
  }

  lemma {:induction false} ComplementBit(a: nat, n: nat, i: nat)
    requires a < Pow2(n)
    ensures Bit(Pow2(n) - 1 - a, i) <==> i < n && !Bit(a, i)
    decreases n
  {
    if n == 0 {
      ZeroBits(i);
    } else {
      var c := Pow2(n) - 1 - a;
      assert c / 2 == Pow2(n - 1) - 1 - a / 2 && c % 2 == 1 - a % 2;
      if i > 0 {
        ComplementBit(a / 2, n - 1, i - 1);
      }
    }
  }

  lemma Not32Bit(a: uint32, i: nat)
    ensures Bit(Not32(a), i) <==> i < 32 && !Bit(a, i)
  {
    Pow32();
    ComplementBit(a, 32, i);
  }

  /** The results of & and | on words are words. */
  lemma AndOrBound(a: nat, b: nat, n: nat)
    requires a < Pow2(n) && b < Pow2(n)
    ensures And(a, b) < Pow2(n) && Or(a, b) < Pow2(n)
  {
    SmallBits(a, n);
    SmallBits(b, n);
    forall i: nat | i >= n
      ensures !Bit(And(a, b), i) && !Bit(Or(a, b), i)
    {
      AndBit(a, b, i);
      OrBit(a, b, i);
    }
    NoHighBits(And(a, b), n);
    NoHighBits(Or(a, b), n);
  }

  /** Masking is reduction modulo a power of two. */
  lemma AndMask(a: nat, n: nat)
    ensures And(a, Mask(n)) == a % Pow2(n) < Pow2(n)
  {
    forall i: nat
      ensures Bit(And(a, Mask(n)), i) == Bit(a % Pow2(n), i)
    {
      AndBit(a, Mask(n), i);
      MaskBit(n, i);
      LowBit(a, n, i);
    }
    SameBits(And(a, Mask(n)), a % Pow2(n));
  }

  /** A number is put together again from its high and its low bits. */
  lemma HighLow(a: nat, n: nat)
    ensures Shl(Shr(a, n), n) + And(a, Mask(n)) == a
  {
    hide Shr, And;
    AndMask(a, n);
    ShrIsDivision(a, n);
    Divides(a, Pow2(n));
  }

  lemma XorBound(a: nat, b: nat, n: nat)
    requires a < Pow2(n) && b < Pow2(n)
    ensures Xor(a, b) < Pow2(n)
  {
    SmallBits(a, n);
    SmallBits(b, n);
    forall i: nat | i >= n
      ensures !Bit(Xor(a, b), i)
    {
      XorBit(a, b, i);
    }
    NoHighBits(Xor(a, b), n);
  }

  /** ^ on 32-bit words. */
  function Xor32(a: uint32, b: uint32): uint32 {
    Pow32();
    XorBound(a, b, 32);
    Xor(a, b)
  }

  lemma {:induction false} ShrShrinks(a: nat, s: nat)
    ensures Shr(a, s) <= a
    decreases s
  {
    if s > 0 {
      ShrShrinks(a / 2, s - 1);
    }
  }

  /** >> on 32-bit words. */
  function Shr32(a: uint32, s: nat): uint32 {
    ShrShrinks(a, s);
    Shr(a, s)
  }

  // ---- logarithms -----------------------------------------------------------------------------------

  ghost function Log2(x: nat): nat {
    if x <= 1 then 0 else 1 + Log2(x / 2)
  }

  lemma {:induction false} Log2Bounds(x: nat)
    requires x > 0
    ensures Pow2(Log2(x)) <= x < 2 * Pow2(Log2(x))
  {
    if x > 1 {
      Log2Bounds(x / 2);
    }
  }

  lemma {:induction false} Log2Below(x: nat, n: nat)
    requires 0 < n && x < Pow2(n)
    ensures Log2(x) < n
    decreases n
  {
    if x > 1 {
      assert n > 1 by { assert Pow2(1) == 2; }
      Log2Below(x / 2, n - 1);
    }
  }
}
