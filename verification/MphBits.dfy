/** mph_bits.h: the growable table of 2-bit values and rounding up to a power of two. */
module MphBits {
  import opened Arithmetic
  import opened Words
  import opened Bits
  import opened TwoBit

  // ---- dynamic_2bitset ---------------------------------------------------------------------------

  /** set of dynamic_2bitset on one byte: fills the field with ones, then takes v there. */
  function SetByte(b: uint8, k: nat, v: nat): nat
    requires k < 4
  {
    And(Or(b, Xor(255, VALUEMASK[k])), Or(Shl(v, 2 * k), VALUEMASK[k]))
  }

  /** The field's hole in the mask, as ones. */
  lemma Hole(k: nat)
    requires k < 4
    ensures Xor(255, VALUEMASK[k]) == Shl(3, 2 * k)
  {
    hide Xor, Bit, Shl;
    forall i: nat
      ensures Bit(Xor(255, VALUEMASK[k]), i) == Bit(Shl(3, 2 * k), i)
    {
      XorBit(255, VALUEMASK[k], i);
      MaskBits(k, i);
      assert Pow2(4) == 16 && Pow2(8) == 256;
      MaskBit(8, i);
      ShlBit(3, 2 * k, i);
      if i >= 2 * k {
        SmallBit(3, i - 2 * k);
      }
    }
    SameBits(Xor(255, VALUEMASK[k]), Shl(3, 2 * k));
  }

  /** Filling and taking are SETVALUE0 and SETVALUE1 one after the other, so the field becomes v. */
  lemma SetByteFields(b: uint8, k: nat, v: nat)
    requires k < 4 && v <= 3
    ensures SetByte(b, k, v) < 256
    ensures forall j: nat :: j < 4 ==> Field(SetByte(b, k, v), j) == if j == k then v else Field(b, j)
  {
    hide Or, And, Xor, Field, Shl;
    Hole(k);
    SetByte0Bound(b, k, 3);
    var c: uint8 := SetByte0(b, k, 3);
    assert SetByte(b, k, v) == SetByte1(c, k, v);
    SetByte1Bound(c, k, v);
    FieldBits(b, k);
    OrThree(Field(b, k));
    AndSmall(3, v);
    forall j: nat | j < 4
      ensures Field(SetByte(b, k, v), j) == if j == k then v else Field(b, j)
    {
      SetByte0Fields(b, k, 3, j);
      SetByte1Fields(c, k, v, j);
    }
  }

  lemma OrThree(x: nat)
    requires x <= 3
    ensures Or(x, 3) == 3
  {
    OrSmall(x, 3);
  }

  /** dynamic_2bitset */
  class TwoBitSet {
    const size: uint32
    const data: array<uint8>

    ghost predicate Valid() {
      data.Length == (size + 3) / 4
    }

    /** The values held, up to the end of the last byte. */
    ghost function Contents(): (s: seq<nat>)
      reads data
      ensures |s| == 4 * data.Length
    {
      Values(data[..])
    }

    constructor (size: uint32, fill: bool)
      ensures Valid() && fresh(data) && this.size == size
      ensures forall i :: 0 <= i < |Contents()| ==> Contents()[i] == if fill then 3 else 0
    {
      this.size := size;
      data := new uint8[(size + 3) / 4](_ => if fill then 255 else 0);
      new;
      FilledValues(data[..], if fill then 255 else 0);
    }

    /** get */
    function Get(i: nat): (v: nat)
      requires i / 4 < data.Length
      reads data
      ensures v == Contents()[i] <= 3
    {
      ValuesSmall(data[..]);
      GetValue(data[..], i)
    }

    /** set: overwrites, whatever was there. */
    method Set(i: nat, v: nat)
      requires i / 4 < data.Length && v <= 3
      modifies data
      ensures Contents() == old(Contents())[i := v]
    {
      hide Field;
      SetByteFields(data[i / 4], i % 4, v);
      ValuesUpdate(data[..], i, SetByte(data[i / 4], i % 4, v), v);
      ghost var t0 := data[..];
      data[i / 4] := SetByte(data[i / 4], i % 4, v);
      assert data[..] == t0[i / 4 := SetByte(t0[i / 4], i % 4, v)];
    }
  }

  // ---- nextpoweroftwo ----------------------------------------------------------------------------

  ghost predicate IsPower(r: nat) {
    exists e: nat :: r == Pow2(e)
  }

  /** The smallest power of two that is not below k. */
  ghost function NextPower(k: nat): (p: nat)
    ensures p >= 1
  {
    if k <= 1 then 1 else Pow2(Log2(k - 1) + 1)
  }

  lemma NextPowerIsLeast(k: nat)
    ensures IsPower(NextPower(k)) && k <= NextPower(k)
    ensures forall e: nat :: k <= Pow2(e) ==> NextPower(k) <= Pow2(e)
  {
    if k <= 1 {
      assert Pow2(0) == 1;
    } else {
      var n := Log2(k - 1);
      Log2Bounds(k - 1);
      forall e: nat | k <= Pow2(e)
        ensures NextPower(k) <= Pow2(e)
      {
        if e <= n {
          Pow2Monotone(e, n);
        } else {
          Pow2Monotone(n + 1, e);
        }
      }
    }
  }

  /** x has the bits of y, each smeared over the i - 1 places below it. */
  ghost predicate Smeared(y: nat, x: nat, i: nat) {
    forall b: nat :: Bit(x, b) <==> OneWithin(y, b, i)
  }

  ghost predicate OneWithin(y: nat, b: nat, i: nat) {
    exists j: nat :: b <= j < b + i && Bit(y, j)
  }

  lemma SmearedSelf(y: nat)
    ensures Smeared(y, y, 1)
  {
    hide Bit;
    forall b: nat
      ensures Bit(y, b) <==> OneWithin(y, b, 1)
    {
    }
  }

  lemma SmearStep(y: nat, x: nat, i: nat)
    requires Smeared(y, x, i)
    ensures Smeared(y, Or(x, Shr(x, i)), 2 * i)
  {
    hide Bit, Or, Shr;
    forall b: nat
      ensures Bit(Or(x, Shr(x, i)), b) <==> OneWithin(y, b, 2 * i)
    {
      OrBit(x, Shr(x, i), b);
      ShrBit(x, i, b);
      assert Bit(x, b) <==> OneWithin(y, b, i);
      assert Bit(x, b + i) <==> OneWithin(y, b + i, i);
    }
  }

  lemma {:induction false} TopBit(y: nat)
    requires y > 0
    ensures Bit(y, Log2(y))
  {
    if y > 1 {
      TopBit(y / 2);
    }
  }

  /** Smearing a word over 32 places fills everything below its highest bit. */
  lemma SmearedWord(y: uint32, x: nat)
    requires Smeared(y, x, 32)
    ensures x == if y == 0 then 0 else Mask(Log2(y) + 1)
  {
    hide Bit, Mask;
    if y == 0 {
      forall b: nat
        ensures Bit(x, b) == Bit(0, b)
      {
        assert Bit(x, b) <==> OneWithin(y, b, 32);
        if OneWithin(y, b, 32) {
          var j: nat :| b <= j < b + 32 && Bit(y, j);
          ZeroBits(j);
        }
        ZeroBits(b);
      }
      SameBits(x, 0);
    } else {
      var n := Log2(y);
      Log2Bounds(y);
      SmallBits(y, n + 1);
      TopBit(y);
      Pow32();
      Log2Below(y, 32);
      forall b: nat
        ensures Bit(x, b) == Bit(Mask(n + 1), b)
      {
        MaskBit(n + 1, b);
        assert Bit(x, b) <==> OneWithin(y, b, 32);
      }
      SameBits(x, Mask(n + 1));
    }
  }

  /** nextpoweroftwo: rounds up, except that beyond 2^31 the sum wraps to 0. */
  method NextPowerOfTwo(k0: uint32) returns (p: uint32)
    ensures p == if k0 <= Pow2(31) then NextPower(k0) else 0
  {
    hide Smeared, Or, Shr, Mask, Add32, Log2, Pow2;
    if k0 == 0 {
      return 1;
    }
    var k: uint32 := k0 - 1;
    ghost var y := k;
    var i := 1;
    SmearedSelf(y);
    while i < 32
      invariant i in {1, 2, 4, 8, 16, 32} && Smeared(y, k, i)
      decreases 32 - i
    {
      SmearStep(y, k, i);
      ShrShrinks(k, i);
      assert Or(k, Shr(k, i)) < TWO32 by {
        Pow32();
        AndOrBound(k, Shr(k, i), 32);
      }
      k := Or(k, Shr(k, i));
      i := 2 * i;
    }
    SmearedWord(y, k);
    AddOne(k);
    p := Add32(k, 1);
    if y > 0 {
      PowerAbove(y);
    }
    MaskOf(Log2(y) + 1);
  }

  lemma AddOne(k: uint32)
    ensures Add32(k, 1) == if k + 1 < TWO32 then k + 1 else 0
  {
    if k + 1 < TWO32 {
      DivisionUnique(k + 1, TWO32, 0, k + 1);
    } else {
      DivisionUnique(k + 1, TWO32, 1, 0);
    }
  }

  lemma MaskOf(n: nat)
    ensures Mask(n) == Pow2(n) - 1
    ensures 1 <= Pow2(31)
  {
  }

  lemma PowerAbove(y: uint32)
    requires y > 0
    ensures Pow2(Log2(y) + 1) <= TWO32
    ensures Pow2(Log2(y) + 1) < TWO32 <==> y + 1 <= Pow2(31)
  {
    Pow32();
    var n := Log2(y);
    Log2Below(y, 32);
    Pow2Monotone(n + 1, 32);
    if y < Pow2(31) {
      Log2Below(y, 31);
      Pow2Monotone(n + 1, 31);
    } else {
      Log2AtLeast(y, 31);
    }
  }

  lemma Log2AtLeast(y: nat, n: nat)
    requires Pow2(n) <= y
    ensures n <= Log2(y)
  {
    Log2Bounds(y);
    if Log2(y) < n {
      Pow2Monotone(Log2(y) + 1, n);
    }
  }

  // ---- reduction by masking ------------------------------------------------------------------------

  /** h & (r - 1) */
  function Masked(h: nat, r: nat): nat
    requires r > 0
  {
    And(h, r - 1)
  }

  lemma {:induction false} AndSelf(a: nat)
    ensures And(a, a) == a
  {
    if a > 0 {
      AndSelf(a / 2);
    }
  }

  lemma {:induction false} AndLower(r: nat)
    requires r > 0 && Masked(r, r) == 0
    ensures IsPower(r)
    decreases r
  {
    if r == 1 {
      assert Pow2(0) == 1;
    } else if r % 2 == 0 {
      assert (r - 1) / 2 == r / 2 - 1;
      AndLower(r / 2);
      var e: nat :| r / 2 == Pow2(e);
      assert r == Pow2(e + 1);
    } else {
      assert (r - 1) / 2 == r / 2;
      AndSelf(r / 2);
    }
  }

  /** Masking with r - 1 reduces modulo r exactly for the powers of two. */
  lemma MaskingExact(r: nat)
    requires r > 0
    ensures IsPower(r) <==> forall h: nat :: Masked(h, r) == h % r
  {
    if IsPower(r) {
      var e: nat :| r == Pow2(e);
      forall h: nat
        ensures Masked(h, r) == h % r
      {
        AndMask(h, e);
      }
    }
    if forall h: nat :: Masked(h, r) == h % r {
      assert Masked(r, r) == r % r;
      DivisionUnique(r, r, 1, 0);
      AndLower(r);
    }
  }
}
