/** Tables of 2-bit values, four to a byte: GETVALUE, SETVALUE0 and SETVALUE1 of bitbool.h. */
module TwoBit {
  import opened Arithmetic
  import opened Words
  import opened Bits

  const VALUEMASK: seq<uint8> := [0xfc, 0xf3, 0xcf, 0x3f]

  function Field(b: nat, k: nat): nat {
    And(Shr(b, 2 * k), 3)
  }

  /** GETVALUE */
  function GetValue(t: seq<uint8>, i: nat): nat
    requires i / 4 < |t|
  {
    Field(t[i / 4], i % 4)
  }

  function SetByte1(b: uint8, k: nat, v: nat): nat
    requires k < 4
  {
    And(b, Or(Shl(v, 2 * k), VALUEMASK[k]))
  }

  function SetByte0(b: uint8, k: nat, v: nat): nat {
    Or(b, Shl(v, 2 * k))
  }

  // ---- fields of a byte ----------------------------------------------------------------------------

  lemma TwoBits(x: nat)
    ensures And(x, 3) == BitOf(Bit(x, 0)) + 2 * BitOf(Bit(x, 1)) == x % 4
  {
    var h := And(x / 2, 1);
    assert And(x / 4, 0) == 0;
    assert h == BitOf((x / 2) % 2 == 1);
    assert Bit(x, 1) == Bit(x / 2, 0);
  }

  lemma FieldBits(b: nat, k: nat)
    ensures Field(b, k) == BitOf(Bit(b, 2 * k)) + 2 * BitOf(Bit(b, 2 * k + 1)) <= 3
  {
    TwoBits(Shr(b, 2 * k));
    ShrBit(b, 2 * k, 0);
    ShrBit(b, 2 * k, 1);
  }

  lemma SmallBit(v: nat, i: nat)
    requires v <= 3
    ensures Bit(v, i) <==> (i == 0 && v % 2 == 1) || (i == 1 && v >= 2)
  {
    if i >= 2 {
      assert Bit(v, i) == Bit(v / 2 / 2, i - 2);
      ZeroBits(i - 2);
    }
  }

  lemma MaskBits(k: nat, i: nat)
    requires k < 4
    ensures Bit(VALUEMASK[k], i) <==> i < 8 && i / 2 != k
  {
    var full, hole := 255, Shl(3, 2 * k);
    assert Pow2(0) == 1 && Pow2(2) == 4 && Pow2(4) == 16 && Pow2(6) == 64 && Pow2(8) == 256;
    assert VALUEMASK[k] == Pow2(8) - 1 - hole;
    ComplementBit(hole, 8, i);
    ShlBit(3, 2 * k, i);
    if i >= 2 * k {
      SmallBit(3, i - 2 * k);
    }
  }

  lemma SetByte1Bit(b: uint8, k: nat, v: nat, i: nat)
    requires k < 4 && v <= 3
    ensures Bit(SetByte1(b, k, v), i) <==> Bit(b, i) && if i / 2 == k then Bit(v, i % 2) else i < 8
  {
    AndBit(b, Or(Shl(v, 2 * k), VALUEMASK[k]), i);
    OrBit(Shl(v, 2 * k), VALUEMASK[k], i);
    MaskBits(k, i);
    ShlBit(v, 2 * k, i);
    if i >= 2 * k {
      SmallBit(v, i - 2 * k);
    }
  }

  lemma SetByte0Bit(b: uint8, k: nat, v: nat, i: nat)
    requires k < 4 && v <= 3
    ensures Bit(SetByte0(b, k, v), i) <==> Bit(b, i) || (i / 2 == k && Bit(v, i % 2))
  {
    OrBit(b, Shl(v, 2 * k), i);
    ShlBit(v, 2 * k, i);
    if i >= 2 * k {
      SmallBit(v, i - 2 * k);
    }
  }

  lemma ByteBits(b: uint8)
    ensures forall i: nat :: i >= 8 ==> !Bit(b, i)
  {
    assert Pow2(4) == 16 && Pow2(8) == 256;
    SmallBits(b, 8);
  }

  lemma SetByte1Bound(b: uint8, k: nat, v: nat)
    requires k < 4 && v <= 3
    ensures SetByte1(b, k, v) < 256
  {
    hide SetByte1, Bit;
    ByteBits(b);
    forall i: nat | i >= 8
      ensures !Bit(SetByte1(b, k, v), i)
    {
      SetByte1Bit(b, k, v, i);
    }
    assert Pow2(4) == 16 && Pow2(8) == 256;
    NoHighBits(SetByte1(b, k, v), 8);
  }

  /** SETVALUE1 combines the k-th field with v by & and leaves the others alone. */
  lemma SetByte1Fields(b: uint8, k: nat, v: nat, j: nat)
    requires k < 4 && v <= 3 && j < 4
    ensures Field(SetByte1(b, k, v), j) == if j == k then And(Field(b, k), v) else Field(b, j)
  {
    hide SetByte1, Bit;
    var c := SetByte1(b, k, v);
    FieldBits(c, j);
    FieldBits(b, j);
    SetByte1Bit(b, k, v, 2 * j);
    SetByte1Bit(b, k, v, 2 * j + 1);
    SmallBit(v, 0);
    SmallBit(v, 1);
    FieldBits(b, k);
    AndSmall(Field(b, k), v);
  }

  lemma SetByte0Bound(b: uint8, k: nat, v: nat)
    requires k < 4 && v <= 3
    ensures SetByte0(b, k, v) < 256
  {
    hide SetByte0, Bit;
    ByteBits(b);
    forall i: nat | i >= 8
      ensures !Bit(SetByte0(b, k, v), i)
    {
      SetByte0Bit(b, k, v, i);
    }
    assert Pow2(4) == 16 && Pow2(8) == 256;
    NoHighBits(SetByte0(b, k, v), 8);
  }

  /** SETVALUE0 combines the k-th field with v by | and leaves the others alone. */
  lemma SetByte0Fields(b: uint8, k: nat, v: nat, j: nat)
    requires k < 4 && v <= 3 && j < 4
    ensures Field(SetByte0(b, k, v), j) == if j == k then Or(Field(b, k), v) else Field(b, j)
  {
    hide SetByte0, Bit;
    var c := SetByte0(b, k, v);
    FieldBits(c, j);
    FieldBits(b, j);
    SetByte0Bit(b, k, v, 2 * j);
    SetByte0Bit(b, k, v, 2 * j + 1);
    SmallBit(v, 0);
    SmallBit(v, 1);
    FieldBits(b, k);
    OrSmall(Field(b, k), v);
  }

  lemma AndSmall(x: nat, v: nat)
    requires x <= 3 && v <= 3
    ensures And(x, v) == BitOf(x % 2 == 1 && v % 2 == 1) + 2 * BitOf(x >= 2 && v >= 2)
    ensures x == 3 ==> And(x, v) == v
    ensures v == 3 ==> And(x, v) == x
  {
    assert And(x / 2, v / 2) == BitOf(x >= 2 && v >= 2) by {
      assert And(0, 0) == 0;
    }
  }

  lemma OrSmall(x: nat, v: nat)
    requires x <= 3 && v <= 3
    ensures Or(x, v) == BitOf(x % 2 == 1 || v % 2 == 1) + 2 * BitOf(x >= 2 || v >= 2)
    ensures x == 0 ==> Or(x, v) == v
  {
    assert Or(x / 2, v / 2) == BitOf(x >= 2 || v >= 2) by {
      assert Or(0, 0) == 0;
    }
  }

  // ---- tables ----------------------------------------------------------------------------------

  /** The values a table holds. */
  ghost function Values(t: seq<uint8>): (s: seq<nat>)
    ensures |s| == 4 * |t|
  {
    seq(4 * |t|, i requires 0 <= i < 4 * |t| => GetValue(t, i))
  }

  lemma ValuesSmall(t: seq<uint8>)
    ensures forall i :: 0 <= i < 4 * |t| ==> Values(t)[i] <= 3
  {
    forall i | 0 <= i < 4 * |t|
      ensures Values(t)[i] <= 3
    {
      FieldBits(t[i / 4], i % 4);
    }
  }

  lemma ValuesUpdate(t: seq<uint8>, i: nat, c: uint8, w: nat)
    requires i / 4 < |t|
    requires forall j: nat :: j < 4 ==> Field(c, j) == if j == i % 4 then w else Field(t[i / 4], j)
    ensures Values(t[i / 4 := c]) == Values(t)[i := w]
  {
    hide Field;
    var t' := t[i / 4 := c];
    forall j | 0 <= j < 4 * |t|
      ensures Values(t')[j] == if j == i then w else Values(t)[j]
    {
      assert Field(c, j % 4) == if j % 4 == i % 4 then w else Field(t[i / 4], j % 4);
    }
  }

  /** SETVALUE1: a value that was 3 becomes v, and storing 3 changes nothing. */
  method SetValue1(t: array<uint8>, i: nat, v: nat)
    requires i / 4 < t.Length && v <= 3
    modifies t
    ensures Values(t[..]) == old(Values(t[..]))[i := And(old(Values(t[..]))[i], v)]
  {
    forall j: nat | j < 4
      ensures Field(SetByte1(t[i / 4], i % 4, v), j) ==
        if j == i % 4 then And(Field(t[i / 4], i % 4), v) else Field(t[i / 4], j)
    {
      SetByte1Fields(t[i / 4], i % 4, v, j);
    }
    assert SetByte1(t[i / 4], i % 4, v) < 256 by { SetByte1Bound(t[i / 4], i % 4, v); }
    ValuesUpdate(t[..], i, SetByte1(t[i / 4], i % 4, v), And(GetValue(t[..], i), v));
    ghost var t0 := t[..];
    t[i / 4] := SetByte1(t[i / 4], i % 4, v);
    assert t[..] == t0[i / 4 := SetByte1(t0[i / 4], i % 4, v)];
  }

  /** SETVALUE0: a value that was 0 becomes v. */
  method SetValue0(t: array<uint8>, i: nat, v: nat)
    requires i / 4 < t.Length && v <= 3
    modifies t
    ensures Values(t[..]) == old(Values(t[..]))[i := Or(old(Values(t[..]))[i], v)]
  {
    forall j: nat | j < 4
      ensures Field(SetByte0(t[i / 4], i % 4, v), j) ==
        if j == i % 4 then Or(Field(t[i / 4], i % 4), v) else Field(t[i / 4], j)
    {
      SetByte0Fields(t[i / 4], i % 4, v, j);
    }
    assert SetByte0(t[i / 4], i % 4, v) < 256 by { SetByte0Bound(t[i / 4], i % 4, v); }
    ValuesUpdate(t[..], i, SetByte0(t[i / 4], i % 4, v), Or(GetValue(t[..], i), v));
    ghost var t0 := t[..];
    t[i / 4] := SetByte0(t[i / 4], i % 4, v);
    assert t[..] == t0[i / 4 := SetByte0(t0[i / 4], i % 4, v)];
  }

  /** memset: every value of a table of equal bytes 0xff or 0. */
  lemma FilledValues(t: seq<uint8>, b: uint8)
    requires b == 0 || b == 255
    requires forall i :: 0 <= i < |t| ==> t[i] == b
    ensures forall i :: 0 <= i < 4 * |t| ==> Values(t)[i] == if b == 0 then 0 else 3
  {
    forall i | 0 <= i < 4 * |t|
      ensures Values(t)[i] == if b == 0 then 0 else 3
    {
      FieldBits(b, i % 4);
      ZeroBits(2 * (i % 4));
      ZeroBits(2 * (i % 4) + 1);
      assert Pow2(8) == 256;
      MaskBit(8, 2 * (i % 4));
      MaskBit(8, 2 * (i % 4) + 1);
    }
  }
}
