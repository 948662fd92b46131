/** Bit strings of up to 31 bits stored across 32-bit words: the readers and writers of bitbool.h. */
module BitTable {
  import opened Arithmetic
  import opened Words
  import opened Bits

  /** Bit p of a table of words; there is none behind its end. */
  ghost predicate TBit(t: seq<uint32>, p: nat) {
    p / 32 < |t| && Bit(t[p / 32], p % 32)
  }

  /** BITS_TABLE_SIZE */
  function TableSize(n: nat, len: nat): nat {
    (n * len + 31) / 32
  }

  /** get_bits_at_pos */
  function GetBits(t: seq<uint32>, pos: nat, len: nat): nat
    requires pos < 32 * |t| && pos + len <= 32 * |t| && len < 32
  {
    var shift1 := pos % 32;
    var shift2 := 32 - shift1;
    var low := And(Shr(t[pos / 32], shift1), Mask(len));
    if shift2 < len then Or(low, And(Shl32(t[pos / 32 + 1], shift2), Mask(len))) else low
  }

  /** get_bits_value */
  function GetValue(t: seq<uint32>, index: nat, len: nat): nat
    requires 0 < len < 32 && index * len + len <= 32 * |t|
  {
    GetBits(t, index * len, len)
  }

  lemma WordBits(w: uint32, i: nat)
    requires i >= 32
    ensures !Bit(w, i)
  {
    Pow32();
    SmallBits(w, 32);
  }

  lemma PosPlus(pos: nat, i: nat)
    requires i < 32
    ensures pos % 32 + i < 32 ==> (pos + i) / 32 == pos / 32 && (pos + i) % 32 == pos % 32 + i
    ensures pos % 32 + i >= 32 ==> (pos + i) / 32 == pos / 32 + 1 && (pos + i) % 32 == pos % 32 + i - 32
  {
  }

  /** The bits of the string that get_bits_at_pos reads. */
  lemma GetBitsBit(t: seq<uint32>, pos: nat, len: nat, i: nat)
    requires pos < 32 * |t| && pos + len <= 32 * |t| && len < 32
    ensures Bit(GetBits(t, pos, len), i) <==> i < len && TBit(t, pos + i)
  {
    hide Bit, And, Or, Shr, Shl32;
    var shift1, shift2 := pos % 32, 32 - pos % 32;
    var low := And(Shr(t[pos / 32], shift1), Mask(len));
    AndBit(Shr(t[pos / 32], shift1), Mask(len), i);
    ShrBit(t[pos / 32], shift1, i);
    MaskBit(len, i);
    if i < len {
      PosPlus(pos, i);
    }
    if i + shift1 >= 32 {
      WordBits(t[pos / 32], i + shift1);
    }
    if shift2 < len {
      var high := And(Shl32(t[pos / 32 + 1], shift2), Mask(len));
      OrBit(low, high, i);
      AndBit(Shl32(t[pos / 32 + 1], shift2), Mask(len), i);
      Shl32Bit(t[pos / 32 + 1], shift2, i);
    }
  }

  ghost predicate AgreeAt(t: seq<uint32>, pos: nat, t': seq<uint32>, pos': nat, i: nat) {
    TBit(t, pos + i) == TBit(t', pos' + i)
  }

  /** Two strings of equal bits are equal. */
  lemma GetBitsSame(t: seq<uint32>, pos: nat, t': seq<uint32>, pos': nat, len: nat)
    requires pos < 32 * |t| && pos + len <= 32 * |t| && len < 32
    requires pos' < 32 * |t'| && pos' + len <= 32 * |t'|
    requires forall i: nat :: i < len ==> AgreeAt(t, pos, t', pos', i)
    ensures GetBits(t, pos, len) == GetBits(t', pos', len)
  {
    hide GetBits, TBit;
    forall i: nat
      ensures Bit(GetBits(t, pos, len), i) == Bit(GetBits(t', pos', len), i)
    {
      GetBitsBit(t, pos, len, i);
      GetBitsBit(t', pos', len, i);
      assert i < len ==> AgreeAt(t, pos, t', pos', i);
    }
    SameBits(GetBits(t, pos, len), GetBits(t', pos', len));
  }

  // ---- writing --------------------------------------------------------------------------------------

  /** t' is t with the len bits of v written at pos. */
  ghost predicate Wrote(t: seq<uint32>, t': seq<uint32>, pos: nat, v: nat, len: nat) {
    |t'| == |t| && forall p: nat :: TBit(t', p) == if pos <= p < pos + len then Bit(v, p - pos) else TBit(t, p)
  }

  /** The bits before position pos are the same. */
  ghost predicate SameBefore(t: seq<uint32>, t': seq<uint32>, pos: nat) {
    |t'| == |t| && forall p: nat :: p < pos ==> TBit(t', p) == TBit(t, p)
  }

  /** The word that holds the first part of a string. */
  function FirstWord(w: uint32, shift: nat, v: uint32, len: nat): nat
    requires len < 32
  {
    Or(And(w, Not32(Shl32(LowMask(len), shift))), Shl32(v, shift))
  }

  /** The word that holds the rest, when the string crosses a word boundary. */
  function NextWord(w: uint32, shift: nat, v: uint32, len: nat): nat
    requires len < 32
  {
    Or(And(w, Not32(Shr32(LowMask(len), shift))), Shr(v, shift))
  }

  function LowMask(len: nat): (m: uint32)
    requires len < 32
  {
    MaskWord(len);
    Mask(len)
  }

  lemma MaskWord(len: nat)
    requires len < 32
    ensures Mask(len) < TWO32
  {
    Pow32();
    forall i: nat | i >= 32
      ensures !Bit(Mask(len), i)
    {
      MaskBit(len, i);
    }
    NoHighBits(Mask(len), 32);
  }

  lemma FirstWordBit(w: uint32, shift: nat, v: uint32, len: nat, i: nat)
    requires len < 32 && shift < 32 && v < Pow2(len)
    ensures FirstWord(w, shift, v, len) < TWO32
    ensures i < 32 ==> (Bit(FirstWord(w, shift, v, len), i) <==>
      if shift <= i < shift + len then Bit(v, i - shift) else Bit(w, i))
  {
    hide Bit, And, Or, Shl32, Not32;
    var m := Shl32(LowMask(len), shift);
    var a := And(w, Not32(m));
    Pow32();
    AndOrBound(w, Not32(m), 32);
    AndOrBound(a, Shl32(v, shift), 32);
    OrBit(a, Shl32(v, shift), i);
    AndBit(w, Not32(m), i);
    Not32Bit(m, i);
    Shl32Bit(LowMask(len), shift, i);
    Shl32Bit(v, shift, i);
    SmallBits(v, len);
    if i >= shift {
      MaskBit(len, i - shift);
    }
  }

  /** Whatever is written, the bits below the shift stay. */
  lemma FirstWordBelow(w: uint32, shift: nat, v: uint32, len: nat, i: nat)
    requires len < 32 && shift < 32
    ensures FirstWord(w, shift, v, len) < TWO32
    ensures i < shift ==> (Bit(FirstWord(w, shift, v, len), i) <==> Bit(w, i))
  {
    hide Bit, And, Or, Shl32, Not32;
    var m := Shl32(LowMask(len), shift);
    var a := And(w, Not32(m));
    Pow32();
    AndOrBound(w, Not32(m), 32);
    AndOrBound(a, Shl32(v, shift), 32);
    OrBit(a, Shl32(v, shift), i);
    AndBit(w, Not32(m), i);
    Not32Bit(m, i);
    Shl32Bit(LowMask(len), shift, i);
    Shl32Bit(v, shift, i);
  }

  lemma NextWordBit(w: uint32, shift: nat, v: uint32, len: nat, i: nat)
    requires len < 32 && shift <= len && v < Pow2(len)
    ensures NextWord(w, shift, v, len) < TWO32
    ensures Bit(NextWord(w, shift, v, len), i) <==> if i < len - shift then Bit(v, i + shift) else Bit(w, i)
  {
    hide Bit, And, Or, Shl32, Not32, Shr;
    var m := Shr32(LowMask(len), shift);
    var a := And(w, Not32(m));
    Pow32();
    AndOrBound(w, Not32(m), 32);
    ShrShrinks(v, shift);
    AndOrBound(a, Shr(v, shift), 32);
    OrBit(a, Shr(v, shift), i);
    AndBit(w, Not32(m), i);
    Not32Bit(m, i);
    ShrBit(LowMask(len), shift, i);
    ShrBit(v, shift, i);
    SmallBits(v, len);
    MaskBit(len, i + shift);
    if i >= 32 {
      WordBits(w, i);
    }
  }

  lemma WroteWords(t: seq<uint32>, t': seq<uint32>, pos: nat, v: uint32, len: nat)
    requires pos < 32 * |t| && pos + len <= 32 * |t| && len < 32 && v < Pow2(len) && |t'| == |t|
    requires forall i :: 0 <= i < |t| && i != pos / 32 && i != pos / 32 + 1 ==> t'[i] == t[i]
    requires t'[pos / 32] == FirstWord(t[pos / 32], pos % 32, v, len)
    requires pos / 32 + 1 < |t| && 32 - pos % 32 < len ==>
      t'[pos / 32 + 1] == NextWord(t[pos / 32 + 1], 32 - pos % 32, v, len)
    requires pos / 32 + 1 < |t| && 32 - pos % 32 >= len ==> t'[pos / 32 + 1] == t[pos / 32 + 1]
    ensures Wrote(t, t', pos, v, len)
  {
    hide FirstWord, NextWord, Bit;
    forall p: nat
      ensures TBit(t', p) == if pos <= p < pos + len then Bit(v, p - pos) else TBit(t, p)
    {
      var w := pos / 32;
      if p / 32 == w {
        FirstWordBit(t[w], pos % 32, v, len, p % 32);
      } else if p / 32 == w + 1 && w + 1 < |t| && 32 - pos % 32 < len {
        NextWordBit(t[w + 1], 32 - pos % 32, v, len, p % 32);
      }
    }
  }

  lemma NoWords(t: seq<uint32>, t': seq<uint32>, pos: nat, v: uint32)
    requires pos < 32 * |t| == 32 * |t'| && t'[pos / 32] == FirstWord(t[pos / 32], pos % 32, v, 0)
    requires forall i :: 0 <= i < |t| && i != pos / 32 ==> t'[i] == t[i]
    ensures SameBefore(t, t', pos)
  {
    hide FirstWord, Bit;
    forall p: nat | p < pos
      ensures TBit(t', p) == TBit(t, p)
    {
      if p / 32 == pos / 32 {
        FirstWordBelow(t[pos / 32], pos % 32, v, 0, p % 32);
      }
    }
  }

  /** set_bits_at_pos; a string of length 0 may carry a value, which then spoils the bits from pos on. */
  method SetBits(t: array<uint32>, pos: nat, v: uint32, len: nat)
    requires pos < 32 * t.Length && pos + len <= 32 * t.Length && len < 32 && (v < Pow2(len) || len == 0)
    modifies t
    ensures v < Pow2(len) ==> Wrote(old(t[..]), t[..], pos, v, len)
    ensures SameBefore(old(t[..]), t[..], pos)
  {
    hide And, Or, Shl32, Not32, Shr, Wrote;
    var wordIdx := pos / 32;
    var shift1 := pos % 32;
    var shift2 := 32 - shift1;
    ghost var t0 := t[..];
    FirstWordBelow(t[wordIdx], shift1, v, len, 0);
    AndWord(t[wordIdx], Not32(Shl32(LowMask(len), shift1)));
    t[wordIdx] := And(t[wordIdx], Not32(Shl32(LowMask(len), shift1)));
    t[wordIdx] := Or(t[wordIdx], Shl32(v, shift1));
    if shift2 < len {
      NextWordBit(t[wordIdx + 1], shift2, v, len, 0);
      AndWord(t[wordIdx + 1], Not32(Shr32(LowMask(len), shift2)));
      t[wordIdx + 1] := And(t[wordIdx + 1], Not32(Shr32(LowMask(len), shift2)));
      t[wordIdx + 1] := Or(t[wordIdx + 1], Shr(v, shift2));
    }
    if v < Pow2(len) {
      WroteWords(t0, t[..], pos, v, len);
      WroteBehind(t0, t[..], pos, v, len);
    } else {
      NoWords(t0, t[..], pos, v);
    }
  }

  lemma WroteBehind(t: seq<uint32>, t': seq<uint32>, pos: nat, v: nat, len: nat)
    requires Wrote(t, t', pos, v, len)
    ensures SameBefore(t, t', pos)
  {
  }

  lemma AndWord(a: uint32, b: uint32)
    ensures And(a, b) < TWO32
  {
    Pow32();
    AndOrBound(a, b, 32);
  }

  /** set_bits_value */
  method SetValue(t: array<uint32>, index: nat, v: uint32, len: nat)
    requires 0 < len < 32 && index * len + len <= 32 * t.Length && v < Pow2(len)
    modifies t
    ensures Wrote(old(t[..]), t[..], index * len, v, len)
  {
    SetBits(t, index * len, v, len);
  }

  // ---- reading back -----------------------------------------------------------------------------------

  /** What was written is read back. */
  lemma ReadBack(t: seq<uint32>, t': seq<uint32>, pos: nat, v: nat, len: nat)
    requires Wrote(t, t', pos, v, len) && pos < 32 * |t| && pos + len <= 32 * |t| && len < 32 && v < Pow2(len)
    ensures GetBits(t', pos, len) == v
  {
    hide GetBits, TBit;
    SmallBits(v, len);
    forall i: nat
      ensures Bit(GetBits(t', pos, len), i) == Bit(v, i)
    {
      GetBitsBit(t', pos, len, i);
      assert i < len ==> TBit(t', pos + i) == Bit(v, pos + i - pos);
    }
    SameBits(GetBits(t', pos, len), v);
  }

  /** A string elsewhere in the table is not disturbed. */
  lemma ReadElsewhere(t: seq<uint32>, t': seq<uint32>, pos: nat, v: nat, len: nat, pos2: nat, len2: nat)
    requires Wrote(t, t', pos, v, len) && (pos2 + len2 <= pos || pos + len <= pos2)
    requires pos2 < 32 * |t| && pos2 + len2 <= 32 * |t| && len2 < 32
    ensures GetBits(t', pos2, len2) == GetBits(t, pos2, len2)
  {
    hide GetBits, TBit;
    GetBitsSame(t', pos2, t, pos2, len2);
  }

  lemma TableFits(n: nat, len: nat, i: nat)
    requires i < n && 0 < len
    ensures i * len + len <= n * len <= 32 * TableSize(n, len)
    ensures i * len < 32 * TableSize(n, len)
  {
    assert (i + 1) * len <= n * len;
  }

  lemma Apart(i: nat, j: nat, len: nat)
    requires i < j
    ensures i * len + len <= j * len
  {
    assert (i + 1) * len <= j * len;
  }
}
