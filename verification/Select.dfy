/** select.c: a bit vector with a table of every 128th one, for finding the k-th one bit. */
module Select {
  import opened Arithmetic
  import opened Words
  import opened Bits
  import opened BitTable

  const STEP := 128

  // ---- bytes ---------------------------------------------------------------------------------------

  /** Byte i of the words of bits_vec, seen as a cmph_uint8 array on a little-endian machine. */
  function ByteAt(t: seq<uint32>, i: nat): uint8
    requires i / 4 < |t|
  {
    Shr(t[i / 4], 8 * (i % 4)) % 256
  }

  /** rank_lookup_table: the number of ones in a byte. */
  function Ones(b: nat): nat {
    if b == 0 then 0 else b % 2 + Ones(b / 2)
  }

  /** select_lookup_table: the position of the i-th one of a byte. */
  function NthOne(b: nat, i: nat): nat
    requires i < Ones(b)
  {
    if b % 2 == 1 && i == 0 then 0 else 1 + NthOne(b / 2, i - b % 2)
  }

  /** The number of ones among the lowest n bits. */
  ghost function LowOnes(a: nat, n: nat): nat {
    if n == 0 then 0 else LowOnes(a, n - 1) + BitOf(Bit(a, n - 1))
  }

  lemma {:induction false} LowOnesHalf(a: nat, n: nat)
    requires n > 0
    ensures LowOnes(a, n) == a % 2 + LowOnes(a / 2, n - 1)
  {
    if n > 1 {
      LowOnesHalf(a, n - 1);
    }
  }

  lemma {:induction false} OnesAreLow(a: nat, n: nat)
    requires a < Pow2(n)
    ensures Ones(a) == LowOnes(a, n)
    decreases n
  {
    if n > 0 {
      LowOnesHalf(a, n);
      OnesAreLow(a / 2, n - 1);
      if a == 0 {
        assert Ones(0) == 0 && LowOnes(0, n - 1) == Ones(0);
      }
    }
  }

  lemma {:induction false} LowOnesSame(a: nat, b: nat, n: nat)
    requires forall i :: 0 <= i < n ==> Bit(a, i) == Bit(b, i)
    ensures LowOnes(a, n) == LowOnes(b, n)
  {
    if n > 0 {
      LowOnesSame(a, b, n - 1);
    }
  }

  lemma {:induction false} LowOnesZero(a: nat, m: nat, n: nat)
    requires m <= n && forall i :: m <= i < n ==> !Bit(a, i)
    ensures LowOnes(a, n) == LowOnes(a, m)
  {
    if m < n {
      LowOnesZero(a, m, n - 1);
    }
  }

  /** Masking a byte counts the ones below a position. */
  lemma MaskedOnes(b: uint8, j: nat)
    requires j < 8
    ensures Ones(And(b, Mask(j))) == LowOnes(b, j)
  {
    var a := And(b, Mask(j));
    forall i: nat
      ensures Bit(a, i) <==> i < j && Bit(b, i)
    {
      AndBit(b, Mask(j), i);
      MaskBit(j, i);
    }
    NoHighBits(a, j);
    OnesAreLow(a, j);
    LowOnesSame(a, b, j);
  }

  lemma {:induction false} NthOneIs(b: nat, i: nat)
    requires i < Ones(b)
    ensures Bit(b, NthOne(b, i)) && LowOnes(b, NthOne(b, i)) == i
    decreases b
  {
    if !(b % 2 == 1 && i == 0) {
      NthOneIs(b / 2, i - b % 2);
      LowOnesHalf(b, NthOne(b, i));
    }
  }

  // ---- ranks over the vector --------------------------------------------------------------------------

  /** The number of ones before position p. */
  ghost function Rank1(t: seq<uint32>, p: nat): nat {
    if p == 0 then 0 else Rank1(t, p - 1) + BitOf(TBit(t, p - 1))
  }

  /** Position p holds the k-th one. */
  ghost predicate IsOne(t: seq<uint32>, k: nat, p: nat) {
    TBit(t, p) && Rank1(t, p) == k
  }

  lemma {:induction false} RankGrows(t: seq<uint32>, p: nat, q: nat)
    requires p <= q
    ensures Rank1(t, p) <= Rank1(t, q) <= Rank1(t, p) + (q - p)
  {
    if p < q {
      RankGrows(t, p, q - 1);
    }
  }

  /** There is only one k-th one. */
  lemma OneUnique(t: seq<uint32>, k: nat, p: nat, q: nat)
    requires IsOne(t, k, p) && IsOne(t, k, q)
    ensures p == q
  {
    if p < q {
      RankGrows(t, p + 1, q);
    } else if q < p {
      RankGrows(t, q + 1, p);
    }
  }

  lemma ByteBit(t: seq<uint32>, i: nat, j: nat)
    requires i / 4 < |t| && j < 8
    ensures Bit(ByteAt(t, i), j) == TBit(t, 8 * i + j)
  {
    assert Pow2(4) == 16 && Pow2(8) == 256;
    LowBit(Shr(t[i / 4], 8 * (i % 4)), 8, j);
    ShrBit(t[i / 4], 8 * (i % 4), j);
    assert (8 * i + j) / 32 == i / 4 && (8 * i + j) % 32 == 8 * (i % 4) + j;
  }

  lemma {:induction false} ByteRank(t: seq<uint32>, i: nat, j: nat)
    requires i / 4 < |t| && j <= 8
    ensures Rank1(t, 8 * i + j) == Rank1(t, 8 * i) + LowOnes(ByteAt(t, i), j)
    decreases j
  {
    hide ByteAt, TBit, Bit;
    if j > 0 {
      ByteRank(t, i, j - 1);
      ByteBit(t, i, j - 1);
      assert 8 * i + j - 1 == 8 * i + (j - 1);
    }
  }

  lemma ByteOnes(t: seq<uint32>, i: nat)
    requires i / 4 < |t|
    ensures Rank1(t, 8 * (i + 1)) == Rank1(t, 8 * i) + Ones(ByteAt(t, i))
    ensures Ones(ByteAt(t, i)) <= 8
  {
    ByteRank(t, i, 8);
    assert Pow2(4) == 16 && Pow2(8) == 256;
    OnesAreLow(ByteAt(t, i), 8);
    RankGrows(t, 8 * i, 8 * (i + 1));
  }

  /** The k-th one lies in byte i when the ranks around the byte say so. */
  lemma OneInByte(t: seq<uint32>, i: nat, k: nat)
    requires i / 4 < |t| && Rank1(t, 8 * i) <= k < Rank1(t, 8 * (i + 1))
    ensures k - Rank1(t, 8 * i) < Ones(ByteAt(t, i))
    ensures IsOne(t, k, NthOne(ByteAt(t, i), k - Rank1(t, 8 * i)) + 8 * i)
  {
    hide ByteAt, TBit, Bit, Rank1;
    ByteOnes(t, i);
    var b, d := ByteAt(t, i), k - Rank1(t, 8 * i);
    NthOneIs(b, d);
    var j := NthOne(b, d);
    assert j < 8 by { ByteEnds(b, j); }
    ByteBit(t, i, j);
    ByteRank(t, i, j);
    assert 8 * i + j == j + 8 * i;
  }

  lemma ByteEnds(b: uint8, j: nat)
    requires Bit(b, j)
    ensures j < 8
  {
    assert Pow2(4) == 16 && Pow2(8) == 256;
    SmallBits(b, 8);
  }

  // ---- queries -------------------------------------------------------------------------------------------

  /** The do-while loop of the queries: finds the byte with the k-th one, from byte first on. */
  method FindByte(t: seq<uint32>, first: nat, oneIdx: nat, ghost k: nat) returns (byteIdx: nat, oldPartSum: nat)
    requires Rank1(t, 8 * first) <= k < Rank1(t, 32 * |t|) && oneIdx == k - Rank1(t, 8 * first)
    ensures byteIdx / 4 < |t| && Rank1(t, 8 * byteIdx) <= k < Rank1(t, 8 * (byteIdx + 1))
    ensures oldPartSum == Rank1(t, 8 * byteIdx) - Rank1(t, 8 * first)
  {
    hide ByteAt, Ones, Rank1;
    byteIdx := first;
    oldPartSum := 0;
    BeforeEnd(t, byteIdx, k);
    ByteOnes(t, byteIdx);
    var partSum: nat := Ones(ByteAt(t, byteIdx));
    while partSum <= oneIdx
      invariant byteIdx / 4 < |t| && Rank1(t, 8 * byteIdx) <= k
      invariant oldPartSum == Rank1(t, 8 * byteIdx) - Rank1(t, 8 * first)
      invariant partSum == Rank1(t, 8 * (byteIdx + 1)) - Rank1(t, 8 * first)
      decreases 4 * |t| - byteIdx
    {
      oldPartSum := partSum;
      byteIdx := byteIdx + 1;
      BeforeEnd(t, byteIdx, k);
      ByteOnes(t, byteIdx);
      partSum := partSum + Ones(ByteAt(t, byteIdx));
    }
  }

  lemma BeforeEnd(t: seq<uint32>, i: nat, k: nat)
    requires Rank1(t, 8 * i) <= k < Rank1(t, 32 * |t|)
    ensures i / 4 < |t|
  {
    if i >= 4 * |t| {
      RankGrows(t, 32 * |t|, 8 * i);
    }
  }

  /** select_table[i] is where the one number 128 * i lies. */
  ghost predicate SelectTable(t: seq<uint32>, table: seq<uint32>, n: nat) {
    && n <= Rank1(t, 32 * |t|) && |table| == n / STEP + 1
    && forall i :: 0 <= i < |table| && i * STEP < n ==> IsOne(t, i * STEP, table[i])
  }

  /** The ones of the first byte that lie before a known one. */
  lemma OnesBefore(t: seq<uint32>, p: nat)
    requires TBit(t, p)
    ensures p / 8 / 4 < |t|
    ensures Rank1(t, p) == Rank1(t, 8 * (p / 8)) + Ones(And(ByteAt(t, p / 8), Mask(p % 8)))
  {
    hide ByteAt, Ones, Rank1, And, Mask, LowOnes, Bit;
    var i, j := p / 8, p % 8;
    ByteOfBit(t, p, i, j);
    MaskedOnes(ByteAt(t, i), j);
    ByteRank(t, i, j);
  }

  lemma ByteOfBit(t: seq<uint32>, p: nat, i: nat, j: nat)
    requires TBit(t, p) && i == p / 8 && j == p % 8
    ensures p == 8 * i + j && j < 8 && i / 4 < |t|
  {
    DivisionUnique(p, 32, i / 4, 8 * (i % 4) + j);
  }

  /** _select_query */
  method Query(t: seq<uint32>, table: seq<uint32>, oneIdx: uint32, ghost n: nat) returns (p: nat)
    requires SelectTable(t, table, n) && oneIdx < n
    ensures IsOne(t, oneIdx, p)
  {
    hide ByteAt, Ones, Rank1, And, Mask, TBit, NthOne;
    var vecBitIdx: uint32 := table[oneIdx / STEP];
    assert IsOne(t, oneIdx / STEP * STEP, vecBitIdx);
    OnesBefore(t, vecBitIdx);
    var i := oneIdx % STEP;
    i := i + Ones(And(ByteAt(t, vecBitIdx / 8), Mask(vecBitIdx % 8)));
    var byteIdx, oldPartSum := FindByte(t, vecBitIdx / 8, i, oneIdx);
    OneInByte(t, byteIdx, oneIdx);
    p := NthOne(ByteAt(t, byteIdx), i - oldPartSum) + 8 * byteIdx;
  }

  /** _select_next_query: from the k-th one to the next. */
  method NextQuery(t: seq<uint32>, vecBitIdx: nat, ghost k: nat) returns (p: nat)
    requires IsOne(t, k, vecBitIdx) && k + 1 < Rank1(t, 32 * |t|)
    ensures IsOne(t, k + 1, p)
  {
    hide ByteAt, Ones, Rank1, And, Mask, TBit, NthOne;
    OnesBefore(t, vecBitIdx);
    var i := Ones(And(ByteAt(t, vecBitIdx / 8), Mask(vecBitIdx % 8))) + 1;
    var byteIdx, oldPartSum := FindByte(t, vecBitIdx / 8, i, k + 1);
    OneInByte(t, byteIdx, k + 1);
    p := NthOne(ByteAt(t, byteIdx), i - oldPartSum) + 8 * byteIdx;
  }

  // ---- the table of every 128th one ----------------------------------------------------------------------

  /** select_generate_sel_table */
  method GenerateTable(t: seq<uint32>, n: uint32) returns (table: array<uint32>)
    requires n <= Rank1(t, 32 * |t|) && 32 * |t| < TWO32
    ensures fresh(table) && SelectTable(t, table[..], n)
  {
    hide ByteAt, Ones, Rank1, NthOne, IsOne;
    table := new uint32[n / STEP + 1](_ => 0);
    var partSum: nat, vecIdx: nat, oneIdx: nat, tableIdx: nat := 0, 0, 0, 0;
    assert Rank1(t, 0) == 0 by { RankNone(t); }
    while oneIdx < n
      invariant oneIdx == tableIdx * STEP && tableIdx <= n / STEP + 1
      invariant partSum == Rank1(t, 8 * vecIdx) <= oneIdx
      invariant forall i :: 0 <= i < tableIdx && i < table.Length ==> IsOne(t, i * STEP, table[i])
    {
      var byteIdx, oldPartSum := FindByte(t, vecIdx, oneIdx - partSum, oneIdx);
      OneInByte(t, byteIdx, oneIdx);
      ByteOnes(t, byteIdx);
      var p := NthOne(ByteAt(t, byteIdx), oneIdx - partSum - oldPartSum) + 8 * byteIdx;
      OneInside(t, oneIdx, p);
      table[tableIdx] := p;
      partSum := partSum + oldPartSum + Ones(ByteAt(t, byteIdx));
      vecIdx := byteIdx + 1;
      oneIdx := oneIdx + STEP;
      tableIdx := tableIdx + 1;
    }
  }

  lemma RankNone(t: seq<uint32>)
    ensures Rank1(t, 0) == 0
  {
  }

  lemma OneInside(t: seq<uint32>, k: nat, p: nat)
    requires IsOne(t, k, p)
    ensures p < 32 * |t|
  {
  }

  // ---- building the vector ------------------------------------------------------------------------------

  ghost predicate Sorted(keys: seq<nat>) {
    forall i, j :: 0 <= i < j < |keys| ==> keys[i] <= keys[j]
  }

  /** Key k is preceded by k ones and keys[k] zeros. */
  ghost function OnePos(keys: seq<nat>, k: nat): nat
    requires k < |keys|
  {
    keys[k] + k
  }

  /** One of the first j keys has its one at position p. */
  ghost predicate KeyAt(keys: seq<nat>, j: nat, p: nat) {
    exists k :: 0 <= k < j && k < |keys| && OnePos(keys, k) == p
  }

  /** The top bits of the buffer are the last idx % 32 bits, the words before hold all earlier ones. */
  ghost predicate Building(t: seq<uint32>, buffer: uint32, keys: seq<nat>, j: nat, idx: nat) {
    && idx <= 32 * |t|
    && (forall p: nat :: p < idx - idx % 32 ==> (TBit(t, p) <==> KeyAt(keys, j, p)))
    && (forall p: nat :: idx - idx % 32 <= p ==> !TBit(t, p))
    && forall i: nat :: 32 - idx % 32 <= i < 32 ==> BufferBit(buffer, keys, j, idx, i)
  }

  ghost predicate BufferBit(buffer: uint32, keys: seq<nat>, j: nat, idx: nat, i: nat)
    requires i + idx >= 32
  {
    Bit(buffer, i) <==> KeyAt(keys, j, idx + i - 32)
  }

  /** select_insert_0 and select_insert_1 */
  function Insert(buffer: uint32, bit: bool): (b: uint32)
  {
    ShrShrinks(buffer, 1);
    TopBitBound(Shr(buffer, 1));
    if bit then Or(Shr(buffer, 1), 0x8000_0000) else Shr(buffer, 1)
  }

  lemma TopBitBound(a: nat)
    requires a < TWO32
    ensures Or(a, 0x8000_0000) < TWO32
  {
    Pow32();
    AndOrBound(a, 0x8000_0000, 32);
  }

  lemma TopBit(i: nat)
    ensures Bit(0x8000_0000, i) <==> i == 31
  {
    Pow31();
    ShlBit(1, 31, i);
    if i > 31 {
      ZeroBits(i - 32);
    }
  }

  lemma Pow31()
    ensures Shl(1, 31) == 0x8000_0000
  {
    assert Pow2(8) == 256 && Pow2(7) == 128;
    Pow2Adds(8, 8);
    Pow2Adds(16, 8);
    Pow2Adds(24, 7);
  }

  lemma InsertBit(buffer: uint32, bit: bool, i: nat)
    requires i < 32
    ensures Bit(Insert(buffer, bit), i) <==> if i == 31 then bit else Bit(buffer, i + 1)
  {
    ShrBit(buffer, 1, i);
    OrBit(Shr(buffer, 1), 0x8000_0000, i);
    TopBit(i);
    WordBits(buffer, 32);
  }

  /** Appending the bit for position idx, and storing the buffer whenever it is full. */
  method Append(vec: array<uint32>, buffer: uint32, idx: nat, bit: bool, ghost keys: seq<nat>, ghost j: nat,
                ghost j': nat)
    returns (buffer': uint32, idx': nat)
    requires Building(vec[..], buffer, keys, j, idx) && idx < 32 * vec.Length
    requires forall p: nat :: p < idx ==> (KeyAt(keys, j', p) <==> KeyAt(keys, j, p))
    requires bit <==> KeyAt(keys, j', idx)
    modifies vec
    ensures Building(vec[..], buffer', keys, j', idx') && idx' == idx + 1
  {
    hide Insert, KeyAt, Building, TBit;
    buffer' := Insert(buffer, bit);
    idx' := idx + 1;
    ghost var t := vec[..];
    if idx' % 32 == 0 {
      vec[idx' / 32 - 1] := buffer';
      assert vec[..] == t[idx' / 32 - 1 := buffer'];
      AppendFull(t, buffer, keys, j, j', idx, bit);
    } else {
      AppendPart(t, buffer, keys, j, j', idx, bit);
    }
  }

  lemma AppendPart(t: seq<uint32>, buffer: uint32, keys: seq<nat>, j: nat, j': nat, idx: nat, bit: bool)
    requires Building(t, buffer, keys, j, idx) && idx < 32 * |t| && (idx + 1) % 32 != 0
    requires forall p: nat :: p < idx ==> (KeyAt(keys, j', p) <==> KeyAt(keys, j, p))
    requires bit <==> KeyAt(keys, j', idx)
    ensures Building(t, Insert(buffer, bit), keys, j', idx + 1)
  {
    hide Insert, KeyAt, TBit;
    assert (idx + 1) - (idx + 1) % 32 == idx - idx % 32;
    BufferNext(t, buffer, keys, j, j', idx, bit, Insert(buffer, bit), idx + 1);
  }

  lemma BufferNext(t: seq<uint32>, buffer: uint32, keys: seq<nat>, j: nat, j': nat, idx: nat, bit: bool,
                   b: uint32, idx': nat)
    requires Building(t, buffer, keys, j, idx) && b == Insert(buffer, bit) && idx' == idx + 1
    requires forall p: nat :: p < idx ==> (KeyAt(keys, j', p) <==> KeyAt(keys, j, p))
    requires bit <==> KeyAt(keys, j', idx)
    ensures forall i: nat :: 31 - idx % 32 <= i < 32 ==> BufferBit(b, keys, j', idx', i)
  {
    hide Insert, KeyAt, TBit;
    forall i: nat | 31 - idx % 32 <= i < 32
      ensures BufferBit(b, keys, j', idx', i)
    {
      InsertBit(buffer, bit, i);
      if i < 31 {
        assert BufferBit(buffer, keys, j, idx, i + 1);
      }
    }
  }

  lemma AppendFull(t: seq<uint32>, buffer: uint32, keys: seq<nat>, j: nat, j': nat, idx: nat, bit: bool)
    requires Building(t, buffer, keys, j, idx) && idx < 32 * |t| && (idx + 1) % 32 == 0
    requires forall p: nat :: p < idx ==> (KeyAt(keys, j', p) <==> KeyAt(keys, j, p))
    requires bit <==> KeyAt(keys, j', idx)
    ensures Building(t[(idx + 1) / 32 - 1 := Insert(buffer, bit)], Insert(buffer, bit), keys, j', idx + 1)
  {
    hide Insert, KeyAt;
    var w, b := (idx + 1) / 32 - 1, Insert(buffer, bit);
    var t' := t[w := b];
    assert idx % 32 == 31 && idx == 32 * w + 31;
    BufferNext(t, buffer, keys, j, j', idx, bit, b, idx + 1);
    forall p: nat | p < idx + 1
      ensures TBit(t', p) <==> KeyAt(keys, j', p)
    {
      if p >= 32 * w {
        assert BufferBit(b, keys, j', idx + 1, p - 32 * w);
      } else {
        assert TBit(t', p) == TBit(t, p);
      }
    }
    forall p: nat | idx + 1 <= p
      ensures !TBit(t', p)
    {
      assert TBit(t', p) == TBit(t, p);
    }
  }

  /** The vector is finished: its ones are the keys' positions. */
  ghost predicate Built(t: seq<uint32>, keys: seq<nat>) {
    forall p: nat :: TBit(t, p) <==> KeyAt(keys, |keys|, p)
  }

  /** The last, partial word. */
  method Finish(vec: array<uint32>, buffer: uint32, idx: nat, ghost keys: seq<nat>)
    requires Building(vec[..], buffer, keys, |keys|, idx) && 0 < idx
    requires forall p: nat :: KeyAt(keys, |keys|, p) ==> p < idx
    modifies vec
    ensures Built(vec[..], keys)
  {
    hide KeyAt, TBit;
    ghost var t := vec[..];
    if idx % 32 != 0 {
      ShrShrinks(buffer, 32 - idx % 32);
      var rest: uint32 := Shr(buffer, 32 - idx % 32);
      vec[(idx - 1) / 32] := rest;
      assert vec[..] == t[(idx - 1) / 32 := rest];
      FinishPart(t, buffer, idx, keys, rest);
    }
  }

  lemma FinishPart(t: seq<uint32>, buffer: uint32, idx: nat, keys: seq<nat>, b: uint32)
    requires Building(t, buffer, keys, |keys|, idx) && idx % 32 != 0
    requires forall p: nat :: KeyAt(keys, |keys|, p) ==> p < idx
    requires b == Shr(buffer, 32 - idx % 32)
    ensures Built(t[(idx - 1) / 32 := b], keys)
  {
    hide KeyAt;
    var w, r := (idx - 1) / 32, idx % 32;
    var t' := t[w := b];
    assert idx == 32 * w + r;
    forall p: nat
      ensures TBit(t', p) <==> KeyAt(keys, |keys|, p)
    {
      if p / 32 == w {
        ShrBit(buffer, 32 - r, p % 32);
        if p < idx {
          assert BufferBit(buffer, keys, |keys|, idx, p % 32 + (32 - r));
        } else {
          WordBits(buffer, p % 32 + (32 - r));
        }
      } else {
        assert TBit(t', p) == TBit(t, p);
      }
    }
  }

  /** i zeros and j ones were written, in the order of the keys. */
  ghost predicate Progress(t: seq<uint32>, buffer: uint32, keys: seq<nat>, i: nat, j: nat, idx: nat, m: nat) {
    && j <= |keys| && i <= m && idx == i + j && Building(t, buffer, keys, j, idx)
    && (forall k :: 0 <= k < j ==> keys[k] <= i)
    && forall k :: j <= k < |keys| ==> i <= keys[k]
  }

  /** The loops of select_generate. */
  method FillVector(keys: seq<uint32>, n: uint32, m: uint32) returns (vec: array<uint32>)
    requires 0 < |keys| == n && n + m + 31 < TWO32
    requires Sorted(keys) && forall k :: 0 <= k < n ==> keys[k] <= m
    ensures fresh(vec) && vec.Length == (n + m + 31) / 32 && Built(vec[..], keys)
  {
    hide KeyAt, Building, Built, TBit;
    vec := new uint32[(n + m + 31) / 32](_ => 0);
    var buffer: uint32, idx: nat, i: uint32, j: uint32 := 0, 0, 0, 0;
    EmptyVector(vec[..], keys);
    label Fill: while true
      invariant j < n && Progress(vec[..], buffer, keys, i, j, idx, m)
      decreases n - j + m - i
    {
      while keys[j] == i
        invariant j < n && Progress(vec[..], buffer, keys, i, j, idx, m)
        decreases n - j
      {
        OneAppended(keys, i, j);
        buffer, idx := Append(vec, buffer, idx, true, keys, j, j + 1);
        j := j + 1;
        if j == n {
          break Fill;
        }
      }
      if i == m {
        break;
      }
      while keys[j] > i
        invariant i <= keys[j] && Progress(vec[..], buffer, keys, i, j, idx, m)
        decreases m - i
      {
        ZeroAppended(keys, i, j);
        buffer, idx := Append(vec, buffer, idx, false, keys, j, j);
        i := i + 1;
      }
    }
    AllBefore(keys, i);
    Finish(vec, buffer, idx, keys);
  }

  lemma EmptyVector(t: seq<uint32>, keys: seq<nat>)
    requires forall i :: 0 <= i < |t| ==> t[i] == 0
    ensures Building(t, 0, keys, 0, 0)
  {
    forall p: nat
      ensures !TBit(t, p)
    {
      ZeroBits(p % 32);
    }
  }

  lemma OneAppended(keys: seq<nat>, i: nat, j: nat)
    requires j < |keys| && keys[j] == i && forall k :: 0 <= k < j ==> keys[k] <= i
    ensures KeyAt(keys, j + 1, i + j)
    ensures forall p: nat :: p < i + j ==> (KeyAt(keys, j + 1, p) <==> KeyAt(keys, j, p))
  {
    assert OnePos(keys, j) == i + j;
  }

  lemma ZeroAppended(keys: seq<nat>, i: nat, j: nat)
    requires j < |keys| && forall k :: 0 <= k < j ==> keys[k] <= i
    ensures !KeyAt(keys, j, i + j)
  {
  }

  lemma AllBefore(keys: seq<nat>, i: nat)
    requires forall k :: 0 <= k < |keys| ==> keys[k] <= i
    ensures forall p: nat :: KeyAt(keys, |keys|, p) ==> p < i + |keys|
  {
  }

  /** The rank of a position that lies between the ones of keys j - 1 and j. */
  lemma {:induction false} BuiltRank(t: seq<uint32>, keys: seq<nat>, j: nat, p: nat)
    requires Built(t, keys) && Sorted(keys) && j <= |keys|
    requires (j > 0 ==> keys[j - 1] + j - 1 < p) && (j < |keys| ==> p <= keys[j] + j)
    ensures Rank1(t, p) == j
    decreases p
  {
    hide TBit;
    if p > 0 {
      if j > 0 && keys[j - 1] + j - 1 == p - 1 {
        assert OnePos(keys, j - 1) == p - 1 && KeyAt(keys, |keys|, p - 1);
        assert j > 1 ==> keys[j - 2] <= keys[j - 1];
        BuiltRank(t, keys, j - 1, p - 1);
      } else {
        assert !KeyAt(keys, |keys|, p - 1) by { NoKeyBetween(keys, j, p - 1); }
        BuiltRank(t, keys, j, p - 1);
      }
    }
  }

  lemma NoKeyBetween(keys: seq<nat>, j: nat, p: nat)
    requires Sorted(keys) && j <= |keys|
    requires (j > 0 ==> keys[j - 1] + j - 1 < p) && (j < |keys| ==> p < keys[j] + j)
    ensures !KeyAt(keys, |keys|, p)
  {
    forall k | 0 <= k < |keys|
      ensures OnePos(keys, k) != p
    {
      if k < j {
        assert keys[k] <= keys[j - 1];
      } else {
        assert keys[j] <= keys[k];
      }
    }
  }

  /** The k-th one stands at keys[k] + k, and there are as many ones as keys. */
  lemma OneOfKey(t: seq<uint32>, keys: seq<nat>, k: nat)
    requires Built(t, keys) && Sorted(keys) && k < |keys|
    ensures IsOne(t, k, keys[k] + k)
  {
    hide TBit;
    assert KeyAt(keys, |keys|, OnePos(keys, k));
    assert k > 0 ==> keys[k - 1] <= keys[k];
    BuiltRank(t, keys, k, keys[k] + k);
  }

  lemma OnesInAll(t: seq<uint32>, keys: seq<nat>)
    requires Built(t, keys) && Sorted(keys)
    ensures Rank1(t, 32 * |t|) == |keys|
  {
    if keys != [] {
      var n := |keys|;
      assert KeyAt(keys, n, OnePos(keys, n - 1));
      assert TBit(t, OnePos(keys, n - 1));
    }
    BuiltRank(t, keys, |keys|, 32 * |t|);
  }

  // ---- the structure ---------------------------------------------------------------------------------------

  /** select_t */
  datatype Select = Select(n: uint32, m: uint32, bitsVec: seq<uint32>, table: seq<uint32>) {
    /** The structure was generated for these keys. */
    ghost predicate For(keys: seq<nat>) {
      && |keys| == n && Sorted(keys) && n + m + 31 < TWO32 && |bitsVec| == (n + m + 31) / 32
      && Built(bitsVec, keys) && SelectTable(bitsVec, table, n)
    }

    /** select_query: the position of one number k. */
    method SelectQuery(oneIdx: uint32, ghost keys: seq<nat>) returns (p: nat)
      requires For(keys) && oneIdx < n
      ensures p == keys[oneIdx] + oneIdx
    {
      hide Built, SelectTable, Sorted, IsOne;
      p := Query(bitsVec, table, oneIdx, n);
      OneOfKey(bitsVec, keys, oneIdx);
      OneUnique(bitsVec, oneIdx, p, keys[oneIdx] + oneIdx);
    }

    /** select_next_query: from one number k to the next. */
    method SelectNextQuery(vecBitIdx: nat, ghost k: nat, ghost keys: seq<nat>) returns (p: nat)
      requires For(keys) && k + 1 < n && vecBitIdx == keys[k] + k
      ensures p == keys[k + 1] + (k + 1)
    {
      hide Built, SelectTable, Sorted, IsOne;
      OneOfKey(bitsVec, keys, k);
      OnesInAll(bitsVec, keys);
      p := NextQuery(bitsVec, vecBitIdx, k);
      OneOfKey(bitsVec, keys, k + 1);
      OneUnique(bitsVec, k + 1, p, keys[k + 1] + (k + 1));
    }
  }

  /** select_generate */
  method GenerateSelect(keys: seq<uint32>, m: uint32) returns (sel: Select)
    requires 0 < |keys| && |keys| + m + 31 < TWO32
    requires Sorted(keys) && forall k :: 0 <= k < |keys| ==> keys[k] <= m
    ensures sel.For(keys) && sel.n == |keys| && sel.m == m
  {
    hide Built, SelectTable;
    var n: uint32 := |keys|;
    var vec := FillVector(keys, n, m);
    OnesInAll(vec[..], keys);
    var table := GenerateTable(vec[..], n);
    sel := Select(n, m, vec[..], table[..]);
  }
}
