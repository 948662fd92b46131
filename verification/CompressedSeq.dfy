/** compressed_seq.c: values stored in as few bits as they need, found again through their end positions. */
module CompressedSeq {
  import opened Arithmetic
  import opened Words
  import opened Bits
  import opened BitTable
  import opened Select

  // ---- logarithms -----------------------------------------------------------------------------------

  lemma {:induction false} Log2AtMost(x: nat)
    requires x >= 2
    ensures 2 * Log2(x) <= x
  {
    if x >= 4 {
      Log2AtMost(x / 2);
    } else {
      assert Log2(x / 2) == 0;
    }
  }

  lemma Log2Word(x: uint32)
    ensures Log2(x) < 32
  {
    Pow32();
    Log2Below(x, 32);
  }

  /** compressed_seq_i_log2 and compressed_rank_i_log2 */
  method ILog2(x: uint32) returns (res: nat)
    ensures res == Log2(x) < 32
  {
    Log2Word(x);
    res := 0;
    var y: uint32 := x;
    while y > 1
      invariant res + Log2(y) == Log2(x)
    {
      y := y / 2;
      res := res + 1;
    }
  }

  /** The remainder width that both structures use. */
  ghost function RemainderBits(x: nat): nat {
    if Log2(x) == 0 then 1 else Log2(x)
  }

  /** How many low bits of positions up to total are kept apart, for n of them. */
  method RemainderWidth(total: uint32, n: uint32) returns (remR: nat)
    requires 0 < n && n + 31 < TWO32
    ensures 0 < remR < 32 && remR == RemainderBits(total / n)
    ensures n * remR + 31 < TWO32 // BITS_TABLE_SIZE does not wrap around
  {
    hide RemainderBits;
    QuotientBound(total, n);
    remR := ILog2(total / n);
    if remR == 0 {
      remR := 1;
    }
    RemainderTable(total, n);
    assert remR == RemainderBits(total / n) by { RemainderBitsIs(total / n); }
  }

  lemma RemainderBitsIs(x: nat)
    ensures RemainderBits(x) == if Log2(x) == 0 then 1 else Log2(x)
  {
  }

  lemma RemainderFits(total: nat, n: nat, x: nat)
    requires x * n <= total
    ensures n * RemainderBits(x) <= n || 2 * (n * RemainderBits(x)) <= total
  {
    var r := RemainderBits(x);
    if x >= 2 {
      Log2AtMost(x);
      assert Log2(x) == 1 + Log2(x / 2);
      assert (2 * r) * n <= total by { Times(2 * r, x, n); }
      assert (2 * r) * n == 2 * (n * r);
    } else {
      assert r == 1;
    }
  }

  lemma RemainderTable(total: nat, n: nat)
    requires n > 0
    ensures n * RemainderBits(total / n) <= n || 2 * (n * RemainderBits(total / n)) <= total
  {
    QuotientBound(total, n);
    var x := total / n;
    assert x * n <= total by { Divides(total, n); }
    RemainderFits(total, n, x);
  }

  // ---- lengths and positions --------------------------------------------------------------------------

  /** The number of bits of an encoded value; the logarithm is that of a 32-bit sum. */
  ghost function Length(v: uint32): nat {
    Log2(Add32(v, 1))
  }

  lemma AddOne(v: uint32)
    ensures Add32(v, 1) == if v + 1 < TWO32 then v + 1 else 0
  {
    if v + 1 < TWO32 {
      DivisionUnique(v + 1, TWO32, 0, v + 1);
    } else {
      DivisionUnique(v + 1, TWO32, 1, 0);
    }
  }

  lemma LengthBelow(v: uint32)
    ensures Length(v) < 32
  {
    Log2Word(Add32(v, 1));
  }

  /** Where the code of value i starts: the total length of the values before it. */
  ghost function Start(vals: seq<uint32>, i: nat): nat
    requires i <= |vals|
  {
    if i == 0 then 0 else Start(vals, i - 1) + Length(vals[i - 1])
  }

  lemma {:induction false} StartGrows(vals: seq<uint32>, i: nat, j: nat)
    requires i <= j <= |vals|
    ensures Start(vals, i) <= Start(vals, j)
  {
    if i < j {
      StartGrows(vals, i, j - 1);
    }
  }

  /** A value is its length's offset plus a string of that length. */
  lemma LengthFits(v: uint32)
    requires v + 1 < TWO32
    ensures Length(v) < 32 && Mask(Length(v)) <= v && v - Mask(Length(v)) < Pow2(Length(v))
    ensures v == 0 <==> Length(v) == 0
  {
    AddOne(v);
    Log2Bounds(v + 1);
    Log2Word(v + 1);
    assert Pow2(1) == 2;
    assert Log2(1) == 0;
  }

  /** The length is exact for all values but 2^32 - 1, which gets that of 0. */
  lemma LengthExact(v: uint32)
    ensures Length(v) == Log2(v + 1) <==> v + 1 < TWO32
    ensures Length(v) == 0 <==> v == 0 || v + 1 == TWO32
  {
    AddOne(v);
    Pow32();
    Log2Bounds(v + 1);
    assert Log2(0) == 0;
    if v + 1 < TWO32 {
      LengthFits(v);
    }
  }

  /** The quotients of the end positions, which the select structure keeps. */
  ghost function Quotients(vals: seq<uint32>, remR: nat): (keys: seq<nat>)
    ensures |keys| == |vals|
  {
    seq(|vals|, i requires 0 <= i < |vals| => Shr(Start(vals, i + 1), remR))
  }

  ghost predicate RemAt(rems: seq<uint32>, vals: seq<uint32>, remR: nat, i: nat)
    requires 0 < remR < 32 && i < |vals| && |rems| == TableSize(|vals|, remR)
  {
    TableFits(|vals|, remR, i);
    GetValue(rems, i, remR) == And(Start(vals, i + 1), Mask(remR))
  }

  ghost predicate StoredAt(store: seq<uint32>, vals: seq<uint32>, i: nat)
    requires i < |vals|
  {
    var pos, len := Start(vals, i), Length(vals[i]);
    0 < len ==> len < 32 && pos + len <= 32 * |store| && vals[i] == GetBits(store, pos, len) + Mask(len)
  }

  lemma StoreStep(store: seq<uint32>, store': seq<uint32>, vals: seq<uint32>, i: nat)
    requires i < |vals| && 0 < vals[i] && vals[i] + 1 < TWO32 && Start(vals, i + 1) <= 32 * |store|
    requires Mask(Length(vals[i])) <= vals[i]
    requires Wrote(store, store', Start(vals, i), vals[i] - Mask(Length(vals[i])), Length(vals[i]))
    requires forall k: nat :: k < i ==> StoredAt(store, vals, k)
    ensures forall k: nat :: k < i + 1 ==> StoredAt(store', vals, k)
  {
    hide Wrote, GetBits, Mask, Length;
    var len := Length(vals[i]);
    LengthFits(vals[i]);
    assert |store'| == |store| by { WroteSize(store, store', Start(vals, i), vals[i] - Mask(len), len); }
    ReadBack(store, store', Start(vals, i), vals[i] - Mask(len), len);
    forall k: nat | k < i
      ensures StoredAt(store', vals, k)
    {
      assert StoredAt(store, vals, k);
      StartGrows(vals, k + 1, i);
      assert Start(vals, k + 1) == Start(vals, k) + Length(vals[k]);
      LengthBelow(vals[k]);
      if Length(vals[k]) > 0 {
        ReadElsewhere(store, store', Start(vals, i), vals[i] - Mask(len), len, Start(vals, k), Length(vals[k]));
      }
    }
  }

  lemma WroteSize(t: seq<uint32>, t': seq<uint32>, pos: nat, v: nat, len: nat)
    requires Wrote(t, t', pos, v, len)
    ensures |t'| == |t|
  {
  }

  lemma RemStep(rems: seq<uint32>, rems': seq<uint32>, vals: seq<uint32>, remR: nat, i: nat)
    requires 0 < remR < 32 && i < |vals| && |rems| == TableSize(|vals|, remR)
    requires Wrote(rems, rems', i * remR, And(Start(vals, i + 1), Mask(remR)), remR)
    requires forall k: nat :: k < i ==> RemAt(rems, vals, remR, k)
    ensures |rems'| == |rems| && forall k: nat :: k < i + 1 ==> RemAt(rems', vals, remR, k)
  {
    hide Wrote, GetBits, Start;
    var v := And(Start(vals, i + 1), Mask(remR));
    WroteSize(rems, rems', i * remR, v, remR);
    TableFits(|vals|, remR, i);
    AndMask(Start(vals, i + 1), remR);
    ReadBack(rems, rems', i * remR, v, remR);
    forall k: nat | k < i
      ensures RemAt(rems', vals, remR, k)
    {
      assert RemAt(rems, vals, remR, k);
      TableFits(|vals|, remR, k);
      Apart(k, i, remR);
      ReadElsewhere(rems, rems', i * remR, v, remR, k * remR, remR);
    }
  }

  // ---- the structure --------------------------------------------------------------------------------------

  /** compressed_seq_t */
  datatype Seq = Seq(n: uint32, remR: uint32, totalLength: uint32, sel: Select, lengthRems: seq<uint32>,
                     storeTable: seq<uint32>) {
    /** The structure holds these values. */
    ghost predicate Holds(vals: seq<uint32>) {
      && n == |vals| > 0 && 0 < remR < 32 && totalLength == Start(vals, n)
      && sel.For(Quotients(vals, remR)) && |lengthRems| == TableSize(n, remR)
      && |storeTable| == (totalLength + 31) / 32
      && (forall i: nat :: i < n ==> RemAt(lengthRems, vals, remR, i))
      && forall i: nat :: i < n ==> StoredAt(storeTable, vals, i)
    }

    lemma At(vals: seq<uint32>, i: nat)
      requires Holds(vals) && i < n
      ensures n == |vals| && 0 < remR < 32 && |lengthRems| == TableSize(n, remR)
      ensures sel.For(Quotients(vals, remR)) && sel.n == n
      ensures Quotients(vals, remR)[i] == Shr(Start(vals, i + 1), remR)
      ensures RemAt(lengthRems, vals, remR, i) && StoredAt(storeTable, vals, i)
      ensures Start(vals, i + 1) == Start(vals, i) + Length(vals[i])
    {
    }

    lemma Size(vals: seq<uint32>)
      requires Holds(vals)
      ensures n == |vals|
    {
    }

    /** The end of code i, put together from its quotient and its remainder. */
    function End(i: nat, selRes: nat): nat
      requires 0 < remR < 32 && i < n && |lengthRems| == TableSize(n, remR) && i <= selRes
    {
      TableFits(n, remR, i);
      Shl(selRes - i, remR) + GetValue(lengthRems, i, remR)
    }

    lemma EndIsStart(vals: seq<uint32>, i: nat, selRes: nat)
      requires Holds(vals) && i < n && selRes == Quotients(vals, remR)[i] + i
      ensures |lengthRems| == TableSize(n, remR) && 0 < remR < 32 && End(i, selRes) == Start(vals, i + 1)
    {
      hide Shr, And, Mask, GetBits, Shl, Start;
      At(vals, i);
      HighLow(Start(vals, i + 1), remR);
    }

    /** compressed_seq_query: gives back the stored value, and 0 for 2^32 - 1. */
    method Query(idx: uint32, ghost vals: seq<uint32>) returns (v: uint32)
      requires Holds(vals) && idx < n
      ensures v == if vals[idx] == TWO32 - 1 then 0 else vals[idx]
    {
      hide Holds, Select.For, End, Quotients, GetBits, RemAt, Length, Mask;
      ghost var keys := Quotients(vals, remR);
      At(vals, idx);
      var encIdx: nat, selRes: nat;
      if idx == 0 {
        encIdx := 0;
        selRes := sel.SelectQuery(idx, keys);
      } else {
        selRes := sel.SelectQuery(idx - 1, keys);
        EndIsStart(vals, idx - 1, selRes);
        encIdx := End(idx - 1, selRes);
        selRes := sel.SelectNextQuery(selRes, idx - 1, keys);
      }
      EndIsStart(vals, idx, selRes);
      var encLength := End(idx, selRes) - encIdx;
      if encLength == 0 {
        ZeroLength(vals[idx]);
        return 0;
      }
      NonzeroLength(vals[idx]);
      var storedValue := GetBits(storeTable, encIdx, encLength);
      v := storedValue + Mask(encLength);
    }
  }

  lemma ZeroLength(v: uint32)
    requires Length(v) == 0
    ensures v == 0 || v + 1 == TWO32
  {
    LengthExact(v);
  }

  lemma NonzeroLength(v: uint32)
    requires Length(v) != 0
    ensures v != 0 && v + 1 < TWO32
  {
    LengthExact(v);
  }

  // ---- generation ------------------------------------------------------------------------------------------

  /** The first loop of compressed_seq_generate: the lengths of the codes and their total. */
  method Lengths(vals: seq<uint32>) returns (lengths: array<uint32>, totalLength: uint32)
    requires Start(vals, |vals|) < TWO32
    ensures fresh(lengths) && lengths.Length == |vals| && totalLength == Start(vals, |vals|)
    ensures forall i :: 0 <= i < |vals| ==> lengths[i] == Length(vals[i])
  {
    hide Length, Start;
    lengths := new uint32[|vals|];
    totalLength := 0;
    StartFirst(vals);
    for i := 0 to |vals|
      invariant totalLength == Start(vals, i)
      invariant forall k :: 0 <= k < i ==> lengths[k] == Length(vals[k])
    {
      NextStart(vals, i);
      LengthExact(vals[i]);
      LengthIs(vals[i]);
      if vals[i] == 0 {
        lengths[i] := 0;
      } else {
        var l := ILog2(Add32(vals[i], 1));
        lengths[i] := l;
        totalLength := totalLength + l;
      }
    }
  }

  lemma StartFirst(vals: seq<uint32>)
    ensures Start(vals, 0) == 0
  {
  }

  lemma NextStart(vals: seq<uint32>, i: nat)
    requires i < |vals|
    ensures Start(vals, i + 1) == Start(vals, i) + Length(vals[i]) <= Start(vals, |vals|)
  {
    hide Length;
    StartGrows(vals, i + 1, |vals|);
  }

  lemma LengthIs(v: uint32)
    ensures Length(v) == Log2(Add32(v, 1)) < 32
  {
    LengthBelow(v);
  }

  /** A value 2^32 - 1 is written into the word of its position, which the table must have. */
  ghost predicate HasRoom(vals: seq<uint32>) {
    forall i :: 0 <= i < |vals| && vals[i] == TWO32 - 1 ==> Start(vals, i) / 32 < (Start(vals, |vals|) + 31) / 32
  }

  /** The second loop: the codes, one behind the other. */
  method Store(vals: seq<uint32>, lengths: array<uint32>, store: array<uint32>)
    requires Start(vals, |vals|) < TWO32 && HasRoom(vals)
    requires lengths.Length == |vals| && forall i :: 0 <= i < |vals| ==> lengths[i] == Length(vals[i])
    requires lengths != store && store.Length == (Start(vals, |vals|) + 31) / 32
    modifies store
    ensures forall i: nat :: i < |vals| ==> StoredAt(store[..], vals, i)
  {
    hide Wrote, StoredAt, Mask, Length, Start;
    var totalLength: uint32 := 0;
    StartFirst(vals);
    for i := 0 to |vals|
      invariant totalLength == Start(vals, i)
      invariant forall k: nat :: k < i ==> StoredAt(store[..], vals, k)
    {
      NextStart(vals, i);
      LengthExact(vals[i]);
      if vals[i] == 0 {
        StoredZero(store[..], vals, i);
      } else {
        ghost var store0 := store[..];
        CodeFits(vals, i);
        var storedValue := vals[i] - Mask(lengths[i]);
        SetBits(store, totalLength, storedValue, lengths[i]);
        if vals[i] + 1 < TWO32 {
          StoreStep(store0, store[..], vals, i);
        } else {
          StoreNothing(store0, store[..], vals, i);
        }
        totalLength := totalLength + lengths[i];
      }
    }
  }

  lemma StoredZero(store: seq<uint32>, vals: seq<uint32>, i: nat)
    requires i < |vals| && vals[i] == 0
    ensures StoredAt(store, vals, i)
  {
    LengthExact(0);
  }

  lemma WordsCover(x: nat, total: nat)
    ensures total <= 32 * ((total + 31) / 32)
    ensures x / 32 < (total + 31) / 32 ==> x < 32 * ((total + 31) / 32)
  {
    Divides(total + 31, 32);
    Divides(x, 32);
  }

  lemma CodeFits(vals: seq<uint32>, i: nat)
    requires i < |vals| && HasRoom(vals) && vals[i] != 0
    ensures var len, n := Length(vals[i]), 32 * ((Start(vals, |vals|) + 31) / 32);
      && len < 32 && Start(vals, i) + len <= n && Start(vals, i) < n && Mask(len) <= vals[i]
      && if vals[i] == TWO32 - 1 then len == 0 else vals[i] - Mask(len) < Pow2(len)
  {
    hide Length, Mask;
    StartGrows(vals, i + 1, |vals|);
    WordsCover(Start(vals, i), Start(vals, |vals|));
    LengthExact(vals[i]);
    if vals[i] != TWO32 - 1 {
      LengthFits(vals[i]);
    } else {
      NoMask();
    }
  }

  lemma NoMask()
    ensures Mask(0) == 0
  {
  }

  /** The value 2^32 - 1 spoils nothing that was written before. */
  lemma StoreNothing(store: seq<uint32>, store': seq<uint32>, vals: seq<uint32>, i: nat)
    requires i < |vals| && Length(vals[i]) == 0 && SameBefore(store, store', Start(vals, i))
    requires Start(vals, i) <= 32 * |store| && forall k: nat :: k < i ==> StoredAt(store, vals, k)
    ensures forall k: nat :: k < i + 1 ==> StoredAt(store', vals, k)
  {
    hide GetBits, Mask, Length, TBit;
    forall k: nat | k < i
      ensures StoredAt(store', vals, k)
    {
      assert StoredAt(store, vals, k);
      StartGrows(vals, k + 1, i);
      assert Start(vals, k + 1) == Start(vals, k) + Length(vals[k]);
      if Length(vals[k]) > 0 {
        GetBitsSame(store, Start(vals, k), store', Start(vals, k), Length(vals[k]));
      }
    }
  }

  /** The third loop: the end positions, their low bits in a table and their high bits in lengths. */
  method Remainders(vals: seq<uint32>, lengths: array<uint32>, rems: array<uint32>, remR: nat)
    returns (totalLength: uint32)
    requires Start(vals, |vals|) < TWO32 && 0 < remR < 32 && rems.Length == TableSize(|vals|, remR)
    requires lengths.Length == |vals| && forall i :: 0 <= i < |vals| ==> lengths[i] == Length(vals[i])
    requires lengths != rems
    modifies lengths, rems
    ensures totalLength == Start(vals, |vals|)
    ensures forall i: nat :: i < |vals| ==> RemAt(rems[..], vals, remR, i)
    ensures forall i :: 0 <= i < |vals| ==> lengths[i] == Shr(Start(vals, i + 1), remR)
  {
    hide Wrote, RemAt, Mask, And, Shr, Length, TableSize;
    totalLength := 0;
    for i := 0 to |vals|
      invariant totalLength == Start(vals, i)
      invariant rems[..] == rems[..] && |rems[..]| == TableSize(|vals|, remR)
      invariant forall k: nat :: k < i ==> RemAt(rems[..], vals, remR, k)
      invariant forall k :: 0 <= k < i ==> lengths[k] == Shr(Start(vals, k + 1), remR)
      invariant forall k :: i <= k < |vals| ==> lengths[k] == Length(vals[k])
    {
      StartGrows(vals, i + 1, |vals|);
      totalLength := totalLength + lengths[i];
      AndMask(totalLength, remR);
      ShrShrinks(totalLength, remR);
      RemainderWord(totalLength, remR);
      TableFits(|vals|, remR, i);
      ghost var rems0 := rems[..];
      SetValue(rems, i, And(totalLength, Mask(remR)), remR);
      RemStep(rems0, rems[..], vals, remR, i);
      lengths[i] := Shr(totalLength, remR);
    }
  }

  lemma RemainderWord(x: uint32, remR: nat)
    ensures And(x, Mask(remR)) <= x
  {
    AndMask(x, remR);
    ModBelow(x, Pow2(remR));
  }

  lemma ModBelow(x: nat, p: nat)
    requires p > 0
    ensures x % p <= x
  {
    if x < p {
      DivisionUnique(x, p, 0, x);
    }
  }

  lemma {:induction false} ShrMonotone(a: nat, b: nat, s: nat)
    requires a <= b
    ensures Shr(a, s) <= Shr(b, s)
    decreases s
  {
    if s > 0 {
      ShrMonotone(a / 2, b / 2, s - 1);
    }
  }

  lemma QuotientsSorted(vals: seq<uint32>, remR: nat)
    ensures Sorted(Quotients(vals, remR))
    ensures forall i :: 0 <= i < |vals| ==> Quotients(vals, remR)[i] <= Shr(Start(vals, |vals|), remR)
  {
    hide Start, Shr;
    var q := Quotients(vals, remR);
    forall i, j | 0 <= i < j < |vals|
      ensures q[i] <= q[j]
    {
      StartGrows(vals, i + 1, j + 1);
      ShrMonotone(Start(vals, i + 1), Start(vals, j + 1), remR);
    }
    forall i | 0 <= i < |vals|
      ensures q[i] <= Shr(Start(vals, |vals|), remR)
    {
      StartGrows(vals, i + 1, |vals|);
      ShrMonotone(Start(vals, i + 1), Start(vals, |vals|), remR);
    }
  }

  /** compressed_seq_generate */
  method Generate(vals: seq<uint32>) returns (cs: Seq)
    requires 0 < |vals| && |vals| + 31 < TWO32 / 2 && Start(vals, |vals|) + 31 < TWO32 && HasRoom(vals)
    ensures cs.Holds(vals)
  {
    hide RemAt, StoredAt, Select.For, Quotients, Sorted;
    var n: uint32 := |vals|;
    var lengths, totalLength: uint32 := Lengths(vals);
    var storeTable := new uint32[(totalLength + 31) / 32](_ => 0);
    Store(vals, lengths, storeTable);
    var remR := RemainderWidth(totalLength, n);
    var lengthRems := new uint32[TableSize(n, remR)](_ => 0);
    totalLength := Remainders(vals, lengths, lengthRems, remR);
    QuotientsSorted(vals, remR);
    assert lengths[..] == Quotients(vals, remR) by { QuotientsAre(vals, remR, lengths[..]); }
    HalfOf(totalLength, remR);
    var sel := GenerateSelect(lengths[..], Shr(totalLength, remR));
    cs := Seq(n, remR, totalLength, sel, lengthRems[..], storeTable[..]);
  }

  lemma QuotientsAre(vals: seq<uint32>, remR: nat, s: seq<uint32>)
    requires |s| == |vals| && forall i :: 0 <= i < |s| ==> s[i] == Shr(Start(vals, i + 1), remR)
    ensures s == Quotients(vals, remR)
  {
  }

  lemma HalfOf(x: uint32, s: nat)
    requires s > 0
    ensures Shr(x, s) <= x / 2
  {
    ShrShrinks(x / 2, s - 1);
  }

  // ---- the packed form ----------------------------------------------------------------------------------------

  /** select_dump, in words */
  function DumpSelect(sel: Select): seq<uint32> {
    [sel.n, sel.m] + sel.bitsVec + sel.table
  }

  /** The parts of a packed select structure, as the packed queries find them. */
  function UnpackSelect(p: seq<uint32>): (sel: Option<Select>) {
    if |p| < 2 then None else
      var vecSize := (p[0] as int + p[1] + 31) / 32;
      if 2 + vecSize > |p| then None else Some(Select(p[0], p[1], p[2..2 + vecSize], p[2 + vecSize..]))
  }

  /** compressed_seq_dump, in words: four numbers, the select structure, the remainders, the codes. */
  function Dump(cs: Seq): seq<uint32>
    requires 4 * |DumpSelect(cs.sel)| < TWO32
  {
    [cs.n, cs.remR, cs.totalLength, 4 * |DumpSelect(cs.sel)|] + DumpSelect(cs.sel) + cs.lengthRems + cs.storeTable
  }

  /** The pointer arithmetic at the head of compressed_seq_query_packed. */
  function Unpack(p: seq<uint32>): (cs: Option<Seq>) {
    if |p| < 4 then None else
      var afterSel := 4 + p[3] / 4;
      var afterRems := afterSel + TableSize(p[0], p[1]);
      if afterRems > |p| then None else
        var sel := UnpackSelect(p[4..afterSel]);
        if sel.None? then None
        else Some(Seq(p[0], p[1], p[2], sel.value, p[afterSel..afterRems], p[afterRems..]))
  }

  lemma SelectRoundTrip(sel: Select)
    requires |sel.bitsVec| == (sel.n + sel.m + 31) / 32
    ensures UnpackSelect(DumpSelect(sel)) == Some(sel)
  {
    var p := DumpSelect(sel);
    assert p[2..2 + |sel.bitsVec|] == sel.bitsVec && p[2 + |sel.bitsVec|..] == sel.table;
  }

  /** Unpacking gives back what was packed. */
  lemma RoundTrip(cs: Seq, vals: seq<uint32>)
    requires cs.Holds(vals)
    ensures 4 * |DumpSelect(cs.sel)| < TWO32 && Unpack(Dump(cs)) == Some(cs)
  {
    hide TableSize, DumpSelect, UnpackSelect;
    assert 4 * |DumpSelect(cs.sel)| < TWO32 by { DumpSize(cs.sel, Quotients(vals, cs.remR)); }
    var d := DumpSelect(cs.sel);
    var p := Dump(cs);
    SelectRoundTrip(cs.sel);
    var a := 4 + |d|;
    assert p[4..a] == d && p[a..a + |cs.lengthRems|] == cs.lengthRems;
    assert p[a + |cs.lengthRems|..] == cs.storeTable;
  }

  lemma DumpSize(sel: Select, keys: seq<nat>)
    requires sel.For(keys)
    ensures 4 * |DumpSelect(sel)| < TWO32
  {
  }

  /** compressed_seq_query_packed: the packed form answers like the structure it was dumped from. */
  method QueryPacked(packed: seq<uint32>, idx: uint32, ghost cs: Seq, ghost vals: seq<uint32>) returns (v: uint32)
    requires cs.Holds(vals) && idx < cs.n && 4 * |DumpSelect(cs.sel)| < TWO32 && packed == Dump(cs)
    ensures v == if vals[idx] == TWO32 - 1 then 0 else vals[idx]
  {
    hide Seq.Holds, Unpack;
    RoundTrip(cs, vals);
    assert cs.n == |vals| by { cs.At(vals, 0); }
    v := Unpack(packed).value.Query(idx, vals);
  }
}
