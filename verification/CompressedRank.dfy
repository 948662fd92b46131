/** compressed_rank.c: counts the stored values below a given one. */
module CompressedRank {
  import opened Arithmetic
  import opened Words
  import opened Bits
  import opened BitTable
  import opened Select
  import opened CompressedSeq
  import opened Counting

  /** The number of values below x, in a sorted sequence: the first position that is not below. */
  ghost predicate CountBelow(vals: seq<uint32>, x: nat, r: nat) {
    && r <= |vals|
    && (forall i :: 0 <= i < r ==> vals[i] < x)
    && forall i :: r <= i < |vals| ==> x <= vals[i]
  }

  /** Of two values the quotients decide, and the remainders when the quotients are equal. */
  lemma Compare(a: nat, b: nat, s: nat)
    ensures Shr(a, s) < Shr(b, s) ==> a < b
    ensures Shr(a, s) == Shr(b, s) ==> (a < b <==> And(a, Mask(s)) < And(b, Mask(s)))
  {
    hide Shr, And;
    HighLow(a, s);
    HighLow(b, s);
    if b <= a {
      ShrMonotone(b, a, s);
    }
  }

  /** keys[i] is the first value whose quotient is above i. */
  ghost predicate Boundaries(vals: seq<uint32>, remR: nat, keys: seq<nat>) {
    && |vals| > 0 && |keys| == Shr(vals[|vals| - 1], remR)
    && forall i :: 0 <= i < |keys| ==> Boundary(vals, remR, i, keys[i])
  }

  ghost predicate Boundary(vals: seq<uint32>, remR: nat, i: nat, j: nat) {
    && j < |vals|
    && (forall k :: 0 <= k < j ==> Shr(vals[k], remR) <= i)
    && (forall k :: j <= k < |vals| ==> i < Shr(vals[k], remR))
  }

  ghost predicate RemOf(rems: seq<uint32>, vals: seq<uint32>, remR: nat, i: nat)
    requires 0 < remR < 32 && i < |vals| && |rems| == TableSize(|vals|, remR)
  {
    TableFits(|vals|, remR, i);
    GetValue(rems, i, remR) == And(vals[i], Mask(remR))
  }

  /** compressed_rank_t */
  datatype Rank = Rank(maxVal: uint32, n: uint32, remR: uint32, sel: Select, valsRems: seq<uint32>) {
    /** The structure was generated for these values; keys are the boundaries of their quotients. */
    ghost predicate Holds(vals: seq<uint32>, keys: seq<nat>) {
      && n == |vals| > 0 && 0 < remR < 32 && Sorted(vals) && maxVal == vals[n - 1]
      && Boundaries(vals, remR, keys) && sel.For(keys) && sel.m == n && sel.n > 0
      && |valsRems| == TableSize(n, remR)
      && forall i: nat :: i < n ==> RemOf(valsRems, vals, remR, i)
    }

    /** Where the scan for quotient q may stand: every value before rank is below idx. */
    ghost predicate Scanning(vals: seq<uint32>, keys: seq<nat>, q: nat, rank: nat) {
      && rank < n == |vals| && q <= |keys| && (q > 0 ==> keys[q - 1] <= rank) && (q < |keys| ==> rank <= keys[q])
    }

    /** The bit at the scan position says whether the quotient is used up. */
    lemma ScanBit(vals: seq<uint32>, keys: seq<nat>, q: nat, rank: nat)
      requires Holds(vals, keys) && Scanning(vals, keys, q, rank)
      ensures (rank + q) / 32 < |sel.bitsVec|
      ensures Bit(sel.bitsVec[(rank + q) / 32], (rank + q) % 32) <==> q < |keys| && keys[q] == rank
    {
      hide Boundaries, SelectTable, RemOf;
      assert Built(sel.bitsVec, keys);
      var p := rank + q;
      if q < |keys| && keys[q] == rank {
        assert OnePos(keys, q) == p;
        assert KeyAt(keys, |keys|, p);
      } else {
        NoKeyBetween(keys, q, p);
      }
      assert TBit(sel.bitsVec, p) <==> KeyAt(keys, |keys|, p);
    }

    /** compressed_rank_query: the number of stored values below idx. */
    method Query(idx: uint32, ghost vals: seq<uint32>, ghost keys: seq<nat>) returns (rank: uint32)
      requires Holds(vals, keys)
      ensures CountBelow(vals, idx, rank)
    {
      hide Holds, Select.For, Boundaries, Boundary, RemOf, Shr, And, Bit, Sorted;
      Shape(vals, keys);
      if idx > maxVal {
        AllBelow(vals, keys, idx);
        return n;
      }
      var valQuot := Shr(idx, remR);
      var valRem := And(idx, Mask(remR));
      QuotientInRange(vals, keys, idx);
      var selRes: nat;
      if valQuot == 0 {
        rank, selRes := 0, 0;
      } else {
        selRes := sel.SelectQuery(valQuot - 1, keys);
        selRes := selRes + 1;
        BoundaryBelow(vals, keys, valQuot - 1);
        rank := selRes - valQuot;
      }
      ScanStart(vals, keys, idx, valQuot, rank);
      while true
        invariant Scanning(vals, keys, valQuot, rank) && selRes == rank + valQuot
        invariant forall i :: 0 <= i < rank ==> vals[i] < idx
        decreases n - rank
      {
        ScanBit(vals, keys, valQuot, rank);
        if Bit(sel.bitsVec[selRes / 32], selRes % 32) {
          StopAtBoundary(vals, keys, idx, valQuot, rank);
          break;
        }
        Remainder(vals, keys, idx, valQuot, rank);
        if GetValue(valsRems, rank, remR) >= valRem {
          StopAtValue(vals, keys, idx, rank);
          break;
        }
        selRes := selRes + 1;
        rank := rank + 1;
      }
    }

    lemma Shape(vals: seq<uint32>, keys: seq<nat>)
      requires Holds(vals, keys)
      ensures n == |vals| > 0 && 0 < remR < 32 && maxVal == vals[n - 1] && sel.For(keys) && sel.n == |keys|
      ensures |keys| == Shr(maxVal, remR)
    {
    }

    lemma AllBelow(vals: seq<uint32>, keys: seq<nat>, idx: nat)
      requires Holds(vals, keys) && idx > maxVal
      ensures CountBelow(vals, idx, n)
    {
      forall i | 0 <= i < |vals|
        ensures vals[i] < idx
      {
        assert i < n - 1 ==> vals[i] <= vals[n - 1];
      }
    }

    lemma QuotientInRange(vals: seq<uint32>, keys: seq<nat>, idx: nat)
      requires Holds(vals, keys) && idx <= maxVal
      ensures Shr(idx, remR) <= |keys|
    {
      ShrMonotone(idx, maxVal, remR);
    }

    lemma BoundaryBelow(vals: seq<uint32>, keys: seq<nat>, i: nat)
      requires Holds(vals, keys) && i < |keys|
      ensures keys[i] < |vals|
    {
      assert Boundary(vals, remR, i, keys[i]);
    }

    lemma ScanStart(vals: seq<uint32>, keys: seq<nat>, idx: uint32, q: nat, rank: nat)
      requires Holds(vals, keys) && idx <= maxVal && q == Shr(idx, remR)
      requires if q == 0 then rank == 0 else q <= |keys| && rank == keys[q - 1]
      ensures Scanning(vals, keys, q, rank) && rank < |vals|
      ensures forall i :: 0 <= i < rank ==> vals[i] < idx
    {
      hide Shr, Select.For, RemOf;
      QuotientInRange(vals, keys, idx);
      if q > 0 {
        assert Boundary(vals, remR, q - 1, keys[q - 1]);
      }
      if 0 < q < |keys| {
        BoundariesSorted(vals, keys, q - 1, q);
      }
      forall i | 0 <= i < rank
        ensures vals[i] < idx
      {
        Compare(vals[i], idx, remR);
      }
    }

    lemma BoundariesSorted(vals: seq<uint32>, keys: seq<nat>, i: nat, j: nat)
      requires Holds(vals, keys) && i < j < |keys|
      ensures keys[i] <= keys[j]
    {
      assert Sorted(keys);
    }

    lemma StopAtBoundary(vals: seq<uint32>, keys: seq<nat>, idx: uint32, q: nat, rank: nat)
      requires Holds(vals, keys) && q == Shr(idx, remR) && q < |keys| && keys[q] == rank
      requires forall i :: 0 <= i < rank ==> vals[i] < idx
      ensures CountBelow(vals, idx, rank)
    {
      hide Shr, Select.For, RemOf;
      assert Boundary(vals, remR, q, keys[q]);
      forall i | rank <= i < |vals|
        ensures idx <= vals[i]
      {
        Compare(idx, vals[i], remR);
      }
    }

    lemma StopAtValue(vals: seq<uint32>, keys: seq<nat>, idx: uint32, rank: nat)
      requires Holds(vals, keys) && rank < n && idx <= vals[rank]
      requires forall i :: 0 <= i < rank ==> vals[i] < idx
      ensures CountBelow(vals, idx, rank)
    {
      forall i | rank <= i < |vals|
        ensures idx <= vals[i]
      {
        assert rank < i ==> vals[rank] <= vals[i];
      }
    }

    /** Between the boundaries the remainders decide, and the scan stops before the end. */
    lemma Remainder(vals: seq<uint32>, keys: seq<nat>, idx: uint32, q: nat, rank: nat)
      requires Holds(vals, keys) && Scanning(vals, keys, q, rank) && idx <= maxVal && q == Shr(idx, remR)
      requires q < |keys| ==> keys[q] != rank
      ensures |valsRems| == TableSize(n, remR) && rank * remR + remR <= 32 * |valsRems|
      ensures GetValue(valsRems, rank, remR) < And(idx, Mask(remR)) <==> vals[rank] < idx
      ensures vals[rank] < idx ==> Scanning(vals, keys, q, rank + 1)
    {
      hide Shr, And, Select.For;
      assert RemOf(valsRems, vals, remR, rank);
      TableFits(n, remR, rank);
      if q > 0 {
        assert Boundary(vals, remR, q - 1, keys[q - 1]);
      }
      if q < |keys| {
        assert Boundary(vals, remR, q, keys[q]);
      } else {
        assert rank < n - 1 ==> vals[rank] <= vals[n - 1];
        ShrMonotone(vals[rank], vals[n - 1], remR);
      }
      assert Shr(vals[rank], remR) == q;
      Compare(vals[rank], idx, remR);
    }
  }

  /** The count is the number of positions that hold a smaller value. */
  lemma CountIsCardinality(vals: seq<uint32>, x: nat, r: nat)
    requires CountBelow(vals, x, r)
    ensures r == |set i | 0 <= i < |vals| && vals[i] < x|
  {
    assert (set i | 0 <= i < |vals| && vals[i] < x) == Below(r);
  }

  // ---- generation -------------------------------------------------------------------------------------

  /** The select structure gets a key exactly when the largest value is at least 2. */
  lemma SelectHasKeys(maxVal: nat, n: nat)
    requires n > 0
    ensures Shr(maxVal, RemainderBits(maxVal / n)) >= 1 <==> maxVal >= 2
  {
    hide Shr;
    var x := maxVal / n;
    var r := RemainderBits(x);
    QuotientBound(maxVal, n);
    ShrIsDivision(maxVal, r);
    assert Pow2(1) == 2;
    if Log2(x) > 0 {
      Log2Bounds(x);
      OneOrMore(maxVal, Pow2(r));
    } else {
      assert Shr(maxVal, 1) == maxVal / 2;
    }
  }

  lemma OneOrMore(a: nat, p: nat)
    requires 0 < p <= a
    ensures a / p >= 1
  {
    QuotientBound(a - p, p);
    var q, r := (a - p) / p, (a - p) % p;
    assert a == (q + 1) * p + r;
    DivisionUnique(a, p, q + 1, r);
  }

  lemma RemOfStep(rems: seq<uint32>, rems': seq<uint32>, vals: seq<uint32>, remR: nat, i: nat)
    requires 0 < remR < 32 && i < |vals| && |rems| == TableSize(|vals|, remR)
    requires Wrote(rems, rems', i * remR, And(vals[i], Mask(remR)), remR)
    requires forall k: nat :: k < i ==> RemOf(rems, vals, remR, k)
    ensures |rems'| == |rems| && forall k: nat :: k < i + 1 ==> RemOf(rems', vals, remR, k)
  {
    hide Wrote, GetBits;
    var v := And(vals[i], Mask(remR));
    WroteSize(rems, rems', i * remR, v, remR);
    TableFits(|vals|, remR, i);
    AndMask(vals[i], remR);
    ReadBack(rems, rems', i * remR, v, remR);
    forall k: nat | k < i
      ensures RemOf(rems', vals, remR, k)
    {
      assert RemOf(rems, vals, remR, k);
      TableFits(|vals|, remR, k);
      Apart(k, i, remR);
      ReadElsewhere(rems, rems', i * remR, v, remR, k * remR, remR);
    }
  }

  /** The table of the low bits of the values. */
  method StoreRemainders(vals: seq<uint32>, rems: array<uint32>, remR: nat)
    requires 0 < remR < 32 && rems.Length == TableSize(|vals|, remR)
    modifies rems
    ensures forall i: nat :: i < |vals| ==> RemOf(rems[..], vals, remR, i)
  {
    hide Wrote, RemOf, And, Mask, TableSize;
    for i := 0 to |vals|
      invariant |rems[..]| == TableSize(|vals|, remR)
      invariant forall k: nat :: k < i ==> RemOf(rems[..], vals, remR, k)
    {
      TableFits(|vals|, remR, i);
      AndMask(vals[i], remR);
      RemainderWord(vals[i], remR);
      ghost var rems0 := rems[..];
      SetValue(rems, i, And(vals[i], Mask(remR)), remR);
      RemOfStep(rems0, rems[..], vals, remR, i);
    }
  }

  /** The loop that fills select_vec with the boundaries of the quotients. */
  method FindBoundaries(vals: seq<uint32>, remR: nat) returns (selectVec: array<uint32>)
    requires 0 < |vals| < TWO32 && Sorted(vals)
    ensures fresh(selectVec) && Boundaries(vals, remR, selectVec[..])
  {
    hide Shr, Sorted;
    var maxVal := vals[|vals| - 1];
    ShrShrinks(maxVal, remR);
    selectVec := new uint32[Shr(maxVal, remR)](_ => 0);
    var j: uint32 := 0;
    for i := 1 to Shr(maxVal, remR) + 1
      invariant j < |vals| && forall k :: 0 <= k < j ==> Shr(vals[k], remR) < i
      invariant forall k :: 0 <= k < i - 1 ==> Boundary(vals, remR, k, selectVec[k])
    {
      while i > Shr(vals[j], remR)
        invariant j < |vals| && forall k :: 0 <= k < j ==> Shr(vals[k], remR) < i
        decreases |vals| - j
      {
        j := j + 1;
      }
      FromHereAbove(vals, remR, j, i);
      selectVec[i - 1] := j;
    }
  }

  lemma FromHereAbove(vals: seq<uint32>, remR: nat, j: nat, i: nat)
    requires Sorted(vals) && j < |vals| && i <= Shr(vals[j], remR)
    ensures forall k :: j <= k < |vals| ==> i <= Shr(vals[k], remR)
  {
    forall k | j <= k < |vals|
      ensures i <= Shr(vals[k], remR)
    {
      assert j < k ==> vals[j] <= vals[k];
      ShrMonotone(vals[j], vals[k], remR);
    }
  }

  lemma BoundaryOrder(vals: seq<uint32>, remR: nat, i: nat, a: nat, j: nat, b: nat)
    requires Boundary(vals, remR, i, a) && Boundary(vals, remR, j, b) && i < j
    ensures a <= b
  {
    assert j < Shr(vals[b], remR);
  }

  lemma BoundariesAreSorted(vals: seq<uint32>, remR: nat, keys: seq<nat>)
    requires Boundaries(vals, remR, keys)
    ensures Sorted(keys) && forall i :: 0 <= i < |keys| ==> keys[i] < |vals|
  {
    hide Shr;
    forall i, j | 0 <= i < j < |keys|
      ensures keys[i] <= keys[j]
    {
      BoundaryOrder(vals, remR, i, keys[i], j, keys[j]);
    }
    forall i | 0 <= i < |keys|
      ensures keys[i] < |vals|
    {
      assert Boundary(vals, remR, i, keys[i]);
    }
  }

  /** compressed_rank_generate. The source reads a key that is not there when the largest value is below 2. */
  method Generate(vals: seq<uint32>) returns (cr: Rank, ghost keys: seq<nat>)
    requires 0 < |vals| && |vals| + 31 < TWO32 / 2 && Sorted(vals) && vals[|vals| - 1] >= 2
    ensures cr.Holds(vals, keys) && cr.n == |vals|
  {
    hide RemOf, Select.For, Sorted, Boundary, Shr, TableSize;
    var n: uint32 := |vals|;
    var maxVal: uint32 := vals[n - 1];
    var remR := RemainderWidth(maxVal, n);
    SelectHasKeys(maxVal, n);
    HalfOf(maxVal, remR);
    var valsRems := new uint32[TableSize(n, remR)](_ => 0);
    StoreRemainders(vals, valsRems, remR);
    var selectVec := FindBoundaries(vals, remR);
    keys := selectVec[..];
    BoundariesAreSorted(vals, remR, keys);
    var sel := GenerateSelect(selectVec[..], n);
    cr := Rank(maxVal, n, remR, sel, valsRems[..]);
  }

  // ---- the packed form ------------------------------------------------------------------------------------

  /** compressed_rank_dump, in words */
  function Dump(cr: Rank): seq<uint32>
    requires 4 * |DumpSelect(cr.sel)| < TWO32
  {
    [cr.maxVal, cr.n, cr.remR, 4 * |DumpSelect(cr.sel)|] + DumpSelect(cr.sel) + cr.valsRems
  }

  /** The pointer arithmetic at the head of compressed_rank_query_packed. */
  function Unpack(p: seq<uint32>): (cr: Option<Rank>) {
    if |p| < 4 || 4 + p[3] / 4 > |p| then None else
      var sel := UnpackSelect(p[4..4 + p[3] / 4]);
      if sel.None? then None else Some(Rank(p[0], p[1], p[2], sel.value, p[4 + p[3] / 4..]))
  }

  lemma RoundTrip(cr: Rank, vals: seq<uint32>, keys: seq<nat>)
    requires cr.Holds(vals, keys)
    ensures 4 * |DumpSelect(cr.sel)| < TWO32 && Unpack(Dump(cr)) == Some(cr)
  {
    hide DumpSelect, UnpackSelect, TableSize;
    DumpSize(cr.sel, keys);
    SelectRoundTrip(cr.sel);
    var d := DumpSelect(cr.sel);
    var p := Dump(cr);
    assert p[4..4 + |d|] == d && p[4 + |d|..] == cr.valsRems;
  }

  /** compressed_rank_query_packed: the packed form counts like the structure it was dumped from. */
  method QueryPacked(packed: seq<uint32>, idx: uint32, ghost cr: Rank, ghost vals: seq<uint32>, ghost keys: seq<nat>)
    returns (rank: uint32)
    requires cr.Holds(vals, keys) && 4 * |DumpSelect(cr.sel)| < TWO32 && packed == Dump(cr)
    ensures CountBelow(vals, idx, rank)
  {
    hide Rank.Holds, Unpack;
    RoundTrip(cr, vals, keys);
    rank := Unpack(packed).value.Query(idx, vals, keys);
  }
}
