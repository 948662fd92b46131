/** bdz.c: the minimal perfect hash function built from a peeled 3-hypergraph and ranks. */
module BdzHash {
  import opened Arithmetic
  import opened Words
  import opened Counting
  import opened Bits
  import opened TwoBit
  import opened Hypergraph
  import opened Peeling
  import opened Assigning
  import opened Mapping

  // ---- ranks -------------------------------------------------------------------------------------

  ghost function IsAssigned(x: nat): nat {
    if x != UNASSIGNED then 1 else 0
  }

  /** How many vertices before v have a value. */
  ghost function RankOf(val: seq<nat>, v: nat): (r: nat)
    requires v <= |val|
    ensures r <= v
  {
    if v == 0 then 0 else RankOf(val, v - 1) + IsAssigned(val[v - 1])
  }

  // The rows of bdz_lookup_table, by the number of unassigned fields in the high half of the byte.
  const ROW4: seq<uint32> := [4, 4, 4, 3, 4, 4, 4, 3, 4, 4, 4, 3, 3, 3, 3, 2]
  const ROW3: seq<uint32> := [3, 3, 3, 2, 3, 3, 3, 2, 3, 3, 3, 2, 2, 2, 2, 1]
  const ROW2: seq<uint32> := [2, 2, 2, 1, 2, 2, 2, 1, 2, 2, 2, 1, 1, 1, 1, 0]
  const LOOKUP_TABLE: seq<seq<uint32>> :=
    [ROW4, ROW4, ROW4, ROW3, ROW4, ROW4, ROW4, ROW3, ROW4, ROW4, ROW4, ROW3, ROW3, ROW3, ROW3, ROW2]

  /** bdz_lookup_table */
  function Lookup(b: uint8): uint32 {
    LOOKUP_TABLE[b / 16][b % 16]
  }

  lemma FieldArithmetic(b: nat, k: nat)
    ensures Field(b, k) == (b / Pow2(2 * k)) % 4
  {
    TwoBits(Shr(b, 2 * k));
    ShrIsDivision(b, 2 * k);
  }

  lemma RowCounts(c: nat)
    requires c < 16
    ensures ROW4[c] == 2 + IsAssigned(c % 4) + IsAssigned(c / 4)
    ensures ROW3[c] == 1 + IsAssigned(c % 4) + IsAssigned(c / 4)
    ensures ROW2[c] == IsAssigned(c % 4) + IsAssigned(c / 4)
  {
  }

  lemma ByteParts(b: uint8)
    ensures b % 4 == (b % 16) % 4 && (b / 4) % 4 == (b % 16) / 4
    ensures (b / 16) % 4 == (b / 16) % 4 && (b / 64) % 4 == (b / 16) / 4
  {
    var h, l := b / 16, b % 16;
    assert b == 16 * h + l;
    assert b / 4 == 4 * h + l / 4;
    assert b / 64 == h / 4;
  }

  /** The table counts the assigned fields of every byte. */
  lemma LookupCounts(b: uint8)
    ensures Lookup(b) ==
      IsAssigned(Field(b, 0)) + IsAssigned(Field(b, 1)) + IsAssigned(Field(b, 2)) + IsAssigned(Field(b, 3))
  {
    hide Field, IsAssigned;
    var h: nat, l: nat := b / 16, b % 16;
    assert Pow2(0) == 1 && Pow2(2) == 4 && Pow2(4) == 16 && Pow2(6) == 64;
    FieldArithmetic(b, 0);
    FieldArithmetic(b, 1);
    FieldArithmetic(b, 2);
    FieldArithmetic(b, 3);
    ByteParts(b);
    RowCounts(l);
    RowOf(h);
    assert IsAssigned(h % 4) == (if h % 4 != 3 then 1 else 0) && IsAssigned(h / 4) == (if h / 4 != 3 then 1 else 0) by {
      IsAssignedValue(h % 4);
      IsAssignedValue(h / 4);
    }
  }

  lemma IsAssignedValue(x: nat)
    ensures IsAssigned(x) == if x != 3 then 1 else 0
  {
  }

  lemma RowOf(h: nat)
    requires h < 16
    ensures LOOKUP_TABLE[h] ==
      if h % 4 != 3 && h / 4 != 3 then ROW4 else if h == 15 then ROW2 else ROW3
  {
  }

  lemma RankStep(val: seq<nat>, v: nat)
    requires v < |val|
    ensures RankOf(val, v + 1) == RankOf(val, v) + IsAssigned(val[v])
  {
  }

  lemma RankByte(t: seq<uint8>, j: nat)
    requires j < |t|
    ensures 4 * j + 4 <= |Values(t)|
    ensures RankOf(Values(t), 4 * j + 4) == RankOf(Values(t), 4 * j) + Lookup(t[j])
  {
    hide Field, Lookup, RankOf, IsAssigned;
    var val := Values(t);
    LookupCounts(t[j]);
    assert val[4 * j] == Field(t[j], 0) && val[4 * j + 1] == Field(t[j], 1);
    assert val[4 * j + 2] == Field(t[j], 2) && val[4 * j + 3] == Field(t[j], 3);
    RankStep(val, 4 * j);
    RankStep(val, 4 * j + 1);
    RankStep(val, 4 * j + 2);
    RankStep(val, 4 * j + 3);
  }

  ghost function HasValue(val: seq<nat>): (b: seq<bool>)
    ensures |b| == |val|
  {
    seq(|val|, u requires 0 <= u < |val| => val[u] != UNASSIGNED)
  }

  lemma {:induction false} RankCounts(val: seq<nat>, v: nat)
    requires v <= |val|
    ensures RankOf(val, v) == CountBefore(HasValue(val), v)
  {
    if v > 0 {
      RankCounts(val, v - 1);
    }
  }

  ghost function ChosenRanks(E: seq<Triple>, n: nat, val: seq<nat>): seq<nat>
    requires AllChosen(E, n, val)
  {
    seq(|E|, e requires 0 <= e < |E| => RankOf(val, Chosen(val, E[e])))
  }

  lemma ChosenAssigned(E: seq<Triple>, n: nat, val: seq<nat>, e: nat)
    requires AllChosen(E, n, val) && e < |E|
    ensures E[e].v0 < |val| && E[e].v1 < |val| && E[e].v2 < |val|
    ensures Chosen(val, E[e]) < |val| && val[Chosen(val, E[e])] != UNASSIGNED
  {
  }

  /** The ranks of the edges' vertices are exactly the numbers below the number of edges. */
  lemma ChosenRanksAreBijection(E: seq<Triple>, n: nat, val: seq<nat>)
    requires AllChosen(E, n, val) && OnlyChosen(E, n, val)
    ensures Bijection(ChosenRanks(E, n, val), |E|)
  {
    hide Chosen, RankOf, Bijection;
    var b := HasValue(val);
    var chosen: seq<nat> := seq(|E|, e requires 0 <= e < |E| => Chosen(val, E[e]));
    forall e | 0 <= e < |E|
      ensures chosen[e] < |val| && b[chosen[e]]
    {
      ChosenAssigned(E, n, val, e);
    }
    forall v | 0 <= v < |b| && b[v]
      ensures v in chosen
    {
      var e :| 0 <= e < |E| && Chosen(val, E[e]) == v;
      assert chosen[e] == v;
    }
    RanksAreBijection(b, chosen);
    var r := seq(|chosen|, i requires 0 <= i < |chosen| => CountBefore(b, chosen[i]));
    forall e | 0 <= e < |E|
      ensures r[e] == ChosenRanks(E, n, val)[e]
    {
      ChosenAssigned(E, n, val, e);
      RankCounts(val, Chosen(val, E[e]));
    }
    assert r == ChosenRanks(E, n, val);
  }

  // ---- the rank table ------------------------------------------------------------------------------

  /** The number of bits of a block size: blocks are whole bytes, and their size is a word. */
  predicate BlockBits(b: nat) {
    2 <= b < 32
  }

  lemma BlockSize(b: nat)
    requires BlockBits(b)
    ensures 4 <= Pow2(b) < TWO32 && Pow2(b) % 4 == 0
  {
    assert Pow2(b) == 4 * Pow2(b - 2);
    Pow2Monotone(b, 31);
    Pow32();
  }

  ghost predicate RankTable(t: seq<uint8>, n: nat, b: nat, ranktable: seq<uint32>) {
    && BlockBits(b) && |t| == (n + 3) / 4 && n > 0
    && |ranktable| == (n + Pow2(b) - 1) / Pow2(b)
    && forall i :: 0 <= i < |ranktable| ==> BlockRank(t, Pow2(b), ranktable, i)
  }

  ghost predicate BlockRank(t: seq<uint8>, k: nat, ranktable: seq<uint32>, i: nat)
    requires i < |ranktable|
  {
    i * k <= 4 * |t| && ranktable[i] == RankOf(Values(t), i * k)
  }

  lemma BlockStart(n: nat, k: nat, i: nat)
    requires k > 0 && i < (n + k - 1) / k
    ensures i * k < n
  {
    var q := (n + k - 1) / k;
    assert q * k <= n + k - 1;
    assert i * k <= (q - 1) * k;
  }

  lemma BlockOf(n: nat, k: nat, v: nat)
    requires k > 0 && v < n
    ensures v / k < (n + k - 1) / k && (v / k) * k <= v < (v / k) * k + k
  {
    var q, i := (n + k - 1) / k, v / k;
    assert i * k <= v < i * k + k;
    assert q * k > n - 1;
    assert i >= q ==> i * k >= q * k by { Times(q, i, k); }
  }

  /** The inner loop of ranking. */
  method CountBytes(g: seq<uint8>, offset: uint32, nbytes: uint32, count: uint32) returns (count': uint32)
    requires offset + nbytes <= |g| && 4 * |g| < TWO32 && count == RankOf(Values(g), 4 * offset)
    ensures count' == RankOf(Values(g), 4 * (offset + nbytes))
  {
    hide Values, Lookup, RankOf;
    count' := count;
    for j := 0 to nbytes
      invariant count' == RankOf(Values(g), 4 * (offset + j))
    {
      RankByte(g, offset + j);
      count' := count' + Lookup(g[offset + j]);
    }
  }

  /** Where block i starts in the bytes of the table. */
  ghost function Offset(size: nat, i: nat): nat {
    i * size
  }

  lemma OffsetFacts(n: nat, k: nat, size: nat, i: nat)
    requires k == 4 * size && 0 < size && i < (n + k - 1) / k
    ensures i * k == 4 * Offset(size, i) && 4 * Offset(size, i) < n
    ensures Offset(size, i + 1) == Offset(size, i) + size
  {
    BlockStart(n, k, i);
    assert i * k == 4 * (i * size);
  }

  lemma NewEntry(g: seq<uint8>, k: nat, size: nat, table: seq<uint32>, i: nat)
    requires i < |table| && i * k == 4 * Offset(size, i) <= |Values(g)|
    requires table[i] == RankOf(Values(g), 4 * Offset(size, i))
    ensures BlockRank(g, k, table, i)
  {
  }

  /** ranking: the block table, one entry per k vertices. */
  method Ranking(g: seq<uint8>, n: uint32, b: nat) returns (ranktable: array<uint32>)
    requires BlockBits(b) && 0 < n && |g| == (n + 3) / 4 && 4 * |g| < TWO32
    ensures fresh(ranktable) && RankTable(g, n, b, ranktable[..])
  {
    hide Values, Pow2, BlockRank, Offset, RankOf;
    BlockSize(b);
    var k := Pow2(b);
    var size: uint32 := k / 4;
    var nbytesTotal: uint32 := (n + 3) / 4;
    var ranktablesize := (n + k - 1) / k;
    BlockOf(n, k, 0);
    ranktable := new uint32[ranktablesize](_ => 0);
    var offset: uint32, count: uint32 := 0, 0;
    ranktable[0] := 0;
    var i := 1;
    OffsetFacts(n, k, size, 0);
    FirstEntry(g, k, size, ranktable[..]);
    while i != ranktablesize
      invariant 1 <= i <= ranktablesize
      invariant offset == Offset(size, i - 1) <= |g| && nbytesTotal == |g| - offset
      invariant count == RankOf(Values(g), 4 * offset)
      invariant forall j :: 0 <= j < i ==> BlockRank(g, k, ranktable[..], j)
    {
      OffsetFacts(n, k, size, i - 1);
      OffsetFacts(n, k, size, i);
      var nbytes := if size < nbytesTotal then size else nbytesTotal;
      count := CountBytes(g, offset, nbytes, count);
      ghost var table := ranktable[..];
      ranktable[i] := count;
      NewEntry(g, k, size, ranktable[..], i);
      BlocksKept(g, k, table, ranktable[..], i);
      offset := offset + nbytes;
      nbytesTotal := nbytesTotal - size;
      i := i + 1;
    }
  }

  lemma FirstEntry(g: seq<uint8>, k: nat, size: nat, table: seq<uint32>)
    requires 0 < |table| && table[0] == 0
    ensures BlockRank(g, k, table, 0) && Offset(size, 0) == 0 && RankOf(Values(g), 0) == 0
  {
  }

  lemma BlocksKept(g: seq<uint8>, k: nat, table: seq<uint32>, table': seq<uint32>, i: nat)
    requires |table'| == |table| && i < |table| && forall j :: 0 <= j < i ==> BlockRank(g, k, table, j)
    requires forall j :: 0 <= j < i ==> table'[j] == table[j]
    requires BlockRank(g, k, table', i)
    ensures forall j :: 0 <= j < i + 1 ==> BlockRank(g, k, table', j)
  {
    forall j | 0 <= j < i
      ensures BlockRank(g, k, table', j)
    {
      assert BlockRank(g, k, table, j);
    }
  }

  /** The loops of rank: whole bytes, then single vertices. */
  method RankOnward(g: seq<uint8>, begB': uint32, base: uint32, vertex: uint32) returns (rank: uint32)
    requires 4 * begB' <= vertex < |Values(g)| && base == RankOf(Values(g), 4 * begB')
    ensures rank == RankOf(Values(g), vertex)
  {
    hide Values, Lookup, GetValue;
    ghost var val := Values(g);
    var begB := begB';
    var endB := vertex / 4;
    rank := base;
    while begB < endB
      invariant begB <= endB && rank == RankOf(val, 4 * begB)
    {
      RankByte(g, begB);
      rank := rank + Lookup(g[begB]);
      begB := begB + 1;
    }
    var begV: uint32 := begB * 4;
    while begV < vertex
      invariant begV <= vertex && rank == RankOf(val, begV)
    {
      ValueAt(g, begV);
      if GetValue(g, begV) != UNASSIGNED {
        rank := rank + 1;
      }
      begV := begV + 1;
    }
  }

  /** The first vertex of a block. */
  function BlockBegin(i: nat, k: nat): nat {
    i * k
  }

  lemma BlockBeginFacts(n: nat, k: nat, v: nat)
    requires k > 0 && k % 4 == 0 && v < n
    ensures Div(v, k) < Div(n + k - 1, k)
    ensures BlockBegin(Div(v, k), k) <= v && 4 * Div(BlockBegin(Div(v, k), k), 4) == BlockBegin(Div(v, k), k)
  {
    BlockOf(n, k, v);
    MultipleOf(Div(v, k), k);
  }

  lemma MultipleOf(i: nat, k: nat)
    requires k % 4 == 0
    ensures 4 * Div(BlockBegin(i, k), 4) == BlockBegin(i, k)
  {
    Multiple(i, k);
  }

  lemma BlockEntry(t: seq<uint8>, n: nat, b: nat, ranktable: seq<uint32>, i: nat)
    requires RankTable(t, n, b, ranktable) && i < Div(n + Pow2(b) - 1, Pow2(b))
    ensures n <= |Values(t)| && i < |ranktable| && BlockBegin(i, Pow2(b)) <= |Values(t)|
    ensures ranktable[i] == RankOf(Values(t), BlockBegin(i, Pow2(b)))
  {
    hide Pow2, RankOf, Values;
    assert BlockRank(t, Pow2(b), ranktable, i);
  }

  lemma BlockSizeOf(t: seq<uint8>, n: nat, b: nat, ranktable: seq<uint32>)
    requires RankTable(t, n, b, ranktable)
    ensures 4 <= Pow2(b) < TWO32 && Pow2(b) % 4 == 0
  {
    BlockSize(b);
  }

  /** rank: starts from a block entry. */
  method Rank(b: nat, ranktable: seq<uint32>, g: seq<uint8>, vertex: uint32, ghost n: uint32) returns (rank: uint32)
    requires RankTable(g, n, b, ranktable) && vertex < n
    ensures vertex <= |Values(g)| && rank == RankOf(Values(g), vertex)
  {
    hide Values, Pow2, RankOf, BlockBegin, RankTable, Div;
    BlockSizeOf(g, n, b, ranktable);
    var k := Pow2(b);
    BlockBeginFacts(n, k, vertex);
    var index := Div(vertex, k);
    BlockEntry(g, n, b, ranktable, index);
    var begV: uint32 := BlockBegin(index, k);
    rank := RankOnward(g, Div(begV, 4), ranktable[index], vertex);
  }

  lemma Multiple(i: nat, k: nat)
    requires k % 4 == 0
    ensures (i * k) % 4 == 0
  {
    assert i * k == 4 * (i * (k / 4)) by { assert k == 4 * (k / 4); }
  }

  // ---- the finished function ------------------------------------------------------------------------

  /** bdz_data_t */
  datatype Bdz = Bdz(n: uint32, m: uint32, r: uint32, b: nat, seed: uint32, g: seq<uint8>, ranktable: seq<uint32>) {
    ghost predicate Valid() {
      0 < r && n == 3 * r && RankTable(g, n, b, ranktable)
    }

    /** The rank of the vertex that the key's values select. */
    ghost function Index<Key>(hash: VectorHash<Key>, key: Key): nat
      requires Valid()
    {
      RankOf(Values(g), Chosen(Values(g), KeyTriple(hash, seed, r, key)))
    }

    /** bdz_search */
    method Search<Key>(hash: VectorHash<Key>, key: Key) returns (index: uint32)
      requires Valid()
      ensures index == Index(hash, key)
    {
      hide Values, GetValue, RankOf;
      var h := KeyTriple(hash, seed, r, key);
      ValueAt(g, h.v0);
      ValueAt(g, h.v1);
      ValueAt(g, h.v2);
      var vertex := h.Get((GetValue(g, h.v0) + GetValue(g, h.v1) + GetValue(g, h.v2)) % 3);
      index := Rank(b, ranktable, g, vertex, n);
    }
  }

  ghost function Indexes<Key>(f: Bdz, hash: VectorHash<Key>, keys: seq<Key>): seq<nat>
    requires f.Valid()
  {
    seq(|keys|, i requires 0 <= i < |keys| => f.Index(hash, keys[i]))
  }

  lemma IndexesAreRanks<Key>(f: Bdz, hash: VectorHash<Key>, keys: seq<Key>, E: seq<Triple>)
    requires f.Valid() && E == KeyTriples(hash, f.seed, f.r, keys)
    requires AllChosen(E, f.n, Values(f.g))
    ensures Indexes(f, hash, keys) == ChosenRanks(E, f.n, Values(f.g))
  {
    hide RankOf, Values, Chosen;
  }

  const ITERATIONS := 1000

  /**
   bdz_new: a bijection from the keys onto [0, m). last is the number of the last hypergraph drawn: those before were
   not peeled, and it is peeled exactly if there is a result, each under the condition that its degrees fit a byte.
   r is the size of a part, ceil(c * m / 3) made odd.
   */
  method New<Key>(keys: seq<Key>, r: uint32, b: nat, hash: VectorHash<Key>, seeds: seq<uint32>)
    returns (result: Option<Bdz>, ghost last: nat)
    requires 0 < r && 3 * r + 3 < TWO32 && |keys| < NULL_EDGE && BlockBits(b) && |seeds| == ITERATIONS
    ensures last < ITERATIONS && (result.None? ==> last == ITERATIONS - 1)
    ensures forall t: nat :: t < last && DegreesFit(GraphAt(keys, hash, seeds, r, t)) ==>
      !Peelable(GraphAt(keys, hash, seeds, r, t))
    ensures DegreesFit(GraphAt(keys, hash, seeds, r, last)) ==>
      (result.Some? <==> Peelable(GraphAt(keys, hash, seeds, r, last)))
    ensures |keys| <= 256 ==>
      (result.Some? <==> exists t: nat :: t < 1000 && Untangled(keys, hash, seeds[t], r))
    ensures |keys| == 2 ==> (result.Some? <==> exists t: nat, p: nat ::
      t < 1000 && p < 3 && hash(seeds[t], keys[0]).Get(p) % r != hash(seeds[t], keys[1]).Get(p) % r)
    ensures result.Some? ==> result.value.Valid() && result.value.m == |keys| && result.value.seed == seeds[last]
    ensures result.Some? && DegreesFit(GraphAt(keys, hash, seeds, r, last)) ==>
      Bijection(Indexes(result.value, hash, keys), |keys|)
  {
    hide Graph3.Valid, DegreesFit, Peelable, PeelOrder, KeyTriples, Untangled, AllChosen, Bijection, RankTable;
    var n: uint32 := 3 * r;
    var G := new Graph3(|keys|, n);
    G.ValidAllocated();
    var queue := new uint32[|keys|];
    var ok: bool, seed: uint32;
    ok, seed, last := MapUntil(G, queue, keys, hash, seeds, r, ITERATIONS);
    if |keys| <= 256 {
      DrawnByWords(keys, hash, seeds, r, last, ok);
    }
    if !ok {
      return None, last;
    }
    var g := Assign(G, queue);
    var ranktable := Ranking(g[..], n, b);
    var f := Bdz(n, |keys|, r, b, seed, g[..], ranktable[..]);
    if DegreesFit(G.E) {
      ChosenRanksAreBijection(G.E, n, Values(g[..]));
      IndexesAreRanks(f, hash, keys, G.E);
    }
    return Some(f), last;
  }
}
