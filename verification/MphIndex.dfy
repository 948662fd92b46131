/**
 mph_index.h and mph_index.cc of cxxmph: the construction of bdz.c as a class that can be set up again
 for other keys, with three ways to ask for a key's number.
 */
module MphIndexes {
  import opened Arithmetic
  import opened Words
  import opened Counting
  import opened Bits
  import opened TwoBit
  import opened Hypergraph
  import opened Peeling
  import opened Assigning
  import opened Mapping
  import opened BdzHash
  import opened MphBits

  // ---- Assigning -----------------------------------------------------------------------------------

  /** Marks a vertex and writes the blank value over it, unless it is marked already. */
  method TouchVertex(g: TwoBitSet, marked: array<bool>, v: nat)
    requires v < marked.Length <= 4 * g.data.Length
    modifies g.data, marked
    ensures marked[..] == old(marked[..])[v := true]
    ensures (!old(marked[v]) ==> old(g.Contents())[v] == UNASSIGNED) ==> g.Contents() == old(g.Contents())
  {
    hide TwoBitSet.Contents;
    if !marked[v] {
      g.Set(v, UNASSIGNED);
      marked[v] := true;
    }
  }

  /** Gives the p-th vertex of the edge its value. */
  method SettleVertex(g: TwoBitSet, marked: array<bool>, v: nat, w: nat, ghost p: nat, ghost t: Triple,
                      ghost m: seq<bool>)
    requires v < marked.Length <= 4 * g.data.Length && w <= 3
    modifies g.data, marked
    ensures CanSettle(t, m, old(marked[..]), old(g.Contents()), p, v, w, UNASSIGNED) ==>
      Handles(t, m, old(g.Contents()), g.Contents(), marked[..])
  {
    hide Values, SetsAt, Handles, Ready, Wanted, CanSettle;
    ghost var val, marked0 := g.Contents(), marked[..];
    g.Set(v, w);
    marked[v] := true;
    if CanSettle(t, m, marked0, val, p, v, w, UNASSIGNED) {
      CanSettleFacts(t, m, marked0, val, p, v, w, UNASSIGNED);
      ReadyFacts(t, m, val, UNASSIGNED);
      ValuesSmall(old(g.data[..]));
      Steers(t, m, val, p, v, w, UNASSIGNED);
      assert marked[..] == m[t.v0 := true][t.v1 := true][t.v2 := true];
      HandlesAt(t, m, val, g.Contents(), marked[..], p);
    }
  }

  /** One turn of the loop of MPHIndex::Assigning. */
  method HandleEdge(g: TwoBitSet, marked: array<bool>, e: Triple)
    requires e.v0 < marked.Length && e.v1 < marked.Length && e.v2 < marked.Length <= 4 * g.data.Length
    modifies g.data, marked
    ensures Ready(e, old(marked[..]), old(g.Contents()), UNASSIGNED) ==>
      Handles(e, old(marked[..]), old(g.Contents()), g.Contents(), marked[..])
  {
    hide TwoBitSet.Contents, SetsAt, Handles, Ready, CanSettle;
    ghost var val, m := g.Contents(), marked[..];
    ghost var ready := Ready(e, m, val, UNASSIGNED);
    if ready {
      ReadyFacts(e, m, val, UNASSIGNED);
    }
    if !marked[e.v0] {
      TouchVertex(g, marked, e.v1);
      TouchVertex(g, marked, e.v2);
      var w := (6 - (g.Get(e.v1) + g.Get(e.v2))) % 3;
      if ready {
        SettleNow(e, m, marked[..], val, 0, e.v0, w, UNASSIGNED);
      }
      SettleVertex(g, marked, e.v0, w, 0, e, m);
    } else if !marked[e.v1] {
      TouchVertex(g, marked, e.v2);
      var w := (7 - (g.Get(e.v0) + g.Get(e.v2))) % 3;
      if ready {
        SettleNow(e, m, marked[..], val, 1, e.v1, w, UNASSIGNED);
      }
      SettleVertex(g, marked, e.v1, w, 1, e, m);
    } else {
      var w := (8 - (g.Get(e.v0) + g.Get(e.v1))) % 3;
      if ready {
        SettleNow(e, m, marked[..], val, 2, e.v2, w, UNASSIGNED);
      }
      SettleVertex(g, marked, e.v2, w, 2, e, m);
    }
  }

  // ---- the class -------------------------------------------------------------------------------------

  const ATTEMPTS := 1000

  /** threebit_mod3 */
  const MOD3: seq<nat> := [0, 1, 2, 0, 1, 2, 0, 1, 2, 0]

  lemma Mod3Table(x: nat)
    requires x <= 9
    ensures MOD3[x] == x % 3
  {
  }

  lemma {:induction false} AndAtMost(a: nat, b: nat)
    ensures And(a, b) <= b
  {
    if a > 0 && b > 0 {
      AndAtMost(a / 2, b / 2);
    }
  }

  /** The size of a part: made odd, and in the square form rounded up to a power of two. */
  ghost function PartSize(part: nat, square: bool): (r: nat)
    ensures r >= 1
  {
    var odd := if part % 2 == 0 then part + 1 else part;
    if square then NextPower(odd) else odd
  }

  /** The smallest odd number from part on, or the smallest power of two that is not below it. */
  lemma PartSizes(part: nat)
    ensures var r := PartSize(part, false);
      r % 2 == 1 && part <= r && forall q: nat :: q % 2 == 1 && part <= q ==> r <= q
    ensures var odd, r := PartSize(part, false), PartSize(part, true);
      IsPower(r) && odd <= r && forall e: nat :: odd <= Pow2(e) ==> r <= Pow2(e)
  {
    NextPowerIsLeast(PartSize(part, false));
  }

  /** MPHIndex */
  class MphIndex {
    const square: bool
    const b: nat
    var m: uint32
    var n: uint32
    var k: uint32
    var r: uint32
    var nestDisplacement: seq<uint32>
    var g: TwoBitSet
    var threebitMod3: seq<nat>
    var ranktable: array?<uint32>
    var ranktableSize: uint32
    var hashSeed: uint32

    /** What perfect_hash needs. */
    ghost predicate Hashes()
      reads this, g
    {
      && 0 < r && n == 3 * r && n + 3 < TWO32 && g.Valid() && g.size == n
      && nestDisplacement == [0, r, 2 * r] && threebitMod3 == MOD3
    }

    /** What index needs besides. */
    ghost predicate Ranks()
      reads this, g, g.data, ranktable
    {
      ranktable != null && ranktable.Length == ranktableSize && RankTable(g.data[..], n, b, ranktable[..])
    }

    /** The vertex that a key's edge selects. */
    ghost function Vertex<Key>(hash: VectorHash<Key>, key: Key): nat
      requires Hashes()
      reads this, g, g.data
    {
      Chosen(g.Contents(), KeyTriple(hash, hashSeed, r, key))
    }

    ghost function Vertices<Key>(hash: VectorHash<Key>, keys: seq<Key>): (s: seq<nat>)
      requires Hashes()
      reads this, g, g.data
      ensures |s| == |keys|
    {
      seq(|keys|, i requires 0 <= i < |keys| && Hashes() reads this, g, g.data => Vertex(hash, keys[i]))
    }

    /** The rank of that vertex. */
    ghost function Index<Key>(hash: VectorHash<Key>, key: Key): nat
      requires Hashes()
      reads this, g, g.data
    {
      RankOf(g.Contents(), Vertex(hash, key))
    }

    ghost function Indexes<Key>(hash: VectorHash<Key>, keys: seq<Key>): (s: seq<nat>)
      requires Hashes()
      reads this, g, g.data
      ensures |s| == |keys|
    {
      seq(|keys|, i requires 0 <= i < |keys| && Hashes() reads this, g, g.data => Index(hash, keys[i]))
    }

    constructor (square: bool, b: nat)
      ensures this.square == square && this.b == b && m == n == 0 && r == 1
      ensures ranktable == null && ranktableSize == 0 && g.Valid() && g.size == 8 && fresh(g) && fresh(g.data)
    {
      this.square, this.b := square, b;
      m, n, k, r := 0, 0, 0, 1;
      nestDisplacement := [0, 1, 2];
      threebitMod3 := [];
      ranktable, ranktableSize := null, 0;
      hashSeed := 0;
      g := new TwoBitSet(8, true);
    }

    /** perfect_hash: the selected vertex, a number below n. */
    method PerfectHash<Key>(hash: VectorHash<Key>, key: Key) returns (vertex: uint32)
      requires g.size == 0 || Hashes()
      ensures g.size == 0 ==> vertex == 0
      ensures g.size > 0 ==> vertex == Vertex(hash, key) < n
    {
      hide TwoBitSet.Contents;
      if g.size == 0 {
        return 0;
      }
      var h := hash(hashSeed, key);
      var t := Triple(h.v0 % r + nestDisplacement[0], h.v1 % r + nestDisplacement[1], h.v2 % r + nestDisplacement[2]);
      assert t == KeyTriple(hash, hashSeed, r, key);
      vertex := Select(t);
    }

    /** The lookup shared by perfect_hash and perfect_square. */
    method Select(t: Triple) returns (vertex: uint32)
      requires Hashes() && t.v0 < n && t.v1 < n && t.v2 < n
      ensures vertex < n && vertex == Chosen(g.Contents(), t)
    {
      hide TwoBitSet.Contents;
      var sum := g.Get(t.v0) + g.Get(t.v1) + g.Get(t.v2);
      Mod3Table(sum);
      var nest := threebitMod3[sum];
      vertex := t.Get(nest);
    }

    /** perfect_square: masks where perfect_hash divides, which comes to the same for a power of two. */
    method PerfectSquare<Key>(hash: VectorHash<Key>, key: Key) returns (vertex: uint32)
      requires Hashes()
      ensures vertex < n
      ensures IsPower(r) ==> vertex == Vertex(hash, key)
    {
      hide TwoBitSet.Contents, And, IsPower;
      var h := hash(hashSeed, key);
      AndAtMost(h.v0, r - 1);
      AndAtMost(h.v1, r - 1);
      AndAtMost(h.v2, r - 1);
      var t := Triple(Masked(h.v0, r) + nestDisplacement[0], Masked(h.v1, r) + nestDisplacement[1],
                      Masked(h.v2, r) + nestDisplacement[2]);
      MaskingExact(r);
      assert IsPower(r) ==> t == KeyTriple(hash, hashSeed, r, key);
      vertex := Select(t);
    }

    /** Rank: 0 when there is no table. */
    method Rank(vertex: uint32) returns (rank: uint32)
      requires ranktableSize == 0 || (Hashes() && Ranks() && vertex < n)
      ensures ranktableSize == 0 ==> rank == 0
      ensures ranktableSize > 0 ==> vertex <= |g.Contents()| && rank == RankOf(g.Contents(), vertex)
    {
      hide RankTable, Values, RankOf;
      if ranktableSize == 0 {
        return 0;
      }
      rank := BdzHash.Rank(b, ranktable[..], g.data[..], vertex, n);
    }

    /** minimal_perfect_hash, which is also index. */
    method MinimalPerfectHash<Key>(hash: VectorHash<Key>, key: Key) returns (index: uint32)
      requires Hashes() && (ranktableSize == 0 || Ranks())
      ensures index == if ranktableSize == 0 then 0 else Index(hash, key)
    {
      hide TwoBitSet.Contents, RankOf, Ranks;
      var vertex := PerfectHash(hash, key);
      index := Rank(vertex);
    }

    /** clear: only the ranks are given up. */
    method Clear()
      modifies this`ranktable, this`ranktableSize
      ensures ranktable == null && ranktableSize == 0
    {
      ranktable, ranktableSize := null, 0;
    }

    /** Mapping, with the graph of its own that every attempt has. */
    method Mapping<Key>(keys: seq<Key>, hash: VectorHash<Key>) returns (ok: bool, G: Graph3, queue: array<uint32>)
      requires 0 < r && n == 3 * r && n < TWO32 && m == |keys| < NULL_EDGE
      ensures G.Valid() && G.nvertices == n && G.E == KeyTriples(hash, hashSeed, r, keys) && queue.Length == |keys|
      ensures ok ==> Bounded(queue[..], |G.E|)
      ensures DegreesFit(G.E) ==> (ok <==> Peelable(G.E)) && (ok ==> PeelOrder(G.E, queue[..]))
    {
      hide Graph3.Valid, DegreesFit, Peelable, PeelOrder, KeyTriples;
      G := new Graph3(m, n);
      G.ValidAllocated();
      queue := new uint32[m];
      ok := MapKeys(G, queue, keys, hash, hashSeed, r);
    }

    /** Assigning: the new table replaces the old one only when it is finished. */
    method Assigning(G: Graph3, queue: array<uint32>)
      requires G.Valid() && queue.Length == |G.E| && Bounded(queue[..], |G.E|) && G.nvertices == n
      modifies this`g
      ensures g.Valid() && g.size == n && fresh(g) && fresh(g.data)
      ensures PeelOrder(G.E, queue[..]) ==> AllChosen(G.E, n, g.Contents()) && OnlyChosen(G.E, n, g.Contents())
    {
      hide Graph3.Valid, PeelOrder, Assigned, Handles, AllChosen, InGraph, TwoBitSet.Contents;
      G.ValidSizes();
      ghost var q: seq<nat> := queue[..];
      var marked := new bool[n](_ => false); // the source allocates one more, which is not used
      var g' := new TwoBitSet(n, true);
      ghost var peeled := PeelOrder(G.E, q);
      if peeled {
        AssignStart(G.E, q, g'.Contents(), marked[..], UNASSIGNED);
      }
      var i: int := G.nedges;
      while i > 0
        invariant 0 <= i <= |q|
        invariant peeled ==> Assigned(G.E, q, i, g'.Contents(), marked[..], UNASSIGNED)
      {
        i := i - 1;
        var e: uint32 := queue[i];
        VertexRead(G, e);
        ghost var val, mk := g'.Contents(), marked[..];
        if peeled {
          NextEdge(G.E, q, i + 1, val, mk, UNASSIGNED);
        }
        HandleEdge(g', marked, G.vertices[e]);
        if peeled {
          Handled(G.E, q, i + 1, val, mk, UNASSIGNED, g'.Contents(), marked[..]);
        }
      }
      if peeled {
        ChosenDistinct(G.E, q, g'.Contents(), marked[..], UNASSIGNED);
      }
      g := g';
    }

    /** Ranking */
    method Ranking()
      requires Hashes() && BlockBits(b)
      modifies this`ranktable, this`ranktableSize
      ensures Ranks() && ranktableSize > 0 && fresh(ranktable)
    {
      hide RankTable, Pow2;
      var table := BdzHash.Ranking(g.data[..], n, b);
      TableSize(g.data[..], n, b, table[..]);
      ranktable, ranktableSize := table, table.Length;
    }

    /** When the table is assigned, the index is set up for these keys. */
    lemma SetUp<Key>(keys: seq<Key>, hash: VectorHash<Key>, E: seq<Triple>)
      requires Hashes() && E == KeyTriples(hash, hashSeed, r, keys)
      requires AllChosen(E, n, g.Contents()) && OnlyChosen(E, n, g.Contents())
      ensures Bijection(Indexes(hash, keys), |keys|)
      ensures Distinct(Vertices(hash, keys)) && Bounded(Vertices(hash, keys), n)
    {
      hide RankOf, Values, Chosen;
      ChosenRanksAreBijection(E, n, g.Contents());
      assert Indexes(hash, keys) == ChosenRanks(E, n, g.Contents());
      var vs := Vertices(hash, keys);
      forall i | 0 <= i < |keys|
        ensures vs[i] == Chosen(g.Contents(), E[i]) < n
      {
        ChosenBelow(E, n, g.Contents(), i);
        assert E[i] == KeyTriple(hash, hashSeed, r, keys[i]);
      }
    }

    /** The sizes that Reset computes for m keys. */
    method Prepare(m: uint32, part: uint32)
      requires BlockBits(b) && 0 < part && 3 * PartSize(part, square) + 3 < TWO32
      modifies this`m, this`n, this`k, this`r, this`nestDisplacement, this`threebitMod3
      ensures this.m == m && r == PartSize(part, square) && n == 3 * r && k == Pow2(b)
      ensures nestDisplacement == [0, r, 2 * r] && threebitMod3 == MOD3
    {
      hide NextPower, Pow2;
      this.m := m;
      PartWord(part, square);
      r := if part % 2 == 0 then part + 1 else part;
      if square {
        r := NextPowerOfTwo(r);
      }
      nestDisplacement := [0, r, 2 * r];
      threebitMod3 := MOD3;
      n := 3 * r;
      BlockSize(b);
      k := Pow2(b);
    }

    /** The loop of Reset: draws seeds until a hypergraph peels. last is the number of the last one. */
    method FindSeed<Key>(keys: seq<Key>, hash: VectorHash<Key>, seeds: seq<uint32>)
      returns (ok: bool, G: Graph3, queue: array<uint32>, ghost last: nat)
      requires 0 < r && n == 3 * r && n < TWO32 && m == |keys| < NULL_EDGE && |seeds| == ATTEMPTS
      modifies this`hashSeed
      ensures last < ATTEMPTS && hashSeed == seeds[last] && (!ok ==> last == ATTEMPTS - 1)
      ensures forall t: nat :: t < last && DegreesFit(GraphAt(keys, hash, seeds, r, t)) ==>
        !Peelable(GraphAt(keys, hash, seeds, r, t))
      ensures DegreesFit(GraphAt(keys, hash, seeds, r, last)) ==>
        (ok <==> Peelable(GraphAt(keys, hash, seeds, r, last)))
      ensures ok ==> G.Valid() && G.nvertices == n && G.E == GraphAt(keys, hash, seeds, r, last)
      ensures ok ==> queue.Length == |keys| && Bounded(queue[..], |G.E|)
      ensures ok && DegreesFit(G.E) ==> PeelOrder(G.E, queue[..])
    {
      hide Graph3.Valid, DegreesFit, Peelable, PeelOrder, KeyTriples;
      var iterations := ATTEMPTS;
      while true
        invariant 0 < iterations <= ATTEMPTS
        invariant forall t: nat :: t < ATTEMPTS - iterations && DegreesFit(GraphAt(keys, hash, seeds, r, t)) ==>
          !Peelable(GraphAt(keys, hash, seeds, r, t))
        decreases iterations
      {
        last := ATTEMPTS - iterations;
        hashSeed := seeds[ATTEMPTS - iterations];
        ok, G, queue := Mapping(keys, hash);
        if ok {
          return;
        }
        iterations := iterations - 1;
        if iterations == 0 {
          return;
        }
      }
    }

    /**
     Reset: sets the index up for the keys. last is the number of the last hypergraph drawn: those before were not
     peeled, and it is peeled exactly if the reset succeeds, each under the condition that its degrees fit a byte.
     With no keys only the ranks are given up. part is the size of a part before it is made odd.
     */
    method Reset<Key>(keys: seq<Key>, part: uint32, hash: VectorHash<Key>, seeds: seq<uint32>)
      returns (ok: bool, ghost last: nat)
      requires BlockBits(b) && |seeds| == ATTEMPTS && |keys| <= 0x8000_0000
      requires 0 < part && 3 * PartSize(part, square) + 3 < TWO32
      modifies this
      ensures keys == [] ==> ok && ranktableSize == 0
      ensures keys == [] ==> g == old(g) && m == old(m) && r == old(r) && hashSeed == old(hashSeed)
      ensures keys == [] && old(Hashes()) ==> Hashes()
      ensures keys != [] ==> m == |keys| && r == PartSize(part, square)
      ensures last < ATTEMPTS && (!ok ==> last == ATTEMPTS - 1)
      ensures keys != [] ==> forall t: nat :: t < last && DegreesFit(GraphAt(keys, hash, seeds, r, t)) ==>
        !Peelable(GraphAt(keys, hash, seeds, r, t))
      ensures keys != [] && DegreesFit(GraphAt(keys, hash, seeds, r, last)) ==>
        (ok <==> Peelable(GraphAt(keys, hash, seeds, r, last)))
      ensures 0 < |keys| <= 256 ==> (ok <==> exists t: nat :: t < 1000 && Untangled(keys, hash, seeds[t], r))
      ensures |keys| == 2 ==> (ok <==> exists t: nat, p: nat ::
        t < 1000 && p < 3 && hash(seeds[t], keys[0]).Get(p) % r != hash(seeds[t], keys[1]).Get(p) % r)
      ensures !ok ==> g == old(g) && ranktable == old(ranktable) && ranktableSize == old(ranktableSize)
      ensures keys != [] && ok ==> Hashes() && Ranks() && ranktableSize > 0 && hashSeed == seeds[last]
      ensures keys != [] && ok ==> fresh(g) && fresh(g.data) && fresh(ranktable)
      ensures keys != [] && ok && DegreesFit(GraphAt(keys, hash, seeds, r, last)) ==>
        && Bijection(Indexes(hash, keys), |keys|)
        && Distinct(Vertices(hash, keys)) && Bounded(Vertices(hash, keys), n)
    {
      hide Graph3.Valid, DegreesFit, PeelOrder, KeyTriples, AllChosen, Bijection, RankTable, TwoBitSet.Contents,
        Peelable, PartSize, Untangled;
      if keys == [] {
        Clear();
        return true, 0;
      }
      Prepare(|keys|, part);
      var G: Graph3, queue: array<uint32>;
      ok, G, queue, last := FindSeed(keys, hash, seeds);
      if |keys| <= 256 {
        DrawnByWords(keys, hash, seeds, r, last, ok);
      }
      if ok {
        Assigning(G, queue);
        Ranking();
        if DegreesFit(G.E) {
          SetUp(keys, hash, G.E);
        }
      }
    }

    /** In the square form a part is a power of two, as perfect_square needs. */
    lemma SquareIsPower(part: nat)
      requires square && r == PartSize(part, square)
      ensures IsPower(r)
    {
      NextPowerIsLeast(if part % 2 == 0 then part + 1 else part);
    }
  }

  lemma ChosenBelow(E: seq<Triple>, n: nat, val: seq<nat>, i: nat)
    requires AllChosen(E, n, val) && i < |E|
    ensures E[i].v0 < |val| && E[i].v1 < |val| && E[i].v2 < |val| && Chosen(val, E[i]) < n
  {
  }

  lemma FewBlocks(n: nat, k: nat, c: nat)
    requires 0 < n && 0 < k && c == Div(n + k - 1, k)
    ensures 0 < c <= n
  {
    var r := (n + k - 1) % k;
    assert c * k + r == n + k - 1 && r < k by { Divides(n + k - 1, k); }
    Times(n + 1, c, k);
    Spread(n, k);
  }

  lemma Spread(n: nat, k: nat)
    requires 0 < k
    ensures (n + 1) * k >= n + k
  {
    assert (n + 1) * k == n * k + k && n * k >= n;
  }

  lemma TableSize(t: seq<uint8>, n: nat, b: nat, ranktable: seq<uint32>)
    requires RankTable(t, n, b, ranktable)
    ensures 0 < |ranktable| <= n
  {
    hide Pow2, BlockRank;
    BlockSize(b);
    FewBlocks(n, Pow2(b), |ranktable|);
  }

  /** Neither making the size odd nor rounding it up leaves the word. */
  lemma PartWord(part: uint32, square: bool)
    requires 3 * PartSize(part, square) + 3 < TWO32
    ensures part + 1 < TWO32
    ensures square && part % 2 == 0 ==> part + 1 <= Pow2(31)
    ensures square && part % 2 == 1 ==> part <= Pow2(31)
  {
    NextPowerIsLeast(if part % 2 == 0 then part + 1 else part);
    Pow32();
  }
}
