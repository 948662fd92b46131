/** The mapping step shared by bdz.c and bdz_ph.c: keys become the edges of a 3-partite hypergraph. */
module Mapping {
  import opened Words
  import opened Counting
  import opened Hypergraph
  import opened Peeling

  /** hash_vector: three words from a seed and a key, an arbitrary function. */
  type VectorHash<!Key> = (uint32, Key) -> Triple

  /** The three vertices of a key, one in each part. */
  function KeyTriple<Key>(hash: VectorHash<Key>, seed: uint32, r: uint32, key: Key): (t: Triple)
    requires 0 < r && 3 * r < TWO32
    ensures t.v0 < r <= t.v1 < 2 * r <= t.v2 < 3 * r
  {
    var hl := hash(seed, key);
    Triple(hl.v0 % r, hl.v1 % r + r, hl.v2 % r + 2 * r)
  }

  ghost function KeyTriples<Key>(hash: VectorHash<Key>, seed: uint32, r: uint32, keys: seq<Key>): (E: seq<Triple>)
    requires 0 < r && 3 * r < TWO32
    ensures |E| == |keys|
  {
    seq(|keys|, i requires 0 <= i < |keys| => KeyTriple(hash, seed, r, keys[i]))
  }

  /** Hypergraph number t. */
  ghost function GraphAt<Key>(keys: seq<Key>, hash: VectorHash<Key>, seeds: seq<uint32>, r: nat, t: nat): seq<Triple>
    requires 0 < r && 3 * r < TWO32 && t < |seeds|
  {
    KeyTriples(hash, seeds[t], r, keys)
  }

  // ---- what the words of the keys have to do with it ------------------------------------------------------

  /** Two keys agree in word p modulo r. */
  ghost predicate Agree<Key>(hash: VectorHash<Key>, seed: uint32, r: uint32, k: Key, l: Key, p: nat)
    requires 0 < r && p < 3
  {
    hash(seed, k).Get(p) % r == hash(seed, l).Get(p) % r
  }

  /** Keys meet in a vertex exactly if it is in the same part and they agree in that word. */
  lemma VerticesMeet<Key>(hash: VectorHash<Key>, seed: uint32, r: uint32, k: Key, l: Key, p: nat, q: nat)
    requires 0 < r && 3 * r < TWO32 && p < 3 && q < 3
    ensures KeyTriple(hash, seed, r, k).Get(p) == KeyTriple(hash, seed, r, l).Get(q)
      <==> p == q && Agree(hash, seed, r, k, l, p)
  {
  }

  /** Every key of C agrees in each of its words with another key of C. */
  ghost predicate Tangled<Key>(keys: seq<Key>, hash: VectorHash<Key>, seed: uint32, r: uint32, C: set<nat>)
    requires 0 < r
  {
    && (forall i :: i in C ==> i < |keys|)
    && forall i, p: nat :: i in C && i < |keys| && p < 3 ==> HasPartner(keys, hash, seed, r, C, i, p)
  }

  ghost predicate HasPartner<Key>(keys: seq<Key>, hash: VectorHash<Key>, seed: uint32, r: uint32, C: set<nat>, i: nat,
                                  p: nat)
    requires 0 < r && p < 3 && i < |keys|
  {
    exists j :: j in C && j < |keys| && j != i && Agree(hash, seed, r, keys[i], keys[j], p)
  }

  /** No keys are tangled. */
  ghost predicate Untangled<Key>(keys: seq<Key>, hash: VectorHash<Key>, seed: uint32, r: uint32)
    requires 0 < r
  {
    forall C: set<nat> :: Tangled(keys, hash, seed, r, C) ==> C == {}
  }

  lemma PrivateIsPartnerless<Key>(keys: seq<Key>, hash: VectorHash<Key>, seed: uint32, r: uint32, C: set<nat>, i: nat)
    requires 0 < r && 3 * r < TWO32 && i in C && forall j :: j in C ==> j < |keys|
    ensures HasPrivate(KeyTriples(hash, seed, r, keys), C, i)
      <==> exists p: nat :: p < 3 && !HasPartner(keys, hash, seed, r, C, i, p)
  {
    hide Agree, KeyTriple;
    var E := KeyTriples(hash, seed, r, keys);
    if v: nat :| Private(E, C, i, v) {
      var p: nat := E[i].Pos(v);
      assert E[i].Get(p) == v;
      forall j | j in C && j < |keys| && j != i
        ensures !Agree(hash, seed, r, keys[i], keys[j], p)
      {
        VerticesMeet(hash, seed, r, keys[i], keys[j], p, p);
        assert E[j].Get(p) != v;
      }
      assert !HasPartner(keys, hash, seed, r, C, i, p);
    }
    if p: nat :| p < 3 && !HasPartner(keys, hash, seed, r, C, i, p) {
      var v: nat := E[i].Get(p);
      forall j | j in C && E[j].Has(v)
        ensures j == i
      {
        VerticesMeet(hash, seed, r, keys[i], keys[j], p, 0);
        VerticesMeet(hash, seed, r, keys[i], keys[j], p, 1);
        VerticesMeet(hash, seed, r, keys[i], keys[j], p, 2);
      }
      assert Private(E, C, i, v);
    }
  }

  /** The hypergraph can be peeled if and only if no keys are tangled. */
  lemma PeelsByWords<Key>(keys: seq<Key>, hash: VectorHash<Key>, seed: uint32, r: uint32)
    requires 0 < r && 3 * r < TWO32
    ensures Peelable(KeyTriples(hash, seed, r, keys)) <==> Untangled(keys, hash, seed, r)
  {
    hide HasPrivate, HasPartner, KeyTriple;
    var E := KeyTriples(hash, seed, r, keys);
    forall C: set<nat>
      ensures MinDegreeTwo(E, C) <==> Tangled(keys, hash, seed, r, C)
    {
      forall i | i in C && forall j :: j in C ==> j < |keys|
        ensures HasPrivate(E, C, i) <==> exists p: nat :: p < 3 && !HasPartner(keys, hash, seed, r, C, i, p)
      {
        PrivateIsPartnerless(keys, hash, seed, r, C, i);
      }
    }
  }

  /** Up to 256 keys no vertex has a degree that a byte cannot hold. */
  lemma FewKeysFit(E: seq<Triple>)
    requires |E| <= 256
    ensures DegreesFit(E)
  {
    forall v: nat
      ensures |EdgesAt(E, v)| <= 256
    {
      SubsetSize(EdgesAt(E, v), Below(|E|));
    }
  }

  /** Two keys are not tangled exactly if they disagree in some word. */
  lemma TwoKeys<Key>(keys: seq<Key>, hash: VectorHash<Key>, seed: uint32, r: uint32)
    requires 0 < r && |keys| == 2
    ensures Untangled(keys, hash, seed, r) <==>
      exists p: nat :: p < 3 && !Agree(hash, seed, r, keys[0], keys[1], p)
  {
    hide Agree;
    forall p: nat | p < 3
      ensures Agree(hash, seed, r, keys[0], keys[1], p) <==> Agree(hash, seed, r, keys[1], keys[0], p)
    {
      AgreeBack(hash, seed, r, keys[0], keys[1], p);
    }
    if forall p: nat :: p < 3 ==> Agree(hash, seed, r, keys[0], keys[1], p) {
      var C: set<nat> := {0, 1};
      forall i, p: nat | i in C && p < 3
        ensures HasPartner(keys, hash, seed, r, C, i, p)
      {
        assert (1 - i) in C;
      }
      assert Tangled(keys, hash, seed, r, C);
    }
    forall C: set<nat>, p: nat | Tangled(keys, hash, seed, r, C) && C != {} && p < 3
      ensures Agree(hash, seed, r, keys[0], keys[1], p)
    {
      TangledAgree(keys, hash, seed, r, C, p);
    }
  }

  lemma TangledAgree<Key>(keys: seq<Key>, hash: VectorHash<Key>, seed: uint32, r: uint32, C: set<nat>, p: nat)
    requires 0 < r && |keys| == 2 && Tangled(keys, hash, seed, r, C) && C != {} && p < 3
    ensures Agree(hash, seed, r, keys[0], keys[1], p)
  {
    hide Agree;
    var i :| i in C;
    assert HasPartner(keys, hash, seed, r, C, i, p);
    AgreeBack(hash, seed, r, keys[0], keys[1], p);
  }

  lemma AgreeBack<Key>(hash: VectorHash<Key>, seed: uint32, r: uint32, k: Key, l: Key, p: nat)
    requires 0 < r && p < 3
    ensures Agree(hash, seed, r, k, l, p) <==> Agree(hash, seed, r, l, k, p)
  {
  }

  lemma TwoKeysByWords<Key>(keys: seq<Key>, hash: VectorHash<Key>, seed: uint32, r: uint32)
    requires 0 < r && |keys| == 2
    ensures Untangled(keys, hash, seed, r) <==> exists p: nat ::
      p < 3 && hash(seed, keys[0]).Get(p) % r != hash(seed, keys[1]).Get(p) % r
  {
    hide Untangled;
    TwoKeys(keys, hash, seed, r);
    assert forall p: nat :: p < 3 ==> (Agree(hash, seed, r, keys[0], keys[1], p) <==>
      hash(seed, keys[0]).Get(p) % r == hash(seed, keys[1]).Get(p) % r);
  }

  /** Which keys get a function, in terms of their words: those that are not tangled under some seed. */
  lemma DrawnByWords<Key>(keys: seq<Key>, hash: VectorHash<Key>, seeds: seq<uint32>, r: uint32, last: nat, ok: bool)
    requires 0 < r && 3 * r < TWO32 && last < |seeds| && (!ok ==> last == |seeds| - 1) && |keys| <= 256
    requires forall t: nat :: t < last && DegreesFit(GraphAt(keys, hash, seeds, r, t)) ==>
      !Peelable(GraphAt(keys, hash, seeds, r, t))
    requires DegreesFit(GraphAt(keys, hash, seeds, r, last)) ==>
      (ok <==> Peelable(GraphAt(keys, hash, seeds, r, last)))
    ensures ok <==> exists t: nat :: t < |seeds| && Untangled(keys, hash, seeds[t], r)
    ensures |keys| == 2 ==> (ok <==> exists t: nat, p: nat ::
      t < |seeds| && p < 3 && hash(seeds[t], keys[0]).Get(p) % r != hash(seeds[t], keys[1]).Get(p) % r)
  {
    hide Untangled, Peelable, DegreesFit, KeyTriples;
    forall t: nat | t <= last
      ensures Untangled(keys, hash, seeds[t], r) <==> ok && t == last
    {
      FewKeysFit(GraphAt(keys, hash, seeds, r, t));
      PeelsByWords(keys, hash, seeds[t], r);
    }
    assert Untangled(keys, hash, seeds[last], r) <==> ok;
    if |keys| == 2 {
      forall t: nat | t < |seeds|
        ensures Untangled(keys, hash, seeds[t], r) <==> exists p: nat ::
          p < 3 && hash(seeds[t], keys[0]).Get(p) % r != hash(seeds[t], keys[1]).Get(p) % r
      {
        TwoKeysByWords(keys, hash, seeds[t], r);
      }
    }
  }

  lemma BelowNone()
    ensures Below(0) == {}
  {
  }

  lemma BelowNext(n: nat)
    ensures Below(n + 1) == Below(n) + {n}
  {
  }

  /** bdz_mapping: when degrees fit a byte, it succeeds exactly if the hypergraph peels away completely. */
  method MapKeys<Key>(G: Graph3, queue: array<uint32>, keys: seq<Key>, hash: VectorHash<Key>, seed: uint32, r: uint32)
    returns (ok: bool)
    requires G.Allocated() && G.nvertices == 3 * r && 0 < r && G.vertices.Length == |keys| == queue.Length
    requires queue != G.firstEdge
    modifies G`nedges, G`E, G`lists, G`live, G.vertices, G.nextEdges, G.firstEdge, G.vertDegree, queue
    ensures G.Valid() && G.E == KeyTriples(hash, seed, r, keys)
    ensures ok ==> Bounded(queue[..], |G.E|)
    ensures DegreesFit(G.E) ==> (ok <==> Peelable(G.E)) && (ok ==> PeelOrder(G.E, queue[..]))
  {
    hide Graph3.Valid, DegreesFit, Peelable, PeelOrder, Below;
    ghost var all := KeyTriples(hash, seed, r, keys);
    assert Below(0) == {} by { BelowNone(); }
    G.Init();
    for e := 0 to |keys|
      invariant G.Valid() && G.E == all[..e] && G.live == Below(e)
    {
      G.ValidSizes();
      var h := KeyTriple(hash, seed, r, keys[e]);
      G.AddEdge(h.v0, h.v1, h.v2);
      assert all[..e + 1] == all[..e] + [h];
      BelowNext(e);
    }
    assert all[..|keys|] == all;
    var cycles := GenerateQueue(G, queue);
    ok := cycles == 0;
  }

  /**
   The mapping loop of bdz_new and bdz_ph_new: draws hypergraphs until one peels; last is the number of the last one.
   */
  method MapUntil<Key>(G: Graph3, queue: array<uint32>, keys: seq<Key>, hash: VectorHash<Key>, seeds: seq<uint32>,
                       r: uint32, tries: nat)
    returns (ok: bool, seed: uint32, ghost last: nat)
    requires G.Allocated() && G.nvertices == 3 * r && 0 < r && G.vertices.Length == |keys| == queue.Length
    requires queue != G.firstEdge && 0 < tries == |seeds|
    modifies G`nedges, G`E, G`lists, G`live, G.vertices, G.nextEdges, G.firstEdge, G.vertDegree, queue
    ensures last < tries && seed == seeds[last] && (!ok ==> last == tries - 1)
    ensures forall t: nat :: t < last && DegreesFit(GraphAt(keys, hash, seeds, r, t)) ==>
      !Peelable(GraphAt(keys, hash, seeds, r, t))
    ensures DegreesFit(GraphAt(keys, hash, seeds, r, last)) ==> (ok <==> Peelable(GraphAt(keys, hash, seeds, r, last)))
    ensures ok ==> G.Valid() && G.E == GraphAt(keys, hash, seeds, r, last) && Bounded(queue[..], |G.E|)
    ensures ok && DegreesFit(G.E) ==> PeelOrder(G.E, queue[..])
  {
    hide Graph3.Valid, DegreesFit, Peelable, PeelOrder, KeyTriples;
    var iterations := tries;
    while true
      invariant 0 < iterations <= tries && G.Allocated()
      invariant forall t: nat :: t < tries - iterations && DegreesFit(GraphAt(keys, hash, seeds, r, t)) ==>
        !Peelable(GraphAt(keys, hash, seeds, r, t))
      decreases iterations
    {
      last := tries - iterations;
      seed := seeds[tries - iterations];
      ok := MapKeys(G, queue, keys, hash, seed, r);
      if ok {
        return;
      }
      G.ValidAllocated();
      iterations := iterations - 1;
      if iterations == 0 {
        return;
      }
    }
  }
}
