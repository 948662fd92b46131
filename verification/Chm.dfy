/**
 chm.c: an order-preserving minimal perfect hash function. The keys are the edges of a random
 graph; when it has no cycle, a depth-first labelling makes the labels of the two ends of edge i
 add up to i.
 */
module Chm {
  import opened Arithmetic
  import opened Words
  import opened Counting
  import opened Multigraph
  import opened TreePaths
  import opened Graphs
  import opened Keys

  /** The labels of every edge inside S add up to the number of the edge. */
  ghost predicate Labelled(E: seq<Edge>, g: seq<uint32>, S: set<nat>) {
    InGraph(E, |g|) && forall e :: 0 <= e < |E| && Inside(E[e], S) ==> Sum(g, E[e]) == e
  }

  lemma LabelOne(E: seq<Edge>, g: seq<uint32>, g': seq<uint32>, S: set<nat>, v: nat, y: nat, e: nat)
    requires Labelled(E, g, S) && v in S && y !in S && v < |g| && y < |g| && e < |E| <= EMPTY && Joins(E[e], v, y)
    requires g' == g[y := Sub32(e, g[v])]
    requires forall f :: 0 <= f < |E| && f != e && Inside(E[f], S + {y}) ==> Inside(E[f], S)
    ensures Labelled(E, g', S + {y})
  {
    SubAdd(g[v], e);
  }

  /** One depth-first step: y gets the label that completes edge e. */
  lemma LabelStep(E: seq<Edge>, n: nat, g: seq<uint32>, g': seq<uint32>, w: Walk, v: nat, y: nat, e: nat)
    requires |g| == n && Labelled(E, g, w.Seen()) && |E| <= EMPTY
    requires WalkOk(E, {}, n, w) && v in w.W && y < n && y !in w.Seen()
    requires e < |E| && Joins(E[e], v, y) && g' == g[y := Sub32(e, g[v])]
    ensures WalkOk(E, {}, n, w.Grow(v, y, e))
    ensures w.Grow(v, y, e).Seen() == w.Seen() + {y}
    ensures Labelled(E, g', w.Seen() + {y})
  {
    GrowOk(E, {}, n, w, v, y, e);
    LabelOne(E, g, g', w.Seen(), v, y, e);
  }

  /** The arrays agree with the walk: what it saw is marked and labelled. */
  ghost predicate State(E: seq<Edge>, n: nat, g: seq<uint32>, visited: seq<bool>, w: Walk) {
    && |g| == |visited| == n && |E| <= EMPTY
    && WalkOk(E, {}, n, w) && Labelled(E, g, w.Seen()) && Marked(visited) == w.Seen()
  }

  lemma StartLoop(E: seq<Edge>, n: nat, g: seq<uint32>, visited: seq<bool>, w: Walk, m: nat, l: seq<nat>)
    requires State(E, n, g, visited, w)
    ensures NoLoops(E) && |w.Seen()| <= n
    ensures NewExhausted(E, w, w.W) && Done(E, m, l, 0, w.Seen())
  {
    SubsetSize(w.Seen(), Below(n));
  }

  lemma SeenBit(E: seq<Edge>, n: nat, g: seq<uint32>, visited: seq<bool>, w: Walk, y: nat)
    requires State(E, n, g, visited, w) && y < n
    ensures visited[y] <==> y in w.Seen()
  {
    assert visited[y] <==> y in Marked(visited);
  }

  /** The body of chm_traverse's loop for a neighbor y of v that is not visited yet. */
  method Visit(G: Graph, g: array<uint32>, visited: array<bool>, v: uint32, y: uint32, ghost w: Walk)
    returns (ghost w': Walk)
    requires G.Valid() && g != G.edges && g != G.first && g != G.next
    requires State(G.E, G.nnodes, g[..], visited[..], w) && v in w.W && y < G.nnodes && y !in w.Seen()
    requires exists f :: 0 <= f < G.cedges && Joins(G.E[f], v, y)
    modifies g, visited
    ensures State(G.E, G.nnodes, g[..], visited[..], w') && w'.Extends(w) && y in w'.W
    ensures NewExhausted(G.E, w', w.W)
    decreases G.nnodes - |w.Seen()|, 0
  {
    var e: uint32 := G.EdgeId(v, y);
    ghost var g0 := g[..];
    g[y] := Sub32(e, g[v]);
    LabelStep(G.E, G.nnodes, g0, g[..], w, v, y, e);
    SeenBound(G.E, {}, G.nnodes, w, y);
    MarkedSet(visited[..], visited[..][y := true], y);
    w' := Traverse(G, g, visited, y, w.Grow(v, y, e));
  }

  /** chm_traverse, for v already labelled and hung into the walk by the caller. */
  method Traverse(G: Graph, g: array<uint32>, visited: array<bool>, v: uint32, ghost w: Walk)
    returns (ghost w': Walk)
    requires G.Valid() && g != G.edges && g != G.first && g != G.next && visited.Length == G.nnodes
    requires v < G.nnodes && State(G.E, G.nnodes, g[..], visited[..][v := true], w) && v in w.W
    modifies g, visited
    ensures State(G.E, G.nnodes, g[..], visited[..], w') && w'.Extends(w)
    ensures NewExhausted(G.E, w', w.W) && Exhausted(G.E, v, w'.Seen())
    decreases G.nnodes - |w.Seen()|, 1
  {
    hide State, NewExhausted, Exhausted, Done;
    ghost var E, m, l := G.E, G.nedges, G.lists[v];
    var it := Iterator(v, G.first[v]);
    ghost var b0 := visited[..];
    visited[v] := true;
    assert visited[..] == b0[v := true];
    w' := w;
    ghost var k := 0;
    StartLoop(E, G.nnodes, g[..], visited[..], w, m, l);
    while true
      invariant G.Valid() && unchanged(G)
      invariant it.vertex == v && k <= |l| && it.edge == Item(l, k)
      invariant State(E, G.nnodes, g[..], visited[..], w') && w'.Extends(w)
      invariant NewExhausted(E, w', w.W) && Done(E, m, l, k, w'.Seen())
      decreases |l| - k
    {
      if k < |l| {
        ListEntry(E, m, v, l, k);
      }
      var y: uint32;
      y, it := G.NextNeighbor(it, k);
      if y == NO_NEIGHBOR {
        break;
      }
      SeenBit(E, G.nnodes, g[..], visited[..], w', y);
      ghost var w1 := w';
      if !visited[y] {
        ExtendsSize(w, w');
        w1 := Visit(G, g, visited, v, y, w');
        NewExhaustedChain(E, w', w1, w.W);
      }
      DoneNext(E, m, l, k, v, y, w'.Seen(), w1.Seen());
      w', k := w1, k + 1;
    }
    DoneAll(E, m, v, l, w'.Seen());
  }

  /** Between two walks: what is visited is closed under edges and labelled. */
  ghost predicate Settled(E: seq<Edge>, n: nat, g: seq<uint32>, visited: seq<bool>) {
    && |g| == |visited| == n && |E| <= EMPTY && NoLoops(E) && Forest(E)
    && Closed(E, Marked(visited)) && Labelled(E, g, Marked(visited))
  }

  lemma StartWalk(E: seq<Edge>, n: nat, g: seq<uint32>, visited: seq<bool>, i: nat, g': seq<uint32>)
    requires Settled(E, n, g, visited) && i < n && !visited[i] && g' == g[i := 0]
    ensures State(E, n, g', visited[i := true], Walk(Marked(visited), {i}, Some(i), map[i := {}]))
  {
    var V := Marked(visited);
    assert MinDegreeTwo(E, {});
    NewWalk(E, {}, n, V, i);
    MarkedSet(visited, visited[i := true], i);
    forall e | 0 <= e < |E| && Inside(E[e], V + {i})
      ensures Inside(E[e], V)
    {
    }
  }

  lemma EndWalk(E: seq<Edge>, n: nat, g: seq<uint32>, before: seq<bool>, visited: seq<bool>, i: nat, w: Walk)
    requires State(E, n, g, visited, w) && NewExhausted(E, w, {i}) && Exhausted(E, i, w.Seen())
    requires |before| == n && i < n && w.V == Marked(before) && i in w.W
    ensures Settled(E, n, g, visited)
    ensures |visited| == n && visited[i] && forall v :: 0 <= v < n && before[v] ==> visited[v]
  {
    assert forall v :: 0 <= v < n && before[v] ==> v in w.Seen();
    assert forall v :: 0 <= v < n && v in Marked(visited) ==> visited[v];
    FinishedWalk(E, {}, n, w);
    forall C | MinDegreeTwo(E, C)
      ensures C == {}
    {
    }
  }

  /** Labels everything reachable from an unvisited vertex, whose own label is 0. */
  method LabelTree(G: Graph, g: array<uint32>, visited: array<bool>, i: uint32)
    requires G.Valid() && g != G.edges && g != G.first && g != G.next
    requires Settled(G.E, G.nnodes, g[..], visited[..]) && i < G.nnodes && !visited[i]
    modifies g, visited
    ensures Settled(G.E, G.nnodes, g[..], visited[..]) && visited[i]
    ensures forall v :: 0 <= v < G.nnodes && old(visited[v]) ==> visited[v]
  {
    hide State, NewExhausted, Exhausted, Labelled;
    ghost var g0, b0 := g[..], visited[..];
    g[i] := 0;
    StartWalk(G.E, G.nnodes, g0, b0, i, g[..]);
    ghost var w := Traverse(G, g, visited, i, Walk(Marked(b0), {i}, Some(i), map[i := {}]));
    EndWalk(G.E, G.nnodes, g[..], b0, visited[..], i, w);
  }

  /** The assignment step of chm_new. */
  method Assign(G: Graph) returns (g: array<uint32>)
    requires G.Valid() && NoLoops(G.E) && Forest(G.E)
    ensures fresh(g) && g.Length == G.nnodes
    ensures forall e :: 0 <= e < |G.E| ==> Sum(g[..], G.E[e]) == e
  {
    hide Settled;
    var visited := new bool[G.nnodes](_ => false);
    g := new uint32[G.nnodes](_ => 0);
    SettledNone(G.E, G.nnodes, g[..], visited[..]);
    for i := 0 to G.nnodes
      invariant Settled(G.E, G.nnodes, g[..], visited[..])
      invariant forall v :: 0 <= v < i ==> visited[v]
    {
      if !visited[i] {
        LabelTree(G, g, visited, i);
      }
    }
    AllLabelled(G.E, G.nnodes, g[..], visited[..]);
  }

  lemma SettledNone(E: seq<Edge>, n: nat, g: seq<uint32>, visited: seq<bool>)
    requires |g| == |visited| == n && InGraph(E, n) && |E| <= EMPTY && NoLoops(E) && Forest(E)
    requires forall v :: 0 <= v < n ==> !visited[v]
    ensures Settled(E, n, g, visited)
  {
    MarkedNone(visited);
  }

  lemma AllLabelled(E: seq<Edge>, n: nat, g: seq<uint32>, visited: seq<bool>)
    requires Settled(E, n, g, visited) && forall v :: 0 <= v < n ==> visited[v]
    ensures forall e :: 0 <= e < |E| ==> E[e].src < n && E[e].dst < n && Sum(g, E[e]) == e
  {
    assert forall e :: 0 <= e < |E| ==> Inside(E[e], Marked(visited));
  }

  // ---- the mapping step and the finished function ------------------------------------------------

  /** chm_gen_edges: succeeds exactly on the seeds that give a graph without cycles. */
  method GenEdges<Key>(G: Graph, keys: seq<Key>, hash: Hash<Key>, s1: uint32, s2: uint32) returns (ok: bool)
    requires G.Valid() && G.nedges == |keys| && 0 < G.nnodes
    modifies G`cedges, G`E, G`lists, G.edges, G.first, G.next
    ensures G.Valid()
    ensures ok <==> !HasCycle(KeyEdges(hash, s1, s2, G.nnodes, keys))
    ensures ok ==> G.E == KeyEdges(hash, s1, s2, G.nnodes, keys) && NoLoops(G.E) && Forest(G.E)
  {
    ghost var all := KeyEdges(hash, s1, s2, G.nnodes, keys);
    G.ClearEdges();
    for e := 0 to |keys|
      invariant G.Valid() && G.E == all[..e] && NoLoops(G.E)
    {
      var h := KeyEdge(hash, s1, s2, G.nnodes, keys[e]);
      if h.src == h.dst {
        LoopIsCycle(all, e);
        return false;
      }
      G.AddEdge(h.src, h.dst);
      assert all[..e + 1] == all[..e] + [h];
    }
    assert all[..|keys|] == all;
    var cycles := G.IsCyclic();
    ok := !cycles;
  }

  /** The finished function: chm_data_t. */
  datatype Chm = Chm(n: uint32, m: uint32, s1: uint32, s2: uint32, g: seq<uint32>) {
    predicate Valid() {
      0 < n == |g|
    }

    /** chm_search */
    function Search<Key>(hash: Hash<Key>, key: Key): uint32
      requires Valid() && 0 < m
    {
      var h := KeyEdge(hash, s1, s2, n, key);
      Add32(g[h.src], g[h.dst]) % m
    }
  }

  /** The number of attempts of the mapping step. */
  const ITERATIONS := 20

  /** chm_new: order preserving, and it fails only when each of the graphs it drew has a cycle. */
  method New<Key>(keys: seq<Key>, n: uint32, hash: Hash<Key>, seeds: seq<(uint32, uint32)>) returns (r: Option<Chm>)
    requires 0 < n && 2 * |keys| < EMPTY && |seeds| == ITERATIONS
    ensures r.None? <==> forall t :: 0 <= t < ITERATIONS ==> HasCycle(KeyEdges(hash, seeds[t].0, seeds[t].1, n, keys))
    ensures |keys| < 2 <= n ==> r.Some?
    ensures |keys| == 2 <= n ==>
      (r.Some? <==> exists t: nat :: t < 20 && !SamePair(hash, seeds[t].0, seeds[t].1, n, keys[0], keys[1]))
    ensures r.Some? ==> r.value.Valid() && r.value.m == |keys|
    ensures r.Some? ==> forall i :: 0 <= i < |keys| ==> r.value.Search(hash, keys[i]) == i
  {
    hide HasCycle, KeyEdges, SamePair;
    if |keys| <= 2 <= n {
      forall t: nat | t < ITERATIONS
        ensures HasCycle(KeyEdges(hash, seeds[t].0, seeds[t].1, n, keys)) <==>
          |keys| == 2 && SamePair(hash, seeds[t].0, seeds[t].1, n, keys[0], keys[1])
      {
        FewKeys(hash, seeds[t].0, seeds[t].1, n, keys);
      }
    }
    var G := new Graph(n, |keys|);
    var iterations := ITERATIONS;
    var s1: uint32, s2: uint32 := 0, 0;
    while true
      invariant 0 < iterations <= ITERATIONS
      invariant G.Valid() && fresh(G) && fresh(G.edges) && fresh(G.first) && fresh(G.next)
      invariant G.nnodes == n && G.nedges == |keys|
      invariant forall t :: 0 <= t < ITERATIONS - iterations ==>
        HasCycle(KeyEdges(hash, seeds[t].0, seeds[t].1, n, keys))
      decreases iterations
    {
      s1, s2 := seeds[ITERATIONS - iterations].0, seeds[ITERATIONS - iterations].1;
      var ok := GenEdges(G, keys, hash, s1, s2);
      if ok {
        break;
      }
      iterations := iterations - 1;
      if iterations == 0 {
        return None;
      }
    }
    var g := Assign(G);
    r := Some(Chm(n, |keys|, s1, s2, g[..]));
    SearchIndex(keys, hash, r.value, G.E);
  }

  lemma SearchIndex<Key>(keys: seq<Key>, hash: Hash<Key>, f: Chm, E: seq<Edge>)
    requires f.Valid() && f.m == |keys| && E == KeyEdges(hash, f.s1, f.s2, f.n, keys)
    requires forall e :: 0 <= e < |E| ==> Sum(f.g, E[e]) == e
    ensures forall i :: 0 <= i < |keys| ==> f.Search(hash, keys[i]) == i
  {
    hide KeyEdge;
    forall i | 0 <= i < |keys|
      ensures f.Search(hash, keys[i]) == i
    {
      assert Sum(f.g, E[i]) == i;
      DivisionUnique(i, f.m, 0, i);
    }
  }
}
