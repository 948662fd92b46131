/**
 bmz.c: a minimal perfect hash function from a graph that may have cycles. Once the 2-core is
 labelled, the trees that hang on it, and then the remaining trees, are labelled depth first;
 each of their edges takes the next number no earlier edge has.
 */
module Bmz {
  import opened Words
  import opened Counting
  import opened Multigraph
  import opened TreePaths
  import opened Graphs
  import opened Keys
  import opened BmzLabels
  import opened BmzRuns
  import opened BmzCritical

  ghost predicate HasSum(E: seq<Edge>, g: seq<uint32>, S: set<nat>, y: nat) {
    InGraph(E, |g|) && exists e :: 0 <= e < |E| && Inside(E[e], S) && Sum(g, E[e]) == y
  }

  /**
   The 32-bit sums of the edges inside S are distinct and below m, and they are the numbers the
   core used together with all numbers below next.
   */
  ghost predicate TreeLabels(E: seq<Edge>, m: nat, g: seq<uint32>, used: seq<bool>, next: nat, S: set<nat>) {
    && InGraph(E, |g|) && |E| == |used| == m && next <= m < EMPTY
    && (forall e :: 0 <= e < |E| && Inside(E[e], S) ==> Sum(g, E[e]) < m)
    && (forall e :: 0 <= e < |E| && Inside(E[e], S) ==> used[Sum(g, E[e])] || Sum(g, E[e]) < next)
    && (forall e, f :: 0 <= e < f < |E| && Inside(E[e], S) && Inside(E[f], S) ==> Sum(g, E[e]) != Sum(g, E[f]))
    && (forall y :: 0 <= y < m && (used[y] || y < next) ==> HasSum(E, g, S, y))
  }

  ghost function EdgeWithSum(E: seq<Edge>, g: seq<uint32>, S: set<nat>, y: nat): (e: nat)
    requires HasSum(E, g, S, y)
    ensures e < |E| && Inside(E[e], S) && Sum(g, E[e]) == y
  {
    var e :| 0 <= e < |E| && Inside(E[e], S) && Sum(g, E[e]) == y; e
  }

  /** While an edge f has no number yet, a number is left: the assertion in next_unused_edge holds. */
  lemma NumberLeft(E: seq<Edge>, m: nat, g: seq<uint32>, used: seq<bool>, next: nat, S: set<nat>, f: nat)
    requires TreeLabels(E, m, g, used, next, S) && f < |E| && !Inside(E[f], S)
    ensures exists y :: next <= y < m && !used[y]
  {
    if forall y :: next <= y < m ==> used[y] {
      assert forall y :: 0 <= y < m ==> HasSum(E, g, S, y);
      var s := seq(m, y requires 0 <= y < m => EdgeWithSum(E, g, S, y));
      forall i, j | 0 <= i < j < m
        ensures s[i] != s[j]
      {
        assert Sum(g, E[s[i]]) == i && Sum(g, E[s[j]]) == j;
      }
      DistinctInSet(s, Below(m) - {f});
    }
  }

  /** next_unused_edge */
  method NextUnusedEdge(used: array<bool>, index: uint32) returns (r: uint32)
    requires used.Length < EMPTY
    requires exists y :: index <= y < used.Length && !used[y]
    ensures index <= r < used.Length && !used[r]
    ensures forall y :: index <= y < r ==> used[y]
  {
    ghost var y0 :| index <= y0 < used.Length && !used[y0];
    r := index;
    while true
      invariant index <= r <= y0
      invariant forall y :: index <= y < r ==> used[y]
      decreases y0 - r
    {
      assert r < used.Length;
      if used[r] {
        r := r + 1;
      } else {
        break;
      }
    }
  }

  lemma SumElsewhere(g: seq<uint32>, g': seq<uint32>, y: nat, e: Edge)
    requires |g| == |g'| && e.src < |g| && e.dst < |g| && !Touches(e, y)
    requires forall x :: 0 <= x < |g| && x != y ==> g'[x] == g[x]
    ensures Sum(g', e) == Sum(g, e)
  {
  }

  /** Changing labels outside S, when no new edge gets inside, changes no number. */
  lemma SameLabels(E: seq<Edge>, m: nat, g: seq<uint32>, g': seq<uint32>, used: seq<bool>, next: nat, S: set<nat>,
                   y: nat)
    requires TreeLabels(E, m, g, used, next, S) && y !in S && |g'| == |g|
    requires forall x :: 0 <= x < |g| && x != y ==> g'[x] == g[x]
    requires forall f :: 0 <= f < |E| && Inside(E[f], S + {y}) ==> Inside(E[f], S)
    ensures TreeLabels(E, m, g', used, next, S + {y})
  {
    forall e | 0 <= e < |E| && Inside(E[e], S + {y})
      ensures Inside(E[e], S) && Sum(g', E[e]) == Sum(g, E[e])
    {
      SumElsewhere(g, g', y, E[e]);
    }
    forall z | 0 <= z < m && (used[z] || z < next)
      ensures HasSum(E, g', S + {y}, z)
    {
      var e := EdgeWithSum(E, g, S, z);
      assert Inside(E[e], S + {y});
    }
  }

  /** One edge e gets inside and takes the number r, the next one not used. */
  lemma OneMoreLabel(E: seq<Edge>, m: nat, g: seq<uint32>, g': seq<uint32>, used: seq<bool>, next: nat, S: set<nat>,
                     v: nat, y: nat, e: nat, r: nat)
    requires TreeLabels(E, m, g, used, next, S) && v in S && y !in S && v < |g| && y < |g|
    requires e < |E| && Joins(E[e], v, y)
    requires next <= r < m && !used[r] && forall z :: next <= z < r ==> used[z]
    requires g' == g[y := Sub32(r, g[v])]
    requires forall f :: 0 <= f < |E| && f != e && Inside(E[f], S + {y}) ==> Inside(E[f], S)
    ensures TreeLabels(E, m, g', used, r + 1, S + {y})
  {
    SubAdd(g[v], r);
    forall f | 0 <= f < |E| && Inside(E[f], S + {y})
      ensures if f == e then Sum(g', E[f]) == r else Inside(E[f], S) && Sum(g', E[f]) == Sum(g, E[f])
    {
      if f != e {
        SumElsewhere(g, g', y, E[f]);
      }
    }
    forall z | 0 <= z < m && (used[z] || z < r + 1)
      ensures HasSum(E, g', S + {y}, z)
    {
      if z == r {
        assert Inside(E[e], S + {y});
      } else {
        var f := EdgeWithSum(E, g, S, z);
        assert Inside(E[f], S + {y});
      }
    }
  }

  /** The arrays agree with the walk. */
  ghost predicate State(E: seq<Edge>, core: set<nat>, n: nat, m: nat, g: seq<uint32>, visited: seq<bool>,
                        used: seq<bool>, next: nat, w: Walk) {
    && |g| == |visited| == n
    && WalkOk(E, core, n, w) && Marked(visited) == w.Seen() && TreeLabels(E, m, g, used, next, w.Seen())
  }

  /** One depth-first step. */
  lemma TreeStep(E: seq<Edge>, core: set<nat>, n: nat, m: nat, g: seq<uint32>, visited: seq<bool>, used: seq<bool>,
                 next: nat, w: Walk, v: nat, y: nat, e: nat, r: uint32)
    requires State(E, core, n, m, g, visited, used, next, w) && v in w.W && y < n && y !in w.Seen()
    requires e < |E| && Joins(E[e], v, y)
    requires next <= r < m && !used[r] && forall z :: next <= z < r ==> used[z]
    ensures v < n && State(E, core, n, m, g[y := Sub32(r, g[v])], visited[y := true], used, r + 1, w.Grow(v, y, e))
    ensures |w.Seen()| < |w.Grow(v, y, e).Seen()| <= n
  {
    hide TreeLabels, Hung, IsCore, Closed;
    assert v in w.Seen() && w.paths.Keys == w.W by {
      StateFacts(E, core, n, m, g, visited, used, next, w);
    }
    GrowOk(E, core, n, w, v, y, e);
    SeenBound(E, core, n, w, y);
    OneMoreLabel(E, m, g, g[y := Sub32(r, g[v])], used, next, w.Seen(), v, y, e, r);
    MarkedSet(visited, visited[y := true], y);
  }

  lemma StateFacts(E: seq<Edge>, core: set<nat>, n: nat, m: nat, g: seq<uint32>, visited: seq<bool>, used: seq<bool>,
                   next: nat, w: Walk)
    requires State(E, core, n, m, g, visited, used, next, w)
    ensures NoLoops(E) && |w.Seen()| <= n && next <= m == |used| && m < EMPTY && w.paths.Keys == w.W
    ensures forall y :: 0 <= y < n ==> (visited[y] <==> y in w.Seen())
    ensures NewExhausted(E, w, w.W) && forall l :: Done(E, m, l, 0, w.Seen())
  {
    SubsetSize(w.Seen(), Below(n));
    forall y | 0 <= y < n
      ensures visited[y] <==> y in w.Seen()
    {
      MarkedBit(visited, y);
    }
  }

  lemma NumberLeftFor(E: seq<Edge>, core: set<nat>, n: nat, m: nat, g: seq<uint32>, visited: seq<bool>,
                      used: seq<bool>, next: nat, w: Walk, v: nat, y: nat, e: nat)
    requires State(E, core, n, m, g, visited, used, next, w) && y !in w.Seen() && e < |E| && Joins(E[e], v, y)
    ensures |used| == m && exists z :: next <= z < m && !used[z]
  {
    NumberLeft(E, m, g, used, next, w.Seen(), e);
  }

  ghost predicate Fields(G: Graph, g: array<uint32>, visited: array<bool>, used: array<bool>)
    reads G, G.edges, G.first, G.next
  {
    && G.Valid() && G.cedges == G.nedges
    && g.Length == visited.Length == G.nnodes && used.Length == G.nedges
    && g != G.edges && g != G.first && g != G.next && visited != used
  }

  /** The body of bmz_traverse's loop for the neighbor y of v that is not visited yet. */
  method Visit(G: Graph, g: array<uint32>, visited: array<bool>, used: array<bool>, v: uint32, y: uint32, index: uint32,
               ghost core: set<nat>, ghost w: Walk, ghost e: nat)
    returns (index': uint32, ghost w': Walk)
    requires Fields(G, g, visited, used) && v < G.nnodes && y < G.nnodes
    requires State(G.E, core, G.nnodes, G.nedges, g[..], visited[..], used[..], index, w) && v in w.W && y !in w.Seen()
    requires e < |G.E| && Joins(G.E[e], v, y)
    modifies g, visited
    ensures State(G.E, core, G.nnodes, G.nedges, g[..], visited[..], used[..], index', w')
    ensures w'.Extends(w) && y in w'.Seen() && NewExhausted(G.E, w', w.W)
    decreases G.nnodes - |w.Seen()|, 0
  {
    hide State, Exhausted, Graph.Valid;
    StateFacts(G.E, core, G.nnodes, G.nedges, g[..], visited[..], used[..], index, w);
    NumberLeftFor(G.E, core, G.nnodes, G.nedges, g[..], visited[..], used[..], index, w, v, y, e);
    var r: uint32 := NextUnusedEdge(used, index);
    TreeStep(G.E, core, G.nnodes, G.nedges, g[..], visited[..], used[..], index, w, v, y, e, r);
    ghost var g0, b0, w1 := g[..], visited[..], w.Grow(v, y, e);
    g[y] := Sub32(r, g[v]);
    visited[y] := true;
    assert g[..] == g0[y := Sub32(r, g0[v])] && visited[..] == b0[y := true];
    index', w' := Traverse(G, g, visited, used, y, r + 1, core, w1);
  }

  /** bmz_traverse, for a vertex v of the walk. */
  method Traverse(G: Graph, g: array<uint32>, visited: array<bool>, used: array<bool>, v: uint32, index: uint32,
                  ghost core: set<nat>, ghost w: Walk)
    returns (index': uint32, ghost w': Walk)
    requires Fields(G, g, visited, used) && v < G.nnodes
    requires State(G.E, core, G.nnodes, G.nedges, g[..], visited[..], used[..], index, w) && v in w.W
    modifies g, visited
    ensures State(G.E, core, G.nnodes, G.nedges, g[..], visited[..], used[..], index', w')
    ensures w'.Extends(w) && NewExhausted(G.E, w', w.W) && Exhausted(G.E, v, w'.Seen())
    decreases G.nnodes - |w.Seen()|, 1
  {
    hide State, NewExhausted, Exhausted, Done, Graph.Valid, Incident;
    G.ListFacts(v);
    StateFacts(G.E, core, G.nnodes, G.nedges, g[..], visited[..], used[..], index, w);
    ghost var E, m, l := G.E, G.nedges, G.lists[v];
    var it := Iterator(v, G.first[v]);
    index', w' := index, w;
    ghost var k := 0;
    while true
      invariant Fields(G, g, visited, used) && unchanged(G)
      invariant it.vertex == v && k <= |l| && it.edge == Item(l, k)
      invariant State(E, core, G.nnodes, m, g[..], visited[..], used[..], index', w') && w'.Extends(w)
      invariant NewExhausted(E, w', w.W) && Done(E, m, l, k, w'.Seen())
      decreases |l| - k
    {
      if k < |l| {
        ListEntry(E, m, v, l, k);
      }
      var y: uint32;
      y, it := G.NextNeighbor(it, k);
      if y == NO_NEIGHBOR {
        break;
      }
      StateFacts(E, core, G.nnodes, m, g[..], visited[..], used[..], index', w');
      ghost var w1 := w';
      if !visited[y] {
        ExtendsSize(w, w');
        index', w1 := Visit(G, g, visited, used, v, y, index', core, w', AbsEdge(l[k], m));
        NewExhaustedChain(E, w', w1, w.W);
      }
      DoneNext(E, m, l, k, v, y, w'.Seen(), w1.Seen());
      w', k := w1, k + 1;
    }
    DoneAll(E, m, v, l, w'.Seen());
  }

  // ---- the searching step of bmz_new ------------------------------------------------------------

  /** With 32-bit words large enough, the core's numbers are the 32-bit sums. */
  lemma CoreLabels(E: seq<Edge>, m: nat, g: seq<uint32>, S: set<nat>, used: seq<bool>)
    requires |E| == m && 2 * m < EMPTY && EdgeLabels(E, m, g, S, used)
    ensures TreeLabels(E, m, g, used, 0, S)
  {
    forall e | 0 <= e < |E| && Inside(E[e], S)
      ensures Sum(g, E[e]) == Label(g, E[e])
    {
    }
    forall y | 0 <= y < m && used[y]
      ensures HasSum(E, g, S, y)
    {
      assert HasLabel(E, g, S, y);
    }
  }

  /** The core is labelled and nothing else is visited. */
  lemma CoreState(E: seq<Edge>, core: set<nat>, n: nat, m: nat, g: seq<uint32>, visited: seq<bool>, used: seq<bool>)
    requires |g| == |visited| == n && |E| == m && 2 * m < EMPTY && NoLoops(E) && IsCore(E, core)
    requires EdgeLabels(E, m, g, Marked(visited), used)
    requires forall v: nat :: v in Marked(visited) <==> TouchesSet(E, core, v)
    ensures State(E, core, n, m, g, visited, used, 0, CoreWalk(Marked(visited)))
  {
    hide EdgeLabels, TreeLabels;
    CoreLabels(E, m, g, Marked(visited), used);
    CoreWalkOk(E, core, n, Marked(visited));
    assert CoreWalk(Marked(visited)).Seen() == Marked(visited);
  }

  /** The edges below i have both ends visited, or neither. */
  ghost predicate Settled(E: seq<Edge>, i: nat, S: set<nat>) {
    forall e :: 0 <= e < i && e < |E| ==> (E[e].src in S <==> E[e].dst in S)
  }

  lemma SettledNext(E: seq<Edge>, i: nat, w: Walk, w': Walk, v: nat)
    requires Settled(E, i, w.Seen()) && i < |E| && Touches(E[i], v)
    requires w'.Extends(w) && NewExhausted(E, w', w.W) && Exhausted(E, v, w'.Seen())
    ensures Settled(E, i + 1, w'.Seen())
  {
    forall e | 0 <= e < i
      ensures E[e].src in w'.Seen() <==> E[e].dst in w'.Seen()
    {
      assert E[e].src in w'.W && E[e].src !in w.W ==> Exhausted(E, E[e].src, w'.Seen());
      assert E[e].dst in w'.W && E[e].dst !in w.W ==> Exhausted(E, E[e].dst, w'.Seen());
    }
  }

  /** The first loop of bmz_traverse_non_critical_nodes: the trees that hang on the core. */
  method HangingTrees(G: Graph, g: array<uint32>, visited: array<bool>, used: array<bool>, ghost core: set<nat>,
                      ghost w: Walk)
    returns (index: uint32, ghost w': Walk)
    requires Fields(G, g, visited, used) && w.V == {}
    requires State(G.E, core, G.nnodes, G.nedges, g[..], visited[..], used[..], 0, w)
    modifies g, visited
    ensures State(G.E, core, G.nnodes, G.nedges, g[..], visited[..], used[..], index, w')
    ensures Closed(G.E, w'.Seen())
  {
    hide State, NewExhausted, Exhausted;
    index, w' := 0, w;
    ghost var E := G.E;
    for i := 0 to G.nedges
      invariant Fields(G, g, visited, used) && unchanged(G) && w'.V == {}
      invariant State(E, core, G.nnodes, G.nedges, g[..], visited[..], used[..], index, w')
      invariant Settled(E, i, w'.Seen())
    {
      assert E[i] == Edge(G.edges[i + G.nedges], G.edges[i]);
      var v1: uint32, v2: uint32 := G.edges[i], G.edges[i + G.nedges];
      StateFacts(E, core, G.nnodes, G.nedges, g[..], visited[..], used[..], index, w');
      if (visited[v1] && visited[v2]) || (!visited[v1] && !visited[v2]) {
        continue;
      }
      ghost var w0 := w';
      var v: uint32 := if visited[v1] then v1 else v2;
      index, w' := Traverse(G, g, visited, used, v, index, core, w');
      SettledNext(E, i, w0, w', v);
    }
  }

  /** A new tree starts at i with label 0; nothing visited is next to it. */
  lemma RootStep(E: seq<Edge>, core: set<nat>, n: nat, m: nat, g: seq<uint32>, visited: seq<bool>, used: seq<bool>,
                 next: nat, w: Walk, i: nat)
    requires State(E, core, n, m, g, visited, used, next, w) && Closed(E, w.Seen()) && i < n && !visited[i]
    ensures State(E, core, n, m, g[i := 0], visited[i := true], used, next,
                  Walk(w.Seen(), {i}, Some(i), map[i := {}]))
  {
    hide TreeLabels;
    StateFacts(E, core, n, m, g, visited, used, next, w);
    NewWalk(E, core, n, w.Seen(), i);
    MarkedSet(visited, visited[i := true], i);
    SameLabels(E, m, g, g[i := 0], used, next, w.Seen(), i);
  }

  lemma TreeDone(E: seq<Edge>, core: set<nat>, n: nat, m: nat, g: seq<uint32>, before: seq<bool>, visited: seq<bool>,
                 used: seq<bool>, next: nat, w: Walk, i: nat)
    requires State(E, core, n, m, g, visited, used, next, w)
    requires NewExhausted(E, w, {i}) && Exhausted(E, i, w.Seen()) && i in w.W && w.V == Marked(before) && |before| == n
    ensures Closed(E, w.Seen())
    ensures i < |visited| == n && visited[i] && forall v :: 0 <= v < n && before[v] ==> visited[v]
  {
    FinishedWalk(E, core, n, w);
    assert i in w.Seen();
    StateFacts(E, core, n, m, g, visited, used, next, w);
    assert forall v :: 0 <= v < n && before[v] ==> v in w.Seen();
  }

  /** One more tree of the second loop. */
  method FreeTree(G: Graph, g: array<uint32>, visited: array<bool>, used: array<bool>, i: uint32, index: uint32,
                  ghost core: set<nat>, ghost w: Walk)
    returns (index': uint32, ghost w': Walk)
    requires Fields(G, g, visited, used) && i < G.nnodes && !visited[i]
    requires State(G.E, core, G.nnodes, G.nedges, g[..], visited[..], used[..], index, w) && Closed(G.E, w.Seen())
    modifies g, visited
    ensures State(G.E, core, G.nnodes, G.nedges, g[..], visited[..], used[..], index', w') && Closed(G.E, w'.Seen())
    ensures visited[i] && forall v :: 0 <= v < G.nnodes && old(visited[v]) ==> visited[v]
  {
    hide State, NewExhausted, Exhausted, Closed, Graph.Valid;
    ghost var E, n, m, g0, b0 := G.E, G.nnodes, G.nedges, g[..], visited[..];
    RootStep(E, core, n, m, g0, b0, used[..], index, w, i);
    assert w.Seen() == Marked(b0) by {
      SeenIsMarked(E, core, n, m, g0, b0, used[..], index, w);
    }
    g[i] := 0;
    visited[i] := true;
    assert g[..] == g0[i := 0] && visited[..] == b0[i := true];
    index', w' := Traverse(G, g, visited, used, i, index, core, Walk(w.Seen(), {i}, Some(i), map[i := {}]));
    TreeDone(E, core, n, m, g[..], b0, visited[..], used[..], index', w', i);
  }

  lemma SeenIsMarked(E: seq<Edge>, core: set<nat>, n: nat, m: nat, g: seq<uint32>, visited: seq<bool>, used: seq<bool>,
                     next: nat, w: Walk)
    requires State(E, core, n, m, g, visited, used, next, w)
    ensures w.Seen() == Marked(visited)
  {
  }

  /** The number of every edge. */
  ghost function Sums(E: seq<Edge>, g: seq<uint32>): seq<nat>
    requires InGraph(E, |g|)
  {
    seq(|E|, e requires 0 <= e < |E| => Sum(g, E[e]))
  }

  lemma AllVisited(E: seq<Edge>, core: set<nat>, n: nat, m: nat, g: seq<uint32>, visited: seq<bool>, used: seq<bool>,
                   next: nat, w: Walk)
    requires State(E, core, n, m, g, visited, used, next, w) && forall v :: 0 <= v < n ==> visited[v]
    ensures InGraph(E, |g|) && Bijection(Sums(E, g), m)
  {
    hide WalkOk;
    StateFacts(E, core, n, m, g, visited, used, next, w);
    assert forall e :: 0 <= e < |E| ==> Inside(E[e], w.Seen());
    DistinctIsBijection(Sums(E, g), m);
  }

  /** bmz_traverse_non_critical_nodes: afterwards the edges are numbered by a bijection. */
  method TraverseNonCritical(G: Graph, g: array<uint32>, visited: array<bool>, used: array<bool>, ghost core: set<nat>)
    requires Fields(G, g, visited, used) && NoLoops(G.E) && IsCore(G.E, core)
    requires EdgeLabels(G.E, G.nedges, g[..], Marked(visited[..]), used[..])
    requires forall v: nat :: v in Marked(visited[..]) <==> TouchesSet(G.E, core, v)
    modifies g, visited
    ensures Bijection(Sums(G.E, g[..]), G.nedges)
  {
    hide State, Closed, EdgeLabels, TouchesSet, IsCore, Bijection;
    ghost var E, n, m := G.E, G.nnodes, G.nedges;
    CoreState(E, core, n, m, g[..], visited[..], used[..]);
    var index: uint32;
    ghost var w: Walk;
    index, w := HangingTrees(G, g, visited, used, core, CoreWalk(Marked(visited[..])));
    for i := 0 to G.nnodes
      invariant Fields(G, g, visited, used) && unchanged(G)
      invariant State(E, core, n, m, g[..], visited[..], used[..], index, w) && Closed(E, w.Seen())
      invariant forall v :: 0 <= v < i ==> visited[v]
    {
      if !visited[i] {
        index, w := FreeTree(G, g, visited, used, i, index, core, w);
      }
    }
    AllVisited(E, core, n, m, g[..], visited[..], used[..], index, w);
  }

  // ---- bmz_new ------------------------------------------------------------------------------------

  lemma TouchedIsMarked(E: seq<Edge>, core: set<nat>, n: nat, mark: seq<bool>)
    requires InGraph(E, n) && |mark| == n && MarksBelow(E, core, |E|, mark)
    ensures forall v: nat :: v in Marked(mark) <==> TouchesSet(E, core, v)
  {
    forall v: nat
      ensures v in Marked(mark) <==> TouchesSet(E, core, v)
    {
      assert v < n ==> (mark[v] <==> TouchedBelow(E, core, |E|, v));
    }
  }

  /** The labelling starts with nothing visited and nothing used. */
  lemma NothingLabelled(E: seq<Edge>, n: nat, m: nat, K: set<nat>, g: seq<uint32>, visited: seq<bool>, used: seq<bool>)
    requires InGraph(E, n) && |g| == |visited| == n && |used| == m && NoLoops(E) && Simple(E)
    requires forall v :: 0 <= v < n ==> !visited[v]
    requires forall y :: 0 <= y < m ==> !used[y]
    requires forall v :: v in K ==> v < n
    ensures CritOk(E, n, m, K, Marked(visited), g, Marked(visited), used, 0) && Maxima(m, 0, 1)
  {
    MarkedNone(visited);
  }

  lemma CoreLabelled(E: seq<Edge>, n: nat, m: nat, K: set<nat>, g: seq<uint32>, visited: seq<bool>, used: seq<bool>,
                     bigG: nat)
    requires CritOk(E, n, m, K, Marked(visited), g, Marked(visited), used, bigG)
    requires |visited| == n && forall v :: 0 <= v < n && v in K ==> visited[v]
    ensures Marked(visited) == K && EdgeLabels(E, m, g, Marked(visited), used)
  {
  }

  /** The loop of bmz_new over the critical vertices. restart keeps its old value when there are none. */
  method LabelCore(G: Graph, g: array<uint32>, visited: array<bool>, used: array<bool>, restart0: bool)
    returns (restart: bool)
    requires Arrays(G, g, visited, used) && Simple(G.E) && G.nnodes < EMPTY
    requires G.ncriticalNodes == |Marked(G.criticalNodes[..])|
    requires Labelling(g[..], visited[..], used[..], 0) == Unlabelled(G.nnodes, G.nedges)
    modifies g, visited, used
    ensures !restart ==> Marked(visited[..]) == Marked(G.criticalNodes[..])
    ensures !restart ==> EdgeLabels(G.E, G.nedges, g[..], Marked(visited[..]), used[..])
    ensures Marked(G.criticalNodes[..]) == {} ==> restart == restart0
    ensures Marked(G.criticalNodes[..]) != {} ==>
      (restart <==> LabelFrom(G.E, Marked(G.criticalNodes[..]), 0, Unlabelled(G.nnodes, G.nedges)) == None)
  {
    hide CritOk, Maxima, Marked, Graph.Valid, EdgeLabels, LabelFrom, Part, Largest;
    ghost var E, n, m, K := G.E, G.nnodes, G.nedges, Marked(G.criticalNodes[..]);
    var bigG: uint32, bigEdge: uint32 := 0, 1;
    restart := restart0;
    ghost var labelled := false;
    BitsBelow(G.criticalNodes[..]);
    G.Sizes();
    NothingUsed(n, m);
    NothingLabelled(E, n, m, K, g[..], visited[..], used[..]);
    for i := 0 to G.nnodes
      invariant Arrays(G, g, visited, used)
      invariant CritOk(E, n, m, K, Marked(visited[..]), g[..], Marked(visited[..]), used[..], bigG)
      invariant Maxima(m, bigG, bigEdge) && bigEdge == Largest(used[..])
      invariant restart == (restart0 && !labelled)
      invariant labelled ==> K != {}
      invariant forall v :: 0 <= v < i && v in K ==> visited[v]
      invariant !labelled ==> forall v :: 0 <= v < n ==> !visited[v] && (v < i ==> v !in K)
      invariant LabelFrom(E, K, 0, Unlabelled(n, m))
        == LabelFrom(E, K, i, Labelling(g[..], visited[..], used[..], bigG))
    {
      LabelNext(E, K, i, Labelling(g[..], visited[..], used[..], bigG));
      MarkedBit(G.criticalNodes[..], i);
      if G.criticalNodes[i] && !visited[i] {
        ghost var b0 := visited[..];
        restart, bigG, bigEdge := TraverseCritical(G, g, visited, used, i, bigG, bigEdge);
        if restart {
          return;
        }
        StillVisited(b0, visited[..], i);
        labelled := true;
      }
    }
    LabelNext(E, K, n, Labelling(g[..], visited[..], used[..], bigG));
    assert !labelled ==> K == {};
    CoreLabelled(E, n, m, K, g[..], visited[..], used[..], bigG);
  }

  lemma NothingUsed(n: nat, m: nat)
    requires m < TWO32
    ensures Largest(Unlabelled(n, m).used) == 1
    ensures forall v :: 0 <= v < n ==> !Unlabelled(n, m).visited[v]
    ensures forall y :: 0 <= y < m ==> !Unlabelled(n, m).used[y]
  {
    LargestIs(Unlabelled(n, m).used, 1);
  }

  lemma LabelNext(E: seq<Edge>, K: set<nat>, i: nat, s: Labelling)
    requires s.Ok(|s.g|, |s.used|)
    ensures LabelFrom(E, K, i, s) ==
      if i >= |s.g| then Some(s)
      else if i in K && !s.visited[i] then
        var t := Part(E, K, s, i);
        if t.None? then None else LabelFrom(E, K, i + 1, t.value)
      else LabelFrom(E, K, i + 1, s)
  {
    hide Part;
  }

  lemma BitsBelow(bits: seq<bool>)
    ensures forall v :: v in Marked(bits) ==> v < |bits|
  {
  }

  lemma StillVisited(before: seq<bool>, visited: seq<bool>, i: nat)
    requires |before| == |visited| && i < |before| && Marked(before) + {i} <= Marked(visited)
    ensures visited[i] && forall v :: 0 <= v < |before| && before[v] ==> visited[v]
  {
    MarkedBit(visited, i);
    forall v | 0 <= v < |before| && before[v]
      ensures visited[v]
    {
      MarkedBit(before, v);
      MarkedBit(visited, v);
    }
  }

  /** A graph is refused: its core gets stuck, or it has no core, and an earlier one got stuck. */
  ghost predicate Refused(E: seq<Edge>, n: nat, m: nat, restart0: bool)
    requires m < TWO32
  {
    if HasCycle(E) then LabelRun(E, n, m) == None else restart0
  }

  /**
   One ordering and searching step; on success the edges are numbered by a bijection onto [0, m). A graph without
   cycles never gets stuck, but it is refused when an earlier graph did, since restart keeps its value.
   */
  method Searching(G: Graph, restart0: bool) returns (restart: bool, g: array<uint32>)
    requires G.Valid() && G.cedges == G.nedges && G.nnodes < EMPTY && NoLoops(G.E) && Simple(G.E)
    modifies G`criticalNodes, G`ncriticalNodes
    ensures fresh(g) && g.Length == G.nnodes && G.Valid()
    ensures !restart ==> Bijection(Sums(G.E, g[..]), G.nedges)
    ensures restart <==> Refused(G.E, G.nnodes, G.nedges, restart0)
  {
    hide Graph.Valid, IsCore, MarksBelow, TouchesSet, Bijection, EdgeLabels, LabelFrom, HasCycle, CoreVertices,
      LabelRun, Refused, Marked;
    ghost var core := G.ObtainCriticalNodes();
    G.Sizes();
    var visited := new bool[G.nnodes](_ => false);
    var used := new bool[G.nedges](_ => false);
    g := new uint32[G.nnodes](_ => 0);
    assert Labelling(g[..], visited[..], used[..], 0) == Unlabelled(G.nnodes, G.nedges);
    TouchedIsMarked(G.E, core, G.nnodes, G.criticalNodes[..]);
    CoreOfForest(G.E, G.nnodes, core, G.criticalNodes[..]);
    restart := LabelCore(G, g, visited, used, restart0);
    RefusedIs(G.E, G.nnodes, G.nedges, Marked(G.criticalNodes[..]), restart0);
    if !restart {
      TraverseNonCritical(G, g, visited, used, core);
    }
  }

  lemma RefusedIs(E: seq<Edge>, n: nat, m: nat, K: set<nat>, restart0: bool)
    requires m < TWO32 && K == CoreVertices(E, n) && (K != {} <==> HasCycle(E))
    ensures Refused(E, n, m, restart0) <==>
      if K == {} then restart0 else LabelFrom(E, K, 0, Unlabelled(n, m)) == None
  {
    hide LabelFrom, HasCycle, CoreVertices;
  }

  lemma CoreOfForest(E: seq<Edge>, n: nat, core: set<nat>, mark: seq<bool>)
    requires InGraph(E, n) && IsCore(E, core)
    requires forall v: nat :: v in Marked(mark) <==> TouchesSet(E, core, v)
    ensures Marked(mark) != {} <==> HasCycle(E)
    ensures Marked(mark) == CoreVertices(E, n)
  {
    CyclicIffCore(E, n, core);
    CoreVerticesAre(E, n, core);
    assert core == {} ==> forall v: nat :: !TouchesSet(E, core, v);
    if core != {} {
      var e :| e in core;
      assert TouchesSet(E, core, E[e].src);
    }
  }

  /** bmz_gen_edges: accepts exactly the seeds that give a simple graph. */
  method GenEdges<Key>(G: Graph, keys: seq<Key>, hash: Hash<Key>, s1: uint32, s2: uint32) returns (ok: bool)
    requires G.Valid() && G.nedges == |keys| && 0 < G.nnodes
    modifies G`cedges, G`E, G`lists, G.edges, G.first, G.next
    ensures G.Valid()
    ensures var all := KeyEdges(hash, s1, s2, G.nnodes, keys); ok <==> NoLoops(all) && Simple(all)
    ensures ok ==> G.E == KeyEdges(hash, s1, s2, G.nnodes, keys)
  {
    ghost var all := KeyEdges(hash, s1, s2, G.nnodes, keys);
    G.ClearEdges();
    for e := 0 to |keys|
      invariant G.Valid() && G.E == all[..e] && NoLoops(G.E) && Simple(G.E)
    {
      var h := KeyEdge(hash, s1, s2, G.nnodes, keys[e]);
      assert h == all[e];
      if h.src == h.dst {
        assert IsLoop(all[e]);
        return false;
      }
      var multipleEdges := G.ContainsEdge(h.src, h.dst);
      if multipleEdges {
        ghost var f :| 0 <= f < e && Joins(G.E[f], h.src, h.dst);
        assert Joins(all[e], all[f].src, all[f].dst);
        return false;
      }
      G.AddEdge(h.src, h.dst);
      assert all[..e + 1] == all[..e] + [h];
      SimpleMore(all[..e], h);
    }
    assert all[..|keys|] == all;
    ok := true;
  }

  lemma SimpleMore(E: seq<Edge>, h: Edge)
    requires NoLoops(E) && Simple(E) && !IsLoop(h)
    requires forall f :: 0 <= f < |E| ==> !Joins(E[f], h.src, h.dst)
    ensures NoLoops(E + [h]) && Simple(E + [h])
  {
    forall e | 0 <= e < |E|
      ensures !Joins(h, E[e].src, E[e].dst)
    {
      assert !Joins(E[e], h.src, h.dst);
    }
  }

  /** The finished function: bmz_data_t. */
  datatype Bmz = Bmz(n: uint32, m: uint32, s1: uint32, s2: uint32, g: seq<uint32>) {
    predicate Valid() {
      0 < n == |g|
    }

    /** The number of the key's edge: what bmz_search is meant to return. */
    function KeyNumber<Key>(hash: Hash<Key>, key: Key): uint32
      requires Valid()
    {
      var e := KeyEdge(hash, s1, s2, n, key);
      Add32(g[e.src], g[e.dst])
    }

    /** bmz_search wraps the second vertex one place too late; None stands for the read behind the table. */
    function Search<Key>(hash: Hash<Key>, key: Key): Option<uint32>
      requires Valid()
    {
      var h1 := hash(s1, key) % n;
      var h2 := hash(s2, key) % n;
      var h2' := if h1 == h2 then if h2 + 1 > n then 0 else h2 + 1 else h2;
      if h2' < n then Some(Add32(g[h1], g[h2'])) else None
    }

    /** Both hashes of the key meet in the last vertex. */
    predicate InCorner<Key>(hash: Hash<Key>, key: Key)
      requires Valid()
    {
      hash(s1, key) % n == n - 1 && hash(s2, key) % n == n - 1
    }
  }

  /** bmz_search returns the key's number exactly when its two hashes do not meet in the last vertex. */
  lemma SearchExact<Key>(f: Bmz, hash: Hash<Key>, key: Key)
    requires f.Valid()
    ensures f.Search(hash, key) == Some(f.KeyNumber(hash, key)) <==> !f.InCorner(hash, key)
  {
  }

  ghost function Numbers<Key>(f: Bmz, hash: Hash<Key>, keys: seq<Key>): seq<nat>
    requires f.Valid()
  {
    seq(|keys|, i requires 0 <= i < |keys| => f.KeyNumber(hash, keys[i]))
  }

  lemma NumbersAreSums<Key>(f: Bmz, hash: Hash<Key>, keys: seq<Key>, E: seq<Edge>)
    requires f.Valid() && E == KeyEdges(hash, f.s1, f.s2, f.n, keys) && InGraph(E, f.n)
    ensures Numbers(f, hash, keys) == Sums(E, f.g)
  {
    hide KeyEdge;
  }

  ghost predicate Finds<Key>(f: Bmz, hash: Hash<Key>, keys: seq<Key>, y: nat)
    requires f.Valid()
  {
    exists i :: 0 <= i < |keys| && f.Search(hash, keys[i]) == Some(y)
  }

  /** When no key lies in the corner, what bmz_search returns for the keys is a bijection onto [0, m). */
  lemma SearchIsMinimalPerfect<Key>(f: Bmz, hash: Hash<Key>, keys: seq<Key>)
    requires f.Valid() && Bijection(Numbers(f, hash, keys), |keys|)
    requires forall i :: 0 <= i < |keys| ==> !f.InCorner(hash, keys[i])
    ensures forall i :: 0 <= i < |keys| ==> f.Search(hash, keys[i]).Some? && f.Search(hash, keys[i]).value < |keys|
    ensures forall i, j :: 0 <= i < j < |keys| ==> f.Search(hash, keys[i]) != f.Search(hash, keys[j])
    ensures forall y :: 0 <= y < |keys| ==> Finds(f, hash, keys, y)
  {
    hide Bmz.Search, Bmz.KeyNumber, Bmz.InCorner;
    var s := Numbers(f, hash, keys);
    forall i | 0 <= i < |keys|
      ensures f.Search(hash, keys[i]) == Some(s[i])
    {
      SearchExact(f, hash, keys[i]);
    }
    forall y | 0 <= y < |keys|
      ensures Finds(f, hash, keys, y)
    {
      assert y in s;
      var i :| 0 <= i < |s| && s[i] == y;
      assert f.Search(hash, keys[i]) == Some(y);
    }
  }

  const ITERATIONS_MAP := 20
  const ITERATIONS := 100

  /** Everything that bmz_new works on. */
  datatype Job<!Key> = Job(keys: seq<Key>, n: uint32, hash: Hash<Key>, seeds: nat -> (uint32, uint32)) {
    ghost predicate Valid() {
      0 < n && |keys| < TWO32
    }

    /** The graph that the seeds number t give. */
    ghost function GraphOf(t: nat): (E: seq<Edge>)
      requires Valid()
      ensures |E| == |keys|
    {
      KeyEdges(hash, seeds(t).0, seeds(t).1, n, keys)
    }

    /** Graph number t is refused: Refused. */
    ghost predicate Refuses(t: nat, restart0: bool)
      requires Valid()
    {
      Refused(GraphOf(t), n, |keys|, restart0)
    }
  }

  ghost predicate SimpleGraph(E: seq<Edge>) {
    NoLoops(E) && Simple(E)
  }

  /** The first simple graph from number t on, among so many. */
  ghost function FirstSimple<Key>(j: Job<Key>, t: nat, tries: nat): (r: Option<nat>)
    requires j.Valid()
    ensures r.Some? ==> t <= r.value && SimpleGraph(j.GraphOf(r.value))
    decreases tries
  {
    if tries == 0 then None
    else if SimpleGraph(j.GraphOf(t)) then Some(t)
    else FirstSimple(j, t + 1, tries - 1)
  }

  /** The number of the graph that is accepted within so many rounds; each draws graphs until one is simple. */
  ghost function Rounds<Key>(j: Job<Key>, t: nat, left: nat, restart: bool): (r: Option<nat>)
    requires j.Valid()
    ensures r.Some? ==> t <= r.value
    decreases left
  {
    if left == 0 then None else
      var u := FirstSimple(j, t, ITERATIONS);
      if u.None? then None
      else if j.Refuses(u.value, restart) then Rounds(j, u.value + 1, left - 1, true)
      else u
  }

  /** After one restart no graph without cycles is accepted any more. */
  lemma {:induction false} ForestsRefused<Key>(j: Job<Key>, t: nat, left: nat)
    requires j.Valid()
    ensures Rounds(j, t, left, true).Some? ==> HasCycle(j.GraphOf(Rounds(j, t, left, true).value))
    decreases left
  {
    hide HasCycle, FirstSimple, LabelRun;
    if left > 0 {
      var u := FirstSimple(j, t, ITERATIONS);
      if u.Some? && j.Refuses(u.value, true) {
        ForestsRefused(j, u.value + 1, left - 1);
      }
    }
  }

  /** A graph without cycles is accepted if and only if it is the first simple one of all. */
  lemma ForestAccepted<Key>(j: Job<Key>, u: nat)
    requires j.Valid() && !HasCycle(j.GraphOf(u))
    ensures Rounds(j, 0, ITERATIONS_MAP, false) == Some(u) <==> FirstSimple(j, 0, ITERATIONS) == Some(u)
  {
    hide HasCycle, FirstSimple, LabelRun;
    var f := FirstSimple(j, 0, ITERATIONS);
    if f.Some? && j.Refuses(f.value, false) {
      ForestsRefused(j, f.value + 1, ITERATIONS_MAP - 1);
    }
  }

  lemma NextDraw<Key>(j: Job<Key>, t: nat, tries: nat)
    requires j.Valid() && 0 < tries
    ensures FirstSimple(j, t, tries) == if SimpleGraph(j.GraphOf(t)) then Some(t) else FirstSimple(j, t + 1, tries - 1)
  {
  }

  lemma NothingLeft<Key>(j: Job<Key>, t: nat, restart: bool)
    requires j.Valid()
    ensures FirstSimple(j, t, 0) == None && Rounds(j, t, 0, restart) == None
  {
  }

  lemma NextRound<Key>(j: Job<Key>, t: nat, left: nat, restart: bool)
    requires j.Valid() && 0 < left
    ensures Rounds(j, t, left, restart) ==
      var u := FirstSimple(j, t, ITERATIONS);
      if u.None? then None
      else if j.Refuses(u.value, restart) then Rounds(j, u.value + 1, left - 1, true)
      else u
  {
    hide FirstSimple, Refused;
  }

  lemma {:induction false} FirstSimpleIs<Key>(j: Job<Key>, t: nat, tries: nat)
    requires j.Valid()
    ensures FirstSimple(j, t, tries).Some? <==> exists u: nat :: t <= u < t + tries && SimpleGraph(j.GraphOf(u))
    decreases tries
  {
    hide SimpleGraph;
    if tries > 0 {
      FirstSimpleIs(j, t + 1, tries - 1);
    }
  }

  /** Up to two keys get a function unless each of the first 100 seed pairs gives both the same edge. */
  lemma FewKeysAccepted<Key>(j: Job<Key>)
    requires j.Valid() && 2 <= j.n && |j.keys| <= 2
    ensures Rounds(j, 0, ITERATIONS_MAP, false).Some? <==> |j.keys| < 2 || exists t: nat ::
      t < 100 && !SamePair(j.hash, j.seeds(t).0, j.seeds(t).1, j.n, j.keys[0], j.keys[1])
  {
    hide HasCycle, SamePair, FirstSimple, Refused, NoLoops;
    forall t: nat
      ensures !HasCycle(j.GraphOf(t)) <==> SimpleGraph(j.GraphOf(t))
      ensures !HasCycle(j.GraphOf(t)) <==>
        |j.keys| < 2 || !SamePair(j.hash, j.seeds(t).0, j.seeds(t).1, j.n, j.keys[0], j.keys[1])
    {
      FewKeys(j.hash, j.seeds(t).0, j.seeds(t).1, j.n, j.keys);
      FewEdges(j.GraphOf(t));
    }
    FirstSimpleIs(j, 0, ITERATIONS);
    var u := FirstSimple(j, 0, ITERATIONS);
    if u.Some? {
      ForestAccepted(j, u.value);
    } else {
      NextRound(j, 0, ITERATIONS_MAP, false);
      assert forall t: nat :: t < 100 ==> !SimpleGraph(j.GraphOf(t));
    }
    if |j.keys| < 2 {
      assert SimpleGraph(j.GraphOf(0));
    }
  }

  /**
   bmz_new on the branch for c > 1.14, which is the default. There is a function if and only if one of the rounds
   accepts a graph; it is that of the first.
   */
  method New<Key>(keys: seq<Key>, n: uint32, hash: Hash<Key>, seeds: nat -> (uint32, uint32)) returns (r: Option<Bmz>)
    requires 0 < n < EMPTY && 2 * |keys| < EMPTY
    ensures
      var a := Rounds(Job(keys, n, hash, seeds), 0, ITERATIONS_MAP, false);
      (r.Some? <==> a.Some?) && (r.Some? ==> (r.value.s1, r.value.s2) == seeds(a.value))
    ensures |keys| < 2 <= n ==> r.Some?
    ensures |keys| == 2 <= n ==>
      (r.Some? <==> exists t: nat :: t < 100 && !SamePair(hash, seeds(t).0, seeds(t).1, n, keys[0], keys[1]))
    ensures r.Some? ==> r.value.Valid() && r.value.n == n && r.value.m == |keys|
    ensures r.Some? ==> Bijection(Numbers(r.value, hash, keys), |keys|)
  {
    hide Graph.Valid, HasCycle, KeyEdges, Simple, NoLoops, Bijection, Refused, Rounds, FirstSimple, SamePair;
    ghost var j := Job(keys, n, hash, seeds);
    if |keys| <= 2 <= n {
      FewKeysAccepted(j);
    }
    var G := new Graph(n, |keys|);
    var iterationsMap := ITERATIONS_MAP;
    var restart := false;
    var t: nat := 0;
    while true
      invariant 0 < iterationsMap <= ITERATIONS_MAP
      invariant G.Valid() && fresh(G) && fresh(G.edges) && fresh(G.first) && fresh(G.next)
      invariant G.nnodes == n && G.nedges == |keys|
      invariant Rounds(j, 0, ITERATIONS_MAP, false) == Rounds(j, t, iterationsMap, restart)
      decreases iterationsMap
    {
      NextRound(j, t, iterationsMap, restart);
      var iterations := ITERATIONS;
      ghost var t0 := t;
      while true
        invariant 0 < iterations <= ITERATIONS
        invariant G.Valid() && fresh(G) && fresh(G.edges) && fresh(G.first) && fresh(G.next)
        invariant FirstSimple(j, t0, ITERATIONS) == FirstSimple(j, t, iterations)
        decreases iterations
      {
        NextDraw(j, t, iterations);
        var ok := GenEdges(G, keys, hash, seeds(t).0, seeds(t).1);
        if ok {
          break;
        }
        t := t + 1;
        iterations := iterations - 1;
        if iterations == 0 {
          NothingLeft(j, t, restart);
          return None;
        }
      }
      G.Sizes();
      assert G.E == j.GraphOf(t) && |G.E| == |keys|;
      var g: array<uint32>;
      restart, g := Searching(G, restart);
      if !restart {
        var f := Bmz(n, |keys|, seeds(t).0, seeds(t).1, g[..]);
        NumbersAreSums(f, hash, keys, G.E);
        return Some(f);
      }
      t := t + 1;
      iterationsMap := iterationsMap - 1;
      if iterationsMap == 0 {
        NothingLeft(j, t, true);
        return None;
      }
    }
  }
}
