/**
 bmz.c, first half of the searching step: labels for the vertices of the 2-core, chosen in
 breadth-first order so that the edges inside the core get distinct numbers below m.
 */
module BmzCritical {
  import opened Words
  import opened Counting
  import opened Multigraph
  import opened Graphs
  import opened VQueues
  import opened BmzLabels
  import opened BmzRuns

  // ---- one vertex -----------------------------------------------------------------------------

  /** What the loops over neighbors need: the arrays, and what they stand for. */
  ghost predicate Arrays(G: Graph, g: array<uint32>, visited: array<bool>, used: array<bool>)
    reads G, G.edges, G.first, G.next
  {
    && G.Valid() && NoLoops(G.E)
    && g.Length == visited.Length == G.criticalNodes.Length == G.nnodes && used.Length == G.nedges
    && g != G.edges && g != G.first && g != G.next
    && visited != used && visited != G.criticalNodes && used != G.criticalNodes
  }

  datatype Outcome = Free | Collision | Restart

  /** One round of the lookahead: would nextG give u's edges into the visited core new numbers? */
  method Lookahead(G: Graph, g: array<uint32>, visited: array<bool>, used: array<bool>, u: uint32, nextG: uint32)
    returns (r: Outcome)
    requires Arrays(G, g, visited, used) && u < G.nnodes
    requires forall x :: x in Marked(visited[..]) ==> G.criticalNodes[x] && g[x] <= G.nedges
    requires nextG <= G.nedges + 1
    ensures r == Free ==> Fits(G.E, G.nedges, g[..], Marked(visited[..]), used[..], u, nextG)
    ensures r == Collision ==> Hits(G.E, g[..], Marked(visited[..]), used[..], u, nextG) && nextG < G.nedges
    ensures r == Restart ==> TooLarge(G.E, G.nedges, g[..], Marked(visited[..]), u, nextG)
  {
    hide FitsUpTo, Fits, Marked, Incident, Graph.Valid, Hits, TooLarge;
    G.ListFacts(u);
    ghost var E, m, l, S := G.E, G.nedges, G.lists[u], Marked(visited[..]);
    var it := Iterator(u, G.first[u]);
    ghost var k := 0;
    FitsNone(E, m, g[..], S, used[..], u, nextG, l);
    while true
      invariant it.vertex == u && k <= |l| && it.edge == Item(l, k)
      invariant FitsUpTo(E, m, g[..], S, used[..], u, nextG, l, k)
      decreases |l| - k
    {
      if k < |l| {
        ListEntry(E, m, u, l, k);
      }
      var lav: uint32;
      lav, it := G.NextNeighbor(it, k);
      if lav == NO_NEIGHBOR {
        break;
      }
      MarkedBit(visited[..], lav);
      if G.criticalNodes[lav] && visited[lav] {
        var y := Add32(nextG, g[lav]);
        if y >= G.nedges {
          FoundTooLarge(E, m, g[..], S, u, nextG, AbsEdge(l[k], m));
          return Restart;
        }
        if used[y] {
          FoundHit(E, g[..], S, used[..], u, nextG, AbsEdge(l[k], m));
          return Collision;
        }
      }
      FitsNext(E, m, g[..], S, used[..], u, nextG, l, k);
      k := k + 1;
    }
    FitsAll(E, m, g[..], S, used[..], u, nextG, l);
    r := Free;
  }

  lemma FitsNone(E: seq<Edge>, m: nat, g: seq<uint32>, S: set<nat>, used: seq<bool>, u: nat, nextG: nat, l: seq<nat>)
    requires |used| == m
    ensures FitsUpTo(E, m, g, S, used, u, nextG, l, 0)
  {
  }

  lemma FitsNext(E: seq<Edge>, m: nat, g: seq<uint32>, S: set<nat>, used: seq<bool>, u: nat, nextG: nat, l: seq<nat>,
                 k: nat)
    requires FitsUpTo(E, m, g, S, used, u, nextG, l, k) && |used| == m
    requires k < |l| && FitsAt(E, m, g, S, used, u, nextG, l[k])
    ensures FitsUpTo(E, m, g, S, used, u, nextG, l, k + 1)
  {
  }

  ghost predicate FitsUpTo(E: seq<Edge>, m: nat, g: seq<uint32>, S: set<nat>, used: seq<bool>, u: nat, nextG: nat,
                           l: seq<nat>, k: nat)
  {
    |used| == m && forall i :: 0 <= i < k && i < |l| ==> FitsAt(E, m, g, S, used, u, nextG, l[i])
  }

  ghost predicate FitsAt(E: seq<Edge>, m: nat, g: seq<uint32>, S: set<nat>, used: seq<bool>, u: nat, nextG: nat, h: nat)
    requires |used| == m
  {
    && h < 2 * m && AbsEdge(h, m) < |E|
    && var x := Opposite(E[AbsEdge(h, m)], u);
    x in S ==> x < |g| && nextG + g[x] < m && !used[nextG + g[x]]
  }

  lemma FitsAll(E: seq<Edge>, m: nat, g: seq<uint32>, S: set<nat>, used: seq<bool>, u: nat, nextG: nat, l: seq<nat>)
    requires InGraph(E, |g|) && |E| <= m && Incident(E, m, u, l)
    requires FitsUpTo(E, m, g, S, used, u, nextG, l, |l|)
    ensures Fits(E, m, g, S, used, u, nextG)
  {
    forall e | 0 <= e < |E| && Touches(E[e], u) && Opposite(E[e], u) in S
      ensures nextG + g[Opposite(E[e], u)] < m && !used[nextG + g[Opposite(E[e], u)]]
    {
      var p := ListPosition(E, m, u, l, e);
      assert FitsAt(E, m, g, S, used, u, nextG, l[p]);
    }
  }

  ghost predicate HasSeenNeighbor(E: seq<Edge>, S: set<nat>, u: nat) {
    exists e :: 0 <= e < |E| && Touches(E[e], u) && Opposite(E[e], u) in S
  }

  /** The smallest label above biggest that fits u, unless one that is too large comes first. */
  method FindLabel(G: Graph, g: array<uint32>, visited: array<bool>, used: array<bool>, u: uint32, biggest: uint32)
    returns (restart: bool, nextG: uint32, bigG: uint32)
    requires Arrays(G, g, visited, used) && u < G.nnodes && biggest <= G.nedges
    requires forall x :: x in Marked(visited[..]) ==> G.criticalNodes[x] && g[x] <= biggest
    requires HasSeenNeighbor(G.E, Marked(visited[..]), u)
    ensures !restart ==> biggest < nextG < G.nedges && bigG == nextG
    ensures !restart ==> Fits(G.E, G.nedges, g[..], Marked(visited[..]), used[..], u, nextG)
    ensures AllHit(G.E, g[..], Marked(visited[..]), used[..], u, biggest, nextG)
    ensures restart ==> Stuck(G.E, G.nedges, g[..], Marked(visited[..]), used[..], u, biggest)
    ensures LeastLabel(G.E, Labelling(g[..], visited[..], used[..], biggest), u, biggest + 1)
      == if restart then None else Some(nextG)
  {
    hide Fits, Hits, TooLarge, LeastLabel;
    restart, nextG, bigG := false, 0, biggest;
    ghost var s := Labelling(g[..], visited[..], used[..], biggest);
    var collision := true;
    while collision
      invariant biggest <= bigG <= G.nedges
      invariant AllHit(G.E, g[..], Marked(visited[..]), used[..], u, biggest, if collision then bigG + 1 else nextG)
      invariant !collision ==> biggest < nextG == bigG < G.nedges
      invariant !collision ==> Fits(G.E, G.nedges, g[..], Marked(visited[..]), used[..], u, nextG)
      decreases G.nedges - bigG
    {
      nextG := bigG + 1;
      var o := Lookahead(G, g, visited, used, u, nextG);
      if o == Restart {
        restart := true;
        NothingFits(G.E, s, u, biggest, nextG);
        return;
      }
      collision := o == Collision;
      if !collision {
        FitsBelow(G.E, G.nedges, g[..], Marked(visited[..]), used[..], u, nextG);
      }
      if nextG > bigG {
        bigG := nextG;
      }
    }
    LeastFits(G.E, s, u, biggest, nextG);
  }

  lemma HitDoesNotFit(E: seq<Edge>, s: Labelling, u: nat, y: nat)
    requires Hits(E, s.g, Marked(s.visited), s.used, u, y)
    ensures !s.Fitting(E, u, y)
  {
  }

  /** A label that is too large rules out all larger ones. */
  lemma NothingFits(E: seq<Edge>, s: Labelling, u: nat, lo: nat, hi: nat)
    requires |s.used| < TWO32 && lo < hi && TooLarge(E, |s.used|, s.g, Marked(s.visited), u, hi)
    requires AllHit(E, s.g, Marked(s.visited), s.used, u, lo, hi)
    ensures LeastLabel(E, s, u, lo + 1) == None
  {
    hide LeastLabel, Hits, Labelling.Fitting, Marked;
    forall z: nat | lo + 1 <= z
      ensures !s.Fitting(E, u, z)
    {
      if z < hi {
        HitDoesNotFit(E, s, u, z);
      } else {
        LargerStill(E, s, u, hi, z);
      }
    }
    LeastLabelIs(E, s, u, lo + 1, None);
  }

  lemma LargerStill(E: seq<Edge>, s: Labelling, u: nat, y: nat, z: nat)
    requires TooLarge(E, |s.used|, s.g, Marked(s.visited), u, y) && y <= z
    ensures !s.Fitting(E, u, z)
  {
  }

  lemma LeastFits(E: seq<Edge>, s: Labelling, u: nat, lo: nat, y: uint32)
    requires |s.used| < TWO32 && lo < y < |s.used| && s.Fitting(E, u, y)
    requires AllHit(E, s.g, Marked(s.visited), s.used, u, lo, y)
    ensures LeastLabel(E, s, u, lo + 1) == Some(y)
  {
    hide LeastLabel, Hits, Labelling.Fitting, Marked;
    forall z: nat | lo + 1 <= z < y
      ensures !s.Fitting(E, u, z)
    {
      HitDoesNotFit(E, s, u, z);
    }
    LeastLabelIs(E, s, u, lo + 1, Some(y));
  }

  lemma FitsBelow(E: seq<Edge>, m: nat, g: seq<uint32>, S: set<nat>, used: seq<bool>, u: nat, nextG: nat)
    requires InGraph(E, |g|) && Fits(E, m, g, S, used, u, nextG) && HasSeenNeighbor(E, S, u)
    ensures nextG < m
  {
  }

  ghost predicate TakesAt(E: seq<Edge>, m: nat, g: seq<uint32>, S: set<nat>, u: nat, nextG: nat, h: nat,
                          used: seq<bool>) {
    && h < 2 * m && AbsEdge(h, m) < |E|
    && var x := Opposite(E[AbsEdge(h, m)], u);
    x in S ==> x < |g| && nextG + g[x] < |used| && used[nextG + g[x]]
  }

  /** While marking: the numbers taken by the first k half-edges of u are marked, and nothing else is. */
  ghost predicate MarkState(E: seq<Edge>, m: nat, g: seq<uint32>, S: set<nat>, u: nat, nextG: nat, l: seq<nat>, k: nat,
                            before: seq<bool>, used: seq<bool>)
  {
    && |used| == |before| == m
    && (forall i :: 0 <= i < k && i < |l| ==> TakesAt(E, m, g, S, u, nextG, l[i], used))
    && (forall y :: 0 <= y < m && before[y] ==> used[y])
    && (forall y :: 0 <= y < m && used[y] ==> before[y] || Takes(E, g, S, u, nextG, y))
  }

  lemma MarkNext(E: seq<Edge>, m: nat, g: seq<uint32>, S: set<nat>, u: nat, nextG: nat, l: seq<nat>, k: nat,
                 before: seq<bool>, used: seq<bool>, used': seq<bool>)
    requires InGraph(E, |g|) && MarkState(E, m, g, S, u, nextG, l, k, before, used) && k < |l|
    requires l[k] < 2 * m && AbsEdge(l[k], m) < |E| && Touches(E[AbsEdge(l[k], m)], u)
    requires
      var x := Opposite(E[AbsEdge(l[k], m)], u);
      if x in S then x < |g| && nextG + g[x] < m && used' == used[nextG + g[x] := true] else used' == used
    ensures MarkState(E, m, g, S, u, nextG, l, k + 1, before, used')
  {
    forall i | 0 <= i < k
      ensures TakesAt(E, m, g, S, u, nextG, l[i], used')
    {
      assert TakesAt(E, m, g, S, u, nextG, l[i], used);
    }
  }

  lemma MarkDone(E: seq<Edge>, m: nat, g: seq<uint32>, S: set<nat>, u: nat, nextG: nat, l: seq<nat>,
                 before: seq<bool>, used: seq<bool>)
    requires InGraph(E, |g|) && |E| <= m && Incident(E, m, u, l)
    requires MarkState(E, m, g, S, u, nextG, l, |l|, before, used)
    ensures MarksNumbers(E, g, S, u, nextG, before, used)
  {
    forall y | 0 <= y < m && Takes(E, g, S, u, nextG, y)
      ensures used[y]
    {
      var e :| 0 <= e < |E| && Touches(E[e], u) && Opposite(E[e], u) in S && nextG + g[Opposite(E[e], u)] == y;
      var p := ListPosition(E, m, u, l, e);
      assert TakesAt(E, m, g, S, u, nextG, l[p], used);
    }
  }

  lemma FitsEntry(E: seq<Edge>, m: nat, g: seq<uint32>, S: set<nat>, used: seq<bool>, u: nat, nextG: nat, e: nat)
    requires InGraph(E, |g|) && Fits(E, m, g, S, used, u, nextG) && e < |E| && Touches(E[e], u)
    ensures Opposite(E[e], u) in S ==> nextG + g[Opposite(E[e], u)] < m
  {
  }

  /** Marks the number of the edge from u to its neighbor lav, if lav is in the visited core. */
  method MarkNumber(critical: array<bool>, visited: array<bool>, g: array<uint32>, used: array<bool>, nextG: uint32,
                    lav: uint32, biggestEdge: uint32)
    returns (bigEdge: uint32)
    requires lav < critical.Length == visited.Length == g.Length && used != visited && used != critical
    requires visited[lav] ==> critical[lav] && g[lav] <= nextG && nextG + g[lav] < used.Length < TWO32
    modifies used
    ensures used[..] == if visited[lav] then old(used[..])[nextG + g[lav] := true] else old(used[..])
    ensures biggestEdge <= bigEdge && (bigEdge == biggestEdge || bigEdge <= 2 * nextG)
    ensures biggestEdge == Largest(old(used[..])) ==> bigEdge == Largest(used[..])
  {
    hide Largest;
    bigEdge := biggestEdge;
    if critical[lav] && visited[lav] {
      var y := Add32(nextG, g[lav]);
      LargestSet(used[..], y);
      used[y] := true;
      if y > bigEdge {
        bigEdge := y;
      }
    }
  }

  /** Marks the numbers of u's edges into the visited core and keeps track of the largest. */
  method MarkUsed(G: Graph, g: array<uint32>, visited: array<bool>, used: array<bool>, u: uint32, nextG: uint32,
                  biggestEdge: uint32)
    returns (bigEdge: uint32)
    requires Arrays(G, g, visited, used) && u < G.nnodes
    requires forall x :: x in Marked(visited[..]) ==> G.criticalNodes[x] && g[x] <= nextG
    requires Fits(G.E, G.nedges, g[..], Marked(visited[..]), used[..], u, nextG)
    modifies used
    ensures MarksNumbers(G.E, g[..], Marked(visited[..]), u, nextG, old(used[..]), used[..])
    ensures biggestEdge <= bigEdge && (bigEdge == biggestEdge || bigEdge <= 2 * nextG)
    ensures biggestEdge == Largest(old(used[..])) ==> bigEdge == Largest(used[..])
  {
    hide Fits, MarkState, MarksNumbers, Marked, Incident, Graph.Valid, Largest;
    G.ListFacts(u);
    ghost var E, m, l, S, before := G.E, G.nedges, G.lists[u], Marked(visited[..]), used[..];
    bigEdge := biggestEdge;
    var it := Iterator(u, G.first[u]);
    ghost var k := 0;
    MarkNone(E, m, g[..], S, u, nextG, l, before);
    while true
      invariant it.vertex == u && k <= |l| && it.edge == Item(l, k)
      invariant MarkState(E, m, g[..], S, u, nextG, l, k, before, used[..])
      invariant biggestEdge <= bigEdge && (bigEdge == biggestEdge || bigEdge <= 2 * nextG)
      invariant biggestEdge == Largest(before) ==> bigEdge == Largest(used[..])
      decreases |l| - k
    {
      if k < |l| {
        ListEntry(E, m, u, l, k);
      }
      var lav: uint32;
      lav, it := G.NextNeighbor(it, k);
      if lav == NO_NEIGHBOR {
        break;
      }
      ghost var used0 := used[..];
      MarkedBit(visited[..], lav);
      FitsEntry(E, m, g[..], S, before, u, nextG, AbsEdge(l[k], m));
      bigEdge := MarkNumber(G.criticalNodes, visited, g, used, nextG, lav, bigEdge);
      MarkNext(E, m, g[..], S, u, nextG, l, k, before, used0, used[..]);
      k := k + 1;
    }
    MarkDone(E, m, g[..], S, u, nextG, l, before, used[..]);
  }

  lemma MarkNone(E: seq<Edge>, m: nat, g: seq<uint32>, S: set<nat>, u: nat, nextG: nat, l: seq<nat>, before: seq<bool>)
    requires InGraph(E, |g|) && |before| == m
    ensures MarkState(E, m, g, S, u, nextG, l, 0, before, before)
  {
  }

  // ---- the breadth-first search ----------------------------------------------------------------

  /** All critical neighbors of x were visited. */
  ghost predicate CritExhausted(E: seq<Edge>, K: set<nat>, x: nat, S: set<nat>) {
    forall e :: 0 <= e < |E| && Touches(E[e], x) && Opposite(E[e], x) in K ==> Opposite(E[e], x) in S
  }

  /** Vertices of this search with an unvisited critical neighbor are in the queue, or are cur. */
  ghost predicate Frontier(E: seq<Edge>, K: set<nat>, V: set<nat>, S: set<nat>, q: seq<uint32>, cur: int) {
    && (forall x :: x in S && x !in V && x != cur && x !in q ==> CritExhausted(E, K, x, S))
    && (forall x :: x in q ==> x in S)
    && (0 <= cur ==> cur in S)
  }

  ghost predicate CritDone(E: seq<Edge>, m: nat, K: set<nat>, v: nat, l: seq<nat>, k: nat, S: set<nat>) {
    forall i :: 0 <= i < k && i < |l| ==> CritDoneAt(E, m, K, v, l[i], S)
  }

  ghost predicate CritDoneAt(E: seq<Edge>, m: nat, K: set<nat>, v: nat, h: nat, S: set<nat>) {
    && h < 2 * m && AbsEdge(h, m) < |E|
    && (Opposite(E[AbsEdge(h, m)], v) in K ==> Opposite(E[AbsEdge(h, m)], v) in S)
  }

  lemma CritDoneNext(E: seq<Edge>, m: nat, K: set<nat>, v: nat, l: seq<nat>, k: nat, S: set<nat>, S': set<nat>)
    requires CritDone(E, m, K, v, l, k, S) && S <= S'
    requires k < |l| && CritDoneAt(E, m, K, v, l[k], S')
    ensures CritDone(E, m, K, v, l, k + 1, S')
  {
    assert forall i :: 0 <= i < k ==> CritDoneAt(E, m, K, v, l[i], S);
  }

  lemma CritDoneAll(E: seq<Edge>, m: nat, K: set<nat>, v: nat, l: seq<nat>, S: set<nat>)
    requires |E| <= m && Incident(E, m, v, l) && CritDone(E, m, K, v, l, |l|, S)
    ensures CritExhausted(E, K, v, S)
  {
    forall e | 0 <= e < |E| && Touches(E[e], v) && Opposite(E[e], v) in K
      ensures Opposite(E[e], v) in S
    {
      var p := ListPosition(E, m, v, l, e);
      assert CritDoneAt(E, m, K, v, l[p], S);
    }
  }

  lemma FrontierGrow(E: seq<Edge>, K: set<nat>, V: set<nat>, S: set<nat>, q: seq<uint32>, cur: int, u: uint32)
    requires Frontier(E, K, V, S, q, cur)
    ensures Frontier(E, K, V, S + {u}, q + [u], cur)
  {
    forall x | x in S + {u} && x !in V && x != cur && x !in q + [u]
      ensures CritExhausted(E, K, x, S + {u})
    {
      assert u in q + [u];
      assert forall y :: y in q ==> y in q + [u];
      assert CritExhausted(E, K, x, S);
    }
  }

  lemma FrontierPop(E: seq<Edge>, K: set<nat>, V: set<nat>, S: set<nat>, q: seq<uint32>, v: uint32, q': seq<uint32>)
    requires Frontier(E, K, V, S, q, -1) && q == [v] + q'
    ensures Frontier(E, K, V, S, q', v) && v in S
  {
    assert forall x :: x in q <==> x == v || x in q';
  }

  lemma FrontierDone(E: seq<Edge>, K: set<nat>, V: set<nat>, S: set<nat>, q: seq<uint32>, v: uint32)
    requires Frontier(E, K, V, S, q, v) && CritExhausted(E, K, v, S)
    ensures Frontier(E, K, V, S, q, -1)
  {
  }

  /** When the queue is empty, no edge between critical vertices leaves what is visited. */
  lemma FrontierClosed(E: seq<Edge>, K: set<nat>, V: set<nat>, S: set<nat>)
    requires V <= S <= K && CritClosed(E, K, V) && Frontier(E, K, V, S, [], -1)
    ensures CritClosed(E, K, S)
  {
    forall e | 0 <= e < |E| && Inside(E[e], K)
      ensures E[e].src in S <==> E[e].dst in S
    {
      assert E[e].src in S && E[e].src !in V ==> CritExhausted(E, K, E[e].src, S);
      assert E[e].dst in S && E[e].dst !in V ==> CritExhausted(E, K, E[e].dst, S);
    }
  }

  lemma StartSearch(E: seq<Edge>, n: nat, m: nat, K: set<nat>, V: set<nat>, g: seq<uint32>, used: seq<bool>,
                    bigG: nat, bigEdge: nat, v: uint32, gv: uint32)
    requires CritOk(E, n, m, K, V, g, V, used, bigG) && v in K && v !in V
    requires Maxima(m, bigG, bigEdge) && gv == (bigEdge + 1) / 2 - 1
    ensures CritOk(E, n, m, K, V, g[v := gv], V + {v}, used, bigG)
    ensures Frontier(E, K, V, V + {v}, [v], -1)
  {
    var g' := g[v := gv];
    forall e | 0 <= e < |E| && Inside(E[e], V + {v})
      ensures Inside(E[e], V) && Label(g', E[e]) == Label(g, E[e])
    {
      assert Inside(E[e], K);
    }
    forall y | 0 <= y < m && used[y]
      ensures HasLabel(E, g', V + {v}, y)
    {
      assert HasLabel(E, g, V, y);
      var e :| 0 <= e < |E| && Inside(E[e], V) && Label(g, E[e]) == y;
      assert Inside(E[e], V + {v}) && Label(g', E[e]) == y;
    }
    assert v in [v];
  }

  /** A finished search becomes part of what earlier searches visited. */
  lemma NextSearch(E: seq<Edge>, n: nat, m: nat, K: set<nat>, V: set<nat>, g: seq<uint32>, S: set<nat>,
                   used: seq<bool>, bigG: nat)
    requires CritOk(E, n, m, K, V, g, S, used, bigG) && Frontier(E, K, V, S, [], -1)
    ensures CritOk(E, n, m, K, S, g, S, used, bigG)
  {
    FrontierClosed(E, K, V, S);
  }

  /** Gives u a label, marks the numbers of its edges into the visited core, and visits it. */
  method VisitCritical(G: Graph, g: array<uint32>, visited: array<bool>, used: array<bool>, u: uint32,
                       biggest: uint32, biggestEdge: uint32, ghost V: set<nat>)
    returns (restart: bool, bigG: uint32, bigEdge: uint32)
    requires Arrays(G, g, visited, used) && u < G.nnodes && G.criticalNodes[u] && !visited[u]
    requires CritOk(G.E, G.nnodes, G.nedges, Marked(G.criticalNodes[..]), V,
                    g[..], Marked(visited[..]), used[..], biggest)
    requires Maxima(G.nedges, biggest, biggestEdge) && HasSeenNeighbor(G.E, Marked(visited[..]), u)
    requires biggestEdge == Largest(used[..])
    modifies g, visited, used
    ensures VisitOne(G.E, Labelling(old(g[..]), old(visited[..]), old(used[..]), biggest), u)
      == if restart then None else Some(Labelling(g[..], visited[..], used[..], bigG))
    ensures !restart ==> bigEdge == Largest(used[..])
    ensures !restart ==> Maxima(G.nedges, bigG, bigEdge) && visited[..] == old(visited[..])[u := true]
    ensures !restart ==>
      CritOk(G.E, G.nnodes, G.nedges, Marked(G.criticalNodes[..]), V, g[..], Marked(visited[..]), used[..], bigG)
  {
    hide CritOk, Fits, MarksNumbers, HasSeenNeighbor, Stuck, AllHit, LeastLabel, VisitOne, Largest, Maxima, Marked,
      Graph.Valid;
    G.Sizes();
    MaximaPositive(G.nedges, biggest, biggestEdge);
    ghost var E, n, m, K, S, g0, used0, b0 :=
      G.E, G.nnodes, G.nedges, Marked(G.criticalNodes[..]), Marked(visited[..]), g[..], used[..], visited[..];
    CritBounds(E, n, m, K, V, g0, S, used0, biggest, G.criticalNodes[..], u);
    var nextG: uint32;
    bigEdge := biggestEdge;
    restart, nextG, bigG := FindLabel(G, g, visited, used, u, biggest);
    MarkedBit(b0, u);
    MarkedBit(G.criticalNodes[..], u);
    VisitStuck(E, Labelling(g0, b0, used0, biggest), u);
    if restart {
      return;
    }
    bigEdge := MarkUsed(G, g, visited, used, u, nextG, biggestEdge);
    VisitIs(E, Labelling(g0, b0, used0, biggest), u, nextG, used[..]);
    MaximaNext(m, biggest, biggestEdge, nextG, bigEdge);
    CritStep(E, n, m, K, V, g0, S, used0, biggest, u, nextG, used[..]);
    g[u] := nextG;
    visited[u] := true;
    MarkedSet(b0, visited[..], u);
  }

  lemma VisitStuck(E: seq<Edge>, s: Labelling, u: nat)
    requires |s.used| < TWO32 && u < |s.g| == |s.visited|
    ensures LeastLabel(E, s, u, s.bigG + 1) == None ==> VisitOne(E, s, u) == None
  {
    hide LeastLabel;
  }

  lemma VisitIs(E: seq<Edge>, s: Labelling, u: nat, y: uint32, used: seq<bool>)
    requires |s.used| < TWO32 && u < |s.g| == |s.visited| && LeastLabel(E, s, u, s.bigG + 1) == Some(y)
    requires MarksNumbers(E, s.g, Marked(s.visited), u, y, s.used, used)
    ensures VisitOne(E, s, u) == Some(Labelling(s.g[u := y], s.visited[u := true], used, y))
  {
    hide LeastLabel, MarksNumbers, UsedAfter;
    UsedAfterIs(E, s, u, y, used);
  }

  lemma MaximaNext(m: nat, bigG: nat, bigEdge: nat, nextG: nat, bigEdge': nat)
    requires Maxima(m, bigG, bigEdge) && bigG < nextG <= m
    requires bigEdge <= bigEdge' && (bigEdge' == bigEdge || bigEdge' <= 2 * nextG)
    ensures Maxima(m, nextG, bigEdge')
  {
  }

  lemma CritBounds(E: seq<Edge>, n: nat, m: nat, K: set<nat>, V: set<nat>, g: seq<uint32>, S: set<nat>, used: seq<bool>,
                   bigG: nat, critical: seq<bool>, u: nat)
    requires CritOk(E, n, m, K, V, g, S, used, bigG) && K == Marked(critical) && |critical| == n
    ensures forall x :: x in S ==> x < n && critical[x] && g[x] <= bigG
    ensures u < n && critical[u] ==> u in K
    ensures |S| <= |K|
  {
    SubsetSize(S, K);
  }

  lemma SeenNeighbor(E: seq<Edge>, S: set<nat>, u: nat, e: nat)
    requires e < |E| && Touches(E[e], u) && Opposite(E[e], u) in S
    ensures HasSeenNeighbor(E, S, u)
  {
  }

  lemma MaximaPositive(m: nat, bigG: nat, bigEdge: nat)
    requires Maxima(m, bigG, bigEdge)
    ensures bigG <= m && 1 <= bigEdge
  {
  }

  lemma StartExplore(E: seq<Edge>, n: nat, m: nat, K: set<nat>, V: set<nat>, g: seq<uint32>, S: set<nat>,
                     used: seq<bool>, bigG: nat, q: seq<uint32>, v: uint32)
    requires CritOk(E, n, m, K, V, g, S, used, bigG) && Frontier(E, K, V, S, q, v)
    ensures v < n && v in S
    ensures forall l :: CritDone(E, m, K, v, l, 0, S)
  {
  }

  /** Visits the critical vertex u and appends it to the queue, while the neighbors of cur are explored. */
  method VisitAndEnqueue(G: Graph, g: array<uint32>, visited: array<bool>, used: array<bool>, u: uint32,
                         biggest: uint32, biggestEdge: uint32, ghost V: set<nat>, q: VQueue, ghost cur: nat)
    returns (restart: bool, bigG: uint32, bigEdge: uint32)
    requires Arrays(G, g, visited, used) && G.ncriticalNodes == |Marked(G.criticalNodes[..])|
    requires u < G.nnodes && G.criticalNodes[u] && !visited[u]
    requires CritOk(G.E, G.nnodes, G.nedges, Marked(G.criticalNodes[..]), V,
                    g[..], Marked(visited[..]), used[..], biggest)
    requires Maxima(G.nedges, biggest, biggestEdge) && HasSeenNeighbor(G.E, Marked(visited[..]), u)
    requires q.Valid() && q.capacity == G.ncriticalNodes + 2 && |q.contents| <= |Marked(visited[..])|
    requires q.values != g && q.values != G.edges && q.values != G.first && q.values != G.next
    requires Frontier(G.E, Marked(G.criticalNodes[..]), V, Marked(visited[..]), q.contents, cur)
    requires biggestEdge == Largest(used[..])
    modifies g, visited, used, q, q.values
    ensures VisitOne(G.E, Labelling(old(g[..]), old(visited[..]), old(used[..]), biggest), u)
      == if restart then None else Some(Labelling(g[..], visited[..], used[..], bigG))
    ensures !restart ==> bigEdge == Largest(used[..])
    ensures q.Valid() && (!restart ==> q.contents == old(q.contents) + [u])
    ensures !restart ==> Maxima(G.nedges, bigG, bigEdge) && visited[..] == old(visited[..])[u := true]
    ensures !restart ==>
      CritOk(G.E, G.nnodes, G.nedges, Marked(G.criticalNodes[..]), V, g[..], Marked(visited[..]), used[..], bigG)
    ensures !restart ==> Frontier(G.E, Marked(G.criticalNodes[..]), V, Marked(visited[..]), q.contents, cur)
  {
    hide CritOk, Frontier, HasSeenNeighbor, Maxima, Marked, Graph.Valid, VQueue.Valid, VisitOne, Largest;
    ghost var E, n, m, K, S, b0, q0 :=
      G.E, G.nnodes, G.nedges, Marked(G.criticalNodes[..]), Marked(visited[..]), visited[..], q.contents;
    restart, bigG, bigEdge := VisitCritical(G, g, visited, used, u, biggest, biggestEdge, V);
    if restart {
      return;
    }
    MarkedBit(b0, u);
    MarkedSet(b0, visited[..], u);
    CritBounds(E, n, m, K, V, g[..], Marked(visited[..]), used[..], bigG, G.criticalNodes[..], u);
    q.Insert(u);
    FrontierGrow(E, K, V, S, q0, cur, u);
  }

  /** One neighbor of cur: when it is critical and not visited yet it is visited and goes on the queue. */
  method Meet(G: Graph, g: array<uint32>, visited: array<bool>, used: array<bool>, u: uint32, biggest: uint32,
              biggestEdge: uint32, ghost V: set<nat>, q: VQueue, ghost cur: nat)
    returns (restart: bool, bigG: uint32, bigEdge: uint32)
    requires Arrays(G, g, visited, used) && G.ncriticalNodes == |Marked(G.criticalNodes[..])| && u < G.nnodes
    requires CritOk(G.E, G.nnodes, G.nedges, Marked(G.criticalNodes[..]), V,
                    g[..], Marked(visited[..]), used[..], biggest)
    requires Maxima(G.nedges, biggest, biggestEdge) && HasSeenNeighbor(G.E, Marked(visited[..]), u)
    requires q.Valid() && q.capacity == G.ncriticalNodes + 2 && |q.contents| <= |Marked(visited[..])|
    requires q.values != g && q.values != G.edges && q.values != G.first && q.values != G.next
    requires Frontier(G.E, Marked(G.criticalNodes[..]), V, Marked(visited[..]), q.contents, cur)
    requires biggestEdge == Largest(used[..])
    modifies g, visited, used, q, q.values
    ensures ExploreOne(G.E, Marked(G.criticalNodes[..]), u,
                       Labelling(old(g[..]), old(visited[..]), old(used[..]), biggest), old(q.contents))
      == if restart then None else Some((Labelling(g[..], visited[..], used[..], bigG), q.contents))
    ensures q.Valid()
    ensures !restart ==> Maxima(G.nedges, bigG, bigEdge) && bigEdge == Largest(used[..])
    ensures !restart ==>
      CritOk(G.E, G.nnodes, G.nedges, Marked(G.criticalNodes[..]), V, g[..], Marked(visited[..]), used[..], bigG)
    ensures !restart ==> Frontier(G.E, Marked(G.criticalNodes[..]), V, Marked(visited[..]), q.contents, cur)
    ensures !restart ==> old(Marked(visited[..])) <= Marked(visited[..])
    ensures !restart ==> u in Marked(G.criticalNodes[..]) ==> u in Marked(visited[..])
    ensures !restart ==>
      |q.contents| - old(|q.contents|) == |Marked(visited[..])| - old(|Marked(visited[..])|)
  {
    hide CritOk, Frontier, HasSeenNeighbor, Maxima, Marked, Graph.Valid, VQueue.Valid, VisitOne, Largest;
    ghost var b0 := visited[..];
    MarkedBit(b0, u);
    MarkedBit(G.criticalNodes[..], u);
    restart, bigG, bigEdge := false, biggest, biggestEdge;
    if G.criticalNodes[u] && !visited[u] {
      restart, bigG, bigEdge := VisitAndEnqueue(G, g, visited, used, u, biggest, biggestEdge, V, q, cur);
      if !restart {
        MarkedSet(b0, visited[..], u);
      }
    }
  }

  /** The loop over the neighbors of v: visits and enqueues the critical ones not visited yet. */
  method ExploreCritical(G: Graph, g: array<uint32>, visited: array<bool>, used: array<bool>, v: uint32,
                         biggest: uint32, biggestEdge: uint32, ghost V: set<nat>, q: VQueue)
    returns (restart: bool, bigG: uint32, bigEdge: uint32)
    requires Arrays(G, g, visited, used) && G.ncriticalNodes == |Marked(G.criticalNodes[..])|
    requires CritOk(G.E, G.nnodes, G.nedges, Marked(G.criticalNodes[..]), V,
                    g[..], Marked(visited[..]), used[..], biggest)
    requires Maxima(G.nedges, biggest, biggestEdge)
    requires q.Valid() && q.capacity == G.ncriticalNodes + 2 && |q.contents| <= |Marked(visited[..])|
    requires q.values != g && q.values != G.edges && q.values != G.first && q.values != G.next
    requires Frontier(G.E, Marked(G.criticalNodes[..]), V, Marked(visited[..]), q.contents, v)
    requires biggestEdge == Largest(used[..])
    modifies g, visited, used, q, q.values
    ensures Explore(G.E, Marked(G.criticalNodes[..]), v, 0,
                    Labelling(old(g[..]), old(visited[..]), old(used[..]), biggest), old(q.contents))
      == if restart then None else Some((Labelling(g[..], visited[..], used[..], bigG), q.contents))
    ensures !restart ==> bigEdge == Largest(used[..])
    ensures q.Valid()
    ensures !restart ==> Maxima(G.nedges, bigG, bigEdge)
    ensures !restart ==>
      CritOk(G.E, G.nnodes, G.nedges, Marked(G.criticalNodes[..]), V, g[..], Marked(visited[..]), used[..], bigG)
    ensures !restart ==> Frontier(G.E, Marked(G.criticalNodes[..]), V, Marked(visited[..]), q.contents, -1)
    ensures !restart ==> old(Marked(visited[..])) <= Marked(visited[..])
    ensures !restart ==>
      |q.contents| - old(|q.contents|) == |Marked(visited[..])| - old(|Marked(visited[..])|)
    ensures !restart ==> |Marked(visited[..])| <= |Marked(G.criticalNodes[..])|
  {
    hide CritOk, Frontier, HasSeenNeighbor, CritDone, CritExhausted, Maxima, Marked, Incident, Leads, Graph.Valid,
      VQueue.Valid, Explore, ExploreOne, Largest;
    ghost var E, n, m, K := G.E, G.nnodes, G.nedges, Marked(G.criticalNodes[..]);
    ghost var S0, c0 := Marked(visited[..]), |q.contents|;
    StartExplore(E, n, m, K, V, g[..], S0, used[..], biggest, q.contents, v);
    G.ListFacts(v);
    ghost var l := G.lists[v];
    restart, bigG, bigEdge := false, biggest, biggestEdge;
    ghost var r := Explore(E, K, v, 0, Labelling(g[..], visited[..], used[..], biggest), q.contents);
    var it := Iterator(v, G.first[v]);
    ghost var k := 0;
    while true
      invariant r == Explore(E, K, v, k, Labelling(g[..], visited[..], used[..], bigG), q.contents)
      invariant bigEdge == Largest(used[..])
      invariant q.Valid() && it.vertex == v && k <= |l| && it.edge == Item(l, k)
      invariant CritOk(E, n, m, K, V, g[..], Marked(visited[..]), used[..], bigG) && Maxima(m, bigG, bigEdge)
      invariant S0 <= Marked(visited[..]) && |q.contents| - c0 == |Marked(visited[..])| - |S0|
      invariant Frontier(E, K, V, Marked(visited[..]), q.contents, v)
      invariant CritDone(E, m, K, v, l, k, Marked(visited[..]))
      decreases |l| - k
    {
      ghost var S := Marked(visited[..]);
      ghost var s := Labelling(g[..], visited[..], used[..], bigG);
      if k < |l| {
        ListEntry(E, m, v, l, k);
      }
      var u: uint32;
      u, it := G.NextNeighbor(it, k);
      if u == NO_NEIGHBOR {
        break;
      }
      ExploreNext(E, m, K, v, l, k, u, s, q.contents);
      SeenNeighbor(E, S, u, AbsEdge(l[k], m));
      restart, bigG, bigEdge := Meet(G, g, visited, used, u, bigG, bigEdge, V, q, v);
      if restart {
        return;
      }
      CritDoneNext(E, m, K, v, l, k, S, Marked(visited[..]));
      k := k + 1;
    }
    ExploreEnd(E, m, K, v, l, Labelling(g[..], visited[..], used[..], bigG), q.contents);
    ExploreDone(E, n, m, K, V, g[..], Marked(visited[..]), used[..], bigG, q.contents, v, l, G.criticalNodes[..]);
  }

  lemma ExploreDone(E: seq<Edge>, n: nat, m: nat, K: set<nat>, V: set<nat>, g: seq<uint32>, S: set<nat>,
                    used: seq<bool>, bigG: nat, q: seq<uint32>, v: uint32, l: seq<nat>, critical: seq<bool>)
    requires CritOk(E, n, m, K, V, g, S, used, bigG) && K == Marked(critical) && |critical| == n
    requires Frontier(E, K, V, S, q, v) && |E| <= m && Incident(E, m, v, l) && CritDone(E, m, K, v, l, |l|, S)
    ensures Frontier(E, K, V, S, q, -1) && |S| <= |K|
  {
    hide CritOk, Frontier, CritDone, CritExhausted, Incident, Marked;
    CritDoneAll(E, m, K, v, l, S);
    FrontierDone(E, K, V, S, q, v);
    CritBounds(E, n, m, K, V, g, S, used, bigG, critical, v);
  }

  lemma ExploreEnd(E: seq<Edge>, m: nat, K: set<nat>, v: nat, l: seq<nat>, s: Labelling, q: seq<nat>)
    requires s.Ok(|s.g|, |s.used|) && Leads(E, m, v, l)
    ensures Explore(E, K, v, |l|, s, q) == Some((s, q))
  {
  }

  /** One neighbor, as the list of v gives it. */
  lemma ExploreNext(E: seq<Edge>, m: nat, K: set<nat>, v: nat, l: seq<nat>, k: nat, u: nat, s: Labelling, q: seq<nat>)
    requires s.Ok(|s.g|, |s.used|) && |E| <= m && Incident(E, m, v, l) && Leads(E, m, v, l) && k < |l|
    requires l[k] < 2 * m && AbsEdge(l[k], m) < |E| ==> u == Opposite(E[AbsEdge(l[k], m)], v)
    ensures Explore(E, K, v, k, s, q) ==
      var t := ExploreOne(E, K, u, s, q);
      if t.None? then None else Explore(E, K, v, k + 1, t.value.0, t.value.1)
  {
    hide ExploreOne, Incident;
    NeighborAt(E, m, v, l, k);
  }

  /** The breadth-first loop. */
  method BreadthFirst(G: Graph, g: array<uint32>, visited: array<bool>, used: array<bool>,
                      biggest: uint32, biggestEdge: uint32, ghost V: set<nat>, q: VQueue)
    returns (restart: bool, bigG: uint32, bigEdge: uint32)
    requires Arrays(G, g, visited, used) && G.ncriticalNodes == |Marked(G.criticalNodes[..])|
    requires CritOk(G.E, G.nnodes, G.nedges, Marked(G.criticalNodes[..]), V,
                    g[..], Marked(visited[..]), used[..], biggest)
    requires Maxima(G.nedges, biggest, biggestEdge)
    requires q.Valid() && q.capacity == G.ncriticalNodes + 2
    requires |q.contents| <= |Marked(visited[..])| <= |Marked(G.criticalNodes[..])|
    requires q.values != g && q.values != G.edges && q.values != G.first && q.values != G.next
    requires Frontier(G.E, Marked(G.criticalNodes[..]), V, Marked(visited[..]), q.contents, -1)
    requires biggestEdge == Largest(used[..])
    modifies g, visited, used, q, q.values
    ensures Search(G.E, Marked(G.criticalNodes[..]), Labelling(old(g[..]), old(visited[..]), old(used[..]), biggest),
                   old(q.contents))
      == if restart then None else Some(Labelling(g[..], visited[..], used[..], bigG))
    ensures !restart ==> bigEdge == Largest(used[..])
    ensures !restart ==> Maxima(G.nedges, bigG, bigEdge)
    ensures !restart ==>
      CritOk(G.E, G.nnodes, G.nedges, Marked(G.criticalNodes[..]), Marked(visited[..]),
             g[..], Marked(visited[..]), used[..], bigG)
    ensures !restart ==> old(Marked(visited[..])) <= Marked(visited[..])
  {
    hide CritOk, Frontier, Maxima, Marked, Graph.Valid, VQueue.Valid, Search, Explore, Largest;
    ghost var E, n, m, K, S0 := G.E, G.nnodes, G.nedges, Marked(G.criticalNodes[..]), Marked(visited[..]);
    restart, bigG, bigEdge := false, biggest, biggestEdge;
    ghost var S := S0;
    ghost var r := Search(E, K, Labelling(g[..], visited[..], used[..], biggest), q.contents);
    while true
      invariant q.Valid() && bigEdge == Largest(used[..])
      invariant r == Search(E, K, Labelling(g[..], visited[..], used[..], bigG), q.contents)
      invariant S == Marked(visited[..]) && S0 <= S && |q.contents| <= |S| <= |K|
      invariant CritOk(E, n, m, K, V, g[..], S, used[..], bigG) && Maxima(m, bigG, bigEdge)
      invariant Frontier(E, K, V, S, q.contents, -1)
      decreases |K| - |S|, |q.contents|
    {
      SearchNext(E, K, Labelling(g[..], visited[..], used[..], bigG), q.contents);
      var empty := q.IsEmpty();
      if empty {
        break;
      }
      ghost var q0 := q.contents;
      var v: uint32 := q.Remove();
      FrontierPop(E, K, V, S, q0, v, q.contents);
      assert q0[0] == v && q0[1..] == q.contents;
      restart, bigG, bigEdge := ExploreCritical(G, g, visited, used, v, bigG, bigEdge, V, q);
      if restart {
        return;
      }
      SubsetSize(S, Marked(visited[..]));
      S := Marked(visited[..]);
    }
    NextSearch(E, n, m, K, V, g[..], S, used[..], bigG);
  }

  lemma SearchNext(E: seq<Edge>, K: set<nat>, s: Labelling, q: seq<nat>)
    requires s.Ok(|s.g|, |s.used|)
    ensures Search(E, K, s, q) ==
      if q == [] then Some(s) else
        var t := Explore(E, K, q[0], 0, s, q[1..]);
        if t.None? then None else Search(E, K, t.value.0, t.value.1)
  {
    hide Explore;
  }

  lemma PartIs(E: seq<Edge>, K: set<nat>, s: Labelling, v: nat, s1: Labelling)
    requires s.Ok(|s.g|, |s.used|) && v < |s.g| && s1.Ok(|s.g|, |s.used|)
    requires s1.g == s.g[v := (Largest(s.used) + 1) / 2 - 1] && s1.visited == s.visited[v := true]
    requires s1.used == s.used && s1.bigG == s.bigG
    ensures Part(E, K, s, v) == Search(E, K, s1, [v])
  {
    hide Search, Largest;
    assert s1 == Started(s, v);
  }

  /** The head of bmz_traverse_critical_nodes: start gets a label and goes on a new queue. */
  method StartPart(g: array<uint32>, visited: array<bool>, start: uint32, ncritical: uint32, biggestEdge: uint32)
    returns (q: VQueue)
    requires start < g.Length == visited.Length && 1 <= biggestEdge
    modifies g, visited
    ensures g[..] == old(g[..])[start := (biggestEdge + 1) / 2 - 1] && visited[..] == old(visited[..])[start := true]
    ensures fresh(q) && fresh(q.values) && q.Valid() && q.capacity == ncritical + 2 && q.contents == [start]
  {
    q := new VQueue(ncritical + 1);
    g[start] := (biggestEdge + 1) / 2 - 1;
    visited[start] := true;
    q.Insert(start);
    assert q.contents == [start];
  }

  /** bmz_traverse_critical_nodes: labels the connected part of the core that start lies in. */
  method TraverseCritical(G: Graph, g: array<uint32>, visited: array<bool>, used: array<bool>, start: uint32,
                          biggest: uint32, biggestEdge: uint32)
    returns (restart: bool, bigG: uint32, bigEdge: uint32)
    requires Arrays(G, g, visited, used) && start < G.nnodes < EMPTY && G.criticalNodes[start] && !visited[start]
    requires G.ncriticalNodes == |Marked(G.criticalNodes[..])|
    requires CritOk(G.E, G.nnodes, G.nedges, Marked(G.criticalNodes[..]), Marked(visited[..]),
                    g[..], Marked(visited[..]), used[..], biggest)
    requires Maxima(G.nedges, biggest, biggestEdge) && biggestEdge == Largest(used[..])
    modifies g, visited, used
    ensures Part(G.E, Marked(G.criticalNodes[..]), Labelling(old(g[..]), old(visited[..]), old(used[..]), biggest),
                 start)
      == if restart then None else Some(Labelling(g[..], visited[..], used[..], bigG))
    ensures !restart ==> bigEdge == Largest(used[..])
    ensures !restart ==> Maxima(G.nedges, bigG, bigEdge)
    ensures !restart ==>
      CritOk(G.E, G.nnodes, G.nedges, Marked(G.criticalNodes[..]), Marked(visited[..]),
             g[..], Marked(visited[..]), used[..], bigG)
    ensures !restart ==> old(Marked(visited[..])) + {start} <= Marked(visited[..])
  {
    hide CritOk, Frontier, Maxima, Marked, Graph.Valid, VQueue.Valid, Search, Largest, Part, Started;
    ghost var K, V := Marked(G.criticalNodes[..]), Marked(visited[..]);
    ghost var g0, b0, used0 := g[..], visited[..], used[..];
    MarkedBit(b0, start);
    MarkedBit(G.criticalNodes[..], start);
    MaximaPositive(G.nedges, biggest, biggestEdge);
    var q := StartPart(g, visited, start, G.ncriticalNodes, biggestEdge);
    MarkedSet(b0, visited[..], start);
    StartSearch(G.E, G.nnodes, G.nedges, K, V, g0, used0, biggest, biggestEdge, start, g[start]);
    CritBounds(G.E, G.nnodes, G.nedges, K, V, g[..], V + {start}, used0, biggest, G.criticalNodes[..], start);
    PartIs(G.E, K, Labelling(g0, b0, used0, biggest), start, Labelling(g[..], visited[..], used[..], biggest));
    restart, bigG, bigEdge := BreadthFirst(G, g, visited, used, biggest, biggestEdge, V, q);
  }
}
