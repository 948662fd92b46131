/**
 Finite multigraphs given by a sequence of edges; an edge is named by its index.
 The 2-core is the largest edge set in which no vertex is the end of a single edge.
 */
module Multigraph {
  import opened Counting

  datatype Edge = Edge(src: nat, dst: nat)

  predicate IsLoop(e: Edge) {
    e.src == e.dst
  }

  predicate Touches(e: Edge, v: nat) {
    e.src == v || e.dst == v
  }

  /** The other end of e, seen from v. */
  function Opposite(e: Edge, v: nat): nat {
    if e.src == v then e.dst else e.src
  }

  ghost predicate NoLoops(E: seq<Edge>) {
    forall e :: 0 <= e < |E| ==> !IsLoop(E[e])
  }

  ghost predicate Inside(e: Edge, W: set<nat>) {
    e.src in W && e.dst in W
  }

  /** Every edge at v stays inside S. */
  ghost predicate Exhausted(E: seq<Edge>, v: nat, S: set<nat>) {
    forall e :: 0 <= e < |E| && Touches(E[e], v) ==> Inside(E[e], S)
  }

  ghost predicate InGraph(E: seq<Edge>, n: nat) {
    forall e :: 0 <= e < |E| ==> E[e].src < n && E[e].dst < n
  }

  ghost predicate EdgeSet(E: seq<Edge>, S: set<nat>) {
    forall e :: e in S ==> e < |E|
  }

  /** v has exactly one edge end in S, and it belongs to f. */
  ghost predicate Pendant(E: seq<Edge>, S: set<nat>, v: nat, f: nat)
    requires EdgeSet(E, S)
  {
    && f in S && Touches(E[f], v) && !IsLoop(E[f])
    && forall e :: e in S && Touches(E[e], v) ==> e == f
  }

  ghost predicate NoPendantAt(E: seq<Edge>, S: set<nat>, v: nat)
    requires EdgeSet(E, S)
  {
    forall f :: f in S ==> !Pendant(E, S, v, f)
  }

  /** Every vertex touched by S has degree at least two in S. */
  ghost predicate MinDegreeTwo(E: seq<Edge>, S: set<nat>) {
    EdgeSet(E, S) && forall v :: NoPendantAt(E, S, v)
  }

  /** S is the 2-core: it has minimum degree two and contains every edge set that has. */
  ghost predicate IsCore(E: seq<Edge>, S: set<nat>) {
    MinDegreeTwo(E, S) && forall C :: MinDegreeTwo(E, C) ==> C <= S
  }

  /** No cycle: only the empty edge set has minimum degree two. */
  ghost predicate Forest(E: seq<Edge>) {
    forall C :: MinDegreeTwo(E, C) ==> C == {}
  }

  /** v is an end of one of the edges of S numbered below i. */
  ghost predicate TouchedBelow(E: seq<Edge>, S: set<nat>, i: nat, v: nat) {
    exists e :: e in S && e < i && e < |E| && Touches(E[e], v)
  }

  lemma TouchedBelowNext(E: seq<Edge>, S: set<nat>, i: nat, v: nat)
    requires i < |E|
    ensures TouchedBelow(E, S, i + 1, v) <==> TouchedBelow(E, S, i, v) || (i in S && Touches(E[i], v))
  {
    if i in S && Touches(E[i], v) {
      assert i < i + 1;
    }
  }

  ghost predicate CoresKept(E: seq<Edge>, S: set<nat>, T: set<nat>) {
    forall C :: MinDegreeTwo(E, C) && C <= S ==> C <= T
  }

  /** Deleting the only edge at a vertex loses no edge of the 2-core. */
  lemma DeletePendant(E: seq<Edge>, S: set<nat>, v: nat, f: nat)
    requires EdgeSet(E, S) && Pendant(E, S, v, f)
    ensures CoresKept(E, S, S - {f})
  {
    forall C | MinDegreeTwo(E, C) && C <= S
      ensures C <= S - {f}
    {
      assert NoPendantAt(E, C, v);
      assert f in C ==> Pendant(E, C, v, f);
    }
  }

  lemma CoresKeptTransitive(E: seq<Edge>, S: set<nat>, T: set<nat>, U: set<nat>)
    requires CoresKept(E, S, T) && CoresKept(E, T, U)
    ensures CoresKept(E, S, U)
  {
  }

  /** Deleting the only edge f = {v, w} at v can make no vertex but w pendant. */
  lemma DeletePendantElsewhere(E: seq<Edge>, S: set<nat>, v: nat, f: nat, u: nat)
    requires EdgeSet(E, S) && Pendant(E, S, v, f)
    requires u != Opposite(E[f], v) && (u == v || NoPendantAt(E, S, u))
    ensures NoPendantAt(E, S - {f}, u)
  {
    forall e | e in S - {f}
      ensures !Pendant(E, S - {f}, u, e)
    {
      assert u != v ==> !Pendant(E, S, u, e);
    }
  }

  lemma PeeledIsCore(E: seq<Edge>, n: nat, S: set<nat>)
    requires InGraph(E, n) && EdgeSet(E, S)
    requires forall v :: 0 <= v < n ==> NoPendantAt(E, S, v)
    requires CoresKept(E, Below(|E|), S)
    ensures IsCore(E, S)
  {
    forall C | MinDegreeTwo(E, C)
      ensures C <= S
    {
      assert C <= Below(|E|);
    }
  }

  // ---- cycles -----------------------------------------------------------------------------

  ghost predicate Joins(e: Edge, u: nat, v: nat) {
    (e.src == u && e.dst == v) || (e.src == v && e.dst == u)
  }

  /** The distinct edges es join vs[0], vs[1], ..., and lead back to vs[0]. */
  ghost predicate Cycle(E: seq<Edge>, vs: seq<nat>, es: seq<nat>) {
    && 0 < |vs| == |es|
    && (forall i :: 0 <= i < |es| ==> es[i] < |E|)
    && Distinct(es)
    && (forall i :: 0 <= i < |es| ==> Joins(E[es[i]], vs[i], vs[if i + 1 < |es| then i + 1 else 0]))
  }

  ghost predicate HasCycle(E: seq<Edge>) {
    exists vs: seq<nat>, es: seq<nat> :: Cycle(E, vs, es)
  }

  lemma CycleIsMinDegreeTwo(E: seq<Edge>, vs: seq<nat>, es: seq<nat>)
    requires Cycle(E, vs, es)
    ensures MinDegreeTwo(E, set e | e in es)
  {
    var S := set e | e in es;
    forall v, f | f in S
      ensures !Pendant(E, S, v, f)
    {
      var i :| 0 <= i < |es| && es[i] == f;
      var k := |es|;
      var next := if i + 1 < k then i + 1 else 0;
      var prev := if i > 0 then i - 1 else k - 1;
      assert Joins(E[es[i]], vs[i], vs[next]);
      assert Joins(E[es[prev]], vs[prev], vs[i]);
      assert Joins(E[es[next]], vs[next], vs[if next + 1 < k then next + 1 else 0]);
      assert es[prev] in S && es[next] in S;
    }
  }

  /** A path with distinct vertices in S, ending in vs[|vs| - 1]. */
  ghost predicate Path(E: seq<Edge>, S: set<nat>, vs: seq<nat>, es: seq<nat>) {
    && |vs| == |es| + 1
    && (forall i :: 0 <= i < |es| ==> es[i] in S && es[i] < |E|)
    && Distinct(vs)
    && (forall i :: 0 <= i < |es| ==> Joins(E[es[i]], vs[i], vs[i + 1]))
  }

  /** A path whose last vertex has another edge f back to vs[j] closes a cycle. */
  lemma CloseCycle(E: seq<Edge>, S: set<nat>, vs: seq<nat>, es: seq<nat>, f: nat, j: nat)
    requires Path(E, S, vs, es) && 0 < |es| && j < |vs| && f < |E|
    requires Joins(E[f], vs[|es|], vs[j]) && f != es[|es| - 1]
    ensures HasCycle(E)
  {
    var k := |es|;
    forall i | 0 <= i < k
      ensures es[i] != f
    {
      assert Joins(E[es[i]], vs[i], vs[i + 1]);
    }
    forall a, b | 0 <= a < b < k
      ensures es[a] != es[b]
    {
      assert Joins(E[es[a]], vs[a], vs[a + 1]) && Joins(E[es[b]], vs[b], vs[b + 1]);
    }
    var cv, ce := vs[j..], es[j..] + [f];
    forall i | 0 <= i < |ce|
      ensures Joins(E[ce[i]], cv[i], cv[if i + 1 < |ce| then i + 1 else 0])
    {
      if i < |ce| - 1 {
        assert Joins(E[es[j + i]], vs[j + i], vs[j + i + 1]);
      }
    }
    assert Cycle(E, cv, ce);
  }

  lemma PathInGraph(E: seq<Edge>, n: nat, S: set<nat>, vs: seq<nat>, es: seq<nat>)
    requires InGraph(E, n) && Path(E, S, vs, es) && 0 < |es|
    ensures Bounded(vs, n)
  {
    forall i | 0 <= i < |vs|
      ensures vs[i] < n
    {
      if i < |es| {
        assert Joins(E[es[i]], vs[i], vs[i + 1]);
      } else {
        assert Joins(E[es[i - 1]], vs[i - 1], vs[i]);
      }
    }
  }

  /** Extend a path at its end until it closes on itself. */
  lemma ExtendToCycle(E: seq<Edge>, n: nat, S: set<nat>, vs: seq<nat>, es: seq<nat>)
    requires InGraph(E, n) && MinDegreeTwo(E, S) && Path(E, S, vs, es)
    requires 0 < |es|
    ensures HasCycle(E)
    decreases n - |vs|
  {
    var k := |es|;
    assert Joins(E[es[k - 1]], vs[k - 1], vs[k]);
    assert NoPendantAt(E, S, vs[k]);
    assert !Pendant(E, S, vs[k], es[k - 1]);
    var f :| f in S && Touches(E[f], vs[k]) && f != es[k - 1];
    var w := Opposite(E[f], vs[k]);
    if j :| 0 <= j <= k && vs[j] == w {
      CloseCycle(E, S, vs, es, f, j);
    } else {
      var vs', es' := vs + [w], es + [f];
      forall i | 0 <= i < |es'|
        ensures Joins(E[es'[i]], vs'[i], vs'[i + 1])
      {
        if i < k {
          assert Joins(E[es[i]], vs[i], vs[i + 1]);
        }
      }
      assert Path(E, S, vs', es');
      PathInGraph(E, n, S, vs', es');
      DistinctBounded(vs', n);
      ExtendToCycle(E, n, S, vs', es');
    }
  }

  lemma LoopIsCycle(E: seq<Edge>, e: nat)
    requires e < |E| && IsLoop(E[e])
    ensures HasCycle(E)
  {
    assert Cycle(E, [E[e].src], [e]);
  }

  /** At most two edges, none of them a loop, have a cycle exactly if they join the same two vertices. */
  lemma FewEdges(E: seq<Edge>)
    requires |E| <= 2 && NoLoops(E)
    ensures HasCycle(E) <==> |E| == 2 && Joins(E[1], E[0].src, E[0].dst)
  {
    if |E| == 2 && Joins(E[1], E[0].src, E[0].dst) {
      assert Cycle(E, [E[0].src, E[0].dst], [0, 1]);
    }
    if vs: seq<nat>, es: seq<nat> :| Cycle(E, vs, es) {
      DistinctBounded(es, |E|);
      assert Joins(E[es[0]], vs[0], vs[if |es| == 1 then 0 else 1]);
      if |es| == 2 {
        assert es[0] != es[1] && Joins(E[es[1]], vs[1], vs[0]);
      }
    }
  }

  /** A graph has a cycle exactly when its 2-core is not empty. */
  lemma CyclicIffCore(E: seq<Edge>, n: nat, S: set<nat>)
    requires InGraph(E, n) && IsCore(E, S)
    ensures HasCycle(E) <==> S != {}
    ensures HasCycle(E) <==> !Forest(E)
  {
    if S == {} {
      assert forall C :: MinDegreeTwo(E, C) ==> C <= {};
    }
    if HasCycle(E) {
      var vs: seq<nat>, es: seq<nat> :| Cycle(E, vs, es);
      CycleIsMinDegreeTwo(E, vs, es);
      var C := set e | e in es;
      assert es[0] in C && C <= S;
    }
    if S != {} {
      var f :| f in S;
      if IsLoop(E[f]) {
        LoopIsCycle(E, f);
      } else {
        var vs, es := [E[f].src, E[f].dst], [f];
        assert Path(E, S, vs, es);
        ExtendToCycle(E, n, S, vs, es);
      }
    }
  }
}
