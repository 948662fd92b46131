/**
 The 3-uniform hypergraph of bdz.c: every edge has three vertices, and each vertex threads the
 list of its edges through the edges' next fields. Removing an edge unlinks it three times.
 */
module Hypergraph {
  import opened Words
  import opened Counting

  const NULL_EDGE: uint32 := 0xFFFF_FFFF

  datatype Triple = Triple(v0: uint32, v1: uint32, v2: uint32) {
    function Get(i: nat): uint32
      requires i < 3
    {
      if i == 0 then v0 else if i == 1 then v1 else v2
    }

    function Set(i: nat, x: uint32): Triple
      requires i < 3
    {
      if i == 0 then Triple(x, v1, v2) else if i == 1 then Triple(v0, x, v2) else Triple(v0, v1, x)
    }

    predicate Has(v: int) {
      v == v0 || v == v1 || v == v2
    }

    /** The position of v, as the list walk of bdz_remove_edge determines it. */
    function Pos(v: int): nat
      ensures Pos(v) < 3
    {
      if v0 == v then 0 else if v1 == v then 1 else 2
    }

    predicate Different() {
      v0 != v1 && v0 != v2 && v1 != v2
    }
  }

  ghost predicate InGraph(E: seq<Triple>, n: nat) {
    forall e :: 0 <= e < |E| ==> E[e].v0 < n && E[e].v1 < n && E[e].v2 < n && E[e].Different()
  }

  // ---- peeling --------------------------------------------------------------------------------

  /** v is a vertex of e that no other edge of S has. */
  ghost predicate Private(E: seq<Triple>, S: set<nat>, e: nat, v: nat) {
    && e in S && e < |E| && E[e].Has(v)
    && forall f :: f in S && f < |E| && E[f].Has(v) ==> f == e
  }

  ghost predicate HasPrivate(E: seq<Triple>, S: set<nat>, e: nat) {
    exists v: nat :: Private(E, S, e, v)
  }

  /** Every vertex touched by S has degree at least two in S. */
  ghost predicate MinDegreeTwo(E: seq<Triple>, S: set<nat>) {
    (forall e :: e in S ==> e < |E|) && forall e :: e in S ==> !HasPrivate(E, S, e)
  }

  /** No edge set but the empty one has minimum degree two. */
  ghost predicate Peelable(E: seq<Triple>) {
    forall C :: MinDegreeTwo(E, C) ==> C == {}
  }

  /** Each edge of the order has a vertex that no later edge has. */
  ghost predicate PeelOrder(E: seq<Triple>, q: seq<nat>) {
    && Distinct(q) && Bounded(q, |E|)
    && forall i :: 0 <= i < |q| ==> FreshVertex(E, q, i)
  }

  ghost predicate FreshVertex(E: seq<Triple>, q: seq<nat>, i: nat)
    requires i < |q| && Bounded(q, |E|)
  {
    exists v: nat :: E[q[i]].Has(v) && forall j :: i < j < |q| ==> !E[q[j]].Has(v)
  }

  /** Removing an edge with a private vertex takes nothing from a set of minimum degree two. */
  lemma RemovePrivate(E: seq<Triple>, S: set<nat>, e: nat, C: set<nat>)
    requires HasPrivate(E, S, e) && MinDegreeTwo(E, C) && C <= S
    ensures C <= S - {e}
  {
    var v: nat :| Private(E, S, e, v);
    assert e in C ==> Private(E, C, e, v);
  }

  /** A private vertex stays private while other edges are removed. */
  lemma StaysPrivate(E: seq<Triple>, S: set<nat>, T: set<nat>, e: nat)
    requires HasPrivate(E, S, e) && T <= S && e in T
    ensures HasPrivate(E, T, e)
  {
    var v: nat :| Private(E, S, e, v);
    assert Private(E, T, e, v);
  }

  // ---- the linked lists ---------------------------------------------------------------------------

  ghost function Item(l: seq<nat>, k: nat): int {
    if k < |l| then l[k] else NULL_EDGE
  }

  /** next is the array of the edges' next fields; following v's list visits exactly l. */
  ghost predicate Chain(E: seq<Triple>, next: seq<Triple>, head: uint32, v: nat, l: seq<nat>)
    requires |E| <= |next|
  {
    && head == Item(l, 0) && Distinct(l)
    && (forall k :: 0 <= k < |l| ==> l[k] < |E| && E[l[k]].Has(v))
    && (forall k {:trigger next[l[k]]} :: 0 <= k < |l| ==> next[l[k]].Get(E[l[k]].Pos(v)) == Item(l, k + 1))
  }

  ghost predicate Chains(E: seq<Triple>, next: seq<Triple>, first: seq<uint32>, lists: seq<seq<nat>>)
    requires |E| <= |next|
  {
    |first| == |lists| && forall v :: 0 <= v < |first| ==> Chain(E, next, first[v], v, lists[v])
  }

  /** l without its p-th element. */
  ghost function Without(l: seq<nat>, p: nat): seq<nat>
    requires p < |l|
  {
    l[..p] + l[p + 1..]
  }

  lemma WithoutDistinct(l: seq<nat>, p: nat)
    requires p < |l| && Distinct(l)
    ensures Distinct(Without(l, p))
  {
  }

  /** Unlinking the p-th edge of v's list, by its predecessor's next field or the list head. */
  lemma Unlink(E: seq<Triple>, next: seq<Triple>, head: uint32, v: nat, l: seq<nat>, p: nat,
               next': seq<Triple>, head': uint32)
    requires |E| <= |next| == |next'| && Chain(E, next, head, v, l) && p < |l|
    requires
      var after := next[l[p]].Get(E[l[p]].Pos(v));
      if p == 0 then next' == next && head' == after
      else head' == head && next' == next[l[p - 1] := next[l[p - 1]].Set(E[l[p - 1]].Pos(v), after)]
    ensures Chain(E, next', head', v, Without(l, p))
  {
    var l' := Without(l, p);
    WithoutDistinct(l, p);
    forall k | 0 <= k < |l'|
      ensures next'[l'[k]].Get(E[l'[k]].Pos(v)) == Item(l', k + 1)
    {
      var o := if k < p then k else k + 1;
      assert l'[k] == l[o] && next[l[o]].Get(E[l[o]].Pos(v)) == Item(l, o + 1);
      assert next[l[p]].Get(E[l[p]].Pos(v)) == Item(l, p + 1);
      if k + 1 == p {
        assert o == p - 1 && Item(l', k + 1) == Item(l, p + 1);
      } else {
        assert Item(l', k + 1) == Item(l, o + 1) && next'[l[o]] == next[l[o]];
      }
    }
  }

  /** The list of another vertex does not see a change of a next field that belongs to v. */
  lemma ChainElsewhere(E: seq<Triple>, next: seq<Triple>, head: uint32, u: nat, l: seq<nat>, v: nat, e: nat, x: uint32,
                       next': seq<Triple>)
    requires |E| <= |next| == |next'| && Chain(E, next, head, u, l) && u != v
    requires e < |E| && E[e].Has(v) && E[e].Different() && next' == next[e := next[e].Set(E[e].Pos(v), x)]
    ensures Chain(E, next', head, u, l)
  {
    forall k | 0 <= k < |l|
      ensures next'[l[k]].Get(E[l[k]].Pos(u)) == Item(l, k + 1)
    {
      assert next[l[k]].Get(E[l[k]].Pos(u)) == Item(l, k + 1);
    }
  }

  lemma UnlinkAll(E: seq<Triple>, n: nat, next: seq<Triple>, first: seq<uint32>, lists: seq<seq<nat>>, v: nat, p: nat,
                  next': seq<Triple>, first': seq<uint32>)
    requires |E| <= |next| == |next'| && InGraph(E, n) && Chains(E, next, first, lists)
    requires v < |first| == |first'| && p < |lists[v]|
    requires
      var l := lists[v];
      var after := next[l[p]].Get(E[l[p]].Pos(v));
      if p == 0 then next' == next && first' == first[v := after]
      else first' == first && next' == next[l[p - 1] := next[l[p - 1]].Set(E[l[p - 1]].Pos(v), after)]
    ensures Chains(E, next', first', lists[v := Without(lists[v], p)])
  {
    var l := lists[v];
    assert Chain(E, next, first[v], v, l);
    Unlink(E, next, first[v], v, l, p, next', first'[v]);
    forall u | 0 <= u < |first| && u != v
      ensures Chain(E, next', first'[u], u, lists[u])
    {
      assert Chain(E, next, first[u], u, lists[u]);
      if p > 0 {
        ChainElsewhere(E, next, first[u], u, lists[u], v, l[p - 1], next[l[p]].Get(E[l[p]].Pos(v)), next');
      }
    }
  }

  /** The list of v after edge number e = |E| with vertices t was added. */
  ghost function Pushed(l: seq<nat>, e: nat, t: Triple, v: nat): seq<nat> {
    if t.Has(v) then [e] + l else l
  }

  ghost function PushedLists(lists: seq<seq<nat>>, e: nat, t: Triple): seq<seq<nat>> {
    seq(|lists|, v requires 0 <= v < |lists| => Pushed(lists[v], e, t, v))
  }

  lemma PushChain(E: seq<Triple>, next: seq<Triple>, head: uint32, v: nat, l: seq<nat>, t: Triple, next': seq<Triple>)
    requires |E| < |next| == |next'| && |E| < NULL_EDGE && Chain(E, next, head, v, l)
    requires forall e :: 0 <= e < |E| ==> next'[e] == next[e]
    requires t.Has(v) ==> next'[|E|].Get(t.Pos(v)) == head
    ensures Chain(E + [t], next', if t.Has(v) then |E| else head, v, Pushed(l, |E|, t, v))
  {
    var l' := Pushed(l, |E|, t, v);
    forall k | 0 <= k < |l'|
      ensures next'[l'[k]].Get((E + [t])[l'[k]].Pos(v)) == Item(l', k + 1)
    {
      var o := if t.Has(v) then k - 1 else k;
      if o >= 0 {
        assert l'[k] == l[o] && next[l[o]].Get(E[l[o]].Pos(v)) == Item(l, o + 1);
      }
    }
  }

  lemma PushChains(E: seq<Triple>, next: seq<Triple>, first: seq<uint32>, lists: seq<seq<nat>>, t: Triple,
                   next': seq<Triple>, first': seq<uint32>)
    requires |E| < |next| == |next'| && |E| < NULL_EDGE && Chains(E, next, first, lists)
    requires t.Different() && t.v0 < |first| && t.v1 < |first| && t.v2 < |first|
    requires next' == next[|E| := Triple(first[t.v0], first[t.v1], first[t.v2])]
    requires first' == first[t.v0 := |E|][t.v1 := |E|][t.v2 := |E|]
    ensures Chains(E + [t], next', first', PushedLists(lists, |E|, t))
  {
    forall v | 0 <= v < |first|
      ensures Chain(E + [t], next', first'[v], v, PushedLists(lists, |E|, t)[v])
    {
      assert Chain(E, next, first[v], v, lists[v]);
      PushChain(E, next, first[v], v, lists[v], t, next');
    }
  }

  /** l holds exactly the live edges at v, and degree is its length, counted in a byte. */
  ghost predicate CountedAt(E: seq<Triple>, live: set<nat>, v: nat, l: seq<nat>, degree: uint8) {
    && degree == |l| % 256
    && forall e :: e in l <==> e in live && e < |E| && E[e].Has(v)
  }

  ghost predicate Counted(E: seq<Triple>, live: set<nat>, lists: seq<seq<nat>>, degree: seq<uint8>) {
    && |degree| == |lists| && (forall e :: e in live ==> e < |E|)
    && forall v :: 0 <= v < |lists| ==> CountedAt(E, live, v, lists[v], degree[v])
  }

  lemma PushInGraph(E: seq<Triple>, n: nat, t: Triple)
    requires InGraph(E, n) && t.v0 < n && t.v1 < n && t.v2 < n && t.Different()
    ensures InGraph(E + [t], n)
  {
  }

  lemma PushCounted(E: seq<Triple>, live: set<nat>, lists: seq<seq<nat>>, degree: seq<uint8>, t: Triple,
                    degree': seq<uint8>)
    requires Counted(E, live, lists, degree) && |degree'| == |degree|
    requires forall v :: 0 <= v < |degree| ==> degree'[v] == if t.Has(v) then Inc8(degree[v]) else degree[v]
    ensures Counted(E + [t], live + {|E|}, PushedLists(lists, |E|, t), degree')
  {
    forall v | 0 <= v < |lists|
      ensures CountedAt(E + [t], live + {|E|}, v, Pushed(lists[v], |E|, t, v), degree'[v])
    {
      assert CountedAt(E, live, v, lists[v], degree[v]);
      Step8(|lists[v]|);
    }
  }

  class Graph3 {
    const nvertices: uint32
    const vertices: array<Triple>
    const nextEdges: array<Triple>
    const firstEdge: array<uint32>
    const vertDegree: array<uint8>
    var nedges: uint32

    ghost var E: seq<Triple>
    ghost var lists: seq<seq<nat>>
    ghost var live: set<nat>

    ghost predicate Allocated()
      reads this
    {
      && vertices.Length == nextEdges.Length < NULL_EDGE
      && firstEdge.Length == vertDegree.Length == nvertices
      && vertices != nextEdges && nedges <= vertices.Length
    }

    ghost predicate Linked()
      reads this, vertices, nextEdges, firstEdge
    {
      && Allocated() && nedges == |E| && InGraph(E, nvertices) && vertices[..nedges] == E
      && Chains(E, nextEdges[..], firstEdge[..], lists)
    }

    ghost predicate Valid()
      reads this, vertices, nextEdges, firstEdge, vertDegree
    {
      Linked() && Counted(E, live, lists, vertDegree[..])
    }

    constructor (nedges: uint32, nvertices: uint32)
      requires nedges < NULL_EDGE
      ensures Valid() && E == [] && live == {} && vertices.Length == nedges && this.nvertices == nvertices
      ensures fresh(vertices) && fresh(nextEdges) && fresh(firstEdge) && fresh(vertDegree)
    {
      this.nvertices := nvertices;
      vertices := new Triple[nedges];
      nextEdges := new Triple[nedges];
      firstEdge := new uint32[nvertices];
      vertDegree := new uint8[nvertices];
      this.nedges := 0;
      new;
      Init();
    }

    method Init()
      requires Allocated()
      modifies this`nedges, this`E, this`lists, this`live, firstEdge, vertDegree
      ensures Valid() && E == [] && live == {}
    {
      for v := 0 to nvertices
        invariant forall u :: 0 <= u < v ==> firstEdge[u] == NULL_EDGE && vertDegree[u] == 0
      {
        firstEdge[v] := NULL_EDGE;
        vertDegree[v] := 0;
      }
      nedges := 0;
      E, lists, live := [], seq(nvertices, v => []), {};
    }

    method AddEdge(v0: uint32, v1: uint32, v2: uint32)
      requires Valid() && nedges < vertices.Length
      requires v0 < nvertices && v1 < nvertices && v2 < nvertices && Triple(v0, v1, v2).Different()
      modifies this`nedges, this`E, this`lists, this`live, vertices, nextEdges, firstEdge, vertDegree
      ensures Valid() && E == old(E) + [Triple(v0, v1, v2)] && live == old(live) + {old(nedges)}
    {
      hide Chains, Counted, PushedLists, InGraph;
      ghost var t, e := Triple(v0, v1, v2), nedges;
      ghost var next0, first0, degree0 := nextEdges[..], firstEdge[..], vertDegree[..];
      vertices[nedges] := Triple(v0, v1, v2);
      nextEdges[nedges] := Triple(firstEdge[v0], firstEdge[v1], firstEdge[v2]);
      assert nextEdges[..] == next0[e := Triple(first0[v0], first0[v1], first0[v2])];
      firstEdge[v0] := nedges;
      firstEdge[v1] := nedges;
      firstEdge[v2] := nedges;
      CountUp(Triple(v0, v1, v2));
      nedges := nedges + 1;
      assert firstEdge[..] == first0[v0 := e][v1 := e][v2 := e];
      PushChains(E, next0, first0, lists, t, nextEdges[..], firstEdge[..]);
      PushCounted(E, live, lists, degree0, t, vertDegree[..]);
      assert vertices[..nedges] == E + [t];
      PushInGraph(E, nvertices, t);
      lists, live, E := PushedLists(lists, |E|, t), live + {|E|}, E + [t];
    }

    method CountUp(t: Triple)
      requires t.v0 < vertDegree.Length && t.v1 < vertDegree.Length && t.v2 < vertDegree.Length && t.Different()
      modifies vertDegree
      ensures forall v :: 0 <= v < vertDegree.Length ==>
        vertDegree[v] == if t.Has(v) then Inc8(old(vertDegree[v])) else old(vertDegree[v])
    {
      vertDegree[t.v0] := Inc8(vertDegree[t.v0]);
      vertDegree[t.v1] := Inc8(vertDegree[t.v1]);
      vertDegree[t.v2] := Inc8(vertDegree[t.v2]);
    }

    /** The list walk of bdz_remove_edge: the edge before e in the list of vert, and vert's position in it. */
    method FindBefore(e: uint32, vert: uint32) returns (edge2: uint32, j: nat, ghost p: nat)
      requires Linked() && vert < nvertices == |lists| && e in lists[vert]
      ensures j < 3 && p < |lists[vert]| && lists[vert][p] == e
      ensures if p == 0 then edge2 == NULL_EDGE
              else edge2 == lists[vert][p - 1] && edge2 < nedges && j == E[edge2].Pos(vert)
    {
      hide Chains;
      ghost var l := lists[vert];
      p :| 0 <= p < |l| && l[p] == e;
      ChainFacts(E, nvertices, nextEdges[..], firstEdge[..], lists, vert);
      var edge1: uint32 := firstEdge[vert];
      edge2, j := NULL_EDGE, 0;
      ghost var k := 0;
      while edge1 != e && edge1 != NULL_EDGE
        invariant k <= p && edge1 == l[k] && j < 3
        invariant if k == 0 then edge2 == NULL_EDGE else edge2 == l[k - 1] && j == E[edge2].Pos(vert)
        decreases p - k
      {
        edge2 := edge1;
        assert vertices[..nedges][edge1] == E[edge1];
        j := vertices[edge1].Pos(vert);
        edge1 := nextEdges[edge1].Get(j);
        k := k + 1;
      }
      // the error exit for an edge that is missing from the list cannot be reached
      assert edge1 != NULL_EDGE;
      assert k == p;
    }

    /** One turn of the loop in bdz_remove_edge: unlinks e from the list of its i-th vertex. */
    method RemoveAt(e: uint32, i: nat)
      requires Linked() && e < nedges && i < 3 && |lists| == nvertices
      requires E[e].Get(i) < nvertices && e in lists[E[e].Get(i)]
      modifies this`lists, nextEdges, firstEdge, vertDegree
      ensures Linked() && Drops(old(lists), lists, E[e].Get(i), e)
      ensures vertDegree[..] == old(vertDegree[..])[E[e].Get(i) := Dec8(old(vertDegree[E[e].Get(i)]))]
    {
      hide Chains;
      assert vertices[..nedges][e] == E[e];
      var vert: uint32 := vertices[e].Get(i);
      ghost var l, next0, first0, degree0 := lists[vert], nextEdges[..], firstEdge[..], vertDegree[..];
      ChainFacts(E, nvertices, next0, first0, lists, vert);
      ghost var p: nat;
      var edge2: uint32, j: nat;
      edge2, j, p := FindBefore(e, vert);
      if edge2 != NULL_EDGE {
        nextEdges[edge2] := nextEdges[edge2].Set(j, nextEdges[e].Get(i));
      } else {
        firstEdge[vert] := nextEdges[e].Get(i);
      }
      vertDegree[vert] := Dec8(vertDegree[vert]);
      UnlinkAll(E, nvertices, next0, first0, lists, vert, p, nextEdges[..], firstEdge[..]);
      lists := lists[vert := Without(l, p)];
      WithoutMembers(l, p);
      assert vertDegree[..] == degree0[vert := Dec8(degree0[vert])];
    }

    /** bdz_remove_edge */
    method RemoveEdge(e: uint32)
      requires Valid() && e in live
      modifies this`lists, this`live, nextEdges, firstEdge, vertDegree
      ensures Valid() && live == old(live) - {e}
    {
      hide Chains, Counted, Drops;
      LinkedSizes();
      ghost var lists0, degree0 := lists, vertDegree[..];
      CountedEdge(E, live, lists, vertDegree[..], e, nvertices);
      RemoveAt(e, 0);
      ghost var lists1, degree1 := lists, vertDegree[..];
      DropsOther(lists0, lists1, E[e].v0, e, E[e].v1);
      DropsOther(lists0, lists1, E[e].v0, e, E[e].v2);
      RemoveAt(e, 1);
      ghost var lists2, degree2 := lists, vertDegree[..];
      DropsOther(lists1, lists2, E[e].v1, e, E[e].v2);
      RemoveAt(e, 2);
      DropsCounted(E, live, nvertices, lists0, lists1, lists2, lists, degree0, degree1, degree2, vertDegree[..], e);
      live := live - {e};
    }

    lemma ValidAllocated()
      requires Valid()
      ensures Allocated()
    {
    }

    lemma ValidSizes()
      requires Valid()
      ensures nedges == |E| < NULL_EDGE && InGraph(E, nvertices)
    {
    }

    lemma LinkedSizes()
      requires Linked()
      ensures nedges == |E| < NULL_EDGE && InGraph(E, nvertices) && |lists| == nvertices
      ensures firstEdge.Length == vertDegree.Length == nvertices
    {
    }
  }

  lemma WithoutMembers(l: seq<nat>, p: nat)
    requires p < |l| && Distinct(l)
    ensures forall f :: f in Without(l, p) <==> f in l && f != l[p]
  {
    forall f | f in l && f != l[p]
      ensures f in Without(l, p)
    {
      var k :| 0 <= k < |l| && l[k] == f;
      assert Without(l, p)[if k < p then k else k - 1] == f;
    }
  }

  lemma CountedEdge(E: seq<Triple>, live: set<nat>, lists: seq<seq<nat>>, degree: seq<uint8>, e: nat, n: nat)
    requires Counted(E, live, lists, degree) && InGraph(E, n) && |lists| == n && e in live
    ensures e < |E| && e in lists[E[e].v0] && e in lists[E[e].v1] && e in lists[E[e].v2]
  {
    assert CountedAt(E, live, E[e].v0, lists[E[e].v0], degree[E[e].v0]);
    assert CountedAt(E, live, E[e].v1, lists[E[e].v1], degree[E[e].v1]);
    assert CountedAt(E, live, E[e].v2, lists[E[e].v2], degree[E[e].v2]);
  }

  lemma DropsOther(lists: seq<seq<nat>>, lists': seq<seq<nat>>, v: nat, e: nat, u: nat)
    requires Drops(lists, lists', v, e) && u < |lists| && u != v
    ensures |lists'| == |lists| && lists'[u] == lists[u]
  {
  }

  /** Dropping e from the lists of its three vertices keeps the counts right. */
  lemma DropsCounted(E: seq<Triple>, live: set<nat>, n: nat, lists0: seq<seq<nat>>, lists1: seq<seq<nat>>,
                     lists2: seq<seq<nat>>, lists3: seq<seq<nat>>, d0: seq<uint8>, d1: seq<uint8>, d2: seq<uint8>,
                     d3: seq<uint8>, e: nat)
    requires Counted(E, live, lists0, d0) && InGraph(E, n) && |d0| == n && e < |E|
    requires Drops(lists0, lists1, E[e].v0, e) && d1 == d0[E[e].v0 := Dec8(d0[E[e].v0])]
    requires Drops(lists1, lists2, E[e].v1, e) && d2 == d1[E[e].v1 := Dec8(d1[E[e].v1])]
    requires Drops(lists2, lists3, E[e].v2, e) && d3 == d2[E[e].v2 := Dec8(d2[E[e].v2])]
    ensures Counted(E, live - {e}, lists3, d3)
  {
    forall v | 0 <= v < n
      ensures CountedAt(E, live - {e}, v, lists3[v], d3[v])
    {
      assert CountedAt(E, live, v, lists0[v], d0[v]);
      if |lists0[v]| > 0 {
        Step8(|lists0[v]| - 1);
      }
    }
  }

  lemma ChainFacts(E: seq<Triple>, n: nat, next: seq<Triple>, first: seq<uint32>, lists: seq<seq<nat>>, v: nat)
    requires |E| <= |next| && |E| < NULL_EDGE && InGraph(E, n) && Chains(E, next, first, lists) && v < |first|
    ensures |lists| == |first| && first[v] == Item(lists[v], 0) && Distinct(lists[v])
    ensures forall k :: 0 <= k < |lists[v]| ==> lists[v][k] < |E| && E[lists[v][k]].Has(v)
    ensures forall k {:trigger next[lists[v][k]]} :: 0 <= k < |lists[v]| ==>
      next[lists[v][k]].Get(E[lists[v][k]].Pos(v)) == Item(lists[v], k + 1)
  {
    assert Chain(E, next, first[v], v, lists[v]);
  }

  /** lists' is lists with e taken out of the list of v. */
  ghost predicate Drops(lists: seq<seq<nat>>, lists': seq<seq<nat>>, v: nat, e: nat) {
    && v < |lists| == |lists'|
    && (forall u :: 0 <= u < |lists| && u != v ==> lists'[u] == lists[u])
    && |lists'[v]| + 1 == |lists[v]|
    && forall f :: f in lists'[v] <==> f in lists[v] && f != e
  }
}
