/** bdz_generate_queue: peels edges off as long as one has a vertex of its own. */
module Peeling {
  import opened Words
  import opened Counting
  import opened Hypergraph

  ghost function EdgesAt(E: seq<Triple>, v: nat): set<nat> {
    set e | 0 <= e < |E| && E[e].Has(v)
  }

  /**
   The degree counters of the graph are single bytes; only from 257 on the byte of a degree is that of a smaller
   degree above 0.
   */
  ghost predicate DegreesFit(E: seq<Triple>) {
    forall v: nat :: |EdgesAt(E, v)| <= 256
  }

  /** No unmarked live edge has v to itself, provided that degrees fit. */
  ghost predicate QuietAt(E: seq<Triple>, live: set<nat>, marked: seq<bool>, v: nat)
    requires |marked| == |E|
  {
    DegreesFit(E) ==> forall e :: e in live && e < |E| && !marked[e] ==> !Private(E, live, e, v)
  }

  /** Every edge has, or had when it was removed, a vertex of its own; no set of minimum degree two lost an edge. */
  ghost predicate Exact(E: seq<Triple>, live: set<nat>, q: seq<nat>, tail: nat) {
    && tail <= |q|
    && (forall i :: tail <= i < |q| ==> HasPrivate(E, live, q[i]))
    && (forall i :: 0 <= i < tail ==> HasPrivate(E, Below(|E|) - Range(q[..i]), q[i]))
    && (forall C :: MinDegreeTwo(E, C) ==> C <= live)
  }

  /** q was filled so far, and its first tail edges were removed. */
  ghost predicate QueueOk(E: seq<Triple>, live: set<nat>, q: seq<nat>, tail: nat, marked: seq<bool>) {
    && |marked| == |E| && tail <= |q| && Distinct(q) && Bounded(q, |E|)
    && (forall e :: 0 <= e < |E| ==> (marked[e] <==> e in q))
    && live == Below(|E|) - Range(q[..tail])
    && (DegreesFit(E) ==> Exact(E, live, q, tail))
  }

  lemma QueueStart(E: seq<Triple>, marked: seq<bool>)
    requires |marked| == |E| && forall e :: 0 <= e < |E| ==> !marked[e]
    ensures QueueOk(E, Below(|E|), [], 0, marked)
  {
    assert Range<nat>([]) == {};
  }

  /** Enqueueing an unmarked edge that has a private vertex. */
  lemma QueuePush(E: seq<Triple>, live: set<nat>, q: seq<nat>, tail: nat, marked: seq<bool>, e: nat)
    requires QueueOk(E, live, q, tail, marked) && e < |E| && !marked[e]
    requires DegreesFit(E) ==> HasPrivate(E, live, e)
    ensures QueueOk(E, live, q + [e], tail, marked[e := true])
    ensures |q| < |E|
  {
    hide DegreesFit;
    var q' := q + [e];
    assert q'[..tail] == q[..tail];
    forall i | DegreesFit(E) && 0 <= i < tail
      ensures HasPrivate(E, Below(|E|) - Range(q'[..i]), q'[i])
    {
      assert q'[..i] == q[..i];
    }
    assert e !in q;
    DistinctBounded(q', |E|);
  }

  /** Removing the edge at the front of the queue. */
  lemma QueuePop(E: seq<Triple>, live: set<nat>, q: seq<nat>, tail: nat, marked: seq<bool>)
    requires QueueOk(E, live, q, tail, marked) && tail < |q|
    ensures q[tail] in live && QueueOk(E, live - {q[tail]}, q, tail + 1, marked)
  {
    hide DegreesFit, Exact;
    assert Range(q[..tail + 1]) == Range(q[..tail]) + {q[tail]};
    if DegreesFit(E) {
      ExactPop(E, live, q, tail);
    }
  }

  lemma ExactPop(E: seq<Triple>, live: set<nat>, q: seq<nat>, tail: nat)
    requires Exact(E, live, q, tail) && tail < |q| && Distinct(q) && Bounded(q, |E|)
    requires live == Below(|E|) - Range(q[..tail])
    ensures Exact(E, live - {q[tail]}, q, tail + 1)
  {
    var e, live' := q[tail], live - {q[tail]};
    assert HasPrivate(E, live, e);
    assert Range(q[..tail + 1]) == Range(q[..tail]) + {e};
    forall i | tail + 1 <= i < |q|
      ensures HasPrivate(E, live', q[i])
    {
      assert q[i] !in q[..tail + 1];
      StaysPrivate(E, live, live', q[i]);
    }
    forall C | MinDegreeTwo(E, C)
      ensures C <= live'
    {
      RemovePrivate(E, live, e, C);
    }
  }

  /** After a removal only the three vertices of the removed edge can have become private. */
  lemma QuietElsewhere(E: seq<Triple>, live: set<nat>, marked: seq<bool>, e: nat, v: nat)
    requires |marked| == |E| && QuietAt(E, live, marked, v) && e < |E| && !E[e].Has(v)
    ensures QuietAt(E, live - {e}, marked, v)
  {
    hide DegreesFit;
    forall f: nat | DegreesFit(E) && f in live && f < |E| && !marked[f] && f != e
      ensures !Private(E, live - {e}, f, v)
    {
      assert !Private(E, live, f, v);
    }
  }

  /** With at most 256 edges at v, degree 1 means that the edge has v to itself. */
  lemma DegreeOne(E: seq<Triple>, live: set<nat>, v: nat, l: seq<nat>, degree: uint8, e: nat)
    requires CountedAt(E, live, v, l, degree) && Distinct(l) && |l| <= 256 && e in l
    ensures degree == 1 <==> Private(E, live, e, v)
  {
    var k :| 0 <= k < |l| && l[k] == e;
    assert |l| > 1 ==> l[1] in l && l[0] in l && l[0] != l[1];
    if |l| == 1 {
      assert l == [e];
    }
  }

  /** The queue is exact: what is left at the end is the largest set of minimum degree two. */
  lemma QueueDone(E: seq<Triple>, live: set<nat>, q: seq<nat>, marked: seq<bool>)
    requires QueueOk(E, live, q, |q|, marked) && forall v: nat :: QuietAt(E, live, marked, v)
    ensures |q| <= |E|
    ensures DegreesFit(E) ==> (|q| == |E| <==> Peelable(E)) && PeelOrder(E, q)
  {
    hide DegreesFit, Exact, MinDegreeTwo, Peelable, PeelOrder;
    DistinctBounded(q, |E|);
    if DegreesFit(E) {
      assert q[..|q|] == q;
      NothingLeft(E, live, q, marked);
      ExactOrder(E, live, q);
    }
  }

  lemma NothingLeft(E: seq<Triple>, live: set<nat>, q: seq<nat>, marked: seq<bool>)
    requires DegreesFit(E) && QueueOk(E, live, q, |q|, marked) && forall v: nat :: QuietAt(E, live, marked, v)
    ensures |q| == |E| <==> Peelable(E)
  {
    hide DegreesFit;
    assert q[..|q|] == q;
    DistinctBounded(q, |E|);
    forall e | e in live
      ensures !HasPrivate(E, live, e)
    {
      forall v: nat
        ensures !Private(E, live, e, v)
      {
        assert QuietAt(E, live, marked, v);
        assert !marked[e];
      }
    }
    assert MinDegreeTwo(E, live);
    if |q| == |E| {
      forall e: nat | e < |E|
        ensures e in q
      {
        DistinctCovers(q, |E|, e);
      }
      assert live == {};
    }
    if Peelable(E) {
      assert live == {};
      SubsetSize(Below(|E|), Range(q));
      RangeSize(q);
    }
  }

  lemma ExactOrder(E: seq<Triple>, live: set<nat>, q: seq<nat>)
    requires Exact(E, live, q, |q|) && Distinct(q) && Bounded(q, |E|)
    ensures PeelOrder(E, q)
  {
    forall i | 0 <= i < |q|
      ensures FreshVertex(E, q, i)
    {
      var S := Below(|E|) - Range(q[..i]);
      var v: nat :| Private(E, S, q[i], v);
      forall j | i < j < |q|
        ensures !E[q[j]].Has(v)
      {
        assert q[j] !in q[..i];
      }
    }
  }

  /**
   At a vertex of stored degree 1 there is a live edge. When degrees fit a byte, the vertex belongs to it only.
   */
  lemma VertexFacts(g: Graph3, v: nat)
    requires g.Valid() && v < g.nvertices
    ensures g.vertDegree.Length == g.firstEdge.Length == g.nvertices
    ensures g.vertDegree[v] == 1 ==> g.firstEdge[v] in g.live && g.firstEdge[v] < |g.E|
    ensures DegreesFit(g.E) && g.vertDegree[v] == 1 ==> Private(g.E, g.live, g.firstEdge[v], v)
    ensures DegreesFit(g.E) && g.vertDegree[v] != 1 ==> forall e :: !Private(g.E, g.live, e, v)
  {
    hide DegreesFit;
    var l := g.lists[v];
    assert Chain(g.E, g.nextEdges[..], g.firstEdge[..][v], v, l);
    assert CountedAt(g.E, g.live, v, l, g.vertDegree[..][v]);
    DistinctInSet(l, EdgesAt(g.E, v));
    assert DegreesFit(g.E) ==> |l| <= 256 by { FitsAt(g.E, v); }
    forall e | e in l && |l| <= 256
      ensures g.vertDegree[v] == 1 <==> Private(g.E, g.live, e, v)
    {
      DegreeOne(g.E, g.live, v, l, g.vertDegree[v], e);
    }
    assert |l| > 0 ==> l[0] in l;
  }

  lemma FitsAt(E: seq<Triple>, v: nat)
    ensures DegreesFit(E) ==> |EdgesAt(E, v)| <= 256
  {
  }

  /** The live edges at v: its true degree is their number. */
  ghost function LiveAt(E: seq<Triple>, live: set<nat>, v: nat): set<nat> {
    set e | e in live && e < |E| && E[e].Has(v)
  }

  lemma ListSize(E: seq<Triple>, live: set<nat>, v: nat, l: seq<nat>, degree: uint8)
    requires CountedAt(E, live, v, l, degree) && Distinct(l)
    ensures |l| == |LiveAt(E, live, v)|
  {
    forall i | 0 <= i < |l|
      ensures l[i] in LiveAt(E, live, v)
    {
      assert l[i] in l;
    }
    DistinctInSet(l, LiveAt(E, live, v));
    forall e | e in LiveAt(E, live, v)
      ensures e in Range(l)
    {
      assert e in l;
    }
    SubsetSize(LiveAt(E, live, v), Range(l));
    RangeSize(l);
  }

  /**
   The test for degree 1 finds exactly the vertices with a single edge if and only if the true degree
   does not wrap round to 1 in the byte that counts it.
   */
  lemma DegreeTestExact(g: Graph3, v: nat)
    requires g.Valid() && v < g.nvertices
    ensures v < g.vertDegree.Length
    ensures var degree := |LiveAt(g.E, g.live, v)|;
      (g.vertDegree[v] == 1 <==> exists e :: Private(g.E, g.live, e, v)) <==> (degree % 256 == 1 ==> degree == 1)
  {
    var l := g.lists[v];
    assert Chain(g.E, g.nextEdges[..], g.firstEdge[..][v], v, l);
    assert CountedAt(g.E, g.live, v, l, g.vertDegree[..][v]);
    ListSize(g.E, g.live, v, l, g.vertDegree[v]);
    SinglePrivate(g.E, g.live, v, l, g.vertDegree[v]);
  }

  lemma SinglePrivate(E: seq<Triple>, live: set<nat>, v: nat, l: seq<nat>, degree: uint8)
    requires CountedAt(E, live, v, l, degree) && Distinct(l)
    ensures |l| == 1 <==> exists e :: Private(E, live, e, v)
  {
    assert |l| > 1 ==> l[0] in l && l[1] in l && l[0] != l[1];
    if |l| == 1 {
      assert l == [l[0]] && l[0] in l;
      assert Private(E, live, l[0], v);
    }
    if e :| Private(E, live, e, v) {
      assert e in l;
    }
  }

  lemma ParallelEdges(E: seq<Triple>, t: Triple, live: set<nat>)
    requires |E| == 257 && live == Below(257) && forall e :: 0 <= e < 257 ==> E[e] == t
    ensures !Peelable(E) && forall e: nat :: e < 257 ==> ByteOne(E, e)
  {
    assert EdgesAt(E, t.v0) == live;
    forall e: nat | e < 257
      ensures ByteOne(E, e)
    {
      assert E[e].Has(t.v0);
    }
    forall e: nat, v: nat
      ensures !Private(E, live, e, v)
    {
      var f := if e == 0 then 1 else 0;
      assert f in live && E[f] == t && (e < 257 ==> E[e] == t);
    }
    assert MinDegreeTwo(E, live);
    assert 0 in live;
  }

  lemma EdgeFacts(g: Graph3, e: nat)
    requires g.Valid() && e < g.nedges
    ensures g.nedges == |g.E| <= g.vertices.Length && g.vertices[e] == g.E[e]
    ensures g.E[e].v0 < g.nvertices && g.E[e].v1 < g.nvertices && g.E[e].v2 < g.nvertices
  {
    assert g.vertices[..g.nedges][e] == g.E[e];
  }

  lemma QuietMarked(E: seq<Triple>, live: set<nat>, marked: seq<bool>, marked': seq<bool>, v: nat)
    requires |marked| == |E| == |marked'| && QuietAt(E, live, marked, v)
    requires forall e :: 0 <= e < |E| && marked[e] ==> marked'[e]
    ensures QuietAt(E, live, marked', v)
  {
  }

  /** queue[..head] holds q, the edges found so far; marked tells them apart from the others. */
  ghost predicate Filled(E: seq<Triple>, live: set<nat>, queue: seq<uint32>, head: nat, q: seq<nat>, tail: nat,
                         marked: seq<bool>) {
    && |queue| == |E| < NULL_EDGE && head == |q| <= |E|
    && (forall i :: 0 <= i < head ==> queue[i] == q[i])
    && QueueOk(E, live, q, tail, marked)
  }

  ghost predicate Grows(marked: seq<bool>, marked': seq<bool>) {
    |marked| == |marked'| && forall e :: 0 <= e < |marked| && marked[e] ==> marked'[e]
  }

  /** Puts an edge into the queue, unless it is there already. */
  method Enqueue(ghost E: seq<Triple>, ghost live: set<nat>, queue: array<uint32>, head: uint32, ghost q: seq<nat>,
                 ghost tail: nat, marked: array<bool>, e: uint32)
    returns (head': uint32, ghost q': seq<nat>)
    requires queue.Length == |E| && Filled(E, live, queue[..], head, q, tail, marked[..])
    requires e < |E| && (DegreesFit(E) ==> HasPrivate(E, live, e))
    modifies queue, marked
    ensures Filled(E, live, queue[..], head', q', tail, marked[..])
    ensures marked[e] && Grows(old(marked[..]), marked[..]) && head <= head'
  {
    hide HasPrivate, Exact, DegreesFit;
    head', q' := head, q;
    if !marked[e] {
      QueuePush(E, live, q, tail, marked[..], e);
      queue[head] := e;
      head' := head + 1;
      marked[e] := true;
      q' := q + [e];
      assert marked[..] == old(marked[..])[e := true];
    }
  }

  /** One of the three checks after a removal: v's only edge, if it has just one, enters the queue. */
  method CheckVertex(g: Graph3, v: uint32, queue: array<uint32>, head: uint32, ghost q: seq<nat>, ghost tail: nat,
                     marked: array<bool>)
    returns (head': uint32, ghost q': seq<nat>)
    requires g.Valid() && v < g.nvertices && queue.Length == |g.E|
    requires queue != g.firstEdge
    requires Filled(g.E, g.live, queue[..], head, q, tail, marked[..])
    modifies queue, marked
    ensures Filled(g.E, g.live, queue[..], head', q', tail, marked[..])
    ensures QuietAt(g.E, g.live, marked[..], v) && Grows(old(marked[..]), marked[..]) && head <= head'
  {
    hide Graph3.Valid, DegreesFit, QueueOk;
    head', q' := head, q;
    VertexFacts(g, v);
    assert |marked[..]| == |g.E| by { FilledSize(g.E, g.live, queue[..], head, q, tail, marked[..]); }
    if g.vertDegree[v] == 1 {
      var tmp: uint32 := g.firstEdge[v];
      assert DegreesFit(g.E) ==> HasPrivate(g.E, g.live, tmp);
      head', q' := Enqueue(g.E, g.live, queue, head, q, tail, marked, tmp);
    }
  }

  lemma FilledSize(E: seq<Triple>, live: set<nat>, queue: seq<uint32>, head: nat, q: seq<nat>, tail: nat,
                   marked: seq<bool>)
    requires Filled(E, live, queue, head, q, tail, marked)
    ensures |marked| == |E| == |queue| < NULL_EDGE && tail <= head == |q| <= |E|
    ensures head == |E| ==> queue == q
    ensures tail == head ==> QueueOk(E, live, q, |q|, marked)
    ensures Bounded(q, |E|)
    ensures tail < head ==> queue[tail] in live && queue[tail] < |E|
  {
    if tail < head {
      QueuePop(E, live, q, tail, marked);
    }
  }

  lemma AllQuiet(E: seq<Triple>, live: set<nat>, marked: seq<bool>, marked': seq<bool>, e: nat)
    requires |marked| == |E| && e < |E| && Grows(marked, marked')
    requires forall v: nat :: QuietAt(E, live, marked, v)
    requires QuietAt(E, live - {e}, marked', E[e].v0)
    requires QuietAt(E, live - {e}, marked', E[e].v1)
    requires QuietAt(E, live - {e}, marked', E[e].v2)
    ensures forall v: nat :: QuietAt(E, live - {e}, marked', v)
  {
    forall v: nat
      ensures QuietAt(E, live - {e}, marked', v)
    {
      if !E[e].Has(v) {
        QuietElsewhere(E, live, marked, e, v);
        QuietMarked(E, live - {e}, marked, marked', v);
      }
    }
  }

  lemma FilledPop(E: seq<Triple>, live: set<nat>, queue: seq<uint32>, head: nat, q: seq<nat>, tail: nat,
                  marked: seq<bool>)
    requires Filled(E, live, queue, head, q, tail, marked) && tail < head
    ensures Filled(E, live - {queue[tail]}, queue, head, q, tail + 1, marked)
  {
    QueuePop(E, live, q, tail, marked);
  }

  /** One turn of the main loop: removes the edge at the tail and looks at its three vertices. */
  method PeelNext(g: Graph3, queue: array<uint32>, head: uint32, ghost q: seq<nat>, tail: uint32, marked: array<bool>)
    returns (head': uint32, ghost q': seq<nat>)
    requires g.Valid() && queue.Length == |g.E| && tail < head
    requires Filled(g.E, g.live, queue[..], head, q, tail, marked[..])
    requires forall v: nat :: QuietAt(g.E, g.live, marked[..], v)
    requires queue != g.firstEdge
    modifies g`lists, g`live, g.nextEdges, g.firstEdge, g.vertDegree, queue, marked
    ensures g.Valid() && Filled(g.E, g.live, queue[..], head', q', tail + 1, marked[..]) && head <= head'
    ensures forall v: nat :: QuietAt(g.E, g.live, marked[..], v)
  {
    hide Graph3.Valid, DegreesFit, QueueOk, QuietAt;
    ghost var E, live, m0 := g.E, g.live, marked[..];
    g.ValidSizes();
    FilledSize(E, live, queue[..], head, q, tail, m0);
    FilledPop(E, live, queue[..], head, q, tail, m0);
    var e: uint32 := queue[tail];
    g.RemoveEdge(e);
    EdgeFacts(g, e);
    var v0: uint32, v1: uint32, v2: uint32 := g.vertices[e].v0, g.vertices[e].v1, g.vertices[e].v2;
    head', q' := CheckVertex(g, v0, queue, head, q, tail + 1, marked);
    ghost var m1 := marked[..];
    head', q' := CheckVertex(g, v1, queue, head', q', tail + 1, marked);
    ghost var m2 := marked[..];
    QuietMarked(E, g.live, m1, m2, v0);
    head', q' := CheckVertex(g, v2, queue, head', q', tail + 1, marked);
    QuietMarked(E, g.live, m2, marked[..], v0);
    QuietMarked(E, g.live, m2, marked[..], v1);
    AllQuiet(E, live, m0, marked[..], e);
  }

  /** An edge has a private vertex exactly if one of its three degree counters is 1. */
  lemma EdgeDegrees(g: Graph3, e: nat)
    requires g.Valid() && e in g.live
    ensures e < |g.E| && g.vertDegree.Length == g.nvertices
    ensures g.E[e].v0 < g.nvertices && g.E[e].v1 < g.nvertices && g.E[e].v2 < g.nvertices
    ensures DegreesFit(g.E) ==> (HasPrivate(g.E, g.live, e) <==>
      g.vertDegree[g.E[e].v0] == 1 || g.vertDegree[g.E[e].v1] == 1 || g.vertDegree[g.E[e].v2] == 1)
  {
    hide DegreesFit;
    forall v | DegreesFit(g.E) && v in {g.E[e].v0, g.E[e].v1, g.E[e].v2}
      ensures g.vertDegree[v] == 1 <==> Private(g.E, g.live, e, v)
    {
      VertexFacts(g, v);
      assert CountedAt(g.E, g.live, v, g.lists[v], g.vertDegree[..][v]);
    }
  }

  /** The byte of the degree of one of e's vertices is 1. */
  ghost predicate ByteOne(E: seq<Triple>, e: nat) {
    e < |E| && exists v: nat :: E[e].Has(v) && |EdgesAt(E, v)| % 256 == 1
  }

  lemma ByteOneDegrees(g: Graph3, e: nat)
    requires g.Valid() && g.live == Below(|g.E|) && ByteOne(g.E, e)
    ensures g.vertDegree.Length == g.nvertices
    ensures g.E[e].v0 < g.nvertices && g.E[e].v1 < g.nvertices && g.E[e].v2 < g.nvertices
    ensures g.vertDegree[g.E[e].v0] == 1 || g.vertDegree[g.E[e].v1] == 1 || g.vertDegree[g.E[e].v2] == 1
  {
    var v: nat :| g.E[e].Has(v) && |EdgesAt(g.E, v)| % 256 == 1;
    var l := g.lists[v];
    assert Chain(g.E, g.nextEdges[..], g.firstEdge[..][v], v, l);
    assert CountedAt(g.E, g.live, v, l, g.vertDegree[..][v]);
    ListSize(g.E, g.live, v, l, g.vertDegree[v]);
    assert LiveAt(g.E, g.live, v) == EdgesAt(g.E, v);
  }

  lemma AllMarked(E: seq<Triple>, live: set<nat>, queue: seq<uint32>, head: nat, q: seq<nat>, tail: nat,
                  marked: seq<bool>)
    requires Filled(E, live, queue, head, q, tail, marked) && forall e :: 0 <= e < |E| ==> marked[e]
    ensures head == |E|
  {
    forall e | e in Below(|E|)
      ensures e in Range(q)
    {
      assert marked[e];
    }
    SubsetSize(Below(|E|), Range(q));
    RangeSize(q);
  }

  /** The first loop of bdz_generate_queue: enqueues the edges that have a vertex of degree 1. */
  method FirstEdges(g: Graph3, queue: array<uint32>, marked: array<bool>) returns (head: uint32, ghost q: seq<nat>)
    requires g.Valid() && g.live == Below(|g.E|)
    requires queue.Length == |g.E| == marked.Length && forall e :: 0 <= e < |g.E| ==> !marked[e]
    requires queue != g.firstEdge
    modifies queue, marked
    ensures g.Valid() && Filled(g.E, g.live, queue[..], head, q, 0, marked[..])
    ensures forall v: nat :: QuietAt(g.E, g.live, marked[..], v)
    ensures forall e: nat :: ByteOne(g.E, e) ==> marked[e]
  {
    hide Graph3.Valid, DegreesFit, QueueOk, HasPrivate, QuietAt, Filled, ByteOne;
    g.ValidSizes();
    head, q := 0, [];
    FilledStart(g.E, queue[..], marked[..]);
    for i := 0 to g.nedges
      invariant g.Valid() && Filled(g.E, g.live, queue[..], head, q, 0, marked[..])
      invariant DegreesFit(g.E) ==> forall e: nat :: e < i && !marked[e] ==> !HasPrivate(g.E, g.live, e)
      invariant forall e: nat :: e < i && ByteOne(g.E, e) ==> marked[e]
    {
      EdgeFacts(g, i);
      EdgeDegrees(g, i);
      if ByteOne(g.E, i) {
        ByteOneDegrees(g, i);
      }
      ghost var m0 := marked[..];
      if g.vertDegree[g.vertices[i].v0] == 1 || g.vertDegree[g.vertices[i].v1] == 1
         || g.vertDegree[g.vertices[i].v2] == 1
      {
        head, q := Enqueue(g.E, g.live, queue, head, q, 0, marked, i);
      }
    }
    StartQuiet(g.E, g.live, marked[..]);
    ByteOneBelow(g.E);
  }

  lemma ByteOneBelow(E: seq<Triple>)
    ensures forall e: nat :: ByteOne(E, e) ==> e < |E|
  {
  }

  /**
   bdz_generate_queue: peels the hypergraph. When degrees fit a byte, 0 is returned exactly if no non-empty set of
   edges has minimum degree two, and then the queue holds every edge, each with a vertex no later edge has. When the
   byte of some vertex's degree is 1 on every edge, 0 is returned, whether the hypergraph can be peeled or not.
   */
  method GenerateQueue(g: Graph3, queue: array<uint32>) returns (result: int)
    requires g.Valid() && g.live == Below(|g.E|)
    requires queue.Length == |g.E| && queue != g.firstEdge
    modifies g`lists, g`live, g.nextEdges, g.firstEdge, g.vertDegree, queue
    ensures g.Valid() && result <= 0
    ensures result == 0 ==> Bounded(queue[..], |g.E|)
    ensures DegreesFit(g.E) ==> (result == 0 <==> Peelable(g.E))
    ensures DegreesFit(g.E) && result == 0 ==> PeelOrder(g.E, queue[..])
    ensures (forall e: nat :: e < |g.E| ==> ByteOne(g.E, e)) ==> result == 0
  {
    hide Graph3.Valid, DegreesFit, QueueOk, HasPrivate, Peelable, PeelOrder, QuietAt, Filled, ByteOne;
    g.ValidSizes();
    var marked := new bool[g.nedges](e => false);
    var tail: uint32 := 0;
    ghost var q;
    var head: uint32;
    head, q := FirstEdges(g, queue, marked);
    FilledSize(g.E, g.live, queue[..], head, q, 0, marked[..]);
    if forall e: nat :: e < |g.E| ==> ByteOne(g.E, e) {
      AllMarked(g.E, g.live, queue[..], head, q, 0, marked[..]);
    }
    ghost var head0 := head;
    while tail != head
      invariant g.Valid() && tail <= head <= |g.E| && head0 <= head
      invariant Filled(g.E, g.live, queue[..], head, q, tail, marked[..])
      invariant forall v: nat :: QuietAt(g.E, g.live, marked[..], v)
      decreases |g.E| - tail
    {
      head, q := PeelNext(g, queue, head, q, tail, marked);
      tail := tail + 1;
      FilledSize(g.E, g.live, queue[..], head, q, tail, marked[..]);
    }
    FilledSize(g.E, g.live, queue[..], head, q, tail, marked[..]);
    result := head - g.nedges;
    QueueDone(g.E, g.live, q, marked[..]);
  }

  /** 257 edges with the same vertices. */
  method EqualEdges() returns (g: Graph3)
    ensures g.Valid() && fresh(g) && g.live == Below(257) && |g.E| == 257
    ensures forall e :: 0 <= e < 257 ==> g.E[e] == Triple(0, 1, 2)
    ensures fresh(g.vertices) && fresh(g.nextEdges) && fresh(g.firstEdge) && fresh(g.vertDegree)
  {
    hide Graph3.Valid;
    g := new Graph3(257, 3);
    for k := 0 to 257
      invariant g.Valid() && fresh(g) && fresh(g.vertices)
      invariant fresh(g.nextEdges) && fresh(g.firstEdge) && fresh(g.vertDegree)
      invariant g.nvertices == 3 && g.vertices.Length == 257 && |g.E| == k && g.live == Below(k)
      invariant forall e :: 0 <= e < k ==> g.E[e] == Triple(0, 1, 2)
    {
      g.ValidSizes();
      g.AddEdge(0, 1, 2);
      assert Below(k + 1) == Below(k) + {k};
    }
  }

  /** They are accepted with the answer 0 although nothing can be peeled. */
  method DegreeWrapExample() returns (g: Graph3, result: int)
    ensures g.Valid() && |g.E| == 257 && forall e :: 0 <= e < 257 ==> g.E[e] == Triple(0, 1, 2)
    ensures !Peelable(g.E) && result == 0
  {
    hide Graph3.Valid, Peelable, DegreesFit, ByteOne, Below;
    g := EqualEdges();
    ParallelEdges(g.E, Triple(0, 1, 2), g.live);
    var queue := new uint32[257];
    result := GenerateQueue(g, queue);
  }

  lemma FilledStart(E: seq<Triple>, queue: seq<uint32>, marked: seq<bool>)
    requires |marked| == |E| == |queue| < NULL_EDGE && forall e :: 0 <= e < |E| ==> !marked[e]
    ensures Filled(E, Below(|E|), queue, 0, [], 0, marked)
  {
    QueueStart(E, marked);
  }

  lemma StartQuiet(E: seq<Triple>, live: set<nat>, marked: seq<bool>)
    requires |marked| == |E|
    requires DegreesFit(E) ==> forall e :: 0 <= e < |E| && !marked[e] ==> !HasPrivate(E, live, e)
    ensures forall v: nat :: QuietAt(E, live, marked, v)
  {
    hide DegreesFit;
  }
}
