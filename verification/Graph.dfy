/**
 graph.c: a multigraph whose adjacency lists are threaded through arrays. Edge e owns the two
 half-edges e and e + nedges; half-edge e is in the list of the first end, e + nedges in the list
 of the second.
 */
module Graphs {
  import opened Arithmetic
  import opened Words
  import opened Multigraph
  import opened Counting

  const EMPTY: uint32 := 0xFFFF_FFFF
  const NO_NEIGHBOR: uint32 := 0xFFFF_FFFF

  /** The k-th element of a list, or EMPTY past its end. */
  ghost function Item(l: seq<nat>, k: nat): int {
    if k < |l| then l[k] else EMPTY
  }

  /** Following next from head visits exactly l. */
  ghost predicate Linked(next: seq<uint32>, head: uint32, l: seq<nat>) {
    && head == Item(l, 0)
    && (forall k :: 0 <= k < |l| ==> l[k] < |next|)
    && forall k {:trigger next[l[k]]} :: 0 <= k < |l| ==> next[l[k]] == Item(l, k + 1)
  }

  /** h is one of the half-edges at v, in a graph with room for m edges. */
  ghost predicate IsHalf(E: seq<Edge>, m: nat, v: nat, h: nat) {
    (h < |E| && E[h].src == v) || (m <= h < m + |E| && E[h - m].dst == v)
  }

  /** l lists every half-edge at v once. */
  ghost predicate Incident(E: seq<Edge>, m: nat, v: nat, l: seq<nat>) {
    Distinct(l) && forall h :: h in l <==> IsHalf(E, m, v, h)
  }

  /** The edge that half-edge h belongs to. */
  ghost function AbsEdge(h: nat, m: nat): nat
    requires h < 2 * m
  {
    if h < m then h else h - m
  }

  /** The macro abs_edge(h, 0). */
  function EdgeOf(h: nat, m: nat): (e: nat)
    requires h < 2 * m
    ensures e == AbsEdge(h, m)
  {
    DivisionUnique(h, m, if h < m then 0 else 1, AbsEdge(h, m));
    h % m
  }

  /** The edge at list position k and the end it is listed for. */
  lemma ListEntry(E: seq<Edge>, m: nat, v: nat, l: seq<nat>, k: nat)
    requires |E| <= m && Incident(E, m, v, l) && k < |l|
    ensures l[k] < 2 * m
    ensures
      var e := AbsEdge(l[k], m);
      && e < |E| && Touches(E[e], v)
      && ((l[k] == e && E[e].src == v) || (l[k] == e + m && E[e].dst == v))
  {
    assert l[k] in l;
    assert IsHalf(E, m, v, l[k]);
  }

  lemma ListPosition(E: seq<Edge>, m: nat, v: nat, l: seq<nat>, e: nat) returns (k: nat)
    requires |E| <= m && Incident(E, m, v, l) && e < |E| && Touches(E[e], v)
    ensures k < |l| && (l[k] == e || l[k] == e + m) && AbsEdge(l[k], m) == e
  {
    var h := if E[e].src == v then e else e + m;
    assert IsHalf(E, m, v, h);
    k :| 0 <= k < |l| && l[k] == h;
  }

  lemma LinkedFrame(next: seq<uint32>, next': seq<uint32>, head: uint32, l: seq<nat>)
    requires Linked(next, head, l) && |next'| == |next|
    requires forall k {:trigger next'[l[k]]} :: 0 <= k < |l| ==> next'[l[k]] == next[l[k]]
    ensures Linked(next', head, l)
  {
  }

  lemma LinkedPush(next: seq<uint32>, next': seq<uint32>, head: uint32, l: seq<nat>, h: nat)
    requires Linked(next, head, l) && |next'| == |next|
    requires forall k {:trigger next'[l[k]]} :: 0 <= k < |l| ==> next'[l[k]] == next[l[k]]
    requires h < |next'| && h < EMPTY && next'[h] == head
    ensures Linked(next', h, [h] + l)
  {
  }

  /** The list of v after the half-edges of edge number e of a graph for m edges were pushed. */
  ghost function Pushed(l: seq<nat>, e: nat, m: nat, ed: Edge, v: nat): seq<nat> {
    var l1 := if ed.src == v then [e] + l else l;
    if ed.dst == v then [e + m] + l1 else l1
  }

  lemma PushedIncident(E: seq<Edge>, m: nat, v: nat, l: seq<nat>, ed: Edge)
    requires |E| < m && Incident(E, m, v, l)
    ensures Incident(E + [ed], m, v, Pushed(l, |E|, m, ed, v))
  {
    var e, l' := |E|, Pushed(l, |E|, m, ed, v);
    assert !IsHalf(E, m, v, e) && !IsHalf(E, m, v, e + m);
    forall h
      ensures h in l' <==> IsHalf(E + [ed], m, v, h)
    {
      assert h in l <==> IsHalf(E, m, v, h);
    }
  }

  /** Pushing the new half-edges in front of the list l, each if it belongs there. */
  lemma PushedLinked(next: seq<uint32>, next1: seq<uint32>, next2: seq<uint32>, head: uint32, head1: uint32,
                     l: seq<nat>, e: nat, m: nat, ed: Edge, v: nat)
    requires e < m && 2 * m < EMPTY && |next| == |next1| == |next2| == 2 * m
    requires Linked(next, head, l) && e !in l && e + m !in l
    requires forall h :: 0 <= h < 2 * m && h != e ==> next1[h] == next[h]
    requires forall h :: 0 <= h < 2 * m && h != e + m ==> next2[h] == next1[h]
    requires if ed.src == v then next1[e] == head && head1 == e else head1 == head
    requires ed.dst == v ==> next2[e + m] == head1
    ensures Linked(next2, if ed.dst == v then e + m else head1, Pushed(l, e, m, ed, v))
  {
    var l1 := if ed.src == v then [e] + l else l;
    if ed.src == v {
      LinkedPush(next, next1, head, l, e);
    } else {
      LinkedFrame(next, next1, head, l);
    }
    if ed.dst == v {
      LinkedPush(next1, next2, head1, l1, e + m);
    } else {
      LinkedFrame(next1, next2, head1, l1);
    }
  }

  /** The list of v was worked off up to position k: those edges lie inside S. */
  ghost predicate Done(E: seq<Edge>, m: nat, l: seq<nat>, k: nat, S: set<nat>) {
    forall i :: 0 <= i < k && i < |l| ==> DoneAt(E, m, l[i], S)
  }

  ghost predicate DoneAt(E: seq<Edge>, m: nat, h: nat, S: set<nat>) {
    h < 2 * m && AbsEdge(h, m) < |E| && Inside(E[AbsEdge(h, m)], S)
  }

  lemma DoneAll(E: seq<Edge>, m: nat, v: nat, l: seq<nat>, S: set<nat>)
    requires |E| <= m && Incident(E, m, v, l) && Done(E, m, l, |l|, S)
    ensures Exhausted(E, v, S)
  {
    forall e | 0 <= e < |E| && Touches(E[e], v)
      ensures Inside(E[e], S)
    {
      var p := ListPosition(E, m, v, l, e);
      assert DoneAt(E, m, l[p], S);
    }
  }

  lemma DoneNext(E: seq<Edge>, m: nat, l: seq<nat>, k: nat, v: nat, y: nat, S: set<nat>, S': set<nat>)
    requires Done(E, m, l, k, S) && S <= S' && v in S' && y in S'
    requires k < |l| && l[k] < 2 * m && AbsEdge(l[k], m) < |E| && Joins(E[AbsEdge(l[k], m)], v, y)
    ensures Done(E, m, l, k + 1, S')
  {
  }

  /** g[src] + g[dst] in 32-bit arithmetic. */
  ghost function Sum(g: seq<uint32>, e: Edge): uint32
    requires e.src < |g| && e.dst < |g|
  {
    Add32(g[e.src], g[e.dst])
  }

  /** Half-edge e holds the second end of edge e, half-edge e + m the first. */
  ghost predicate Ends(E: seq<Edge>, m: nat, ends: seq<uint32>)
    requires |E| <= m && |ends| == 2 * m
  {
    forall e {:trigger E[e]} :: 0 <= e < |E| ==> ends[e] == E[e].dst && ends[e + m] == E[e].src
  }

  lemma PushedEnds(E: seq<Edge>, m: nat, ed: Edge, ends: seq<uint32>, ends1: seq<uint32>, ends2: seq<uint32>)
    requires |E| < m && |ends| == 2 * m && ed.src <= EMPTY && ed.dst <= EMPTY && Ends(E, m, ends)
    requires ends1 == ends[|E| := ed.dst] && ends2 == ends1[|E| + m := ed.src]
    ensures Ends(E + [ed], m, ends2)
  {
  }

  /** The neighbors of v in the order of its list: the edges added last come first. */
  ghost function Neighbors(E: seq<Edge>, v: nat): seq<nat> {
    if E == [] then [] else
      var ed, l := E[|E| - 1], Neighbors(E[..|E| - 1], v);
      var l1 := if ed.src == v then [ed.dst] + l else l;
      if ed.dst == v then [ed.src] + l1 else l1
  }

  /** Where half-edge h leads. */
  ghost function FarEnd(E: seq<Edge>, m: nat, h: nat): nat {
    if h < |E| then E[h].dst else if m <= h < m + |E| then E[h - m].src else 0
  }

  ghost function FarEnds(E: seq<Edge>, m: nat, l: seq<nat>): (ends: seq<nat>)
    ensures |ends| == |l|
  {
    seq(|l|, k requires 0 <= k < |l| => FarEnd(E, m, l[k]))
  }

  /** The list of v leads to its neighbors, in this order. */
  ghost predicate Leads(E: seq<Edge>, m: nat, v: nat, l: seq<nat>) {
    FarEnds(E, m, l) == Neighbors(E, v)
  }

  lemma NeighborsMore(E: seq<Edge>, ed: Edge, v: nat)
    ensures Neighbors(E + [ed], v) ==
      var l1 := if ed.src == v then [ed.dst] + Neighbors(E, v) else Neighbors(E, v);
      if ed.dst == v then [ed.src] + l1 else l1
  {
    assert (E + [ed])[..|E|] == E;
  }

  lemma SameEnds(E: seq<Edge>, m: nat, v: nat, l: seq<nat>, ed: Edge)
    requires |E| < m && Incident(E, m, v, l)
    ensures FarEnds(E + [ed], m, l) == FarEnds(E, m, l)
  {
    forall k | 0 <= k < |l|
      ensures FarEnd(E + [ed], m, l[k]) == FarEnd(E, m, l[k])
    {
      assert l[k] in l;
      assert IsHalf(E, m, v, l[k]);
    }
  }

  lemma OneMoreEnd(E: seq<Edge>, m: nat, h: nat, l: seq<nat>)
    ensures FarEnds(E, m, [h] + l) == [FarEnd(E, m, h)] + FarEnds(E, m, l)
  {
  }

  lemma PushedLeads(E: seq<Edge>, m: nat, v: nat, l: seq<nat>, ed: Edge)
    requires |E| < m && Incident(E, m, v, l) && Leads(E, m, v, l)
    ensures Leads(E + [ed], m, v, Pushed(l, |E|, m, ed, v))
  {
    hide Neighbors, Incident, FarEnds;
    var e, E' := |E|, E + [ed];
    NeighborsMore(E, ed, v);
    SameEnds(E, m, v, l, ed);
    OneMoreEnd(E', m, e, l);
    var l1 := if ed.src == v then [e] + l else l;
    OneMoreEnd(E', m, e + m, l1);
  }

  lemma NeighborAt(E: seq<Edge>, m: nat, v: nat, l: seq<nat>, k: nat)
    requires |E| <= m && Incident(E, m, v, l) && Leads(E, m, v, l) && k < |l| == |Neighbors(E, v)|
    ensures l[k] < 2 * m && AbsEdge(l[k], m) < |E|
    ensures Opposite(E[AbsEdge(l[k], m)], v) == Neighbors(E, v)[k]
  {
    ListEntry(E, m, v, l, k);
  }

  ghost predicate Threaded(E: seq<Edge>, m: nat, lists: seq<seq<nat>>, first: seq<uint32>, next: seq<uint32>) {
    && |lists| == |first|
    && (forall v :: 0 <= v < |first| ==> Incident(E, m, v, lists[v]))
    && (forall v :: 0 <= v < |first| ==> Linked(next, first[v], lists[v]))
    && (forall v :: 0 <= v < |first| ==> Leads(E, m, v, lists[v]))
  }

  /** The adjacency lists after adding ed as edge number e. */
  ghost function PushedLists(lists: seq<seq<nat>>, e: nat, m: nat, ed: Edge): seq<seq<nat>> {
    seq(|lists|, v requires 0 <= v < |lists| => Pushed(lists[v], e, m, ed, v))
  }

  lemma PushedThreads(E: seq<Edge>, m: nat, lists: seq<seq<nat>>, ed: Edge, first: seq<uint32>, next: seq<uint32>,
                      first1: seq<uint32>, next1: seq<uint32>, first2: seq<uint32>, next2: seq<uint32>)
    requires |E| < m && 2 * m < EMPTY && |next| == 2 * m
    requires ed.src < |first| && ed.dst < |first| && Threaded(E, m, lists, first, next)
    requires first1 == first[ed.src := |E|] && next1 == next[|E| := first[ed.src]]
    requires first2 == first1[ed.dst := |E| + m] && next2 == next1[|E| + m := first1[ed.dst]]
    ensures Threaded(E + [ed], m, PushedLists(lists, |E|, m, ed), first2, next2)
  {
    var e := |E|;
    var lists' := PushedLists(lists, e, m, ed);
    forall v | 0 <= v < |first|
      ensures Incident(E + [ed], m, v, lists'[v]) && Linked(next2, first2[v], lists'[v])
      ensures Leads(E + [ed], m, v, lists'[v])
    {
      PushedLeads(E, m, v, lists[v], ed);
      PushedIncident(E, m, v, lists[v], ed);
      assert !IsHalf(E, m, v, e) && !IsHalf(E, m, v, e + m);
      PushedLinked(next, next1, next2, first[v], first1[v], lists[v], e, m, ed, v);
    }
  }

  /** The edges not marked in the bitmap. */
  ghost function Live(n: nat, deleted: seq<bool>): set<nat> {
    set e | e in Below(n) && e < |deleted| && !deleted[e]
  }

  lemma LiveEdges(n: nat, deleted: seq<bool>)
    requires n <= |deleted|
    ensures forall i :: 0 <= i < n ==> (i in Live(n, deleted) <==> !deleted[i])
    ensures (forall i :: 0 <= i < n ==> deleted[i]) ==> Live(n, deleted) == {}
  {
  }

  /** The vertices whose bit is set. */
  ghost function Marked(bits: seq<bool>): set<nat> {
    set v | v in Below(|bits|) && bits[v]
  }

  lemma MarkedBit(bits: seq<bool>, v: nat)
    requires v < |bits|
    ensures v in Marked(bits) <==> bits[v]
  {
  }

  lemma MarkedNone(bits: seq<bool>)
    requires forall v :: 0 <= v < |bits| ==> !bits[v]
    ensures Marked(bits) == {}
  {
  }

  lemma MarkedSet(bits: seq<bool>, bits': seq<bool>, v: nat)
    requires v < |bits| && bits' == bits[v := true]
    ensures Marked(bits') == Marked(bits) + {v}
  {
  }

  lemma MarkedMore(bits: seq<bool>, v: nat)
    requires v < |bits| && !bits[v]
    ensures |Marked(bits[v := true])| == |Marked(bits)| + 1
    ensures |Marked(bits)| < |bits|
  {
    assert Marked(bits[v := true]) == Marked(bits) + {v};
    SubsetSize(Marked(bits[v := true]), Below(|bits|));
  }

  /** The bits set are those of the vertices that an edge of core below i touches. */
  ghost predicate MarksBelow(E: seq<Edge>, core: set<nat>, i: nat, mark: seq<bool>) {
    forall v :: 0 <= v < |mark| ==> (mark[v] <==> TouchedBelow(E, core, i, v))
  }

  lemma MarkStep(E: seq<Edge>, core: set<nat>, i: nat, mark: seq<bool>, mark': seq<bool>)
    requires i < |E| && E[i].src < |mark| && E[i].dst < |mark| && MarksBelow(E, core, i, mark)
    requires mark' == if i in core then mark[E[i].dst := true][E[i].src := true] else mark
    ensures MarksBelow(E, core, i + 1, mark')
  {
    forall v | 0 <= v < |mark'|
      ensures mark'[v] <==> TouchedBelow(E, core, i + 1, v)
    {
      TouchedBelowNext(E, core, i, v);
    }
  }

  /** Between deletions, started from d0: no vertex up to v is pendant, except perhaps w. */
  ghost predicate PeelState(E: seq<Edge>, d0: seq<bool>, d: seq<bool>, v: nat, w: int) {
    && |d| == |d0|
    && CoresKept(E, Live(|E|, d0), Live(|E|, d))
    && (forall u :: 0 <= u <= v && u != w ==> NoPendantAt(E, Live(|E|, d), u))
    && (forall i :: |E| <= i < |d| ==> d[i] == d0[i])
  }

  /** Deleting the pendant edge f of v1 can make only its far end pendant. */
  lemma PeelStep(E: seq<Edge>, d0: seq<bool>, d: seq<bool>, d': seq<bool>, v: nat, v1: nat, f: nat)
    requires PeelState(E, d0, d, v, v1) && Pendant(E, Live(|E|, d), v1, f) && d' == d[f := true]
    ensures PeelState(E, d0, d', v, Opposite(E[f], v1))
    ensures |Live(|E|, d')| < |Live(|E|, d)|
  {
    var S := Live(|E|, d);
    assert Live(|E|, d') == S - {f};
    DeletePendant(E, S, v1, f);
    CoresKeptTransitive(E, Live(|E|, d0), S, S - {f});
    forall u | 0 <= u <= v && u != Opposite(E[f], v1)
      ensures NoPendantAt(E, S - {f}, u)
    {
      DeletePendantElsewhere(E, S, v1, f, u);
    }
  }

  lemma PeelBegins(E: seq<Edge>, d: seq<bool>, v: nat)
    requires forall u :: 0 <= u < v ==> NoPendantAt(E, Live(|E|, d), u)
    ensures PeelState(E, d, d, v, v)
    ensures NoPendantAt(E, Live(|E|, d), v) ==> PeelState(E, d, d, v, -1)
  {
    hide NoPendantAt;
  }

  lemma PeelEnds(E: seq<Edge>, d0: seq<bool>, d: seq<bool>, v: nat, w: nat)
    requires PeelState(E, d0, d, v, w) && NoPendantAt(E, Live(|E|, d), w)
    ensures PeelState(E, d0, d, v, -1)
  {
    hide NoPendantAt;
  }

  lemma PendantEnd(E: seq<Edge>, d: seq<bool>, v: nat, f: nat)
    requires Pendant(E, Live(|E|, d), v, f)
    ensures f < |E| && f < |d| && Touches(E[f], v)
  {
  }

  ghost predicate IsLive(m: nat, deleted: seq<bool>, h: nat) {
    h < 2 * m && AbsEdge(h, m) < |deleted| && !deleted[AbsEdge(h, m)]
  }

  /** Exactly one live half-edge at v: its edge is pendant there. */
  lemma OneLiveHalf(E: seq<Edge>, m: nat, v: nat, l: seq<nat>, deleted: seq<bool>, p: nat)
    requires |E| <= m == |deleted| && Incident(E, m, v, l) && p < |l| && IsLive(m, deleted, l[p])
    requires forall i :: 0 <= i < |l| && i != p ==> !IsLive(m, deleted, l[i])
    ensures Pendant(E, Live(|E|, deleted), v, AbsEdge(l[p], m))
  {
    ListEntry(E, m, v, l, p);
    var f := AbsEdge(l[p], m);
    var h := if l[p] == f then f + m else f;
    assert IsLoop(E[f]) ==> IsHalf(E, m, v, h);
    forall e | e in Live(|E|, deleted) && Touches(E[e], v)
      ensures e == f
    {
      var k := ListPosition(E, m, v, l, e);
      assert IsLive(m, deleted, l[k]);
    }
  }

  /** No live half-edge at v, or two of them: nothing is pendant there. */
  lemma NotOneLiveHalf(E: seq<Edge>, m: nat, v: nat, l: seq<nat>, deleted: seq<bool>, p: nat, q: nat)
    requires |E| <= m == |deleted| && Incident(E, m, v, l)
    requires (forall i :: 0 <= i < |l| ==> !IsLive(m, deleted, l[i]))
      || (p < q < |l| && IsLive(m, deleted, l[p]) && IsLive(m, deleted, l[q]))
    ensures NoPendantAt(E, Live(|E|, deleted), v)
  {
    var S := Live(|E|, deleted);
    forall f | f in S
      ensures !Pendant(E, S, v, f)
    {
      if Touches(E[f], v) {
        var k := ListPosition(E, m, v, l, f);
        assert IsLive(m, deleted, l[k]);
        ListEntry(E, m, v, l, p);
        ListEntry(E, m, v, l, q);
        assert AbsEdge(l[p], m) in S && AbsEdge(l[q], m) in S;
        assert l[p] != l[q];
      }
    }
  }

  datatype Iterator = Iterator(vertex: uint32, edge: uint32)

  class Graph {
    const nnodes: uint32
    const nedges: uint32
    const edges: array<uint32>
    const first: array<uint32>
    const next: array<uint32>
    var cedges: uint32
    var criticalNodes: array<bool>
    var ncriticalNodes: uint32

    ghost var E: seq<Edge>         // the edges added so far
    ghost var lists: seq<seq<nat>> // the half-edges at each vertex, in list order

    ghost predicate Allocated()
    {
      && 2 * nedges < EMPTY
      && edges.Length == next.Length == 2 * nedges && first.Length == nnodes
      && edges != first && edges != next && first != next
    }

    ghost predicate Valid()
      reads this, edges, first, next
    {
      && Allocated() && cedges == |E| <= nedges && InGraph(E, nnodes)
      && Ends(E, nedges, edges[..])
      && Threaded(E, nedges, lists, first[..], next[..])
    }

    constructor (nnodes: uint32, nedges: uint32)
      requires 2 * nedges < EMPTY
      ensures Valid() && this.nnodes == nnodes && this.nedges == nedges && E == []
      ensures fresh(edges) && fresh(first) && fresh(next) && fresh(criticalNodes)
    {
      this.nnodes, this.nedges := nnodes, nedges;
      edges := new uint32[2 * nedges];
      next := new uint32[2 * nedges];
      first := new uint32[nnodes];
      criticalNodes := new bool[0];
      ncriticalNodes := 0;
      cedges := 0;
      new;
      ClearEdges();
    }

    method ClearEdges()
      requires Allocated()
      modifies this`cedges, this`E, this`lists, edges, first, next
      ensures Valid() && E == []
    {
      for i := 0 to nnodes
        invariant forall v :: 0 <= v < i ==> first[v] == EMPTY
      {
        first[i] := EMPTY;
      }
      for i := 0 to 2 * nedges
        invariant forall v :: 0 <= v < nnodes ==> first[v] == EMPTY
      {
        edges[i] := EMPTY;
        next[i] := EMPTY;
      }
      cedges := 0;
      E, lists := [], seq(nnodes, v => []);
    }

    lemma Sizes()
      requires Valid()
      ensures cedges == |E| <= nedges && 2 * nedges < EMPTY && InGraph(E, nnodes)
    {
    }

    lemma EndsOf(f: nat)
      requires Valid() && f < |E|
      ensures |E| <= nedges && edges.Length == 2 * nedges && E[f].src < nnodes && E[f].dst < nnodes
      ensures edges[f] == E[f].dst && edges[f + nedges] == E[f].src
    {
    }

    /** What a caller needs to walk the list of v. */
    lemma ListFacts(v: nat)
      requires Valid() && v < nnodes
      ensures cedges == |E| <= nedges && 2 * nedges < EMPTY && InGraph(E, nnodes) && first.Length == nnodes
      ensures v < |lists| && first[v] == Item(lists[v], 0) && Incident(E, nedges, v, lists[v])
      ensures Leads(E, nedges, v, lists[v])
    {
      assert Linked(next[..], first[..][v], lists[v]);
    }

    /** Puts half-edge h, leading to target, in front of the list of v. */
    method PushHalf(h: uint32, v: uint32, target: uint32)
      requires Allocated() && h < 2 * nedges && v < nnodes
      modifies edges, first, next
      ensures first[..] == old(first[..])[v := h]
      ensures next[..] == old(next[..])[h := old(first[v])]
      ensures edges[..] == old(edges[..])[h := target]
    {
      next[h] := first[v];
      first[v] := h;
      edges[h] := target;
    }

    method AddEdge(v1: uint32, v2: uint32)
      requires Valid() && v1 < nnodes && v2 < nnodes && cedges < nedges
      modifies this`cedges, this`E, this`lists, edges, first, next
      ensures Valid() && E == old(E) + [Edge(v1, v2)]
    {
      hide Leads, Incident, Linked;
      var e := cedges;
      ghost var ed, first0, next0, edges0 := Edge(v1, v2), first[..], next[..], edges[..];
      PushHalf(e, v1, v2);
      ghost var first1, next1, edges1 := first[..], next[..], edges[..];
      PushHalf(e + nedges, v2, v1);
      cedges := cedges + 1;
      PushedThreads(E, nedges, lists, ed, first0, next0, first1, next1, first[..], next[..]);
      PushedEnds(E, nedges, ed, edges0, edges1, edges[..]);
      E, lists := E + [ed], PushedLists(lists, e, nedges, ed);
    }

    /** graph_next_neighbor with the iterator at position k of the list of its vertex. */
    method NextNeighbor(it: Iterator, ghost k: nat) returns (ret: uint32, it': Iterator)
      requires Valid() && it.vertex < nnodes && k <= |lists[it.vertex]|
      requires it.edge == Item(lists[it.vertex], k)
      requires k < |lists[it.vertex]| ==>
        var h := lists[it.vertex][k];
        h < nedges || (h - nedges < cedges && !IsLoop(E[h - nedges]))
      ensures k == |lists[it.vertex]| ==> ret == NO_NEIGHBOR && it' == it
      ensures k < |lists[it.vertex]| ==>
        var e := AbsEdge(lists[it.vertex][k], nedges);
        && e < cedges && Touches(E[e], it.vertex)
        && ret == Opposite(E[e], it.vertex) && ret < nnodes
        && it' == Iterator(it.vertex, Item(lists[it.vertex], k + 1))
    {
      if k < |lists[it.vertex]| {
        ListEntry(E, nedges, it.vertex, lists[it.vertex], k);
      }
      if it.edge == EMPTY {
        return NO_NEIGHBOR, it;
      }
      if edges[it.edge] == it.vertex {
        ret := edges[it.edge + nedges];
      } else {
        ret := edges[it.edge];
      }
      it' := Iterator(it.vertex, next[it.edge]);
    }

    function CheckEdge(h: uint32, v1: uint32, v2: uint32): (r: bool)
      requires Valid() && h < 2 * nedges && AbsEdge(h, nedges) < cedges
      reads this, edges, first, next
      ensures r <==> Joins(E[AbsEdge(h, nedges)], v1, v2)
    {
      var e := EdgeOf(h, nedges);
      || (edges[e] == v1 && edges[e + nedges] == v2)
      || (edges[e] == v2 && edges[e + nedges] == v1)
    }

    /** graph_edge_id, called for ends that are known to be joined by an edge. */
    method EdgeId(v1: uint32, v2: uint32) returns (e: uint32)
      requires Valid() && v1 < nnodes
      requires exists f :: 0 <= f < cedges && Joins(E[f], v1, v2)
      ensures e < cedges && Joins(E[e], v1, v2)
    {
      ghost var l := lists[v1];
      ghost var f :| 0 <= f < cedges && Joins(E[f], v1, v2);
      ghost var last := ListPosition(E, nedges, v1, l, f);
      ghost var k := 0;
      var h := first[v1];
      ListEntry(E, nedges, v1, l, k);
      while !CheckEdge(h, v1, v2)
        invariant k <= last && h == l[k]
        invariant h < 2 * nedges && AbsEdge(h, nedges) < cedges
        decreases last - k
      {
        h := next[h];
        k := k + 1;
        ListEntry(E, nedges, v1, l, k);
      }
      e := EdgeOf(h, nedges);
    }

    method ContainsEdge(v1: uint32, v2: uint32) returns (r: bool)
      requires Valid() && v1 < nnodes
      ensures r <==> exists f :: 0 <= f < cedges && Joins(E[f], v1, v2)
    {
      ghost var l := lists[v1];
      ghost var k := 0;
      var h := first[v1];
      while h != EMPTY
        invariant k <= |l| && h == Item(l, k)
        invariant forall i :: 0 <= i < k ==>
          AbsEdge(l[i], nedges) < cedges && !Joins(E[AbsEdge(l[i], nedges)], v1, v2)
        decreases |l| - k
      {
        ListEntry(E, nedges, v1, l, k);
        if CheckEdge(h, v1, v2) {
          return true;
        }
        h := next[h];
        k := k + 1;
      }
      assert k == |l|;
      forall f | 0 <= f < cedges
        ensures !Joins(E[f], v1, v2)
      {
        if Joins(E[f], v1, v2) {
          var p := ListPosition(E, nedges, v1, l, f);
        }
      }
      r := false;
    }

    /** Whether v has exactly one live edge, and which (named by one of its half-edges). */
    method FindDegree1Edge(v: uint32, deleted: array<bool>) returns (found: bool, e: uint32)
      requires Valid() && v < nnodes && deleted.Length == nedges
      ensures found ==> e < 2 * nedges && Pendant(E, Live(|E|, deleted[..]), v, AbsEdge(e, nedges))
      ensures !found ==> NoPendantAt(E, Live(|E|, deleted[..]), v)
    {
      hide Pendant, NoPendantAt, Leads;
      ghost var l, d := lists[v], deleted[..];
      var edge := first[v];
      found, e := false, 0;
      ghost var k, p := 0, 0;
      if edge == EMPTY {
        if l != [] {
          ListEntry(E, nedges, v, l, 0);
        }
        NotOneLiveHalf(E, nedges, v, l, d, 0, 0);
        return;
      }
      ListEntry(E, nedges, v, l, 0);
      if !deleted[EdgeOf(edge, nedges)] {
        found, e := true, edge;
      }
      while true
        invariant k < |l| && edge == l[k]
        invariant found ==> p <= k && e == l[p] && IsLive(nedges, d, l[p])
        invariant forall i :: 0 <= i <= k && !(found && i == p) ==> !IsLive(nedges, d, l[i])
        decreases |l| - k
      {
        ListEntry(E, nedges, v, l, k);
        edge := next[edge];
        k := k + 1;
        if k < |l| {
          ListEntry(E, nedges, v, l, k);
        }
        if edge == EMPTY {
          break;
        }
        if deleted[EdgeOf(edge, nedges)] {
          continue;
        }
        if found {
          NotOneLiveHalf(E, nedges, v, l, d, p, k);
          found := false;
          return;
        }
        found, e := true, edge;
        p := k;
      }
      if found {
        ListEntry(E, nedges, v, l, p);
        OneLiveHalf(E, nedges, v, l, d, p);
      } else {
        NotOneLiveHalf(E, nedges, v, l, d, 0, 0);
      }
    }

    /** Deletes the path of degree-one vertices that starts at v. */
    method CyclicDelEdge(v: uint32, deleted: array<bool>)
      requires Valid() && v < nnodes && deleted.Length == nedges
      requires forall u :: 0 <= u < v ==> NoPendantAt(E, Live(|E|, deleted[..]), u)
      modifies deleted
      ensures PeelState(E, old(deleted[..]), deleted[..], v, -1)
    {
      hide Graph.Valid, PeelState, NoPendantAt, Pendant;
      ghost var d0 := deleted[..];
      Sizes();
      PeelBegins(E, d0, v);
      var v1: uint32 := v;
      var degree1: bool, e: uint32 := FindDegree1Edge(v1, deleted);
      if !degree1 {
        return;
      }
      while true
        invariant v1 < nnodes && e < 2 * nedges
        invariant PeelState(E, d0, deleted[..], v, v1)
        invariant Pendant(E, Live(|E|, deleted[..]), v1, AbsEdge(e, nedges))
        decreases |Live(|E|, deleted[..])|
      {
        ghost var d := deleted[..];
        var f := EdgeOf(e, nedges);
        PendantEnd(E, d, v1, f);
        EndsOf(f);
        deleted[f] := true;

        var v2: uint32 := edges[f];
        if v2 == v1 {
          v2 := edges[f + nedges];
        }
        PeelStep(E, d0, d, deleted[..], v, v1, f);
        degree1, e := FindDegree1Edge(v2, deleted);
        if degree1 {
          v1 := v2;
        } else {
          PeelEnds(E, d0, deleted[..], v, v2);
          break;
        }
      }
    }

    /** The pass over all vertices that both callers run: what stays unmarked is the 2-core. */
    method Peel() returns (deleted: array<bool>)
      requires Valid()
      ensures fresh(deleted) && deleted.Length == nedges
      ensures IsCore(E, Live(|E|, deleted[..]))
      ensures forall e :: cedges <= e < nedges ==> !deleted[e]
    {
      deleted := new bool[nedges](_ => false);
      ghost var d0 := deleted[..];
      assert Live(|E|, d0) == Below(|E|);
      for v := 0 to nnodes
        invariant PeelState(E, d0, deleted[..], v, v)
      {
        ghost var d := deleted[..];
        CyclicDelEdge(v, deleted);
        CoresKeptTransitive(E, Live(|E|, d0), Live(|E|, d), Live(|E|, deleted[..]));
      }
      PeeledIsCore(E, nnodes, Live(|E|, deleted[..]));
    }

    /** A graph is reported cyclic when it has a cycle, or when fewer edges were added than announced. */
    method IsCyclic() returns (r: bool)
      requires Valid()
      ensures r <==> cedges < nedges || HasCycle(E)
      ensures !r ==> Forest(E)
    {
      hide Graph.Valid, IsCore, HasCycle, Forest, Live;
      Sizes();
      var deleted := Peel();
      ghost var S := Live(|E|, deleted[..]);
      CyclicIffCore(E, nnodes, S);
      LiveEdges(|E|, deleted[..]);
      assert cedges < nedges ==> !deleted[cedges];
      for i := 0 to nedges
        invariant forall e :: 0 <= e < i ==> deleted[e]
      {
        if !deleted[i] {
          assert i < cedges ==> i in S;
          return true;
        }
      }
      assert S == {};
      r := false;
    }

    /** Sets the bit of v and counts it, unless it is set already. */
    method MarkCritical(v: uint32)
      requires v < criticalNodes.Length < EMPTY && ncriticalNodes == |Marked(criticalNodes[..])|
      modifies this`ncriticalNodes, criticalNodes
      ensures criticalNodes[..] == old(criticalNodes[..])[v := true]
      ensures ncriticalNodes == |Marked(criticalNodes[..])|
    {
      if !criticalNodes[v] {
        MarkedMore(criticalNodes[..], v);
        ncriticalNodes := ncriticalNodes + 1;
        criticalNodes[v] := true;
        assert criticalNodes[..] == old(criticalNodes[..])[v := true];
      }
    }

    /** Marks and counts the ends of the edges that survived. */
    method MarkEnds(deleted: array<bool>)
      requires Allocated() && nnodes < EMPTY && cedges == |E| == nedges
      requires InGraph(E, nnodes) && Ends(E, nedges, edges[..])
      requires criticalNodes.Length == nnodes && deleted.Length == nedges && deleted != criticalNodes
      modifies this`ncriticalNodes, criticalNodes
      requires forall v :: 0 <= v < nnodes ==> !criticalNodes[v]
      ensures MarksBelow(E, Live(|E|, deleted[..]), |E|, criticalNodes[..])
      ensures ncriticalNodes == |Marked(criticalNodes[..])|
    {
      ncriticalNodes := 0;
      MarkedNone(criticalNodes[..]);
      ghost var core := Live(|E|, deleted[..]);
      for i := 0 to nedges
        invariant ncriticalNodes == |Marked(criticalNodes[..])|
        invariant MarksBelow(E, core, i, criticalNodes[..])
      {
        ghost var mark := criticalNodes[..];
        assert !deleted[i] <==> i in core;
        assert E[i] == Edge(edges[i + nedges], edges[i]);
        if !deleted[i] {
          MarkCritical(edges[i]);
          MarkCritical(edges[i + nedges]);
        }
        MarkStep(E, core, i, mark, criticalNodes[..]);
      }
    }

    /** Marks the vertices of the 2-core and counts them. */
    method ObtainCriticalNodes() returns (ghost core: set<nat>)
      requires Valid() && cedges == nedges && nnodes < EMPTY
      modifies this`criticalNodes, this`ncriticalNodes
      ensures Valid() && fresh(criticalNodes) && criticalNodes.Length == nnodes
      ensures IsCore(E, core) && MarksBelow(E, core, |E|, criticalNodes[..])
      ensures ncriticalNodes == |Marked(criticalNodes[..])|
    {
      var deleted := Peel();
      core := Live(|E|, deleted[..]);
      criticalNodes := new bool[nnodes](_ => false);
      MarkEnds(deleted);
    }
  }
}
