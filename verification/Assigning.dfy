/**
 The assigning steps of bdz.c and bdz_ph.c: going through the peeled edges backwards, each edge
 gets a vertex that no edge handled before it touches, and its value steers the edge's sum there.
 */
module Assigning {
  import opened Words
  import opened Counting
  import opened Hypergraph
  import opened Bits
  import opened TwoBit

  const UNASSIGNED := 3

  /** The vertex that the values of an edge's vertices select. */
  function Chosen(val: seq<nat>, t: Triple): uint32
    requires t.v0 < |val| && t.v1 < |val| && t.v2 < |val|
  {
    t.Get((val[t.v0] + val[t.v1] + val[t.v2]) % 3)
  }

  ghost predicate Shape(E: seq<Triple>, q: seq<nat>, n: nat, val: seq<nat>) {
    n <= |val| && InGraph(E, n) && Bounded(q, |E|)
  }

  ghost predicate Touched(E: seq<Triple>, q: seq<nat>, i: nat, v: nat)
    requires Bounded(q, |E|)
  {
    exists j :: i <= j < |q| && E[q[j]].Has(v)
  }

  ghost function ChosenAt(E: seq<Triple>, q: seq<nat>, n: nat, val: seq<nat>, j: nat): nat
    requires Shape(E, q, n, val) && j < |q|
  {
    Chosen(val, E[q[j]])
  }

  /** Edge q[j] selects an assigned vertex, and no later edge of the queue has it. */
  ghost predicate Owns(E: seq<Triple>, q: seq<nat>, n: nat, val: seq<nat>, j: nat)
    requires Shape(E, q, n, val) && j < |q|
  {
    var c := ChosenAt(E, q, n, val, j);
    c < |val| && val[c] < 3 && forall k :: j < k < |q| ==> !E[q[k]].Has(c)
  }

  ghost predicate Owned(E: seq<Triple>, q: seq<nat>, n: nat, val: seq<nat>, i: nat, v: nat)
    requires Shape(E, q, n, val)
  {
    exists j :: i <= j < |q| && ChosenAt(E, q, n, val, j) == v
  }

  /** The edges q[i..] were handled; blank is the value of vertices without one, 3 or 0. */
  ghost predicate Assigned(E: seq<Triple>, q: seq<nat>, i: nat, val: seq<nat>, marked: seq<bool>, blank: nat) {
    && Shape(E, q, |marked|, val) && i <= |q| && blank % 3 == 0 && blank <= 3
    && (forall v :: 0 <= v < |val| ==> val[v] <= 3)
    && (forall v :: 0 <= v < |marked| ==> (marked[v] <==> Touched(E, q, i, v)))
    && (forall v :: 0 <= v < |val| && (v < |marked| ==> !marked[v]) ==> val[v] == blank)
    && (forall j :: i <= j < |q| ==> Owns(E, q, |marked|, val, j))
    && (forall v :: 0 <= v < |val| && val[v] != blank ==> Owned(E, q, |marked|, val, i, v))
  }

  /** The value of the p-th vertex that steers the sum of an edge to it. */
  function Steer(p: nat, x: nat, y: nat): nat
    requires p < 3 && x <= 3 && y <= 3
  {
    (6 + p - (x + y)) % 3
  }

  /** Setting an unmarked vertex of the next edge so that the edge's sum selects it. */
  ghost predicate Sets(E: seq<Triple>, e: nat, marked: seq<bool>, val: seq<nat>, val': seq<nat>, marked': seq<bool>) {
    && e < |E| && |marked'| == |marked| <= |val| && InGraph(E, |marked|)
    && (forall v :: 0 <= v < |marked| ==> (marked'[v] <==> marked[v] || E[e].Has(v)))
    && exists p: nat :: p < 3 && SetsAt(E[e], marked, val, val', p)
  }

  ghost predicate SetsAt(t: Triple, marked: seq<bool>, val: seq<nat>, val': seq<nat>, p: nat)
    requires p < 3
  {
    var x := t.Get(p);
    && x < |marked| <= |val| && t.v0 < |val| && t.v1 < |val| && t.v2 < |val| && !marked[x]
    && var a, b := t.Get((p + 1) % 3), t.Get((p + 2) % 3);
       val[a] <= 3 && val[b] <= 3 && val' == val[x := Steer(p, val[a], val[b])]
  }

  lemma SteerSum(t: Triple, marked: seq<bool>, val: seq<nat>, val': seq<nat>, p: nat)
    requires p < 3 && t.Different() && SetsAt(t, marked, val, val', p)
    ensures |val'| == |val| && Chosen(val', t) == t.Get(p) && val'[t.Get(p)] < 3
  {
    hide Steer;
    var a, b := t.Get((p + 1) % 3), t.Get((p + 2) % 3);
    SteerMod(p, val[a], val[b]);
  }

  lemma SteerMod(p: nat, x: nat, y: nat)
    requires p < 3 && x <= 3 && y <= 3
    ensures Steer(p, x, y) < 3 && (Steer(p, x, y) + x + y) % 3 == p
  {
    var k := (6 + p - (x + y)) / 3;
    assert Steer(p, x, y) + x + y == 3 * (2 - k) + p;
  }

  /** An edge whose vertices keep their values keeps its vertex. */
  lemma OwnsKeeps(E: seq<Triple>, q: seq<nat>, n: nat, val: seq<nat>, val': seq<nat>, j: nat, x: nat, w: nat)
    requires Shape(E, q, n, val) && j < |q| && Owns(E, q, n, val, j)
    requires x < |val| && val' == val[x := w] && !E[q[j]].Has(x)
    ensures Shape(E, q, n, val') && ChosenAt(E, q, n, val', j) == ChosenAt(E, q, n, val, j)
    ensures Owns(E, q, n, val', j)
  {
    var t := E[q[j]];
    assert t.v0 < n && t.v1 < n && t.v2 < n;
    assert val'[t.v0] == val[t.v0] && val'[t.v1] == val[t.v1] && val'[t.v2] == val[t.v2];
  }

  lemma TouchedStep(E: seq<Triple>, q: seq<nat>, i: nat, v: nat)
    requires Bounded(q, |E|) && 0 < i <= |q|
    ensures Touched(E, q, i - 1, v) <==> Touched(E, q, i, v) || E[q[i - 1]].Has(v)
  {
    if E[q[i - 1]].Has(v) {
      assert Touched(E, q, i - 1, v);
    }
    if Touched(E, q, i, v) {
      var j :| i <= j < |q| && E[q[j]].Has(v);
      assert i - 1 <= j;
    }
  }

  lemma OwnedStep(E: seq<Triple>, q: seq<nat>, n: nat, val: seq<nat>, val': seq<nat>, i: nat, x: nat, v: nat)
    requires Shape(E, q, n, val) && Shape(E, q, n, val') && 0 < i <= |q|
    requires forall j :: i <= j < |q| ==> ChosenAt(E, q, n, val', j) == ChosenAt(E, q, n, val, j)
    requires ChosenAt(E, q, n, val', i - 1) == x
    requires v == x || Owned(E, q, n, val, i, v)
    ensures Owned(E, q, n, val', i - 1, v)
  {
    if v != x {
      var j :| i <= j < |q| && ChosenAt(E, q, n, val, j) == v;
      assert ChosenAt(E, q, n, val', j) == v;
    }
  }

  /** The vertex that is set. */
  lemma SetsOne(E: seq<Triple>, q: seq<nat>, i: nat, val: seq<nat>, marked: seq<bool>, blank: nat, val': seq<nat>,
                marked': seq<bool>)
    returns (x: nat)
    requires Assigned(E, q, i, val, marked, blank) && 0 < i && Sets(E, q[i - 1], marked, val, val', marked')
    ensures x < |marked| <= |val| && !marked[x] && !Touched(E, q, i, x)
    ensures |val'| == |val| && val'[x] < 3 && val' == val[x := val'[x]]
    ensures q[i - 1] < |E| && E[q[i - 1]].Has(x) && Shape(E, q, |marked|, val) && Shape(E, q, |marked|, val')
    ensures ChosenAt(E, q, |marked|, val', i - 1) == x
  {
    hide Chosen, Owns, Owned, Touched, InGraph, Steer;
    var n, t := |marked|, E[q[i - 1]];
    assert t.Different() && t.v0 < n && t.v1 < n && t.v2 < n by { InGraphAt(E, n, q[i - 1]); }
    var p: nat :| p < 3 && SetsAt(t, marked, val, val', p);
    x := t.Get(p);
    SteerSum(t, marked, val, val', p);
  }

  lemma MarksStep(E: seq<Triple>, q: seq<nat>, i: nat, val: seq<nat>, marked: seq<bool>, blank: nat, val': seq<nat>,
                  marked': seq<bool>)
    requires Assigned(E, q, i, val, marked, blank) && 0 < i && Sets(E, q[i - 1], marked, val, val', marked')
    ensures |marked'| == |marked|
    ensures forall v :: 0 <= v < |marked'| ==> (marked'[v] <==> marked[v] || E[q[i - 1]].Has(v))
    ensures forall v :: 0 <= v < |marked'| ==> (marked'[v] <==> Touched(E, q, i - 1, v))
  {
    hide Touched, Owns, Owned, InGraph, SetsAt;
    forall v | 0 <= v < |marked'|
      ensures marked'[v] <==> Touched(E, q, i - 1, v)
    {
      TouchedStep(E, q, i, v);
    }
  }

  lemma OwnersStep(E: seq<Triple>, q: seq<nat>, i: nat, val: seq<nat>, marked: seq<bool>, blank: nat, val': seq<nat>,
                   x: nat)
    requires Assigned(E, q, i, val, marked, blank) && 0 < i
    requires x < |val| && !Touched(E, q, i, x) && |val'| == |val| && val'[x] < 3 && val' == val[x := val'[x]]
    requires Shape(E, q, |marked|, val') && ChosenAt(E, q, |marked|, val', i - 1) == x
    ensures forall j :: i - 1 <= j < |q| ==> Owns(E, q, |marked|, val', j)
    ensures forall v :: 0 <= v < |val'| && val'[v] != blank ==> Owned(E, q, |marked|, val', i - 1, v)
  {
    hide Chosen, ChosenAt, Owns, Owned, Touched, InGraph;
    var n := |marked|;
    forall j | i <= j < |q|
      ensures ChosenAt(E, q, n, val', j) == ChosenAt(E, q, n, val, j) && Owns(E, q, n, val', j)
    {
      Untouched(E, q, i, x, j);
      assert Owns(E, q, n, val, j);
      OwnsKeeps(E, q, n, val, val', j, x, val'[x]);
    }
    OwnsNow(E, q, n, val', i, x);
    forall v | 0 <= v < |val'| && val'[v] != blank
      ensures Owned(E, q, n, val', i - 1, v)
    {
      assert v == x || val[v] != blank;
      OwnedStep(E, q, n, val, val', i, x, v);
    }
  }

  lemma AssignStep(E: seq<Triple>, q: seq<nat>, i: nat, val: seq<nat>, marked: seq<bool>, blank: nat,
                   val': seq<nat>, marked': seq<bool>)
    requires Assigned(E, q, i, val, marked, blank) && 0 < i && Sets(E, q[i - 1], marked, val, val', marked')
    ensures Assigned(E, q, i - 1, val', marked', blank)
  {
    var x := SetsOne(E, q, i, val, marked, blank, val', marked');
    MarksStep(E, q, i, val, marked, blank, val', marked');
    OwnersStep(E, q, i, val, marked, blank, val', x);
    hide Chosen, ChosenAt, Owns, Owned, Touched, InGraph, Sets;
  }

  lemma InGraphAt(E: seq<Triple>, n: nat, e: nat)
    requires InGraph(E, n) && e < |E|
    ensures E[e].Different() && E[e].v0 < n && E[e].v1 < n && E[e].v2 < n
  {
  }

  lemma Untouched(E: seq<Triple>, q: seq<nat>, i: nat, x: nat, j: nat)
    requires Bounded(q, |E|) && !Touched(E, q, i, x) && i <= j < |q|
    ensures !E[q[j]].Has(x)
  {
  }

  lemma OwnsNow(E: seq<Triple>, q: seq<nat>, n: nat, val: seq<nat>, i: nat, x: nat)
    requires Shape(E, q, n, val) && 0 < i <= |q| && !Touched(E, q, i, x)
    requires ChosenAt(E, q, n, val, i - 1) == x && x < |val| && val[x] < 3
    ensures Owns(E, q, n, val, i - 1)
  {
  }

  /** A peeling order leaves the next edge a vertex that is not marked. */
  lemma SomeUnmarked(E: seq<Triple>, q: seq<nat>, i: nat, val: seq<nat>, marked: seq<bool>, blank: nat)
    requires PeelOrder(E, q) && Assigned(E, q, i, val, marked, blank) && 0 < i
    ensures q[i - 1] < |E|
    ensures E[q[i - 1]].Different()
    ensures E[q[i - 1]].v0 < |marked| && E[q[i - 1]].v1 < |marked| && E[q[i - 1]].v2 < |marked|
    ensures !(marked[E[q[i - 1]].v0] && marked[E[q[i - 1]].v1] && marked[E[q[i - 1]].v2])
  {
    assert FreshVertex(E, q, i - 1);
    var v: nat :| E[q[i - 1]].Has(v) && forall j :: i - 1 < j < |q| ==> !E[q[j]].Has(v);
    assert !Touched(E, q, i, v);
  }

  lemma AssignStart(E: seq<Triple>, q: seq<nat>, val: seq<nat>, marked: seq<bool>, blank: nat)
    requires Shape(E, q, |marked|, val) && (blank == 0 || blank == 3)
    requires (forall v :: 0 <= v < |val| ==> val[v] == blank) && forall v :: 0 <= v < |marked| ==> !marked[v]
    ensures Assigned(E, q, |q|, val, marked, blank)
  {
  }

  // ---- the loops ---------------------------------------------------------------------------------

  lemma ValueAt(t: seq<uint8>, v: nat)
    requires v < 4 * |t|
    ensures GetValue(t, v) == Values(t)[v] <= 3
  {
    ValuesSmall(t);
  }

  lemma KeepBlank(val: seq<nat>, v: nat)
    requires v < |val| && val[v] == 3
    ensures val[v := And(val[v], 3)] == val
  {
    AndSmall(3, 3);
  }

  /** The effect of one turn of the loop on the edge t. */
  ghost predicate Handles(t: Triple, marked: seq<bool>, val: seq<nat>, val': seq<nat>, marked': seq<bool>) {
    && |marked'| == |marked| && t.v0 < |marked| && t.v1 < |marked| && t.v2 < |marked|
    && marked' == marked[t.v0 := true][t.v1 := true][t.v2 := true]
    && exists p: nat :: p < 3 && SetsAt(t, marked, val, val', p)
  }

  ghost predicate Ready(t: Triple, marked: seq<bool>, val: seq<nat>, blank: nat) {
    && t.v0 < |marked| && t.v1 < |marked| && t.v2 < |marked| <= |val| && t.Different()
    && (forall v :: 0 <= v < |marked| && !marked[v] ==> val[v] == blank)
    && !(marked[t.v0] && marked[t.v1] && marked[t.v2])
  }

  lemma HandlesSets(E: seq<Triple>, e: nat, marked: seq<bool>, val: seq<nat>, val': seq<nat>, marked': seq<bool>)
    requires e < |E| && |marked| <= |val| && InGraph(E, |marked|) && Handles(E[e], marked, val, val', marked')
    ensures Sets(E, e, marked, val, val', marked')
  {
  }

  /** Marks a vertex that is not marked yet and writes the blank value over it. */
  method Touch(g: array<uint8>, marked: array<bool>, v: nat)
    requires v < marked.Length <= 4 * g.Length
    modifies g, marked
    ensures marked[..] == old(marked[..])[v := true]
    ensures (!old(marked[v]) ==> old(Values(g[..]))[v] == UNASSIGNED) ==> Values(g[..]) == old(Values(g[..]))
  {
    if !marked[v] {
      if Values(g[..])[v] == UNASSIGNED {
        KeepBlank(Values(g[..]), v);
      }
      SetValue1(g, v, UNASSIGNED);
      marked[v] := true;
    }
  }

  ghost predicate At(t: Triple, p: nat, x: nat) {
    if p == 0 then x == t.v0 else if p == 1 then x == t.v1 else p == 2 && x == t.v2
  }

  /** The value the code computes for the p-th vertex. */
  ghost function Wanted(t: Triple, val: seq<nat>, p: nat): int
    requires t.v0 < |val| && t.v1 < |val| && t.v2 < |val|
  {
    var x: int, y: int, z: int := val[t.v0], val[t.v1], val[t.v2];
    if p == 0 then (6 - (y + z)) % 3 else if p == 1 then (7 - (x + z)) % 3 else (8 - (x + y)) % 3
  }

  lemma ReadyFacts(t: Triple, marked: seq<bool>, val: seq<nat>, blank: nat)
    requires Ready(t, marked, val, blank)
    ensures t.v0 < |marked| && t.v1 < |marked| && t.v2 < |marked| <= |val| && t.Different()
    ensures !(marked[t.v0] && marked[t.v1] && marked[t.v2])
    ensures !marked[t.v0] ==> val[t.v0] == blank
    ensures !marked[t.v1] ==> val[t.v1] == blank
    ensures !marked[t.v2] ==> val[t.v2] == blank
  {
  }

  /** Writing the value that the code computes sets the vertex. */
  lemma Steers(t: Triple, marked: seq<bool>, val: seq<nat>, p: nat, x: nat, w: nat, blank: nat)
    requires Ready(t, marked, val, blank) && At(t, p, x) && !marked[x]
    requires val[t.v0] <= 3 && val[t.v1] <= 3 && val[t.v2] <= 3 && w == Wanted(t, val, p)
    ensures val[x] == blank && w < 3 && SetsAt(t, marked, val, val[x := w], p)
  {
  }

  lemma SteersAnd(t: Triple, marked: seq<bool>, val: seq<nat>, p: nat, x: nat, w: nat)
    requires Ready(t, marked, val, UNASSIGNED) && At(t, p, x) && !marked[x]
    requires val[t.v0] <= 3 && val[t.v1] <= 3 && val[t.v2] <= 3 && w == Wanted(t, val, p)
    ensures SetsAt(t, marked, val, val[x := And(val[x], w)], p)
  {
    hide SetsAt, Wanted, And;
    Steers(t, marked, val, p, x, w, UNASSIGNED);
    AndSmall(3, w);
  }

  lemma SteersOr(t: Triple, marked: seq<bool>, val: seq<nat>, p: nat, x: nat, w: nat)
    requires Ready(t, marked, val, 0) && At(t, p, x) && !marked[x]
    requires val[t.v0] <= 3 && val[t.v1] <= 3 && val[t.v2] <= 3 && w == Wanted(t, val, p)
    ensures SetsAt(t, marked, val, val[x := Or(val[x], w)], p)
  {
    hide SetsAt, Wanted, Or;
    Steers(t, marked, val, p, x, w, 0);
    OrSmall(0, w);
  }

  /** The p-th vertex v of t is to get the value w; marked differs from m by the other vertices. */
  ghost predicate CanSettle(t: Triple, m: seq<bool>, marked: seq<bool>, val: seq<nat>, p: nat, v: nat, w: nat,
                            blank: nat) {
    && Ready(t, m, val, blank) && |marked| == |m| && v < |m| && At(t, p, v) && !m[v] && w == Wanted(t, val, p)
    && forall u :: 0 <= u < |m| ==> (u == v || marked[u] <==> m[u] || t.Has(u))
  }

  lemma SettleNow(t: Triple, m: seq<bool>, marked: seq<bool>, val: seq<nat>, p: nat, v: nat, w: nat, blank: nat)
    requires Ready(t, m, val, blank) && |marked| == |m| && v < |m| && At(t, p, v) && !m[v]
    requires t.v0 < |val| && t.v1 < |val| && t.v2 < |val| && w == Wanted(t, val, p)
    requires forall u :: 0 <= u < |m| ==> (u == v || marked[u] <==> m[u] || t.Has(u))
    ensures CanSettle(t, m, marked, val, p, v, w, blank)
  {
  }

  lemma CanSettleFacts(t: Triple, m: seq<bool>, marked: seq<bool>, val: seq<nat>, p: nat, v: nat, w: nat, blank: nat)
    requires CanSettle(t, m, marked, val, p, v, w, blank)
    ensures Ready(t, m, val, blank) && |marked| == |m| && v < |m| && At(t, p, v) && !m[v]
    ensures t.v0 < |val| && t.v1 < |val| && t.v2 < |val| && w == Wanted(t, val, p)
    ensures forall u :: 0 <= u < |m| ==> (u == v || marked[u] <==> m[u] || t.Has(u))
  {
  }

  lemma HandlesAt(t: Triple, marked: seq<bool>, val: seq<nat>, val': seq<nat>, marked': seq<bool>, p: nat)
    requires p < 3 && SetsAt(t, marked, val, val', p) && |marked'| == |marked|
    requires t.v0 < |marked| && t.v1 < |marked| && t.v2 < |marked|
    requires marked' == marked[t.v0 := true][t.v1 := true][t.v2 := true]
    ensures Handles(t, marked, val, val', marked')
  {
  }

  /** Gives the p-th vertex of the edge its value. */
  method Settle(g: array<uint8>, marked: array<bool>, v: nat, w: nat, ghost p: nat, ghost t: Triple,
                ghost m: seq<bool>)
    requires v < marked.Length <= 4 * g.Length && w <= 3
    modifies g, marked
    ensures CanSettle(t, m, old(marked[..]), old(Values(g[..])), p, v, w, UNASSIGNED) ==>
      Handles(t, m, old(Values(g[..])), Values(g[..]), marked[..])
  {
    hide Values, And, SetsAt, Handles, Ready, Wanted, CanSettle;
    ghost var val, marked0 := Values(g[..]), marked[..];
    SetValue1(g, v, w);
    marked[v] := true;
    if CanSettle(t, m, marked0, val, p, v, w, UNASSIGNED) {
      CanSettleFacts(t, m, marked0, val, p, v, w, UNASSIGNED);
      ReadyFacts(t, m, val, UNASSIGNED);
      ValuesSmall(old(g[..]));
      SteersAnd(t, m, val, p, v, w);
      assert marked[..] == m[t.v0 := true][t.v1 := true][t.v2 := true];
      HandlesAt(t, m, val, Values(g[..]), marked[..], p);
    }
  }

  /** One turn of the loop of assigning in bdz.c. */
  method AssignEdge(g: array<uint8>, marked: array<bool>, v0: uint32, v1: uint32, v2: uint32, ghost t: Triple)
    requires t == Triple(v0, v1, v2) && v0 < marked.Length && v1 < marked.Length && v2 < marked.Length
    requires marked.Length <= 4 * g.Length
    modifies g, marked
    ensures Ready(t, old(marked[..]), old(Values(g[..])), UNASSIGNED) ==>
      Handles(t, old(marked[..]), old(Values(g[..])), Values(g[..]), marked[..])
  {
    hide GetValue, Values, And, SetsAt, Handles, Ready, CanSettle;
    ghost var val, m := Values(g[..]), marked[..];
    ghost var ready := Ready(t, m, val, UNASSIGNED);
    if ready {
      ReadyFacts(t, m, val, UNASSIGNED);
    }
    if !marked[v0] {
      Touch(g, marked, v1);
      Touch(g, marked, v2);
      ValueAt(g[..], v1);
      ValueAt(g[..], v2);
      var w := (6 - (GetValue(g[..], v1) + GetValue(g[..], v2))) % 3;
      if ready {
        SettleNow(t, m, marked[..], val, 0, v0, w, UNASSIGNED);
      }
      Settle(g, marked, v0, w, 0, t, m);
    } else if !marked[v1] {
      Touch(g, marked, v2);
      ValueAt(g[..], v0);
      ValueAt(g[..], v2);
      var w := (7 - (GetValue(g[..], v0) + GetValue(g[..], v2))) % 3;
      if ready {
        SettleNow(t, m, marked[..], val, 1, v1, w, UNASSIGNED);
      }
      Settle(g, marked, v1, w, 1, t, m);
    } else {
      ValueAt(g[..], v0);
      ValueAt(g[..], v1);
      var w := (8 - (GetValue(g[..], v0) + GetValue(g[..], v1))) % 3;
      if ready {
        SettleNow(t, m, marked[..], val, 2, v2, w, UNASSIGNED);
      }
      Settle(g, marked, v2, w, 2, t, m);
    }
  }

  /** The same over a table of zeros. */
  method Settle0(g: array<uint8>, marked: array<bool>, v: nat, w: nat, ghost p: nat, ghost t: Triple,
                 ghost m: seq<bool>)
    requires v < marked.Length <= 4 * g.Length && w <= 3
    modifies g, marked
    ensures CanSettle(t, m, old(marked[..]), old(Values(g[..])), p, v, w, 0) ==>
      Handles(t, m, old(Values(g[..])), Values(g[..]), marked[..])
  {
    hide Values, Or, SetsAt, Handles, Ready, Wanted, CanSettle;
    ghost var val, marked0 := Values(g[..]), marked[..];
    SetValue0(g, v, w);
    marked[v] := true;
    if CanSettle(t, m, marked0, val, p, v, w, 0) {
      CanSettleFacts(t, m, marked0, val, p, v, w, 0);
      ReadyFacts(t, m, val, 0);
      ValuesSmall(old(g[..]));
      SteersOr(t, m, val, p, v, w);
      assert marked[..] == m[t.v0 := true][t.v1 := true][t.v2 := true];
      HandlesAt(t, m, val, Values(g[..]), marked[..], p);
    }
  }

  /** One turn of the loop of assigning in bdz_ph.c, over a table of zeros. */
  method AssignEdge0(g: array<uint8>, marked: array<bool>, v0: uint32, v1: uint32, v2: uint32, ghost t: Triple)
    requires t == Triple(v0, v1, v2) && v0 < marked.Length && v1 < marked.Length && v2 < marked.Length
    requires marked.Length <= 4 * g.Length
    modifies g, marked
    ensures Ready(t, old(marked[..]), old(Values(g[..])), 0) ==>
      Handles(t, old(marked[..]), old(Values(g[..])), Values(g[..]), marked[..])
  {
    hide GetValue, Values, Or, SetsAt, Handles, Ready, CanSettle;
    ghost var val, m := Values(g[..]), marked[..];
    ghost var ready := Ready(t, m, val, 0);
    if ready {
      ReadyFacts(t, m, val, 0);
    }
    ValueAt(g[..], v0);
    ValueAt(g[..], v1);
    ValueAt(g[..], v2);
    if !marked[v0] {
      if !marked[v1] {
        marked[v1] := true;
      }
      if !marked[v2] {
        marked[v2] := true;
      }
      var w := (6 - (GetValue(g[..], v1) + GetValue(g[..], v2))) % 3;
      if ready {
        SettleNow(t, m, marked[..], val, 0, v0, w, 0);
      }
      Settle0(g, marked, v0, w, 0, t, m);
    } else if !marked[v1] {
      if !marked[v2] {
        marked[v2] := true;
      }
      var w := (7 - (GetValue(g[..], v0) + GetValue(g[..], v2))) % 3;
      if ready {
        SettleNow(t, m, marked[..], val, 1, v1, w, 0);
      }
      Settle0(g, marked, v1, w, 1, t, m);
    } else {
      var w := (8 - (GetValue(g[..], v0) + GetValue(g[..], v1))) % 3;
      if ready {
        SettleNow(t, m, marked[..], val, 2, v2, w, 0);
      }
      Settle0(g, marked, v2, w, 2, t, m);
    }
  }

  /** What the loops rely on: a peeled queue, and the values of everything behind i. */
  lemma NextEdge(E: seq<Triple>, q: seq<nat>, i: nat, val: seq<nat>, marked: seq<bool>, blank: nat)
    requires PeelOrder(E, q) && Assigned(E, q, i, val, marked, blank) && 0 < i
    ensures q[i - 1] < |E| && Ready(E[q[i - 1]], marked, val, blank)
  {
    SomeUnmarked(E, q, i, val, marked, blank);
  }

  lemma Handled(E: seq<Triple>, q: seq<nat>, i: nat, val: seq<nat>, marked: seq<bool>, blank: nat,
                val': seq<nat>, marked': seq<bool>)
    requires Assigned(E, q, i, val, marked, blank) && 0 < i && q[i - 1] < |E|
    requires Handles(E[q[i - 1]], marked, val, val', marked')
    ensures Assigned(E, q, i - 1, val', marked', blank)
  {
    HandlesSets(E, q[i - 1], marked, val, val', marked');
    AssignStep(E, q, i, val, marked, blank, val', marked');
  }

  /** The vertex of every edge, once all are handled. */
  ghost predicate AllChosen(E: seq<Triple>, n: nat, val: seq<nat>) {
    && n <= |val| && InGraph(E, n)
    && (forall e :: 0 <= e < |E| ==> val[Chosen(val, E[e])] < 3)
    && (forall e, f :: 0 <= e < f < |E| ==> Chosen(val, E[e]) != Chosen(val, E[f]))
  }

  /** What every position of the queue has, every edge has. */
  lemma AtEdge(E: seq<Triple>, q: seq<nat>, n: nat, val: seq<nat>, e: nat) returns (j: nat)
    requires Distinct(q) && |q| == |E| && Shape(E, q, n, val) && e < |E|
    requires forall j :: 0 <= j < |q| ==> Owns(E, q, n, val, j)
    ensures j < |q| && q[j] == e && Owns(E, q, n, val, j)
  {
    DistinctCovers(q, |E|, e);
    j :| 0 <= j < |q| && q[j] == e;
  }

  lemma ChosenApart(E: seq<Triple>, q: seq<nat>, n: nat, val: seq<nat>, j: nat, k: nat)
    requires Shape(E, q, n, val) && j < |q| && k < |q| && j != k
    requires Owns(E, q, n, val, j) && Owns(E, q, n, val, k)
    ensures Chosen(val, E[q[j]]) != Chosen(val, E[q[k]])
  {
    assert E[q[j]].Has(Chosen(val, E[q[j]])) && E[q[k]].Has(Chosen(val, E[q[k]]));
  }

  lemma AssignedShape(E: seq<Triple>, q: seq<nat>, val: seq<nat>, marked: seq<bool>, blank: nat)
    requires PeelOrder(E, q) && Assigned(E, q, 0, val, marked, blank)
    ensures Distinct(q) && Shape(E, q, |marked|, val)
    ensures forall j :: 0 <= j < |q| ==> Owns(E, q, |marked|, val, j)
    ensures forall v :: 0 <= v < |val| && val[v] != blank ==> Owned(E, q, |marked|, val, 0, v)
  {
    hide Owns, FreshVertex, Owned, Touched;
  }

  lemma ChosenDistinct(E: seq<Triple>, q: seq<nat>, val: seq<nat>, marked: seq<bool>, blank: nat)
    requires PeelOrder(E, q) && |q| == |E| && Assigned(E, q, 0, val, marked, blank)
    ensures AllChosen(E, |marked|, val)
    ensures forall v :: 0 <= v < |val| && val[v] != blank ==> exists e :: 0 <= e < |E| && Chosen(val, E[e]) == v
  {
    hide Owns, Assigned, PeelOrder, Chosen;
    var n := |marked|;
    AssignedShape(E, q, val, marked, blank);
    forall e | 0 <= e < |E|
      ensures Chosen(val, E[e]) < |val| && val[Chosen(val, E[e])] < 3
    {
      var j := AtEdge(E, q, n, val, e);
      OwnsValue(E, q, n, val, j);
    }
    forall e, f | 0 <= e < f < |E|
      ensures Chosen(val, E[e]) != Chosen(val, E[f])
    {
      var j := AtEdge(E, q, n, val, e);
      var k := AtEdge(E, q, n, val, f);
      ChosenApart(E, q, n, val, j, k);
    }
    forall v | 0 <= v < |val| && val[v] != blank
      ensures exists e :: 0 <= e < |E| && Chosen(val, E[e]) == v
    {
      var j :| 0 <= j < |q| && ChosenAt(E, q, n, val, j) == v;
      assert Chosen(val, E[q[j]]) == v;
    }
  }

  lemma OwnsValue(E: seq<Triple>, q: seq<nat>, n: nat, val: seq<nat>, j: nat)
    requires Shape(E, q, n, val) && j < |q| && Owns(E, q, n, val, j)
    ensures Chosen(val, E[q[j]]) < |val| && val[Chosen(val, E[q[j]])] < 3
  {
  }

  /** The vertices with a value are exactly those that an edge selects. */
  ghost predicate OnlyChosen(E: seq<Triple>, n: nat, val: seq<nat>)
    requires AllChosen(E, n, val)
  {
    forall v :: 0 <= v < |val| && val[v] != UNASSIGNED ==> exists e :: 0 <= e < |E| && Chosen(val, E[e]) == v
  }

  /** assigning of bdz.c */
  method Assign(G: Graph3, queue: array<uint32>) returns (g: array<uint8>)
    requires G.Valid() && queue.Length == |G.E| && Bounded(queue[..], |G.E|)
    ensures fresh(g) && g.Length == (G.nvertices + 3) / 4
    ensures PeelOrder(G.E, queue[..]) ==>
      AllChosen(G.E, G.nvertices, Values(g[..])) && OnlyChosen(G.E, G.nvertices, Values(g[..]))
  {
    hide Graph3.Valid, PeelOrder, Assigned, GetValue, Handles, AllChosen, InGraph;
    G.ValidSizes();
    ghost var q: seq<nat> := queue[..];
    var marked := new bool[G.nvertices](_ => false);
    g := new uint8[(G.nvertices + 3) / 4](_ => 255);
    FilledValues(g[..], 255);
    ghost var peeled := PeelOrder(G.E, q);
    if peeled {
      AssignStart(G.E, q, Values(g[..]), marked[..], UNASSIGNED);
    }
    var i: int := G.nedges;
    while i > 0
      invariant 0 <= i <= |q|
      invariant peeled ==> Assigned(G.E, q, i, Values(g[..]), marked[..], UNASSIGNED)
    {
      i := i - 1;
      var e: uint32 := queue[i];
      VertexRead(G, e);
      ghost var val, m := Values(g[..]), marked[..];
      if peeled {
        NextEdge(G.E, q, i + 1, val, m, UNASSIGNED);
      }
      AssignEdge(g, marked, G.vertices[e].v0, G.vertices[e].v1, G.vertices[e].v2, G.E[e]);
      if peeled {
        Handled(G.E, q, i + 1, val, m, UNASSIGNED, Values(g[..]), marked[..]);
      }
    }
    if peeled {
      ChosenDistinct(G.E, q, Values(g[..]), marked[..], UNASSIGNED);
    }
  }

  /** assigning of bdz_ph.c */
  method Assign0(G: Graph3, queue: array<uint32>) returns (g: array<uint8>)
    requires G.Valid() && queue.Length == |G.E| && Bounded(queue[..], |G.E|)
    ensures fresh(g) && g.Length == (G.nvertices + 3) / 4
    ensures PeelOrder(G.E, queue[..]) ==>
      AllChosen(G.E, G.nvertices, Values(g[..])) && forall v :: 0 <= v < |Values(g[..])| ==> Values(g[..])[v] < 3
  {
    hide Graph3.Valid, PeelOrder, Assigned, GetValue, Handles, AllChosen, InGraph;
    G.ValidSizes();
    ghost var q: seq<nat> := queue[..];
    var marked := new bool[G.nvertices](_ => false);
    g := new uint8[(G.nvertices + 3) / 4](_ => 0);
    FilledValues(g[..], 0);
    ghost var peeled := PeelOrder(G.E, q);
    if peeled {
      AssignStart(G.E, q, Values(g[..]), marked[..], 0);
    }
    var i: int := G.nedges;
    while i > 0
      invariant 0 <= i <= |q|
      invariant peeled ==> Assigned(G.E, q, i, Values(g[..]), marked[..], 0)
    {
      i := i - 1;
      var e: uint32 := queue[i];
      VertexRead(G, e);
      ghost var val, m := Values(g[..]), marked[..];
      if peeled {
        NextEdge(G.E, q, i + 1, val, m, 0);
      }
      AssignEdge0(g, marked, G.vertices[e].v0, G.vertices[e].v1, G.vertices[e].v2, G.E[e]);
      if peeled {
        Handled(G.E, q, i + 1, val, m, 0, Values(g[..]), marked[..]);
      }
    }
    if peeled {
      ChosenDistinct(G.E, q, Values(g[..]), marked[..], 0);
      AllBelowThree(G.E, G.nvertices, Values(g[..]));
    }
  }

  lemma AllBelowThree(E: seq<Triple>, n: nat, val: seq<nat>)
    requires AllChosen(E, n, val)
    requires forall v :: 0 <= v < |val| && val[v] != 0 ==> exists e :: 0 <= e < |E| && Chosen(val, E[e]) == v
    ensures forall v :: 0 <= v < |val| ==> val[v] < 3
  {
  }

  lemma VertexRead(G: Graph3, e: nat)
    requires G.Valid() && e < |G.E|
    ensures |G.E| <= G.vertices.Length && G.vertices[e] == G.E[e]
    ensures G.E[e].v0 < G.nvertices && G.E[e].v1 < G.nvertices && G.E[e].v2 < G.nvertices
  {
    assert G.vertices[..G.nedges][e] == G.E[e];
  }
}
