/** bmz.c: the labelling of the 2-core as a function of the graph, and so when it gets stuck. */
module BmzRuns {
  import opened Words
  import opened Counting
  import opened Multigraph
  import opened TreePaths
  import opened Graphs
  import opened BmzLabels

  /** What the labelling has come to; bigG is the largest label found by a lookahead. */
  datatype Labelling = Labelling(g: seq<uint32>, visited: seq<bool>, used: seq<bool>, bigG: nat) {
    ghost predicate Ok(n: nat, m: nat) {
      |g| == |visited| == n && |used| == m < TWO32
    }

    /** Label y gives the edges from u into the visited core new numbers below m. */
    ghost predicate Fitting(E: seq<Edge>, u: nat, y: nat) {
      Fits(E, |used|, g, Marked(visited), used, u, y)
    }
  }

  // ---- one vertex -------------------------------------------------------------------------------------------

  /** The least label from y on that fits u. */
  ghost function LeastLabel(E: seq<Edge>, s: Labelling, u: nat, y: nat): (r: Option<uint32>)
    requires |s.used| < TWO32
    ensures r.Some? ==> y <= r.value < |s.used| && s.Fitting(E, u, r.value)
    ensures r.Some? ==> forall z: nat :: y <= z < r.value ==> !s.Fitting(E, u, z)
    ensures r.None? ==> forall z: nat :: y <= z < |s.used| ==> !s.Fitting(E, u, z)
    decreases |s.used| - y
  {
    if y >= |s.used| then None
    else if s.Fitting(E, u, y) then Some(y)
    else LeastLabel(E, s, u, y + 1)
  }

  /** It is the only one with these properties. */
  lemma LeastLabelIs(E: seq<Edge>, s: Labelling, u: nat, y: nat, r: Option<uint32>)
    requires |s.used| < TWO32
    requires r.Some? ==> y <= r.value < |s.used| && s.Fitting(E, u, r.value)
    requires r.Some? ==> forall z: nat :: y <= z < r.value ==> !s.Fitting(E, u, z)
    requires r.None? ==> forall z: nat :: y <= z < |s.used| ==> !s.Fitting(E, u, z)
    ensures LeastLabel(E, s, u, y) == r
  {
    hide Labelling.Fitting;
  }

  ghost function UsedAfter(E: seq<Edge>, s: Labelling, u: nat, y: nat): (used: seq<bool>)
    ensures |used| == |s.used|
  {
    seq(|s.used|, z requires 0 <= z < |s.used| => s.used[z] || Takes(E, s.g, Marked(s.visited), u, y, z))
  }

  lemma UsedAfterIs(E: seq<Edge>, s: Labelling, u: nat, y: nat, used: seq<bool>)
    requires MarksNumbers(E, s.g, Marked(s.visited), u, y, s.used, used)
    ensures used == UsedAfter(E, s, u, y)
  {
    hide Takes;
  }

  /** u gets the least label above all earlier ones that fits. None: there is no such label. */
  ghost function VisitOne(E: seq<Edge>, s: Labelling, u: nat): (r: Option<Labelling>)
    requires |s.used| < TWO32 && u < |s.g| == |s.visited|
    ensures r.Some? ==> r.value.Ok(|s.g|, |s.used|) && r.value.visited == s.visited[u := true]
  {
    var y := LeastLabel(E, s, u, s.bigG + 1);
    if y.None? then None
    else Some(Labelling(s.g[u := y.value], s.visited[u := true], UsedAfter(E, s, u, y.value), y.value))
  }

  // ---- one connected part of the core ------------------------------------------------------------------------

  /** How many bits are not set. */
  ghost function Unset(bits: seq<bool>): (k: nat)
    ensures k + CountBefore(bits, |bits|) == |bits|
  {
    |bits| - CountBefore(bits, |bits|)
  }

  lemma {:induction false} CountSet(b: seq<bool>, x: nat, v: nat)
    requires x < |b| && !b[x] && v <= |b|
    ensures CountBefore(b[x := true], v) == CountBefore(b, v) + if x < v then 1 else 0
  {
    if v > 0 {
      CountSet(b, x, v - 1);
    }
  }

  lemma UnsetLess(bits: seq<bool>, x: nat)
    requires x < |bits| && !bits[x]
    ensures Unset(bits[x := true]) == Unset(bits) - 1
  {
    CountSet(bits, x, |bits|);
  }

  /** One neighbor: a critical vertex not visited yet is visited and goes on the queue. */
  ghost function ExploreOne(E: seq<Edge>, K: set<nat>, u: nat, s: Labelling, q: seq<nat>)
    : (r: Option<(Labelling, seq<nat>)>)
    requires s.Ok(|s.g|, |s.used|)
    ensures r.Some? ==> r.value.0.Ok(|s.g|, |s.used|)
    ensures r.Some? ==> Unset(r.value.0.visited) + |r.value.1| == Unset(s.visited) + |q|
  {
    if u in K && u < |s.visited| && !s.visited[u] then
      var t := VisitOne(E, s, u);
      UnsetLess(s.visited, u);
      if t.None? then None else Some((t.value, q + [u]))
    else Some((s, q))
  }

  /** The neighbors of v from number k on. */
  ghost function Explore(E: seq<Edge>, K: set<nat>, v: nat, k: nat, s: Labelling, q: seq<nat>)
    : (r: Option<(Labelling, seq<nat>)>)
    requires s.Ok(|s.g|, |s.used|)
    ensures r.Some? ==> r.value.0.Ok(|s.g|, |s.used|)
    ensures r.Some? ==> Unset(r.value.0.visited) + |r.value.1| == Unset(s.visited) + |q|
    decreases |Neighbors(E, v)| - k
  {
    if k >= |Neighbors(E, v)| then Some((s, q)) else
      var t := ExploreOne(E, K, Neighbors(E, v)[k], s, q);
      if t.None? then None else Explore(E, K, v, k + 1, t.value.0, t.value.1)
  }

  /** The breadth-first search from the queue q. */
  ghost function Search(E: seq<Edge>, K: set<nat>, s: Labelling, q: seq<nat>): (r: Option<Labelling>)
    requires s.Ok(|s.g|, |s.used|)
    ensures r.Some? ==> r.value.Ok(|s.g|, |s.used|)
    decreases Unset(s.visited) + |q|
  {
    if q == [] then Some(s) else
      var t := Explore(E, K, q[0], 0, s, q[1..]);
      if t.None? then None else Search(E, K, t.value.0, t.value.1)
  }

  /** The largest number of an edge so far, and 1 as long as none is above it. */
  ghost function Largest(used: seq<bool>): (r: nat)
    ensures 1 <= r && (r > 1 ==> r < |used| && used[r]) && forall y :: r < y < |used| ==> !used[y]
  {
    if |used| <= 2 then 1
    else if used[|used| - 1] then |used| - 1
    else Largest(used[..|used| - 1])
  }

  lemma LargestIs(used: seq<bool>, r: nat)
    requires 1 <= r && (r > 1 ==> r < |used| && used[r]) && forall y :: r < y < |used| ==> !used[y]
    ensures Largest(used) == r
  {
  }

  lemma LargestSet(used: seq<bool>, y: nat)
    requires y < |used|
    ensures Largest(used[y := true]) == if y > Largest(used) then y else Largest(used)
  {
    LargestIs(used[y := true], if y > Largest(used) then y else Largest(used));
  }

  /** The first vertex of a connected part. */
  ghost function Started(s: Labelling, v: nat): (r: Labelling)
    requires s.Ok(|s.g|, |s.used|) && v < |s.g|
    ensures r.Ok(|s.g|, |s.used|)
  {
    Labelling(s.g[v := (Largest(s.used) + 1) / 2 - 1], s.visited[v := true], s.used, s.bigG)
  }

  /** bmz_traverse_critical_nodes */
  ghost function Part(E: seq<Edge>, K: set<nat>, s: Labelling, v: nat): (r: Option<Labelling>)
    requires s.Ok(|s.g|, |s.used|) && v < |s.g|
    ensures r.Some? ==> r.value.Ok(|s.g|, |s.used|)
  {
    Search(E, K, Started(s, v), [v])
  }

  // ---- the whole core ------------------------------------------------------------------------------------------

  /** The critical vertices from i on. */
  ghost function LabelFrom(E: seq<Edge>, K: set<nat>, i: nat, s: Labelling): (r: Option<Labelling>)
    requires s.Ok(|s.g|, |s.used|)
    ensures r.Some? ==> r.value.Ok(|s.g|, |s.used|)
    decreases |s.g| - i
  {
    if i >= |s.g| then Some(s)
    else if i in K && !s.visited[i] then
      var t := Part(E, K, s, i);
      if t.None? then None else LabelFrom(E, K, i + 1, t.value)
    else LabelFrom(E, K, i + 1, s)
  }

  ghost function Unlabelled(n: nat, m: nat): (s: Labelling)
    requires m < TWO32
    ensures s.Ok(n, m)
  {
    Labelling(seq(n, _ => 0), seq(n, _ => false), seq(m, _ => false), 0)
  }

  /** The vertices of the 2-core. */
  ghost function CoreVertices(E: seq<Edge>, n: nat): set<nat> {
    set v | v in Below(n) && InCore(E, v)
  }

  ghost predicate InCore(E: seq<Edge>, v: nat) {
    exists C: set<nat> :: MinDegreeTwo(E, C) && TouchesSet(E, C, v)
  }

  /** The labelling of the 2-core of a graph with n vertices; None when it gets stuck. */
  ghost function LabelRun(E: seq<Edge>, n: nat, m: nat): (r: Option<Labelling>)
    requires m < TWO32
    ensures r.Some? ==> r.value.Ok(n, m)
  {
    LabelFrom(E, CoreVertices(E, n), 0, Unlabelled(n, m))
  }

  lemma CoreVerticesAre(E: seq<Edge>, n: nat, core: set<nat>)
    requires InGraph(E, n) && IsCore(E, core)
    ensures forall v: nat :: v in CoreVertices(E, n) <==> TouchesSet(E, core, v)
  {
    forall v: nat
      ensures v in CoreVertices(E, n) <==> TouchesSet(E, core, v)
    {
      if C: set<nat> :| MinDegreeTwo(E, C) && TouchesSet(E, C, v) {
        assert C <= core;
      }
      if TouchesSet(E, core, v) {
        assert v < n;
        assert InCore(E, v);
      }
    }
  }
}
