/** bmz.c: what the labels of the core vertices mean, and what one more label does. */
module BmzLabels {
  import opened Words
  import opened Multigraph

  /** No two edges join the same vertices. */
  ghost predicate Simple(E: seq<Edge>) {
    forall e, f :: 0 <= e < f < |E| ==> !Joins(E[f], E[e].src, E[e].dst)
  }

  ghost function Label(g: seq<uint32>, e: Edge): nat
    requires e.src < |g| && e.dst < |g|
  {
    g[e.src] as int + g[e.dst] as int
  }

  /** Labels of the edges inside S: distinct, below m, and exactly the used ones. */
  ghost predicate EdgeLabels(E: seq<Edge>, m: nat, g: seq<uint32>, S: set<nat>, used: seq<bool>) {
    && InGraph(E, |g|) && |used| == m
    && (forall e :: 0 <= e < |E| && Inside(E[e], S) ==> Label(g, E[e]) < m && used[Label(g, E[e])])
    && (forall e, f :: 0 <= e < f < |E| && Inside(E[e], S) && Inside(E[f], S) ==> Label(g, E[e]) != Label(g, E[f]))
    && (forall y :: 0 <= y < m && used[y] ==> HasLabel(E, g, S, y))
  }

  ghost predicate HasLabel(E: seq<Edge>, g: seq<uint32>, S: set<nat>, y: nat) {
    InGraph(E, |g|) && exists e :: 0 <= e < |E| && Inside(E[e], S) && Label(g, E[e]) == y
  }

  /** No edge between critical vertices K leaves V. */
  ghost predicate CritClosed(E: seq<Edge>, K: set<nat>, V: set<nat>) {
    forall e :: 0 <= e < |E| && Inside(E[e], K) ==> (E[e].src in V <==> E[e].dst in V)
  }

  /** The bounds the two running maxima keep. */
  ghost predicate Maxima(m: nat, bigG: nat, bigEdge: nat) {
    bigG <= m && 1 <= bigEdge && (bigEdge <= 2 * bigG || bigEdge == 1)
  }

  /**
   The state of the labelling: S is visited, and V is what earlier breadth-first searches
   visited. Within one search all vertex labels differ.
   */
  ghost predicate CritOk(E: seq<Edge>, n: nat, m: nat, K: set<nat>, V: set<nat>,
                         g: seq<uint32>, S: set<nat>, used: seq<bool>, bigG: nat) {
    && |g| == n && NoLoops(E) && Simple(E) && V <= S <= K && CritClosed(E, K, V)
    && (forall x :: x in K ==> x < n)
    && EdgeLabels(E, m, g, S, used)
    && (forall x :: x in S ==> g[x] <= bigG)
    && (forall x, y :: x in S && y in S && x !in V && y !in V && x != y ==> g[x] != g[y])
  }

  /** The label fits: all edges from u into S get new numbers below m. */
  ghost predicate Fits(E: seq<Edge>, m: nat, g: seq<uint32>, S: set<nat>, used: seq<bool>, u: nat, nextG: nat)
  {
    && InGraph(E, |g|) && |used| == m
    && forall e :: 0 <= e < |E| && Touches(E[e], u) && Opposite(E[e], u) in S ==>
         var y := nextG + g[Opposite(E[e], u)];
         y < m && !used[y]
  }

  /** y is the number that an edge from u into S gets. */
  ghost predicate Takes(E: seq<Edge>, g: seq<uint32>, S: set<nat>, u: nat, nextG: nat, y: nat) {
    && InGraph(E, |g|)
    && exists e :: 0 <= e < |E| && Touches(E[e], u) && Opposite(E[e], u) in S && nextG + g[Opposite(E[e], u)] == y
  }

  /** used marks, beyond before, exactly the numbers that u's edges into S get. */
  ghost predicate MarksNumbers(E: seq<Edge>, g: seq<uint32>, S: set<nat>, u: nat, nextG: nat, before: seq<bool>,
                        used: seq<bool>) {
    && |used| == |before|
    && forall y :: 0 <= y < |used| ==> (used[y] <==> before[y] || Takes(E, g, S, u, nextG, y))
  }

  lemma SimpleOpposite(E: seq<Edge>, u: nat, e: nat, f: nat)
    requires NoLoops(E) && Simple(E) && e < |E| && f < |E| && e != f
    requires Touches(E[e], u) && Touches(E[f], u)
    ensures Opposite(E[e], u) != Opposite(E[f], u)
  {
    assert !Joins(E[if e < f then f else e], E[if e < f then e else f].src, E[if e < f then e else f].dst);
  }

  /** The edges inside S + {u} are those inside S and those from u into S. */
  lemma InsideOneMore(E: seq<Edge>, S: set<nat>, u: nat, e: nat)
    requires NoLoops(E) && u !in S && e < |E|
    ensures Inside(E[e], S + {u}) <==> Inside(E[e], S) || (Touches(E[e], u) && Opposite(E[e], u) in S)
    ensures Inside(E[e], S) ==> !Touches(E[e], u)
  {
  }

  lemma LabelInside(E: seq<Edge>, g: seq<uint32>, S: set<nat>, u: nat, nextG: uint32, e: nat)
    requires NoLoops(E) && InGraph(E, |g|) && u < |g| && u !in S && e < |E| && Inside(E[e], S + {u})
    ensures if Inside(E[e], S) then Label(g[u := nextG], E[e]) == Label(g, E[e])
            else Touches(E[e], u) && Opposite(E[e], u) in S
                 && Label(g[u := nextG], E[e]) == nextG + g[Opposite(E[e], u)]
  {
    InsideOneMore(E, S, u, e);
  }

  /** Within one search the labels of distinct vertices differ. */
  ghost predicate DistinctG(g: seq<uint32>, S: set<nat>, V: set<nat>) {
    forall x, y :: x in S && y in S && x !in V && y !in V && x != y ==> x < |g| && y < |g| && g[x] != g[y]
  }

  lemma NewLabelsDiffer(E: seq<Edge>, m: nat, g: seq<uint32>, S: set<nat>, V: set<nat>, used: seq<bool>, u: nat,
                        nextG: uint32, e: nat, f: nat)
    requires NoLoops(E) && Simple(E) && EdgeLabels(E, m, g, S, used) && u < |g| && u !in S
    requires Fits(E, m, g, S, used, u, nextG) && DistinctG(g, S, V)
    requires forall h :: 0 <= h < |E| && Touches(E[h], u) ==> Opposite(E[h], u) !in V
    requires e < f < |E| && Inside(E[e], S + {u}) && Inside(E[f], S + {u})
    ensures Label(g[u := nextG], E[e]) != Label(g[u := nextG], E[f])
  {
    LabelInside(E, g, S, u, nextG, e);
    LabelInside(E, g, S, u, nextG, f);
    if !Inside(E[e], S) && !Inside(E[f], S) {
      SimpleOpposite(E, u, e, f);
    }
  }

  lemma NewLabelFound(E: seq<Edge>, g: seq<uint32>, S: set<nat>, u: nat, nextG: uint32, y: nat)
    requires NoLoops(E) && InGraph(E, |g|) && u < |g| && u !in S
    requires HasLabel(E, g, S, y) || Takes(E, g, S, u, nextG, y)
    ensures HasLabel(E, g[u := nextG], S + {u}, y)
  {
    var e :| 0 <= e < |E|
      && ((Inside(E[e], S) && Label(g, E[e]) == y)
          || (Touches(E[e], u) && Opposite(E[e], u) in S && nextG + g[Opposite(E[e], u)] == y));
    InsideOneMore(E, S, u, e);
    assert Inside(E[e], S + {u}) && Label(g[u := nextG], E[e]) == y;
  }

  lemma NewLabels(E: seq<Edge>, m: nat, g: seq<uint32>, S: set<nat>, V: set<nat>, used: seq<bool>, u: nat,
                  nextG: uint32, used': seq<bool>)
    requires NoLoops(E) && Simple(E) && EdgeLabels(E, m, g, S, used) && u < |g| && u !in S
    requires Fits(E, m, g, S, used, u, nextG) && DistinctG(g, S, V)
    requires forall e :: 0 <= e < |E| && Touches(E[e], u) ==> Opposite(E[e], u) !in V
    requires MarksNumbers(E, g, S, u, nextG, used, used')
    ensures EdgeLabels(E, m, g[u := nextG], S + {u}, used')
  {
    var g' := g[u := nextG];
    forall e | 0 <= e < |E| && Inside(E[e], S + {u})
      ensures Label(g', E[e]) < m && used'[Label(g', E[e])]
    {
      LabelInside(E, g, S, u, nextG, e);
      if !Inside(E[e], S) {
        assert Takes(E, g, S, u, nextG, Label(g', E[e]));
      }
    }
    forall e, f | 0 <= e < f < |E| && Inside(E[e], S + {u}) && Inside(E[f], S + {u})
      ensures Label(g', E[e]) != Label(g', E[f])
    {
      NewLabelsDiffer(E, m, g, S, V, used, u, nextG, e, f);
    }
    forall y | 0 <= y < m && used'[y]
      ensures HasLabel(E, g', S + {u}, y)
    {
      NewLabelFound(E, g, S, u, nextG, y);
    }
  }

  /** Visiting the critical vertex u with a label that fits and exceeds all earlier ones. */
  lemma CritStep(E: seq<Edge>, n: nat, m: nat, K: set<nat>, V: set<nat>, g: seq<uint32>, S: set<nat>, used: seq<bool>,
                 bigG: nat, u: nat, nextG: uint32, used': seq<bool>)
    requires CritOk(E, n, m, K, V, g, S, used, bigG) && u in K && u !in S && bigG < nextG
    requires Fits(E, m, g, S, used, u, nextG) && MarksNumbers(E, g, S, u, nextG, used, used')
    ensures CritOk(E, n, m, K, V, g[u := nextG], S + {u}, used', nextG)
  {
    forall e | 0 <= e < |E| && Touches(E[e], u)
      ensures Opposite(E[e], u) !in V
    {
      assert Opposite(E[e], u) in K ==> Inside(E[e], K);
    }
    NewLabels(E, m, g, S, V, used, u, nextG, used');
  }

  // ---- labels that do not fit ----------------------------------------------------------------------

  /** Label y would give an edge from u into S a number of m or more. */
  ghost predicate TooLarge(E: seq<Edge>, m: nat, g: seq<uint32>, S: set<nat>, u: nat, y: nat) {
    && InGraph(E, |g|)
    && exists e :: 0 <= e < |E| && Touches(E[e], u) && Opposite(E[e], u) in S && y + g[Opposite(E[e], u)] >= m
  }

  /** Label y would give an edge from u into S a number that is used already. */
  ghost predicate Hits(E: seq<Edge>, g: seq<uint32>, S: set<nat>, used: seq<bool>, u: nat, y: nat) {
    && InGraph(E, |g|)
    && exists e :: 0 <= e < |E| && Touches(E[e], u) && Opposite(E[e], u) in S && y + g[Opposite(E[e], u)] < |used|
         && used[y + g[Opposite(E[e], u)]]
  }

  /** Every label above lo and below hi hits a used number. */
  ghost predicate AllHit(E: seq<Edge>, g: seq<uint32>, S: set<nat>, used: seq<bool>, u: nat, lo: nat, hi: nat) {
    forall y: nat :: lo < y < hi ==> Hits(E, g, S, used, u, y)
  }

  /** Going up from lo, the labels for u hit used numbers until one is too large. */
  ghost predicate Stuck(E: seq<Edge>, m: nat, g: seq<uint32>, S: set<nat>, used: seq<bool>, u: nat, lo: nat) {
    exists hi: nat :: lo < hi && TooLarge(E, m, g, S, u, hi) && AllHit(E, g, S, used, u, lo, hi)
  }

  lemma FoundTooLarge(E: seq<Edge>, m: nat, g: seq<uint32>, S: set<nat>, u: nat, y: nat, e: nat)
    requires InGraph(E, |g|) && e < |E| && Touches(E[e], u) && Opposite(E[e], u) in S
    requires y + g[Opposite(E[e], u)] >= m
    ensures TooLarge(E, m, g, S, u, y)
  {
  }

  lemma FoundHit(E: seq<Edge>, g: seq<uint32>, S: set<nat>, used: seq<bool>, u: nat, y: nat, e: nat)
    requires InGraph(E, |g|) && e < |E| && Touches(E[e], u) && Opposite(E[e], u) in S
    requires y + g[Opposite(E[e], u)] < |used| && used[y + g[Opposite(E[e], u)]]
    ensures Hits(E, g, S, used, u, y)
  {
  }
}
