/**
 Why a depth-first labelling meets no edge twice. Every vertex reached carries the set of edges
 on its way to the root (or into the 2-core). Two such sets and a further edge between their
 vertices would make an edge set of even degree outside the core, hence of minimum degree two,
 and the core would not be the largest one.
 */
module TreePaths {
  import opened Words
  import opened Counting
  import opened Multigraph

  ghost function At(E: seq<Edge>, P: set<nat>, x: nat): set<nat> {
    set e | e in P && e < |E| && Touches(E[e], x)
  }

  ghost predicate Odd(E: seq<Edge>, P: set<nat>, x: nat) {
    |At(E, P, x)| % 2 == 1
  }

  ghost function Xor<T>(A: set<T>, B: set<T>): (r: set<T>)
    ensures r <= A + B
  {
    (A - B) + (B - A)
  }

  lemma XorSize<T>(A: set<T>, B: set<T>)
    ensures |Xor(A, B)| == |A| + |B| - 2 * |A * B|
  {
    assert A == (A - B) + A * B && B == (B - A) + A * B;
  }

  lemma Parity(a: nat, b: nat, c: nat)
    ensures (a + b - 2 * c) % 2 == 1 <==> (a % 2 == 1) != (b % 2 == 1)
  {
  }

  lemma OddXor(E: seq<Edge>, A: set<nat>, B: set<nat>, x: nat)
    ensures Odd(E, Xor(A, B), x) <==> Odd(E, A, x) != Odd(E, B, x)
  {
    var a, b := At(E, A, x), At(E, B, x);
    assert At(E, Xor(A, B), x) == Xor(a, b);
    XorSize(a, b);
    Parity(|a|, |b|, |a * b|);
  }

  lemma OddSingle(E: seq<Edge>, e: nat, x: nat)
    requires e < |E|
    ensures Odd(E, {e}, x) <==> Touches(E[e], x)
  {
    assert At(E, {e}, x) == if Touches(E[e], x) then {e} else {};
  }

  lemma EvenNotPendant(E: seq<Edge>, P: set<nat>, x: nat)
    requires EdgeSet(E, P) && !Odd(E, P, x)
    ensures NoPendantAt(E, P, x)
  {
    forall f | f in P
      ensures !Pendant(E, P, x, f)
    {
      assert Pendant(E, P, x, f) ==> At(E, P, x) == {f};
    }
  }

  ghost predicate TouchesSet(E: seq<Edge>, S: set<nat>, v: nat) {
    exists e :: e in S && e < |E| && Touches(E[e], v)
  }

  ghost predicate PathInside(E: seq<Edge>, p: set<nat>, W: set<nat>) {
    forall e :: e in p ==> e < |E| && Inside(E[e], W)
  }

  /** Off the core, only v and the root have odd degree in p. */
  ghost predicate OddEnds(E: seq<Edge>, core: set<nat>, p: set<nat>, v: nat, root: Option<nat>) {
    forall x: nat :: !TouchesSet(E, core, x) ==> (Odd(E, p, x) <==> (x == v) != (Some(x) == root))
  }

  /** paths[v] leads from v, within the vertices W, to the given root, or into the vertices of the core. */
  ghost predicate Hung(E: seq<Edge>, core: set<nat>, W: set<nat>, root: Option<nat>, paths: map<nat, set<nat>>) {
    && paths.Keys == W
    && (forall v :: v in W ==> PathInside(E, paths[v], W))
    && (forall v :: v in W ==> OddEnds(E, core, paths[v], v, root))
  }

  /** An edge set of even degree off the core lies in the core. */
  lemma EvenOffCore(E: seq<Edge>, core: set<nat>, P: set<nat>)
    requires IsCore(E, core) && EdgeSet(E, P)
    requires forall x: nat :: !TouchesSet(E, core, x) ==> !Odd(E, P, x)
    ensures P <= core
  {
    var C := P + core;
    forall x: nat
      ensures NoPendantAt(E, C, x)
    {
      assert NoPendantAt(E, core, x);
      if TouchesSet(E, core, x) {
        var c :| c in core && c < |E| && Touches(E[c], x);
        assert !Pendant(E, core, x, c);
      } else {
        assert At(E, C, x) == At(E, P, x);
        EvenNotPendant(E, C, x);
      }
    }
    assert MinDegreeTwo(E, C);
  }

  lemma OddClosed(E: seq<Edge>, p: set<nat>, q: set<nat>, e: nat, f: nat, x: nat)
    requires e < |E| && f < |E|
    ensures Odd(E, Xor(Xor(p, q), Xor({e}, {f})), x) <==>
      (Odd(E, p, x) != Odd(E, q, x)) != (Touches(E[e], x) != Touches(E[f], x))
  {
    OddXor(E, p, q, x);
    OddXor(E, {e}, {f}, x);
    OddXor(E, Xor(p, q), Xor({e}, {f}), x);
    OddSingle(E, e, x);
    OddSingle(E, f, x);
  }

  /** A vertex outside W joined to W by two edges contradicts the maximality of the core. */
  lemma TwoWaysIn(E: seq<Edge>, core: set<nat>, W: set<nat>, root: Option<nat>, paths: map<nat, set<nat>>,
                  y: nat, v: nat, e: nat, w: nat, f: nat)
    requires NoLoops(E) && IsCore(E, core) && Hung(E, core, W, root, paths)
    requires y !in W && v in W && w in W && !TouchesSet(E, core, y)
    requires e < |E| && f < |E| && Joins(E[e], v, y) && Joins(E[f], w, y)
    ensures e == f
  {
    hide IsCore, Odd;
    if e != f {
      var P := Xor(Xor(paths[v], paths[w]), Xor({e}, {f}));
      assert OddEnds(E, core, paths[v], v, root) && OddEnds(E, core, paths[w], w, root);
      forall x: nat | !TouchesSet(E, core, x)
        ensures !Odd(E, P, x)
      {
        OddClosed(E, paths[v], paths[w], e, f, x);
      }
      assert PathInside(E, paths[v], W) && PathInside(E, paths[w], W);
      assert f in P by {
        assert !Inside(E[f], W);
      }
      EvenOffCore(E, core, P);
    }
  }

  lemma HungPaths(E: seq<Edge>, core: set<nat>, W: set<nat>, root: Option<nat>, paths: map<nat, set<nat>>,
                  v: nat, y: nat, e: nat)
    requires Hung(E, core, W, root, paths)
    requires v in W && y !in W && Some(y) != root && e < |E| && Joins(E[e], v, y)
    ensures Hung(E, core, W + {y}, root, paths[y := paths[v] + {e}])
  {
    hide OddEnds, PathInside;
    var paths' := paths[y := paths[v] + {e}];
    assert PathInside(E, paths[v], W) && OddEnds(E, core, paths[v], v, root);
    PathGrows(E, core, W, root, paths[v], v, y, e);
    forall u | u in W
      ensures PathInside(E, paths'[u], W + {y}) && OddEnds(E, core, paths'[u], u, root)
    {
      assert PathInside(E, paths[u], W) && OddEnds(E, core, paths[u], u, root);
      InsideMore(E, paths[u], W, y);
    }
  }

  lemma InsideMore(E: seq<Edge>, p: set<nat>, W: set<nat>, y: nat)
    requires PathInside(E, p, W)
    ensures PathInside(E, p, W + {y})
  {
  }

  /** A path to v, one edge longer, is a path to y. */
  lemma PathGrows(E: seq<Edge>, core: set<nat>, W: set<nat>, root: Option<nat>, p: set<nat>, v: nat, y: nat, e: nat)
    requires PathInside(E, p, W) && OddEnds(E, core, p, v, root)
    requires v in W && y !in W && Some(y) != root && e < |E| && Joins(E[e], v, y)
    ensures PathInside(E, p + {e}, W + {y}) && OddEnds(E, core, p + {e}, y, root)
  {
    hide Odd, TouchesSet;
    assert !Inside(E[e], W);
    assert Xor(p, {e}) == p + {e};
    forall x: nat | !TouchesSet(E, core, x)
      ensures Odd(E, p + {e}, x) <==> (x == y) != (Some(x) == root)
    {
      OddXor(E, p, {e}, x);
      OddSingle(E, e, x);
    }
  }

  /** Hanging y below v by edge e: no other edge leads from y into W. */
  lemma Hang(E: seq<Edge>, core: set<nat>, W: set<nat>, root: Option<nat>, paths: map<nat, set<nat>>,
             v: nat, y: nat, e: nat)
    requires NoLoops(E) && IsCore(E, core) && Hung(E, core, W, root, paths)
    requires v in W && y !in W && !TouchesSet(E, core, y) && Some(y) != root
    requires e < |E| && Joins(E[e], v, y)
    ensures Hung(E, core, W + {y}, root, paths[y := paths[v] + {e}])
    ensures forall f :: 0 <= f < |E| && f != e && Inside(E[f], W + {y}) ==> Inside(E[f], W)
  {
    HungPaths(E, core, W, root, paths, v, y, e);
    forall f | 0 <= f < |E| && Inside(E[f], W + {y}) && !Inside(E[f], W)
      ensures f == e
    {
      TwoWaysIn(E, core, W, root, paths, y, v, e, Opposite(E[f], y), f);
    }
  }

  /**
   A depth-first search in progress: V was explored by earlier searches, W by this one, whose
   vertices hang on a root or, without one, on the core.
   */
  datatype Walk = Walk(V: set<nat>, W: set<nat>, root: Option<nat>, paths: map<nat, set<nat>>) {
    ghost function Seen(): set<nat> {
      V + W
    }

    ghost function Grow(v: nat, y: nat, e: nat): Walk
      requires v in paths
    {
      this.(W := W + {y}, paths := paths[y := paths[v] + {e}])
    }

    ghost predicate Extends(w: Walk) {
      V == w.V && root == w.root && w.W <= W
    }
  }

  /** No edge leads from V to a vertex outside V. */
  ghost predicate Closed(E: seq<Edge>, V: set<nat>) {
    forall e :: 0 <= e < |E| ==> (E[e].src in V <==> E[e].dst in V)
  }

  ghost predicate WalkOk(E: seq<Edge>, core: set<nat>, n: nat, w: Walk) {
    && NoLoops(E) && IsCore(E, core) && Closed(E, w.V)
    && w.V !! w.W && (forall x :: x in w.Seen() ==> x < n)
    && Hung(E, core, w.W, w.root, w.paths)
    && (w.root.Some? ==> w.root.value in w.W)
    && (forall x: nat :: TouchesSet(E, core, x) ==> x in w.Seen())
  }

  lemma GrowInside(E: seq<Edge>, V: set<nat>, W: set<nat>, y: nat, e: nat)
    requires Closed(E, V) && V !! W && y !in V && y !in W
    requires forall f :: 0 <= f < |E| && f != e && Inside(E[f], W + {y}) ==> Inside(E[f], W)
    ensures forall f :: 0 <= f < |E| && f != e && Inside(E[f], V + W + {y}) ==> Inside(E[f], V + W)
  {
    forall f | 0 <= f < |E| && f != e && Inside(E[f], V + W + {y})
      ensures Inside(E[f], V + W)
    {
      if Touches(E[f], y) {
        assert Inside(E[f], W + {y});
      }
    }
  }

  lemma GrowOk(E: seq<Edge>, core: set<nat>, n: nat, w: Walk, v: nat, y: nat, e: nat)
    requires WalkOk(E, core, n, w) && v in w.W && y < n && y !in w.Seen()
    requires e < |E| && Joins(E[e], v, y)
    ensures WalkOk(E, core, n, w.Grow(v, y, e))
    ensures w.Grow(v, y, e).Seen() == w.Seen() + {y}
    ensures forall f :: 0 <= f < |E| && f != e && Inside(E[f], w.Seen() + {y}) ==> Inside(E[f], w.Seen())
  {
    hide Hung, IsCore, Closed;
    Hang(E, core, w.W, w.root, w.paths, v, y, e);
    GrowInside(E, w.V, w.W, y, e);
  }

  lemma ExtendsSize(w: Walk, w': Walk)
    requires w'.Extends(w)
    ensures |w.Seen()| <= |w'.Seen()|
  {
    SubsetSize(w.Seen(), w'.Seen());
  }

  /** The number of vertices not seen yet. */
  lemma SeenBound(E: seq<Edge>, core: set<nat>, n: nat, w: Walk, y: nat)
    requires WalkOk(E, core, n, w) && y < n && y !in w.Seen()
    ensures |w.Seen()| < |w.Seen() + {y}| <= n
  {
    SubsetSize(w.Seen() + {y}, Below(n));
  }

  /** The vertices that w saw beyond W0 have no edge out of what w saw. */
  ghost predicate NewExhausted(E: seq<Edge>, w: Walk, W0: set<nat>) {
    forall x :: x in w.W && x !in W0 ==> Exhausted(E, x, w.Seen())
  }

  lemma NewExhaustedChain(E: seq<Edge>, w1: Walk, w2: Walk, W0: set<nat>)
    requires NewExhausted(E, w1, W0) && NewExhausted(E, w2, w1.W) && w2.Extends(w1)
    ensures NewExhausted(E, w2, W0)
  {
    forall x | x in w1.W && x !in W0
      ensures Exhausted(E, x, w2.Seen())
    {
      assert Exhausted(E, x, w1.Seen());
    }
  }

  /** A walk that ran out of edges leaves no edge between what it saw and the rest. */
  lemma FinishedWalk(E: seq<Edge>, core: set<nat>, n: nat, w: Walk)
    requires WalkOk(E, core, n, w) && NewExhausted(E, w, {})
    ensures Closed(E, w.Seen())
  {
    forall e | 0 <= e < |E|
      ensures E[e].src in w.Seen() <==> E[e].dst in w.Seen()
    {
      assert E[e].src in w.W ==> Exhausted(E, E[e].src, w.Seen());
      assert E[e].dst in w.W ==> Exhausted(E, E[e].dst, w.Seen());
    }
  }

  /** The walk that has only seen the vertices K of the core: they are roots of their own. */
  ghost function CoreWalk(K: set<nat>): Walk {
    Walk({}, K, None, map v | v in K :: {})
  }

  lemma CoreWalkOk(E: seq<Edge>, core: set<nat>, n: nat, K: set<nat>)
    requires NoLoops(E) && IsCore(E, core) && forall x :: x in K ==> x < n
    requires forall x: nat :: x in K <==> TouchesSet(E, core, x)
    ensures WalkOk(E, core, n, CoreWalk(K))
  {
    forall x: nat
      ensures !Odd(E, {}, x)
    {
      assert At(E, {}, x) == {};
    }
    assert forall v :: v in K ==> OddEnds(E, core, {}, v, None);
  }

  /** A walk that starts at r, in a graph whose core vertices were all seen before. */
  lemma NewWalk(E: seq<Edge>, core: set<nat>, n: nat, V: set<nat>, r: nat)
    requires NoLoops(E) && IsCore(E, core) && Closed(E, V) && r < n && r !in V
    requires forall x :: x in V ==> x < n
    requires forall x: nat :: TouchesSet(E, core, x) ==> x in V
    ensures WalkOk(E, core, n, Walk(V, {r}, Some(r), map[r := {}]))
  {
    forall x: nat
      ensures !Odd(E, {}, x)
    {
      assert At(E, {}, x) == {};
    }
  }
}
