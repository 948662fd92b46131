/** bmz.c: three keys for which every graph after the first is refused although it has no cycle. */
module BmzRefusal {
  import opened Words
  import opened Counting
  import opened Multigraph
  import opened TreePaths
  import opened Graphs
  import opened BmzLabels
  import opened BmzRuns
  import opened Bmz

  const TRIANGLE := [Edge(0, 1), Edge(1, 2), Edge(2, 0)]
  const PATH := [Edge(0, 1), Edge(1, 2), Edge(2, 3)]

  /** The seeds 0 and 1 give the triangle, the seeds 2 and 3 the path. */
  function ExampleHash(s: uint32, key: uint32): uint32 {
    if s == 0 || s == 2 then key else if s == 1 then (key as int + 1) % 3 else (key as int + 1) % 4
  }

  /** Three keys and the four vertices they get. */
  function ExampleJob(): Job<uint32> {
    Job([0, 1, 2], 4, ExampleHash, t => if t == 0 then (0, 1) else (2, 3))
  }

  lemma ExampleGraphs(t: nat)
    ensures ExampleJob().GraphOf(t) == if t == 0 then TRIANGLE else PATH
  {
    var E := ExampleJob().GraphOf(t);
    assert |E| == 3;
    if t == 0 {
      assert E[0] == Edge(0, 1) && E[1] == Edge(1, 2) && E[2] == Edge(2, 0);
    } else {
      assert E[0] == Edge(0, 1) && E[1] == Edge(1, 2) && E[2] == Edge(2, 3);
    }
  }

  lemma BothSimple()
    ensures SimpleGraph(TRIANGLE) && SimpleGraph(PATH)
  {
  }

  lemma TriangleHasCycle()
    ensures HasCycle(TRIANGLE)
  {
    assert Cycle(TRIANGLE, [0, 1, 2], [0, 1, 2]);
  }

  lemma PathHasNoCycle()
    ensures !HasCycle(PATH)
  {
    if vs: seq<nat>, es: seq<nat> :| Cycle(PATH, vs, es) {
      var C := set e | e in es;
      assert es[0] in C;
      CycleIsMinDegreeTwo(PATH, vs, es);
      OnlyPathEdges(C);
      assert false;
    }
  }

  /** The path comes apart from its ends. */
  lemma OnlyPathEdges(C: set<nat>)
    requires MinDegreeTwo(PATH, C)
    ensures C == {}
  {
    assert NoPendantAt(PATH, C, 0) && NoPendantAt(PATH, C, 1) && NoPendantAt(PATH, C, 3);
    assert 0 in C ==> Pendant(PATH, C, 0, 0);
    assert 1 in C ==> Pendant(PATH, C, 1, 1);
    assert 2 in C ==> Pendant(PATH, C, 3, 2);
  }

  /** Every vertex of the triangle is an end of two edges. */
  lemma TriangleDegrees(v: nat)
    ensures NoPendantAt(TRIANGLE, {0, 1, 2}, v)
  {
    assert Touches(TRIANGLE[0], 0) && Touches(TRIANGLE[2], 0);
    assert Touches(TRIANGLE[0], 1) && Touches(TRIANGLE[1], 1);
    assert Touches(TRIANGLE[1], 2) && Touches(TRIANGLE[2], 2);
  }

  lemma TriangleCore()
    ensures CoreVertices(TRIANGLE, 4) == {0, 1, 2}
  {
    var C: set<nat> := {0, 1, 2};
    forall v
      ensures NoPendantAt(TRIANGLE, C, v)
    {
      TriangleDegrees(v);
    }
    assert MinDegreeTwo(TRIANGLE, C);
    hide MinDegreeTwo, NoPendantAt;
    forall v: nat | v < 4
      ensures InCore(TRIANGLE, v) <==> v < 3
    {
      if v < 3 {
        assert v in C && Touches(TRIANGLE[v], v);
        assert TouchesSet(TRIANGLE, C, v);
      }
    }
  }

  // ---- the labelling of the triangle ---------------------------------------------------------------------

  /** Vertex 0 has label 0. */
  function FirstState(): Labelling {
    Labelling([0, 0, 0, 0], [true, false, false, false], [false, false, false], 0)
  }

  /** Vertex 2 has label 1, so that the edge between them is number 1. */
  function SecondState(): Labelling {
    Labelling([0, 0, 1, 0], [true, false, true, false], [false, true, false], 1)
  }

  lemma TriangleNeighbors()
    ensures Neighbors(TRIANGLE, 0) == [2, 1]
  {
    assert TRIANGLE[..2] == [Edge(0, 1), Edge(1, 2)] && TRIANGLE[..2][..1] == [Edge(0, 1)];
    assert [Edge(0, 1)][..0] == [];
    assert Neighbors([], 0) == [];
    assert Neighbors([Edge(0, 1)], 0) == [1];
    assert Neighbors(TRIANGLE[..2], 0) == [1];
  }

  lemma FirstLabelled()
    ensures Started(Unlabelled(4, 3), 0) == FirstState()
  {
    LargestIs(Unlabelled(4, 3).used, 1);
    assert Unlabelled(4, 3).g[0 := 0] == [0, 0, 0, 0];
    assert Unlabelled(4, 3).visited[0 := true] == [true, false, false, false];
    assert Unlabelled(4, 3).used == [false, false, false];
  }

  /** Label 1 fits vertex 2: its only labelled neighbor is vertex 0. */
  lemma SecondLabelled()
    ensures VisitOne(TRIANGLE, FirstState(), 2) == Some(SecondState())
  {
    var s := FirstState();
    assert Marked(s.visited) == {0} by { OneMarked(); }
    assert s.Fitting(TRIANGLE, 2, 1);
    LeastLabelIs(TRIANGLE, s, 2, 1, Some(1));
    forall z: nat | z < 3
      ensures Takes(TRIANGLE, s.g, {0}, 2, 1, z) <==> z == 1
    {
      assert Touches(TRIANGLE[2], 2) && Opposite(TRIANGLE[2], 2) == 0;
    }
    assert UsedAfter(TRIANGLE, s, 2, 1) == [false, true, false];
    assert s.g[2 := 1] == [0, 0, 1, 0] && s.visited[2 := true] == [true, false, true, false];
  }

  lemma OneMarked()
    ensures Marked([true, false, false, false]) == {0}
  {
    assert Below(4) == {0, 1, 2, 3};
  }

  lemma TwoMarked()
    ensures Marked([true, false, true, false]) == {0, 2}
  {
    assert Below(4) == {0, 1, 2, 3};
  }

  /** No label above 1 fits vertex 1: with vertex 2 it would make an edge number of 3 or more. */
  lemma ThirdStuck()
    ensures VisitOne(TRIANGLE, SecondState(), 1) == None
  {
    var s := SecondState();
    TwoMarked();
    forall z: nat | 2 <= z < 3
      ensures !s.Fitting(TRIANGLE, 1, z)
    {
      assert Touches(TRIANGLE[1], 1) && Opposite(TRIANGLE[1], 1) == 2;
    }
    LeastLabelIs(TRIANGLE, s, 1, 2, None);
  }

  lemma TriangleStuck()
    ensures LabelRun(TRIANGLE, 4, 3) == None
  {
    hide VisitOne, CoreVertices, Neighbors, Started, Unlabelled;
    var K: set<nat> := {0, 1, 2};
    TriangleCore();
    TriangleNeighbors();
    FirstLabelled();
    SecondLabelled();
    ThirdStuck();
    assert Explore(TRIANGLE, K, 0, 1, SecondState(), [2]) == None;
    assert Explore(TRIANGLE, K, 0, 0, FirstState(), []) == None;
    assert [0 as nat][1..] == [];
    assert Search(TRIANGLE, K, FirstState(), [0]) == None;
    assert !Unlabelled(4, 3).visited[0] by { NothingVisited(); }
  }

  lemma NothingVisited()
    ensures !Unlabelled(4, 3).visited[0]
  {
  }

  /** The triangle is refused, and then every path is. */
  lemma AllRefused()
    ensures Rounds(ExampleJob(), 0, ITERATIONS_MAP, false) == None
  {
    hide HasCycle, LabelRun, SimpleGraph, Rounds;
    var j := ExampleJob();
    ExampleGraphs(0);
    BothSimple();
    TriangleHasCycle();
    TriangleStuck();
    PathHasNoCycle();
    NextRound(j, 0, ITERATIONS_MAP, false);
    NextDraw(j, 0, ITERATIONS);
    ForestsRefused(j, 1, ITERATIONS_MAP - 1);
    var r := Rounds(j, 1, ITERATIONS_MAP - 1, true);
    if r.Some? {
      ExampleGraphs(r.value);
    }
  }

  /** bmz_new fails although it draws graphs without cycles in every round but the first. */
  method RefusedExample() returns (r: Option<Bmz>, ghost j: Job<uint32>)
    ensures j == ExampleJob() && r == None
    ensures forall t: nat :: t > 0 ==> SimpleGraph(j.GraphOf(t)) && !HasCycle(j.GraphOf(t))
  {
    hide HasCycle, SimpleGraph;
    j := ExampleJob();
    AllRefused();
    BothSimple();
    PathHasNoCycle();
    forall t: nat | t > 0
      ensures SimpleGraph(j.GraphOf(t)) && !HasCycle(j.GraphOf(t))
    {
      ExampleGraphs(t);
    }
    var e := ExampleJob();
    r := New(e.keys, e.n, e.hash, e.seeds);
  }
}
