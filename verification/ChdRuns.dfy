/** What the two searches of chd_ph.c do to the displacements, as functions, and when they succeed. */
module ChdRuns {
  import opened Words
  import opened CountingSort
  import opened ChdMapping
  import opened ChdOrdering
  import opened ChdPlacing

  /** What stays the same during a search. */
  datatype Setting = Setting(ms: seq<MapItem>, limit: nat, n: nat, maxProbes: uint32)

  /** How far a list has come: the displacements, the buckets placed, and the buckets of the list that are left. */
  datatype Progress = Progress(disp: seq<uint32>, placed: set<nat>, left: seq<nat>)

  /** The buckets with more than s items. */
  ghost function Larger(ms: seq<MapItem>, n: nat, s: nat): set<nat> {
    set g | 0 <= g < n && |Group(ms, g)| > s
  }

  /** The buckets with exactly s items. */
  ghost function OfSize(ms: seq<MapItem>, n: nat, s: nat): seq<nat> {
    if n == 0 then [] else OfSize(ms, n - 1, s) + if |Group(ms, n - 1)| == s then [n - 1] else []
  }

  lemma {:induction false} OfSizeMember(ms: seq<MapItem>, n: nat, s: nat, g: nat)
    ensures g in OfSize(ms, n, s) <==> g < n && |Group(ms, g)| == s
  {
    hide Group;
    if n > 0 {
      OfSizeMember(ms, n - 1, s, g);
    }
  }

  /** There is only one such list. */
  lemma {:induction false} SizeListIs(ms: seq<MapItem>, n: nat, ids: seq<nat>, s: nat)
    requires SizeList(ms, n, ids, s)
    ensures ids == OfSize(ms, n, s)
    decreases n
  {
    hide Group;
    AllBelow(ms, n, ids, s);
    if n == 0 {
    } else if |Group(ms, n - 1)| == s {
      LastOfSize(ms, n, ids, s);
      var rest := ids[..|ids| - 1];
      assert ids == rest + [n - 1];
      SizeListIs(ms, n - 1, rest, s);
    } else {
      SizeListIs(ms, n - 1, ids, s);
    }
  }

  lemma AllBelow(ms: seq<MapItem>, n: nat, ids: seq<nat>, s: nat)
    requires SizeList(ms, n, ids, s)
    ensures (forall i :: 0 <= i < |ids| ==> ids[i] < n) && (n == 0 ==> ids == [])
  {
    hide Group;
    assert forall i :: 0 <= i < |ids| ==> ids[i] in ids;
    assert |ids| > 0 ==> ids[0] in ids;
  }

  lemma LastOfSize(ms: seq<MapItem>, n: nat, ids: seq<nat>, s: nat)
    requires SizeList(ms, n, ids, s) && n > 0 && |Group(ms, n - 1)| == s
    ensures ids != [] && ids[|ids| - 1] == n - 1
  {
    hide Group;
    AllBelow(ms, n, ids, s);
    var i :| 0 <= i < |ids| && ids[i] == n - 1;
  }

  // ---- all buckets of a size at once: place_buckets2 -----------------------------------------------------

  /** One displacement tried on every bucket that is left. */
  ghost function Swept(c: Setting, d: uint32, p: Progress): (q: Progress)
    requires 0 < c.n
    ensures |q.disp| == |p.disp|
    decreases |p.left|
  {
    if p.left == [] then p else
      var g, rest := p.left[0], p.left[1..];
      if g < |p.disp| && FitsAt(c.ms, c.limit, p.disp, c.n, p.placed, g, d) then
        Swept(c, d, Progress(p.disp[g := d], p.placed + {g}, rest))
      else
        var q := Swept(c, d, p.(left := rest));
        q.(left := [g] + q.left)
  }

  /** Sweeps from displacement k on, until nothing is left or the limit of probes is reached. */
  ghost function Sweeps(c: Setting, k: uint32, p: Progress): (r: (bool, Progress))
    requires 0 < c.n
    ensures |r.1.disp| == |p.disp|
    decreases TWO32 - k
  {
    if p.left == [] then (true, p) else
      var q := Swept(c, k, p);
      if k + 1 >= c.maxProbes || k + 1 >= c.n * c.n then (false, q) else Sweeps(c, k + 1, q)
  }

  /** The progress after k sweeps. */
  ghost function After(c: Setting, p: Progress, k: uint32): Progress
    requires 0 < c.n
    decreases k
  {
    if k == 0 then p else Swept(c, k - 1, After(c, p, k - 1))
  }

  /** k sweeps leave nothing, and they are fewer than the permitted ones. */
  ghost predicate EmptiedBy(c: Setting, p: Progress, k: uint32)
    requires 0 < c.n
  {
    Permitted(c.maxProbes, c.n, k) && After(c, p, k).left == []
  }

  lemma {:induction false} SweepsFrom(c: Setting, p: Progress, k: uint32)
    requires 0 < c.n && Permitted(c.maxProbes, c.n, k)
    ensures Sweeps(c, k, After(c, p, k)).0 <==> exists j: uint32 :: k <= j && EmptiedBy(c, p, j)
    decreases TWO32 - k
  {
    hide Swept;
    var q := After(c, p, k);
    if q.left == [] {
      assert EmptiedBy(c, p, k);
    } else if k + 1 < c.maxProbes && k + 1 < c.n * c.n {
      SweepsFrom(c, p, k + 1);
    }
  }

  /** A list is placed if and only if it is emptied by fewer sweeps than there are permitted probes. */
  lemma SweepsExact(c: Setting, p: Progress)
    requires 0 < c.n
    ensures Sweeps(c, 0, p).0 <==> exists k: uint32 :: EmptiedBy(c, p, k)
  {
    hide Swept;
    SweepsFrom(c, p, 0);
  }

  // ---- one bucket after the other: place_buckets1 ---------------------------------------------------------

  /** The smallest displacement from d on that fits. */
  ghost function FirstFit(c: Setting, disp: seq<uint32>, placed: set<nat>, g: nat, d: uint32): (r: Option<uint32>)
    requires 0 < c.n
    decreases TWO32 - d
  {
    if !Permitted(c.maxProbes, c.n, d) then None
    else if FitsAt(c.ms, c.limit, disp, c.n, placed, g, d) then Some(d)
    else if d + 1 == TWO32 then None
    else FirstFit(c, disp, placed, g, d + 1)
  }

  lemma {:induction false} FirstFitIs(c: Setting, disp: seq<uint32>, placed: set<nat>, g: nat, d: uint32, e: uint32)
    requires 0 < c.n && d <= e && Permitted(c.maxProbes, c.n, e) && FitsAt(c.ms, c.limit, disp, c.n, placed, g, e)
    requires forall f: nat :: d <= f < e ==> !FitsAt(c.ms, c.limit, disp, c.n, placed, g, f)
    ensures FirstFit(c, disp, placed, g, d) == Some(e)
    decreases e - d
  {
    hide FitsAt;
    if d < e {
      FirstFitIs(c, disp, placed, g, d + 1, e);
    }
  }

  lemma {:induction false} NoFirstFit(c: Setting, disp: seq<uint32>, placed: set<nat>, g: nat, d: uint32)
    requires 0 < c.n
    requires forall f: nat :: d <= f && Permitted(c.maxProbes, c.n, f) ==>
      !FitsAt(c.ms, c.limit, disp, c.n, placed, g, f)
    ensures FirstFit(c, disp, placed, g, d) == None
    decreases TWO32 - d
  {
    hide FitsAt;
    if Permitted(c.maxProbes, c.n, d) && d + 1 < TWO32 {
      NoFirstFit(c, disp, placed, g, d + 1);
    }
  }

  /** The buckets of a list placed one after the other. */
  ghost function InTurn(c: Setting, p: Progress): (r: (bool, Progress))
    requires 0 < c.n
    ensures |r.1.disp| == |p.disp|
    decreases |p.left|
  {
    if p.left == [] then (true, p) else
      var g := p.left[0];
      var d := FirstFit(c, p.disp, p.placed, g, 0);
      if d.None? || g >= |p.disp| then (false, p)
      else InTurn(c, Progress(p.disp[g := d.value], p.placed + {g}, p.left[1..]))
  }

  // ---- all lists, the largest buckets first --------------------------------------------------------------------

  ghost function ListStart(c: Setting, disp: seq<uint32>, s: nat): Progress {
    Progress(disp, Larger(c.ms, |disp|, s), OfSize(c.ms, |disp|, s))
  }

  ghost function PlaceList(c: Setting, useH: bool, p: Progress): (r: (bool, Progress))
    requires 0 < c.n
    ensures |r.1.disp| == |p.disp|
  {
    if useH then Sweeps(c, 0, p) else InTurn(c, p)
  }

  /** The lists of the buckets of sizes s, s - 1, ..., 1. */
  ghost function PlaceLists(c: Setting, useH: bool, disp: seq<uint32>, s: nat): (r: (bool, Progress))
    requires 0 < c.n
    ensures |r.1.disp| == |disp|
    decreases s
  {
    if s == 0 then (true, ListStart(c, disp, 0).(left := [])) else
      var r := PlaceList(c, useH, ListStart(c, disp, s));
      if r.0 then PlaceLists(c, useH, r.1.disp, s - 1) else r
  }

  lemma NoListsLeft(c: Setting, useH: bool, disp: seq<uint32>)
    requires 0 < c.n
    ensures PlaceLists(c, useH, disp, 0) == (true, Progress(disp, Larger(c.ms, |disp|, 0), []))
  {
  }

  /** Sizes that no bucket has change nothing. */
  lemma {:induction false} LargestSize(c: Setting, useH: bool, disp: seq<uint32>, s: nat, t: nat)
    requires 0 < c.n && s <= t && forall g: nat :: g < |disp| ==> |Group(c.ms, g)| <= s
    ensures PlaceLists(c, useH, disp, t) == PlaceLists(c, useH, disp, s)
    decreases t
  {
    hide Group, Swept, FirstFit;
    if s < t {
      var list := OfSize(c.ms, |disp|, t);
      if list != [] {
        OfSizeMember(c.ms, |disp|, t, list[0]);
      }
      LargestSize(c, useH, disp, s, t - 1);
    }
  }

  /** With a limit of at most one probe the sweeping search gives up at the first list that has buckets. */
  lemma {:induction false} FewProbesGiveUp(c: Setting, disp: seq<uint32>, s: nat, g: nat)
    requires 0 < c.n && c.maxProbes <= 1 && g < |disp| && 1 <= |Group(c.ms, g)| <= s
    ensures !PlaceLists(c, true, disp, s).0
    decreases s
  {
    hide Group, Swept;
    OfSizeMember(c.ms, |disp|, s, g);
    if OfSize(c.ms, |disp|, s) == [] {
      FewProbesGiveUp(c, disp, s - 1, g);
    }
  }
}
