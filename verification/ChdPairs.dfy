/** The searches of chd_ph.c with two keys: when both get a bin. */
module ChdPairs {
  import opened Arithmetic
  import opened Words
  import opened CountingSort
  import opened Primes
  import opened ChdMapping
  import opened ChdOrdering
  import opened ChdPlacing
  import opened ChdRuns

  // ---- what fits ---------------------------------------------------------------------------------------

  /** Under displacement 0 an item lies in the bin f, under 1 in the bin h further on. */
  lemma FirstBins(x: Item, n: nat)
    requires 2 <= n && x.f < n
    ensures Bin(x, 0, n) == x.f && Bin(x, 1, n) == Mod(x.f + x.h, n)
  {
    hide Mod, Position;
    Decode(0, 0, n);
    Decode(1, 0, n);
    PositionStart(x, n);
    PositionSteps(x, 0, 0, n);
  }

  lemma Alone(c: Setting, disp: seq<uint32>, g: nat, d: nat)
    requires 0 < c.n && 1 <= c.limit && |Group(c.ms, g)| == 1
    ensures FitsAt(c.ms, c.limit, disp, c.n, {}, g, d)
  {
    hide Gathered, Group, Position, Mod, Div;
    GatherNone(Parts(c.ms, disp, c.n));
    var ps := Displaced(c.ms, g, d, c.n);
    assert ps == [ps[0]];
    assert multiset(ps) == multiset{ps[0]};
  }

  lemma TwoAlone(c: Setting, disp: seq<uint32>, g: nat, d: nat, x: Item, y: Item)
    requires 0 < c.n && 1 <= c.limit && Group(c.ms, g) == [x, y] && Bin(x, d, c.n) != Bin(y, d, c.n)
    ensures FitsAt(c.ms, c.limit, disp, c.n, {}, g, d)
  {
    hide Gathered, Group, Position, Mod, Div;
    GatherNone(Parts(c.ms, disp, c.n));
    var ps := Displaced(c.ms, g, d, c.n);
    assert ps == [Bin(x, d, c.n), Bin(y, d, c.n)];
    assert multiset(ps) == multiset{Bin(x, d, c.n), Bin(y, d, c.n)};
  }

  lemma Second(c: Setting, disp: seq<uint32>, a: nat, b: nat, d: nat, x: Item, y: Item)
    requires 0 < c.n && 1 <= c.limit && a < |disp| && Group(c.ms, a) == [x] && Group(c.ms, b) == [y]
    requires Bin(x, disp[a], c.n) != Bin(y, d, c.n)
    ensures FitsAt(c.ms, c.limit, disp, c.n, {a}, b, d)
  {
    hide Gathered, Group, Position, Mod, Div;
    var parts, part := Parts(c.ms, disp, c.n), Displaced(c.ms, a, disp[a], c.n);
    GatherNone(parts);
    GatherMore(parts, {}, a, part);
    assert parts[a := part] == parts && {} + {a} == {a};
    assert part == [Bin(x, disp[a], c.n)] && Displaced(c.ms, b, d, c.n) == [Bin(y, d, c.n)];
    assert multiset(part) == multiset{Bin(x, disp[a], c.n)};
    assert multiset(Displaced(c.ms, b, d, c.n)) == multiset{Bin(y, d, c.n)};
  }

  // ---- lists of one and of two buckets -------------------------------------------------------------------

  /** Displacement 1 is tried, by either search. */
  ghost predicate Enough(c: Setting, useH: bool) {
    2 <= c.n && if useH then 3 <= c.maxProbes else 2 <= c.maxProbes
  }

  ghost predicate FitsEarly(c: Setting, disp: seq<uint32>, placed: set<nat>, g: nat)
    requires 0 < c.n
  {
    FitsAt(c.ms, c.limit, disp, c.n, placed, g, 0) || FitsAt(c.ms, c.limit, disp, c.n, placed, g, 1)
  }

  lemma SquareSize(n: nat)
    requires 2 <= n
    ensures 4 <= n * n
  {
    Times(2, n, n);
  }

  lemma ListOfOne(c: Setting, useH: bool, disp: seq<uint32>, placed: set<nat>, g: nat)
    requires Enough(c, useH) && g < |disp| && FitsEarly(c, disp, placed, g)
    ensures PlaceList(c, useH, Progress(disp, placed, [g])).0
    ensures useH ==> After(c, Progress(disp, placed, [g]), 2).left == []
  {
    hide FitsAt;
    SquareSize(c.n);
    var p := Progress(disp, placed, [g]);
    if useH {
      SweptOne(c, 0, p);
      SweptOne(c, 1, p);
      SweptNone(c, 1, Swept(c, 0, p));
      assert After(c, p, 1) == Swept(c, 0, p);
      assert After(c, p, 2) == Swept(c, 1, Swept(c, 0, p));
      assert EmptiedBy(c, p, 2);
      SweepsExact(c, p);
    } else {
      FitsFrom(c, disp, placed, g);
    }
  }

  lemma SweptOne(c: Setting, d: uint32, p: Progress)
    requires 0 < c.n && |p.left| == 1 && p.left[0] < |p.disp|
    ensures Swept(c, d, p).left == if FitsAt(c.ms, c.limit, p.disp, c.n, p.placed, p.left[0], d) then [] else p.left
    ensures !FitsAt(c.ms, c.limit, p.disp, c.n, p.placed, p.left[0], d) ==> Swept(c, d, p) == p
  {
    hide FitsAt;
    assert p.left == [p.left[0]] && p.left[1..] == [];
  }

  lemma SweptNone(c: Setting, d: uint32, p: Progress)
    requires 0 < c.n
    ensures p.left == [] ==> Swept(c, d, p) == p
  {
  }

  lemma FitsFrom(c: Setting, disp: seq<uint32>, placed: set<nat>, g: nat)
    requires Enough(c, false) && g < |disp| && FitsEarly(c, disp, placed, g)
    ensures InTurn(c, Progress(disp, placed, [g])).0
    ensures FitsAt(c.ms, c.limit, disp, c.n, placed, g, 0) ==> FirstFit(c, disp, placed, g, 0) == Some(0)
  {
    hide FitsAt;
    SquareSize(c.n);
    assert Permitted(c.maxProbes, c.n, 1);
    assert FirstFit(c, disp, placed, g, 1).Some? || FitsAt(c.ms, c.limit, disp, c.n, placed, g, 0);
    assert [g][1..] == [];
  }

  lemma ListOfTwo(c: Setting, useH: bool, disp: seq<uint32>, a: nat, b: nat)
    requires Enough(c, useH) && a < |disp| && b < |disp| && FitsAt(c.ms, c.limit, disp, c.n, {}, a, 0)
    requires FitsEarly(c, disp[a := 0], {a}, b)
    ensures PlaceList(c, useH, Progress(disp, {}, [a, b])).0
  {
    hide FitsAt;
    SquareSize(c.n);
    var p, q := Progress(disp, {}, [a, b]), Progress(disp[a := 0], {a}, [b]);
    assert {} + {a} == {a} && p.left[1..] == [b];
    ListOfOne(c, useH, disp[a := 0], {a}, b);
    if useH {
      assert Swept(c, 0, p) == Swept(c, 0, q);
      assert After(c, p, 1) == After(c, q, 1);
      assert After(c, p, 2) == After(c, q, 2);
      assert EmptiedBy(c, p, 2);
      SweepsExact(c, p);
    } else {
      FitsFrom(c, disp, {}, a);
    }
  }

  // ---- two items ------------------------------------------------------------------------------------------

  lemma PairGroups(x: MapItem, y: MapItem, g: nat)
    ensures Group([x, y], g) ==
      (if x.group == g then [x.value] else []) + (if y.group == g then [y.value] else [])
  {
    hide Group;
    GroupNone<Item>(g);
    assert [x] == [] + [x] && [x, y] == [x] + [y];
    GroupAppend([], x, g);
    GroupAppend([x], y, g);
  }

  /** Items of one bucket lie in different bins under displacement 0 or 1. */
  lemma SoonApart(x: Item, y: Item, n: nat)
    requires 2 <= n && x.f < n && y.f < n && 1 <= x.h < n && 1 <= y.h < n && x != y
    ensures Bin(x, 0, n) != Bin(y, 0, n) || Bin(x, 1, n) != Bin(y, 1, n)
  {
    hide Bin, Mod;
    FirstBins(x, n);
    FirstBins(y, n);
    if x.f == y.f && Mod(x.f + x.h, n) == Mod(y.f + y.h, n) {
      SameResidue(x.f + x.h, y.f + y.h, n);
      SmallMultiple(x.h - y.h, n);
    }
  }

  /** From its own bin f an item is moved on by displacement 1. */
  lemma MovedOn(y: Item, n: nat)
    requires 2 <= n && y.f < n && 1 <= y.h < n
    ensures Bin(y, 0, n) == y.f != Bin(y, 1, n)
  {
    hide Bin, Mod;
    FirstBins(y, n);
    if Mod(y.f + y.h, n) == y.f {
      SmallResidue(y.f, n);
      SameResidue(y.f + y.h, y.f, n);
      SmallMultiple(y.h, n);
    }
  }

  /** Two different items in one bucket. */
  lemma SharedBucket(c: Setting, useH: bool, disp: seq<uint32>, x: MapItem, y: MapItem)
    requires Enough(c, useH) && 1 <= c.limit && c.ms == [x, y] && x != y && x.group == y.group < |disp|
    requires x.value.f < c.n && y.value.f < c.n && 1 <= x.value.h < c.n && 1 <= y.value.h < c.n
    ensures PlaceLists(c, useH, disp, 2).0
  {
    hide FitsAt, Group, Bin, FitsEarly, PlaceList;
    var g := x.group;
    forall h: nat
      ensures |Group(c.ms, h)| == if h == g then 2 else 0
    {
      PairGroups(x, y, h);
    }
    PairGroups(x, y, g);
    assert SizeList(c.ms, |disp|, [g], 2) && SizeList(c.ms, |disp|, [], 1);
    SizeListIs(c.ms, |disp|, [g], 2);
    SizeListIs(c.ms, |disp|, [], 1);
    LargerIsEmpty(c.ms, |disp|, 2);
    SoonApart(x.value, y.value, c.n);
    BothEarly(c, disp, g, x.value, y.value);
    ListOfOne(c, useH, disp, {}, g);
    EmptyList(c, useH, PlaceList(c, useH, ListStart(c, disp, 2)).1.disp, 1);
  }

  lemma BothEarly(c: Setting, disp: seq<uint32>, g: nat, x: Item, y: Item)
    requires 0 < c.n && 1 <= c.limit && Group(c.ms, g) == [x, y]
    requires Bin(x, 0, c.n) != Bin(y, 0, c.n) || Bin(x, 1, c.n) != Bin(y, 1, c.n)
    ensures FitsEarly(c, disp, {}, g)
  {
    hide FitsAt, Group, Bin;
    if Bin(x, 0, c.n) != Bin(y, 0, c.n) {
      TwoAlone(c, disp, g, 0, x, y);
    } else {
      TwoAlone(c, disp, g, 1, x, y);
    }
  }

  lemma LargerIsEmpty(ms: seq<MapItem>, n: nat, s: nat)
    requires forall g: nat :: g < n ==> |Group(ms, g)| <= s
    ensures Larger(ms, n, s) == {}
  {
  }

  lemma EmptyList(c: Setting, useH: bool, disp: seq<uint32>, s: nat)
    requires 0 < c.n && 0 < s && OfSize(c.ms, |disp|, s) == []
    ensures PlaceLists(c, useH, disp, s) == PlaceLists(c, useH, disp, s - 1)
  {
  }

  /** Two items in buckets of their own, the first one in the bucket with the smaller number. */
  lemma OwnBuckets(c: Setting, useH: bool, disp: seq<uint32>, a: nat, b: nat, x: Item, y: Item)
    requires Enough(c, useH) && 1 <= c.limit && a < b < |disp| && Group(c.ms, a) == [x] && Group(c.ms, b) == [y]
    requires forall h: nat :: h != a && h != b ==> Group(c.ms, h) == []
    requires x.f < c.n && y.f < c.n && 1 <= y.h < c.n
    ensures PlaceLists(c, useH, disp, 2).0
  {
    hide FitsAt, Group, Bin, FitsEarly, PlaceList;
    assert SizeList(c.ms, |disp|, [a, b], 1) && SizeList(c.ms, |disp|, [], 2);
    SizeListIs(c.ms, |disp|, [a, b], 1);
    SizeListIs(c.ms, |disp|, [], 2);
    LargerIsEmpty(c.ms, |disp|, 1);
    EmptyList(c, useH, disp, 2);
    Alone(c, disp, a, 0);
    NextEarly(c, disp[a := 0], a, b, x, y);
    ListOfTwo(c, useH, disp, a, b);
  }

  lemma NextEarly(c: Setting, disp: seq<uint32>, a: nat, b: nat, x: Item, y: Item)
    requires 2 <= c.n && 1 <= c.limit && a < |disp| && disp[a] == 0 && Group(c.ms, a) == [x] && Group(c.ms, b) == [y]
    requires x.f < c.n && y.f < c.n && 1 <= y.h < c.n
    ensures FitsEarly(c, disp, {a}, b)
  {
    hide FitsAt, Group, Bin;
    FirstBins(x, c.n);
    MovedOn(y, c.n);
    if x.f != y.f {
      Second(c, disp, a, b, 0, x, y);
    } else {
      Second(c, disp, a, b, 1, x, y);
    }
  }

  /** Two different items are always placed. */
  lemma PairPlaced(c: Setting, useH: bool, disp: seq<uint32>, x: MapItem, y: MapItem)
    requires Enough(c, useH) && 1 <= c.limit && c.ms == [x, y] && x != y && x.group < |disp| && y.group < |disp|
    requires x.value.f < c.n && y.value.f < c.n && 1 <= x.value.h < c.n && 1 <= y.value.h < c.n
    ensures PlaceLists(c, useH, disp, 2).0
  {
    hide Group, PlaceLists;
    forall h: nat
      ensures Group(c.ms, h) == (if x.group == h then [x.value] else []) + (if y.group == h then [y.value] else [])
    {
      PairGroups(x, y, h);
    }
    if x.group == y.group {
      SharedBucket(c, useH, disp, x, y);
    } else if x.group < y.group {
      OwnBuckets(c, useH, disp, x.group, y.group, x.value, y.value);
    } else {
      OwnBuckets(c, useH, disp, y.group, x.group, y.value, x.value);
    }
  }
}
