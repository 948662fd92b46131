/** chd_ph_ordering: the buckets grouped by size, their items laid out again in that order. */
module ChdOrdering {
  import opened Words
  import opened CountingSort
  import opened ChdMapping

  /** The numbers of the non-empty ones among the first n buckets, keyed by their sizes. */
  ghost function BySize(sizes: seq<uint32>, n: nat): seq<Keyed<nat>>
    requires n <= |sizes|
  {
    if n == 0 then [] else
      BySize(sizes, n - 1) + if sizes[n - 1] == 0 then [] else [Keyed(n - 1, sizes[n - 1])]
  }

  lemma {:induction false} BySizePrefix(sizes: seq<uint32>, i: nat, n: nat)
    requires i <= n <= |sizes|
    ensures BySize(sizes, i) <= BySize(sizes, n) && |BySize(sizes, n)| <= n
  {
    if i < n {
      BySizePrefix(sizes, i, n - 1);
    } else if n > 0 {
      BySizePrefix(sizes, n - 1, n - 1);
    }
  }

  lemma {:induction false} BySizeMember(sizes: seq<uint32>, n: nat, x: Keyed<nat>)
    requires n <= |sizes|
    ensures x in BySize(sizes, n) <==> x.value < n && x.group == sizes[x.value] && 0 < x.group
  {
    if n > 0 {
      BySizeMember(sizes, n - 1, x);
    }
  }

  lemma BySizeGroups(sizes: seq<uint32>, max: nat)
    requires forall g :: 0 <= g < |sizes| ==> sizes[g] <= max
    ensures Groups(BySize(sizes, |sizes|), max + 1)
  {
    var b := BySize(sizes, |sizes|);
    forall i | 0 <= i < |b|
      ensures b[i].group < max + 1
    {
      BySizeMember(sizes, |sizes|, b[i]);
    }
  }

  ghost predicate Increasing(ids: seq<nat>) {
    forall i, j :: 0 <= i < j < |ids| ==> ids[i] < ids[j]
  }

  lemma {:induction false} BySizeGroupIncreasing(sizes: seq<uint32>, n: nat, s: nat)
    requires n <= |sizes|
    ensures Increasing(Group(BySize(sizes, n), s)) && forall v :: v in Group(BySize(sizes, n), s) ==> v < n
  {
    hide BySize, Group;
    if n == 0 {
      BySizeNone(sizes);
      GroupNone<nat>(s);
    } else {
      BySizeGroupIncreasing(sizes, n - 1, s);
      BySizeStep(sizes, n - 1);
      if sizes[n - 1] != 0 {
        GroupAppend<nat>(BySize(sizes, n - 1), Keyed(n - 1, sizes[n - 1]), s);
        IncreasingMore(Group(BySize(sizes, n - 1), s), n - 1);
      } else {
        assert BySize(sizes, n) == BySize(sizes, n - 1);
      }
    }
  }

  lemma IncreasingMore(ids: seq<nat>, x: nat)
    requires Increasing(ids) && forall v :: v in ids ==> v < x
    ensures Increasing(ids + [x]) && forall v :: v in ids + [x] ==> v <= x
  {
    assert forall i :: 0 <= i < |ids| ==> ids[i] in ids;
  }

  /** ids are the numbers of the buckets with exactly s items, in increasing order. */
  ghost predicate SizeList(ms: seq<MapItem>, n: nat, ids: seq<nat>, s: nat) {
    Increasing(ids) && forall g: nat :: g in ids <==> g < n && |Group(ms, g)| == s
  }

  /** Entry p of the ordered buckets: its number and where its s items lie. */
  ghost predicate Entry(ms: seq<MapItem>, ids: seq<uint32>, lists: seq<uint32>, items: seq<Item>, s: nat, p: nat) {
    p < |ids| && p < |lists| && Stretch(items, lists[p], s, Group(ms, ids[p]))
  }

  /** The list of the buckets of size s. */
  ghost predicate ListOk(ms: seq<MapItem>, n: nat, start: nat, len: nat, ids: seq<uint32>, lists: seq<uint32>,
                         items: seq<Item>, s: nat) {
    && start + len <= |ids| && SizeList(ms, n, ids[start..start + len], s)
    && forall p: nat :: start <= p < start + len ==> Entry(ms, ids, lists, items, s, p)
  }

  /** The result: a list for every size, one behind the other. */
  ghost predicate Ordered(ms: seq<MapItem>, n: nat, max: nat, starts: seq<uint32>, lens: seq<uint32>,
                          ids: seq<uint32>, lists: seq<uint32>, items: seq<Item>) {
    && |starts| == |lens| == max + 1 && |ids| == |lists| == n
    && (forall s: nat :: 1 <= s <= max ==> ListOk(ms, n, starts[s], lens[s], ids, lists, items, s))
    && (forall s, t :: 1 <= s < t <= max ==> starts[s] as int + lens[s] <= starts[t])
    && forall g: nat :: g < n ==> |Group(ms, g)| <= max
  }

  /** The first pass: how many buckets have each size. */
  method CountLists(sizes: array<uint32>, lens: array<uint32>)
    requires sizes.Length < TWO32 && lens != sizes
    requires forall g :: 0 <= g < sizes.Length ==> sizes[g] < lens.Length
    requires forall s :: 0 <= s < lens.Length ==> lens[s] == 0
    modifies lens
    ensures var b := BySize(sizes[..], sizes.Length); Counted(b, |b|, lens[..])
  {
    hide Counted, BySize;
    ghost var so, n := sizes[..], sizes.Length;
    ghost var b := BySize(so, n);
    CountNone(b, lens[..]);
    BySizeNone(so);
    for i := 0 to sizes.Length
      invariant Counted(b, |BySize(so, i)|, lens[..])
    {
      BySizePrefix(so, i + 1, n);
      BySizeStep(so, i);
      var bucketSize := sizes[i];
      if bucketSize != 0 {
        ghost var lens0 := lens[..];
        assert b[|BySize(so, i)|] == Keyed(i, bucketSize);
        CountNext(b, |BySize(so, i)|, lens0);
        lens[bucketSize] := lens[bucketSize] + 1;
        assert lens[..] == lens0[bucketSize := lens0[bucketSize] + 1];
      }
    }
  }

  lemma BySizeNone(sizes: seq<uint32>)
    ensures BySize(sizes, 0) == []
  {
  }

  lemma BySizeStep(sizes: seq<uint32>, i: nat)
    requires i < |sizes|
    ensures BySize(sizes, i + 1) == BySize(sizes, i) + if sizes[i] == 0 then [] else [Keyed(i, sizes[i])]
  {
  }

  lemma OffsetOne(sizes: seq<uint32>)
    ensures Offset(BySize(sizes, |sizes|), 0) == 0 && Offset(BySize(sizes, |sizes|), 1) == 0
  {
    var b := BySize(sizes, |sizes|);
    if Group(b, 0) != [] {
      var v := Group(b, 0)[0];
      GroupMember(b, 0, v);
      BySizeMember(sizes, |sizes|, Keyed(v, 0));
    }
    assert Offset(b, 1) == Offset(b, 0) + |Group(b, 0)|;
  }

  /** The second pass: the buckets go behind one another, by size. */
  method PlaceBuckets(sizes: array<uint32>, lists: array<uint32>, starts: array<uint32>, lens: array<uint32>)
    returns (ids: array<uint32>, newLists: array<uint32>)
    requires 0 < sizes.Length == lists.Length < TWO32 && starts.Length == lens.Length && lists[0] == 0
    requires lens != sizes && lens != lists && lens != starts && 1 < lens.Length
    requires forall g :: 0 <= g < sizes.Length ==> sizes[g] < lens.Length
    requires forall s :: 0 <= s < lens.Length ==> lens[s] == 0
    requires forall s :: 1 <= s < starts.Length ==> starts[s] == Offset(BySize(sizes[..], sizes.Length), s)
    modifies lens
    ensures fresh(ids) && fresh(newLists) && ids != newLists && ids.Length == newLists.Length == sizes.Length
    ensures var b := BySize(sizes[..], sizes.Length);
      Counted(b, |b|, lens[..]) && LaidOut<nat>(b, |b|, lens.Length, ids[..])
    ensures forall p :: 0 <= p < ids.Length ==> ids[p] < lists.Length && newLists[p] == lists[ids[p]]
  {
    hide Counted, BySize, LaidOut, Offset, Group;
    ghost var so, n := sizes[..], sizes.Length;
    ghost var b := BySize(so, n);
    ids := new uint32[sizes.Length](_ => 0);
    newLists := new uint32[sizes.Length](_ => 0);
    CountNone(b, lens[..]);
    BySizeNone(so);
    BySizePrefix(so, n, n);
    BySizeGroups(so, lens.Length - 1);
    LayNone<nat>(b, lens.Length, ids[..]);
    for i := 0 to sizes.Length
      invariant Counted(b, |BySize(so, i)|, lens[..])
      invariant LaidOut<nat>(b, |BySize(so, i)|, lens.Length, ids[..])
      invariant forall p :: 0 <= p < ids.Length ==> ids[p] < lists.Length && newLists[p] == lists[ids[p]]
    {
      BySizePrefix(so, i + 1, n);
      BySizeStep(so, i);
      var bucketSize := sizes[i];
      if bucketSize != 0 {
        ghost var lens0, ids0 := lens[..], ids[..];
        ghost var k := |BySize(so, i)|;
        assert b[k] == Keyed(i, bucketSize);
        CountNext(b, k, lens0);
        CountPrefix(b, k, lens0, bucketSize);
        LayNext<nat>(b, k, lens.Length, ids0, starts[bucketSize] as int + lens[bucketSize]);
        var position: uint32 := starts[bucketSize] + lens[bucketSize];
        ids[position] := i;
        newLists[position] := lists[i];
        lens[bucketSize] := lens[bucketSize] + 1;
        assert lens[..] == lens0[bucketSize := lens0[bucketSize] + 1];
        assert ids[..] == ids0[position := i];
      }
    }
  }

  lemma CountPrefix<T>(s: seq<Keyed<T>>, i: nat, sizes: seq<int>, k: nat)
    requires Counted(s, i, sizes) && k < |sizes|
    ensures i <= |s| && sizes[k] == |Group(s[..i], k)|
  {
  }

  /** After the second pass every list is in place, with its items still where the mapping put them. */
  lemma ListsInPlace(ms: seq<MapItem>, max: nat, lists: seq<uint32>, sizes: seq<uint32>, items: seq<Item>,
                     starts: seq<uint32>, lens: seq<uint32>, ids: seq<uint32>, newLists: seq<uint32>)
    requires Buckets(ms, lists, sizes, items) && |starts| == |lens| == max + 1 && |ids| == |newLists| == |sizes|
    requires forall g :: 0 <= g < |sizes| ==> sizes[g] <= max
    requires forall s :: 1 <= s <= max ==> starts[s] == Offset(BySize(sizes, |sizes|), s)
    requires var b := BySize(sizes, |sizes|); Counted(b, |b|, lens) && LaidOut<nat>(b, |b|, max + 1, ids)
    requires forall p :: 0 <= p < |ids| ==> ids[p] < |lists| && newLists[p] == lists[ids[p]]
    ensures Ordered(ms, |sizes|, max, starts, lens, ids, newLists, items)
  {
    hide BySize, Group, Offset;
    var b := BySize(sizes, |sizes|);
    assert b[..|b|] == b;
    forall s: nat | 1 <= s <= max
      ensures ListOk(ms, |sizes|, starts[s], lens[s], ids, newLists, items, s)
    {
      CountAt(b, lens, s);
      assert LaidOutAt<nat>(b, |b|, ids, s);
      ListInPlace(ms, lists, sizes, items, b, starts[s], lens[s], ids, newLists, s);
    }
    forall s, t | 1 <= s < t <= max
      ensures starts[s] as int + lens[s] <= starts[t]
    {
      CountAt(b, lens, s);
      OffsetGrows(b, s, t);
    }
    forall g: nat | g < |sizes|
      ensures |Group(ms, g)| <= max
    {
      assert BucketAt(ms, lists, sizes, items, g);
    }
  }

  lemma ListInPlace(ms: seq<MapItem>, lists: seq<uint32>, sizes: seq<uint32>, items: seq<Item>, b: seq<Keyed<nat>>,
                    start: nat, len: nat, ids: seq<uint32>, newLists: seq<uint32>, s: nat)
    requires Buckets(ms, lists, sizes, items) && b == BySize(sizes, |sizes|) && 1 <= s
    requires start + len <= |ids| == |newLists| && ids[start..start + len] == Group(b, s)
    requires forall p :: 0 <= p < |ids| ==> ids[p] < |lists| && newLists[p] == lists[ids[p]]
    ensures ListOk(ms, |sizes|, start, len, ids, newLists, items, s)
  {
    hide BySize, Group;
    var list := ids[start..start + len];
    BySizeGroupIncreasing(sizes, |sizes|, s);
    forall g: nat
      ensures g in list <==> g < |sizes| && |Group(ms, g)| == s
    {
      GroupMember(b, s, g);
      BySizeMember(sizes, |sizes|, Keyed(g, s));
      if g < |sizes| {
        assert BucketAt(ms, lists, sizes, items, g);
      }
    }
    forall p: nat | start <= p < start + len
      ensures Entry(ms, ids, newLists, items, s, p)
    {
      assert ids[p] == list[p - start] && ids[p] in list;
      assert BucketAt(ms, lists, sizes, items, ids[p]);
    }
  }

  // ---- laying the items out again -------------------------------------------------------------------------

  /** Position p belongs to the list of size s. */
  ghost predicate InList(starts: seq<uint32>, lens: seq<uint32>, s: nat, p: nat) {
    s < |starts| && s < |lens| && 1 <= s && starts[s] <= p < starts[s] as int + lens[s]
  }

  lemma OrderedAt(ms: seq<MapItem>, n: nat, max: nat, starts: seq<uint32>, lens: seq<uint32>, ids: seq<uint32>,
                  lists: seq<uint32>, items: seq<Item>, s: nat, p: nat)
    requires Ordered(ms, n, max, starts, lens, ids, lists, items) && InList(starts, lens, s, p)
    ensures Entry(ms, ids, lists, items, s, p) && p < n && ids[p] < n && |Group(ms, ids[p])| == s
  {
    hide Group;
    assert ListOk(ms, n, starts[s], lens[s], ids, lists, items, s);
    var list := ids[starts[s]..starts[s] as int + lens[s]];
    assert list[p - starts[s]] == ids[p] && ids[p] in list;
  }

  /** No bucket occurs twice. */
  lemma IdsDiffer(ms: seq<MapItem>, n: nat, max: nat, starts: seq<uint32>, lens: seq<uint32>, ids: seq<uint32>,
                  lists: seq<uint32>, items: seq<Item>, s: nat, p: nat, t: nat, q: nat)
    requires Ordered(ms, n, max, starts, lens, ids, lists, items)
    requires InList(starts, lens, s, p) && InList(starts, lens, t, q) && p != q
    ensures p < |ids| && q < |ids| && ids[p] != ids[q]
  {
    hide Group;
    OrderedAt(ms, n, max, starts, lens, ids, lists, items, s, p);
    OrderedAt(ms, n, max, starts, lens, ids, lists, items, t, q);
    if s == t {
      assert ListOk(ms, n, starts[s], lens[s], ids, lists, items, s);
      var list := ids[starts[s]..starts[s] as int + lens[s]];
      SliceAt(ids, starts[s], starts[s] as int + lens[s], p);
      SliceAt(ids, starts[s], starts[s] as int + lens[s], q);
    }
  }

  lemma SliceAt<T>(a: seq<T>, lo: nat, hi: nat, p: nat)
    requires lo <= p < hi <= |a|
    ensures a[lo..hi][p - lo] == a[p]
  {
  }

  /** The inner loop of the third pass. */
  method CopyItems(items: seq<Item>, from: uint32, newItems: array<Item>, to: uint32, size: uint32)
    requires from + size <= |items| && to + size <= newItems.Length
    modifies newItems
    ensures newItems[to..to as int + size] == items[from..from as int + size]
    ensures newItems[..to] == old(newItems[..to])
  {
    for j := 0 to size
      invariant newItems[to..to as int + j] == items[from..from as int + j]
      invariant newItems[..to] == old(newItems[..to])
    {
      newItems[to + j] := items[from + j];
      assert items[from..from as int + (j + 1)] == items[from..from as int + j] + [items[from + j]];
    }
  }

  /** Entry p was moved: its items lie before position. */
  ghost predicate Moved(ms: seq<MapItem>, ids: seq<uint32>, lists: seq<uint32>, items: seq<Item>, position: nat,
                        s: nat, p: nat) {
    Entry(ms, ids, lists, items, s, p) && lists[p] + s <= position
  }

  /** The third pass before entry i. */
  ghost predicate Moving(ms: seq<MapItem>, starts: seq<uint32>, lens: seq<uint32>, ids: seq<uint32>,
                          lists: seq<uint32>, items: seq<Item>, newItems: seq<Item>, position: nat, i: nat,
                          D: set<nat>) {
    && |lists| == |ids| && |newItems| == |ms|
    && position == |Gathered(GroupsOf(ms, |ids|), D)|
    && (forall s: nat, p: nat :: InList(starts, lens, s, p) && p < i ==>
          Moved(ms, ids, lists, newItems, position, s, p))
    && (forall s: nat, p: nat :: InList(starts, lens, s, p) && i <= p ==> Entry(ms, ids, lists, items, s, p))
    && forall s: nat, p: nat :: InList(starts, lens, s, p) && i <= p && p < |ids| ==> ids[p] !in D
  }

  lemma MoveStep(ms: seq<MapItem>, max: nat, starts: seq<uint32>, lens: seq<uint32>, ids: seq<uint32>,
                 lists0: seq<uint32>, lists: seq<uint32>, items: seq<Item>, newItems: seq<Item>, position: nat,
                 s: nat, i: nat, D: set<nat>, lists': seq<uint32>, newItems': seq<Item>)
    requires Ordered(ms, |ids|, max, starts, lens, ids, lists0, items) && Groups(ms, |ids|) && |ms| < TWO32
    requires Moving(ms, starts, lens, ids, lists, items, newItems, position, i, D) && InList(starts, lens, s, i)
    requires i < |ids| && position + s <= |ms| && position < TWO32 && lists' == lists[i := position]
    requires |newItems'| == |newItems| && newItems'[..position] == newItems[..position]
    requires newItems'[position..position + s] == Group(ms, ids[i])
    ensures Moving(ms, starts, lens, ids, lists', items, newItems', position + s, i + 1, D + {ids[i] as nat})
  {
    hide Group, Gathered, Ordered;
    var D', position' := D + {ids[i] as nat}, position + s;
    OrderedAt(ms, |ids|, max, starts, lens, ids, lists0, items, s, i);
    GatherRoom(ms, |ids|, D, ids[i]);
    forall t: nat, p: nat | InList(starts, lens, t, p) && p < i + 1
      ensures Moved(ms, ids, lists', newItems', position', t, p)
    {
      if p < i {
        assert Moved(ms, ids, lists, newItems, position, t, p);
        assert newItems'[lists[p]..lists[p] + t] == newItems'[..position][lists[p]..lists[p] + t];
        assert newItems[lists[p]..lists[p] + t] == newItems[..position][lists[p]..lists[p] + t];
      } else {
        OrderedAt(ms, |ids|, max, starts, lens, ids, lists0, items, t, p);
      }
    }
    forall t: nat, p: nat | InList(starts, lens, t, p) && i + 1 <= p
      ensures Entry(ms, ids, lists', items, t, p) && ids[p] !in D'
    {
      assert Entry(ms, ids, lists, items, t, p);
      IdsDiffer(ms, |ids|, max, starts, lens, ids, lists0, items, s, i, t, p);
    }
  }

  lemma MoveStart(ms: seq<MapItem>, max: nat, starts: seq<uint32>, lens: seq<uint32>, ids: seq<uint32>,
                  lists: seq<uint32>, items: seq<Item>, newItems: seq<Item>)
    requires Ordered(ms, |ids|, max, starts, lens, ids, lists, items) && |newItems| == |ms|
    ensures Moving(ms, starts, lens, ids, lists, items, newItems, 0, 0, {})
  {
    hide Group, Gathered, Ordered;
    GatherNone(GroupsOf(ms, |ids|));
    OrderedSizes(ms, |ids|, max, starts, lens, ids, lists, items);
    forall s: nat, p: nat | InList(starts, lens, s, p)
      ensures Entry(ms, ids, lists, items, s, p)
    {
      OrderedAt(ms, |ids|, max, starts, lens, ids, lists, items, s, p);
    }
  }

  lemma OrderedSizes(ms: seq<MapItem>, n: nat, max: nat, starts: seq<uint32>, lens: seq<uint32>, ids: seq<uint32>,
                     lists: seq<uint32>, items: seq<Item>)
    requires Ordered(ms, n, max, starts, lens, ids, lists, items)
    ensures |starts| == |lens| == max + 1 && |ids| == |lists| == n
    ensures forall s: nat :: 1 <= s <= max ==> starts[s] as int + lens[s] <= n
  {
    hide SizeList;
    forall s: nat | 1 <= s <= max
      ensures starts[s] as int + lens[s] <= n
    {
      assert ListOk(ms, n, starts[s], lens[s], ids, lists, items, s);
    }
  }

  /** Between two lists there is nothing to move. */
  lemma MoveSkip(ms: seq<MapItem>, max: nat, starts: seq<uint32>, lens: seq<uint32>, ids: seq<uint32>,
                 lists0: seq<uint32>, lists: seq<uint32>, items: seq<Item>, newItems: seq<Item>, position: nat,
                 s: nat, i: nat, D: set<nat>)
    requires Ordered(ms, |ids|, max, starts, lens, ids, lists0, items)
    requires Moving(ms, starts, lens, ids, lists, items, newItems, position, i, D)
    requires 1 <= s <= max && i == if s == 1 then 0 else starts[s - 1] as int + lens[s - 1]
    ensures Moving(ms, starts, lens, ids, lists, items, newItems, position, starts[s], D)
  {
    hide Group, Gathered, ListOk;
    forall t: nat | 1 <= t < s
      ensures starts[t] as int + lens[t] <= i
    {
      assert t < s - 1 ==> starts[t] as int + lens[t] <= starts[s - 1];
    }
    forall t: nat, p: nat | InList(starts, lens, t, p) && i <= p
      ensures starts[s] <= p
    {
      assert s < t ==> starts[s] as int + lens[s] <= starts[t];
    }
    assert s > 1 ==> starts[s - 1] as int + lens[s - 1] <= starts[s];
  }

  lemma MoveDone(ms: seq<MapItem>, max: nat, starts: seq<uint32>, lens: seq<uint32>, ids: seq<uint32>,
                 lists0: seq<uint32>, lists: seq<uint32>, items: seq<Item>, newItems: seq<Item>, position: nat,
                 i: nat, D: set<nat>)
    requires Ordered(ms, |ids|, max, starts, lens, ids, lists0, items) && 1 <= max
    requires Moving(ms, starts, lens, ids, lists, items, newItems, position, i, D)
    requires i == starts[max] as int + lens[max]
    ensures Ordered(ms, |ids|, max, starts, lens, ids, lists, newItems)
  {
    hide Group, Gathered, SizeList;
    forall s: nat | 1 <= s <= max
      ensures ListOk(ms, |ids|, starts[s], lens[s], ids, lists, newItems, s)
    {
      assert ListOk(ms, |ids|, starts[s], lens[s], ids, lists0, items, s);
      assert s < max ==> starts[s] as int + lens[s] <= starts[max];
      forall p: nat | starts[s] <= p < starts[s] as int + lens[s]
        ensures Entry(ms, ids, lists, newItems, s, p)
      {
        assert InList(starts, lens, s, p);
        assert Moved(ms, ids, lists, newItems, position, s, p);
      }
    }
  }

  /** The third pass: the items in the order of the buckets. */
  method MoveItems(ghost ms: seq<MapItem>, max: uint32, starts: array<uint32>, lens: array<uint32>, ids: array<uint32>,
                   lists: array<uint32>, items: seq<Item>)
    returns (newItems: array<Item>)
    requires 1 <= max && Groups(ms, ids.Length) && |items| == |ms| < TWO32
    requires Ordered(ms, ids.Length, max, starts[..], lens[..], ids[..], lists[..], items)
    requires lists != starts && lists != lens && lists != ids
    modifies lists
    ensures fresh(newItems) && newItems.Length == |ms|
    ensures Ordered(ms, ids.Length, max, starts[..], lens[..], ids[..], lists[..], newItems[..])
  {
    hide Ordered, Moving, InList, Group, Gathered, Groups;
    ghost var st, le, id, lists0 := starts[..], lens[..], ids[..], lists[..];
    OrderedSizes(ms, ids.Length, max, st, le, id, lists0, items);
    newItems := new Item[|items|](_ => Item(0, 0));
    var position: uint32 := 0;
    ghost var D: set<nat> := {};
    MoveStart(ms, max, st, le, id, lists0, items, newItems[..]);
    for s := 1 to max + 1
      invariant |lists[..]| == |id|
      invariant Moving(ms, st, le, id, lists[..], items, newItems[..], position,
                       if s == 1 then 0 else st[s - 1] as int + le[s - 1], D)
    {
      MoveSkip(ms, max, st, le, id, lists0, lists[..], items, newItems[..], position, s,
               if s == 1 then 0 else st[s - 1] as int + le[s - 1], D);
      for i := starts[s] as int to starts[s] as int + lens[s]
        invariant |lists[..]| == |id|
        invariant Moving(ms, st, le, id, lists[..], items, newItems[..], position, i, D)
      {
        NextToMove(ms, max, st, le, id, lists0, lists[..], items, newItems[..], position, s, i, D);
        ghost var lists1, new1 := lists[..], newItems[..];
        var position2: uint32 := lists[i];
        lists[i] := position;
        CopyItems(items, position2, newItems, position, s);
        assert lists[..] == lists1[i := position];
        MoveStep(ms, max, st, le, id, lists0, lists1, items, new1, position, s, i, D, lists[..], newItems[..]);
        position := position + s;
        D := D + {ids[i] as nat};
      }
    }
    MoveDone(ms, max, st, le, id, lists0, lists[..], items, newItems[..], position, st[max] as int + le[max], D);
  }

  lemma NextToMove(ms: seq<MapItem>, max: nat, starts: seq<uint32>, lens: seq<uint32>, ids: seq<uint32>,
                   lists0: seq<uint32>, lists: seq<uint32>, items: seq<Item>, newItems: seq<Item>, position: nat,
                   s: nat, i: nat, D: set<nat>)
    requires Ordered(ms, |ids|, max, starts, lens, ids, lists0, items) && Groups(ms, |ids|) && |items| == |ms|
    requires Moving(ms, starts, lens, ids, lists, items, newItems, position, i, D)
    requires 1 <= s <= max && starts[s] <= i < starts[s] as int + lens[s]
    ensures InList(starts, lens, s, i) && i < |ids| == |lists| && position + s <= |ms|
    ensures Stretch(items, lists[i], s, Group(ms, ids[i]))
  {
    hide Group, Gathered, Ordered;
    OrderedSizes(ms, |ids|, max, starts, lens, ids, lists0, items);
    assert InList(starts, lens, s, i);
    OrderedAt(ms, |ids|, max, starts, lens, ids, lists0, items, s, i);
    assert Entry(ms, ids, lists, items, s, i);
    GatherRoom(ms, |ids|, D, ids[i]);
  }

  /** chd_ph_ordering */
  method Order(ghost ms: seq<MapItem>, lists: array<uint32>, sizes: array<uint32>, items: array<Item>, max: uint32)
    returns (starts: array<uint32>, lens: array<uint32>, ids: array<uint32>, newLists: array<uint32>,
             newItems: array<Item>)
    requires 1 <= max < TWO32 - 1 && 0 < lists.Length == sizes.Length < TWO32 && items.Length == |ms| < TWO32
    requires Buckets(ms, lists[..], sizes[..], items[..]) && lists[0] == 0
    requires forall g :: 0 <= g < sizes.Length ==> sizes[g] <= max
    ensures fresh(starts) && fresh(lens) && fresh(ids) && fresh(newLists) && fresh(newItems)
    ensures starts != lens && starts != ids && starts != newLists && lens != ids && lens != newLists && ids != newLists
    ensures ids.Length == newLists.Length == sizes.Length && newItems.Length == |ms|
    ensures Ordered(ms, sizes.Length, max, starts[..], lens[..], ids[..], newLists[..], newItems[..])
  {
    hide Buckets, Ordered, BySize, Counted, LaidOut, Offset, Groups;
    starts := new uint32[max + 1](_ => 0);
    lens := new uint32[max + 1](_ => 0);
    CountLists(sizes, lens);
    ghost var b := BySize(sizes[..], sizes.Length);
    BySizeGroups(sizes[..], max);
    BySizePrefix(sizes[..], sizes.Length, sizes.Length);
    OffsetOne(sizes[..]);
    ghost var counts := lens[..];
    EmptyGroupZero(sizes[..], counts);
    Starts<nat>(b, starts, lens, 1);
    ids, newLists := PlaceBuckets(sizes, lists, starts, lens);
    ListsInPlace(ms, max, lists[..], sizes[..], items[..], starts[..], lens[..], ids[..], newLists[..]);
    BucketGroups(ms, lists[..], sizes[..], items[..]);
    newItems := MoveItems(ms, max, starts, lens, ids, newLists, items[..]);
  }

  lemma BucketGroups(ms: seq<MapItem>, lists: seq<uint32>, sizes: seq<uint32>, items: seq<Item>)
    requires Buckets(ms, lists, sizes, items)
    ensures Groups(ms, |sizes|)
  {
  }

  lemma EmptyGroupZero(sizes: seq<uint32>, lens: seq<uint32>)
    requires var b := BySize(sizes, |sizes|); Counted(b, |b|, lens)
    requires 0 < |lens|
    ensures lens[0] == 0
  {
    var b := BySize(sizes, |sizes|);
    CountAt(b, lens, 0);
    OffsetOne(sizes);
    assert Offset(b, 1) == Offset(b, 0) + |Group(b, 0)|;
  }
}
