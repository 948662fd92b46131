/** chd_ph_mapping and chd_ph_ordering: keys into buckets, buckets by size, by counting passes. */
module ChdMapping {
  import opened Words
  import opened Counting
  import opened CountingSort

  /** chd_ph_item_t: what is left of a key once it is in a bucket. */
  datatype Item = Item(f: uint32, h: uint32)

  /** chd_ph_map_item_t: an item and the number of its bucket. */
  type MapItem = Keyed<Item>

  ghost predicate NoDuplicates(ms: seq<MapItem>, g: nat) {
    Distinct(Group(ms, g))
  }

  /** The n elements from lo on are s. */
  ghost predicate Stretch<T>(a: seq<T>, lo: nat, n: nat, s: seq<T>) {
    n == |s| && lo + n <= |a| && a[lo..lo + n] == s
  }

  /** The buckets hold the items of ms: bucket g is the stretch of sizes[g] items from lists[g] on. */
  ghost predicate Buckets(ms: seq<MapItem>, lists: seq<uint32>, sizes: seq<uint32>, items: seq<Item>) {
    && |lists| == |sizes| && Groups(ms, |lists|)
    && forall g: nat :: g < |lists| ==> BucketAt(ms, lists, sizes, items, g)
  }

  ghost predicate BucketAt(ms: seq<MapItem>, lists: seq<uint32>, sizes: seq<uint32>, items: seq<Item>, g: nat)
    requires g < |lists| == |sizes|
  {
    Stretch(items, lists[g], sizes[g], Group(ms, g))
  }

  /** The first pass of chd_ph_mapping: counts the keys of every bucket. */
  method CountSizes(ms: seq<MapItem>, sizes: array<uint32>, maxBucketSize: uint32) returns (max: uint32)
    requires Groups(ms, sizes.Length) && maxBucketSize <= |ms| < TWO32
    requires forall g :: 0 <= g < sizes.Length ==> sizes[g] == 0
    modifies sizes
    ensures Counted(ms, |ms|, sizes[..]) && maxBucketSize <= max <= |ms|
    ensures forall g :: 0 <= g < sizes.Length ==> sizes[g] <= max
  {
    hide Counted;
    max := maxBucketSize;
    CountNone(ms, sizes[..]);
    for i := 0 to |ms|
      invariant Counted(ms, i, sizes[..]) && maxBucketSize <= max <= |ms|
      invariant forall g :: 0 <= g < sizes.Length ==> sizes[g] <= max
    {
      var g := ms[i].group;
      ghost var sizes0 := sizes[..];
      CountNext(ms, i, sizes0);
      sizes[g] := sizes[g] + 1;
      assert sizes[..] == sizes0[g := sizes0[g] + 1];
      if sizes[g] > max {
        max := sizes[g];
      }
    }
  }

  lemma CountNone<T>(s: seq<Keyed<T>>, sizes: seq<int>)
    requires forall k :: 0 <= k < |sizes| ==> sizes[k] == 0
    ensures Counted(s, 0, sizes)
  {
  }

  lemma CountAt<T>(s: seq<Keyed<T>>, sizes: seq<int>, k: nat)
    requires Counted(s, |s|, sizes) && k < |sizes|
    ensures sizes[k] == |Group(s, k)|
  {
    assert s[..|s|] == s;
  }

  /** The starts of the groups from number first on; the sizes go back to 0. */
  method Starts<T>(ghost s: seq<Keyed<T>>, lists: array<uint32>, sizes: array<uint32>, first: nat)
    requires first < lists.Length == sizes.Length && lists != sizes && Offset(s, first) == 0
    requires Groups(s, lists.Length) && |s| < TWO32 && Counted(s, |s|, sizes[..])
    modifies lists, sizes
    ensures forall g :: first <= g < lists.Length ==> lists[g] == Offset(s, g) && sizes[g] == 0
    ensures forall g :: 0 <= g < first ==> sizes[g] == old(sizes[g])
  {
    hide Counted, Offset;
    ghost var sizes0 := sizes[..];
    OffsetTotal(s, lists.Length);
    lists[first] := 0;
    for i := first + 1 to lists.Length
      invariant sizes[i - 1..] == sizes0[i - 1..]
      invariant forall g :: first <= g < i ==> lists[g] == Offset(s, g)
      invariant forall g :: first <= g < i - 1 ==> sizes[g] == 0
      invariant forall g :: 0 <= g < first ==> sizes[g] == sizes0[g]
    {
      assert sizes[i - 1] == sizes[i - 1..][0] == sizes0[i - 1];
      CountAt(s, sizes0, i - 1);
      OffsetStep(s, i - 1);
      OffsetGrows(s, i, lists.Length);
      lists[i] := lists[i - 1] + sizes[i - 1];
      sizes[i - 1] := 0;
      assert sizes[i..] == sizes0[i..];
    }
    sizes[lists.Length - 1] := 0;
  }

  lemma OffsetZero<T>(s: seq<Keyed<T>>)
    ensures Offset(s, 0) == 0
  {
  }

  /** Filling in progress: i items were inserted, none of them twice into a bucket. */
  ghost predicate Filling(ms: seq<MapItem>, i: nat, lists: seq<uint32>, sizes: seq<uint32>, items: seq<Item>) {
    && |lists| == |sizes| && |items| == |ms| && LaidOut(ms, i, |lists|, items) && Counted(ms, i, sizes)
    && (forall g: nat :: g < |lists| ==> lists[g] == Offset(ms, g))
    && forall g: nat :: g < |lists| ==> NoDuplicates(ms[..i], g)
  }

  lemma FillingAt(ms: seq<MapItem>, i: nat, lists: seq<uint32>, sizes: seq<uint32>, items: seq<Item>, g: nat)
    requires Filling(ms, i, lists, sizes, items) && g < |lists|
    ensures lists[g] == Offset(ms, g) && Stretch(items, lists[g], sizes[g], Group(ms[..i], g))
  {
    assert LaidOutAt(ms, i, items, g);
  }

  lemma FillNext(ms: seq<MapItem>, i: nat, lists: seq<uint32>, sizes: seq<uint32>, items: seq<Item>, g: nat,
                 sizes': seq<uint32>, items': seq<Item>)
    requires Filling(ms, i, lists, sizes, items) && i < |ms| && g == ms[i].group < |lists|
    requires ms[i].value !in Group(ms[..i], g) && |ms| < TWO32
    requires lists[g] + sizes[g] < |items| && sizes' == sizes[g := sizes[g] + 1]
    requires items' == items[lists[g] + sizes[g] := ms[i].value]
    ensures Filling(ms, i + 1, lists, sizes', items')
  {
    FillingAt(ms, i, lists, sizes, items, g);
    LayNext(ms, i, |lists|, items, lists[g] + sizes[g]);
    CountNext(ms, i, sizes);
    var next := ms[..i + 1];
    assert next == ms[..i] + [ms[i]];
    forall k: nat | k < |lists|
      ensures NoDuplicates(next, k)
    {
      assert NoDuplicates(ms[..i], k);
      GroupAppend(ms[..i], ms[i], k);
    }
  }

  lemma StretchAt<T>(a: seq<T>, lo: nat, n: nat, s: seq<T>, k: nat)
    requires Stretch(a, lo, n, s) && k < n
    ensures lo + k < |a| && k < |s| && a[lo + k] == s[k]
  {
    assert a[lo..lo + n][k] == s[k];
  }

  /** chd_ph_bucket_insert: refuses an item that its bucket has already. */
  method BucketInsert(ms: seq<MapItem>, i: nat, lists: array<uint32>, sizes: array<uint32>, items: array<Item>)
    returns (ok: bool)
    requires i < |ms| < TWO32 && ms[i].group < lists.Length && lists != sizes
    requires Filling(ms, i, lists[..], sizes[..], items[..])
    modifies sizes, items
    ensures ok <==> NoDuplicates(ms[..i + 1], ms[i].group)
    ensures ok ==> Filling(ms, i + 1, lists[..], sizes[..], items[..])
  {
    hide Filling, NoDuplicates, Group, Offset;
    var g, item := ms[i].group, ms[i].value;
    FillingSizes(ms, i, lists[..], sizes[..], items[..]);
    FillingAt(ms, i, lists[..], sizes[..], items[..], g);
    RoomFor(ms, i, lists.Length);
    var p: nat := lists[g];
    InsertVerdict(ms, i, g);
    ghost var so := Group(ms[..i], g);
    for k := 0 to sizes[g]
      invariant p == lists[g] + k
      invariant forall j :: 0 <= j < k ==> so[j] != item
    {
      assert items[p] == so[k] by { StretchAt(items[..], lists[g], sizes[g], so, k); }
      if items[p] == item {
        assert item in so;
        return false;
      }
      p := p + 1;
    }
    ghost var sizes0, items0 := sizes[..], items[..];
    items[p] := item;
    sizes[g] := sizes[g] + 1;
    assert items[..] == items0[lists[g] + sizes0[g] := item] && sizes[..] == sizes0[g := sizes0[g] + 1];
    FillNext(ms, i, lists[..], sizes0, items0, g, sizes[..], items[..]);
    return true;
  }

  lemma FillingSizes(ms: seq<MapItem>, i: nat, lists: seq<uint32>, sizes: seq<uint32>, items: seq<Item>)
    requires Filling(ms, i, lists, sizes, items)
    ensures |lists| == |sizes| && |items| == |ms| && Groups(ms, |lists|)
    ensures forall g: nat :: g < |lists| ==> NoDuplicates(ms[..i], g)
  {
  }

  lemma RoomFor(ms: seq<MapItem>, i: nat, n: nat)
    requires i < |ms| && Groups(ms, n)
    ensures Offset(ms, ms[i].group) + |Group(ms[..i], ms[i].group)| < |ms|
  {
    hide Group, Offset;
    var g := ms[i].group;
    GroupRoom(ms, i);
    OffsetStep(ms, g);
    OffsetGrows(ms, g + 1, n);
    OffsetTotal(ms, n);
  }

  lemma InsertVerdict(ms: seq<MapItem>, i: nat, g: nat)
    requires i < |ms| && g == ms[i].group && NoDuplicates(ms[..i], g)
    ensures NoDuplicates(ms[..i + 1], g) <==> ms[i].value !in Group(ms[..i], g)
  {
    var so := Group(ms[..i], g);
    assert ms[..i + 1] == ms[..i] + [ms[i]];
    GroupAppend(ms[..i], ms[i], g);
    if ms[i].value in so {
      var k :| 0 <= k < |so| && so[k] == ms[i].value;
      assert (so + [ms[i].value])[k] == (so + [ms[i].value])[|so|];
    }
  }

  /** One attempt of chd_ph_mapping: it fails exactly when a bucket gets the same item twice. */
  method FillBuckets(ms: seq<MapItem>, lists: array<uint32>, sizes: array<uint32>, items: array<Item>,
                     maxBucketSize: uint32)
    returns (ok: bool, max: uint32)
    requires 0 < lists.Length == sizes.Length && lists != sizes && items.Length == |ms| < TWO32
    requires Groups(ms, lists.Length) && maxBucketSize <= |ms|
    modifies lists, sizes, items
    ensures maxBucketSize <= max <= |ms|
    ensures ok <==> forall g: nat :: g < lists.Length ==> NoDuplicates(ms, g)
    ensures ok ==> Buckets(ms, lists[..], sizes[..], items[..]) && lists[0] == 0
    ensures ok ==> forall g :: 0 <= g < lists.Length ==> sizes[g] <= max
  {
    hide Filling, NoDuplicates, Counted, Groups, Buckets;
    for g := 0 to sizes.Length // chd_ph_bucket_clean
      invariant forall k :: 0 <= k < g ==> sizes[k] == 0
    {
      sizes[g] := 0;
    }
    max := CountSizes(ms, sizes, maxBucketSize);
    ghost var counts := sizes[..];
    OffsetZero(ms);
    Starts(ms, lists, sizes, 0);
    FillNone(ms, lists[..], sizes[..], items[..]);
    for i := 0 to |ms|
      invariant Filling(ms, i, lists[..], sizes[..], items[..]) && lists[0] == 0
    {
      GroupOf(ms, lists.Length, i);
      var inserted := BucketInsert(ms, i, lists, sizes, items);
      if !inserted {
        DuplicateStays(ms, i + 1, ms[i].group);
        return false, max;
      }
    }
    Filled(ms, lists[..], sizes[..], items[..]);
    forall g | 0 <= g < lists.Length
      ensures sizes[g] <= max
    {
      CountAt(ms, counts, g);
      assert counts[g] <= max;
    }
    return true, max;
  }

  lemma GroupOf(ms: seq<MapItem>, n: nat, i: nat)
    requires Groups(ms, n) && i < |ms|
    ensures ms[i].group < n
  {
  }

  lemma FillNone(ms: seq<MapItem>, lists: seq<uint32>, sizes: seq<uint32>, items: seq<Item>)
    requires |lists| == |sizes| && |items| == |ms| && Groups(ms, |lists|)
    requires forall g :: 0 <= g < |lists| ==> lists[g] == Offset(ms, g) && sizes[g] == 0
    ensures Filling(ms, 0, lists, sizes, items)
  {
    LayNone(ms, |lists|, items);
  }

  lemma DuplicateStays(ms: seq<MapItem>, i: nat, g: nat)
    requires i <= |ms| && !NoDuplicates(ms[..i], g)
    ensures !NoDuplicates(ms, g)
  {
    GroupPrefix(ms, i, g);
    var a, b := Group(ms[..i], g), Group(ms, g);
    var j, k :| 0 <= j < k < |a| && a[j] == a[k];
    assert b[j] == b[k];
  }

  lemma Filled(ms: seq<MapItem>, lists: seq<uint32>, sizes: seq<uint32>, items: seq<Item>)
    requires Filling(ms, |ms|, lists, sizes, items)
    ensures Buckets(ms, lists, sizes, items) && |lists| == |sizes|
    ensures forall g: nat :: g < |lists| ==> NoDuplicates(ms, g) && sizes[g] == |Group(ms, g)|
  {
    assert ms[..|ms|] == ms;
    forall g: nat | g < |lists|
      ensures BucketAt(ms, lists, sizes, items, g) && NoDuplicates(ms, g)
    {
      FillingAt(ms, |ms|, lists, sizes, items, g);
      assert NoDuplicates(ms[..|ms|], g);
    }
  }
}
