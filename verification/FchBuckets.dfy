/** fch_buckets.c: growing buckets of keys, and their indexes by decreasing size. */
module FchBuckets {
  import opened Counting
  import opened CountingSort

  /** fch_buckets_t; the growing arrays of entries are sequences. */
  class Buckets<Key> {
    const values: array<seq<Key>>
    var maxSize: nat

    /** maxSize is the size of the largest bucket. */
    ghost predicate Valid()
      reads this, values
    {
      && (forall b :: 0 <= b < values.Length ==> |values[b]| <= maxSize)
      && (maxSize > 0 ==> exists b :: 0 <= b < values.Length && |values[b]| == maxSize)
    }

    /** The buckets hold the keys of s by their groups. */
    ghost predicate Holds(s: seq<Keyed<Key>>)
      reads this, values
    {
      Valid() && Groups(s, values.Length) && forall b: nat :: b < values.Length ==> values[b] == Group(s, b)
    }

    constructor (nbuckets: nat)
      ensures values.Length == nbuckets && fresh(values) && Holds([]) && maxSize == 0
    {
      values := new seq<Key>[nbuckets](_ => []);
      maxSize := 0;
    }

    /** fch_buckets_insert */
    method Insert(index: nat, key: Key, ghost s: seq<Keyed<Key>>)
      requires Holds(s) && index < values.Length
      modifies this`maxSize, values
      ensures Holds(s + [Keyed(key, index)]) && maxSize <= old(maxSize) + 1
    {
      forall b: nat | b < values.Length
        ensures Group(s + [Keyed(key, index)], b) == if b == index then Group(s, b) + [key] else Group(s, b)
      {
        GroupAppend(s, Keyed(key, index), b);
      }
      ghost var b :| maxSize > 0 ==> 0 <= b < values.Length && |values[b]| == maxSize;
      ghost var v0 := values[..];
      values[index] := values[index] + [key];
      assert maxSize > 0 ==> |values[b]| >= maxSize;
      if |values[index]| > maxSize {
        maxSize := |values[index]|;
      }
    }
  }

  // ---- indexes by decreasing size ---------------------------------------------------------------------

  /** The first n bucket indexes, keyed by how much smaller than the largest their buckets are. */
  ghost function BySize(sizes: seq<nat>, max: nat, n: nat): (s: seq<Keyed<nat>>)
    requires n <= |sizes| && forall b :: 0 <= b < |sizes| ==> sizes[b] <= max
    ensures |s| == n && forall b :: 0 <= b < n ==> s[b] == Keyed(b, max - sizes[b])
  {
    seq(n, b requires 0 <= b < n => Keyed(b, (max - sizes[b]) as nat))
  }

  /** The groups one behind the other. */
  ghost function Flat<T>(s: seq<Keyed<T>>, n: nat): seq<T> {
    if n == 0 then [] else Flat(s, n - 1) + Group(s, n - 1)
  }

  lemma {:induction false} FlatLength<T>(s: seq<Keyed<T>>, n: nat)
    ensures |Flat(s, n)| == Offset(s, n)
  {
    if n > 0 {
      FlatLength(s, n - 1);
    }
  }

  /** A finished layout holds the groups one behind the other. */
  lemma {:induction false} LaidOutIsFlat<T>(s: seq<Keyed<T>>, n: nat, a: seq<T>, k: nat)
    requires LaidOut(s, |s|, n, a) && k <= n
    ensures Offset(s, k) <= |a| && a[..Offset(s, k)] == Flat(s, k)
    decreases k
  {
    hide Group;
    assert s[..|s|] == s;
    if k > 0 {
      LaidOutIsFlat(s, n, a, k - 1);
      assert LaidOutAt(s, |s|, a, k - 1);
      OffsetStep(s, k - 1);
      var lo, hi := Offset(s, k - 1), Offset(s, k);
      assert a[..hi] == a[..lo] + a[lo..hi];
    }
  }

  lemma InGroup(sizes: seq<nat>, max: nat, k: nat, v: nat)
    requires forall b :: 0 <= b < |sizes| ==> sizes[b] <= max
    ensures v in Group(BySize(sizes, max, |sizes|), k) <==> v < |sizes| && max - sizes[v] == k
  {
    var s := BySize(sizes, max, |sizes|);
    GroupMember(s, k, v);
    if v < |sizes| && max - sizes[v] == k {
      assert s[v] == Keyed(v, k);
    }
    if Keyed(v, k) in s {
      var b :| 0 <= b < |s| && s[b] == Keyed(v, k);
    }
  }

  /** Indexes of non-increasing bucket sizes, each once. */
  ghost predicate SortedIndexes(sizes: seq<nat>, q: seq<nat>) {
    && Bijection(q, |sizes|)
    && forall i, j :: 0 <= i < j < |q| ==> sizes[q[j]] <= sizes[q[i]]
  }

  /** What has keys comes before the first empty bucket. */
  lemma NotAfter(sizes: seq<nat>, order: seq<nat>, i: nat, p: nat)
    requires SortedIndexes(sizes, order) && i <= |order| && p < |order| && sizes[order[p]] > 0
    requires i < |order| ==> sizes[order[i]] == 0
    ensures p < i
  {
  }

  lemma {:induction false} GroupDistinct(sizes: seq<nat>, max: nat, n: nat, k: nat)
    requires n <= |sizes| && forall b :: 0 <= b < |sizes| ==> sizes[b] <= max
    ensures Distinct(Group(BySize(sizes, max, n), k)) && forall v :: v in Group(BySize(sizes, max, n), k) ==> v < n
    decreases n
  {
    hide Group;
    var s := BySize(sizes, max, n);
    if n == 0 {
      GroupNone<nat>(k);
    } else {
      GroupDistinct(sizes, max, n - 1, k);
      var t := BySize(sizes, max, n - 1);
      assert s == t + [s[n - 1]];
      GroupAppend<nat>(t, s[n - 1], k);
      DistinctMore(Group(t, k), n - 1);
    }
  }

  lemma {:induction false} FlatSorted(sizes: seq<nat>, max: nat, n: nat)
    requires forall b :: 0 <= b < |sizes| ==> sizes[b] <= max
    ensures var q := Flat(BySize(sizes, max, |sizes|), n);
      Distinct(q) && (forall i :: 0 <= i < |q| ==> q[i] < |sizes| && max - sizes[q[i]] < n)
      && forall i, j :: 0 <= i < j < |q| ==> q[j] < |sizes| && q[i] < |sizes| && sizes[q[j]] <= sizes[q[i]]
  {
    hide Group;
    if n > 0 {
      var s := BySize(sizes, max, |sizes|);
      FlatSorted(sizes, max, n - 1);
      GroupDistinct(sizes, max, |sizes|, n - 1);
      var p, g := Flat(s, n - 1), Group(s, n - 1);
      forall i | 0 <= i < |g|
        ensures g[i] < |sizes| && max - sizes[g[i]] == n - 1
      {
        assert g[i] in g;
        InGroup(sizes, max, n - 1, g[i]);
      }
    }
  }

  lemma FlatIsSorted(sizes: seq<nat>, max: nat, q: seq<nat>)
    requires forall b :: 0 <= b < |sizes| ==> sizes[b] <= max
    requires q == Flat(BySize(sizes, max, |sizes|), max + 1) && |q| == |sizes|
    ensures SortedIndexes(sizes, q)
  {
    FlatSorted(sizes, max, max + 1);
    DistinctIsBijection(q, |sizes|);
  }

  /** The second loop: offsets for decreasing sizes, from the largest down. */
  method Offsets(counts: array<nat>, ghost s: seq<Keyed<nat>>, max: nat)
    requires counts.Length == max + 1
    requires forall k: nat :: k <= max ==> counts[max - k] == |Group(s, k)|
    modifies counts
    ensures forall k: nat :: k <= max ==> counts[max - k] == Offset(s, k)
  {
    hide Group, Offset;
    OffsetFirst(s);
    var sum := 0;
    assert counts[max] == counts[max - 0] == |Group(s, 0)|;
    var value := counts[max];
    counts[max] := sum;
    var i: int := max - 1;
    while i >= 0
      invariant -1 <= i < max && sum == Offset(s, max - i - 1) && value == |Group(s, max - i - 1)|
      invariant forall k: nat :: k < max - i ==> counts[max - k] == Offset(s, k)
      invariant forall k: nat :: max - i <= k <= max ==> counts[max - k] == |Group(s, k)|
    {
      OffsetStep(s, max - i - 1);
      assert counts[i] == counts[max - (max - i)] == |Group(s, max - i)|;
      sum := sum + value;
      value := counts[i];
      counts[i] := sum;
      i := i - 1;
    }
  }

  lemma OffsetFirst<T>(s: seq<Keyed<T>>)
    ensures Offset(s, 0) == 0
  {
  }

  /** The first loop: how many buckets have each size. */
  method CountSizes(sizes: seq<nat>, max: nat) returns (counts: array<nat>)
    requires forall b :: 0 <= b < |sizes| ==> sizes[b] <= max
    ensures fresh(counts) && counts.Length == max + 1
    ensures forall k: nat :: k <= max ==> counts[max - k] == |Group(BySize(sizes, max, |sizes|), k)|
  {
    hide Group, BySize;
    ghost var s := BySize(sizes, max, |sizes|);
    counts := new nat[max + 1](_ => 0);
    forall k: nat
      ensures |Group(s[..0], k)| == 0
    {
      GroupNone<nat>(k);
    }
    for i := 0 to |sizes|
      invariant forall k: nat :: k <= max ==> counts[max - k] == |Group(s[..i], k)|
    {
      ghost var next := s[..i + 1];
      assert next == s[..i] + [s[i]];
      forall k: nat
        ensures |Group(next, k)| == |Group(s[..i], k)| + if k == max - sizes[i] then 1 else 0
      {
        GroupAppend<nat>(s[..i], s[i], k);
      }
      ghost var c := counts[..];
      counts[sizes[i]] := counts[sizes[i]] + 1;
      forall k: nat | k <= max
        ensures counts[max - k] == |Group(next, k)|
      {
        assert c[max - k] == |Group(s[..i], k)|;
      }
    }
    assert s[..|sizes|] == s;
  }

  /** The third loop: every index goes to the next free place of its size. */
  method PlaceIndexes(sizes: seq<nat>, max: nat, counts: array<nat>) returns (sorted: array<nat>)
    requires counts.Length == max + 1 && forall b :: 0 <= b < |sizes| ==> sizes[b] <= max
    requires forall k: nat :: k <= max ==> counts[max - k] == Offset(BySize(sizes, max, |sizes|), k)
    modifies counts
    ensures fresh(sorted) && sorted.Length == |sizes|
    ensures LaidOut(BySize(sizes, max, |sizes|), |sizes|, max + 1, sorted[..])
  {
    hide Group, BySize, LaidOut, Offset;
    ghost var s := BySize(sizes, max, |sizes|);
    sorted := new nat[|sizes|](_ => 0);
    LayNone<nat>(s, max + 1, sorted[..]);
    forall k: nat
      ensures |Group(s[..0], k)| == 0
    {
      GroupNone<nat>(k);
    }
    for i := 0 to |sizes|
      invariant LaidOut(s, i, max + 1, sorted[..])
      invariant forall k: nat :: k <= max ==> counts[max - k] == Offset(s, k) + |Group(s[..i], k)|
    {
      var k: nat := max - sizes[i];
      assert s[i] == Keyed(i, k) && counts[sizes[i]] == counts[max - k];
      LayNext<nat>(s, i, max + 1, sorted[..], counts[sizes[i]]);
      ghost var a := sorted[..];
      sorted[counts[sizes[i]]] := i;
      assert sorted[..] == a[counts[sizes[i]] := i];
      ghost var next := s[..i + 1];
      assert next == s[..i] + [s[i]];
      forall j: nat
        ensures |Group(next, j)| == |Group(s[..i], j)| + if j == k then 1 else 0
      {
        GroupAppend<nat>(s[..i], s[i], j);
      }
      ghost var c := counts[..];
      counts[sizes[i]] := counts[sizes[i]] + 1;
      forall j: nat | j <= max
        ensures counts[max - j] == Offset(s, j) + |Group(next, j)|
      {
        assert c[max - j] == Offset(s, j) + |Group(s[..i], j)|;
      }
    }
  }

  ghost function Largest(sizes: seq<nat>): (max: nat)
    ensures forall b :: 0 <= b < |sizes| ==> sizes[b] <= max
    ensures max > 0 ==> exists b :: 0 <= b < |sizes| && sizes[b] == max
  {
    if sizes == [] then 0 else
      var n := |sizes| - 1;
      var max := Largest(sizes[..n]);
      assert forall b :: 0 <= b < n ==> sizes[..n][b] == sizes[b];
      if sizes[n] > max then sizes[n] else max
  }

  lemma LargestIs(sizes: seq<nat>, max: nat)
    requires forall b :: 0 <= b < |sizes| ==> sizes[b] <= max
    requires max > 0 ==> exists b :: 0 <= b < |sizes| && sizes[b] == max
    ensures Largest(sizes) == max
  {
  }

  /** The indexes by decreasing size, those of equal size in their order. */
  ghost function ByDecreasingSize(sizes: seq<nat>): seq<nat> {
    Flat(BySize(sizes, Largest(sizes), |sizes|), Largest(sizes) + 1)
  }

  ghost function GroupSizes<T>(s: seq<Keyed<T>>, n: nat): (sizes: seq<nat>)
    ensures |sizes| == n
  {
    seq(n, b requires 0 <= b < n => |Group(s, b)|)
  }

  lemma SizesAreGroups(sizes: seq<nat>, max: nat)
    requires forall b :: 0 <= b < |sizes| ==> sizes[b] <= max
    ensures Groups(BySize(sizes, max, |sizes|), max + 1)
  {
  }

  lemma ByDecreasingSizeSorted(sizes: seq<nat>)
    ensures SortedIndexes(sizes, ByDecreasingSize(sizes))
  {
    hide Group, Offset, Flat, SortedIndexes, BySize;
    var max := Largest(sizes);
    var s := BySize(sizes, max, |sizes|);
    SizesAreGroups(sizes, max);
    FlatLength(s, max + 1);
    OffsetTotal(s, max + 1);
    FlatIsSorted(sizes, max, ByDecreasingSize(sizes));
  }

  /** fch_buckets_get_indexes_sorted_by_size */
  method IndexesBySize(sizes: seq<nat>, max: nat) returns (sorted: array<nat>)
    requires forall b :: 0 <= b < |sizes| ==> sizes[b] <= max
    requires max > 0 ==> exists b :: 0 <= b < |sizes| && sizes[b] == max
    ensures fresh(sorted) && SortedIndexes(sizes, sorted[..])
    ensures sorted[..] == ByDecreasingSize(sizes)
  {
    LargestIs(sizes, max);
    hide Group, BySize, LaidOut, Offset, SortedIndexes, Flat;
    ghost var s := BySize(sizes, max, |sizes|);
    var counts := CountSizes(sizes, max);
    Offsets(counts, s, max);
    sorted := PlaceIndexes(sizes, max, counts);
    SizesAreGroups(sizes, max);
    LaidOutIsFlat<nat>(s, max + 1, sorted[..], max + 1);
    OffsetTotal(s, max + 1);
    assert sorted[..|sizes|] == sorted[..];
    FlatIsSorted(sizes, max, sorted[..]);
  }
}
