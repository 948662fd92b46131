/** chd_ph.c: the perfect hash function that displaces buckets, with its displacements compressed. */
module ChdPhHash {
  import opened Arithmetic
  import opened Words
  import opened Counting
  import opened CountingSort
  import opened Primes
  import opened Mapping
  import opened MillerRabin
  import opened CompressedSeq
  import opened ChdMapping
  import opened ChdOrdering
  import opened ChdPlacing
  import opened ChdRuns
  import opened ChdSearching
  import opened ChdPairs

  /** The bucket of a key and what places it: the step shared by chd_ph_mapping and chd_ph_search. */
  function KeyItem<Key>(hash: VectorHash<Key>, seed: uint32, nbuckets: uint32, n: uint32, key: Key): (x: MapItem)
    requires 0 < nbuckets && 2 <= n
    ensures x.group < nbuckets && x.value.f < n && 1 <= x.value.h < n
  {
    var hl := hash(seed, key);
    Keyed(Item(Mod(hl.v1, n), Mod(hl.v2, n - 1) + 1), Mod(hl.v0, nbuckets))
  }

  ghost function KeyItems<Key>(hash: VectorHash<Key>, seed: uint32, nbuckets: uint32, n: uint32, keys: seq<Key>)
    : (ms: seq<MapItem>)
    requires 0 < nbuckets && 2 <= n
    ensures |ms| == |keys| && Groups(ms, nbuckets)
  {
    seq(|keys|, i requires 0 <= i < |keys| => KeyItem(hash, seed, nbuckets, n, keys[i]))
  }

  /** The three words of two keys agree: the bucket, the first bin and the step are the same. */
  ghost predicate SameWords<Key>(hash: VectorHash<Key>, seed: uint32, nbuckets: uint32, n: uint32, k: Key, l: Key)
    requires 0 < nbuckets && 2 <= n
  {
    && hash(seed, k).v0 % nbuckets == hash(seed, l).v0 % nbuckets
    && hash(seed, k).v1 % n == hash(seed, l).v1 % n
    && hash(seed, k).v2 % (n - 1) == hash(seed, l).v2 % (n - 1)
  }

  /** The seed tells all keys apart. */
  ghost predicate Told<Key>(keys: seq<Key>, hash: VectorHash<Key>, seed: uint32, nbuckets: uint32, n: uint32)
    requires 0 < nbuckets && 2 <= n
  {
    forall i, j :: 0 <= i < j < |keys| ==> !SameWords(hash, seed, nbuckets, n, keys[i], keys[j])
  }

  /** One of the first 1000 seeds does. */
  ghost predicate SomeSeedTells<Key>(keys: seq<Key>, keysPerBucket: uint32, n: uint32, hash: VectorHash<Key>,
                                     seeds: nat -> uint32)
    requires 0 < keysPerBucket && |keys| + 1 < TWO32 && 2 <= n
  {
    exists t: nat :: t < 1000 && Told(keys, hash, seeds(t), |keys| / keysPerBucket + 1, n)
  }

  lemma ItemsOfWords<Key>(hash: VectorHash<Key>, seed: uint32, nbuckets: uint32, n: uint32, k: Key, l: Key)
    requires 0 < nbuckets && 2 <= n
    ensures KeyItem(hash, seed, nbuckets, n, k) == KeyItem(hash, seed, nbuckets, n, l)
      <==> SameWords(hash, seed, nbuckets, n, k, l)
  {
  }

  // ---- the number of bins -----------------------------------------------------------------------------

  /** The load factor as chd_ph_new limits it. */
  function LoadFactor(c: real): (l: real)
    ensures 0.5 <= l <= 0.99
  {
    if c < 0.5 then 0.5 else if c >= 0.99 then 0.99 else c
  }

  /** The smallest number with which the multiple of y is above x. */
  function Exceeding(x: real, y: real): (n: nat)
    requires 0.0 <= x && 0.0 < y
    ensures 1 <= n && (n == 1 <==> x < y)
    ensures (n - 1) as real * y <= x < n as real * y
  {
    QuotientFloor(x, y);
    QuotientBounds(x, y);
    (x / y).Floor + 1
  }

  /** The number of bins that the search for a prime starts from. */
  function ComputedBins(m: nat, keysPerBin: nat, c: real): (n: nat)
    requires 0 < keysPerBin
    ensures 1 <= n
  {
    Exceeding(m as real, keysPerBin as real * LoadFactor(c))
  }

  /** The limited load factor is the permitted one that is nearest to c. */
  lemma NearestLoad(c: real, l: real)
    requires 0.5 <= l <= 0.99
    ensures var d := LoadFactor(c) - c;
      -(if l < c then c - l else l - c) <= d <= if l < c then c - l else l - c
  {
  }

  /** The number of bins is the smallest one with which the load is below the limited load factor. */
  lemma BinsForLoad(m: nat, keysPerBin: nat, c: real)
    requires 0 < keysPerBin
    ensures var n, load := ComputedBins(m, keysPerBin, c), keysPerBin as real * LoadFactor(c);
      (n - 1) as real * load <= m as real < n as real * load
  {
    hide LoadFactor;
  }

  lemma QuotientBounds(x: real, y: real)
    requires 0.0 < y
    ensures (x / y).Floor as real * y <= x < ((x / y).Floor + 1) as real * y
  {
    var q := x / y;
    assert q * y == x;
    FloorBounds(q, x, y);
  }

  lemma FloorBounds(q: real, x: real, y: real)
    requires 0.0 < y && q * y == x
    ensures q.Floor as real * y <= x < (q.Floor + 1) as real * y
  {
    RealTimes(q.Floor as real, q, y);
    BelowProduct(q, q.Floor as real + 1.0, x, y);
  }

  lemma BelowProduct(a: real, b: real, x: real, y: real)
    requires 0.0 < y && a < b && x == a * y
    ensures x < b * y
  {
    Positive(b - a, y);
    assert (b - a) * y == b * y - a * y;
  }

  lemma Positive(a: real, b: real)
    requires 0.0 < a && 0.0 < b
    ensures 0.0 < a * b
  {
  }

  lemma QuotientFloor(x: real, y: real)
    requires 0.0 <= x && 0.0 < y
    ensures 0 <= (x / y).Floor && ((x / y).Floor == 0 <==> x < y)
  {
    var q := x / y;
    assert q * y == x;
    QuotientBelowOne(q, x, y);
    FloorZero(q);
  }

  lemma QuotientBelowOne(q: real, x: real, y: real)
    requires 0.0 <= x && 0.0 < y && q * y == x
    ensures 0.0 <= q && (q < 1.0 <==> x < y)
  {
    RealTimes(q, 0.0, y);
    RealTimes(q, 1.0, y);
    RealTimes(1.0, q, y);
    assert 0.0 * y == 0.0 && 1.0 * y == y;
  }

  lemma FloorZero(q: real)
    requires 0.0 <= q
    ensures 0 <= q.Floor && (q.Floor == 0 <==> q < 1.0)
  {
  }

  lemma RealTimes(a: real, b: real, y: real)
    requires 0.0 <= y
    ensures a <= b ==> a * y <= b * y
    ensures a < b && 0.0 < y ==> a * y < b * y
  {
  }

  /** One bin is computed exactly for fewer keys than keysPerBin times the load factor. */
  lemma OneBinExact(m: nat, keysPerBin: nat, c: real)
    requires 0 < keysPerBin
    ensures ComputedBins(m, keysPerBin, c) == 1 <==> m as real < keysPerBin as real * LoadFactor(c)
  {
    BinsForLoad(m, keysPerBin, c);
  }

  /** With one key per bin there are more bins than keys. */
  lemma MoreBinsThanKeys(m: nat, c: real)
    ensures m < ComputedBins(m, 1, c)
  {
    hide LoadFactor, ComputedBins;
    var n, l := ComputedBins(m, 1, c) as real, LoadFactor(c);
    BinsForLoad(m, 1, c);
    assert 1 as real * l == l;
    RealTimes(l, 1.0, n);
    assert m as real < n * l <= n;
  }

  /**
   With no more keys than that chd_ph_new does not return: one bin is computed, it is odd, and the loop
   of check_primality never reaches an odd number from it.
   */
  lemma OneBinNeverEnds(m: nat, keysPerBin: nat, c: real)
    requires 0 < keysPerBin && m as real < keysPerBin as real * LoadFactor(c)
    ensures var n := ComputedBins(m, keysPerBin, c);
      n % 2 == 1 && n % 3 != 0 && n % 5 != 0 && n % 7 != 0 && NeverOdd((n - 1) / 2)
  {
    OneBinExact(m, keysPerBin, c);
    DecompositionEnds(1);
  }

  const MAPPING_ITERATIONS := 1000
  const ITERATIONS := 100

  ghost predicate SomeDuplicates(ms: seq<MapItem>, n: nat) {
    exists g: nat :: g < n && !NoDuplicates(ms, g)
  }

  /** The items differ in every bucket exactly if the elements do. */
  lemma {:induction false} DistinctGroups(ms: seq<MapItem>, n: nat)
    requires Groups(ms, n)
    ensures SomeDuplicates(ms, n) <==> !Distinct(ms)
    decreases |ms|
  {
    if ms == [] {
      forall g: nat
        ensures NoDuplicates(ms, g)
      {
        GroupNone<Item>(g);
      }
    } else {
      hide Group, Distinct;
      var t, x := ms[..|ms| - 1], ms[|ms| - 1];
      assert ms == t + [x];
      DistinctGroups(t, n);
      DistinctAppend(t, x);
      forall g: nat
        ensures NoDuplicates(ms, g) <==> NoDuplicates(t, g) && (g == x.group ==> x !in t)
      {
        GroupAppend(t, x, g);
        GroupMember(t, g, x.value);
        DistinctAppend(Group(t, g), x.value);
        assert g == x.group ==> Keyed(x.value, g) == x;
      }
      assert x.group < n;
      assert Distinct(ms) <==> Distinct(t) && x !in t;
      if x in t {
        assert !NoDuplicates(ms, x.group);
      } else {
        assert forall g: nat :: NoDuplicates(ms, g) <==> NoDuplicates(t, g);
        assert SomeDuplicates(ms, n) <==> SomeDuplicates(t, n);
      }
    }
  }

  lemma DistinctAppend<T>(s: seq<T>, x: T)
    ensures Distinct(s + [x]) <==> Distinct(s) && x !in s
  {
    if Distinct(s + [x]) {
      forall i, j | 0 <= i < j < |s|
        ensures s[i] != s[j]
      {
        assert (s + [x])[i] != (s + [x])[j];
      }
      forall i | 0 <= i < |s|
        ensures s[i] != x
      {
        assert (s + [x])[i] != (s + [x])[|s|];
      }
    }
  }

  /** A seed is good exactly if it tells all keys apart. */
  lemma GoodSeed<Key>(keys: seq<Key>, hash: VectorHash<Key>, seed: uint32, nbuckets: uint32, n: uint32)
    requires 0 < nbuckets && 2 <= n
    ensures SomeDuplicates(KeyItems(hash, seed, nbuckets, n, keys), nbuckets) <==> !Told(keys, hash, seed, nbuckets, n)
  {
    hide KeyItem, SameWords, NoDuplicates;
    var ms := KeyItems(hash, seed, nbuckets, n, keys);
    DistinctGroups(ms, nbuckets);
    assert Distinct(ms) <==> forall i, j :: 0 <= i < j < |ms| ==> ms[i] != ms[j];
    forall i, j | 0 <= i < j < |keys|
      ensures ms[i] == ms[j] <==> SameWords(hash, seed, nbuckets, n, keys[i], keys[j])
    {
      ItemsOfWords(hash, seed, nbuckets, n, keys[i], keys[j]);
    }
  }

  /** Everything that chd_ph_new works on. */
  datatype Job<!Key> = Job(keys: seq<Key>, hash: VectorHash<Key>, seeds: nat -> uint32, n: uint32, limit: nat,
                           useH: bool, maxProbes: uint32)

  /** The first seed from number t on, among so many, that puts no item twice into a bucket. */
  ghost function FirstGood<Key>(j: Job<Key>, nbuckets: uint32, t: nat, tries: nat): (r: Option<nat>)
    requires 0 < nbuckets && 2 <= j.n
    ensures r.Some? ==> t <= r.value
    decreases tries
  {
    if tries == 0 then None
    else if !SomeDuplicates(KeyItems(j.hash, j.seeds(t), nbuckets, j.n, j.keys), nbuckets) then Some(t)
    else FirstGood(j, nbuckets, t + 1, tries - 1)
  }

  /** The search for the displacements under seed number t. */
  ghost function SearchUnder<Key>(j: Job<Key>, t: nat, disp: seq<uint32>): (r: (bool, Progress))
    requires 0 < |disp| < TWO32 && 2 <= j.n
    ensures |r.1.disp| == |disp|
  {
    PlaceLists(Setting(KeyItems(j.hash, j.seeds(t), |disp|, j.n, j.keys), j.limit, j.n, j.maxProbes), j.useH, disp,
               |j.keys|)
  }

  lemma {:induction false} FirstGoodTells<Key>(j: Job<Key>, nbuckets: uint32, t: nat, tries: nat)
    requires 0 < nbuckets && 2 <= j.n
    ensures var r := FirstGood(j, nbuckets, t, tries);
      if r.Some? then r.value < t + tries && Told(j.keys, j.hash, j.seeds(r.value), nbuckets, j.n)
      else forall u: nat :: t <= u < t + tries ==> !Told(j.keys, j.hash, j.seeds(u), nbuckets, j.n)
    decreases tries
  {
    hide KeyItems, SomeDuplicates, Told;
    if tries > 0 {
      GoodSeed(j.keys, j.hash, j.seeds(t), nbuckets, j.n);
      FirstGoodTells(j, nbuckets, t + 1, tries - 1);
    }
  }

  /**
   The main loop of chd_ph_new: the seed and the displacements of the first search that succeeds. None: for one of
   the searches no good seed was found, or all of them failed.
   */
  ghost function Trials<Key>(j: Job<Key>, t: nat, disp: seq<uint32>, left: nat): Option<(nat, seq<uint32>)>
    requires 0 < |disp| < TWO32 && 2 <= j.n
    decreases left
  {
    hide FirstGood, PlaceLists, KeyItems;
    if left == 0 then None else
      var u := FirstGood(j, |disp|, t, MAPPING_ITERATIONS);
      if u.None? then None else
        var r := SearchUnder(j, u.value, disp);
        if r.0 then Some((u.value, r.1.disp)) else Trials(j, u.value + 1, r.1.disp, left - 1)
  }

  /** With at most one permitted probe and the sweeping search there is no function for any keys. */
  lemma {:induction false} FewProbesFail<Key>(j: Job<Key>, t: nat, disp: seq<uint32>, left: nat)
    requires 0 < |disp| < TWO32 && 2 <= j.n && j.keys != [] && j.useH && j.maxProbes <= 1
    ensures Trials(j, t, disp, left).None?
    decreases left
  {
    hide PlaceLists, FirstGood, KeyItem, Group;
    if left > 0 {
      var u := FirstGood(j, |disp|, t, MAPPING_ITERATIONS);
      if u.Some? {
        var ms := KeyItems(j.hash, j.seeds(u.value), |disp|, j.n, j.keys);
        var g := ms[0].group;
        GroupMember(ms, g, ms[0].value);
        assert Keyed(ms[0].value, g) == ms[0];
        GroupSize(ms, g);
        FewProbesGiveUp(Setting(ms, j.limit, j.n, j.maxProbes), disp, |j.keys|, g);
        FewProbesFail(j, u.value + 1, SearchUnder(j, u.value, disp).1.disp, left - 1);
      }
    }
  }

  /** A function has a seed that tells all keys apart, and when there is none at first there is no function. */
  lemma {:induction false} TrialsTell<Key>(j: Job<Key>, t: nat, disp: seq<uint32>, left: nat)
    requires 0 < |disp| < TWO32 && 2 <= j.n
    ensures var r := Trials(j, t, disp, left);
      && (r.Some? ==> Told(j.keys, j.hash, j.seeds(r.value.0), |disp|, j.n))
      && (r.Some? ==> exists u: nat :: t <= u < t + 1000 && Told(j.keys, j.hash, j.seeds(u), |disp|, j.n))
    decreases left
  {
    hide FirstGood, KeyItems, Told, PlaceLists;
    FirstGoodTells(j, |disp|, t, MAPPING_ITERATIONS);
    var u := FirstGood(j, |disp|, t, MAPPING_ITERATIONS);
    if left > 0 && u.Some? {
      var r := SearchUnder(j, u.value, disp);
      if !r.0 {
        TrialsTell(j, u.value + 1, r.1.disp, left - 1);
      }
    }
  }

  /** Two keys get a function exactly if one of the first 1000 seeds tells them apart. */
  lemma TwoKeysTried<Key>(j: Job<Key>, disp: seq<uint32>)
    requires 0 < |disp| < TWO32 && 2 <= j.n && |j.keys| == 2 && 1 <= j.limit
    requires if j.useH then 3 <= j.maxProbes else 2 <= j.maxProbes
    ensures Trials(j, 0, disp, ITERATIONS).Some?
      <==> exists t: nat :: t < 1000 && Told(j.keys, j.hash, j.seeds(t), |disp|, j.n)
  {
    hide FirstGood, PlaceLists, KeyItem, SameWords;
    FirstGoodTells(j, |disp|, 0, MAPPING_ITERATIONS);
    var u := FirstGood(j, |disp|, 0, MAPPING_ITERATIONS);
    if u.Some? {
      var ms := KeyItems(j.hash, j.seeds(u.value), |disp|, j.n, j.keys);
      assert ms == [ms[0], ms[1]];
      ItemsOfWords(j.hash, j.seeds(u.value), |disp|, j.n, j.keys[0], j.keys[1]);
      PairPlaced(Setting(ms, j.limit, j.n, j.maxProbes), j.useH, disp, ms[0], ms[1]);
      assert SearchUnder(j, u.value, disp).0;
    }
  }

  /** The keys' items under one seed. */
  method ReadKeys<Key>(keys: seq<Key>, hash: VectorHash<Key>, seed: uint32, nbuckets: uint32, n: uint32)
    returns (ms: seq<MapItem>)
    requires 0 < nbuckets && 2 <= n
    ensures ms == KeyItems(hash, seed, nbuckets, n, keys)
  {
    hide KeyItem;
    ms := [];
    for i := 0 to |keys|
      invariant ms == KeyItems(hash, seed, nbuckets, n, keys)[..i]
    {
      ms := ms + [KeyItem(hash, seed, nbuckets, n, keys[i])];
    }
  }

  /** chd_ph_mapping: fails only when every seed it tried puts an item twice into a bucket. */
  method MapKeys<Key>(keys: seq<Key>, hash: VectorHash<Key>, seeds: nat -> uint32, first: nat, n: uint32,
                      lists: array<uint32>, sizes: array<uint32>, items: array<Item>, ghost j: Job<Key>)
    returns (ok: bool, t: nat, max: uint32)
    requires j.keys == keys && j.hash == hash && j.seeds == seeds && j.n == n
    requires 2 <= n && 0 < lists.Length == sizes.Length < TWO32 && lists != sizes
    requires 0 < |keys| == items.Length < TWO32 - 1
    modifies lists, sizes, items
    ensures first <= t && max <= |keys|
    ensures FirstGood(j, lists.Length, first, MAPPING_ITERATIONS) == if ok then Some(t) else None
    ensures ok ==> var ms := KeyItems(hash, seeds(t), lists.Length, n, keys);
      Buckets(ms, lists[..], sizes[..], items[..]) && lists[0] == 0 && 1 <= max
      && forall g: nat :: g < lists.Length ==> NoDuplicates(ms, g) && sizes[g] <= max
    ensures !ok ==> forall u: nat :: first <= u < first + MAPPING_ITERATIONS ==>
      SomeDuplicates(KeyItems(hash, seeds(u), lists.Length, n, keys), lists.Length)
  {
    hide Buckets, NoDuplicates, KeyItems, SomeDuplicates, FirstGood;
    var mappingIterations := MAPPING_ITERATIONS;
    max := 0;
    t := first;
    while true
      invariant 0 < mappingIterations <= MAPPING_ITERATIONS && t == first + (MAPPING_ITERATIONS - mappingIterations)
      invariant max <= |keys|
      invariant FirstGood(j, lists.Length, first, MAPPING_ITERATIONS)
        == FirstGood(j, lists.Length, t, mappingIterations)
      invariant forall u: nat :: first <= u < t ==>
        SomeDuplicates(KeyItems(hash, seeds(u), lists.Length, n, keys), lists.Length)
      decreases mappingIterations
    {
      mappingIterations := mappingIterations - 1;
      var ms := ReadKeys(keys, hash, seeds(t), lists.Length, n);
      ItemsShape(keys, hash, seeds(t), lists.Length, n);
      ok, max := FillBuckets(ms, lists, sizes, items, max);
      if ok {
        MaxPositive(ms, lists[..], sizes[..], items[..], max);
        NoneTwice(ms, lists.Length);
        NextGood(j, lists.Length, t, mappingIterations, ms);
        return true, t, max;
      }
      SomeTwice(ms, lists.Length);
      NextGood(j, lists.Length, t, mappingIterations, ms);
      t := t + 1;
      if mappingIterations == 0 {
        return false, t, max;
      }
    }
  }

  lemma NextGood<Key>(j: Job<Key>, nbuckets: uint32, t: nat, tries: nat, ms: seq<MapItem>)
    requires 0 < nbuckets && 2 <= j.n && ms == KeyItems(j.hash, j.seeds(t), nbuckets, j.n, j.keys)
    ensures FirstGood(j, nbuckets, t, tries + 1) ==
      if SomeDuplicates(ms, nbuckets) then FirstGood(j, nbuckets, t + 1, tries) else Some(t)
    ensures FirstGood(j, nbuckets, t + 1, 0) == None
  {
  }

  lemma NoneTwice(ms: seq<MapItem>, n: nat)
    requires forall g: nat :: g < n ==> NoDuplicates(ms, g)
    ensures !SomeDuplicates(ms, n)
  {
  }

  lemma SomeTwice(ms: seq<MapItem>, n: nat)
    requires exists g: nat :: g < n && !NoDuplicates(ms, g)
    ensures SomeDuplicates(ms, n)
  {
  }

  lemma ItemsShape<Key>(keys: seq<Key>, hash: VectorHash<Key>, seed: uint32, nbuckets: uint32, n: uint32)
    requires 0 < nbuckets && 2 <= n
    ensures |KeyItems(hash, seed, nbuckets, n, keys)| == |keys|
    ensures Groups(KeyItems(hash, seed, nbuckets, n, keys), nbuckets)
  {
  }

  lemma MaxPositive(ms: seq<MapItem>, lists: seq<uint32>, sizes: seq<uint32>, items: seq<Item>, max: nat)
    requires ms != [] && Buckets(ms, lists, sizes, items) && forall g :: 0 <= g < |sizes| ==> sizes[g] <= max
    ensures 1 <= max
  {
    var g := ms[0].group;
    GroupMember(ms, g, ms[0].value);
    assert Keyed(ms[0].value, g) == ms[0];
    assert BucketAt(ms, lists, sizes, items, g);
  }

  /** chd_ph_searching: with or without the heuristic. */
  method Searching(bins: Bins, useH: bool, items: seq<Item>, max: uint32, starts: array<uint32>, lens: array<uint32>,
                   ids: array<uint32>, lists: array<uint32>, disp: array<uint32>, maxProbes: uint32,
                   ghost ms: seq<MapItem>)
    returns (ok: bool)
    requires bins.Valid() && disp != ids && disp != lists && disp != starts && disp != lens && ids != lists
    requires starts != lens && starts != ids && starts != lists && lens != ids && lens != lists
    requires ids.Length == disp.Length < TWO32
    requires Ordered(ms, disp.Length, max, starts[..], lens[..], ids[..], lists[..], items)
    requires Loaded(bins.Loads(), multiset{}, bins.keysPerBin)
    requires forall g :: 0 <= g < disp.Length ==> disp[g] + 1 < TWO32
    modifies bins.counts, bins.bits, disp, ids, lists, lens
    ensures forall g :: 0 <= g < disp.Length ==> disp[g] + 1 < TWO32
    ensures ok ==> AllPlaced(ms, bins.keysPerBin, disp[..], bins.Loads())
    ensures
      var r := PlaceLists(Setting(ms, bins.keysPerBin, bins.n, maxProbes), useH, old(disp[..]), max);
      ok == r.0 && disp[..] == r.1.disp
  {
    if useH {
      ghost var D;
      ok, D := PlaceBuckets2(bins, items, max, starts, lens, ids, lists, disp, maxProbes, ms);
    } else {
      ok := PlaceBuckets1(bins, items, max, starts, lens, ids, lists, disp, maxProbes, ms);
    }
  }

  // ---- the finished function -----------------------------------------------------------------------------

  /** chd_ph_data_t */
  datatype ChdPh = ChdPh(nbuckets: uint32, n: uint32, seed: uint32, cs: Seq) {
    /** disp are the displacements that the compressed sequence holds. */
    ghost predicate Stores(disp: seq<uint32>) {
      0 < nbuckets == |disp| && 2 <= n && cs.Holds(disp) && forall g :: 0 <= g < |disp| ==> disp[g] + 1 < TWO32
    }

    /** The bin of a key. */
    ghost function Slot<Key>(hash: VectorHash<Key>, disp: seq<uint32>, key: Key): nat
      requires Stores(disp)
    {
      KeyPosition(KeyItem(hash, seed, nbuckets, n, key), disp, n)
    }

    /** chd_ph_search */
    method Search<Key>(hash: VectorHash<Key>, key: Key, ghost disp: seq<uint32>) returns (position: nat)
      requires Stores(disp)
      ensures position == Slot(hash, disp, key) < n
    {
      hide Seq.Holds, Position, Div;
      var x := KeyItem(hash, seed, nbuckets, n, key);
      cs.Size(disp);
      var d := cs.Query(x.group, disp);
      position := Position(x.value, Mod(d, n), Div(d, n), n);
    }

    /** chd_ph_search_packed: the same from the packed displacements. */
    method SearchPacked<Key>(packed: seq<uint32>, hash: VectorHash<Key>, key: Key, ghost disp: seq<uint32>)
      returns (position: nat)
      requires Stores(disp) && 4 * |DumpSelect(cs.sel)| < TWO32 && packed == CompressedSeq.Dump(cs)
      ensures position == Slot(hash, disp, key) < n
    {
      hide Seq.Holds, Position, Div, Dump;
      var x := KeyItem(hash, seed, nbuckets, n, key);
      cs.Size(disp);
      var d := CompressedSeq.QueryPacked(packed, x.group, cs, disp);
      position := Position(x.value, Mod(d, n), Div(d, n), n);
    }
  }

  ghost function Slots<Key>(f: ChdPh, hash: VectorHash<Key>, disp: seq<uint32>, keys: seq<Key>): (s: seq<nat>)
    requires f.Stores(disp)
    ensures |s| == |keys|
  {
    seq(|keys|, i requires 0 <= i < |keys| => f.Slot(hash, disp, keys[i]))
  }

  lemma SlotsArePositions<Key>(f: ChdPh, hash: VectorHash<Key>, disp: seq<uint32>, keys: seq<Key>)
    requires f.Stores(disp)
    ensures Slots(f, hash, disp, keys) ==
      KeyPositions(KeyItems(hash, f.seed, f.nbuckets, f.n, keys), disp, f.n)
  {
    hide KeyItem, KeyPosition, Seq.Holds;
  }

  /** Every bin gets at most limit of the keys, and loads says how many. */
  ghost predicate Perfect<Key>(f: ChdPh, hash: VectorHash<Key>, disp: seq<uint32>, keys: seq<Key>, loads: seq<nat>,
                               limit: nat)
    requires f.Stores(disp)
  {
    |loads| == f.n && Loaded(loads, multiset(Slots(f, hash, disp, keys)), limit)
  }

  lemma {:induction false} StartBound(vals: seq<uint32>, i: nat)
    requires i <= |vals| && forall k :: 0 <= k < |vals| ==> vals[k] + 1 < TWO32
    ensures Start(vals, i) <= 31 * i
  {
    if i > 0 {
      StartBound(vals, i - 1);
      LengthFits(vals[i - 1]);
    }
  }

  /** One turn of the main loop of chd_ph_new: mapping, ordering, searching. */
  method Attempt<Key>(keys: seq<Key>, bins: Bins, useH: bool, maxProbes: uint32, hash: VectorHash<Key>,
                      seeds: nat -> uint32, first: nat, lists: array<uint32>, sizes: array<uint32>,
                      items: array<Item>, disp: array<uint32>, ghost j: Job<Key>)
    returns (mapped: bool, success: bool, t: nat, newLists: array<uint32>, newSizes: array<uint32>,
             newItems: array<Item>)
    requires bins.Valid() && 2 <= bins.n && 0 < |keys| == items.Length < TWO32 - 1
    requires j == Job(keys, hash, seeds, bins.n, bins.keysPerBin, useH, maxProbes)
    requires 0 < lists.Length == sizes.Length == disp.Length < TWO32
    requires lists != sizes && disp != lists && disp != sizes
    requires Loaded(bins.Loads(), multiset{}, bins.keysPerBin)
    requires forall g :: 0 <= g < disp.Length ==> disp[g] + 1 < TWO32
    modifies bins.counts, bins.bits, lists, sizes, items, disp
    ensures first <= t && forall g :: 0 <= g < disp.Length ==> disp[g] + 1 < TWO32
    ensures mapped ==> fresh(newLists) && fresh(newSizes) && fresh(newItems) && newLists != newSizes
    ensures mapped ==> newLists.Length == newSizes.Length == disp.Length && newItems.Length == |keys|
    ensures success ==>
      AllPlaced(KeyItems(hash, seeds(t), disp.Length, bins.n, keys), bins.keysPerBin, disp[..], bins.Loads())
    ensures FirstGood(j, disp.Length, first, MAPPING_ITERATIONS) == if mapped then Some(t) else None
    ensures mapped ==> var r := SearchUnder(j, t, old(disp[..])); success == r.0 && disp[..] == r.1.disp
    ensures success ==> mapped
  {
    hide Buckets, Ordered, Loaded, AllPlaced, KeyItems, NoDuplicates, PlaceLists, FirstGood;
    newLists, newSizes, newItems := lists, sizes, items;
    var max: uint32;
    mapped, t, max := MapKeys(keys, hash, seeds, first, bins.n, lists, sizes, items, j);
    if !mapped {
      return false, false, t, lists, sizes, items;
    }
    ghost var ms := KeyItems(hash, seeds(t), disp.Length, bins.n, keys);
    ItemsShape(keys, hash, seeds(t), disp.Length, bins.n);
    var starts: array<uint32>, lens: array<uint32>;
    GroupsUpTo(ms, lists[..], sizes[..], items[..], max);
    LargestSize(Setting(ms, bins.keysPerBin, bins.n, maxProbes), useH, disp[..], max, |keys|);
    starts, lens, newSizes, newLists, newItems := Order(ms, lists, sizes, items, max);
    success := Searching(bins, useH, newItems[..], max, starts, lens, newSizes, newLists, disp, maxProbes, ms);
  }

  lemma GroupsUpTo(ms: seq<MapItem>, lists: seq<uint32>, sizes: seq<uint32>, items: seq<Item>, max: nat)
    requires Buckets(ms, lists, sizes, items) && forall g :: 0 <= g < |sizes| ==> sizes[g] <= max
    ensures forall g: nat :: g < |sizes| ==> |Group(ms, g)| <= max
  {
    forall g: nat | g < |sizes|
      ensures |Group(ms, g)| <= max
    {
      assert BucketAt(ms, lists, sizes, items, g);
    }
  }

  /** The compressing step: the displacements become a compressed sequence. */
  method Compress<Key>(ghost keys: seq<Key>, bins: Bins, ghost hash: VectorHash<Key>, seed: uint32, disp: seq<uint32>)
    returns (f: ChdPh)
    requires bins.Valid() && 2 <= bins.n && 0 < |disp| && 31 * (|disp| + 1) < TWO32
    requires forall g :: 0 <= g < |disp| ==> disp[g] + 1 < TWO32
    requires AllPlaced(KeyItems(hash, seed, |disp|, bins.n, keys), bins.keysPerBin, disp, bins.Loads())
    ensures f.Stores(disp) && f.n == bins.n && f.seed == seed
    ensures Perfect(f, hash, disp, keys, bins.Loads(), bins.keysPerBin)
  {
    hide Loaded, AllPlaced, KeyItems, Seq.Holds, Start, Perfect;
    ghost var ms := KeyItems(hash, seed, |disp|, bins.n, keys);
    ItemsShape(keys, hash, seed, |disp|, bins.n);
    SearchedIsPerfect(ms, bins.keysPerBin, disp, bins.Loads());
    StartBound(disp, |disp|);
    var cs := CompressedSeq.Generate(disp);
    f := ChdPh(|disp|, bins.n, seed, cs);
    PerfectFrom(f, hash, disp, keys, bins.Loads(), bins.keysPerBin);
  }

  ghost function NewJob<Key>(keys: seq<Key>, keysPerBin: uint32, useH: bool, maxProbes: uint32, n: uint32,
                            hash: VectorHash<Key>, seeds: nat -> uint32): Job<Key> {
    Job(keys, hash, seeds, n, keysPerBin, useH, maxProbes)
  }

  /** disp_table as it is allocated. */
  ghost function NoDisplacements(nbuckets: nat): (disp: seq<uint32>)
    ensures |disp| == nbuckets
  {
    seq(nbuckets, _ => 0)
  }

  /** What chd_ph_new tries, for a given number of bins. */
  ghost function AllTrials<Key>(keys: seq<Key>, keysPerBucket: uint32, keysPerBin: uint32, useH: bool,
                                maxProbes: uint32, n: uint32, hash: VectorHash<Key>, seeds: nat -> uint32)
    : Option<(nat, seq<uint32>)>
    requires 0 < keysPerBucket && |keys| + 1 < TWO32 && 2 <= n
  {
    Trials(NewJob(keys, keysPerBin, useH, maxProbes, n, hash, seeds), 0,
           NoDisplacements(Div(|keys|, keysPerBucket) + 1), ITERATIONS)
  }

  /** The main loop of chd_ph_new. */
  method TryAll<Key>(keys: seq<Key>, nbuckets: uint32, bins: Bins, useH: bool, maxProbes: uint32,
                     hash: VectorHash<Key>, seeds: nat -> uint32, ghost j: Job<Key>)
    returns (result: Option<ChdPh>, ghost disp: seq<uint32>)
    requires bins.Valid() && 2 <= bins.n && 0 < |keys| && 0 < nbuckets && 31 * (|keys| + 2) < TWO32
    requires 31 * (nbuckets + 1) < TWO32 && Loaded(bins.Loads(), multiset{}, bins.keysPerBin)
    requires j == Job(keys, hash, seeds, bins.n, bins.keysPerBin, useH, maxProbes)
    modifies bins.counts, bins.bits
    ensures
      var r := Trials(j, 0, NoDisplacements(nbuckets), ITERATIONS);
      (result.Some? <==> r.Some?) && (result.Some? ==> result.value.seed == seeds(r.value.0) && disp == r.value.1)
    ensures result.Some? ==> result.value.Stores(disp) && result.value.n == bins.n
    ensures result.Some? ==> Perfect(result.value, hash, disp, keys, bins.Loads(), bins.keysPerBin)
  {
    hide Loaded, AllPlaced, KeyItems, Seq.Holds, Perfect, SearchUnder, FirstGood, Trials, Positions;
    var lists, sizes := new uint32[nbuckets](_ => 0), new uint32[nbuckets](_ => 0);
    var items := new Item[|keys|](_ => Item(0, 0));
    var dispTable := new uint32[nbuckets](_ => 0);
    var iterations := ITERATIONS;
    var next: nat := 0;
    disp := [];
    ghost var disp0 := NoDisplacements(nbuckets);
    assert dispTable[..] == disp0;
    while true
      invariant 0 < iterations <= ITERATIONS && fresh(lists) && fresh(sizes) && fresh(items) && fresh(dispTable)
      invariant lists != sizes && dispTable != lists && dispTable != sizes
      invariant lists.Length == sizes.Length == dispTable.Length == nbuckets && items.Length == |keys|
      invariant Loaded(bins.Loads(), multiset{}, bins.keysPerBin)
      invariant forall g :: 0 <= g < nbuckets ==> dispTable[g] + 1 < TWO32
      invariant Trials(j, 0, disp0, ITERATIONS) == Trials(j, next, dispTable[..], iterations)
      decreases iterations
    {
      iterations := iterations - 1;
      var mapped, success, t;
      ghost var disp1 := dispTable[..];
      mapped, success, t, lists, sizes, items :=
        Attempt(keys, bins, useH, maxProbes, hash, seeds, next, lists, sizes, items, dispTable, j);
      NextTrial(j, next, disp1, iterations, mapped, t, success, dispTable[..]);
      if !mapped {
        return None, [];
      }
      if success {
        disp := dispTable[..];
        var f := Compress(keys, bins, hash, seeds(t), dispTable[..]);
        return Some(f), disp;
      }
      next := t + 1;
      bins.Clear();
      if iterations == 0 {
        return None, [];
      }
    }
  }

  /**
   chd_ph_new. c is the load factor, maxProbes the limit of the search; p is any prime the search for a number of
   bins may stop at. The function found is the one of the first search that succeeds, and there is none exactly if
   no search does; no bin gets more than keysPerBin keys. OneBinNeverEnds says what happens with fewer keys.
   */
  method New<Key>(keys: seq<Key>, keysPerBucket: uint32, keysPerBin: uint32, useH: bool, c: real, maxProbes: uint32,
                  hash: VectorHash<Key>, seeds: nat -> uint32, ghost p: nat)
    returns (result: Option<ChdPh>, bins: Bins, ghost disp: seq<uint32>)
    requires 0 < |keys| && 0 < keysPerBucket && 31 * (|keys| + 2) < TWO32 && 1 <= keysPerBin < 128
    requires keysPerBin as real * LoadFactor(c) <= |keys| as real
    requires ComputedBins(|keys|, keysPerBin, c) <= p < TWO32 && Prime(p) && p > 61
    ensures fresh(bins) && bins.Valid() && bins.keysPerBin == keysPerBin
    ensures ComputedBins(|keys|, keysPerBin, c) <= bins.n <= p && 2 <= bins.n && bins.n % 2 == 1 && Accepts(bins.n)
    ensures forall x :: ComputedBins(|keys|, keysPerBin, c) <= x < bins.n && x % 2 == 1 ==> !Accepts(x)
    ensures fresh(bins.counts) && fresh(bins.bits)
    ensures
      var r := AllTrials(keys, keysPerBucket, keysPerBin, useH, maxProbes, bins.n, hash, seeds);
      (result.Some? <==> r.Some?) && (result.Some? ==> result.value.seed == seeds(r.value.0) && disp == r.value.1)
    ensures useH && maxProbes <= 1 ==> result.None?
    ensures result.Some? ==> Told(keys, hash, result.value.seed, |keys| / keysPerBucket + 1, bins.n)
    ensures result.Some? ==> SomeSeedTells(keys, keysPerBucket, bins.n, hash, seeds)
    ensures |keys| == 2 && (if useH then 3 <= maxProbes else 2 <= maxProbes) ==>
      (result.Some? <==> SomeSeedTells(keys, keysPerBucket, bins.n, hash, seeds))
    ensures result.Some? ==> result.value.Stores(disp) && result.value.n == bins.n
    ensures result.Some? ==> Perfect(result.value, hash, disp, keys, bins.Loads(), keysPerBin)
  {
    hide Prime, Accepts, Loaded, KeyItems, Seq.Holds, Perfect, SearchUnder, FirstGood, LoadFactor, Trials, ComputedBins,
      Told;
    var nbuckets: uint32 := Div(|keys|, keysPerBucket) + 1;
    OneBinExact(|keys|, keysPerBin, c);
    var n: uint32 := FindBins(ComputedBins(|keys|, keysPerBin, c), p);
    bins := new Bins(n, keysPerBin);
    ghost var j := NewJob(keys, keysPerBin, useH, maxProbes, n, hash, seeds);
    if useH && maxProbes <= 1 {
      FewProbesFail(j, 0, NoDisplacements(nbuckets), ITERATIONS);
    }
    TrialsTell(j, 0, NoDisplacements(nbuckets), ITERATIONS);
    if |keys| == 2 && if useH then 3 <= maxProbes else 2 <= maxProbes {
      TwoKeysTried(j, NoDisplacements(nbuckets));
    }
    assert AllTrials(keys, keysPerBucket, keysPerBin, useH, maxProbes, n, hash, seeds)
      == Trials(j, 0, NoDisplacements(nbuckets), ITERATIONS);
    result, disp := TryAll(keys, nbuckets, bins, useH, maxProbes, hash, seeds, j);
  }

  lemma NextTrial<Key>(j: Job<Key>, t: nat, disp: seq<uint32>, left: nat, mapped: bool, u: nat, success: bool,
                       disp': seq<uint32>)
    requires 0 < |disp| == |disp'| < TWO32 && 2 <= j.n
    requires FirstGood(j, |disp|, t, MAPPING_ITERATIONS) == if mapped then Some(u) else None
    requires mapped ==> var r := SearchUnder(j, u, disp); success == r.0 && disp' == r.1.disp
    ensures Trials(j, t, disp, left + 1) ==
      if !mapped then None else if success then Some((u, disp')) else Trials(j, u + 1, disp', left)
    ensures Trials(j, u + 1, disp', 0) == None
  {
    hide SearchUnder, FirstGood;
  }

  lemma PerfectFrom<Key>(f: ChdPh, hash: VectorHash<Key>, disp: seq<uint32>, keys: seq<Key>, loads: seq<nat>,
                         limit: nat)
    requires f.Stores(disp) && |loads| == f.n
    requires Groups(KeyItems(hash, f.seed, f.nbuckets, f.n, keys), f.nbuckets)
    requires Loaded(loads, multiset(KeyPositions(KeyItems(hash, f.seed, f.nbuckets, f.n, keys), disp, f.n)), limit)
    ensures Perfect(f, hash, disp, keys, loads, limit)
  {
    SlotsArePositions(f, hash, disp, keys);
  }
}
