/** chd.c: minimality by ranking the empty bins of a chd_ph function with one key per bin. */
module ChdHash {
  import opened Words
  import opened Counting
  import opened Primes
  import opened Mapping
  import opened MillerRabin
  import opened CompressedSeq
  import opened CompressedRank
  import opened Select
  import opened ChdPlacing
  import opened ChdSearching
  import opened ChdPhHash

  ghost function Taken(loads: seq<nat>): (b: seq<bool>)
    ensures |b| == |loads|
  {
    seq(|loads|, x requires 0 <= x < |loads| => loads[x] > 0)
  }

  /** With one key per bin the taken bins are exactly the keys' bins, each taken once. */
  lemma TakenByKeys(loads: seq<nat>, slots: seq<nat>)
    requires Loaded(loads, multiset(slots), 1) && forall i :: 0 <= i < |slots| ==> slots[i] < |loads|
    ensures Marks(Taken(loads), slots)
  {
    forall i, j | 0 <= i < j < |slots|
      ensures slots[i] != slots[j]
    {
      assert multiset(slots)[slots[i]] == loads[slots[i]] <= 1;
      if slots[i] == slots[j] {
        TwiceInMultiset(slots, i, j);
      }
    }
    forall i | 0 <= i < |slots|
      ensures Taken(loads)[slots[i]]
    {
      assert slots[i] in multiset(slots);
    }
    forall v | 0 <= v < |loads| && Taken(loads)[v]
      ensures v in slots
    {
      assert multiset(slots)[v] > 0;
    }
  }

  /** vals are the bins below i that are not taken, in increasing order. */
  ghost predicate EmptyBins(taken: seq<bool>, i: nat, vals: seq<uint32>) {
    && i <= |taken| && |vals| == i - CountBefore(taken, i)
    && (forall j, k :: 0 <= j < k < |vals| ==> vals[j] < vals[k])
    && (forall k :: 0 <= k < |vals| ==> vals[k] < i && !taken[vals[k]])
    && forall v: nat :: v < i && !taken[v] ==> v in vals
  }

  lemma EmptyStep(taken: seq<bool>, i: nat, vals: seq<uint32>, vals': seq<uint32>)
    requires EmptyBins(taken, i, vals) && i < |taken| && i < TWO32
    requires vals' == if taken[i] then vals else vals + [i]
    ensures EmptyBins(taken, i + 1, vals')
  {
    if !taken[i] {
      assert vals'[|vals|] == i;
      forall v: nat | v < i + 1 && !taken[v]
        ensures v in vals'
      {
        assert v < i ==> v in vals;
      }
    }
  }

  /** There is room for every empty bin: as many as there are bins more than keys. */
  lemma RoomForEmpty(taken: seq<bool>, i: nat, vals: seq<uint32>, m: nat)
    requires EmptyBins(taken, i, vals) && i < |taken| && !taken[i] && CountBefore(taken, |taken|) == m
    ensures |vals| < |taken| - m
  {
    CountMonotone(taken, i, |taken|);
    assert CountBefore(taken, i + 1) == CountBefore(taken, i);
    if i + 1 < |taken| {
      CountMonotone(taken, i + 1, |taken|);
    }
  }

  /** The loop of chd_new that collects the empty bins. */
  method CollectEmpty(bins: Bins, m: uint32) returns (vals: array<uint32>)
    requires bins.Valid() && bins.keysPerBin == 1 && m <= bins.n
    requires CountBefore(Taken(bins.Loads()), bins.n) == m
    ensures fresh(vals) && vals.Length == bins.n - m && EmptyBins(Taken(bins.Loads()), bins.n, vals[..])
  {
    hide EmptyBins, CountBefore;
    ghost var taken := Taken(bins.Loads());
    vals := new uint32[bins.n - m](_ => 0);
    var idx: uint32 := 0;
    EmptyNone(taken);
    for i := 0 to bins.n
      invariant idx <= vals.Length && EmptyBins(taken, i, vals[..idx])
    {
      assert taken[i] == bins.bits[i];
      if !bins.bits[i] {
        RoomForEmpty(taken, i, vals[..idx], m);
        ghost var found := vals[..idx];
        vals[idx] := i;
        idx := idx + 1;
        assert vals[..idx] == found + [i];
        EmptyStep(taken, i, found, vals[..idx]);
      } else {
        EmptyStep(taken, i, vals[..idx], vals[..idx]);
      }
    }
    EmptySize(taken, bins.n, vals[..idx]);
    assert vals[..idx] == vals[..];
  }

  lemma EmptyNone(taken: seq<bool>)
    ensures EmptyBins(taken, 0, [])
  {
  }

  lemma EmptySize(taken: seq<bool>, i: nat, vals: seq<uint32>)
    requires EmptyBins(taken, i, vals)
    ensures i <= |taken| && |vals| == i - CountBefore(taken, i)
  {
  }

  /** Below a taken bin x lie x minus its rank among the taken bins empty ones. */
  lemma EmptyBelow(taken: seq<bool>, vals: seq<uint32>, x: nat, r: nat)
    requires EmptyBins(taken, |taken|, vals) && CountBelow(vals, x, r) && x <= |taken|
    ensures r == x - CountBefore(taken, x)
  {
    var b := seq(|taken|, v requires 0 <= v < |taken| => !taken[v]);
    ComplementCount(taken, b, x);
    Counting.CountIsCardinality(b, x);
    var S := set u | 0 <= u < x && b[u];
    var below: seq<nat> := vals[..r];
    forall u | u in S
      ensures u in Range(below)
    {
      assert u in vals;
      var k :| 0 <= k < |vals| && vals[k] == u;
      assert below[k] == u;
    }
    assert S == Range(below);
    RangeSize(below);
  }

  lemma {:induction false} ComplementCount(a: seq<bool>, b: seq<bool>, x: nat)
    requires |a| == |b| && x <= |a| && forall v :: 0 <= v < |a| ==> b[v] == !a[v]
    ensures CountBefore(b, x) == x - CountBefore(a, x)
  {
    if x > 0 {
      ComplementCount(a, b, x - 1);
    }
  }

  // ---- the finished function -------------------------------------------------------------------------

  /** chd_data_t: the two packed structures. */
  datatype Chd = Chd(phf: ChdPh, packedPhf: seq<uint32>, packedCr: seq<uint32>) {
    /** What the structures were packed from. */
    ghost predicate Stores(disp: seq<uint32>, cr: Rank, vals: seq<uint32>, bounds: seq<nat>) {
      && phf.Stores(disp) && 4 * |DumpSelect(phf.cs.sel)| < TWO32 && packedPhf == CompressedSeq.Dump(phf.cs)
      && cr.Holds(vals, bounds) && 4 * |DumpSelect(cr.sel)| < TWO32 && packedCr == CompressedRank.Dump(cr)
    }

    /** _chd_search: the bin less the empty bins below it, which is the number of taken bins below it. */
    method Search<Key>(hash: VectorHash<Key>, key: Key, ghost disp: seq<uint32>, ghost cr: Rank,
                       ghost vals: seq<uint32>, ghost bounds: seq<nat>, ghost taken: seq<bool>)
      returns (index: uint32)
      requires Stores(disp, cr, vals, bounds) && |taken| == phf.n && EmptyBins(taken, |taken|, vals)
      ensures phf.Slot(hash, disp, key) < |taken| && index == CountBefore(taken, phf.Slot(hash, disp, key))
    {
      hide ChdPh.Slot, ChdPh.Stores, Rank.Holds, CompressedSeq.Dump, CompressedRank.Dump, EmptyBins;
      var binIdx: uint32 := phf.SearchPacked(packedPhf, hash, key, disp);
      var rank := CompressedRank.QueryPacked(packedCr, binIdx, cr, vals, bounds);
      EmptyBelow(taken, vals, binIdx, rank);
      index := binIdx - rank;
    }
  }

  /** The index of a key: the rank of its bin among the taken ones. */
  ghost function Indexes(taken: seq<bool>, slots: seq<nat>): seq<nat>
    requires forall i :: 0 <= i < |slots| ==> slots[i] < |taken|
  {
    seq(|slots|, i requires 0 <= i < |slots| => CountBefore(taken, slots[i]))
  }

  /** The bins of the keys under given displacements. */
  ghost function KeyBins<Key>(keys: seq<Key>, hash: VectorHash<Key>, seed: uint32, disp: seq<uint32>, n: uint32)
    : (s: seq<nat>)
    requires 0 < |disp| < TWO32 && 2 <= n
    ensures |s| == |keys|
  {
    KeyPositions(KeyItems(hash, seed, |disp|, n, keys), disp, n)
  }

  /** The occupancy table of a finished function, said of the keys. */
  lemma LoadsAreKeyBins<Key>(f: ChdPh, hash: VectorHash<Key>, disp: seq<uint32>, keys: seq<Key>, loads: seq<nat>)
    requires f.Stores(disp) && ChdPhHash.Perfect(f, hash, disp, keys, loads, 1)
    ensures 0 < |disp| < TWO32 && 2 <= f.n && Loaded(loads, multiset(KeyBins(keys, hash, f.seed, disp, f.n)), 1)
  {
    hide Loaded, KeyItems, KeyPositions;
    SlotsArePositions(f, hash, disp, keys);
  }

  /**
   What chd_new can come to. NoRank: the largest empty bin is 0 or 1, so that the rank structure gets
   no select keys and the source reads one that is not there.
   */
  datatype Outcome = Failed | NoRank | Built(chd: Chd)

  /** What chd_new does with a finished chd_ph function: it ranks the empty bins. */
  method RankEmpty<Key>(keys: seq<Key>, phf: ChdPh, bins: Bins, ghost hash: VectorHash<Key>, ghost disp: seq<uint32>)
    returns (result: Outcome, ghost cr: Rank, ghost vals: seq<uint32>, ghost bounds: seq<nat>)
    requires bins.Valid() && bins.keysPerBin == 1 && |keys| < bins.n == phf.n < TWO32 / 2 - 31 && phf.Stores(disp)
    requires ChdPhHash.Perfect(phf, hash, disp, keys, bins.Loads(), 1)
    ensures !result.Failed?
    ensures result.Built? ==> result.chd.phf == phf && result.chd.Stores(disp, cr, vals, bounds)
    ensures result.Built? ==> EmptyBins(Taken(bins.Loads()), bins.n, vals)
    ensures result.Built? ==>
      var slots := Slots(phf, hash, disp, keys);
      Marks(Taken(bins.Loads()), slots) && Bijection(Indexes(Taken(bins.Loads()), slots), |keys|)
    ensures result.NoRank? <==> forall x :: 2 <= x < bins.n ==> bins.Loads()[x] > 0
    ensures result.NoRank? ==> bins.n <= |keys| + 2
  {
    hide ChdPhHash.Perfect, Marks, Bijection, EmptyBins, ChdPh.Stores, CompressedSeq.Dump, CompressedRank.Dump,
         Rank.Holds, Loaded;
    cr, bounds := Rank(0, 0, 0, Select(0, 0, [], []), []), [];
    ghost var taken := Taken(bins.Loads());
    ghost var slots := Slots(phf, hash, disp, keys);
    SlotsTaken(phf, hash, disp, keys, bins.Loads());
    RanksAreBijection(taken, slots);
    MarksCount(taken, slots);
    var valsTable := CollectEmpty(bins, |keys|);
    vals := valsTable[..];
    EmptySorted(taken, vals);
    var last := valsTable[valsTable.Length - 1];
    if last < 2 {
      FewEmpty(taken, vals);
      forall x | 2 <= x < bins.n
        ensures bins.Loads()[x] > 0
      {
        assert taken[x];
      }
      return NoRank, cr, vals, bounds;
    }
    LastEmpty(taken, vals);
    assert !taken[last];
    var rank: Rank;
    rank, bounds := CompressedRank.Generate(valsTable[..]);
    cr := rank;
    DumpsFit(phf, disp, rank, vals, bounds);
    result := Built(Chd(phf, CompressedSeq.Dump(phf.cs), CompressedRank.Dump(rank)));
  }

  /**
   chd_new: the search function is a bijection from the keys onto [0, m). It fails exactly if chd_ph_new does, and
   has no rank structure exactly if every bin from 2 on is taken.
   */
  method New<Key>(keys: seq<Key>, keysPerBucket: uint32, useH: bool, c: real, maxProbes: uint32,
                  hash: VectorHash<Key>, seeds: nat -> uint32, ghost p: nat)
    returns (result: Outcome, bins: Bins, ghost disp: seq<uint32>, ghost cr: Rank, ghost vals: seq<uint32>,
             ghost bounds: seq<nat>)
    requires 0 < |keys| && 0 < keysPerBucket && 31 * (|keys| + 2) < TWO32
    requires ComputedBins(|keys|, 1, c) <= p < TWO32 / 2 - 31 && Prime(p) && p > 61
    ensures bins.Valid() && |keys| < bins.n <= p && ComputedBins(|keys|, 1, c) <= bins.n
    ensures bins.n % 2 == 1 && Accepts(bins.n)
    ensures forall x :: ComputedBins(|keys|, 1, c) <= x < bins.n && x % 2 == 1 ==> !Accepts(x)
    ensures result.Failed? <==> AllTrials(keys, keysPerBucket, 1, useH, maxProbes, bins.n, hash, seeds).None?
    ensures useH && maxProbes <= 1 ==> result.Failed?
    ensures !result.Failed? ==>
      var (t, d) := AllTrials(keys, keysPerBucket, 1, useH, maxProbes, bins.n, hash, seeds).value;
      disp == d && 0 < |disp| < TWO32 && Loaded(bins.Loads(), multiset(KeyBins(keys, hash, seeds(t), disp, bins.n)), 1)
    ensures result.Built? ==> result.chd.Stores(disp, cr, vals, bounds) && result.chd.phf.n == bins.n
    ensures result.Built? ==> EmptyBins(Taken(bins.Loads()), bins.n, vals)
    ensures result.Built? ==>
      var slots := Slots(result.chd.phf, hash, disp, keys);
      Marks(Taken(bins.Loads()), slots) && Bijection(Indexes(Taken(bins.Loads()), slots), |keys|)
    ensures !result.Failed? ==> (result.NoRank? <==> forall x :: 2 <= x < bins.n ==> bins.Loads()[x] > 0)
    ensures result.NoRank? ==> bins.n <= |keys| + 2
    ensures |keys| <= 8 ==> !result.NoRank?
    ensures |keys| == 2 && (if useH then 3 <= maxProbes else 2 <= maxProbes) ==>
      (result.Built? <==> SomeSeedTells(keys, keysPerBucket, bins.n, hash, seeds))
  {
    hide Prime, ChdPhHash.Perfect, Marks, Bijection, EmptyBins, ChdPh.Stores, CompressedSeq.Dump, CompressedRank.Dump,
         Rank.Holds, Loaded, AllTrials, ComputedBins, LoadFactor, Accepts, KeyBins, SomeSeedTells;
    var phf: Option<ChdPh>;
    MoreBinsThanKeys(|keys|, c);
    OneBinExact(|keys|, 1, c);
    phf, bins, disp := ChdPhHash.New(keys, keysPerBucket, 1, useH, c, maxProbes, hash, seeds, p);
    AcceptedSize(bins.n);
    if phf.None? {
      cr, vals, bounds := Rank(0, 0, 0, Select(0, 0, [], []), []), [], [];
      return Failed, bins, disp, cr, vals, bounds;
    }
    LoadsAreKeyBins(phf.value, hash, disp, keys, bins.Loads());
    result, cr, vals, bounds := RankEmpty(keys, phf.value, bins, hash, disp);
  }

  lemma SlotsTaken<Key>(f: ChdPh, hash: VectorHash<Key>, disp: seq<uint32>, keys: seq<Key>, loads: seq<nat>)
    requires f.Stores(disp) && ChdPhHash.Perfect(f, hash, disp, keys, loads, 1)
    ensures Marks(Taken(loads), Slots(f, hash, disp, keys))
  {
    hide Loaded, Marks, ChdPh.Stores, KeyPosition;
    var slots := Slots(f, hash, disp, keys);
    forall i | 0 <= i < |slots|
      ensures slots[i] < |loads|
    {
      SlotBound(f, hash, disp, keys[i]);
    }
    TakenByKeys(loads, slots);
  }

  lemma SlotBound<Key>(f: ChdPh, hash: VectorHash<Key>, disp: seq<uint32>, key: Key)
    requires f.Stores(disp)
    ensures f.Slot(hash, disp, key) < f.n
  {
  }

  lemma EmptySorted(taken: seq<bool>, vals: seq<uint32>)
    requires EmptyBins(taken, |taken|, vals)
    ensures Sorted(vals)
  {
  }

  lemma {:induction false} Increasing(vals: seq<uint32>, k: nat)
    requires k < |vals| && forall i, j :: 0 <= i < j < |vals| ==> vals[i] < vals[j]
    ensures k <= vals[k]
  {
    if k > 0 {
      Increasing(vals, k - 1);
    }
  }

  lemma LastEmpty(taken: seq<bool>, vals: seq<uint32>)
    requires EmptyBins(taken, |taken|, vals) && 0 < |vals|
    ensures vals[|vals| - 1] < |taken| && !taken[vals[|vals| - 1]]
  {
  }

  lemma FewEmpty(taken: seq<bool>, vals: seq<uint32>)
    requires EmptyBins(taken, |taken|, vals) && 0 < |vals| && vals[|vals| - 1] < 2
    ensures |vals| <= 2 && forall x :: 2 <= x < |taken| ==> taken[x]
  {
    forall x | 2 <= x < |taken|
      ensures taken[x]
    {
      assert !taken[x] ==> x in vals;
    }
    Increasing(vals, |vals| - 1);
  }

  lemma DumpsFit(f: ChdPh, disp: seq<uint32>, cr: Rank, vals: seq<uint32>, bounds: seq<nat>)
    requires f.Stores(disp) && cr.Holds(vals, bounds)
    ensures 4 * |DumpSelect(f.cs.sel)| < TWO32 && 4 * |DumpSelect(cr.sel)| < TWO32
  {
    CompressedSeq.RoundTrip(f.cs, disp);
    CompressedRank.RoundTrip(cr, vals, bounds);
  }
}
