/** chd.c: nine keys that leave only the bins 0 and 1 empty, so that there is no rank structure. */
module ChdNoRank {
  import opened Arithmetic
  import opened Words
  import opened Counting
  import opened CountingSort
  import opened Primes
  import opened Hypergraph
  import opened MillerRabin
  import opened ChdMapping
  import opened ChdPlacing
  import opened ChdRuns
  import opened ChdPhHash
  import opened ChdHash

  // ---- elements of a single group --------------------------------------------------------------------------

  lemma {:induction false} OneGroup<T>(s: seq<Keyed<T>>, k: nat)
    requires forall i :: 0 <= i < |s| ==> s[i].group == 0
    ensures |Group(s, k)| == if k == 0 then |s| else 0
    ensures k == 0 ==> forall i :: 0 <= i < |s| ==> Group(s, k)[i] == s[i].value
  {
    if s != [] {
      OneGroup(s[..|s| - 1], k);
    }
  }

  /** Lists of sizes that no bucket has change nothing. */
  lemma {:induction false} NoBuckets(c: Setting, useH: bool, disp: seq<uint32>, s: nat)
    requires 0 < c.n && forall g: nat :: g < |disp| ==> |Group(c.ms, g)| > s || Group(c.ms, g) == []
    ensures PlaceLists(c, useH, disp, s).0 && PlaceLists(c, useH, disp, s).1.disp == disp
  {
    hide Group, Swept, FirstFit;
    if s > 0 {
      var list := OfSize(c.ms, |disp|, s);
      if list != [] {
        OfSizeMember(c.ms, |disp|, s, list[0]);
      }
      NoBuckets(c, useH, disp, s - 1);
    }
  }

  // ---- the nine keys ------------------------------------------------------------------------------------------

  const NINE: seq<uint32> := [0, 1, 2, 3, 4, 5, 6, 7, 8]

  /** max_probes for nine keys: their binary logarithm, over 20, of 2^20. */
  const NINE_PROBES: uint32 := 166195

  /** All keys go to bucket 0; key k starts at bin k + 2. */
  function NineHash(s: uint32, key: uint32): Triple {
    Triple(0, (key as int + 2) % 11, 0)
  }

  ghost function NineItems(): (ms: seq<MapItem>)
    ensures |ms| == 9
  {
    KeyItems(NineHash, 0, 3, 11, NINE)
  }

  lemma NineItem(k: nat)
    requires k < 9
    ensures NineItems()[k] == Keyed(Item(k + 2, 1), 0)
  {
    assert NINE[k] == k;
    assert NineHash(0, k) == Triple(0, k + 2, 0) by { DivisionUnique(k + 2, 11, 0, k + 2); }
    assert Mod(k + 2, 11) == k + 2 by { DivisionUnique(k + 2, 11, 0, k + 2); }
    assert Mod(0, 10) == 0 && Mod(0, 3) == 0;
  }

  lemma NineGroups()
    ensures |Group(NineItems(), 0)| == 9 && Group(NineItems(), 1) == [] && Group(NineItems(), 2) == []
    ensures forall k: nat :: k < 9 ==> Group(NineItems(), 0)[k] == Item(k + 2, 1)
  {
    hide Group;
    forall k: nat | k < 9
      ensures NineItems()[k] == Keyed(Item(k + 2, 1), 0)
    {
      NineItem(k);
    }
    OneGroup(NineItems(), 0);
    OneGroup(NineItems(), 1);
    OneGroup(NineItems(), 2);
  }

  /** Under displacement 0 the keys lie in the bins 2 to 10. */
  lemma NinePosition(k: nat)
    requires k < 9
    ensures Position(Item(k + 2, 1), Mod(0, 11), Div(0, 11), 11) == k + 2
  {
    assert Mod(0, 11) == 0;
    DivisionUnique(0, 11, 0, 0);
    DivisionUnique(k + 2, 11, 0, k + 2);
  }

  lemma NineDisplaced()
    ensures |Displaced(NineItems(), 0, 0, 11)| == 9
    ensures forall k: nat :: k < 9 ==> Displaced(NineItems(), 0, 0, 11)[k] == k + 2
  {
    hide Group, Position, Div, Mod;
    NineGroups();
    forall k: nat | k < 9
      ensures Displaced(NineItems(), 0, 0, 11)[k] == k + 2
    {
      NinePosition(k);
    }
  }

  lemma {:induction false} DistinctMultiset(ps: seq<nat>, x: nat)
    requires Distinct(ps)
    ensures multiset(ps)[x] <= 1
  {
    if ps != [] {
      var n := |ps| - 1;
      DistinctMultiset(ps[..n], x);
      assert ps == ps[..n] + [ps[n]];
      assert ps[n] !in ps[..n];
    }
  }

  lemma AtMostOnce(ps: seq<nat>, n: nat)
    requires Distinct(ps)
    ensures Fits(multiset{}, ps, n, 1)
  {
    forall x: nat
      ensures multiset(ps)[x] <= 1
    {
      DistinctMultiset(ps, x);
    }
  }

  lemma NineFit()
    ensures FitsAt(NineItems(), 1, [0, 0, 0], 11, {}, 0, 0)
  {
    hide Gathered, Displaced;
    NineDisplaced();
    GatherNone(Parts(NineItems(), [0, 0, 0], 11));
    AtMostOnce(Displaced(NineItems(), 0, 0, 11), 11);
  }

  ghost function NineSetting(): Setting {
    Setting(NineItems(), 1, 11, NINE_PROBES)
  }

  /** The first sweep places the only bucket, and no displacement changes. */
  lemma NinePlaced()
    ensures PlaceLists(NineSetting(), true, [0, 0, 0], 9).0
    ensures PlaceLists(NineSetting(), true, [0, 0, 0], 9).1.disp == [0, 0, 0]
  {
    hide FitsAt, Group, NineItems;
    NineGroups();
    NineFit();
    var c, disp: seq<uint32> := NineSetting(), [0, 0, 0];
    assert OfSize(c.ms, 0, 9) == [] && OfSize(c.ms, 1, 9) == [0] && OfSize(c.ms, 2, 9) == [0];
    assert OfSize(c.ms, 3, 9) == [0];
    assert Larger(c.ms, 3, 9) == {};
    var p := Progress(disp, {}, [0]);
    assert ListStart(c, disp, 9) == p;
    var q := Progress(disp, {0}, []);
    assert disp[0 := 0] == disp && [0 as nat][1..] == [] && {} + {0 as nat} == {0};
    assert Swept(c, 0, q) == q;
    assert Swept(c, 0, p) == q;
    assert Sweeps(c, 1, q) == (true, q);
    assert Sweeps(c, 0, p) == (true, q);
    NoBuckets(c, true, disp, 8);
  }

  ghost function NineJob(seeds: nat -> uint32): Job<uint32> {
    NewJob(NINE, 1, true, NINE_PROBES, 11, NineHash, seeds)
  }

  lemma NineGood()
    ensures !SomeDuplicates(NineItems(), 3)
  {
    hide Group, NineItems;
    NineGroups();
    forall g: nat | g < 3
      ensures NoDuplicates(NineItems(), g)
    {
    }
  }

  lemma NineTrials(seeds: nat -> uint32)
    requires seeds(0) == 0
    ensures AllTrials(NINE, 4, 1, true, NINE_PROBES, 11, NineHash, seeds) == Some((0, [0, 0, 0]))
  {
    hide SomeDuplicates, PlaceLists, KeyItems;
    assert Div(9, 4) == 2 by { DivisionUnique(9, 4, 2, 1); }
    assert NoDisplacements(3) == [0, 0, 0];
    NineGood();
    NinePlaced();
    assert FirstGood(NineJob(seeds), 3, 0, MAPPING_ITERATIONS) == Some(0);
  }

  /** With load factor 0.99 ten bins are computed, and the first number from there on that is accepted is 11. */
  lemma NineBins(n: nat)
    requires ComputedBins(9, 1, 0.99) <= n && n % 2 == 1 && Accepts(n)
    requires forall x :: ComputedBins(9, 1, 0.99) <= x < n && x % 2 == 1 ==> !Accepts(x)
    ensures n == 11
  {
    hide Accepts;
    TenComputed();
    EleventhAccepted();
  }

  lemma TenComputed()
    ensures ComputedBins(9, 1, 0.99) == 10
  {
    assert 9.0 / 0.99 * 0.99 == 9.0;
    assert 9.0 <= 9.0 / 0.99 < 10.0;
  }

  lemma EleventhAccepted()
    ensures Accepts(11)
  {
    hide Accepts;
    assert Mod(11, 2) == 1 && Mod(11, 3) == 2 && Mod(11, 4) == 3 && Mod(11, 5) == 1 && Mod(11, 6) == 5;
    assert Mod(11, 7) == 4 && Mod(11, 8) == 3 && Mod(11, 9) == 2 && Mod(11, 10) == 1;
    PrimesAccepted(11);
  }

  lemma NoFactorOf67(k: int, d: nat)
    requires 2 <= d < 67
    ensures k * d != 67
  {
    if k >= 9 && d >= 8 {
      Times(9, k, d);
    } else if k > 8 {
      assert d == 2 || d == 3 || d == 4 || d == 5 || d == 6 || d == 7;
    } else if k > 0 {
      assert k == 1 || k == 2 || k == 3 || k == 4 || k == 5 || k == 6 || k == 7 || k == 8;
    } else {
      Times(-k, -k, d);
      assert k * d <= 0;
    }
  }

  lemma SixtySeven()
    ensures Prime(67)
  {
    forall d: nat | 2 <= d < 67
      ensures Mod(67, d) != 0
    {
      var k := Quotient(67, d);
      NoFactorOf67(k, d);
    }
  }

  lemma NineKeyBins()
    ensures |KeyBins(NINE, NineHash, 0, [0, 0, 0], 11)| == 9
    ensures forall k: nat :: k < 9 ==> KeyBins(NINE, NineHash, 0, [0, 0, 0], 11)[k] == k + 2
  {
    hide Position, Div, Mod;
    forall k: nat | k < 9
      ensures KeyBins(NINE, NineHash, 0, [0, 0, 0], 11)[k] == k + 2
    {
      NineItem(k);
      NinePosition(k);
    }
  }

  /** Exactly the bins from 2 on are taken. */
  lemma NineLoads(loads: seq<nat>)
    requires |loads| == 11
    requires Loaded(loads, multiset(KeyBins(NINE, NineHash, 0, [0, 0, 0], 11)), 1)
    ensures forall x :: 2 <= x < 11 ==> loads[x] > 0
  {
    hide KeyBins;
    NineKeyBins();
    var s := KeyBins(NINE, NineHash, 0, [0, 0, 0], 11);
    forall x | 2 <= x < 11
      ensures loads[x] > 0
    {
      assert s[x - 2] == x;
      assert x in multiset(s);
    }
  }

  /** chd_new with nine keys, the default bucket size and load factor 0.99 comes to no ranks. */
  method NoRankExample() returns (result: Outcome, bins: Bins)
    ensures bins.Valid() && bins.n == 11 && result.NoRank?
  {
    hide Prime, Accepts, ComputedBins, AllTrials, Loaded, KeyBins;
    TenComputed();
    SixtySeven();
    var seeds: nat -> uint32 := i => 0;
    ghost var disp, cr, vals, bounds;
    result, bins, disp, cr, vals, bounds := ChdHash.New(NINE, 4, true, 0.99, NINE_PROBES, NineHash, seeds, 67);
    NineBins(bins.n);
    NineTrials(seeds);
    NineLoads(bins.Loads());
  }
}
