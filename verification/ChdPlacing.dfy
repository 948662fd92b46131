/** The searching step of chd_ph.c: displacing buckets until no bin gets too many keys. */
module ChdPlacing {
  import opened Arithmetic
  import opened Words
  import opened CountingSort
  import opened Primes
  import opened ChdMapping
  import opened ChdOrdering

  // ---- positions --------------------------------------------------------------------------------------

  /** The bin of an item under two probe numbers. */
  function Position(item: Item, probe0: nat, probe1: nat, n: nat): (x: nat)
    requires 0 < n
    ensures x < n
  {
    Mod(item.f + item.h * probe0 + probe1, n)
  }

  /** An item starts in the bin f. */
  lemma PositionStart(item: Item, n: nat)
    requires item.f < n
    ensures Position(item, 0, 0, n) == item.f
  {
    SmallResidue(item.f, n);
  }

  /** Each step of probe0 moves an item on by its own h, and each step of probe1 by one bin. */
  lemma PositionSteps(item: Item, probe0: nat, probe1: nat, n: nat)
    requires 0 < n
    ensures Position(item, probe0 + 1, probe1, n) == Mod(Position(item, probe0, probe1, n) + item.h, n)
    ensures Position(item, probe0, probe1 + 1, n) == Mod(Position(item, probe0, probe1, n) + 1, n)
  {
    hide Mod;
    var a := item.f + item.h * probe0 + probe1;
    var q := Quotient(a, n);
    assert item.h * (probe0 + 1) == item.h * probe0 + item.h;
    Shift(Mod(a, n) + item.h, q, n);
    Shift(Mod(a, n) + 1, q, n);
  }

  /** When two items share a bin: probe1 has no part in it. */
  lemma Collision(x: Item, y: Item, probe0: nat, probe1: nat, n: nat)
    requires 0 < n
    ensures Position(x, probe0, probe1, n) == Position(y, probe0, probe1, n)
      <==> Mod((x.f - y.f) + (x.h - y.h) * probe0, n) == 0
  {
    hide Mod;
    SameResidue(x.f + x.h * probe0 + probe1, y.f + y.h * probe0 + probe1, n);
    assert (x.h - y.h) * probe0 == x.h * probe0 - y.h * probe0;
  }

  /** Modulo a prime, items with different h share a bin under at most one value of probe0. */
  lemma CollideOnce(x: Item, y: Item, p: nat, q: nat, probe1: nat, probe1': nat, n: nat)
    requires Prime(n) && 1 <= x.h < n && 1 <= y.h < n && x.h != y.h && p < q < n
    requires Position(x, p, probe1, n) == Position(y, p, probe1, n)
    ensures Position(x, q, probe1', n) != Position(y, q, probe1', n)
  {
    hide Mod, Prime, Position;
    var d := x.h - y.h;
    Collision(x, y, p, probe1, n);
    Collision(x, y, q, probe1', n);
    if Position(x, q, probe1', n) == Position(y, q, probe1', n) {
      SameResidue((x.f - y.f) + d * q, (x.f - y.f) + d * p, n);
      assert d * q - d * p == d * (q - p);
      Euclid(n, d, q - p);
      if Mod(d, n) == 0 {
        SmallMultiple(d, n);
      } else {
        SmallMultiple(q - p, n);
      }
    }
  }

  /** The sum stays within 64 bits. */
  lemma PositionFits(item: Item, probe0: uint32, probe1: uint32)
    ensures item.f + item.h * probe0 + probe1 < 0x1_0000_0000_0000_0000
  {
    Times(item.h, 0xFFFF_FFFF, probe0);
  }

  ghost function Positions(items: seq<Item>, probe0: nat, probe1: nat, n: nat): (s: seq<nat>)
    requires 0 < n
    ensures |s| == |items|
    ensures forall i :: 0 <= i < |s| ==> s[i] < n
  {
    seq(|items|, i requires 0 <= i < |items| => Position(items[i], probe0, probe1, n))
  }

  // ---- the bins ---------------------------------------------------------------------------------------------

  /** The loads of the bins are the multiplicities in occ, and none is above the limit. */
  ghost predicate Loaded(loads: seq<nat>, occ: multiset<nat>, limit: nat) {
    forall x: nat :: x < |loads| ==> loads[x] == occ[x] <= limit
  }

  /** occup_table: counters when a bin may hold several keys, bits when it may hold one. */
  class Bins {
    const n: uint32
    const keysPerBin: uint32
    const counts: array<uint8>
    const bits: array<bool>

    ghost predicate Valid()
      reads this
    {
      && 0 < n && 1 <= keysPerBin < 128
      && (keysPerBin > 1 ==> counts.Length == n) && (keysPerBin == 1 ==> bits.Length == n)
    }

    ghost function Load(x: nat): nat
      requires Valid() && x < n
      reads this, counts, bits
    {
      if keysPerBin > 1 then counts[x] else if bits[x] then 1 else 0
    }

    ghost function Loads(): (s: seq<nat>)
      requires Valid()
      reads this, counts, bits
      ensures |s| == n && forall x :: 0 <= x < n ==> s[x] == Load(x)
    {
      seq(n, x requires 0 <= x < n reads this, counts, bits => Load(x))
    }

    constructor (n: uint32, keysPerBin: uint32)
      requires 0 < n && 1 <= keysPerBin < 128
      ensures Valid() && this.n == n && this.keysPerBin == keysPerBin && fresh(counts) && fresh(bits)
      ensures Loaded(Loads(), multiset{}, keysPerBin)
    {
      this.n := n;
      this.keysPerBin := keysPerBin;
      counts := new uint8[if keysPerBin > 1 then n else 0](_ => 0);
      bits := new bool[if keysPerBin > 1 then 0 else n](_ => false);
    }

    /** memset(occup_table, 0, ...) */
    method Clear()
      requires Valid()
      modifies counts, bits
      ensures Loaded(Loads(), multiset{}, keysPerBin)
    {
      if keysPerBin > 1 {
        for x := 0 to n
          invariant forall y :: 0 <= y < x ==> counts[y] == 0
        {
          counts[x] := 0;
        }
      } else {
        for x := 0 to n
          invariant forall y :: 0 <= y < x ==> !bits[y]
        {
          bits[x] := false;
        }
      }
    }

    method Full(x: uint32) returns (full: bool)
      requires Valid() && x < n
      ensures full <==> Loads()[x] >= keysPerBin
    {
      full := if keysPerBin > 1 then counts[x] >= keysPerBin else bits[x];
    }

    method Add(x: uint32)
      requires Valid() && x < n && Loads()[x] < keysPerBin
      modifies counts, bits
      ensures Loads() == old(Loads())[x := old(Loads())[x] + 1]
    {
      if keysPerBin > 1 {
        counts[x] := counts[x] + 1;
      } else {
        bits[x] := true;
      }
    }

    method Remove(x: uint32)
      requires Valid() && x < n && 0 < Loads()[x] <= keysPerBin
      modifies counts, bits
      ensures Loads() == old(Loads())[x := (old(Loads())[x] - 1) as nat]
    {
      if keysPerBin > 1 {
        counts[x] := counts[x] - 1;
      } else {
        bits[x] := false;
      }
    }
  }

  lemma LoadMore(loads: seq<nat>, occ: multiset<nat>, limit: nat, x: nat)
    requires Loaded(loads, occ, limit) && x < |loads| && loads[x] < limit
    ensures Loaded(loads[x := loads[x] + 1], occ + multiset{x}, limit)
  {
  }

  lemma LoadLess(loads: seq<nat>, occ: multiset<nat>, limit: nat, x: nat)
    requires Loaded(loads, occ + multiset{x}, limit) && x < |loads|
    ensures 0 < loads[x] && Loaded(loads[x := (loads[x] - 1) as nat], occ, limit)
  {
    assert (occ + multiset{x})[x] == occ[x] + 1;
  }

  lemma LoadedSame(loads: seq<nat>, loads': seq<nat>, occ: multiset<nat>, limit: nat)
    requires Loaded(loads, occ, limit) && Loaded(loads', occ, limit) && |loads| == |loads'|
    ensures loads == loads'
  {
  }

  // ---- one probe -----------------------------------------------------------------------------------------------

  /** The positions of a bucket fit on top of what is placed. */
  ghost predicate Fits(occ: multiset<nat>, ps: seq<nat>, n: nat, limit: nat) {
    forall x: nat :: x < n ==> (occ + multiset(ps))[x] <= limit
  }

  lemma PrefixMore(ps: seq<nat>, i: nat)
    requires i < |ps|
    ensures multiset(ps[..i + 1]) == multiset(ps[..i]) + multiset{ps[i]}
  {
    assert ps[..i + 1] == ps[..i] + [ps[i]];
  }

  lemma MiddleLess(ps: seq<nat>, k: nat, i: nat)
    requires k < i <= |ps|
    ensures multiset(ps[k..i]) == multiset(ps[k + 1..i]) + multiset{ps[k]}
  {
    assert ps[k..i] == [ps[k]] + ps[k + 1..i];
  }

  /** A full bin that the next item hits makes the bucket impossible at these probe numbers. */
  lemma Overfull(loads: seq<nat>, occ: multiset<nat>, ps: seq<nat>, i: nat, limit: nat)
    requires i < |ps| && ps[i] < |loads| && Loaded(loads, occ + multiset(ps[..i]), limit)
    requires loads[ps[i]] >= limit
    ensures !Fits(occ, ps, |loads|, limit)
  {
    var x := ps[i];
    PrefixMore(ps, i);
    assert ps == ps[..i + 1] + ps[i + 1..];
    assert (occ + multiset(ps))[x] >= limit + 1;
  }

  lemma FitsAll(loads: seq<nat>, occ: multiset<nat>, ps: seq<nat>, limit: nat)
    requires Loaded(loads, occ + multiset(ps), limit)
    ensures Fits(occ, ps, |loads|, limit)
  {
  }

  /** The first loop of place_bucket_probe: places items until one hits a full bin. */
  method PlaceItems(bins: Bins, items: seq<Item>, start: uint32, size: uint32, probe0: uint32, probe1: uint32,
                    ghost occ: multiset<nat>, ghost ps: seq<nat>)
    returns (i: uint32)
    requires bins.Valid() && start + size <= |items|
    requires ps == Positions(items[start..start as int + size], probe0, probe1, bins.n)
    requires Loaded(bins.Loads(), occ, bins.keysPerBin)
    modifies bins.counts, bins.bits
    ensures i <= size && Loaded(bins.Loads(), occ + multiset(ps[..i]), bins.keysPerBin)
    ensures i < size ==> !Fits(occ, ps, bins.n, bins.keysPerBin)
  {
    hide Position, Fits, Loaded, Positions;
    i := 0;
    assert occ + multiset(ps[..0]) == occ;
    while i < size
      invariant i <= size && Loaded(bins.Loads(), occ + multiset(ps[..i]), bins.keysPerBin)
    {
      PositionFits(items[start + i], probe0, probe1);
      PositionAt(items, start, size, probe0, probe1, bins.n, i);
      var position: uint32 := Position(items[start + i], probe0, probe1, bins.n);
      var full := bins.Full(position);
      LoadLimit(bins.Loads(), occ, multiset(ps[..i]), bins.keysPerBin, position);
      if full {
        Overfull(bins.Loads(), occ, ps, i, bins.keysPerBin);
        break;
      }
      LoadMore(bins.Loads(), occ + multiset(ps[..i]), bins.keysPerBin, position);
      PrefixMore(ps, i);
      assert occ + multiset(ps[..i + 1]) == occ + multiset(ps[..i]) + multiset{ps[i]};
      bins.Add(position);
      i := i + 1;
    }
  }

  lemma LoadLimit(loads: seq<nat>, occ: multiset<nat>, more: multiset<nat>, limit: nat, x: nat)
    requires Loaded(loads, occ + more, limit) && x < |loads|
    ensures occ[x] <= limit && loads[x] <= limit
  {
  }

  lemma PositionAt(items: seq<Item>, start: nat, size: nat, probe0: nat, probe1: nat, n: nat, i: nat)
    requires start + size <= |items| && i < size && 0 < n
    ensures Positions(items[start..start + size], probe0, probe1, n)[i] == Position(items[start + i], probe0, probe1, n)
  {
  }

  /** The loops that undo a placement. */
  method UndoItems(bins: Bins, items: seq<Item>, start: uint32, size: uint32, probe0: uint32, probe1: uint32,
                   placed: uint32, ghost occ: multiset<nat>, ghost ps: seq<nat>)
    requires bins.Valid() && start + size <= |items| && placed <= size
    requires ps == Positions(items[start..start as int + size], probe0, probe1, bins.n)
    requires Loaded(bins.Loads(), occ + multiset(ps[..placed]), bins.keysPerBin)
    modifies bins.counts, bins.bits
    ensures Loaded(bins.Loads(), occ, bins.keysPerBin)
  {
    hide Position, Loaded, Positions;
    var i: uint32, k: uint32 := placed, 0;
    assert ps[0..placed] == ps[..placed];
    while i != 0
      invariant k + i == placed && Loaded(bins.Loads(), occ + multiset(ps[k..placed]), bins.keysPerBin)
      decreases i
    {
      PositionAt(items, start, size, probe0, probe1, bins.n, k);
      var position: uint32 := Position(items[start + k], probe0, probe1, bins.n);
      MiddleLess(ps, k, placed);
      assert occ + multiset(ps[k..placed]) == occ + multiset(ps[k + 1..placed]) + multiset{ps[k]};
      LoadLimit(bins.Loads(), occ, multiset(ps[k..placed]), bins.keysPerBin, position);
      LoadLess(bins.Loads(), occ + multiset(ps[k + 1..placed]), bins.keysPerBin, position);
      bins.Remove(position);
      k := k + 1;
      i := i - 1;
    }
    assert occ + multiset(ps[placed..placed]) == occ;
  }

  /** place_bucket_probe: succeeds exactly when the whole bucket fits, and otherwise leaves the bins as they were. */
  method PlaceBucketProbe(bins: Bins, items: seq<Item>, start: uint32, size: uint32, probe0: uint32, probe1: uint32,
                          ghost occ: multiset<nat>)
    returns (ok: bool)
    requires bins.Valid() && start + size <= |items| && Loaded(bins.Loads(), occ, bins.keysPerBin)
    modifies bins.counts, bins.bits
    ensures ok <==>
      Fits(occ, Positions(items[start..start as int + size], probe0, probe1, bins.n), bins.n, bins.keysPerBin)
    ensures ok ==> Loaded(bins.Loads(),
      occ + multiset(Positions(items[start..start as int + size], probe0, probe1, bins.n)), bins.keysPerBin)
    ensures !ok ==> bins.Loads() == old(bins.Loads())
  {
    hide Loaded, Fits, Positions;
    ghost var ps := Positions(items[start..start as int + size], probe0, probe1, bins.n);
    ghost var loads := bins.Loads();
    var i := PlaceItems(bins, items, start, size, probe0, probe1, occ, ps);
    if i != size {
      UndoItems(bins, items, start, size, probe0, probe1, i, occ, ps);
      LoadedSame(loads, bins.Loads(), occ, bins.keysPerBin);
      return false;
    }
    assert ps[..size] == ps;
    FitsAll(bins.Loads(), occ, ps, bins.keysPerBin);
    return true;
  }

  // ---- displacements --------------------------------------------------------------------------------------------

  /** A displacement decodes to the two probe numbers it was put together from. */
  lemma Decode(probe0: nat, probe1: nat, n: nat)
    requires probe0 < n
    ensures Mod(probe0 + probe1 * n, n) == probe0 && Div(probe0 + probe1 * n, n) == probe1
  {
    DivisionUnique(probe0 + probe1 * n, n, probe1, probe0);
  }

  /** The bin of an item under a displacement. */
  ghost function Bin(x: Item, d: nat, n: nat): nat
    requires 0 < n
  {
    Position(x, Mod(d, n), Div(d, n), n)
  }

  /** Where the items of bucket g go under displacement d. */
  ghost function Displaced(ms: seq<MapItem>, g: nat, d: nat, n: nat): (s: seq<nat>)
    requires 0 < n
    ensures |s| == |Group(ms, g)|
  {
    Positions(Group(ms, g), Mod(d, n), Div(d, n), n)
  }

  ghost function Parts(ms: seq<MapItem>, disp: seq<uint32>, n: nat): (parts: seq<seq<nat>>)
    requires 0 < n
    ensures |parts| == |disp|
  {
    seq(|disp|, g requires 0 <= g < |disp| => Displaced(ms, g, disp[g], n))
  }

  /** What lies in the bins when the buckets in D are placed. */
  ghost function Occupied(ms: seq<MapItem>, disp: seq<uint32>, n: nat, D: set<nat>): multiset<nat>
    requires 0 < n
  {
    Gathered(Parts(ms, disp, n), D)
  }

  /** The buckets in D are placed, with their displacements in disp, and no bin is above the limit. */
  ghost predicate Placed(ms: seq<MapItem>, limit: nat, disp: seq<uint32>, loads: seq<nat>, D: set<nat>) {
    && 0 < |loads| && (forall g :: 0 <= g < |disp| ==> disp[g] + 1 < TWO32)
    && Loaded(loads, Occupied(ms, disp, |loads|, D), limit)
  }

  /** Bucket g fits under displacement d. */
  ghost predicate FitsAt(ms: seq<MapItem>, limit: nat, disp: seq<uint32>, n: nat, D: set<nat>, g: nat, d: nat)
    requires 0 < n
  {
    Fits(Occupied(ms, disp, n, D), Displaced(ms, g, d, n), n, limit)
  }

  lemma PlaceOne(ms: seq<MapItem>, limit: nat, disp: seq<uint32>, loads: seq<nat>, D: set<nat>, g: nat, d: uint32,
                 loads': seq<nat>)
    requires Placed(ms, limit, disp, loads, D) && g < |disp| && g !in D && d + 1 < TWO32 && |loads'| == |loads|
    requires Loaded(loads', Occupied(ms, disp, |loads|, D) + multiset(Displaced(ms, g, d, |loads|)), limit)
    ensures Placed(ms, limit, disp[g := d], loads', D + {g})
  {
    hide Displaced, Gathered, Loaded;
    var n := |loads|;
    assert Parts(ms, disp[g := d], n) == Parts(ms, disp, n)[g := Displaced(ms, g, d, n)];
    GatherMore(Parts(ms, disp, n), D, g, Displaced(ms, g, d, n));
  }

  /** Moving on to the next pair of probe numbers. */
  method NextProbe(probe0: uint32, probe1: uint32, n: uint32) returns (probe0': uint32, probe1': uint32)
    requires probe0 < n && probe1 < n
    ensures probe0' < n && probe0' + probe1' * n == probe0 + probe1 * n + 1
  {
    probe0', probe1' := probe0 + 1, probe1;
    if probe0' >= n {
      probe0' := probe0' - n;
      probe1' := probe1' + 1;
      assert (probe1 + 1) * n == probe1 * n + n;
    }
  }

  /** Trying one pair of probe numbers on bucket number bucketNum, and storing it if the bucket fits. */
  method TryProbe(bins: Bins, items: seq<Item>, ids: array<uint32>, lists: array<uint32>, disp: array<uint32>,
                  bucketNum: uint32, size: uint32, probe0: uint32, probe1: uint32, ghost ms: seq<MapItem>,
                  ghost D: set<nat>)
    returns (ok: bool)
    requires bins.Valid() && Placed(ms, bins.keysPerBin, disp[..], bins.Loads(), D)
    requires Entry(ms, ids[..], lists[..], items, size, bucketNum) && ids[bucketNum] < disp.Length
    requires ids[bucketNum] !in D && disp != ids && disp != lists
    requires probe0 < bins.n && probe0 + probe1 * bins.n + 1 < TWO32
    modifies bins.counts, bins.bits, disp
    ensures var d := probe0 + probe1 * bins.n;
      ok <==> FitsAt(ms, bins.keysPerBin, old(disp[..]), bins.n, D, ids[bucketNum], d)
    ensures ok ==> disp[..] == old(disp[..])[ids[bucketNum] := probe0 + probe1 * bins.n]
    ensures ok ==> Placed(ms, bins.keysPerBin, disp[..], bins.Loads(), D + {ids[bucketNum] as nat})
    ensures !ok ==> disp[..] == old(disp[..]) && bins.Loads() == old(bins.Loads())
  {
    hide Loaded, Fits, Positions, Gathered, Group, Mod, Div;
    ghost var g: nat, n := ids[bucketNum], bins.n;
    ghost var disp0, loads0 := disp[..], bins.Loads();
    Decode(probe0, probe1, n);
    StretchIs(items, lists[bucketNum], size, Group(ms, g));
    ok := PlaceBucketProbe(bins, items, lists[bucketNum], size, probe0, probe1, Occupied(ms, disp0, n, D));
    if ok {
      var d: uint32 := probe0 + probe1 * bins.n;
      PlaceOne(ms, bins.keysPerBin, disp0, loads0, D, g, d, bins.Loads());
      disp[ids[bucketNum]] := d;
      assert disp[..] == disp0[g := d];
    }
  }

  lemma StretchIs<T>(a: seq<T>, lo: nat, n: nat, s: seq<T>)
    requires Stretch(a, lo, n, s)
    ensures lo + n <= |a| && a[lo..lo + n] == s
  {
  }

  /** The displacements that place_bucket tries: the first one is tried in any case. */
  ghost predicate Permitted(maxProbes: nat, n: nat, d: nat) {
    d == 0 || (d < maxProbes && d < n * n)
  }

  /** place_bucket: the first displacement that fits, or none among the first maxProbes. */
  method PlaceBucket(bins: Bins, items: seq<Item>, ids: array<uint32>, lists: array<uint32>, disp: array<uint32>,
                     bucketNum: uint32, size: uint32, maxProbes: uint32, ghost ms: seq<MapItem>, ghost D: set<nat>)
    returns (ok: bool)
    requires bins.Valid() && Placed(ms, bins.keysPerBin, disp[..], bins.Loads(), D)
    requires Entry(ms, ids[..], lists[..], items, size, bucketNum) && ids[bucketNum] < disp.Length
    requires ids[bucketNum] !in D && disp != ids && disp != lists
    modifies bins.counts, bins.bits, disp
    ensures ok ==> Placed(ms, bins.keysPerBin, disp[..], bins.Loads(), D + {ids[bucketNum] as nat})
    ensures ok ==> FitsAt(ms, bins.keysPerBin, old(disp[..]), bins.n, D, ids[bucketNum], disp[ids[bucketNum]])
    ensures ok ==> disp[..] == old(disp[..])[ids[bucketNum] := disp[ids[bucketNum]]]
    ensures ok ==> Permitted(maxProbes, bins.n, disp[ids[bucketNum]])
    ensures forall d: nat :: Permitted(maxProbes, bins.n, d) && (ok ==> d < disp[ids[bucketNum]]) ==>
      !FitsAt(ms, bins.keysPerBin, old(disp[..]), bins.n, D, ids[bucketNum], d)
    ensures !ok ==> disp[..] == old(disp[..]) && bins.Loads() == old(bins.Loads())
  {
    hide Placed, Entry, FitsAt, Permitted;
    EntryBound(ms, ids[..], lists[..], items, size, bucketNum);
    FirstPermitted(maxProbes, bins.n);
    var probe0: uint32, probe1: uint32, probeNum: uint32 := 0, 0, 0;
    while true
      invariant probe0 < bins.n && probe1 < bins.n && probeNum == probe0 + probe1 * bins.n && probeNum + 1 < TWO32
      invariant disp[..] == old(disp[..]) && bins.Loads() == old(bins.Loads())
      invariant Permitted(maxProbes, bins.n, probeNum)
      invariant forall d: nat :: d < probeNum ==>
        !FitsAt(ms, bins.keysPerBin, old(disp[..]), bins.n, D, ids[bucketNum], d)
      decreases TWO32 - probeNum
    {
      ok := TryProbe(bins, items, ids, lists, disp, bucketNum, size, probe0, probe1, ms, D);
      if ok {
        return true;
      }
      probe0, probe1 := NextProbe(probe0, probe1, bins.n);
      probeNum := probeNum + 1;
      PermittedNext(maxProbes, bins.n, probe0, probe1, probeNum);
      if probeNum >= maxProbes || probe1 >= bins.n {
        return false;
      }
    }
  }

  lemma FirstPermitted(maxProbes: nat, n: nat)
    ensures Permitted(maxProbes, n, 0)
  {
  }

  /** The test at the end of a turn says exactly whether one more displacement is permitted. */
  lemma PermittedNext(maxProbes: nat, n: nat, probe0: nat, probe1: nat, probeNum: nat)
    requires probe0 < n && probeNum == probe0 + probe1 * n && 0 < probeNum
    ensures probeNum >= maxProbes || probe1 >= n ==> forall d: nat :: Permitted(maxProbes, n, d) ==> d < probeNum
    ensures probeNum < maxProbes && probe1 < n ==> Permitted(maxProbes, n, probeNum)
  {
    if probe1 < n {
      Times(probe1 + 1, n, n);
      assert (probe1 + 1) * n == probe1 * n + n;
    } else {
      Square(probe0, probe1, n, probeNum);
    }
  }

  lemma EntryBound(ms: seq<MapItem>, ids: seq<uint32>, lists: seq<uint32>, items: seq<Item>, s: nat, p: nat)
    requires Entry(ms, ids, lists, items, s, p)
    ensures p < |ids| && p < |lists|
  {
  }

  lemma Square(probe0: nat, probe1: nat, n: nat, probeNum: nat)
    requires probeNum == probe0 + probe1 * n
    ensures probe1 >= n ==> probeNum >= n * n
  {
  }
}
