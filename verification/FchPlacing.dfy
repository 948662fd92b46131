/** fch.c: placing the keys of a bucket by shifting them into the free slots of a random permutation. */
module FchPlacing {
  import opened Arithmetic
  import opened Words
  import opened Counting
  import opened CountingSort
  import opened Primes
  import opened Keys

  /** mixh10h11h12: the bucket of a key from its first hash value. */
  function MixH(b: uint32, p1: nat, p2: uint32, initialIndex: uint32): (r: uint32)
    requires 0 < p2 && 2 * p2 <= b
    ensures r < b
  {
    if initialIndex < p1 then Mod(initialIndex, p2) else
      var i := Mod(initialIndex, b);
      if i < p2 then i + p2 else i
  }

  /** The indexes below p1, and only they, share the first p2 buckets; the others go on behind them modulo b. */
  lemma MixHExact(b: uint32, p1: nat, p2: uint32, initialIndex: uint32)
    requires 0 < p2 && 2 * p2 <= b
    ensures MixH(b, p1, p2, initialIndex) < p2 <==> initialIndex < p1
    ensures initialIndex < p1 ==> MixH(b, p1, p2, initialIndex) % p2 == initialIndex % p2
    ensures initialIndex >= p1 && initialIndex % b >= p2 ==> MixH(b, p1, p2, initialIndex) % b == initialIndex % b
    ensures initialIndex >= p1 && initialIndex % b < p2 ==>
      MixH(b, p1, p2, initialIndex) % b == initialIndex % b + p2
  {
    var r := MixH(b, p1, p2, initialIndex);
    SmallResidue(r, b);
    if initialIndex < p1 {
      SmallResidue(r, p2);
    }
  }

  /** The parameters of a function under construction: fch_config_data_t without its tables. */
  datatype Params = Params(m: uint32, b: uint32, p1: nat, p2: uint32) {
    ghost predicate Valid() {
      0 < m && 2 * m < TWO32 && 0 < p2 && 2 * p2 <= b
    }
  }

  function BucketOf<Key>(c: Params, hash: Hash<Key>, s1: uint32, key: Key): (r: uint32)
    requires c.Valid()
    ensures r < c.b
  {
    MixH(c.b, c.p1, c.p2, Mod(hash(s1, key), c.m))
  }

  /** Two first hash values x and y, taken modulo m, lead to the same bucket. */
  ghost predicate Meet(c: Params, x: nat, y: nat)
    requires c.Valid()
  {
    if x < c.p1 && y < c.p1 then x % c.p2 == y % c.p2
    else if x < c.p1 || y < c.p1 then false
    else
      var i, j := x % c.b, y % c.b;
      i == j || (i < c.p2 && j == i + c.p2) || (j < c.p2 && i == j + c.p2)
  }

  lemma SharedBucket<Key>(c: Params, hash: Hash<Key>, s1: uint32, k: Key, l: Key)
    requires c.Valid()
    ensures BucketOf(c, hash, s1, k) == BucketOf(c, hash, s1, l) <==> Meet(c, hash(s1, k) % c.m, hash(s1, l) % c.m)
  {
  }

  /** Under this seed of the first hash every key has a bucket of its own. */
  ghost predicate OwnBuckets<Key>(c: Params, hash: Hash<Key>, s1: uint32, keys: seq<Key>)
    requires c.Valid()
  {
    forall i, j :: 0 <= i < j < |keys| ==> !Meet(c, hash(s1, keys[i]) % c.m, hash(s1, keys[j]) % c.m)
  }

  ghost function KeyBuckets<Key>(c: Params, hash: Hash<Key>, s1: uint32, keys: seq<Key>): (s: seq<Keyed<Key>>)
    requires c.Valid()
    ensures |s| == |keys| && Groups(s, c.b)
  {
    seq(|keys|, i requires 0 <= i < |keys| => Keyed(keys[i], BucketOf(c, hash, s1, keys[i])))
  }

  /** The slot of a key in a bucket that is shifted by shift. */
  function Slot<Key>(m: uint32, hash: Hash<Key>, s2: uint32, key: Key, shift: uint32): (x: nat)
    requires 0 < m
    ensures x < m
  {
    Mod(Mod(hash(s2, key), m) + shift, m)
  }

  ghost function SlotsOf<Key>(m: uint32, hash: Hash<Key>, s2: uint32, bucket: seq<Key>, shift: uint32): (r: seq<nat>)
    requires 0 < m
    ensures |r| == |bucket|
  {
    seq(|bucket|, i requires 0 <= i < |bucket| => Slot(m, hash, s2, bucket[i], shift))
  }

  // ---- the permutation and its inverse -----------------------------------------------------------------

  /** random and map are permutations of the slots and inverse to each other. */
  ghost predicate Inverse(random: seq<uint32>, map_: seq<uint32>) {
    && |random| == |map_|
    && (forall i :: 0 <= i < |random| ==> random[i] < |map_| && map_[random[i]] == i)
    && forall x :: 0 <= x < |map_| ==> map_[x] < |random| && random[map_[x]] == x
  }

  /** Taking slot random[y] out of the free ones keeps the tables inverse. */
  lemma TakeSlot(random: seq<uint32>, map_: seq<uint32>, filled: nat, y: nat, random': seq<uint32>, map': seq<uint32>)
    requires Inverse(random, map_) && filled <= y < |random|
    requires random' == random[y := random[filled]][filled := random[y]]
    requires map' == map_[random[filled] := y][random[y] := filled]
    ensures Inverse(random', map')
  {
    forall x | 0 <= x < |map'|
      ensures map'[x] < |random'| && random'[map'[x]] == x
    {
      assert map_[x] < |random| && random[map_[x]] == x;
    }
  }

  // ---- what a bucket does to the tables ------------------------------------------------------------------

  /** The two tables of searching, of which the first filled slots are taken. */
  datatype Tables = Tables(random: seq<uint32>, map_: seq<uint32>, filled: nat)

  ghost predicate TablesOk(t: Tables, m: nat) {
    |t.random| == m && Inverse(t.random, t.map_) && t.filled <= m
  }

  ghost predicate Free(t: Tables, x: nat) {
    x < |t.map_| && t.map_[x] >= t.filled
  }

  /** Slot x is swapped to the end of the taken ones. */
  ghost function Taken(t: Tables, x: nat, m: nat): (r: Tables)
    requires TablesOk(t, m) && Free(t, x)
    ensures TablesOk(r, m) && r.filled == t.filled + 1
  {
    assert t.map_[x] < |t.random| && t.random[t.map_[x]] == x;
    var y := t.map_[x];
    var random := t.random[y := t.random[t.filled]][t.filled := t.random[y]];
    var map_ := t.map_[t.random[t.filled] := y as uint32][t.random[y] := t.filled as uint32];
    TakeSlot(t.random, t.map_, t.filled, y, random, map_);
    Tables(random, map_, t.filled + 1)
  }

  ghost predicate SlotsBelow(slots: seq<nat>, m: nat) {
    forall i :: 0 <= i < |slots| ==> slots[i] < m
  }

  /** The slots are taken one after the other, up to the first that is not free. */
  ghost function Shifted(t: Tables, slots: seq<nat>, m: nat): (r: (bool, Tables))
    requires TablesOk(t, m) && SlotsBelow(slots, m)
    ensures TablesOk(r.1, m) && t.filled <= r.1.filled
    decreases |slots|
  {
    if slots == [] then (true, t)
    else if Free(t, slots[0]) then Shifted(Taken(t, slots[0], m), slots[1..], m)
    else (false, t)
  }

  /** The shift that sends the key to slot x. */
  function ShiftTo<Key>(m: uint32, hash: Hash<Key>, s2: uint32, key: Key, x: nat): (shift: uint32)
    requires 0 < m
    ensures shift < m
  {
    Mod(m + x - Mod(hash(s2, key), m), m)
  }

  /** The loop over z: the free slots from number z on are tried for the first key of the bucket. */
  ghost function PlacedFrom<Key>(m: uint32, hash: Hash<Key>, s2: uint32, bucket: seq<Key>, t: Tables, z: nat)
    : (r: (bool, Tables))
    requires 0 < m && TablesOk(t, m) && bucket != []
    ensures TablesOk(r.1, m) && (!r.0 ==> r.1.filled == t.filled)
    decreases m - z
  {
    if t.filled + z >= m then (false, t) else
      var shift := ShiftTo(m, hash, s2, bucket[0], t.random[t.filled + z]);
      var r := Shifted(t, SlotsOf(m, hash, s2, bucket, shift), m);
      if r.0 then r else PlacedFrom(m, hash, s2, bucket, r.1.(filled := t.filled), z + 1)
  }

  // ---- when a bucket is placed -----------------------------------------------------------------------------

  /** The second hash keeps the keys of a bucket apart. */
  ghost predicate KeptApart<Key>(m: uint32, hash: Hash<Key>, s2: uint32, bucket: seq<Key>)
    requires 0 < m
  {
    forall i, j :: 0 <= i < j < |bucket| ==> Mod(hash(s2, bucket[i]), m) != Mod(hash(s2, bucket[j]), m)
  }

  lemma SlotsDistinct<Key>(m: uint32, hash: Hash<Key>, s2: uint32, bucket: seq<Key>, shift: uint32)
    requires 0 < m && KeptApart(m, hash, s2, bucket) && shift < m
    ensures Distinct(SlotsOf(m, hash, s2, bucket, shift))
  {
    hide Mod;
    var slots := SlotsOf(m, hash, s2, bucket, shift);
    forall i, j | 0 <= i < j < |slots|
      ensures slots[i] != slots[j]
    {
      ShiftInjective(m, Mod(hash(s2, bucket[i]), m), Mod(hash(s2, bucket[j]), m), shift);
    }
  }

  lemma ShiftInjective(m: nat, h: nat, k: nat, shift: nat)
    requires h < m && k < m && shift < m && h != k
    ensures Mod(h + shift, m) != Mod(k + shift, m)
  {
    Wraps(m, h, shift);
    Wraps(m, k, shift);
  }

  lemma Wraps(m: nat, h: nat, shift: nat)
    requires h < m && shift < m
    ensures Mod(h + shift, m) == if h + shift < m then h + shift else h + shift - m
  {
    if h + shift < m {
      DivisionUnique(h + shift, m, 0, h + shift);
    } else {
      DivisionUnique(h + shift, m, 1, h + shift - m);
    }
  }

  /** Exactly one shift sends a key to a given slot. */
  lemma ShiftUnique<Key>(m: uint32, hash: Hash<Key>, s2: uint32, key: Key, x: nat, shift: uint32)
    requires 0 < m && x < m && shift < m
    ensures Slot(m, hash, s2, key, shift) == x <==> shift == ShiftTo(m, hash, s2, key, x)
  {
    hide Mod;
    var h := Mod(hash(s2, key), m);
    Wraps(m, h, shift);
    if x >= h {
      DivisionUnique(m + x - h, m, 1, x - h);
    } else {
      DivisionUnique(m + x - h, m, 0, m + x - h);
    }
    assert Mod(m + x - h, m) == if x >= h then x - h else m + x - h by { ModIs(m + x - h, m); }
  }

  lemma ModIs(a: int, n: nat)
    requires 0 < n
    ensures Mod(a, n) == a % n
  {
  }

  /** Taking a slot exchanges two positions behind the taken ones, so that no other slot's state changes. */
  lemma TakenKeeps(t: Tables, x: nat, m: nat, y: nat, base: nat)
    requires TablesOk(t, m) && Free(t, x) && y < m && base <= t.filled
    ensures Free(Taken(t, x, m), y) <==> Free(t, y) && y != x
    ensures Taken(t, x, m).map_[y] >= base <==> t.map_[y] >= base
  {
    assert t.map_[x] < |t.random| && t.random[t.map_[x]] == x;
    assert t.map_[y] < |t.random| && t.random[t.map_[y]] == y;
  }

  /** Distinct slots can be taken exactly if each of them is free. */
  lemma {:induction false} ShiftedExact(t: Tables, slots: seq<nat>, m: nat)
    requires TablesOk(t, m) && SlotsBelow(slots, m) && Distinct(slots)
    ensures Shifted(t, slots, m).0 <==> forall i :: 0 <= i < |slots| ==> Free(t, slots[i])
    decreases |slots|
  {
    hide Inverse, Taken, Free;
    if slots != [] && Free(t, slots[0]) {
      var t', rest := Taken(t, slots[0], m), slots[1..];
      forall i | 0 <= i < |rest|
        ensures Free(t', rest[i]) <==> Free(t, slots[i + 1])
      {
        TakenKeeps(t, slots[0], m, rest[i], t.filled);
      }
      ShiftedExact(t', rest, m);
    }
  }

  /** Whatever was tried, the slots behind base stay behind it. */
  lemma {:induction false} ShiftedKeeps(t: Tables, slots: seq<nat>, m: nat, y: nat, base: nat)
    requires TablesOk(t, m) && SlotsBelow(slots, m) && y < m && base <= t.filled
    ensures |Shifted(t, slots, m).1.map_| == |t.map_| == m
    ensures Shifted(t, slots, m).1.map_[y] >= base <==> t.map_[y] >= base
    decreases |slots|
  {
    hide Taken;
    if slots != [] && Free(t, slots[0]) {
      TakenKeeps(t, slots[0], m, y, base);
      ShiftedKeeps(Taken(t, slots[0], m), slots[1..], m, y, base);
    }
  }

  /** Under this shift every key of the bucket goes to a free slot. */
  ghost predicate Fits<Key>(m: uint32, hash: Hash<Key>, s2: uint32, bucket: seq<Key>, t: Tables, shift: uint32)
    requires 0 < m
  {
    forall i :: 0 <= i < |bucket| ==> Free(t, Slot(m, hash, s2, bucket[i], shift))
  }

  /** So it does when its first key goes to the slot at position p. */
  ghost predicate FitsAt<Key>(m: uint32, hash: Hash<Key>, s2: uint32, bucket: seq<Key>, t: Tables, p: nat)
    requires 0 < m && bucket != []
  {
    p < |t.random| && Fits(m, hash, s2, bucket, t, ShiftTo(m, hash, s2, bucket[0], t.random[p]))
  }

  lemma AttemptExact<Key>(m: uint32, hash: Hash<Key>, s2: uint32, bucket: seq<Key>, t: Tables, shift: uint32)
    requires 0 < m && TablesOk(t, m) && KeptApart(m, hash, s2, bucket) && shift < m
    ensures Shifted(t, SlotsOf(m, hash, s2, bucket, shift), m).0 <==> Fits(m, hash, s2, bucket, t, shift)
  {
    hide Free, Slot, Inverse, Shifted;
    var slots := SlotsOf(m, hash, s2, bucket, shift);
    SlotsDistinct(m, hash, s2, bucket, shift);
    ShiftedExact(t, slots, m);
    assert forall i :: 0 <= i < |bucket| ==> slots[i] == Slot(m, hash, s2, bucket[i], shift);
  }

  /** A failed attempt changes nothing about which slots are free. */
  lemma FitsAfter<Key>(m: uint32, hash: Hash<Key>, s2: uint32, bucket: seq<Key>, t: Tables, slots: seq<nat>,
                       shift: uint32)
    requires 0 < m && TablesOk(t, m) && SlotsBelow(slots, m)
    ensures TablesOk(Shifted(t, slots, m).1.(filled := t.filled), m)
    ensures Fits(m, hash, s2, bucket, Shifted(t, slots, m).1.(filled := t.filled), shift)
      <==> Fits(m, hash, s2, bucket, t, shift)
  {
    hide Slot, Inverse, Shifted;
    var t' := Shifted(t, slots, m).1.(filled := t.filled);
    forall i | 0 <= i < |bucket|
      ensures Free(t', Slot(m, hash, s2, bucket[i], shift)) <==> Free(t, Slot(m, hash, s2, bucket[i], shift))
    {
      ShiftedKeeps(t, slots, m, Slot(m, hash, s2, bucket[i], shift), t.filled);
    }
  }

  /** A bucket that is placed fits under some shift. */
  lemma {:induction false} PlacedFits<Key>(m: uint32, hash: Hash<Key>, s2: uint32, bucket: seq<Key>, t: Tables, z: nat)
    requires 0 < m && TablesOk(t, m) && bucket != [] && KeptApart(m, hash, s2, bucket)
    requires PlacedFrom(m, hash, s2, bucket, t, z).0
    ensures exists shift: uint32 :: shift < m && Fits(m, hash, s2, bucket, t, shift)
    decreases m - z
  {
    hide Slot, Inverse, Shifted, Fits, ShiftTo, KeptApart;
    var shift := ShiftTo(m, hash, s2, bucket[0], t.random[t.filled + z]);
    var slots := SlotsOf(m, hash, s2, bucket, shift);
    AttemptExact(m, hash, s2, bucket, t, shift);
    var r := Shifted(t, slots, m);
    if !r.0 {
      FitsAfter(m, hash, s2, bucket, t, slots, shift);
      PlacedFits(m, hash, s2, bucket, r.1.(filled := t.filled), z + 1);
      var s: uint32 :| s < m && Fits(m, hash, s2, bucket, r.1.(filled := t.filled), s);
      FitsAfter(m, hash, s2, bucket, t, slots, s);
    }
  }

  /** A failed attempt with at most two keys leaves the free slots behind the tried one where they were. */
  lemma ShortAttempt(t: Tables, slots: seq<nat>, m: nat, z: nat, p: nat)
    requires TablesOk(t, m) && SlotsBelow(slots, m) && 1 <= |slots| <= 2 && t.filled + z < m
    requires slots[0] == t.random[t.filled + z] && !Shifted(t, slots, m).0
    requires t.filled + z < p < m
    ensures Shifted(t, slots, m).1.random[p] == t.random[p]
  {
    hide Taken, Inverse;
    RandomSlot(t, m, t.filled + z);
    if |slots| == 1 {
      OneShifted(t, slots, m);
    } else {
      var t' := Taken(t, slots[0], m);
      TakenBefore(t, slots[0], m, p);
      OneShifted(t', slots[1..], m);
    }
  }

  lemma OneShifted(t: Tables, slots: seq<nat>, m: nat)
    requires TablesOk(t, m) && SlotsBelow(slots, m) && |slots| == 1
    ensures Shifted(t, slots, m) == if Free(t, slots[0]) then (true, Taken(t, slots[0], m)) else (false, t)
  {
    hide Taken, Inverse;
    assert slots[1..] == [];
  }

  lemma TakenBefore(t: Tables, x: nat, m: nat, p: nat)
    requires TablesOk(t, m) && Free(t, x) && t.map_[x] < p < m
    ensures Taken(t, x, m).random[p] == t.random[p]
  {
  }

  lemma RandomSlot(t: Tables, m: nat, p: nat)
    requires TablesOk(t, m) && p < m
    ensures t.random[p] < m == |t.map_| && t.map_[t.random[p]] == p
  {
  }

  lemma NextShifted(t: Tables, slots: seq<nat>, m: nat)
    requires TablesOk(t, m) && SlotsBelow(slots, m) && slots != []
    ensures Shifted(t, slots, m) ==
      if slots[0] < |t.map_| && t.map_[slots[0]] >= t.filled then Shifted(Taken(t, slots[0], m), slots[1..], m)
      else (false, t)
  {
  }

  lemma AllShifted(t: Tables, slots: seq<nat>, m: nat)
    requires TablesOk(t, m) && slots == []
    ensures Shifted(t, slots, m) == (true, t)
  {
  }

  /** A single key is placed as long as a slot is free. */
  lemma SinglePlaced<Key>(m: uint32, hash: Hash<Key>, s2: uint32, bucket: seq<Key>, t: Tables)
    requires 0 < m && TablesOk(t, m) && |bucket| == 1 && t.filled < m
    ensures var r := PlacedFrom(m, hash, s2, bucket, t, 0);
      r.0 && r.1.filled == t.filled + 1
  {
    hide Slot, Inverse, Taken, ShiftTo;
    var x := t.random[t.filled];
    RandomSlot(t, m, t.filled);
    var shift := ShiftTo(m, hash, s2, bucket[0], x);
    ShiftUnique(m, hash, s2, bucket[0], x, shift);
    var slots := SlotsOf(m, hash, s2, bucket, shift);
    assert slots == [x];
    OneShifted(t, slots, m);
  }

  /** With at most two keys every free slot from number z on is tried for the first key. */
  lemma {:induction false} ShortBucket<Key>(m: uint32, hash: Hash<Key>, s2: uint32, bucket: seq<Key>, t: Tables, z: nat)
    requires 0 < m && TablesOk(t, m) && 1 <= |bucket| <= 2 && KeptApart(m, hash, s2, bucket)
    ensures PlacedFrom(m, hash, s2, bucket, t, z).0 <==>
      exists p: nat :: t.filled + z <= p < m && FitsAt(m, hash, s2, bucket, t, p)
    decreases m - z
  {
    hide Slot, Inverse, Shifted, Fits, ShiftTo, KeptApart;
    if t.filled + z < m {
      var shift := ShiftTo(m, hash, s2, bucket[0], t.random[t.filled + z]);
      var slots := SlotsOf(m, hash, s2, bucket, shift);
      AttemptExact(m, hash, s2, bucket, t, shift);
      var r := Shifted(t, slots, m);
      assert r.0 <==> FitsAt(m, hash, s2, bucket, t, t.filled + z);
      if !r.0 {
        var t' := r.1.(filled := t.filled);
        RandomSlot(t, m, t.filled + z);
        ShiftUnique(m, hash, s2, bucket[0], t.random[t.filled + z], shift);
        ShortBucket(m, hash, s2, bucket, t', z + 1);
        forall p: nat | t.filled + z + 1 <= p < m
          ensures t'.random[p] == t.random[p]
          ensures FitsAt(m, hash, s2, bucket, t', p) <==> FitsAt(m, hash, s2, bucket, t, p)
        {
          ShortAttempt(t, slots, m, z, p);
          FitsAfter(m, hash, s2, bucket, t, slots, ShiftTo(m, hash, s2, bucket[0], t.random[p]));
        }
      }
    }
  }

  /** A bucket of at most two keys is placed if and only if some shift sends its keys to free slots. */
  lemma ShortExact<Key>(m: uint32, hash: Hash<Key>, s2: uint32, bucket: seq<Key>, t: Tables)
    requires 0 < m && TablesOk(t, m) && 1 <= |bucket| <= 2 && KeptApart(m, hash, s2, bucket)
    ensures PlacedFrom(m, hash, s2, bucket, t, 0).0
      <==> exists shift: uint32 :: shift < m && Fits(m, hash, s2, bucket, t, shift)
  {
    hide Slot, ShiftTo, KeptApart, PlacedFrom;
    ShortBucket(m, hash, s2, bucket, t, 0);
    if shift: uint32 :| shift < m && Fits(m, hash, s2, bucket, t, shift) {
      var x := Slot(m, hash, s2, bucket[0], shift);
      assert Free(t, x);
      var p := t.map_[x];
      assert t.random[p] == x;
      ShiftUnique(m, hash, s2, bucket[0], x, shift);
      assert FitsAt(m, hash, s2, bucket, t, p);
    }
  }

  // ---- one bucket -----------------------------------------------------------------------------------------

  /** The body of the innermost loop when the slot is free. */
  method Take(random: array<uint32>, mapTable: array<uint32>, filled: uint32, index: uint32)
    requires random != mapTable && Inverse(random[..], mapTable[..]) && index < mapTable.Length
    requires filled <= mapTable[index]
    modifies random, mapTable
    ensures filled < random.Length && Inverse(random[..], mapTable[..])
    ensures random[..filled as int + 1] == old(random[..])[..filled] + [index]
    ensures Tables(random[..], mapTable[..], filled as int + 1)
      == Taken(Tables(old(random[..]), old(mapTable[..]), filled), index, random.Length)
  {
    ghost var r0, m0 := random[..], mapTable[..];
    assert m0[index] < |r0| && r0[m0[index]] == index;
    var y := mapTable[index];
    var ry := random[y];
    random[y] := random[filled];
    random[filled] := ry;
    mapTable[random[y]] := y;
    mapTable[random[filled]] := filled;
    TakeSlot(r0, m0, filled, y, random[..], mapTable[..]);
  }

  /** The do-while loop of searching: shifts the keys of a bucket into free slots, or takes everything back. */
  method PlaceKeys<Key>(m: uint32, hash: Hash<Key>, s2: uint32, bucket: seq<Key>, shift: uint32,
                        random: array<uint32>, mapTable: array<uint32>, filled: uint32)
    returns (ok: bool, filled': uint32)
    requires random.Length == m == mapTable.Length && 0 < m && random != mapTable && Inverse(random[..], mapTable[..])
    requires filled <= m && bucket != [] && 2 * m < TWO32 && shift < m
    modifies random, mapTable
    ensures Inverse(random[..], mapTable[..]) && filled' <= m
    ensures ok ==> random[..filled'] == old(random[..])[..filled] + SlotsOf(m, hash, s2, bucket, shift)
    ensures !ok ==> filled' == filled && random[..filled] == old(random[..])[..filled]
    ensures
      var t := Tables(old(random[..]), old(mapTable[..]), filled);
      var r := Shifted(t, SlotsOf(m, hash, s2, bucket, shift), m);
      ok == r.0 && Tables(random[..], mapTable[..], filled') == if ok then r.1 else r.1.(filled := filled)
  {
    hide Inverse, Slot, Shifted, Taken;
    ghost var r0, slots := random[..], SlotsOf(m, hash, s2, bucket, shift);
    ghost var t0 := Tables(random[..], mapTable[..], filled);
    var counter: uint32 := 0;
    filled' := filled;
    var j: nat := 0;
    assert r0[..filled] + slots[..0] == r0[..filled];
    assert slots[0..] == slots;
    while true
      invariant j < |bucket| && counter == j && filled' == filled + counter <= m
      invariant Inverse(random[..], mapTable[..]) && random[..filled'] == r0[..filled] + slots[..j]
      invariant Shifted(t0, slots, m) == Shifted(Tables(random[..], mapTable[..], filled'), slots[j..], m)
      decreases |bucket| - j
    {
      var index: uint32 := Slot(m, hash, s2, bucket[j], shift);
      NextShifted(Tables(random[..], mapTable[..], filled'), slots[j..], m);
      assert slots[j..][0] == index && slots[j..][1..] == slots[j + 1..];
      if mapTable[index] >= filled' {
        Take(random, mapTable, filled', index);
        filled' := filled' + 1;
        counter := counter + 1;
        assert random[..filled'] == r0[..filled] + slots[..j + 1];
      } else {
        filled' := filled' - counter;
        counter := 0;
        assert random[..filled] == r0[..filled];
        return false, filled';
      }
      if j + 1 == |bucket| {
        break;
      }
      j := j + 1;
    }
    assert slots[..j + 1] == slots;
    AllShifted(Tables(random[..], mapTable[..], filled'), slots[j + 1..], m);
    return true, filled';
  }

  ghost function Parts<Key>(m: uint32, hash: Hash<Key>, s2: uint32, s: seq<Keyed<Key>>, g: seq<uint32>)
    : (parts: seq<seq<nat>>)
    requires 0 < m
    ensures |parts| == |g|
  {
    seq(|g|, b requires 0 <= b < |g| => SlotsOf(m, hash, s2, Group(s, b), g[b]))
  }

  /** The buckets in D are placed: the slots of their keys are the first filled entries of random. */
  ghost predicate Placed<Key>(c: Params, hash: Hash<Key>, s2: uint32, s: seq<Keyed<Key>>, g: seq<uint32>,
                              random: seq<uint32>, map_: seq<uint32>, filled: nat, D: set<nat>) {
    && c.Valid() && |g| == c.b && Groups(s, c.b) && |random| == c.m && Inverse(random, map_) && filled <= c.m
    && (forall b :: 0 <= b < |g| ==> g[b] < c.m)
    && multiset(random[..filled]) == Gathered(Parts(c.m, hash, s2, s, g), D)
  }

  lemma PlacedNone<Key>(c: Params, hash: Hash<Key>, s2: uint32, s: seq<Keyed<Key>>, g: seq<uint32>,
                        random: seq<uint32>, map_: seq<uint32>)
    requires c.Valid() && |g| == c.b && Groups(s, c.b) && |random| == c.m && Inverse(random, map_)
    requires forall b :: 0 <= b < |g| ==> g[b] < c.m
    ensures Placed(c, hash, s2, s, g, random, map_, 0, {})
  {
    GatherNone(Parts(c.m, hash, s2, s, g));
  }

  lemma PlaceMore<Key>(c: Params, hash: Hash<Key>, s2: uint32, s: seq<Keyed<Key>>, g: seq<uint32>, random: seq<uint32>,
                       map_: seq<uint32>, filled: nat, D: set<nat>, b: nat, shift: uint32, random': seq<uint32>,
                       map': seq<uint32>, filled': nat)
    requires Placed(c, hash, s2, s, g, random, map_, filled, D) && b < |g| && b !in D && shift < c.m
    requires Inverse(random', map') && |random'| == c.m && filled' <= c.m
    requires random'[..filled'] == random[..filled] + SlotsOf(c.m, hash, s2, Group(s, b), shift)
    ensures Placed(c, hash, s2, s, g[b := shift], random', map', filled', D + {b})
  {
    hide Gathered, Group, Inverse, Slot;
    var part := SlotsOf(c.m, hash, s2, Group(s, b), shift);
    var parts := Parts(c.m, hash, s2, s, g);
    assert Parts(c.m, hash, s2, s, g[b := shift]) == parts[b := part];
    GatherMore(parts, D, b, part);
    var x: seq<nat> := random[..filled];
    assert multiset(x + part) == multiset(x) + multiset(part);
    var y: seq<nat> := random'[..filled'];
    assert y == x + part;
  }

  /** A bucket that is not placed may be given any shift. */
  lemma ShiftFree<Key>(c: Params, hash: Hash<Key>, s2: uint32, s: seq<Keyed<Key>>, g: seq<uint32>, random: seq<uint32>,
                       map_: seq<uint32>, filled: nat, D: set<nat>, b: nat, shift: uint32, random': seq<uint32>,
                       map': seq<uint32>)
    requires Placed(c, hash, s2, s, g, random, map_, filled, D) && b < |g| && b !in D && shift < c.m
    requires Inverse(random', map') && |random'| == c.m && random'[..filled] == random[..filled]
    ensures Placed(c, hash, s2, s, g[b := shift], random', map', filled, D)
  {
    hide Gathered, Group, Inverse, Slot;
    GatherSame(Parts(c.m, hash, s2, s, g), Parts(c.m, hash, s2, s, g[b := shift]), D, D);
  }

  /** The loop over z: tries the free slots one after the other for the first key of the bucket. */
  method PlaceBucket<Key>(c: Params, hash: Hash<Key>, s2: uint32, bucket: seq<Key>, b: nat, g: array<uint32>,
                          random: array<uint32>, mapTable: array<uint32>, filled: uint32, ghost s: seq<Keyed<Key>>,
                          ghost D: set<nat>)
    returns (restart: bool, filled': uint32)
    requires random != mapTable && g != random && g != mapTable
    requires Placed(c, hash, s2, s, g[..], random[..], mapTable[..], filled, D)
    requires b < g.Length && b !in D && bucket == Group(s, b) && bucket != []
    modifies g, random, mapTable
    ensures Placed(c, hash, s2, s, g[..], random[..], mapTable[..], filled', if restart then D else D + {b})
    ensures 0 < c.m && TablesOk(Tables(old(random[..]), old(mapTable[..]), filled), c.m)
    ensures var r := PlacedFrom(c.m, hash, s2, bucket, Tables(old(random[..]), old(mapTable[..]), filled), 0);
      restart == !r.0 && Tables(random[..], mapTable[..], filled') == r.1
  {
    hide Placed, Inverse, SlotsOf, Group, PlacedFrom, Shifted, ShiftTo;
    PlacedShape(c, hash, s2, s, g[..], random[..], mapTable[..], filled, D);
    ghost var t0 := Tables(random[..], mapTable[..], filled);
    restart := true;
    filled' := filled;
    var z: uint32 := 0;
    while z < c.m - filled' && restart
      invariant restart ==> filled' == filled
      invariant Placed(c, hash, s2, s, g[..], random[..], mapTable[..], filled', if restart then D else D + {b})
      invariant |random[..]| == c.m && Inverse(random[..], mapTable[..]) && filled' <= c.m
      invariant restart ==>
        PlacedFrom(c.m, hash, s2, bucket, t0, 0)
          == PlacedFrom(c.m, hash, s2, bucket, Tables(random[..], mapTable[..], filled'), z)
      invariant !restart ==>
        PlacedFrom(c.m, hash, s2, bucket, t0, 0) == (true, Tables(random[..], mapTable[..], filled'))
      decreases c.m - z, if restart then 1 else 0
    {
      PlacedShape(c, hash, s2, s, g[..], random[..], mapTable[..], filled', D);
      ghost var t := Tables(random[..], mapTable[..], filled');
      RandomSlot(t, c.m, filled' + z);
      var shift: uint32 := ShiftTo(c.m, hash, s2, bucket[0], random[filled' + z]);
      ghost var g0, r0, m0 := g[..], random[..], mapTable[..];
      g[b] := shift;
      assert g[..] == g0[b := shift];
      var ok;
      ok, filled' := PlaceKeys(c.m, hash, s2, bucket, shift, random, mapTable, filled');
      NextAttempt(c.m, hash, s2, bucket, t, z, shift);
      if ok {
        restart := false;
        PlaceMore(c, hash, s2, s, g0, r0, m0, filled, D, b, shift, random[..], mapTable[..], filled');
      } else {
        ShiftFree(c, hash, s2, s, g0, r0, m0, filled, D, b, shift, random[..], mapTable[..]);
      }
      z := z + 1;
    }
    if restart {
      NoAttempt(c.m, hash, s2, bucket, Tables(random[..], mapTable[..], filled'), z);
    }
  }

  lemma NextAttempt<Key>(m: uint32, hash: Hash<Key>, s2: uint32, bucket: seq<Key>, t: Tables, z: nat, shift: uint32)
    requires 0 < m && TablesOk(t, m) && bucket != [] && t.filled + z < m
    requires shift == ShiftTo(m, hash, s2, bucket[0], t.random[t.filled + z])
    ensures PlacedFrom(m, hash, s2, bucket, t, z) ==
      var r := Shifted(t, SlotsOf(m, hash, s2, bucket, shift), m);
      if r.0 then r else PlacedFrom(m, hash, s2, bucket, r.1.(filled := t.filled), z + 1)
  {
    hide Shifted, ShiftTo, Slot;
  }

  lemma NoAttempt<Key>(m: uint32, hash: Hash<Key>, s2: uint32, bucket: seq<Key>, t: Tables, z: nat)
    requires 0 < m && TablesOk(t, m) && bucket != [] && t.filled + z >= m
    ensures PlacedFrom(m, hash, s2, bucket, t, z) == (false, t)
  {
  }

  lemma PlacedShape<Key>(c: Params, hash: Hash<Key>, s2: uint32, s: seq<Keyed<Key>>, g: seq<uint32>,
                         random: seq<uint32>, map_: seq<uint32>, filled: nat, D: set<nat>)
    requires Placed(c, hash, s2, s, g, random, map_, filled, D)
    ensures c.Valid() && |g| == c.b && |random| == |map_| == c.m && Inverse(random, map_) && filled <= c.m
  {
  }

  // ---- a bucket that fits and is not placed ------------------------------------------------------------

  function SameHash(s: uint32, key: uint32): uint32 {
    key
  }

  /** Tables with six slots, of which the first three are in order; here each is its own inverse. */
  function Six(x: uint32, y: uint32, z: uint32, filled: nat): Tables {
    Tables([0, 1, 2, x, y, z], [0, 1, 2, x, y, z], filled)
  }

  lemma SixOk(filled: nat)
    requires filled <= 6
    ensures TablesOk(Six(3, 5, 4, filled), 6) && TablesOk(Six(5, 4, 3, filled), 6) && TablesOk(Six(3, 4, 5, filled), 6)
  {
  }

  lemma SlotsOfThree(bucket: seq<uint32>, shift: uint32)
    requires |bucket| == 3
    ensures SlotsOf(6, SameHash, 0, bucket, shift)
      == [(bucket[0] % 6 + shift) % 6, (bucket[1] % 6 + shift) % 6, (bucket[2] % 6 + shift) % 6]
  {
  }

  /** The slots of three keys one after the other. */
  lemma ThreeShifted(t: Tables, a: nat, b: nat, c: nat, m: nat)
    requires TablesOk(t, m) && a < m && b < m && c < m
    ensures Shifted(t, [a, b, c], m) ==
      if !Free(t, a) then (false, t) else
        var t1 := Taken(t, a, m);
        if !Free(t1, b) then (false, t1) else
          var t2 := Taken(t1, b, m);
          if !Free(t2, c) then (false, t2) else (true, Taken(t2, c, m))
  {
    hide Taken, Free, Inverse;
    assert [a, b, c][1..] == [b, c] && [b, c][1..] == [c] && [c][1..] == [];
    NextShifted(t, [a, b, c], m);
    if Free(t, a) {
      NextShifted(Taken(t, a, m), [b, c], m);
      if Free(Taken(t, a, m), b) {
        NextShifted(Taken(Taken(t, a, m), b, m), [c], m);
      }
    }
  }

  /** The first bucket takes the slots 0, 1 and 2. */
  lemma FirstOfSix()
    ensures TablesOk(Six(3, 5, 4, 0), 6)
    ensures PlacedFrom(6, SameHash, 0, [0, 1, 2], Six(3, 5, 4, 0), 0) == (true, Six(3, 5, 4, 3))
  {
    hide PlacedFrom, Shifted, Inverse;
    SixOk(0);
    SixOk(1);
    SixOk(2);
    NextAttempt(6, SameHash, 0, [0, 1, 2], Six(3, 5, 4, 0), 0, 0);
    SlotsOfThree([0, 1, 2], 0);
    ThreeShifted(Six(3, 5, 4, 0), 0, 1, 2, 6);
    assert Taken(Six(3, 5, 4, 0), 0, 6) == Six(3, 5, 4, 1);
    assert Taken(Six(3, 5, 4, 1), 1, 6) == Six(3, 5, 4, 2);
    assert Taken(Six(3, 5, 4, 2), 2, 6) == Six(3, 5, 4, 3);
  }

  /** The attempts with the second bucket: shift 3 meets slot 2, shift 5 meets slot 0, shift 3 meets slot 2 again. */
  lemma Attempts()
    ensures TablesOk(Six(3, 5, 4, 3), 6) && TablesOk(Six(5, 4, 3, 3), 6)
    ensures Shifted(Six(3, 5, 4, 3), [3, 2, 4], 6) == (false, Six(3, 5, 4, 4))
    ensures Shifted(Six(3, 5, 4, 3), [5, 4, 0], 6) == (false, Six(5, 4, 3, 5))
    ensures Shifted(Six(5, 4, 3, 3), [3, 2, 4], 6) == (false, Six(3, 4, 5, 4))
  {
    hide Shifted, Inverse;
    SixOk(3);
    SixOk(4);
    ThreeShifted(Six(3, 5, 4, 3), 3, 2, 4, 6);
    assert Taken(Six(3, 5, 4, 3), 3, 6) == Six(3, 5, 4, 4);
    ThreeShifted(Six(3, 5, 4, 3), 5, 4, 0, 6);
    var t1 := Taken(Six(3, 5, 4, 3), 5, 6);
    assert t1 == Tables([0, 1, 2, 5, 3, 4], [0, 1, 2, 4, 5, 3], 4);
    assert Taken(t1, 4, 6) == Six(5, 4, 3, 5);
    ThreeShifted(Six(5, 4, 3, 3), 3, 2, 4, 6);
    assert Taken(Six(5, 4, 3, 3), 3, 6) == Six(3, 4, 5, 4);
  }

  lemma SecondOfSix()
    ensures TablesOk(Six(3, 5, 4, 3), 6)
    ensures PlacedFrom(6, SameHash, 0, [6, 11, 7], Six(3, 5, 4, 3), 0) == (false, Six(3, 4, 5, 3))
  {
    hide PlacedFrom, Shifted, Inverse, Taken;
    var bucket: seq<uint32> := [6, 11, 7];
    Attempts();
    SixOk(3);
    SlotsOfThree(bucket, 3);
    SlotsOfThree(bucket, 5);
    hide Slot, SlotsOf;
    NextAttempt(6, SameHash, 0, bucket, Six(3, 5, 4, 3), 0, 3);
    NextAttempt(6, SameHash, 0, bucket, Six(3, 5, 4, 3), 1, 5);
    NextAttempt(6, SameHash, 0, bucket, Six(5, 4, 3, 3), 2, 3);
    NoAttempt(6, SameHash, 0, bucket, Six(3, 4, 5, 3), 3);
  }

  lemma SecondApart()
    ensures KeptApart(6, SameHash, 0, [6, 11, 7])
  {
    assert Mod(6, 6) == 0 && Mod(11, 6) == 5 && Mod(7, 6) == 1;
    hide Mod;
  }

  lemma ShiftFour()
    ensures Fits(6, SameHash, 0, [6, 11, 7], Six(3, 5, 4, 3), 4)
  {
    var bucket: seq<uint32> := [6, 11, 7];
    SlotsOfThree(bucket, 4);
    hide Slot;
    assert SlotsOf(6, SameHash, 0, bucket, 4) == [4, 3, 5];
    forall i | 0 <= i < |bucket|
      ensures Free(Six(3, 5, 4, 3), Slot(6, SameHash, 0, bucket[i], 4))
    {
      assert Slot(6, SameHash, 0, bucket[i], 4) == SlotsOf(6, SameHash, 0, bucket, 4)[i];
    }
  }

  /** The second bucket fits under shift 4 and is not placed, since slot 4 is never tried for its first key. */
  method SkippedExample() returns (restart: bool, ghost t: Tables)
    ensures t == Six(3, 5, 4, 3) && TablesOk(t, 6) && KeptApart(6, SameHash, 0, [6, 11, 7])
    ensures Fits(6, SameHash, 0, [6, 11, 7], t, 4) && restart
  {
    hide PlacedFrom, Placed, Inverse, Group, KeptApart, Fits;
    var c := Params(6, 5, 4, 2);
    ghost var s: seq<Keyed<uint32>> :=
      [Keyed(0, 0), Keyed(1, 0), Keyed(2, 0), Keyed(6, 1), Keyed(11, 1), Keyed(7, 1)];
    var g := new uint32[5](_ => 0);
    var random, mapTable := new uint32[] [0, 1, 2, 3, 5, 4], new uint32[] [0, 1, 2, 3, 5, 4];
    FirstOfSix();
    SecondOfSix();
    SecondApart();
    ShiftFour();
    ExampleGroups(s);
    assert random[..] == mapTable[..] == [0, 1, 2, 3, 5, 4];
    PlacedNone(c, SameHash, 0, s, g[..], random[..], mapTable[..]);
    var filled;
    restart, filled := PlaceBucket(c, SameHash, 0, [0, 1, 2], 0, g, random, mapTable, 0, s, {});
    t := Tables(random[..], mapTable[..], filled);
    restart, filled := PlaceBucket(c, SameHash, 0, [6, 11, 7], 1, g, random, mapTable, filled, s, {} + {0});
  }

  lemma ExampleGroups(s: seq<Keyed<uint32>>)
    requires s == [Keyed(0, 0), Keyed(1, 0), Keyed(2, 0), Keyed(6, 1), Keyed(11, 1), Keyed(7, 1)]
    ensures Group(s, 0) == [0, 1, 2] && Group(s, 1) == [6, 11, 7]
  {
    hide Group;
    GroupNone<uint32>(0);
    GroupNone<uint32>(1);
    for i := 0 to 6
      invariant Group(s[..i], 0) == [0, 1, 2][..if i < 3 then i else 3]
      invariant Group(s[..i], 1) == [6, 11, 7][..if i < 3 then 0 else i - 3]
    {
      assert s[..i + 1] == s[..i] + [s[i]];
      GroupAppend(s[..i], s[i], 0);
      GroupAppend(s[..i], s[i], 1);
    }
    assert s[..6] == s;
  }
}
