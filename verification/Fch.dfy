/** fch.c: a minimal perfect hash function whose buckets are placed into the free slots of a random permutation. */
module FchHash {
  import opened Words
  import opened Counting
  import opened CountingSort
  import opened Primes
  import opened Keys
  import opened FchBuckets
  import opened FchPlacing

  // ---- collisions of the second hash ---------------------------------------------------------------------

  /** The inner loops of check_for_collisions_h2. */
  method BucketCollides<Key>(m: uint32, hash: Hash<Key>, s2: uint32, bucket: seq<Key>) returns (collision: bool)
    requires 0 < m
    ensures collision <==> !KeptApart(m, hash, s2, bucket)
  {
    hide Mod;
    var hashtable := new bool[m](_ => false);
    for j := 0 to |bucket|
      invariant forall x :: 0 <= x < m && hashtable[x] ==> exists i :: 0 <= i < j && Mod(hash(s2, bucket[i]), m) == x
      invariant forall i :: 0 <= i < j ==> hashtable[Mod(hash(s2, bucket[i]), m)]
      invariant KeptApart(m, hash, s2, bucket[..j])
    {
      var index := Mod(hash(s2, bucket[j]), m);
      if hashtable[index] {
        return true;
      }
      hashtable[index] := true;
    }
    assert bucket[..|bucket|] == bucket;
    return false;
  }

  /** check_for_collisions_h2 */
  method Collides<Key>(m: uint32, hash: Hash<Key>, s2: uint32, buckets: Buckets<Key>, order: seq<nat>)
    returns (collision: bool)
    requires 0 < m && Bijection(order, buckets.values.Length)
    ensures collision <==>
      exists b :: 0 <= b < buckets.values.Length && !KeptApart(m, hash, s2, buckets.values[b])
  {
    hide KeptApart;
    for i := 0 to |order|
      invariant forall k :: 0 <= k < i ==> KeptApart(m, hash, s2, buckets.values[order[k]])
    {
      collision := BucketCollides(m, hash, s2, buckets.values[order[i]]);
      if collision {
        return true;
      }
    }
    forall b | 0 <= b < buckets.values.Length
      ensures KeptApart(m, hash, s2, buckets.values[b])
    {
      assert b in order;
    }
    return false;
  }

  // ---- searching ----------------------------------------------------------------------------------------------

  lemma OrderedIdentity(random: seq<uint32>)
    requires forall i :: 0 <= i < |random| ==> random[i] == i
    ensures Distinct(random) && forall i :: 0 <= i < |random| ==> random[i] < |random|
  {
  }

  /** v after the first i swaps, each with a randomly drawn place. */
  ghost function Shuffled(v: seq<uint32>, draws: nat -> nat, i: nat): (w: seq<uint32>)
    requires i <= |v|
    ensures |w| == |v|
  {
    if i == 0 then v else
      var w := Shuffled(v, draws, i - 1);
      var j := Mod(draws(i - 1), |v|);
      w[i - 1 := w[j]][j := w[i - 1]]
  }

  /** permut: swaps of randomly drawn places. */
  method Permut(vector: array<uint32>, draws: nat -> nat)
    requires Distinct(vector[..]) && forall i :: 0 <= i < vector.Length ==> vector[i] < vector.Length
    modifies vector
    ensures Distinct(vector[..]) && forall i :: 0 <= i < vector.Length ==> vector[i] < vector.Length
    ensures vector[..] == Shuffled(old(vector[..]), draws, vector.Length)
  {
    for i := 0 to vector.Length
      invariant Distinct(vector[..]) && forall k :: 0 <= k < vector.Length ==> vector[k] < vector.Length
      invariant vector[..] == Shuffled(old(vector[..]), draws, i)
    {
      ghost var v := vector[..];
      var j := Mod(draws(i), vector.Length);
      var b := vector[i];
      vector[i] := vector[j];
      vector[j] := b;
      SwapDistinct(v, i, j, vector[..]);
    }
  }

  lemma SwapDistinct(v: seq<uint32>, i: nat, j: nat, w: seq<uint32>)
    requires Distinct(v) && i < |v| && j < |v| && w == v[i := v[j]][j := v[i]]
    ensures Distinct(w)
  {
    forall k, l | 0 <= k < l < |w|
      ensures w[k] != w[l]
    {
      var k' := if k == i then j else if k == j then i else k;
      var l' := if l == i then j else if l == j then i else l;
      assert w[k] == v[k'] && w[l] == v[l'] && k' != l';
    }
  }

  ghost function Identity(m: uint32): (v: seq<uint32>)
    ensures |v| == m
  {
    seq(m, i requires 0 <= i < m => i as uint32)
  }

  /** A place of x in v. */
  ghost function PlaceOf(v: seq<uint32>, x: uint32): uint32
    requires |v| < TWO32
  {
    if x in v then
      var i :| 0 <= i < |v| && v[i] == x;
      i as uint32
    else 0
  }

  /** The tables that searching starts with. */
  ghost function StartTables(m: uint32, draws: nat -> nat): Tables {
    var random := Shuffled(Identity(m), draws, m);
    Tables(random, seq(m, x requires 0 <= x < m => PlaceOf(random, x)), 0)
  }

  /** A permutation has only one inverse. */
  lemma InverseIs(random: seq<uint32>, map_: seq<uint32>)
    requires Inverse(random, map_) && |random| < TWO32
    ensures map_ == seq(|random|, x requires 0 <= x < |random| => PlaceOf(random, x as uint32))
  {
    forall x | 0 <= x < |map_|
      ensures map_[x] == PlaceOf(random, x as uint32)
    {
      assert random[map_[x]] == x;
      var i :| 0 <= i < |random| && random[i] == x && i == PlaceOf(random, x as uint32);
      assert map_[random[i]] == i;
    }
  }

  lemma {:induction false} ShuffledDistinct(m: uint32, draws: nat -> nat, i: nat)
    requires i <= m
    ensures var v := Shuffled(Identity(m), draws, i);
      Distinct(v) && forall k :: 0 <= k < m ==> v[k] < m
  {
    if i > 0 {
      ShuffledDistinct(m, draws, i - 1);
      var w := Shuffled(Identity(m), draws, i - 1);
      SwapDistinct(w, i - 1, Mod(draws(i - 1), m), Shuffled(Identity(m), draws, i));
    }
  }

  /** Draws with the numbers in js. */
  ghost function Drawn(js: seq<nat>): nat -> nat {
    i => if 0 <= i < |js| then js[i] else 0
  }

  lemma {:induction false} SameDraws(v: seq<uint32>, js: seq<nat>, j: nat, i: nat)
    requires i <= |js| && i <= |v|
    ensures Shuffled(v, Drawn(js + [j]), i) == Shuffled(v, Drawn(js), i)
  {
    if i > 0 {
      SameDraws(v, js, j, i - 1);
    }
  }

  /** Its first i places. */
  lemma {:induction false} EveryOrderUpTo(m: uint32, p: seq<uint32>, i: nat) returns (js: seq<nat>)
    requires |p| == m && Distinct(p) && (forall k :: 0 <= k < m ==> p[k] < m) && i <= m
    ensures |js| == i && Shuffled(Identity(m), Drawn(js), i)[..i] == p[..i]
  {
    hide Shuffled;
    if i == 0 {
      return [];
    }
    js := EveryOrderUpTo(m, p, i - 1);
    var w := Shuffled(Identity(m), Drawn(js), i - 1);
    var j := NextPlace(m, p, js, i - 1);
    SameDraws(Identity(m), js, j, i - 1);
    ShuffleStep(Identity(m), Drawn(js + [j]), i);
    SmallResidue(j, m);
    js := js + [j];
    var u := w[i - 1 := w[j]][j := w[i - 1]];
    assert forall k :: 0 <= k < i - 1 ==> u[k] == w[..i - 1][k] == p[..i - 1][k];
  }

  lemma ShuffleStep(v: seq<uint32>, draws: nat -> nat, i: nat)
    requires 0 < i <= |v|
    ensures var w, j := Shuffled(v, draws, i - 1), Mod(draws(i - 1), |v|);
      Shuffled(v, draws, i) == w[i - 1 := w[j]][j := w[i - 1]]
  {
  }

  /** The next element of the permutation is still behind the places that are done. */
  lemma NextPlace(m: uint32, p: seq<uint32>, js: seq<nat>, i: nat) returns (j: nat)
    requires |p| == m && Distinct(p) && (forall k :: 0 <= k < m ==> p[k] < m) && i < m && |js| == i
    requires Shuffled(Identity(m), Drawn(js), i)[..i] == p[..i]
    ensures i <= j < m && Shuffled(Identity(m), Drawn(js), i)[j] == p[i]
  {
    hide Shuffled;
    ShuffledDistinct(m, Drawn(js), i);
    var w := Shuffled(Identity(m), Drawn(js), i);
    var n: seq<nat> := w;
    DistinctCovers(n, m, p[i]);
    j :| 0 <= j < |n| && n[j] == p[i];
    assert forall k :: 0 <= k < i ==> w[k] == w[..i][k] == p[..i][k] == p[k] != p[i];
  }

  /** Every permutation can be drawn. */
  lemma EveryOrder(m: uint32, p: seq<uint32>) returns (js: seq<nat>)
    requires |p| == m && Distinct(p) && forall k :: 0 <= k < m ==> p[k] < m
    ensures |js| == m && StartTables(m, Drawn(js)).random == p
  {
    js := EveryOrderUpTo(m, p, m);
    var w := StartTables(m, Drawn(js)).random;
    assert w[..m] == w && p[..m] == p;
  }

  lemma StartOk(m: uint32, draws: nat -> nat)
    ensures TablesOk(StartTables(m, draws), m)
  {
    ShuffledDistinct(m, draws, m);
    var t := StartTables(m, draws);
    var r: seq<nat> := t.random;
    assert Bounded(r, m);
    forall x | 0 <= x < m
      ensures t.map_[x] < m && t.random[t.map_[x]] == x
    {
      DistinctCovers(r, m, x);
      assert x in t.random;
    }
    forall i | 0 <= i < m
      ensures t.map_[t.random[i]] == i
    {
      var k := t.map_[t.random[i]];
      assert t.random[k] == t.random[i];
    }
  }

  /** Writing every place into the entry of its slot gives the inverse. */
  lemma InverseBuilt(random: seq<uint32>, map_: seq<uint32>)
    requires Distinct(random) && Bounded(random, |random|) && |map_| == |random|
    requires forall k :: 0 <= k < |random| ==> map_[random[k]] == k
    ensures Inverse(random, map_)
  {
    forall x | 0 <= x < |map_|
      ensures map_[x] < |random| && random[map_[x]] == x
    {
      DistinctCovers(random, |random|, x);
      var k :| 0 <= k < |random| && random[k] == x;
    }
  }

  method Inverted(random: array<uint32>) returns (mapTable: array<uint32>)
    requires random.Length < TWO32 && Distinct(random[..])
    requires forall k :: 0 <= k < random.Length ==> random[k] < random.Length
    ensures fresh(mapTable) && Inverse(random[..], mapTable[..])
  {
    hide Inverse;
    mapTable := new uint32[random.Length](_ => 0);
    for i := 0 to random.Length
      invariant forall k :: 0 <= k < i ==> mapTable[random[k]] == k
    {
      assert forall k :: 0 <= k < i ==> random[..][k] != random[..][i];
      mapTable[random[i]] := i;
    }
    InverseBuilt(random[..], mapTable[..]);
  }

  /** The tables of searching: a random permutation of the slots and its inverse. */
  method RandomTables(m: uint32, draws: nat -> nat) returns (random: array<uint32>, mapTable: array<uint32>)
    ensures fresh(random) && fresh(mapTable) && random != mapTable && random.Length == mapTable.Length == m
    ensures Inverse(random[..], mapTable[..])
    ensures Tables(random[..], mapTable[..], 0) == StartTables(m, draws)
  {
    random := new uint32[m](_ => 0);
    for i := 0 to m
      invariant forall k :: 0 <= k < i ==> random[k] == k
    {
      random[i] := i;
    }
    OrderedIdentity(random[..]);
    assert random[..] == Identity(m);
    Permut(random, draws);
    mapTable := Inverted(random);
    InverseIs(random[..], mapTable[..]);
  }

  /** All buckets that have keys are placed. */
  ghost predicate AllPlaced<Key>(c: Params, hash: Hash<Key>, s2: uint32, s: seq<Keyed<Key>>, g: seq<uint32>) {
    exists random: seq<uint32>, map_: seq<uint32>, filled: nat, D: set<nat> ::
      Placed(c, hash, s2, s, g, random, map_, filled, D) && forall i :: 0 <= i < |s| ==> s[i].group in D
  }

  /** The buckets order[i..] are placed one after the other, up to the first empty one. */
  ghost function AllFrom<Key>(c: Params, hash: Hash<Key>, s2: uint32, s: seq<Keyed<Key>>, order: seq<nat>, i: nat,
                              t: Tables)
    : (r: (bool, Tables))
    requires c.Valid() && TablesOk(t, c.m)
    ensures TablesOk(r.1, c.m)
    decreases |order| - i
  {
    if i >= |order| || Group(s, order[i]) == [] then (true, t) else
      var r := PlacedFrom(c.m, hash, s2, Group(s, order[i]), t, 0);
      if r.0 then AllFrom(c, hash, s2, s, order, i + 1, r.1) else r
  }

  /** The second hash lets keys of some bucket collide. */
  ghost predicate SomeCollide<Key>(c: Params, hash: Hash<Key>, s2: uint32, s: seq<Keyed<Key>>)
    requires c.Valid()
  {
    exists b: nat :: b < c.b && !KeptApart(c.m, hash, s2, Group(s, b))
  }

  const SEARCHING_ITERATIONS := 10
  const H2_ITERATIONS := 1000

  /** The loop of searching: was a second hash found, and the number of its seed. */
  ghost function SearchFrom<Key>(c: Params, hash: Hash<Key>, seeds: nat -> uint32, s: seq<Keyed<Key>>, order: seq<nat>,
                                 u: nat, t: Tables, searches: nat, tries: nat)
    : (r: (bool, nat))
    requires c.Valid() && TablesOk(t, c.m) && searches < SEARCHING_ITERATIONS && tries < H2_ITERATIONS
    ensures u <= r.1
    decreases SEARCHING_ITERATIONS - searches, H2_ITERATIONS - tries
  {
    if SomeCollide(c, hash, seeds(u), s) then
      if tries + 1 < H2_ITERATIONS then SearchFrom(c, hash, seeds, s, order, u + 1, t, searches, tries + 1)
      else (false, u)
    else
      var r := AllFrom(c, hash, seeds(u), s, order, 0, t.(filled := 0));
      if r.0 then (true, u)
      else if searches + 1 < SEARCHING_ITERATIONS then
        SearchFrom(c, hash, seeds, s, order, u + 1, r.1, searches + 1, 0)
      else (false, u)
  }

  /** In decreasing order of size nothing comes after the first empty bucket. */
  lemma EmptyEndsOrder<Key>(s: seq<Keyed<Key>>, sizes: seq<nat>, order: seq<nat>, i: nat)
    requires Groups(s, |sizes|) && SortedIndexes(sizes, order) && i <= |order|
    requires forall b: nat :: b < |sizes| ==> sizes[b] == |Group(s, b)|
    requires i < |order| ==> sizes[order[i]] == 0
    ensures forall k :: 0 <= k < |s| ==> s[k].group in Prefix(order, i)
  {
    hide Group;
    forall k | 0 <= k < |s|
      ensures s[k].group in Prefix(order, i)
    {
      var b := s[k].group;
      GroupMember(s, b, s[k].value);
      assert Keyed(s[k].value, b) == s[k];
      assert b in order;
      var p :| 0 <= p < |order| && order[p] == b;
      NotAfter(sizes, order, i, p);
      assert order[..i][p] == b;
    }
  }

  /** One attempt with a second hash that keeps the buckets' keys apart. */
  method PlaceAll<Key>(c: Params, hash: Hash<Key>, s2: uint32, buckets: Buckets<Key>, order: seq<nat>, g: array<uint32>,
                       random: array<uint32>, mapTable: array<uint32>, ghost s: seq<Keyed<Key>>, ghost sizes: seq<nat>)
    returns (restart: bool)
    requires random != mapTable && g != random && g != mapTable && c.Valid() && g.Length == c.b == buckets.values.Length
    requires buckets.Holds(s) && |sizes| == c.b && forall b: nat :: b < c.b ==> sizes[b] == |Group(s, b)|
    requires SortedIndexes(sizes, order) && random.Length == c.m && Inverse(random[..], mapTable[..])
    requires forall b :: 0 <= b < g.Length ==> g[b] < c.m
    modifies g, random, mapTable
    ensures Inverse(random[..], mapTable[..]) && forall b :: 0 <= b < g.Length ==> g[b] < c.m
    ensures !restart ==> AllPlaced(c, hash, s2, s, g[..])
    ensures var r := AllFrom(c, hash, s2, s, order, 0, Tables(old(random[..]), old(mapTable[..]), 0));
      restart == !r.0 && random[..] == r.1.random && mapTable[..] == r.1.map_
  {
    hide Placed, Inverse, Group, SortedIndexes, Buckets.Holds, Prefix, AllFrom, PlacedFrom;
    OrderShape(sizes, order);
    PlacedNone(c, hash, s2, s, g[..], random[..], mapTable[..]) by { HoldsAt(buckets, s); }
    PrefixNone(order);
    ghost var t0 := Tables(random[..], mapTable[..], 0);
    var filled: uint32 := 0;
    var i: nat := 0;
    ghost var placed: nat := 0;
    restart := false;
    while i < |order| && !restart
      invariant placed <= i <= |order| && (!restart ==> placed == i)
      invariant Placed(c, hash, s2, s, g[..], random[..], mapTable[..], filled, Prefix(order, placed))
      invariant TablesOk(Tables(random[..], mapTable[..], filled), c.m)
      invariant !restart ==>
        AllFrom(c, hash, s2, s, order, 0, t0)
          == AllFrom(c, hash, s2, s, order, i, Tables(random[..], mapTable[..], filled))
      invariant restart ==> AllFrom(c, hash, s2, s, order, 0, t0) == (false, Tables(random[..], mapTable[..], filled))
    {
      PrefixStep(order, i);
      HoldsAt(buckets, s);
      var b := order[i];
      ghost var t := Tables(random[..], mapTable[..], filled);
      NextBucket(c, hash, s2, s, order, i, t);
      if |buckets.values[b]| == 0 {
        break;
      }
      restart, filled := PlaceBucket(c, hash, s2, buckets.values[b], b, g, random, mapTable, filled, s,
                                     Prefix(order, i));
      i := i + 1;
      placed := if restart then placed else i;
    }
    PlacedTables(c, hash, s2, s, g[..], random[..], mapTable[..], filled, Prefix(order, placed));
    if !restart {
      HoldsAt(buckets, s);
      EmptyEndsOrder(s, sizes, order, i);
      assert AllPlaced(c, hash, s2, s, g[..]);
      if i == |order| {
        NoBucketLeft(c, hash, s2, s, order, i, Tables(random[..], mapTable[..], filled));
      }
    }
  }

  lemma NextBucket<Key>(c: Params, hash: Hash<Key>, s2: uint32, s: seq<Keyed<Key>>, order: seq<nat>, i: nat, t: Tables)
    requires c.Valid() && TablesOk(t, c.m) && i < |order|
    ensures AllFrom(c, hash, s2, s, order, i, t) ==
      if Group(s, order[i]) == [] then (true, t) else
        var r := PlacedFrom(c.m, hash, s2, Group(s, order[i]), t, 0);
        if r.0 then AllFrom(c, hash, s2, s, order, i + 1, r.1) else r
  {
    hide PlacedFrom, Group;
  }

  lemma NoBucketLeft<Key>(c: Params, hash: Hash<Key>, s2: uint32, s: seq<Keyed<Key>>, order: seq<nat>, i: nat,
                          t: Tables)
    requires c.Valid() && TablesOk(t, c.m) && i >= |order|
    ensures AllFrom(c, hash, s2, s, order, i, t) == (true, t)
  {
  }

  lemma PrefixNone(order: seq<nat>)
    ensures Prefix(order, 0) == {}
  {
  }

  lemma OrderShape(sizes: seq<nat>, order: seq<nat>)
    requires SortedIndexes(sizes, order)
    ensures |order| == |sizes| && Distinct(order) && forall i :: 0 <= i < |order| ==> order[i] < |sizes|
  {
  }

  lemma HoldsAt<Key>(buckets: Buckets<Key>, s: seq<Keyed<Key>>)
    requires buckets.Holds(s)
    ensures Groups(s, buckets.values.Length)
    ensures forall b: nat :: b < buckets.values.Length ==> buckets.values[b] == Group(s, b)
  {
  }

  lemma PlacedTables<Key>(c: Params, hash: Hash<Key>, s2: uint32, s: seq<Keyed<Key>>, g: seq<uint32>,
                          random: seq<uint32>, map_: seq<uint32>, filled: nat, D: set<nat>)
    requires Placed(c, hash, s2, s, g, random, map_, filled, D)
    ensures Inverse(random, map_) && forall b :: 0 <= b < |g| ==> g[b] < c.m
  {
  }

  /** searching: restart is 0 only if a second hash was found under which every bucket is placed. */
  method Searching<Key>(c: Params, hash: Hash<Key>, seeds: nat -> uint32, first: nat, buckets: Buckets<Key>,
                        order: seq<nat>, draws: nat -> nat, ghost s: seq<Keyed<Key>>, ghost sizes: seq<nat>)
    returns (restart: bool, g: array<uint32>, t: nat)
    requires c.Valid() && c.b == buckets.values.Length && buckets.Holds(s) && |sizes| == c.b
    requires SortedIndexes(sizes, order) && forall b: nat :: b < c.b ==> sizes[b] == |Group(s, b)|
    ensures fresh(g) && g.Length == c.b && first <= t
    ensures !restart ==> AllPlaced(c, hash, seeds(t), s, g[..])
    ensures TablesOk(StartTables(c.m, draws), c.m)
    ensures SearchFrom(c, hash, seeds, s, order, first, StartTables(c.m, draws), 0, 0) == (!restart, t)
  {
    hide Inverse, SortedIndexes, Buckets.Holds, Group, AllPlaced, KeptApart, SearchFrom, AllFrom, StartTables,
      SomeCollide;
    g := new uint32[c.b](_ => 0);
    var random, mapTable := RandomTables(c.m, draws);
    var searchingIterations, iterationToGenerateH2 := 0, 0;
    t := first;
    while true
      invariant 0 <= searchingIterations < SEARCHING_ITERATIONS && 0 <= iterationToGenerateH2 < H2_ITERATIONS
      invariant first <= t && random.Length == c.m == mapTable.Length && Inverse(random[..], mapTable[..])
      invariant forall b :: 0 <= b < g.Length ==> g[b] < c.m
      invariant SearchFrom(c, hash, seeds, s, order, first, StartTables(c.m, draws), 0, 0)
        == SearchFrom(c, hash, seeds, s, order, t, Tables(random[..], mapTable[..], 0), searchingIterations,
                      iterationToGenerateH2)
      decreases SEARCHING_ITERATIONS - searchingIterations, H2_ITERATIONS - iterationToGenerateH2
    {
      BijectionOf(sizes, order);
      NextSearch(c, hash, seeds, s, order, t, Tables(random[..], mapTable[..], 0), searchingIterations,
                 iterationToGenerateH2);
      restart := Collides(c.m, hash, seeds(t), buckets, order);
      CollideIs(c, hash, seeds(t), buckets, s, restart);
      if !restart {
        searchingIterations := searchingIterations + 1;
        iterationToGenerateH2 := 0;
        restart := PlaceAll(c, hash, seeds(t), buckets, order, g, random, mapTable, s, sizes);
      } else {
        iterationToGenerateH2 := iterationToGenerateH2 + 1;
      }
      if !(restart && searchingIterations < SEARCHING_ITERATIONS && iterationToGenerateH2 < H2_ITERATIONS) {
        break;
      }
      t := t + 1;
    }
  }

  lemma CollideIs<Key>(c: Params, hash: Hash<Key>, s2: uint32, buckets: Buckets<Key>, s: seq<Keyed<Key>>,
                       collision: bool)
    requires c.Valid() && c.b == buckets.values.Length && buckets.Holds(s)
    requires collision <==> exists b :: 0 <= b < buckets.values.Length && !KeptApart(c.m, hash, s2, buckets.values[b])
    ensures collision <==> SomeCollide(c, hash, s2, s)
  {
    hide KeptApart, Group;
    HoldsAt(buckets, s);
    if SomeCollide(c, hash, s2, s) {
      var b: nat :| b < c.b && !KeptApart(c.m, hash, s2, Group(s, b));
      assert !KeptApart(c.m, hash, s2, buckets.values[b]);
    }
  }

  /** One turn of the loop; the number of taken slots plays no part. */
  lemma NextSearch<Key>(c: Params, hash: Hash<Key>, seeds: nat -> uint32, s: seq<Keyed<Key>>, order: seq<nat>, u: nat,
                        t: Tables, searches: nat, tries: nat)
    requires c.Valid() && TablesOk(t, c.m) && searches < SEARCHING_ITERATIONS && tries < H2_ITERATIONS && t.filled == 0
    ensures SearchFrom(c, hash, seeds, s, order, u, t, searches, tries) ==
      if SomeCollide(c, hash, seeds(u), s) then
        if tries + 1 < H2_ITERATIONS then SearchFrom(c, hash, seeds, s, order, u + 1, t, searches, tries + 1)
        else (false, u)
      else
        var r := AllFrom(c, hash, seeds(u), s, order, 0, t);
        if r.0 then (true, u)
        else if searches + 1 < SEARCHING_ITERATIONS then
          SearchFrom(c, hash, seeds, s, order, u + 1, r.1.(filled := 0), searches + 1, 0)
        else (false, u)
  {
    hide AllFrom, SomeCollide;
    assert t.(filled := 0) == t;
    if !SomeCollide(c, hash, seeds(u), s) && searches + 1 < SEARCHING_ITERATIONS {
      SearchResets(c, hash, seeds, s, order, u + 1, AllFrom(c, hash, seeds(u), s, order, 0, t).1, searches + 1, 0);
    }
  }

  lemma {:induction false} SearchResets<Key>(c: Params, hash: Hash<Key>, seeds: nat -> uint32, s: seq<Keyed<Key>>,
                                             order: seq<nat>, u: nat, t: Tables, searches: nat, tries: nat)
    requires c.Valid() && TablesOk(t, c.m) && searches < SEARCHING_ITERATIONS && tries < H2_ITERATIONS
    ensures SearchFrom(c, hash, seeds, s, order, u, t, searches, tries)
      == SearchFrom(c, hash, seeds, s, order, u, t.(filled := 0), searches, tries)
    decreases H2_ITERATIONS - tries
  {
    hide AllFrom, SomeCollide;
    assert t.(filled := 0).(filled := 0) == t.(filled := 0);
    if SomeCollide(c, hash, seeds(u), s) && tries + 1 < H2_ITERATIONS {
      SearchResets(c, hash, seeds, s, order, u + 1, t, searches, tries + 1);
    }
  }

  lemma BijectionOf(sizes: seq<nat>, order: seq<nat>)
    requires SortedIndexes(sizes, order)
    ensures Bijection(order, |sizes|)
  {
  }

  // ---- the finished function ----------------------------------------------------------------------------------

  /** fch_data_t */
  datatype Fch = Fch(c: Params, s1: uint32, s2: uint32, g: seq<uint32>) {
    ghost predicate Valid() {
      c.Valid() && |g| == c.b
    }

    /** fch_search */
    function Search<Key>(hash: Hash<Key>, key: Key): (x: nat)
      requires Valid()
      ensures x < c.m
    {
      Slot(c.m, hash, s2, key, g[BucketOf(c, hash, s1, key)])
    }
  }

  ghost function Searches<Key>(f: Fch, hash: Hash<Key>, keys: seq<Key>): (r: seq<nat>)
    requires f.Valid()
    ensures |r| == |keys|
  {
    seq(|keys|, i requires 0 <= i < |keys| => f.Search(hash, keys[i]))
  }

  /** Distinct entries of a table stay distinct under another name: equal multisets repeat equally often. */
  lemma SameMultisetDistinct(a: seq<nat>, b: seq<nat>)
    requires multiset(a) == multiset(b) && Distinct(a)
    ensures Distinct(b)
  {
    forall i, j | 0 <= i < j < |b|
      ensures b[i] != b[j]
    {
      DistinctOnce(a, b[i]);
      if b[i] == b[j] {
        TwiceInMultiset(b, i, j);
      }
    }
  }

  lemma {:induction false} DistinctOnce(a: seq<nat>, x: nat)
    requires Distinct(a)
    ensures multiset(a)[x] <= 1
  {
    if a != [] {
      var n := |a| - 1;
      DistinctOnce(a[..n], x);
      assert a == a[..n] + [a[n]];
      assert a[n] !in a[..n];
    }
  }

  /** When all buckets are placed the search function is a bijection onto [0, m). */
  lemma PlacedIsPerfect<Key>(f: Fch, hash: Hash<Key>, keys: seq<Key>)
    requires f.Valid() && f.c.m == |keys|
    requires AllPlaced(f.c, hash, f.s2, KeyBuckets(f.c, hash, f.s1, keys), f.g)
    ensures Bijection(Searches(f, hash, keys), |keys|)
  {
    hide Gathered, Group, Slot, BucketOf, Inverse, Bijection, Distinct;
    var s := KeyBuckets(f.c, hash, f.s1, keys);
    var random: seq<uint32>, map_: seq<uint32>, filled: nat, D: set<nat> :|
      Placed(f.c, hash, f.s2, s, f.g, random, map_, filled, D) && forall i :: 0 <= i < |s| ==> s[i].group in D;
    var h: (Key, nat) -> nat := (k: Key, b: nat) => if b < |f.g| then Slot(f.c.m, hash, f.s2, k, f.g[b]) else 0;
    GatherImages(s, f.c.b, h, D);
    forall b | 0 <= b < |f.g|
      ensures Parts(f.c.m, hash, f.s2, s, f.g)[b] == Images(s, f.c.b, h)[b]
    {
      var so := Group(s, b);
      assert forall i :: 0 <= i < |so| ==> SlotsOf(f.c.m, hash, f.s2, so, f.g[b])[i] == Image(so, b, h)[i];
    }
    assert Parts(f.c.m, hash, f.s2, s, f.g) == Images(s, f.c.b, h);
    var r := Searches(f, hash, keys);
    forall i | 0 <= i < |keys|
      ensures r[i] == ImageOfAll(s, h)[i]
    {
      assert s[i] == Keyed(keys[i], BucketOf(f.c, hash, f.s1, keys[i]));
    }
    assert r == ImageOfAll(s, h);
    var taken: seq<nat> := random[..filled];
    PrefixDistinct(random, map_, filled, taken);
    SameMultisetDistinct(taken, r);
    SearchesBounded(f, hash, keys);
    DistinctIsBijection(r, |keys|);
  }

  lemma PrefixDistinct(random: seq<uint32>, map_: seq<uint32>, filled: nat, taken: seq<nat>)
    requires Inverse(random, map_) && filled <= |random| && taken == random[..filled]
    ensures Distinct(taken)
  {
  }

  lemma SearchesBounded<Key>(f: Fch, hash: Hash<Key>, keys: seq<Key>)
    requires f.Valid() && f.c.m == |keys|
    ensures Bounded(Searches(f, hash, keys), |keys|)
  {
  }

  const ITERATIONS := 100

  /** mapping: every key goes into its bucket. */
  method MapKeys<Key>(c: Params, keys: seq<Key>, hash: Hash<Key>, s1: uint32) returns (buckets: Buckets<Key>)
    requires c.Valid()
    ensures fresh(buckets) && fresh(buckets.values)
    ensures buckets.values.Length == c.b && buckets.Holds(KeyBuckets(c, hash, s1, keys))
  {
    hide Buckets.Holds, BucketOf;
    ghost var s := KeyBuckets(c, hash, s1, keys);
    buckets := new Buckets<Key>(c.b);
    for i := 0 to |keys|
      invariant buckets.Holds(s[..i])
    {
      assert s[..i + 1] == s[..i] + [Keyed(keys[i], BucketOf(c, hash, s1, keys[i]))];
      buckets.Insert(BucketOf(c, hash, s1, keys[i]), keys[i], s[..i]);
    }
    assert s[..|keys|] == s;
  }

  /** ordering: by decreasing size. */
  method Order<Key>(buckets: Buckets<Key>, ghost s: seq<Keyed<Key>>) returns (order: seq<nat>)
    requires buckets.Holds(s)
    ensures order == ByDecreasingSize(GroupSizes(s, buckets.values.Length))
    ensures SortedIndexes(GroupSizes(s, buckets.values.Length), order)
  {
    hide Group, SortedIndexes, ByDecreasingSize;
    var all: seq<nat> := [];
    for b := 0 to buckets.values.Length
      invariant |all| == b && forall k :: 0 <= k < b ==> all[k] == |buckets.values[k]|
    {
      all := all + [|buckets.values[b]|];
    }
    assert all == GroupSizes(s, buckets.values.Length);
    var sorted := IndexesBySize(all, buckets.maxSize);
    order := sorted[..];
  }

  /** Everything that fch_new works on; the seeds and draws of an iteration are numbered by the counter. */
  datatype Job<!Key> = Job(c: Params, keys: seq<Key>, hash: Hash<Key>, seeds1: nat -> uint32, seeds2: nat -> uint32,
                           draws: nat -> (nat -> nat))

  /** One mapping, ordering and searching step: did it succeed, and with which seed of the second hash. */
  ghost function Iteration<Key>(j: Job<Key>, counter: nat, first: nat): (r: (bool, nat))
    requires j.c.Valid()
    ensures first <= r.1
  {
    var s := KeyBuckets(j.c, j.hash, j.seeds1(counter), j.keys);
    StartOk(j.c.m, j.draws(counter));
    SearchFrom(j.c, j.hash, j.seeds2, s, ByDecreasingSize(GroupSizes(s, j.c.b)), first,
               StartTables(j.c.m, j.draws(counter)), 0, 0)
  }

  /** The number of the next seed of a second hash when i iterations are over. */
  ghost function NextSeed<Key>(j: Job<Key>, i: nat): nat
    requires j.c.Valid() && i <= ITERATIONS
  {
    if i == 0 then 0 else Iteration(j, ITERATIONS - (i - 1), NextSeed(j, i - 1)).1 + 1
  }

  /** The search of iteration i, counted from 0, succeeds. */
  ghost predicate Succeeds<Key>(j: Job<Key>, i: nat)
    requires j.c.Valid() && i < ITERATIONS
  {
    Iteration(j, ITERATIONS - i, NextSeed(j, i)).0
  }

  // ---- when every key has a bucket of its own --------------------------------------------------------------

  /** Buckets of at most one key are all placed. */
  lemma {:induction false} SinglesPlaced<Key>(c: Params, hash: Hash<Key>, s2: uint32, s: seq<Keyed<Key>>,
                                              order: seq<nat>, i: nat, t: Tables)
    requires c.Valid() && TablesOk(t, c.m) && |s| == c.m && Groups(s, c.b) && i <= |order|
    requires Distinct(order) && forall k :: 0 <= k < |order| ==> order[k] < c.b
    requires forall b: nat :: b < c.b ==> |Group(s, b)| <= 1
    requires t.filled == |Gathered(GroupsOf(s, c.b), Prefix(order, i))|
    ensures AllFrom(c, hash, s2, s, order, i, t).0
    decreases |order| - i
  {
    hide Group, PlacedFrom, Gathered, Inverse, Prefix;
    if i < |order| && Group(s, order[i]) != [] {
      PrefixStep(order, i);
      GatherRoom(s, c.b, Prefix(order, i), order[i]);
      SinglePlaced(c.m, hash, s2, Group(s, order[i]), t);
      SinglesPlaced(c, hash, s2, s, order, i + 1, PlacedFrom(c.m, hash, s2, Group(s, order[i]), t, 0).1);
    }
  }

  lemma AloneInBuckets<Key>(c: Params, hash: Hash<Key>, s1: uint32, keys: seq<Key>)
    requires c.Valid() && OwnBuckets(c, hash, s1, keys)
    ensures forall b: nat :: |Group(KeyBuckets(c, hash, s1, keys), b)| <= 1
  {
    hide Group, BucketOf, Meet;
    var s := KeyBuckets(c, hash, s1, keys);
    forall i, j | 0 <= i < j < |s|
      ensures s[i].group != s[j].group
    {
      SharedBucket(c, hash, s1, keys[i], keys[j]);
    }
    forall b: nat
      ensures |Group(s, b)| <= 1
    {
      GroupAlone(s, b);
    }
  }

  /** An iteration whose first hash gives every key a bucket of its own succeeds. */
  lemma OwnBucketsSucceed<Key>(j: Job<Key>, i: nat)
    requires j.c.Valid() && j.c.m == |j.keys| && i < ITERATIONS
    requires OwnBuckets(j.c, j.hash, j.seeds1(ITERATIONS - i), j.keys)
    ensures Succeeds(j, i)
  {
    hide Group, KeyBuckets, ByDecreasingSize, TablesOk, AllFrom, StartTables, Gathered, OwnBuckets, NextSeed,
      SearchFrom, KeptApart;
    var counter, first := ITERATIONS - i, NextSeed(j, i);
    var s := KeyBuckets(j.c, j.hash, j.seeds1(counter), j.keys);
    var sizes := GroupSizes(s, j.c.b);
    var order, t := ByDecreasingSize(sizes), StartTables(j.c.m, j.draws(counter));
    AloneInBuckets(j.c, j.hash, j.seeds1(counter), j.keys);
    ByDecreasingSizeSorted(sizes);
    OrderShape(sizes, order);
    StartOk(j.c.m, j.draws(counter));
    assert t.filled == 0 by { StartsEmpty(j.c.m, j.draws(counter)); }
    PrefixNone(order);
    GatherNone(GroupsOf(s, j.c.b));
    NoneCollide(j.c, j.hash, j.seeds2(first), s);
    SinglesPlaced(j.c, j.hash, j.seeds2(first), s, order, 0, t);
    NextSearch(j.c, j.hash, j.seeds2, s, order, first, t, 0, 0);
  }

  lemma SomeOwnBuckets<Key>(j: Job<Key>)
    requires j.c.Valid() && j.c.m == |j.keys|
    ensures (exists i: nat :: 2 <= i <= 100 && OwnBuckets(j.c, j.hash, j.seeds1(i), j.keys)) ==>
      exists i: nat :: i < ITERATIONS - 1 && Succeeds(j, i)
  {
    hide OwnBuckets, Succeeds;
    if i: nat :| 2 <= i <= 100 && OwnBuckets(j.c, j.hash, j.seeds1(i), j.keys) {
      OwnBucketsSucceed(j, 100 - i);
    }
  }

  lemma NoneCollide<Key>(c: Params, hash: Hash<Key>, s2: uint32, s: seq<Keyed<Key>>)
    requires c.Valid() && forall b: nat :: |Group(s, b)| <= 1
    ensures !SomeCollide(c, hash, s2, s)
  {
    hide Group;
  }

  lemma IterationIs<Key>(j: Job<Key>, counter: nat, first: nat, r: (bool, nat))
    requires j.c.Valid() && 0 < counter <= ITERATIONS && first == NextSeed(j, ITERATIONS - counter)
    requires TablesOk(StartTables(j.c.m, j.draws(counter)), j.c.m)
    requires var s := KeyBuckets(j.c, j.hash, j.seeds1(counter), j.keys);
      SearchFrom(j.c, j.hash, j.seeds2, s, ByDecreasingSize(GroupSizes(s, j.c.b)), first,
                 StartTables(j.c.m, j.draws(counter)), 0, 0) == r
    ensures Iteration(j, counter, first) == r
    ensures Succeeds(j, ITERATIONS - counter) == r.0
    ensures NextSeed(j, ITERATIONS - (counter - 1)) == r.1 + 1
  {
    hide SearchFrom, KeyBuckets, StartTables, ByDecreasingSize, GroupSizes, TablesOk;
  }

  lemma FirstSeed<Key>(j: Job<Key>)
    requires j.c.Valid()
    ensures NextSeed(j, 0) == 0
  {
  }

  /**
   fch_new: a bijection onto [0, m) if the search of one of the first ITERATIONS - 1 iterations succeeds, and
   nothing otherwise. The result of the last permitted iteration is thrown away even when its search succeeded, since
   the counter has then reached 0.
   */
  method New<Key>(c: Params, keys: seq<Key>, hash: Hash<Key>, seeds1: nat -> uint32, seeds2: nat -> uint32,
                     draws: nat -> (nat -> nat))
    returns (result: Option<Fch>)
    requires c.Valid() && c.m == |keys|
    ensures var j := Job(c, keys, hash, seeds1, seeds2, draws);
      result.Some? <==> exists i: nat :: i < ITERATIONS - 1 && Succeeds(j, i)
    ensures (exists i: nat :: 2 <= i <= 100 && OwnBuckets(c, hash, seeds1(i), keys)) ==> result.Some?
    ensures result.Some? ==> result.value.Valid() && result.value.c == c
    ensures result.Some? ==> Bijection(Searches(result.value, hash, keys), |keys|)
  {
    hide SortedIndexes, Buckets.Holds, Group, AllPlaced, KeyBuckets, Bijection, SearchFrom, StartTables,
      ByDecreasingSize, TablesOk, Iteration, Succeeds, NextSeed,
      OwnBuckets;
    ghost var j := Job(c, keys, hash, seeds1, seeds2, draws);
    var iterations := ITERATIONS;
    var next: nat := 0;
    FirstSeed(j);
    SomeOwnBuckets(j);
    while true
      invariant 0 < iterations <= ITERATIONS
      invariant next == NextSeed(j, ITERATIONS - iterations)
      invariant forall i: nat :: i < ITERATIONS - iterations ==> !Succeeds(j, i)
      decreases iterations
    {
      var s1 := seeds1(iterations);
      var buckets := MapKeys(c, keys, hash, s1);
      ghost var s := KeyBuckets(c, hash, s1, keys);
      ghost var sizes := GroupSizes(s, c.b);
      var order := Order(buckets, s);
      var restartMapping, g, t := Searching(c, hash, seeds2, next, buckets, order, draws(iterations), s, sizes);
      IterationIs(j, iterations, next, (!restartMapping, t));
      iterations := iterations - 1;
      next := t + 1;
      if !(restartMapping && iterations > 0) {
        if iterations == 0 {
          return None;
        }
        var f := Fch(c, s1, seeds2(t), g[..]);
        PlacedIsPerfect(f, hash, keys);
        return Some(f);
      }
    }
  }

  // ---- a search that succeeds too late -----------------------------------------------------------------

  /** As long as the second hashes make keys of a bucket collide the search only counts them. */
  lemma {:induction false} SearchGivesUp<Key>(c: Params, hash: Hash<Key>, seeds: nat -> uint32, s: seq<Keyed<Key>>,
                                              order: seq<nat>, u: nat, t: Tables, searches: nat, tries: nat)
    requires c.Valid() && TablesOk(t, c.m) && searches < SEARCHING_ITERATIONS && tries < H2_ITERATIONS
    requires forall x: nat :: u <= x < u + H2_ITERATIONS - tries ==> SomeCollide(c, hash, seeds(x), s)
    ensures SearchFrom(c, hash, seeds, s, order, u, t, searches, tries) == (false, u + 1000 - tries - 1)
    decreases H2_ITERATIONS - tries
  {
    hide SomeCollide, AllFrom, TablesOk;
    if tries + 1 < H2_ITERATIONS {
      SearchGivesUp(c, hash, seeds, s, order, u + 1, t, searches, tries + 1);
    }
  }

  function LateHash(s: uint32, key: uint32): uint32 {
    if s == 1 && key == 1 then 1 else 0
  }

  /** Two keys, which the parameters for two keys put into one bucket; the first 99 * 1000 second hashes collide. */
  function LateJob(): Job<uint32> {
    Job(Params(2, 3, 2, 1), [0, 1], LateHash, i => 0, i => if i < (ITERATIONS - 1) * H2_ITERATIONS then 0 else 1,
        i => x => 0)
  }

  lemma TwoInFirst(s: seq<Keyed<uint32>>, b: nat)
    requires s == [Keyed(0, 0), Keyed(1, 0)]
    ensures Group(s, b) == if b == 0 then [0, 1] else []
  {
    hide Group;
    GroupNone<uint32>(b);
    assert s[..0] == [] && s[..1] == s[..0] + [s[0]] && s == s[..1] + [s[1]];
    GroupAppend(s[..0], s[0], b);
    GroupAppend(s[..1], s[1], b);
  }

  lemma LateBuckets()
    ensures var s := KeyBuckets(LateJob().c, LateHash, 0, LateJob().keys);
      Group(s, 0) == [0, 1] && Group(s, 1) == [] && Group(s, 2) == []
  {
    hide Group;
    var s := KeyBuckets(LateJob().c, LateHash, 0, LateJob().keys);
    assert s == [Keyed(0, 0), Keyed(1, 0)];
    TwoInFirst(s, 0);
    TwoInFirst(s, 1);
    TwoInFirst(s, 2);
  }

  lemma LateCollide()
    ensures SomeCollide(LateJob().c, LateHash, 0, KeyBuckets(LateJob().c, LateHash, 0, LateJob().keys))
  {
    var s := KeyBuckets(LateJob().c, LateHash, 0, LateJob().keys);
    LateBuckets();
    assert Mod(LateHash(0, Group(s, 0)[0]), 2) == Mod(LateHash(0, Group(s, 0)[1]), 2) == 0;
  }

  lemma LateIteration(i: nat, counter: nat)
    requires i < ITERATIONS - 1
    ensures Iteration(LateJob(), counter, i * H2_ITERATIONS) == (false, (i + 1) * H2_ITERATIONS - 1)
  {
    hide SearchFrom, KeyBuckets, StartTables, ByDecreasingSize, GroupSizes, TablesOk;
    var j := LateJob();
    var s := KeyBuckets(j.c, LateHash, 0, j.keys);
    LateCollide();
    StartOk(j.c.m, j.draws(counter));
    SearchGivesUp(j.c, LateHash, j.seeds2, s, ByDecreasingSize(GroupSizes(s, j.c.b)), i * H2_ITERATIONS,
                  StartTables(j.c.m, j.draws(counter)), 0, 0);
  }

  lemma {:induction false} LateSeeds(i: nat)
    requires i < ITERATIONS
    ensures NextSeed(LateJob(), i) == i * H2_ITERATIONS
    ensures i < ITERATIONS - 1 ==> !Succeeds(LateJob(), i)
  {
    hide Iteration;
    if i > 0 {
      LateSeeds(i - 1);
      LateIteration(i - 1, ITERATIONS - (i - 1));
    }
    if i < ITERATIONS - 1 {
      LateIteration(i, ITERATIONS - i);
    }
  }

  lemma InverseLength(t: Tables, m: nat)
    requires TablesOk(t, m)
    ensures |t.map_| == m
  {
  }

  /** A bucket of at most two keys that are kept apart is placed into empty tables. */
  lemma PlacedFirst<Key>(m: uint32, hash: Hash<Key>, s2: uint32, bucket: seq<Key>, t: Tables)
    requires 0 < m && TablesOk(t, m) && t.filled == 0 && 1 <= |bucket| <= 2 && KeptApart(m, hash, s2, bucket)
    ensures PlacedFrom(m, hash, s2, bucket, t, 0).0
  {
    hide Slot, KeptApart, PlacedFrom, Inverse;
    ShortExact(m, hash, s2, bucket, t);
    forall i | 0 <= i < |bucket|
      ensures Free(t, Slot(m, hash, s2, bucket[i], 0))
    {
      InverseLength(t, m);
    }
    assert Fits(m, hash, s2, bucket, t, 0);
  }

  lemma StartsEmpty(m: uint32, draws: nat -> nat)
    ensures StartTables(m, draws).filled == 0
  {
  }

  lemma LateOrder(order: seq<nat>)
    requires SortedIndexes([2, 0, 0], order)
    ensures |order| == 3 && order[0] == 0 && order[1] in {1, 2}
  {
    assert 0 in order;
  }

  lemma LateApart()
    ensures !SomeCollide(LateJob().c, LateHash, 1, KeyBuckets(LateJob().c, LateHash, 0, LateJob().keys))
  {
    var c := LateJob().c;
    var s := KeyBuckets(c, LateHash, 0, LateJob().keys);
    LateBuckets();
    forall b: nat | b < c.b
      ensures KeptApart(c.m, LateHash, 1, Group(s, b))
    {
      assert Mod(1, 2) == 1 && Mod(0, 2) == 0;
    }
  }

  /** The search of the last iteration succeeds at once. */
  lemma LateSuccess()
    ensures Succeeds(LateJob(), ITERATIONS - 1)
  {
    hide KeyBuckets, StartTables, ByDecreasingSize, Group, PlacedFrom, TablesOk, SearchFrom, AllFrom, NextSeed;
    var j := LateJob();
    var s := KeyBuckets(j.c, LateHash, 0, j.keys);
    var sizes := GroupSizes(s, j.c.b);
    var order := ByDecreasingSize(sizes);
    var t := StartTables(j.c.m, j.draws(1));
    LateSeeds(ITERATIONS - 1);
    LateBuckets();
    LateApart();
    assert sizes == [2, 0, 0];
    ByDecreasingSizeSorted(sizes);
    LateOrder(order);
    StartOk(j.c.m, j.draws(1));
    var bucket := Group(s, 0);
    assert t.filled == 0 by { StartsEmpty(j.c.m, j.draws(1)); }
    assert KeptApart(j.c.m, LateHash, 1, bucket);
    PlacedFirst(j.c.m, LateHash, 1, bucket, t);
    NextBucket(j.c, LateHash, 1, s, order, 0, t);
    NextBucket(j.c, LateHash, 1, s, order, 1, PlacedFrom(j.c.m, LateHash, 1, bucket, t, 0).1);
    NextSearch(j.c, LateHash, j.seeds2, s, order, (ITERATIONS - 1) * H2_ITERATIONS, t, 0, 0);
  }

  /** The only iteration whose search succeeds is the last permitted one, and there is no function. */
  method ThrownAwayExample() returns (result: Option<Fch>, ghost j: Job<uint32>)
    ensures j == LateJob() && Succeeds(j, ITERATIONS - 1) && result == None
  {
    hide Succeeds;
    j := LateJob();
    LateSuccess();
    forall i: nat | i < ITERATIONS - 1
      ensures !Succeeds(j, i)
    {
      LateSeeds(i);
    }
    var l := LateJob();
    result := New(l.c, l.keys, l.hash, l.seeds1, l.seeds2, l.draws);
  }
}
