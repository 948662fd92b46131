/** examples/epmh.py: Hanov's minimal perfect hashing of a dictionary. */
module Hanov {
  import opened Arithmetic
  import opened Words
  import opened Bits
  import opened Counting
  import opened CountingSort
  import opened Primes
  import opened FchBuckets
  import opened HanovHash
  import opened HanovRuns

  /** PerfectHashLookup */
  function Lookup<V>(G: seq<int>, values: seq<Option<V>>, key: string): Option<V>
    requires 0 < |G| == |values|
    requires 0 <= Slot(G[Home(key, |G|)], key, |values|) < |values|
  {
    values[Slot(G[Home(key, |G|)], key, |values|)]
  }

  // ---- buckets of several keys -----------------------------------------------------------------------------

  /** The keys of a bucket go to different free slots under d. */
  ghost predicate Works<V>(values: seq<Option<V>>, bucket: seq<string>, d: nat)
    requires 0 < |values|
  {
    && (forall i :: 0 <= i < |bucket| ==> values[Slot(d, bucket[i], |values|)].None?)
    && forall i, j :: 0 <= i < j < |bucket| ==> Slot(d, bucket[i], |values|) != Slot(d, bucket[j], |values|)
  }

  lemma WorksFit<V>(values: seq<Option<V>>, bucket: seq<string>, d: nat)
    requires 0 < |values| && Works(values, bucket, d)
    ensures SlotsFit(bucket, d, |values|)
  {
  }

  /**
   The smallest displacement from d on that works. The source tries without end; limit stands for the patience
   of the caller, and None says that no displacement up to it works.
   */
  ghost function FirstWorking<V>(values: seq<Option<V>>, bucket: seq<string>, d: nat, limit: nat): (r: Option<nat>)
    requires 0 < |values|
    ensures r.Some? ==> d <= r.value && Works(values, bucket, r.value)
    ensures forall e: nat :: d <= e < (if r.Some? then r.value else limit + 1) ==> !Works(values, bucket, e)
    decreases limit + 1 - d
  {
    if d > limit then None
    else if Works(values, bucket, d) then Some(d)
    else FirstWorking(values, bucket, d + 1, limit)
  }

  ghost function SlotsUnder(bucket: seq<string>, n: nat, d: nat, size: nat): (s: seq<nat>)
    requires n <= |bucket| && 0 < size
    ensures |s| == n && forall i :: 0 <= i < n ==> s[i] < size
  {
    seq(n, i requires 0 <= i < n => Slot(d, bucket[i], size))
  }

  /** The displacement search. */
  method FindDisplacement<V>(values: array<Option<V>>, bucket: seq<string>, limit: nat) returns (r: Option<nat>)
    requires 0 < values.Length
    ensures r == FirstWorking(values[..], bucket, 1, limit)
    ensures r.Some? ==> 1 <= r.value && Works(values[..], bucket, r.value)
    ensures forall d: nat :: 1 <= d < (if r.Some? then r.value else limit + 1) ==> !Works(values[..], bucket, d)
  {
    hide Hash, Works, Slot;
    var d: nat, item: nat, slots: seq<nat> := 1, 0, [];
    while item < |bucket| && d <= limit
      invariant 1 <= d && item <= |bucket| && slots == SlotsUnder(bucket, item, d, values.Length)
      invariant forall i :: 0 <= i < item ==> values[slots[i]].None?
      invariant Distinct(slots)
      invariant FirstWorking(values[..], bucket, 1, limit) == FirstWorking(values[..], bucket, d, limit)
      decreases limit + 1 - d, |bucket| - item
    {
      SlotInside(d, bucket[item], values.Length);
      var slot := Slot(d, bucket[item], values.Length);
      if values[slot].Some? || slot in slots {
        NotWorking(values[..], bucket, d, item);
        d := d + 1;
        item := 0;
        slots := [];
      } else {
        slots := slots + [slot];
        item := item + 1;
      }
    }
    if d > limit {
      return None;
    }
    Working(values[..], bucket, d);
    return Some(d);
  }

  lemma SlotInside(d: nat, key: string, size: nat)
    requires 0 < size
    ensures 0 <= Slot(d, key, size) < size
  {
  }

  lemma NotWorking<V>(values: seq<Option<V>>, bucket: seq<string>, d: nat, item: nat)
    requires 0 < |values| && item < |bucket|
    requires var slot := Slot(d, bucket[item], |values|);
      values[slot].Some? || slot in SlotsUnder(bucket, item, d, |values|)
    ensures !Works(values, bucket, d)
  {
    hide Hash;
    var slots := SlotsUnder(bucket, item, d, |values|);
    if i :| 0 <= i < item && slots[i] == Slot(d, bucket[item], |values|) {
      assert Slot(d, bucket[i], |values|) == slots[i];
    }
  }

  lemma Working<V>(values: seq<Option<V>>, bucket: seq<string>, d: nat)
    requires 0 < |values| && Distinct(SlotsUnder(bucket, |bucket|, d, |values|))
    requires forall i :: 0 <= i < |bucket| ==> values[SlotsUnder(bucket, |bucket|, d, |values|)[i]].None?
    ensures Works(values, bucket, d)
  {
    hide Hash;
    var slots := SlotsUnder(bucket, |bucket|, d, |values|);
    forall i, j | 0 <= i < j < |bucket|
      ensures Slot(d, bucket[i], |values|) != Slot(d, bucket[j], |values|)
    {
      assert slots[i] != slots[j];
    }
    forall i | 0 <= i < |bucket|
      ensures values[Slot(d, bucket[i], |values|)].None?
    {
      assert values[slots[i]].None?;
    }
  }

  /** Writing the dictionary values of a bucket into its slots. */
  method WriteBucket<V>(dict: Dict<V>, values: array<Option<V>>, bucket: seq<string>, d: nat)
    requires 0 < values.Length && SlotsFit(bucket, d, values.Length) && InDict(dict, bucket)
    modifies values
    ensures values[..] == Written(dict, old(values[..]), bucket, d, |bucket|)
  {
    hide Slot;
    ghost var v0 := values[..];
    for i := 0 to |bucket|
      invariant values[..] == Written(dict, v0, bucket, d, i)
    {
      values[Slot(d, bucket[i], values.Length)] := dict[bucket[i]];
    }
  }

  // ---- step 2 -----------------------------------------------------------------------------------------------

  /** The order in which the buckets are processed. */
  ghost function Order(keys: seq<string>): seq<nat>
    requires 0 < |keys|
  {
    ByDecreasingSize(GroupSizes(KeyBuckets(keys, |keys|), |keys|))
  }

  lemma OrderFacts(keys: seq<string>)
    requires 0 < |keys|
    ensures var order := Order(keys);
      |order| == |keys| && Distinct(order) && (forall i :: 0 <= i < |order| ==> order[i] < |keys|)
      && forall i, j :: 0 <= i < j < |order| ==> |Bucket(keys, order[j])| <= |Bucket(keys, order[i])|
  {
    hide Group, ByDecreasingSize;
    var sizes := GroupSizes(KeyBuckets(keys, |keys|), |keys|);
    ByDecreasingSizeSorted(sizes);
    assert forall b: nat :: b < |keys| ==> sizes[b] == |Bucket(keys, b)|;
  }

  /** The buckets from number b on, up to the first that has at most one key: the tables, and where it stops. */
  ghost function Large<V>(dict: Dict<V>, keys: seq<string>, t: Table<V>, b: nat, limit: nat)
    : (r: Option<(Table<V>, nat)>)
    requires t.Ok(|keys|) && InDict(dict, keys)
    ensures r.Some? ==> r.value.0.Ok(|keys|)
    decreases |keys| - b
  {
    OrderFacts(keys);
    if b >= |keys| || |Bucket(keys, Order(keys)[b])| <= 1 then Some((t, b)) else
      var g := Order(keys)[b];
      var d := FirstWorking(t.values, Bucket(keys, g), 1, limit);
      if d.None? then None else
        WorksFit(t.values, Bucket(keys, g), d.value);
        Large(dict, keys, WithBucket(dict, keys, t, g, d.value), b + 1, limit)
  }

  /** Every key whose value is None is alone in its bucket. */
  ghost predicate BlanksAlone<V>(dict: Dict<V>, keys: seq<string>)
    requires 0 < |keys|
  {
    forall i :: 0 <= i < |keys| && keys[i] in dict && dict[keys[i]].None? ==>
      |Bucket(keys, Home(keys[i], |keys|))| == 1
  }

  /** The owned slots look taken. */
  ghost predicate Solid<V>(keys: seq<string>, t: Table<V>, D: set<nat>)
    requires t.Ok(|keys|)
  {
    forall x: nat :: x < |keys| && Owned(keys, t.G, D, x) ==> t.values[x].Some?
  }

  ghost predicate ApartSolid<V>(keys: seq<string>, t: Table<V>, D: set<nat>)
    requires t.Ok(|keys|)
  {
    Apart(keys, t.G, D) && Solid(keys, t, D)
  }

  /** A bucket of several keys goes to slots without an owner if owned slots look taken. */
  lemma LargeApart<V>(dict: Dict<V>, keys: seq<string>, t: Table<V>, D: set<nat>, g: nat, d: nat)
    requires t.Ok(|keys|) && InDict(dict, keys) && Distinct(keys) && BlanksAlone(dict, keys)
    requires ApartSolid(keys, t, D) && g < |keys| && g !in D && |Bucket(keys, g)| >= 2
    requires Works(t.values, Bucket(keys, g), d) && SlotsFit(Bucket(keys, g), d, |keys|)
    ensures ApartSolid(keys, WithBucket(dict, keys, t, g, d), D + {g})
  {
    hide Slot, Home, Bucket, Owned, Apart, Written;
    var t' := WithBucket(dict, keys, t, g, d);
    var bucket := Bucket(keys, g);
    BucketInDict(dict, keys, g);
    ApartMore(keys, t.G, D, g, d);
    WrittenAt(dict, t.values, bucket, d, |bucket|);
    forall x: nat | x < |keys| && Owned(keys, t'.G, D + {g}, x)
      ensures t'.values[x].Some?
    {
      OwnedMore(keys, t.G, D, g, d, x);
      if k :| 0 <= k < |bucket| && Slot(d, bucket[k], |keys|) == x {
        var i := OfBucket(keys, g, k);
        assert dict[keys[i]].Some?;
      }
    }
  }

  ghost predicate LargeBefore(keys: seq<string>, b: nat)
    requires 0 < |keys|
  {
    forall c :: 0 <= c < b && c < |Order(keys)| ==>
      Order(keys)[c] < |keys| && |Bucket(keys, Order(keys)[c])| >= 2
  }

  /** Among as many buckets as keys not all can have several keys: the first loop always breaks. */
  lemma SomeSmall(keys: seq<string>, b: nat)
    requires 0 < |keys|
    requires LargeBefore(keys, b)
    ensures b < |keys|
  {
    hide Group, ByDecreasingSize;
    var s, n := KeyBuckets(keys, |keys|), |keys|;
    OrderFacts(keys);
    OffsetTotal(s, n);
    if b >= n {
      forall g: nat | g < n
        ensures |Group(s, g)| >= 2
      {
        DistinctCovers(Order(keys), n, g);
        assert |Bucket(keys, g)| >= 2;
      }
      OffsetAtLeast(s, n);
    }
  }

  lemma {:induction false} OffsetAtLeast(s: seq<Keyed<string>>, n: nat)
    requires forall g: nat :: g < n ==> |Group(s, g)| >= 2
    ensures Offset(s, n) >= 2 * n
  {
    if n > 0 {
      OffsetAtLeast(s, n - 1);
    }
  }

  /** Step 2 keeps the tables sound, and keeps slots apart if no key of its buckets has the value None. */
  lemma {:induction false} LargeSound<V>(dict: Dict<V>, keys: seq<string>, t: Table<V>, b: nat, limit: nat)
    requires 0 < |keys| && InDict(dict, keys) && Distinct(keys) && LargeBefore(keys, b) && b <= |Order(keys)|
    requires Sound(dict, keys, t, Prefix(Order(keys), b))
    requires Large(dict, keys, t, b, limit).Some?
    ensures var (t', b') := Large(dict, keys, t, b, limit).value;
      && b' < |keys| == |Order(keys)| && Order(keys)[b'] < |keys| && |Bucket(keys, Order(keys)[b'])| <= 1
      && LargeBefore(keys, b') && Sound(dict, keys, t', Prefix(Order(keys), b'))
      && (BlanksAlone(dict, keys) && ApartSolid(keys, t, Prefix(Order(keys), b)) ==>
          ApartSolid(keys, t', Prefix(Order(keys), b')))
    decreases |keys| - b
  {
    hide Bucket, Order, Sound, ApartSolid, BlanksAlone, WithBucket, Works, Prefix, SlotsFit;
    SoundShape(dict, keys, t, Prefix(Order(keys), b));
    OrderFacts(keys);
    SomeSmall(keys, b);
    var order := Order(keys);
    if |Bucket(keys, order[b])| > 1 {
      var g := order[b];
      var d := FirstWorking(t.values, Bucket(keys, g), 1, limit).value;
      WorksFit(t.values, Bucket(keys, g), d);
      PrefixStep(order, b);
      BucketPlaced(dict, keys, t, Prefix(order, b), g, d);
      var t' := WithBucket(dict, keys, t, g, d);
      if BlanksAlone(dict, keys) && ApartSolid(keys, t, Prefix(order, b)) {
        LargeApart(dict, keys, t, Prefix(order, b), g, d);
      }
      LargeSound(dict, keys, t', b + 1, limit);
    }
  }

  lemma SoundShape<V>(dict: Dict<V>, keys: seq<string>, t: Table<V>, D: set<nat>)
    requires Sound(dict, keys, t, D)
    ensures t.Ok(|keys|) && CountBefore(TakenSlots(t.values), |t.values|) <= KeysIn(keys, D)
  {
  }

  /** The tables at the start. */
  ghost function StartTable<V>(n: nat): (t: Table<V>)
    ensures |t.G| == |t.values| == n
  {
    Table(seq(n, i => 0), seq(n, i => None))
  }

  lemma StartSound<V>(dict: Dict<V>, keys: seq<string>)
    requires 0 < |keys|
    ensures var t := StartTable<V>(|keys|);
      Sound(dict, keys, t, {}) && ApartSolid(keys, t, {})
  {
    GatherNone(GroupsOf(KeyBuckets(keys, |keys|), |keys|));
    CountNone(TakenSlots(StartTable<V>(|keys|).values), |keys|);
  }

  lemma {:induction false} CountNone(b: seq<bool>, v: nat)
    requires v <= |b| && forall x :: 0 <= x < |b| ==> !b[x]
    ensures CountBefore(b, v) == 0
  {
    if v > 0 {
      CountNone(b, v - 1);
    }
  }

  // ---- step 3 -----------------------------------------------------------------------------------------------

  /** The slots below i that look free. */
  ghost function FreeSlots<V>(values: seq<Option<V>>, i: nat): (free: seq<nat>)
    requires i <= |values|
    ensures Distinct(free) && forall x :: x in free <==> 0 <= x < i && values[x].None?
    ensures |free| == i - CountBefore(TakenSlots(values), i)
  {
    if i == 0 then [] else FreeSlots(values, i - 1) + if values[i - 1].None? then [i - 1] else []
  }

  method CollectFree<V>(values: array<Option<V>>) returns (free: seq<nat>)
    ensures free == FreeSlots(values[..], values.Length)
  {
    free := [];
    for i := 0 to values.Length
      invariant free == FreeSlots(values[..], i)
    {
      if values[i].None? {
        free := free + [i];
      }
    }
  }

  ghost predicate Slots(free: seq<nat>, n: nat) {
    Distinct(free) && forall x :: 0 <= x < |free| ==> free[x] < n
  }

  lemma SingleFits(bucket: seq<string>, slot: int, n: nat)
    requires |bucket| == 1 && 0 <= slot < n
    ensures SlotsFit(bucket, -slot - 1, n) && Slot(-slot - 1, bucket[0], n) == slot
  {
  }

  /** The tables after the key of a bucket is given a slot. */
  ghost function WithSingle<V>(dict: Dict<V>, keys: seq<string>, t: Table<V>, g: nat, slot: int): (t': Table<V>)
    requires t.Ok(|keys|) && InDict(dict, keys) && g < |keys| && |Bucket(keys, g)| == 1 && 0 <= slot < |keys|
    ensures t'.Ok(|keys|)
  {
    SingleFits(Bucket(keys, g), slot, |keys|);
    WithBucket(dict, keys, t, g, -slot - 1)
  }

  /** The buckets from number b on, each of a single key, take the last free slots: the tables, and what is left. */
  ghost function Singles<V>(dict: Dict<V>, keys: seq<string>, t: Table<V>, b: nat, free: seq<nat>)
    : (r: (Table<V>, seq<nat>))
    requires t.Ok(|keys|) && InDict(dict, keys) && Slots(free, |keys|)
    ensures r.0.Ok(|keys|) && r.1 <= free
    decreases |keys| - b
  {
    OrderFacts(keys);
    if b >= |keys| || |Bucket(keys, Order(keys)[b])| != 1 || free == [] then (t, free) else
      Singles(dict, keys, WithSingle(dict, keys, t, Order(keys)[b], free[|free| - 1]), b + 1, free[..|free| - 1])
  }

  ghost predicate SmallFrom(keys: seq<string>, b: nat)
    requires 0 < |keys|
  {
    forall c :: b <= c < |Order(keys)| ==> Order(keys)[c] < |keys| && |Bucket(keys, Order(keys)[c])| <= 1
  }

  ghost predicate AllIn(keys: seq<string>, D: set<nat>)
    requires 0 < |keys|
  {
    forall i :: 0 <= i < |keys| ==> Home(keys[i], |keys|) in D
  }

  lemma GatherAllSize(s: seq<Keyed<string>>, n: nat, D: set<nat>)
    requires Groups(s, n) && forall i :: 0 <= i < |s| ==> s[i].group in D
    ensures |Gathered(GroupsOf(s, n), D)| == |s|
  {
    hide Gathered, Group;
    var f: (string, nat) -> string := (v: string, g: nat) => v;
    GatherImages(s, n, f, D);
    assert Images(s, n, f) == GroupsOf(s, n) by {
      forall g | 0 <= g < n
        ensures Images(s, n, f)[g] == GroupsOf(s, n)[g]
      {
        assert Image(Group(s, g), g, f) == Group(s, g);
      }
    }
  }

  /** Nothing comes after the first empty bucket. */
  lemma AllDone(keys: seq<string>, b: nat)
    requires 0 < |keys| && b <= |Order(keys)|
    requires b < |Order(keys)| ==> Bucket(keys, Order(keys)[b]) == []
    ensures AllIn(keys, Prefix(Order(keys), b)) && KeysIn(keys, Prefix(Order(keys), b)) == |keys|
  {
    hide Bucket, Order, Home, Gathered;
    OrderFacts(keys);
    var order, n := Order(keys), |keys|;
    forall i | 0 <= i < n
      ensures Home(keys[i], n) in Prefix(order, b)
    {
      var g := Home(keys[i], n);
      InBucket(keys, g, i);
      DistinctCovers(order, n, g);
      var p :| 0 <= p < |order| && order[p] == g;
      assert p < b;
      assert order[..b][p] == g;
    }
    GatherAllSize(KeyBuckets(keys, n), n, Prefix(order, b));
  }

  /** Everything that step 3 does, for the buckets D1 it ends with. */
  ghost predicate SinglesDone<V>(dict: Dict<V>, keys: seq<string>, t: Table<V>, D: set<nat>, free: seq<nat>,
                                 t1: Table<V>, D1: set<nat>, free1: seq<nat>)
    requires t.Ok(|keys|) && t1.Ok(|keys|)
  {
    && Sound(dict, keys, t1, D1) && AllIn(keys, D1)
    && free1 <= free && |free| - |free1| == |keys| - KeysIn(keys, D)
    && (Apart(keys, t1.G, D1) <==>
        Apart(keys, t.G, D) && forall x :: x in free[|free1|..] ==> !Owned(keys, t.G, D, x))
    && forall x: nat :: Owned(keys, t1.G, D1, x) <==> Owned(keys, t.G, D, x) || x in free[|free1|..]
  }

  /** One step of it. */
  lemma SinglePlaced<V>(dict: Dict<V>, keys: seq<string>, t: Table<V>, D: set<nat>, g: nat, slot: int)
    requires InDict(dict, keys) && Distinct(keys) && Sound(dict, keys, t, D)
    requires g < |keys| && g !in D && |Bucket(keys, g)| == 1 && 0 <= slot < |keys|
    ensures var t' := WithSingle(dict, keys, t, g, slot);
      && t'.Ok(|keys|) && Sound(dict, keys, t', D + {g})
      && (Apart(keys, t'.G, D + {g}) <==> Apart(keys, t.G, D) && !Owned(keys, t.G, D, slot))
      && forall x: nat :: Owned(keys, t'.G, D + {g}, x) <==> Owned(keys, t.G, D, x) || x == slot
    ensures KeysIn(keys, D + {g}) == KeysIn(keys, D) + 1 <= |keys|
  {
    hide Bucket, Sound, Apart, Owned, KeysIn, SlotsFit, Slot;
    SoundShape(dict, keys, t, D);
    SingleFits(Bucket(keys, g), slot, |keys|);
    BucketPlaced(dict, keys, t, D, g, -slot - 1);
    ApartMore(keys, t.G, D, g, -slot - 1);
    forall x: nat
      ensures Owned(keys, t.G[g := -slot - 1], D + {g}, x) <==> Owned(keys, t.G, D, x) || x == slot
    {
      OwnedMore(keys, t.G, D, g, -slot - 1, x);
    }
  }

  lemma {:induction false} SinglesSound<V>(dict: Dict<V>, keys: seq<string>, t: Table<V>, b: nat, free: seq<nat>)
    returns (D1: set<nat>)
    requires 0 < |keys| && InDict(dict, keys) && Distinct(keys) && b <= |Order(keys)|
    requires Sound(dict, keys, t, Prefix(Order(keys), b)) && SmallFrom(keys, b) && Slots(free, |keys|)
    requires |keys| <= |free| + KeysIn(keys, Prefix(Order(keys), b))
    ensures var r := Singles(dict, keys, t, b, free);
      SinglesDone(dict, keys, t, Prefix(Order(keys), b), free, r.0, D1, r.1)
    decreases |keys| - b
  {
    hide Bucket, Order, Sound, Apart, WithSingle, Prefix, Owned, KeysIn, AllIn;
    SoundShape(dict, keys, t, Prefix(Order(keys), b));
    OrderFacts(keys);
    var order, D := Order(keys), Prefix(Order(keys), b);
    if b == |keys| || Bucket(keys, order[b]) == [] {
      AllDone(keys, b);
      assert free[|free|..] == [];
      return D;
    }
    var g := order[b];
    PrefixStep(order, b);
    RoomFor(keys, D, g);
    var last := |free| - 1;
    var t' := WithSingle(dict, keys, t, g, free[last]);
    SinglePlaced(dict, keys, t, D, g, free[last]);
    D1 := SinglesSound(dict, keys, t', b + 1, free[..last]);
    var r := Singles(dict, keys, t', b + 1, free[..last]);
    DoneBefore(dict, keys, t, D, free, t', D + {g}, r.0, D1, r.1);
  }

  /** What the remaining steps do together with the one before them. */
  lemma DoneBefore<V>(dict: Dict<V>, keys: seq<string>, t: Table<V>, D: set<nat>, free: seq<nat>, t': Table<V>,
                      D': set<nat>, t1: Table<V>, D1: set<nat>, free1: seq<nat>)
    requires t.Ok(|keys|) && t'.Ok(|keys|) && t1.Ok(|keys|) && free != [] && Slots(free, |keys|)
    requires SinglesDone(dict, keys, t', D', free[..|free| - 1], t1, D1, free1)
    requires KeysIn(keys, D') == KeysIn(keys, D) + 1
    requires Apart(keys, t'.G, D') <==> Apart(keys, t.G, D) && !Owned(keys, t.G, D, free[|free| - 1])
    requires forall x: nat :: Owned(keys, t'.G, D', x) <==> Owned(keys, t.G, D, x) || x == free[|free| - 1]
    ensures SinglesDone(dict, keys, t, D, free, t1, D1, free1)
  {
    hide Sound, Apart, Owned, KeysIn, AllIn;
    var last := |free| - 1;
    assert free[|free1|..] == free[..last][|free1|..] + [free[last]];
    assert free[last] !in free[..last];
  }

  // ---- the construction -------------------------------------------------------------------------------------

  lemma FreeSlotsInside<V>(values: seq<Option<V>>)
    ensures Slots(FreeSlots(values, |values|), |values|)
  {
    var free := FreeSlots(values, |values|);
    forall x | 0 <= x < |free|
      ensures free[x] < |values|
    {
      assert free[x] in free;
    }
  }

  /** The single keys take the last slots that look free after step 2. */
  ghost function StepThree<V>(dict: Dict<V>, keys: seq<string>, t: Table<V>, b: nat): (r: (Table<V>, seq<nat>))
    requires t.Ok(|keys|) && InDict(dict, keys)
    ensures r.0.Ok(|keys|)
  {
    FreeSlotsInside(t.values);
    Singles(dict, keys, t, b, FreeSlots(t.values, |keys|))
  }

  /** The three steps one after the other. */
  ghost function Construct<V>(dict: Dict<V>, keys: seq<string>, limit: nat): (r: Option<Table<V>>)
    requires 0 < |keys| && InDict(dict, keys)
    ensures r.Some? ==> r.value.Ok(|keys|)
  {
    var large := Large(dict, keys, StartTable(|keys|), 0, limit);
    if large.None? then None else Some(StepThree(dict, keys, large.value.0, large.value.1).0)
  }

  ghost function KeySlots(keys: seq<string>, G: seq<int>): (r: seq<nat>)
    requires 0 < |G| == |keys|
    ensures |r| == |keys|
  {
    seq(|keys|, i requires 0 <= i < |keys| => if 0 <= SlotOf(G, keys[i]) then SlotOf(G, keys[i]) else 0)
  }

  /** The slots of the keys are all different, so that they are all of [0, size). */
  ghost predicate Perfect(keys: seq<string>, G: seq<int>) {
    0 < |G| == |keys| && Bijection(KeySlots(keys, G), |keys|)
  }

  ghost predicate AllRight<V>(dict: Dict<V>, keys: seq<string>, t: Table<V>)
    requires t.Ok(|keys|)
  {
    forall i :: 0 <= i < |keys| ==> KeyRight(dict, t, keys[i])
  }

  lemma PerfectIsApart<V>(dict: Dict<V>, keys: seq<string>, t: Table<V>, D: set<nat>)
    requires Sound(dict, keys, t, D) && AllIn(keys, D)
    ensures Perfect(keys, t.G) <==> Apart(keys, t.G, D)
    ensures Perfect(keys, t.G) ==> AllRight(dict, keys, t)
    ensures forall i :: 0 <= i < |keys| ==> 0 <= SlotOf(t.G, keys[i]) < |keys|
  {
    hide SlotOf, Home, KeysIn;
    var q := KeySlots(keys, t.G);
    assert forall i :: 0 <= i < |keys| ==> q[i] == SlotOf(t.G, keys[i]);
    if Apart(keys, t.G, D) {
      DistinctIsBijection(q, |keys|);
    }
  }

  /** What step 2 has left when it ends. */
  ghost predicate AfterLarge<V>(dict: Dict<V>, keys: seq<string>, limit: nat, t: Table<V>, D: set<nat>)
    requires 0 < |keys| && InDict(dict, keys)
  {
    exists b: nat :: Large(dict, keys, StartTable(|keys|), 0, limit) == Some((t, b)) && b < |Order(keys)|
      && D == Prefix(Order(keys), b)
  }

  /** The slots that step 3 gives away: as many from the end of the free list as there are keys left. */
  ghost function GivenAway<V>(keys: seq<string>, t: Table<V>, D: set<nat>): seq<nat>
    requires t.Ok(|keys|) && CountBefore(TakenSlots(t.values), |keys|) <= KeysIn(keys, D) <= |keys|
  {
    FreeSlots(t.values, |keys|)[KeysIn(keys, D) - CountBefore(TakenSlots(t.values), |keys|)..]
  }

  lemma StartOfSteps<V>(dict: Dict<V>, keys: seq<string>, limit: nat, t: Table<V>, b: nat)
    requires 0 < |keys| && InDict(dict, keys) && Distinct(keys)
    requires Large(dict, keys, StartTable(|keys|), 0, limit) == Some((t, b))
    ensures b < |keys| == |Order(keys)| && SmallFrom(keys, b) && Sound(dict, keys, t, Prefix(Order(keys), b))
    ensures BlanksAlone(dict, keys) ==> ApartSolid(keys, t, Prefix(Order(keys), b))
    ensures |keys| <= |FreeSlots(t.values, |keys|)| + KeysIn(keys, Prefix(Order(keys), b))
    ensures Slots(FreeSlots(t.values, |keys|), |keys|)
  {
    hide Bucket, Order, Sound, ApartSolid, BlanksAlone, Prefix, Large, KeysIn;
    var start := StartTable<V>(|keys|);
    PrefixNone(Order(keys));
    StartSound(dict, keys);
    LargeSound(dict, keys, start, 0, limit);
    OrderFacts(keys);
    SoundShape(dict, keys, t, Prefix(Order(keys), b));
    FreeSlotsInside(t.values);
  }

  lemma PrefixNone(order: seq<nat>)
    ensures Prefix(order, 0) == {}
  {
  }

  /**
   When the construction is a minimal perfect hash function: if step 2 keeps the slots of its keys apart and
   step 3 gives none of them away. Then every key is looked up to its value.
   */
  lemma PerfectExact<V>(dict: Dict<V>, keys: seq<string>, limit: nat, t: Table<V>, D: set<nat>)
    requires 0 < |keys| && InDict(dict, keys) && Distinct(keys) && AfterLarge(dict, keys, limit, t, D)
    ensures Construct(dict, keys, limit).Some?
    ensures t.Ok(|keys|) && CountBefore(TakenSlots(t.values), |keys|) <= KeysIn(keys, D) <= |keys|
    ensures var r := Construct(dict, keys, limit).value;
      && (Perfect(keys, r.G) <==>
          Apart(keys, t.G, D) && forall x :: x in GivenAway(keys, t, D) ==> !Owned(keys, t.G, D, x))
      && (Perfect(keys, r.G) ==> AllRight(dict, keys, r))
      && forall i :: 0 <= i < |keys| ==> 0 <= SlotOf(r.G, keys[i]) < |keys|
  {
    hide Bucket, Order, Sound, Apart, Prefix, Large, KeysIn, Owned, Singles, AllIn, Perfect, AllRight;
    var b: nat :| Large(dict, keys, StartTable(|keys|), 0, limit) == Some((t, b)) && b < |Order(keys)|
      && D == Prefix(Order(keys), b);
    StartOfSteps(dict, keys, limit, t, b);
    SoundShape(dict, keys, t, D);
    var free := FreeSlots(t.values, |keys|);
    var D1 := SinglesSound(dict, keys, t, b, free);
    var r := Singles(dict, keys, t, b, free);
    PerfectIsApart(dict, keys, r.0, D1);
    assert free[|r.1|..] == GivenAway(keys, t, D);
  }

  /** With every None alone in its bucket the construction is right, and the free list is exactly used up. */
  lemma BlanksAloneRight<V>(dict: Dict<V>, keys: seq<string>, limit: nat)
    requires 0 < |keys| && InDict(dict, keys) && Distinct(keys) && BlanksAlone(dict, keys)
    requires Construct(dict, keys, limit).Some?
    ensures var r := Construct(dict, keys, limit).value; Perfect(keys, r.G) && AllRight(dict, keys, r)
    ensures var (t, b) := Large(dict, keys, StartTable(|keys|), 0, limit).value;
      StepThree(dict, keys, t, b).1 == []
  {
    hide Bucket, Order, Sound, Apart, Prefix, Large, KeysIn, Owned, Singles, AllIn, Perfect, AllRight, BlanksAlone;
    var (t, b) := Large(dict, keys, StartTable(|keys|), 0, limit).value;
    StartOfSteps(dict, keys, limit, t, b);
    var D := Prefix(Order(keys), b);
    SoundShape(dict, keys, t, D);
    var free := FreeSlots(t.values, |keys|);
    var D1 := SinglesSound(dict, keys, t, b, free);
    var r := Singles(dict, keys, t, b, free);
    forall x | x in free
      ensures !Owned(keys, t.G, D, x)
    {
    }
    PerfectIsApart(dict, keys, r.0, D1);
    if r.1 != [] {
      assert r.1[0] == free[0] && free[0] in free;
      var i := SomeOwner(keys, r.0.G, D1, free[0]);
      assert false;
    }
  }

  lemma SomeOwner(keys: seq<string>, G: seq<int>, D: set<nat>, x: nat) returns (i: nat)
    requires Perfect(keys, G) && AllIn(keys, D) && x < |keys|
    requires forall i :: 0 <= i < |keys| ==> 0 <= SlotOf(G, keys[i]) < |keys|
    ensures i < |keys| && Owned(keys, G, D, x)
  {
    hide SlotOf, Home;
    var q := KeySlots(keys, G);
    DistinctCovers(q, |keys|, x);
    i :| 0 <= i < |q| && q[i] == x;
  }

  // ---- which dictionaries have a function --------------------------------------------------------------------

  /** The first hash sends no two keys to the same bucket. */
  ghost predicate OwnHomes(keys: seq<string>)
    requires 0 < |keys|
  {
    forall i, j :: 0 <= i < j < |keys| ==> Hash(0, keys[i]) % |keys| != Hash(0, keys[j]) % |keys|
  }

  lemma OwnBuckets(keys: seq<string>)
    requires 0 < |keys| && OwnHomes(keys)
    ensures forall g: nat :: |Bucket(keys, g)| <= 1
    ensures forall i :: 0 <= i < |keys| ==> |Bucket(keys, Home(keys[i], |keys|))| == 1
  {
    hide Hash, Group;
    var s := KeyBuckets(keys, |keys|);
    forall g: nat
      ensures |Bucket(keys, g)| <= 1
    {
      GroupAlone(s, g);
    }
    forall i | 0 <= i < |keys|
      ensures |Bucket(keys, Home(keys[i], |keys|))| == 1
    {
      InBucket(keys, Home(keys[i], |keys|), i);
    }
  }

  /** With a bucket for every key there is nothing to search, and the tables are right. */
  lemma OwnHomesBuilt<V>(dict: Dict<V>, keys: seq<string>, limit: nat)
    requires 0 < |keys| && InDict(dict, keys) && OwnHomes(keys)
    ensures Construct(dict, keys, limit).Some? && BlanksAlone(dict, keys)
  {
    hide Bucket, Order, Home, StepThree, OwnHomes;
    OwnBuckets(keys);
    OrderFacts(keys);
    assert Large(dict, keys, StartTable(|keys|), 0, limit) == Some((StartTable(|keys|), 0));
  }

  lemma EvenResidue(h: nat, n: nat)
    requires 0 < n && n % 2 == 0
    ensures Mod(h, n) % 2 == h % 2
  {
    hide Mod;
    var q := Quotient(h, n);
    AddMultiple(Mod(h, n), h, q * (n / 2), 2);
  }

  /** For an even size a slot is even or odd as the displacement and the sum of the chars. */
  lemma SlotParity(d: nat, key: string, size: nat)
    requires 0 < size && size % 2 == 0
    ensures Home(key, size) % 2 == (1 + CharSum(key)) % 2
    ensures 0 < d ==> Slot(d, key, size) % 2 == (d + CharSum(key)) % 2
  {
    hide Hash, Mod;
    HashParity(0, key);
    HashParity(d, key);
    EvenResidue(Hash(0, key), size);
    EvenResidue(Hash(d, key), size);
  }

  /** Distinct numbers below 2 * n that are all even or all odd are at most n. */
  lemma HalfAsMany(s: seq<nat>, n: nat)
    requires Distinct(s) && Bounded(s, 2 * n) && forall i, j :: 0 <= i < j < |s| ==> s[i] % 2 == s[j] % 2
    ensures |s| <= n
  {
    var h: seq<nat> := seq(|s|, i requires 0 <= i < |s| => s[i] / 2);
    forall i, j | 0 <= i < j < |h|
      ensures h[i] != h[j]
    {
      assert s[i] != s[j] && s[i] % 2 == s[j] % 2;
    }
    assert Bounded(h, n);
    DistinctBounded(h, n);
  }

  /** Of an even number of buckets none with more than half of the keys can be placed. */
  lemma CrowdedNeverWorks<V>(keys: seq<string>, values: seq<Option<V>>, g: nat, d: nat)
    requires 0 < |keys| == |values| && |keys| % 2 == 0 && 0 < d && |Bucket(keys, g)| > |keys| / 2
    ensures !Works(values, Bucket(keys, g), d)
  {
    hide Slot, Home, Bucket, CharSum;
    var n, bucket := |keys|, Bucket(keys, g);
    if Works(values, bucket, d) {
      var s := SlotsUnder(bucket, |bucket|, d, n) by {
        forall i | 0 <= i < |bucket|
          ensures 0 <= Slot(d, bucket[i], n) < n
        {
          SlotInside(d, bucket[i], n);
        }
      }
      forall i | 0 <= i < |bucket|
        ensures s[i] % 2 == (d + g + 1) % 2
      {
        var k := OfBucket(keys, g, i);
        SlotParity(d, bucket[i], n);
        assert s[i] == Slot(d, bucket[i], n);
      }
      HalfAsMany(s, n / 2);
    }
  }

  /** So the source then tries displacements for ever. */
  lemma CrowdedNeverEnds<V>(dict: Dict<V>, keys: seq<string>, limit: nat, g: nat)
    requires 0 < |keys| && |keys| % 2 == 0 && InDict(dict, keys) && g < |keys| && |Bucket(keys, g)| > |keys| / 2
    ensures Construct(dict, keys, limit).None?
  {
    hide Bucket, Order, Works;
    OrderFacts(keys);
    DistinctCovers(Order(keys), |keys|, g);
    var p :| 0 <= p < |Order(keys)| && Order(keys)[p] == g;
    assert |Bucket(keys, Order(keys)[0])| >= |Bucket(keys, Order(keys)[p])|;
    forall d: nat | 0 < d
      ensures !Works(StartTable<V>(|keys|).values, Bucket(keys, Order(keys)[0]), d)
    {
      CrowdedNeverWorks(keys, StartTable<V>(|keys|).values, Order(keys)[0], d);
    }
  }

  /** Two keys get tables exactly if the sums of their chars are not both even or both odd. */
  lemma TwoKeys<V>(dict: Dict<V>, keys: seq<string>, limit: nat)
    requires |keys| == 2 && InDict(dict, keys)
    ensures Construct(dict, keys, limit).Some? <==> CharSum(keys[0]) % 2 != CharSum(keys[1]) % 2
  {
    hide Bucket, Construct, Hash, CharSum;
    HashParity(0, keys[0]);
    HashParity(0, keys[1]);
    if CharSum(keys[0]) % 2 != CharSum(keys[1]) % 2 {
      OwnHomesBuilt(dict, keys, limit);
    } else {
      BothHome(keys);
      CrowdedNeverEnds(dict, keys, limit, Home(keys[0], 2));
    }
  }

  lemma WhichDictionaries<V>(dict: Dict<V>, keys: seq<string>, limit: nat)
    requires 0 < |keys| && InDict(dict, keys)
    ensures OwnHomes(keys) ==> Construct(dict, keys, limit).Some? && BlanksAlone(dict, keys)
    ensures |keys| % 2 == 0 && (exists g: nat :: g < |keys| && |Bucket(keys, g)| > |keys| / 2) ==>
      Construct(dict, keys, limit).None?
    ensures |keys| == 2 ==>
      (Construct(dict, keys, limit).Some? <==> CharSum(keys[0]) % 2 != CharSum(keys[1]) % 2)
  {
    hide Bucket, Construct, CharSum, OwnHomes, BlanksAlone;
    if OwnHomes(keys) {
      OwnHomesBuilt(dict, keys, limit);
    }
    if g: nat :| |keys| % 2 == 0 && g < |keys| && |Bucket(keys, g)| > |keys| / 2 {
      CrowdedNeverEnds(dict, keys, limit, g);
    }
    if |keys| == 2 {
      TwoKeys(dict, keys, limit);
    }
  }

  lemma BothHome(keys: seq<string>)
    requires |keys| == 2 && Home(keys[0], 2) == Home(keys[1], 2)
    ensures |Bucket(keys, Home(keys[0], 2))| == 2
  {
    hide Group, Home;
    var s := KeyBuckets(keys, 2);
    var g := Home(keys[0], 2);
    GroupNone<string>(g);
    assert s == [] + [s[0]] + [s[1]] && s[0].group == s[1].group == g;
    GroupAppend([], s[0], g);
    GroupAppend([] + [s[0]], s[1], g);
  }

  // ---- the methods --------------------------------------------------------------------------------------------

  /** Step 1: the buckets. */
  method MakeBuckets(keys: seq<string>) returns (buckets: Buckets<string>)
    requires 0 < |keys|
    ensures fresh(buckets) && fresh(buckets.values) && buckets.values.Length == |keys|
    ensures buckets.Holds(KeyBuckets(keys, |keys|))
  {
    hide Buckets.Holds, Home;
    ghost var s := KeyBuckets(keys, |keys|);
    buckets := new Buckets<string>(|keys|);
    for i := 0 to |keys|
      invariant buckets.Holds(s[..i])
    {
      assert s[..i + 1] == s[..i] + [Keyed(keys[i], Home(keys[i], |keys|))];
      buckets.Insert(Home(keys[i], |keys|), keys[i], s[..i]);
    }
    assert s[..|keys|] == s;
  }

  lemma HoldsBucket(buckets: Buckets<string>, keys: seq<string>, g: nat)
    requires 0 < |keys| && buckets.Holds(KeyBuckets(keys, |keys|)) && g < buckets.values.Length
    ensures buckets.values[g] == Bucket(keys, g)
  {
  }

  lemma LargeNext<V>(dict: Dict<V>, keys: seq<string>, t: Table<V>, b: nat, limit: nat)
    requires t.Ok(|keys|) && InDict(dict, keys) && b < |keys| == |Order(keys)|
    ensures Order(keys)[b] < |keys|
    ensures |Bucket(keys, Order(keys)[b])| <= 1 ==> Large(dict, keys, t, b, limit) == Some((t, b))
    ensures |Bucket(keys, Order(keys)[b])| > 1 ==>
      var d := FirstWorking(t.values, Bucket(keys, Order(keys)[b]), 1, limit);
      && (d.Some? ==> SlotsFit(Bucket(keys, Order(keys)[b]), d.value, |keys|))
      && Large(dict, keys, t, b, limit) ==
         if d.None? then None else
           Large(dict, keys, WithBucket(dict, keys, t, Order(keys)[b], d.value), b + 1, limit)
  {
    hide Bucket, Order, WithBucket, Works, SlotsFit;
    OrderFacts(keys);
    var d := FirstWorking(t.values, Bucket(keys, Order(keys)[b]), 1, limit);
    if d.Some? {
      WorksFit(t.values, Bucket(keys, Order(keys)[b]), d.value);
    }
  }

  /** Step 2: the buckets of several keys. It fails if some bucket finds no displacement up to limit. */
  method PlaceLarge<V>(dict: Dict<V>, ghost keys: seq<string>, buckets: Buckets<string>, order: seq<nat>,
                       G: array<int>, values: array<Option<V>>, limit: nat)
    returns (ok: bool, b: nat)
    requires 0 < |keys| == buckets.values.Length == G.Length == values.Length && InDict(dict, keys)
    requires buckets.Holds(KeyBuckets(keys, |keys|)) && order == Order(keys)
    modifies G, values
    ensures Large(dict, keys, Table(old(G[..]), old(values[..])), 0, limit) ==
      if ok then Some((Table(G[..], values[..]), b)) else None
  {
    hide Bucket, Order, Buckets.Holds, Large, WithBucket, Works, FirstWorking, SlotsFit, LargeBefore, Home;
    OrderFacts(keys);
    ghost var r := Large(dict, keys, Table(G[..], values[..]), 0, limit);
    b := 0;
    NoneBefore(keys);
    HoldsBucket(buckets, keys, order[0]);
    LargeNext(dict, keys, Table(G[..], values[..]), b, limit);
    while |buckets.values[order[b]]| > 1
      invariant b < |order| && order[b] < |keys| && LargeBefore(keys, b)
      invariant buckets.values[order[b]] == Bucket(keys, order[b])
      invariant r == Large(dict, keys, Table(G[..], values[..]), b, limit)
      decreases |order| - b
    {
      ghost var t := Table(G[..], values[..]);
      LargeNext(dict, keys, t, b, limit);
      var bucket := buckets.values[order[b]];
      BucketInDict(dict, keys, order[b]);
      var d := FindDisplacement(values, bucket, limit);
      if d.None? {
        return false, b;
      }
      G[Home(bucket[0], G.Length)] := d.value;
      WriteBucket(dict, values, bucket, d.value);
      assert Table(G[..], values[..]) == WithBucket(dict, keys, t, order[b], d.value) by {
        WithBucketIs(dict, keys, t, order[b], d.value);
      }
      OneBefore(keys, b);
      b := b + 1;
      SomeSmall(keys, b);
      HoldsBucket(buckets, keys, order[b]);
    }
    LargeNext(dict, keys, Table(G[..], values[..]), b, limit);
    return true, b;
  }

  lemma NoneBefore(keys: seq<string>)
    requires 0 < |keys|
    ensures LargeBefore(keys, 0)
  {
  }

  lemma OneBefore(keys: seq<string>, b: nat)
    requires 0 < |keys| && b < |Order(keys)| && LargeBefore(keys, b)
    requires Order(keys)[b] < |keys| && |Bucket(keys, Order(keys)[b])| >= 2
    ensures LargeBefore(keys, b + 1)
  {
    hide Order, Bucket;
  }

  lemma WithBucketIs<V>(dict: Dict<V>, keys: seq<string>, t: Table<V>, g: nat, d: int)
    requires t.Ok(|keys|) && g < |keys| && InDict(dict, keys) && SlotsFit(Bucket(keys, g), d, |keys|)
    ensures InDict(dict, Bucket(keys, g))
    ensures WithBucket(dict, keys, t, g, d)
      == Table(t.G[g := d], Written(dict, t.values, Bucket(keys, g), d, |Bucket(keys, g)|))
  {
    hide Bucket, Written, SlotsFit;
    BucketInDict(dict, keys, g);
  }

  lemma WithSingleIs<V>(dict: Dict<V>, keys: seq<string>, t: Table<V>, g: nat, slot: int)
    requires t.Ok(|keys|) && InDict(dict, keys) && g < |keys| && |Bucket(keys, g)| == 1 && 0 <= slot < |keys|
    ensures Bucket(keys, g)[0] in dict && Home(Bucket(keys, g)[0], |keys|) == g
    ensures WithSingle(dict, keys, t, g, slot)
      == Table(t.G[g := -slot - 1], t.values[slot := dict[Bucket(keys, g)[0]]])
  {
    hide Bucket, Slot, Home;
    var bucket := Bucket(keys, g);
    BucketInDict(dict, keys, g);
    SingleFits(bucket, slot, |keys|);
    assert Written(dict, t.values, bucket, -slot - 1, 0) == t.values;
  }

  lemma SinglesNext<V>(dict: Dict<V>, keys: seq<string>, t: Table<V>, b: nat, free: seq<nat>)
    requires t.Ok(|keys|) && InDict(dict, keys) && Slots(free, |keys|) && b < |keys| == |Order(keys)|
    ensures Order(keys)[b] < |keys|
    ensures |Bucket(keys, Order(keys)[b])| != 1 ==> Singles(dict, keys, t, b, free) == (t, free)
    ensures |Bucket(keys, Order(keys)[b])| == 1 && free != [] ==>
      var t' := WithSingle(dict, keys, t, Order(keys)[b], free[|free| - 1]);
      Singles(dict, keys, t, b, free) == Singles(dict, keys, t', b + 1, free[..|free| - 1])
  {
    hide Bucket, Order, WithSingle;
    OrderFacts(keys);
  }

  /** Step 3: every bucket of a single key takes the last slot of the free list, which never runs out. */
  method PlaceSingles<V>(dict: Dict<V>, ghost keys: seq<string>, buckets: Buckets<string>, order: seq<nat>,
                         G: array<int>, values: array<Option<V>>, first: nat)
    returns (free: seq<nat>)
    requires 0 < |keys| == buckets.values.Length == G.Length == values.Length && InDict(dict, keys)
    requires buckets.Holds(KeyBuckets(keys, |keys|)) && order == Order(keys) && first < |Order(keys)|
    requires SmallFrom(keys, first) && Sound(dict, keys, Table(G[..], values[..]), Prefix(Order(keys), first))
    modifies G, values
    ensures (Table(G[..], values[..]), free) == StepThree(dict, keys, Table(old(G[..]), old(values[..])), first)
  {
    hide Bucket, Order, Buckets.Holds, Singles, Sound, Prefix, KeysIn, Home, Slots, InDict, StepThree, SmallFrom;
    OrderFacts(keys);
    SoundShape(dict, keys, Table(G[..], values[..]), Prefix(order, first));
    StepThreeStarts(dict, keys, Table(G[..], values[..]), first);
    free := CollectFree(values);
    ghost var r := StepThree(dict, keys, Table(G[..], values[..]), first);
    var b := first;
    while b < |order|
      invariant first <= b <= |order| && Slots(free, |keys|)
      invariant |keys| <= |free| + KeysIn(keys, Prefix(order, b))
      invariant r == Singles(dict, keys, Table(G[..], values[..]), b, free)
      decreases |order| - b
    {
      ghost var t := Table(G[..], values[..]);
      HoldsBucket(buckets, keys, order[b]);
      var bucket := buckets.values[order[b]];
      if |bucket| == 0 {
        SinglesNext(dict, keys, t, b, free);
        return;
      }
      SingleNext(dict, keys, t, b, free) by { SmallAt(keys, first, b); }
      var slot: int := free[|free| - 1];
      free := free[..|free| - 1];
      G[Home(bucket[0], G.Length)] := -slot - 1;
      values[slot] := dict[bucket[0]];
      b := b + 1;
    }
    SinglesEnd(dict, keys, Table(G[..], values[..]), b, free);
  }

  lemma SmallAt(keys: seq<string>, first: nat, b: nat)
    requires 0 < |keys| && SmallFrom(keys, first) && first <= b < |Order(keys)|
    ensures Order(keys)[b] < |keys| && |Bucket(keys, Order(keys)[b])| <= 1
  {
  }

  lemma StepThreeStarts<V>(dict: Dict<V>, keys: seq<string>, t: Table<V>, b: nat)
    requires t.Ok(|keys|) && InDict(dict, keys)
    ensures Slots(FreeSlots(t.values, |keys|), |keys|)
    ensures StepThree(dict, keys, t, b) == Singles(dict, keys, t, b, FreeSlots(t.values, |keys|))
  {
    FreeSlotsInside(t.values);
  }

  /** One turn of the loop: there is a slot to pop, and what it does to the tables. */
  lemma SingleNext<V>(dict: Dict<V>, keys: seq<string>, t: Table<V>, b: nat, free: seq<nat>)
    requires t.Ok(|keys|) && InDict(dict, keys) && Slots(free, |keys|) && b < |keys| == |Order(keys)|
    requires |keys| <= |free| + KeysIn(keys, Prefix(Order(keys), b))
    requires Order(keys)[b] < |keys| ==> |Bucket(keys, Order(keys)[b])| == 1
    ensures Order(keys)[b] < |keys| && free != [] && free[|free| - 1] < |keys| && Slots(free[..|free| - 1], |keys|)
    ensures Bucket(keys, Order(keys)[b])[0] in dict && Home(Bucket(keys, Order(keys)[b])[0], |keys|) == Order(keys)[b]
    ensures |keys| <= |free| - 1 + KeysIn(keys, Prefix(Order(keys), b + 1))
    ensures
      var g, slot: int := Order(keys)[b], free[|free| - 1];
      var t' := Table(t.G[g := -slot - 1], t.values[slot := dict[Bucket(keys, g)[0]]]);
      Singles(dict, keys, t, b, free) == Singles(dict, keys, t', b + 1, free[..|free| - 1])
  {
    hide Bucket, Order, Singles, WithSingle, KeysIn, Home, Prefix;
    OrderFacts(keys);
    PrefixStep(Order(keys), b);
    RoomFor(keys, Prefix(Order(keys), b), Order(keys)[b]);
    SinglesNext(dict, keys, t, b, free);
    WithSingleIs(dict, keys, t, Order(keys)[b], free[|free| - 1]);
  }

  lemma SinglesEnd<V>(dict: Dict<V>, keys: seq<string>, t: Table<V>, b: nat, free: seq<nat>)
    requires t.Ok(|keys|) && InDict(dict, keys) && Slots(free, |keys|) && b >= |keys|
    ensures Singles(dict, keys, t, b, free) == (t, free)
  {
  }

  /**
   CreateMinimalPerfectHash: the tables of Construct. If every key with the value None is alone in its bucket, every
   key of the dictionary is looked up to its value, and the slots of the keys are a bijection onto [0, size).
   */
  method Create<V>(dict: Dict<V>, keys: seq<string>, limit: nat) returns (r: Option<(seq<int>, seq<Option<V>>)>)
    requires 0 < |keys| && Distinct(keys) && Range(keys) == dict.Keys
    ensures InDict(dict, keys)
    ensures Construct(dict, keys, limit) == if r.Some? then Some(Table(r.value.0, r.value.1)) else None
    ensures OwnHomes(keys) ==> r.Some? && BlanksAlone(dict, keys)
    ensures |keys| % 2 == 0 && (exists g: nat :: g < |keys| && |Bucket(keys, g)| > |keys| / 2) ==> r.None?
    ensures |keys| == 2 ==> (r.Some? <==> CharSum(keys[0]) % 2 != CharSum(keys[1]) % 2)
    ensures r.Some? && BlanksAlone(dict, keys) ==>
      var (G, values) := r.value;
      && Perfect(keys, G)
      && forall key :: key in dict ==> KeyRight(dict, Table(G, values), key) && Lookup(G, values, key) == dict[key]
  {
    hide Bucket, Buckets.Holds, Order, Large, StepThree, BlanksAlone, KeyRight, Perfect, Sound, Prefix, AllRight,
      OwnHomes, CharSum;
    KeysInDict(dict, keys);
    WhichDictionaries(dict, keys, limit);
    var size := |keys|;
    var buckets := MakeBuckets(keys);
    var G := new int[size](_ => 0);
    var values := new Option<V>[size](_ => None);
    assert Table(G[..], values[..]) == StartTable<V>(size);
    var order := SortBuckets(buckets, keys);
    var ok, first := PlaceLarge(dict, keys, buckets, order, G, values, limit);
    if !ok {
      return None;
    }
    StartOfSteps(dict, keys, limit, Table(G[..], values[..]), first);
    var free := PlaceSingles(dict, keys, buckets, order, G, values, first);
    if BlanksAlone(dict, keys) {
      BlanksAloneRight(dict, keys, limit);
      AllLookups(dict, keys, G[..], values[..]);
    }
    return Some((G[..], values[..]));
  }

  /** buckets.sort: the largest first, those of equal size in their order. */
  method SortBuckets(buckets: Buckets<string>, ghost keys: seq<string>) returns (order: seq<nat>)
    requires 0 < |keys| == buckets.values.Length && buckets.Holds(KeyBuckets(keys, |keys|))
    ensures order == Order(keys)
  {
    hide Group, Buckets.Holds, ByDecreasingSize;
    var all: seq<nat> := [];
    for b := 0 to buckets.values.Length
      invariant |all| == b && forall k :: 0 <= k < b ==> all[k] == |buckets.values[k]|
    {
      all := all + [|buckets.values[b]|];
    }
    SizesHeld(buckets, keys);
    assert all == GroupSizes(KeyBuckets(keys, |keys|), |keys|);
    var sorted := IndexesBySize(all, buckets.maxSize);
    order := sorted[..];
  }

  lemma SizesHeld(buckets: Buckets<string>, keys: seq<string>)
    requires 0 < |keys| == buckets.values.Length && buckets.Holds(KeyBuckets(keys, |keys|))
    ensures forall g: nat :: g < |keys| ==>
      buckets.values[g] == Group(KeyBuckets(keys, |keys|), g) && |buckets.values[g]| <= buckets.maxSize
    ensures buckets.maxSize > 0 ==>
      exists g :: 0 <= g < buckets.values.Length && |buckets.values[g]| == buckets.maxSize
  {
  }

  lemma KeysInDict<V>(dict: Dict<V>, keys: seq<string>)
    requires Range(keys) == dict.Keys
    ensures InDict(dict, keys) && forall key :: key in dict ==> key in keys
  {
    forall i | 0 <= i < |keys|
      ensures keys[i] in dict
    {
      assert keys[i] in Range(keys);
    }
    forall key | key in dict
      ensures key in keys
    {
      assert key in dict.Keys;
    }
  }

  lemma AllLookups<V>(dict: Dict<V>, keys: seq<string>, G: seq<int>, values: seq<Option<V>>)
    requires 0 < |G| == |values| == |keys| && Range(keys) == dict.Keys && AllRight(dict, keys, Table(G, values))
    ensures forall key :: key in dict ==>
      KeyRight(dict, Table(G, values), key) && Lookup(G, values, key) == dict[key]
  {
    hide Slot, Home;
    KeysInDict(dict, keys);
    forall key | key in dict
      ensures KeyRight(dict, Table(G, values), key)
    {
      var i :| 0 <= i < |keys| && keys[i] == key;
    }
  }

  // ---- a key whose value is None ----------------------------------------------------------------------------

  const ZERO := "\0"
  const ZEROS := "\0\0"

  /** The key of one zero has the value None; it shares a bucket with the key of two. */
  function BlankDict(): Dict<int> {
    map["" := Some(3), ZERO := None, ZEROS := Some(5)]
  }

  lemma ZeroHashes(d: nat)
    requires 0 < d < TWO32
    ensures Hash(d, "") == d && Hash(d, ZERO) == d * FNV_PRIME % TWO32
    ensures Hash(d, ZEROS) == d * FNV_PRIME % TWO32 * FNV_PRIME % TWO32
  {
    XorZero(d * FNV_PRIME);
    XorZero(d * FNV_PRIME % TWO32 * FNV_PRIME);
    assert ZERO[1..] == "" && ZEROS[1..] == ZERO;
  }

  lemma {:induction false} XorZero(a: nat)
    ensures Xor(a, 0) == a
  {
    if a > 0 {
      XorZero(a / 2);
    }
  }

  function BlankKeys(): seq<string> {
    ["", ZERO, ZEROS]
  }

  lemma PrimePowers()
    ensures FNV_PRIME * FNV_PRIME % TWO32 == 637696617 && 637696617 * FNV_PRIME % TWO32 == 1055306571
    ensures Mod(FNV_PRIME, 3) == 2 && Mod(637696617, 3) == 0 && Mod(1055306571, 3) == 0
  {
  }

  lemma BlankHomes()
    ensures Home("", 3) == 2 && Home(ZERO, 3) == Home(ZEROS, 3) == 0
    ensures Slot(1, ZERO, 3) == 2 && Slot(1, ZEROS, 3) == 0
  {
    hide Hash, Mod;
    PrimePowers();
    ZeroHashes(FNV_PRIME);
    ZeroHashes(1);
    HashFirst("");
    HashFirst(ZERO);
    HashFirst(ZEROS);
    assert Hash(0, ZERO) == 637696617 && Hash(0, ZEROS) == 1055306571;
    assert Hash(1, ZERO) == FNV_PRIME && Hash(1, ZEROS) == 637696617;
  }

  /** The displacement 0 stands for the prime. */
  lemma HashFirst(key: string)
    ensures Hash(0, key) == Hash(FNV_PRIME, key)
  {
  }

  lemma BlankBuckets()
    ensures Bucket(BlankKeys(), 0) == [ZERO, ZEROS] && Bucket(BlankKeys(), 1) == [] && Bucket(BlankKeys(), 2) == [""]
  {
    hide Group, Home;
    BlankHomes();
    var s := KeyBuckets(BlankKeys(), 3);
    assert s == [Keyed("", 2), Keyed(ZERO, 0), Keyed(ZEROS, 0)];
    assert s[..0] == [] && s[..1] == s[..0] + [s[0]] && s[..2] == s[..1] + [s[1]] && s == s[..2] + [s[2]];
    forall g: nat
      ensures Group(s, g) == if g == 0 then [ZERO, ZEROS] else if g == 2 then [""] else []
    {
      GroupNone<string>(g);
      GroupAppend(s[..0], s[0], g);
      GroupAppend(s[..1], s[1], g);
      GroupAppend(s[..2], s[2], g);
    }
  }

  lemma BlankOrder()
    ensures Order(BlankKeys()) == [0, 2, 1]
  {
    hide Bucket, Order;
    OrderFacts(BlankKeys());
    BlankBuckets();
    var order := Order(BlankKeys());
    assert forall i, j :: 0 <= i < j < 3 ==> |Bucket(BlankKeys(), order[j])| <= |Bucket(BlankKeys(), order[i])|;
    assert order[0] != order[1] && order[0] != order[2] && order[1] != order[2];
  }

  /** Step 2 gives the only bucket of several keys the entry 1: the blank key's slot still looks free. */
  lemma BlankLarge()
    ensures InDict(BlankDict(), BlankKeys())
    ensures Large(BlankDict(), BlankKeys(), StartTable(3), 0, 1)
      == Some((Table([1, 0, 0], [Some(5), None, None]), 1))
  {
    hide Bucket, Order, Slot, Large, Home;
    BlankBuckets();
    BlankOrder();
    BlankHomes();
    var t := StartTable<int>(3);
    var bucket := [ZERO, ZEROS];
    assert Works(t.values, bucket, 1);
    assert FirstWorking(t.values, bucket, 1, 1) == Some(1);
    LargeNext(BlankDict(), BlankKeys(), t, 0, 1);
    WithBucketIs(BlankDict(), BlankKeys(), t, 0, 1);
    var v1 := Written(BlankDict(), t.values, bucket, 1, 1);
    assert Written(BlankDict(), t.values, bucket, 1, 0) == t.values;
    assert v1 == t.values[2 := None] == t.values;
    assert Written(BlankDict(), t.values, bucket, 1, 2) == v1[0 := Some(5)] == [Some(5), None, None];
    assert t.G[0 := 1] == [1, 0, 0];
    LargeNext(BlankDict(), BlankKeys(), Table([1, 0, 0], [Some(5), None, None]), 1, 1);
  }

  lemma BlankSingles()
    ensures InDict(BlankDict(), BlankKeys())
    ensures StepThree(BlankDict(), BlankKeys(), Table([1, 0, 0], [Some(5), None, None]), 1)
      == (Table([1, 0, -3], [Some(5), None, Some(3)]), [1])
  {
    hide Bucket, Order, Slot, Home, Singles;
    BlankBuckets();
    BlankOrder();
    BlankHomes();
    var t := Table([1, 0, 0], [Some(5), None, None]);
    assert FreeSlots(t.values, 0) == [] && FreeSlots(t.values, 1) == [] && FreeSlots(t.values, 2) == [1];
    var free := FreeSlots(t.values, 3);
    assert free == [1, 2];
    FreeSlotsInside(t.values);
    SinglesNext(BlankDict(), BlankKeys(), t, 1, free);
    WithSingleIs(BlankDict(), BlankKeys(), t, 2, 2);
    assert t.G[2 := -3] == [1, 0, -3] && t.values[2 := Some(3)] == [Some(5), None, Some(3)];
    assert WithSingle(BlankDict(), BlankKeys(), t, 2, 2) == Table([1, 0, -3], [Some(5), None, Some(3)]);
    assert free[..1] == [1];
    SinglesNext(BlankDict(), BlankKeys(), Table([1, 0, -3], [Some(5), None, Some(3)]), 2, [1]);
  }

  lemma BlankConstruct()
    ensures InDict(BlankDict(), BlankKeys())
    ensures Construct(BlankDict(), BlankKeys(), 1) == Some(Table([1, 0, -3], [Some(5), None, Some(3)]))
  {
    hide Large, StepThree;
    BlankLarge();
    BlankSingles();
  }

  lemma BlankRange()
    ensures Distinct(BlankKeys()) && Range(BlankKeys()) == BlankDict().Keys
  {
    var keys := BlankKeys();
    assert keys[0] in Range(keys) && keys[1] in Range(keys) && keys[2] in Range(keys);
  }

  /** The key whose value is None is looked up to the value of the key that was given its slot. */
  method BlankExample() returns (G: seq<int>, values: seq<Option<int>>)
    ensures |G| == |values| == 3 && 0 <= SlotOf(G, ZERO) < 3
    ensures BlankDict()[ZERO] == None && Lookup(G, values, ZERO) == Some(3) == BlankDict()[""]
  {
    hide Construct, BlanksAlone, Perfect, KeyRight, InDict, Home, Slot;
    BlankConstruct();
    BlankRange();
    var r := Create(BlankDict(), BlankKeys(), 1);
    G, values := r.value.0, r.value.1;
    BlankHomes();
  }
}
