/** examples/epmh.py: what the steps of Hanov's minimal perfect hashing do to its two tables. */
module HanovRuns {
  import opened Words
  import opened Counting
  import opened CountingSort
  import opened Primes
  import opened HanovHash

  /** The bucket of a key. */
  function Home(key: string, size: nat): (b: nat)
    requires 0 < size
    ensures b < size
  {
    Mod(Hash(0, key), size)
  }

  /** Where a key lies when its bucket's entry in G is d. */
  function Slot(d: int, key: string, size: nat): int
    requires 0 < size
  {
    if d < 0 then -d - 1 else Mod(Hash(d, key), size)
  }

  function SlotOf(G: seq<int>, key: string): int
    requires 0 < |G|
  {
    Slot(G[Home(key, |G|)], key, |G|)
  }

  ghost function KeyBuckets(keys: seq<string>, size: nat): (s: seq<Keyed<string>>)
    requires 0 < size
    ensures |s| == |keys| && Groups(s, size)
  {
    seq(|keys|, i requires 0 <= i < |keys| => Keyed(keys[i], Home(keys[i], size)))
  }

  ghost function Bucket(keys: seq<string>, g: nat): seq<string>
    requires 0 < |keys|
  {
    Group(KeyBuckets(keys, |keys|), g)
  }

  lemma InBucket(keys: seq<string>, g: nat, i: nat)
    requires i < |keys| && Home(keys[i], |keys|) == g
    ensures keys[i] in Bucket(keys, g)
  {
    var s := KeyBuckets(keys, |keys|);
    GroupMember(s, g, keys[i]);
    assert s[i] == Keyed(keys[i], g);
  }

  lemma OfBucket(keys: seq<string>, g: nat, k: nat) returns (i: nat)
    requires 0 < |keys| && k < |Bucket(keys, g)|
    ensures i < |keys| && keys[i] == Bucket(keys, g)[k] && Home(keys[i], |keys|) == g
  {
    var s := KeyBuckets(keys, |keys|);
    GroupMember(s, g, Bucket(keys, g)[k]);
    i :| 0 <= i < |s| && s[i] == Keyed(Bucket(keys, g)[k], g);
  }

  // ---- the tables -----------------------------------------------------------------------------------------

  /** A dictionary; None stands for the Python value None, which the source also uses for a free slot. */
  type Dict<V> = map<string, Option<V>>

  datatype Table<V> = Table(G: seq<int>, values: seq<Option<V>>) {
    ghost predicate Ok(n: nat) {
      0 < n == |G| == |values|
    }
  }

  ghost predicate InDict<V>(dict: Dict<V>, keys: seq<string>) {
    forall i :: 0 <= i < |keys| ==> keys[i] in dict
  }

  /** The key is looked up to its dictionary value. */
  ghost predicate KeyRight<V>(dict: Dict<V>, t: Table<V>, key: string)
    requires t.Ok(|t.G|)
  {
    var x := SlotOf(t.G, key);
    key in dict && 0 <= x < |t.values| && t.values[x] == dict[key]
  }

  /** Slot x is the slot of a key of a bucket in D. */
  ghost predicate Owned(keys: seq<string>, G: seq<int>, D: set<nat>, x: int)
    requires 0 < |G|
  {
    exists i :: 0 <= i < |keys| && Home(keys[i], |G|) in D && SlotOf(G, keys[i]) == x
  }

  /** The keys of the buckets in D have different slots. */
  ghost predicate Apart(keys: seq<string>, G: seq<int>, D: set<nat>)
    requires 0 < |G|
  {
    forall i, j :: 0 <= i < j < |keys| && Home(keys[i], |G|) in D && Home(keys[j], |G|) in D ==>
      SlotOf(G, keys[i]) != SlotOf(G, keys[j])
  }

  ghost predicate InTable(keys: seq<string>, G: seq<int>, D: set<nat>)
    requires 0 < |G|
  {
    forall i :: 0 <= i < |keys| && Home(keys[i], |G|) in D ==> 0 <= SlotOf(G, keys[i]) < |G|
  }

  ghost predicate Right<V>(dict: Dict<V>, keys: seq<string>, t: Table<V>, D: set<nat>)
    requires t.Ok(|t.G|)
  {
    forall i :: 0 <= i < |keys| && Home(keys[i], |t.G|) in D ==> KeyRight(dict, t, keys[i])
  }

  ghost function TakenSlots<V>(values: seq<Option<V>>): (b: seq<bool>)
    ensures |b| == |values|
  {
    seq(|values|, x requires 0 <= x < |values| => values[x].Some?)
  }

  ghost function KeysIn(keys: seq<string>, D: set<nat>): nat
    requires 0 < |keys|
  {
    |Gathered(GroupsOf(KeyBuckets(keys, |keys|), |keys|), D)|
  }

  /** The buckets in D are placed; what they look up is right unless two of their keys share a slot. */
  ghost predicate Sound<V>(dict: Dict<V>, keys: seq<string>, t: Table<V>, D: set<nat>) {
    && t.Ok(|keys|) && InTable(keys, t.G, D)
    && (Apart(keys, t.G, D) ==> Right(dict, keys, t, D))
    && CountBefore(TakenSlots(t.values), |t.values|) <= KeysIn(keys, D)
  }

  // ---- writing a bucket ---------------------------------------------------------------------------------

  ghost predicate SlotsFit(bucket: seq<string>, d: int, n: nat)
    requires 0 < n
  {
    && (forall i :: 0 <= i < |bucket| ==> 0 <= Slot(d, bucket[i], n) < n)
    && forall i, j :: 0 <= i < j < |bucket| ==> Slot(d, bucket[i], n) != Slot(d, bucket[j], n)
  }

  /** The dictionary values of the first k keys of a bucket written into their slots. */
  ghost function Written<V>(dict: Dict<V>, values: seq<Option<V>>, bucket: seq<string>, d: int, k: nat)
    : (w: seq<Option<V>>)
    requires k <= |bucket| && 0 < |values| && SlotsFit(bucket, d, |values|) && InDict(dict, bucket)
    ensures |w| == |values|
  {
    if k == 0 then values else
      Written(dict, values, bucket, d, k - 1)[Slot(d, bucket[k - 1], |values|) := dict[bucket[k - 1]]]
  }

  lemma {:induction false} WrittenAt<V>(dict: Dict<V>, values: seq<Option<V>>, bucket: seq<string>, d: int, k: nat)
    requires k <= |bucket| && 0 < |values| && SlotsFit(bucket, d, |values|) && InDict(dict, bucket)
    ensures var w := Written(dict, values, bucket, d, k);
      forall i :: 0 <= i < k ==> w[Slot(d, bucket[i], |values|)] == dict[bucket[i]]
    ensures var w := Written(dict, values, bucket, d, k);
      forall x :: 0 <= x < |w| && (forall i :: 0 <= i < k ==> Slot(d, bucket[i], |values|) != x) ==> w[x] == values[x]
  {
    hide Slot;
    if k > 0 {
      WrittenAt(dict, values, bucket, d, k - 1);
    }
  }

  lemma {:induction false} CountUpdate(b: seq<bool>, x: nat, y: bool, v: nat)
    requires x < |b| && v <= |b|
    ensures CountBefore(b[x := y], v) <= CountBefore(b, v) + 1
  {
    if v > 0 {
      CountUpdate(b, x, y, v - 1);
      if x == v - 1 {
        CountSame(b, b[x := y], v - 1);
      }
    }
  }

  lemma {:induction false} CountSame(a: seq<bool>, b: seq<bool>, v: nat)
    requires v <= |a| == |b| && forall i :: 0 <= i < v ==> a[i] == b[i]
    ensures CountBefore(a, v) == CountBefore(b, v)
  {
    if v > 0 {
      CountSame(a, b, v - 1);
    }
  }

  lemma {:induction false} WrittenCount<V>(dict: Dict<V>, values: seq<Option<V>>, bucket: seq<string>, d: int, k: nat)
    requires k <= |bucket| && 0 < |values| && SlotsFit(bucket, d, |values|) && InDict(dict, bucket)
    ensures CountBefore(TakenSlots(Written(dict, values, bucket, d, k)), |values|)
      <= CountBefore(TakenSlots(values), |values|) + k
  {
    hide Slot;
    if k > 0 {
      WrittenCount(dict, values, bucket, d, k - 1);
      var w, x := Written(dict, values, bucket, d, k - 1), Slot(d, bucket[k - 1], |values|);
      var v := dict[bucket[k - 1]];
      assert TakenSlots(w[x := v]) == TakenSlots(w)[x := v.Some?];
      CountUpdate(TakenSlots(w), x, v.Some?, |values|);
    }
  }

  lemma OwnedMore(keys: seq<string>, G: seq<int>, D: set<nat>, g: nat, d: int, x: int)
    requires 0 < |keys| == |G| && g < |G| && g !in D
    ensures Owned(keys, G[g := d], D + {g}, x) <==>
      Owned(keys, G, D, x) || exists k :: 0 <= k < |Bucket(keys, g)| && Slot(d, Bucket(keys, g)[k], |G|) == x
  {
    hide Slot, Home, Bucket;
    var G', bucket := G[g := d], Bucket(keys, g);
    if i :| 0 <= i < |keys| && Home(keys[i], |G'|) in D + {g} && SlotOf(G', keys[i]) == x {
      if Home(keys[i], |G|) == g {
        InBucket(keys, g, i);
        var k :| 0 <= k < |bucket| && bucket[k] == keys[i];
      } else {
        assert SlotOf(G, keys[i]) == x;
      }
    }
    if i :| 0 <= i < |keys| && Home(keys[i], |G|) in D && SlotOf(G, keys[i]) == x {
      assert Home(keys[i], |G'|) in D + {g} && SlotOf(G', keys[i]) == x;
    }
    if k :| 0 <= k < |bucket| && Slot(d, bucket[k], |G|) == x {
      var i := OfBucket(keys, g, k);
      assert Home(keys[i], |G'|) in D + {g} && SlotOf(G', keys[i]) == x;
    }
  }

  /** Slots of one more bucket: the keys stay apart exactly if none of its slots has an owner. */
  lemma ApartMore(keys: seq<string>, G: seq<int>, D: set<nat>, g: nat, d: int)
    requires 0 < |keys| == |G| && g < |G| && g !in D && Distinct(keys) && SlotsFit(Bucket(keys, g), d, |G|)
    ensures Apart(keys, G[g := d], D + {g}) <==>
      Apart(keys, G, D)
      && forall k :: 0 <= k < |Bucket(keys, g)| ==> !Owned(keys, G, D, Slot(d, Bucket(keys, g)[k], |G|))
  {
    hide Slot, Home, Bucket;
    var G', bucket, n := G[g := d], Bucket(keys, g), |G|;
    if Apart(keys, G', D + {g}) {
      forall i, j | 0 <= i < j < |keys| && Home(keys[i], n) in D && Home(keys[j], n) in D
        ensures SlotOf(G, keys[i]) != SlotOf(G, keys[j])
      {
        assert SlotOf(G', keys[i]) != SlotOf(G', keys[j]);
      }
      forall k | 0 <= k < |bucket|
        ensures !Owned(keys, G, D, Slot(d, bucket[k], n))
      {
        var j := OfBucket(keys, g, k);
        forall i | 0 <= i < |keys| && Home(keys[i], n) in D
          ensures SlotOf(G, keys[i]) != Slot(d, bucket[k], n)
        {
          assert i != j && SlotOf(G', keys[i]) != SlotOf(G', keys[j]);
        }
      }
    }
    if Apart(keys, G, D) && forall k :: 0 <= k < |bucket| ==> !Owned(keys, G, D, Slot(d, bucket[k], n)) {
      forall i, j | 0 <= i < j < |keys| && Home(keys[i], n) in D + {g} && Home(keys[j], n) in D + {g}
        ensures SlotOf(G', keys[i]) != SlotOf(G', keys[j])
      {
        ApartPair(keys, G, D, g, d, i, j);
      }
    }
  }

  lemma ApartPair(keys: seq<string>, G: seq<int>, D: set<nat>, g: nat, d: int, i: nat, j: nat)
    requires 0 < |keys| == |G| && g < |G| && g !in D && Distinct(keys) && SlotsFit(Bucket(keys, g), d, |G|)
    requires Apart(keys, G, D)
    requires forall k :: 0 <= k < |Bucket(keys, g)| ==> !Owned(keys, G, D, Slot(d, Bucket(keys, g)[k], |G|))
    requires i < j < |keys| && Home(keys[i], |G|) in D + {g} && Home(keys[j], |G|) in D + {g}
    ensures SlotOf(G[g := d], keys[i]) != SlotOf(G[g := d], keys[j])
  {
    hide Slot, Home, Bucket;
    var bucket, n := Bucket(keys, g), |G|;
    if Home(keys[i], n) == g {
      InBucket(keys, g, i);
      var k :| 0 <= k < |bucket| && bucket[k] == keys[i];
      if Home(keys[j], n) == g {
        InBucket(keys, g, j);
        var l :| 0 <= l < |bucket| && bucket[l] == keys[j];
        assert k != l;
      } else {
        assert SlotOf(G, keys[j]) != Slot(d, bucket[k], n);
      }
    } else if Home(keys[j], n) == g {
      InBucket(keys, g, j);
      var l :| 0 <= l < |bucket| && bucket[l] == keys[j];
      assert SlotOf(G, keys[i]) != Slot(d, bucket[l], n);
    } else {
      assert SlotOf(G, keys[i]) != SlotOf(G, keys[j]);
    }
  }

  lemma BucketInDict<V>(dict: Dict<V>, keys: seq<string>, g: nat)
    requires 0 < |keys| && InDict(dict, keys)
    ensures InDict(dict, Bucket(keys, g))
    ensures forall k :: 0 <= k < |Bucket(keys, g)| ==> Home(Bucket(keys, g)[k], |keys|) == g
  {
    hide Bucket;
    forall k | 0 <= k < |Bucket(keys, g)|
      ensures Bucket(keys, g)[k] in dict && Home(Bucket(keys, g)[k], |keys|) == g
    {
      var i := OfBucket(keys, g, k);
      assert keys[i] in dict;
    }
  }

  /** The tables after a bucket is given the entry d and its values are written. */
  ghost function WithBucket<V>(dict: Dict<V>, keys: seq<string>, t: Table<V>, g: nat, d: int): (t': Table<V>)
    requires t.Ok(|keys|) && g < |keys| && InDict(dict, keys) && SlotsFit(Bucket(keys, g), d, |keys|)
    ensures t'.Ok(|keys|)
  {
    BucketInDict(dict, keys, g);
    Table(t.G[g := d], Written(dict, t.values, Bucket(keys, g), d, |Bucket(keys, g)|))
  }

  /** One more bucket is placed. */
  lemma BucketPlaced<V>(dict: Dict<V>, keys: seq<string>, t: Table<V>, D: set<nat>, g: nat, d: int)
    requires Sound(dict, keys, t, D) && InDict(dict, keys) && Distinct(keys)
    requires g < |keys| && g !in D && SlotsFit(Bucket(keys, g), d, |keys|)
    ensures Sound(dict, keys, WithBucket(dict, keys, t, g, d), D + {g})
    ensures KeysIn(keys, D + {g}) == KeysIn(keys, D) + |Bucket(keys, g)| <= |keys|
  {
    hide Slot, Home, Gathered, Bucket, Apart, Owned, Written;
    var t' := WithBucket(dict, keys, t, g, d);
    var bucket := Bucket(keys, g);
    BucketInDict(dict, keys, g);
    RoomFor(keys, D, g);
    WrittenCount(dict, t.values, bucket, d, |bucket|);
    WrittenAt(dict, t.values, bucket, d, |bucket|);
    ApartMore(keys, t.G, D, g, d);
    forall i | 0 <= i < |keys| && Home(keys[i], |keys|) in D + {g}
      ensures 0 <= SlotOf(t'.G, keys[i]) < |keys|
      ensures Apart(keys, t'.G, D + {g}) ==> KeyRight(dict, t', keys[i])
    {
      if Home(keys[i], |keys|) == g {
        InBucket(keys, g, i);
        var k :| 0 <= k < |bucket| && bucket[k] == keys[i];
      } else {
        assert SlotOf(t'.G, keys[i]) == SlotOf(t.G, keys[i]);
        if Apart(keys, t'.G, D + {g}) {
          StaysRight(dict, keys, t, D, g, d, i);
        }
      }
    }
  }

  lemma RoomFor(keys: seq<string>, D: set<nat>, g: nat)
    requires g < |keys| && g !in D
    ensures KeysIn(keys, D + {g}) == KeysIn(keys, D) + |Bucket(keys, g)| <= |keys|
  {
    hide Gathered, Group;
    GatherRoom(KeyBuckets(keys, |keys|), |keys|, D, g);
  }

  /** A key keeps its value when no key of the new bucket has its slot. */
  lemma StaysRight<V>(dict: Dict<V>, keys: seq<string>, t: Table<V>, D: set<nat>, g: nat, d: int, i: nat)
    requires t.Ok(|keys|) && InDict(dict, keys) && g < |keys| && g !in D && SlotsFit(Bucket(keys, g), d, |keys|)
    requires i < |keys| && Home(keys[i], |keys|) in D && KeyRight(dict, t, keys[i])
    requires forall k :: 0 <= k < |Bucket(keys, g)| ==> !Owned(keys, t.G, D, Slot(d, Bucket(keys, g)[k], |keys|))
    ensures KeyRight(dict, WithBucket(dict, keys, t, g, d), keys[i])
  {
    hide Slot, Home, Bucket, Written;
    var bucket := Bucket(keys, g);
    BucketInDict(dict, keys, g);
    WrittenAt(dict, t.values, bucket, d, |bucket|);
    assert SlotOf(t.G[g := d], keys[i]) == SlotOf(t.G, keys[i]);
    forall k | 0 <= k < |bucket|
      ensures Slot(d, bucket[k], |keys|) != SlotOf(t.G, keys[i])
    {
      assert !Owned(keys, t.G, D, Slot(d, bucket[k], |keys|));
    }
  }
}
