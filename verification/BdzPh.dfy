/** bdz_ph.c: the perfect hash function without ranks, its table packed five values to a byte. */
module BdzPhHash {
  import opened Words
  import opened TwoBit
  import opened Hypergraph
  import opened Peeling
  import opened Assigning
  import opened Mapping

  // ---- five base-3 digits in a byte --------------------------------------------------------------

  function Pow3(n: nat): (p: nat)
    ensures p >= 1
  {
    if n == 0 then 1 else 3 * Pow3(n - 1)
  }

  /** lookup_table: the k-th base-3 digit of a byte. */
  function Digit(b: nat, k: nat): (d: nat)
    ensures d < 3
  {
    if k == 0 then b % 3 else Digit(b / 3, k - 1)
  }

  ghost predicate Ternary(s: seq<nat>) {
    forall i :: 0 <= i < |s| ==> s[i] < 3
  }

  ghost function Pack(s: seq<nat>): nat {
    if s == [] then 0 else s[0] + 3 * Pack(s[1..])
  }

  lemma {:induction false} PackAppend(s: seq<nat>, d: nat)
    ensures Pack(s + [d]) == Pack(s) + d * Pow3(|s|)
  {
    if s == [] {
      assert Pack([d]) == d + 3 * Pack([]);
    } else {
      assert (s + [d])[1..] == s[1..] + [d];
      PackAppend(s[1..], d);
      assert 3 * (d * Pow3(|s| - 1)) == d * Pow3(|s|);
    }
  }

  lemma {:induction false} PackBound(s: seq<nat>)
    requires Ternary(s)
    ensures Pack(s) < Pow3(|s|)
  {
    if s != [] {
      PackBound(s[1..]);
    }
  }

  /** Five digits need no more than 242. */
  lemma PackByte(s: seq<nat>)
    requires Ternary(s) && |s| <= 5
    ensures Pack(s) <= 242
  {
    PackBound(s);
    assert Pow3(0) == 1 && Pow3(1) == 3 && Pow3(2) == 9 && Pow3(3) == 27 && Pow3(4) == 81 && Pow3(5) == 243;
  }

  lemma {:induction false} PackDigit(s: seq<nat>, k: nat)
    requires Ternary(s) && k < |s|
    ensures Digit(Pack(s), k) == s[k]
  {
    assert Pack(s) / 3 == Pack(s[1..]) && Pack(s) % 3 == s[0];
    if k > 0 {
      PackDigit(s[1..], k - 1);
    }
  }

  /** What byte j holds after i values were packed. */
  ghost function Group(val: seq<nat>, i: nat, j: nat): seq<nat>
    requires i <= |val|
  {
    if i <= 5 * j then [] else if i <= 5 * j + 5 then val[5 * j..i] else val[5 * j..5 * j + 5]
  }

  lemma GroupStep(val: seq<nat>, i: nat, j: nat)
    requires i < |val|
    ensures Group(val, i + 1, j) == if j == i / 5 then Group(val, i, j) + [val[i]] else Group(val, i, j)
    ensures j == i / 5 ==> |Group(val, i, j)| == i % 5
  {
  }

  /** pow3_table */
  const POW3_TABLE: seq<nat> := [1, 3, 9, 27, 81]

  lemma Pow3Table(k: nat)
    requires k < 5
    ensures POW3_TABLE[k] == Pow3(k)
  {
    assert Pow3(0) == 1 && Pow3(1) == 3 && Pow3(2) == 9 && Pow3(3) == 27 && Pow3(4) == 81;
  }

  ghost predicate Packed(val: seq<nat>, i: nat, packed: seq<uint8>) {
    i <= |val| && forall j :: 0 <= j < |packed| ==> packed[j] == Pack(Group(val, i, j))
  }

  lemma PackStep(val: seq<nat>, i: nat, packed: seq<uint8>, packed': seq<uint8>, x: nat)
    requires Ternary(val) && i < |val| && i / 5 < |packed| && Packed(val, i, packed) && x == val[i]
    requires packed' == packed[i / 5 := (packed[i / 5] + x * POW3_TABLE[i % 5]) % 256]
    ensures Packed(val, i + 1, packed')
  {
    hide Pack, Group;
    GroupStep(val, i, i / 5);
    GroupTernary(val, i + 1, i / 5);
    PackAppend(Group(val, i, i / 5), x);
    Pow3Table(i % 5);
    PackByte(Group(val, i + 1, i / 5));
    forall j | 0 <= j < |packed'|
      ensures packed'[j] == Pack(Group(val, i + 1, j))
    {
      GroupStep(val, i, j);
    }
  }

  lemma GroupTernary(val: seq<nat>, i: nat, j: nat)
    requires Ternary(val) && i <= |val|
    ensures Ternary(Group(val, i, j)) && |Group(val, i, j)| <= 5
  {
  }

  /** Every value can be read back from the packed table. */
  ghost predicate Decodes(packed: seq<uint8>, val: seq<nat>, n: nat) {
    |packed| == (n + 4) / 5 && n <= |val| && forall v: nat :: v < n ==> DecodesAt(packed, val, v)
  }

  ghost predicate DecodesAt(packed: seq<uint8>, val: seq<nat>, v: nat) {
    v / 5 < |packed| && v < |val| && Digit(packed[v / 5], v % 5) == val[v]
  }

  lemma PackedDecodes(val: seq<nat>, n: nat, packed: seq<uint8>)
    requires Ternary(val) && Packed(val, n, packed) && |packed| == (n + 4) / 5
    ensures Decodes(packed, val, n)
  {
    forall v: nat | v < n
      ensures DecodesAt(packed, val, v)
    {
      var s := Group(val, n, v / 5);
      GroupTernary(val, n, v / 5);
      assert v % 5 < |s| && s[v % 5] == val[v];
      PackDigit(s, v % 5);
    }
  }

  /** bdz_ph_optimization */
  method Optimize(g: seq<uint8>, n: uint32) returns (newG: array<uint8>)
    requires |g| == (n + 3) / 4
    ensures fresh(newG) && newG.Length == (n + 4) / 5
    ensures Ternary(Values(g)) ==> Decodes(newG[..], Values(g), n)
  {
    hide Values, GetValue, Packed, Ternary;
    newG := new uint8[(n + 4) / 5](_ => 0);
    PackedNone(Values(g), newG[..]);
    for i := 0 to n
      invariant Ternary(Values(g)) ==> Packed(Values(g), i, newG[..])
    {
      ghost var packed := newG[..];
      var idx := i / 5;
      var byte := newG[idx];
      var value := GetValue(g, i);
      ValueAt(g, i);
      Power3Index(i);
      byte := (byte + value * POW3_TABLE[i % 5]) % 256;
      newG[idx] := byte;
      if Ternary(Values(g)) {
        PackStep(Values(g), i, packed, newG[..], value);
      }
    }
    if Ternary(Values(g)) {
      PackedDecodes(Values(g), n, newG[..]);
    }
  }

  lemma Power3Index(i: nat)
    ensures i % 5 < |POW3_TABLE|
  {
  }

  lemma PackedNone(val: seq<nat>, packed: seq<uint8>)
    requires forall j :: 0 <= j < |packed| ==> packed[j] == 0
    ensures Packed(val, 0, packed)
  {
  }

  // ---- the finished function ----------------------------------------------------------------------

  /** bdz_ph_data_t */
  datatype BdzPh = BdzPh(n: uint32, m: uint32, r: uint32, seed: uint32, g: seq<uint8>) {
    predicate Valid() {
      0 < r && n == 3 * r && |g| == (n + 4) / 5
    }

    /** bdz_ph_search */
    function Search<Key>(hash: VectorHash<Key>, key: Key): uint32
      requires Valid()
    {
      var h := KeyTriple(hash, seed, r, key);
      h.Get((Digit(g[h.v0 / 5], h.v0 % 5) + Digit(g[h.v1 / 5], h.v1 % 5) + Digit(g[h.v2 / 5], h.v2 % 5)) % 3)
    }
  }

  lemma SearchIsChosen<Key>(f: BdzPh, hash: VectorHash<Key>, key: Key, val: seq<nat>)
    requires f.Valid() && Decodes(f.g, val, f.n)
    ensures f.Search(hash, key) < f.n <= |val|
    ensures f.Search(hash, key) == Chosen(val, KeyTriple(hash, f.seed, f.r, key))
  {
    hide Digit;
    var h := KeyTriple(hash, f.seed, f.r, key);
    assert DecodesAt(f.g, val, h.v0) && DecodesAt(f.g, val, h.v1) && DecodesAt(f.g, val, h.v2);
  }

  /** No two keys are sent to the same place, and every place is below n. */
  ghost predicate Perfect<Key>(f: BdzPh, hash: VectorHash<Key>, keys: seq<Key>)
    requires f.Valid()
  {
    && (forall i :: 0 <= i < |keys| ==> f.Search(hash, keys[i]) < f.n)
    && forall i, j :: 0 <= i < j < |keys| ==> f.Search(hash, keys[i]) != f.Search(hash, keys[j])
  }

  lemma ChosenIsPerfect<Key>(f: BdzPh, hash: VectorHash<Key>, keys: seq<Key>, E: seq<Triple>, val: seq<nat>)
    requires f.Valid() && E == KeyTriples(hash, f.seed, f.r, keys) && AllChosen(E, f.n, val)
    requires Decodes(f.g, val, f.n)
    ensures Perfect(f, hash, keys)
  {
    hide Decodes, Chosen, BdzPh.Search, KeyTriple;
    forall i | 0 <= i < |keys|
      ensures f.Search(hash, keys[i]) < f.n && f.Search(hash, keys[i]) == Chosen(val, E[i])
    {
      SearchIsChosen(f, hash, keys[i], val);
    }
  }

  const ITERATIONS := 100

  /**
   bdz_ph_new: injective into [0, n). last is the number of the last hypergraph drawn: those before were not peeled,
   and it is peeled exactly if there is a result, each under the condition that its degrees fit a byte.
   */
  method New<Key>(keys: seq<Key>, r: uint32, hash: VectorHash<Key>, seeds: seq<uint32>)
    returns (result: Option<BdzPh>, ghost last: nat)
    requires 0 < r && 3 * r + 3 < TWO32 && |keys| < NULL_EDGE && |seeds| == ITERATIONS
    ensures last < ITERATIONS && (result.None? ==> last == ITERATIONS - 1)
    ensures forall t: nat :: t < last && DegreesFit(GraphAt(keys, hash, seeds, r, t)) ==>
      !Peelable(GraphAt(keys, hash, seeds, r, t))
    ensures DegreesFit(GraphAt(keys, hash, seeds, r, last)) ==>
      (result.Some? <==> Peelable(GraphAt(keys, hash, seeds, r, last)))
    ensures |keys| <= 256 ==>
      (result.Some? <==> exists t: nat :: t < 100 && Untangled(keys, hash, seeds[t], r))
    ensures |keys| == 2 ==> (result.Some? <==> exists t: nat, p: nat ::
      t < 100 && p < 3 && hash(seeds[t], keys[0]).Get(p) % r != hash(seeds[t], keys[1]).Get(p) % r)
    ensures result.Some? ==> result.value.Valid() && result.value.m == |keys| && result.value.seed == seeds[last]
    ensures result.Some? && DegreesFit(GraphAt(keys, hash, seeds, r, last)) ==> Perfect(result.value, hash, keys)
  {
    hide Graph3.Valid, DegreesFit, Peelable, PeelOrder, KeyTriples, Untangled, AllChosen, Decodes, Perfect;
    var n: uint32 := 3 * r;
    var G := new Graph3(|keys|, n);
    G.ValidAllocated();
    var queue := new uint32[|keys|];
    var ok: bool, seed: uint32;
    ok, seed, last := MapUntil(G, queue, keys, hash, seeds, r, ITERATIONS);
    if |keys| <= 256 {
      DrawnByWords(keys, hash, seeds, r, last, ok);
    }
    if !ok {
      return None, last;
    }
    var g := Assign0(G, queue);
    var packed := Optimize(g[..], n);
    var f := BdzPh(n, |keys|, r, seed, packed[..]);
    if DegreesFit(G.E) {
      ChosenIsPerfect(f, hash, keys, G.E, Values(g[..]));
    }
    return Some(f), last;
  }
}
