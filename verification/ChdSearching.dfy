/** chd_ph_searching: both ways of placing all buckets, the largest first. */
module ChdSearching {
  import opened Arithmetic
  import opened Words
  import opened Counting
  import opened CountingSort
  import opened Primes
  import opened ChdMapping
  import opened ChdOrdering
  import opened ChdPlacing
  import opened ChdRuns

  /** list holds the buckets of size s that are not in D. */
  ghost predicate Rest(ms: seq<MapItem>, n: nat, list: seq<nat>, s: nat, D: set<nat>) {
    Distinct(list) && forall g: nat :: g in list <==> g < n && |Group(ms, g)| == s && g !in D
  }

  /** All larger buckets are in D, and nothing smaller. */
  ghost predicate Down(ms: seq<MapItem>, n: nat, s: nat, D: set<nat>) {
    Larger(ms, n, s) <= D <= set g | 0 <= g < n && |Group(ms, g)| >= s
  }

  lemma RestStart(ms: seq<MapItem>, n: nat, list: seq<nat>, s: nat)
    requires SizeList(ms, n, list, s)
    ensures Rest(ms, n, list, s, Larger(ms, n, s)) && Down(ms, n, s, Larger(ms, n, s))
  {
  }

  lemma RestDone(ms: seq<MapItem>, n: nat, s: nat, D: set<nat>)
    requires Rest(ms, n, [], s, D) && Down(ms, n, s, D) && 0 < s
    ensures D == Larger(ms, n, s - 1)
  {
    hide Group;
    forall g: nat | g < n && |Group(ms, g)| == s
      ensures g in D
    {
      assert g !in [];
    }
  }

  /** Taking one bucket off the list. */
  lemma RestDrop(ms: seq<MapItem>, n: nat, a: seq<nat>, g: nat, b: seq<nat>, s: nat, D: set<nat>)
    requires Rest(ms, n, a + [g] + b, s, D) && Down(ms, n, s, D)
    ensures g < n && g !in D && Rest(ms, n, a + b, s, D + {g}) && Down(ms, n, s, D + {g})
  {
    hide Group;
    var list := a + [g] + b;
    assert list[|a|] == g;
    forall i, j | 0 <= i < j < |a + b|
      ensures (a + b)[i] != (a + b)[j]
    {
      assert (a + b)[i] == list[if i < |a| then i else i + 1];
      assert (a + b)[j] == list[if j < |a| then j else j + 1];
    }
    forall i | 0 <= i < |a + b|
      ensures (a + b)[i] != g
    {
      assert (a + b)[i] == list[if i < |a| then i else i + 1];
    }
    assert g in list;
    assert forall h :: h in list <==> h in a + b || h == g;
  }

  lemma LargerNone(ms: seq<MapItem>, n: nat, max: nat)
    requires forall g: nat :: g < n ==> |Group(ms, g)| <= max
    ensures Larger(ms, n, max) == {}
  {
  }

  /** Nothing is placed yet. */
  lemma PlacedNone(ms: seq<MapItem>, limit: nat, disp: seq<uint32>, loads: seq<nat>)
    requires 0 < |loads| && (forall g :: 0 <= g < |disp| ==> disp[g] + 1 < TWO32) && Loaded(loads, multiset{}, limit)
    ensures Placed(ms, limit, disp, loads, {})
  {
    GatherNone(Parts(ms, disp, |loads|));
  }

  lemma ListOkAt(ms: seq<MapItem>, n: nat, max: nat, starts: seq<uint32>, lens: seq<uint32>, ids: seq<uint32>,
                 lists: seq<uint32>, items: seq<Item>, s: nat)
    requires Ordered(ms, n, max, starts, lens, ids, lists, items) && 1 <= s <= max
    ensures |starts| == |lens| == max + 1 && |ids| == |lists| == n
    ensures ListOk(ms, n, starts[s], lens[s], ids, lists, items, s)
  {
  }

  /** The setting of a search. */
  ghost predicate Fixed(c: Setting, bins: Bins, ms: seq<MapItem>, maxProbes: uint32)
    reads bins
  {
    c == Setting(ms, bins.keysPerBin, bins.n, maxProbes) && 0 < c.n
  }

  /** Both searches promise the same: on success every bucket is placed. */
  ghost predicate AllPlaced(ms: seq<MapItem>, limit: nat, disp: seq<uint32>, loads: seq<nat>) {
    Placed(ms, limit, disp, loads, Larger(ms, |disp|, 0))
  }

  // ---- one bucket after the other ----------------------------------------------------------------------------

  /** The inner loop of place_buckets1. */
  method PlaceList1(bins: Bins, items: seq<Item>, start: uint32, len: uint32, ids: array<uint32>, lists: array<uint32>,
                    disp: array<uint32>, s: uint32, maxProbes: uint32, ghost ms: seq<MapItem>, ghost c: Setting)
    returns (ok: bool)
    requires bins.Valid() && disp != ids && disp != lists && ids.Length == lists.Length == disp.Length < TWO32 && 0 < s
    requires ListOk(ms, disp.Length, start, len, ids[..], lists[..], items, s) && Fixed(c, bins, ms, maxProbes)
    requires Placed(ms, bins.keysPerBin, disp[..], bins.Loads(), Larger(ms, disp.Length, s))
    modifies bins.counts, bins.bits, disp
    ensures forall g :: 0 <= g < disp.Length ==> disp[g] + 1 < TWO32
    ensures ok ==> Placed(ms, bins.keysPerBin, disp[..], bins.Loads(), Larger(ms, disp.Length, s - 1))
    ensures var r := InTurn(c, ListStart(c, old(disp[..]), s)); ok == r.0 && disp[..] == r.1.disp
  {
    hide Placed, Rest, Down, Larger, SizeList, Group, FitsAt, InTurn, FirstFit, OfSize;
    ghost var n, id, disp0 := disp.Length, ids[..], disp[..];
    ghost var D := Larger(ms, n, s);
    ghost var list: seq<nat> := id[start..start as int + len];
    SizeListIs(ms, n, list, s);
    RestStart(ms, n, list, s);
    var curr := start;
    assert list[0..] == list;
    while curr < start + len
      invariant start <= curr <= start + len
      invariant Rest(ms, n, list[curr - start..], s, D) && Down(ms, n, s, D)
      invariant Placed(ms, bins.keysPerBin, disp[..], bins.Loads(), D)
      invariant InTurn(c, ListStart(c, disp0, s)) == InTurn(c, Progress(disp[..], D, list[curr - start..]))
    {
      ghost var g: nat := list[curr - start];
      assert list[curr - start..] == [] + [g] + list[curr - start + 1..];
      RestDrop(ms, n, [], g, list[curr - start + 1..], s, D);
      assert [] + list[curr - start + 1..] == list[curr - start + 1..];
      assert Entry(ms, id, lists[..], items, s, curr);
      assert ids[curr] == g;
      PlacedSmall(ms, bins.keysPerBin, disp[..], bins.Loads(), D);
      ghost var disp1, left := disp[..], list[curr - start..];
      ok := PlaceBucket(bins, items, ids, lists, disp, curr, s, maxProbes, ms, D);
      NextInTurn(c, disp1, D, left, ok, disp[..]);
      if !ok {
        return false;
      }
      assert left[1..] == list[curr - start + 1..];
      D := D + {g};
      curr := curr + 1;
    }
    assert list[curr - start..] == [];
    RestDone(ms, n, s, D);
    PlacedSmall(ms, bins.keysPerBin, disp[..], bins.Loads(), D);
    InTurnDone(c, disp[..], D);
    return true;
  }

  lemma InTurnDone(c: Setting, disp: seq<uint32>, D: set<nat>)
    requires 0 < c.n
    ensures InTurn(c, Progress(disp, D, [])) == (true, Progress(disp, D, []))
  {
  }

  /** What place_bucket does is the next step of the function. */
  lemma NextInTurn(c: Setting, disp: seq<uint32>, D: set<nat>, left: seq<nat>, ok: bool, disp': seq<uint32>)
    requires 0 < c.n && left != [] && left[0] < |disp| == |disp'|
    requires ok ==> disp' == disp[left[0] := disp'[left[0]]] && Permitted(c.maxProbes, c.n, disp'[left[0]])
    requires ok ==> FitsAt(c.ms, c.limit, disp, c.n, D, left[0], disp'[left[0]])
    requires forall d: nat :: Permitted(c.maxProbes, c.n, d) && (ok ==> d < disp'[left[0]]) ==>
      !FitsAt(c.ms, c.limit, disp, c.n, D, left[0], d)
    ensures InTurn(c, Progress(disp, D, left)) ==
      if ok then InTurn(c, Progress(disp', D + {left[0]}, left[1..])) else (false, Progress(disp, D, left))
  {
    hide FitsAt;
    if ok {
      forall f: nat | f < disp'[left[0]]
        ensures !FitsAt(c.ms, c.limit, disp, c.n, D, left[0], f)
      {
        assert Permitted(c.maxProbes, c.n, f);
      }
      FirstFitIs(c, disp, D, left[0], 0, disp'[left[0]]);
    } else {
      NoFirstFit(c, disp, D, left[0], 0);
    }
  }

  lemma PlacedSmall(ms: seq<MapItem>, limit: nat, disp: seq<uint32>, loads: seq<nat>, D: set<nat>)
    requires Placed(ms, limit, disp, loads, D)
    ensures forall g :: 0 <= g < |disp| ==> disp[g] + 1 < TWO32
  {
  }

  /** place_buckets1 */
  method PlaceBuckets1(bins: Bins, items: seq<Item>, max: uint32, starts: array<uint32>, lens: array<uint32>,
                       ids: array<uint32>, lists: array<uint32>, disp: array<uint32>, maxProbes: uint32,
                       ghost ms: seq<MapItem>)
    returns (ok: bool)
    requires bins.Valid() && disp != ids && disp != lists && disp != starts && disp != lens
    requires ids.Length == disp.Length < TWO32
    requires Ordered(ms, disp.Length, max, starts[..], lens[..], ids[..], lists[..], items)
    requires Loaded(bins.Loads(), multiset{}, bins.keysPerBin)
    requires forall g :: 0 <= g < disp.Length ==> disp[g] + 1 < TWO32
    modifies bins.counts, bins.bits, disp
    ensures forall g :: 0 <= g < disp.Length ==> disp[g] + 1 < TWO32
    ensures ok ==> AllPlaced(ms, bins.keysPerBin, disp[..], bins.Loads())
    ensures
      var r := PlaceLists(Setting(ms, bins.keysPerBin, bins.n, maxProbes), false, old(disp[..]), max);
      ok == r.0 && disp[..] == r.1.disp
  {
    hide Placed, Larger, Ordered, ListOk, Group, Loaded, InTurn, ListStart;
    ghost var n, disp0, c := disp.Length, disp[..], Setting(ms, bins.keysPerBin, bins.n, maxProbes);
    NothingLarger(ms, n, max, starts[..], lens[..], ids[..], lists[..], items);
    PlacedNone(ms, bins.keysPerBin, disp[..], bins.Loads());
    var i: uint32 := max;
    while i > 0
      invariant i <= max && forall g :: 0 <= g < disp.Length ==> disp[g] + 1 < TWO32
      invariant Placed(ms, bins.keysPerBin, disp[..], bins.Loads(), Larger(ms, n, i))
      invariant PlaceLists(c, false, disp0, max) == PlaceLists(c, false, disp[..], i)
    {
      ListOkAt(ms, n, max, starts[..], lens[..], ids[..], lists[..], items, i);
      ok := PlaceList1(bins, items, starts[i], lens[i], ids, lists, disp, i, maxProbes, ms, c);
      if !ok {
        return false;
      }
      i := i - 1;
    }
    NoListsLeft(c, false, disp[..]);
    return true;
  }

  lemma NothingLarger(ms: seq<MapItem>, n: nat, max: nat, starts: seq<uint32>, lens: seq<uint32>, ids: seq<uint32>,
                      lists: seq<uint32>, items: seq<Item>)
    requires Ordered(ms, n, max, starts, lens, ids, lists, items)
    ensures Larger(ms, n, max) == {} && |starts| == |lens| == max + 1 && |ids| == |lists| == n
  {
    LargerNone(ms, n, max);
  }

  // ---- all buckets of a size at once ----------------------------------------------------------------------------

  /** The first kept entries of the list stayed behind, those from j on were not tried yet. */
  ghost predicate Sweep(ms: seq<MapItem>, n: nat, ids: seq<uint32>, lists: seq<uint32>, items: seq<Item>, start: nat,
                        len: nat, kept: nat, j: nat, s: nat, D: set<nat>) {
    && kept <= j <= len && start + len <= |ids| == |lists|
    && Rest(ms, n, ids[start..start + kept] + ids[start + j..start + len], s, D) && Down(ms, n, s, D)
    && (forall p: nat :: start <= p < start + kept ==> Entry(ms, ids, lists, items, s, p))
    && (forall p: nat :: start + j <= p < start + len ==> Entry(ms, ids, lists, items, s, p))
  }

  lemma SweepPlaced(ms: seq<MapItem>, n: nat, ids: seq<uint32>, lists: seq<uint32>, items: seq<Item>, start: nat,
                    len: nat, kept: nat, j: nat, s: nat, D: set<nat>)
    requires Sweep(ms, n, ids, lists, items, start, len, kept, j, s, D) && j < len
    ensures Entry(ms, ids, lists, items, s, start + j) && ids[start + j] < n && ids[start + j] !in D
    ensures Sweep(ms, n, ids, lists, items, start, len, kept, j + 1, s, D + {ids[start + j] as nat})
  {
    hide Rest, Down;
    var a, g, b := ids[start..start + kept], ids[start + j], ids[start + j + 1..start + len];
    assert ids[start + j..start + len] == [g] + b;
    assert a + ([g] + b) == a + [g] + b;
    RestDrop(ms, n, a, g, b, s, D);
  }

  lemma SweepKept(ms: seq<MapItem>, n: nat, ids: seq<uint32>, lists: seq<uint32>, items: seq<Item>, start: nat,
                  len: nat, kept: nat, j: nat, s: nat, D: set<nat>, ids': seq<uint32>, lists': seq<uint32>)
    requires Sweep(ms, n, ids, lists, items, start, len, kept, j, s, D) && j < len
    requires ids' == ids[start + kept := ids[start + j]] && lists' == lists[start + kept := lists[start + j]]
    ensures Sweep(ms, n, ids', lists', items, start, len, kept + 1, j + 1, s, D)
  {
    hide Rest, Down;
    var a, g, b := ids[start..start + kept], ids[start + j], ids[start + j + 1..start + len];
    assert ids[start + j..start + len] == [g] + b;
    assert ids'[start..start + kept + 1] == a + [g];
    assert ids'[start + j + 1..start + len] == b;
    assert (a + [g]) + b == a + ([g] + b);
    assert Entry(ms, ids, lists, items, s, start + j);
    forall p: nat | start <= p < start + kept
      ensures Entry(ms, ids', lists', items, s, p)
    {
      assert Entry(ms, ids, lists, items, s, p);
    }
    forall p: nat | start + j + 1 <= p < start + len
      ensures Entry(ms, ids', lists', items, s, p)
    {
      assert Entry(ms, ids, lists, items, s, p);
    }
  }

  /** Only the entries of this list change. */
  ghost predicate Elsewhere(ids: seq<uint32>, ids': seq<uint32>, start: nat, len: nat) {
    |ids'| == |ids| && forall p :: 0 <= p < |ids| && !(start <= p < start + len) ==> ids'[p] == ids[p]
  }

  /** The entries of the list that stayed behind and those not tried yet. */
  ghost function Kept(ids: seq<uint32>, start: nat, kept: nat): (r: seq<nat>)
    requires start + kept <= |ids|
  {
    ids[start..start + kept]
  }

  /** The sweep so far: the whole one is the kept entries and what becomes of the rest. */
  ghost predicate SweptTo(c: Setting, d: uint32, p: Progress, ids: seq<uint32>, start: nat, len: nat, kept: nat, j: nat,
                          disp: seq<uint32>, D: set<nat>) {
    && 0 < c.n && kept <= j <= len && start + len <= |ids|
    && var q := Swept(c, d, Progress(disp, D, Kept(ids, start + j, len - j)));
       Swept(c, d, p) == q.(left := Kept(ids, start, kept) + q.left)
  }

  lemma SweptStart(c: Setting, d: uint32, ids: seq<uint32>, start: nat, len: nat, disp: seq<uint32>, D: set<nat>)
    requires 0 < c.n && start + len <= |ids|
    ensures SweptTo(c, d, Progress(disp, D, Kept(ids, start, len)), ids, start, len, 0, 0, disp, D)
  {
    hide Swept;
    var q := Swept(c, d, Progress(disp, D, Kept(ids, start + 0, len - 0)));
    assert Kept(ids, start, 0) + q.left == q.left;
    assert q.(left := q.left) == q;
  }

  lemma SplitKept(ids: seq<uint32>, ids': seq<uint32>, start: nat, len: nat, kept: nat, j: nat)
    requires kept <= j < len && start + len <= |ids|
    requires ids' == ids || ids' == ids[start + kept := ids[start + j]]
    ensures |ids'| == |ids|
    ensures Kept(ids, start + j, len - j) == [ids[start + j] as nat] + Kept(ids, start + j + 1, len - j - 1)
    ensures Kept(ids', start + j + 1, len - j - 1) == Kept(ids, start + j + 1, len - j - 1)
    ensures ids' == ids[start + kept := ids[start + j]] ==>
      Kept(ids', start, kept + 1) == Kept(ids, start, kept) + [ids[start + j] as nat]
  {
  }

  lemma SweptNext(c: Setting, d: uint32, p: Progress, ids: seq<uint32>, start: nat, len: nat, kept: nat, j: nat,
                  disp: seq<uint32>, D: set<nat>, ok: bool, ids': seq<uint32>)
    requires SweptTo(c, d, p, ids, start, len, kept, j, disp, D) && j < len && ids[start + j] < |disp|
    requires ok <==> FitsAt(c.ms, c.limit, disp, c.n, D, ids[start + j], d)
    requires ids' == if ok then ids else ids[start + kept := ids[start + j]]
    ensures ok ==>
      SweptTo(c, d, p, ids', start, len, kept, j + 1, disp[ids[start + j] := d], D + {ids[start + j] as nat})
    ensures !ok ==> SweptTo(c, d, p, ids', start, len, kept + 1, j + 1, disp, D)
  {
    hide FitsAt, Kept;
    SplitKept(ids, ids', start, len, kept, j);
    var g: nat, left, rest := ids[start + j], Kept(ids, start + j, len - j), Kept(ids, start + j + 1, len - j - 1);
    assert left[1..] == rest;
    if ok {
    } else {
      var q := Swept(c, d, Progress(disp, D, rest));
      assert (Kept(ids, start, kept) + [g]) + q.left == Kept(ids, start, kept) + ([g] + q.left);
    }
  }

  lemma SweptEnd(c: Setting, d: uint32, p: Progress, ids: seq<uint32>, start: nat, len: nat, kept: nat,
                 disp: seq<uint32>, D: set<nat>)
    requires SweptTo(c, d, p, ids, start, len, kept, len, disp, D)
    ensures Swept(c, d, p) == Progress(disp, D, Kept(ids, start, kept))
  {
    assert Kept(ids, start + len, 0) == [];
    assert Kept(ids, start, kept) + [] == Kept(ids, start, kept);
  }

  /** The for loop of place_buckets2: one pair of probe numbers on every bucket of the list that is left. */
  method SweepList(bins: Bins, items: seq<Item>, start: uint32, len: uint32, ids: array<uint32>, lists: array<uint32>,
                   disp: array<uint32>, s: uint32, probe0: uint32, probe1: uint32, ghost ms: seq<MapItem>,
                   ghost D: set<nat>, ghost c: Setting, ghost d: uint32)
    returns (kept: uint32, ghost D': set<nat>)
    requires bins.Valid() && disp != ids && disp != lists && ids != lists
    requires ids.Length == lists.Length == disp.Length < TWO32 && Fixed(c, bins, ms, c.maxProbes)
    requires Sweep(ms, disp.Length, ids[..], lists[..], items, start, len, 0, 0, s, D)
    requires Placed(ms, bins.keysPerBin, disp[..], bins.Loads(), D)
    requires probe0 < bins.n && d == probe0 + probe1 * bins.n && d + 1 < TWO32
    modifies bins.counts, bins.bits, disp, ids, lists
    ensures kept <= len && Sweep(ms, disp.Length, ids[..], lists[..], items, start, kept, 0, 0, s, D')
    ensures Placed(ms, bins.keysPerBin, disp[..], bins.Loads(), D')
    ensures Elsewhere(old(ids[..]), ids[..], start, len) && Elsewhere(old(lists[..]), lists[..], start, len)
    ensures start + len <= ids.Length
    ensures Swept(c, d, Progress(old(disp[..]), D, Kept(old(ids[..]), start, len)))
      == Progress(disp[..], D', Kept(ids[..], start, kept))
  {
    hide Placed, Sweep, Entry, FitsAt, Swept, SweptTo;
    SweepBounds(ms, disp.Length, ids[..], lists[..], items, start, len, 0, 0, s, D);
    ghost var p := Progress(disp[..], D, Kept(ids[..], start, len));
    D' := D;
    kept := 0;
    SweptStart(c, d, ids[..], start, len, disp[..], D);
    for j := 0 to len
      invariant kept <= j && Sweep(ms, disp.Length, ids[..], lists[..], items, start, len, kept, j, s, D')
      invariant Placed(ms, bins.keysPerBin, disp[..], bins.Loads(), D')
      invariant Elsewhere(old(ids[..]), ids[..], start, len) && Elsewhere(old(lists[..]), lists[..], start, len)
      invariant SweptTo(c, d, p, ids[..], start, len, kept, j, disp[..], D')
    {
      var curr: uint32 := start + j;
      ghost var ids0, lists0, disp0 := ids[..], lists[..], disp[..];
      SweepPlaced(ms, disp.Length, ids[..], lists[..], items, start, len, kept, j, s, D');
      var ok := TryProbe(bins, items, ids, lists, disp, curr, s, probe0, probe1, ms, D');
      SweptNext(c, d, p, ids0, start, len, kept, j, disp0, D', ok,
                if ok then ids0 else ids0[start + kept := ids0[curr]]);
      if ok {
        D' := D' + {ids[curr] as nat};
      } else {
        lists[start + kept] := lists[curr];
        ids[start + kept] := ids[curr];
        assert ids[..] == ids0[start + kept := ids0[curr]] && lists[..] == lists0[start + kept := lists0[curr]];
        SweepKept(ms, disp.Length, ids0, lists0, items, start, len, kept, j, s, D', ids[..], lists[..]);
        kept := kept + 1;
      }
    }
    SweepEnd(ms, disp.Length, ids[..], lists[..], items, start, len, kept, s, D');
    SweptEnd(c, d, p, ids[..], start, len, kept, disp[..], D');
  }

  lemma SweepBounds(ms: seq<MapItem>, n: nat, ids: seq<uint32>, lists: seq<uint32>, items: seq<Item>, start: nat,
                    len: nat, kept: nat, j: nat, s: nat, D: set<nat>)
    requires Sweep(ms, n, ids, lists, items, start, len, kept, j, s, D)
    ensures start + len <= |ids| == |lists|
  {
  }

  lemma SweepEnd(ms: seq<MapItem>, n: nat, ids: seq<uint32>, lists: seq<uint32>, items: seq<Item>, start: nat,
                 len: nat, kept: nat, s: nat, D: set<nat>)
    requires Sweep(ms, n, ids, lists, items, start, len, kept, len, s, D)
    ensures Sweep(ms, n, ids, lists, items, start, kept, 0, 0, s, D)
  {
    hide Rest, Down;
    assert ids[start + len..start + len] == [] && ids[start..start + 0] == [];
    assert ids[start..start + kept] + [] == [] + ids[start..start + kept];
    assert start + 0 == start;
  }

  /** The while loop of place_buckets2 for the buckets of size s; the size of the list is put back at the end. */
  method PlaceList2(bins: Bins, items: seq<Item>, start: uint32, lens: array<uint32>, ids: array<uint32>,
                    lists: array<uint32>, disp: array<uint32>, s: uint32, maxProbes: uint32, ghost ms: seq<MapItem>,
                    ghost c: Setting)
    returns (ok: bool, ghost D: set<nat>)
    requires bins.Valid() && disp != ids && disp != lists && ids != lists && Fixed(c, bins, ms, maxProbes)
    requires lens != ids && lens != lists && lens != disp
    requires ids.Length == lists.Length == disp.Length < TWO32 && 0 < s < lens.Length
    requires ListOk(ms, disp.Length, start, lens[s], ids[..], lists[..], items, s)
    requires Placed(ms, bins.keysPerBin, disp[..], bins.Loads(), Larger(ms, disp.Length, s))
    modifies bins.counts, bins.bits, disp, ids, lists, lens
    ensures lens[..] == old(lens[..])
    ensures Elsewhere(old(ids[..]), ids[..], start, lens[s]) && Elsewhere(old(lists[..]), lists[..], start, lens[s])
    ensures forall g :: 0 <= g < disp.Length ==> disp[g] + 1 < TWO32
    ensures Placed(ms, bins.keysPerBin, disp[..], bins.Loads(), D) && (ok ==> D == Larger(ms, disp.Length, s - 1))
    ensures
      var r := Sweeps(c, 0, ListStart(c, old(disp[..]), s));
      ok == r.0 && disp[..] == r.1.disp && D == r.1.placed
  {
    hide Placed, Sweep, Larger, ListOk, Swept, Sweeps, OfSize;
    ghost var n, disp0 := disp.Length, disp[..];
    D := Larger(ms, n, s);
    var sortedListSize: uint32 := lens[s];
    var probeNum: uint32, probe0: uint32, probe1: uint32 := 0, 0, 0;
    SweepStart(ms, n, ids[..], lists[..], items, start, sortedListSize, s);
    StartLeft(c, ids[..], lists[..], items, start, sortedListSize, s, disp0);
    while lens[s] != 0
      invariant start + lens[s] <= ids.Length
      invariant Sweeps(c, 0, ListStart(c, disp0, s))
        == Sweeps(c, probeNum, Progress(disp[..], D, Kept(ids[..], start, lens[s])))
      invariant lens[s] <= sortedListSize && lens[..][s := sortedListSize] == old(lens[..])
      invariant Sweep(ms, n, ids[..], lists[..], items, start, lens[s], 0, 0, s, D)
      invariant Placed(ms, bins.keysPerBin, disp[..], bins.Loads(), D)
      invariant Elsewhere(old(ids[..]), ids[..], start, sortedListSize)
      invariant Elsewhere(old(lists[..]), lists[..], start, sortedListSize)
      invariant probe0 < bins.n && probe1 < bins.n && probeNum == probe0 + probe1 * bins.n && probeNum + 1 < TWO32
      decreases TWO32 - probeNum
    {
      var nonPlacedBucket: uint32;
      ghost var p := Progress(disp[..], D, Kept(ids[..], start, lens[s]));
      nonPlacedBucket, D := SweepList(bins, items, start, lens[s], ids, lists, disp, s, probe0, probe1, ms, D, c,
                                      probeNum);
      lens[s] := nonPlacedBucket;
      probe0, probe1 := NextProbe(probe0, probe1, bins.n);
      NextSweep(c, probeNum, p, probe0, probe1);
      probeNum := probeNum + 1;
      if probeNum >= maxProbes || probe1 >= bins.n {
        lens[s] := sortedListSize;
        PlacedSmall(ms, bins.keysPerBin, disp[..], bins.Loads(), D);
        return false, D;
      }
    }
    NoSweep(c, probeNum, Progress(disp[..], D, Kept(ids[..], start, 0)));
    lens[s] := sortedListSize;
    SweepEmpty(ms, n, ids[..], lists[..], items, start, s, D);
    PlacedSmall(ms, bins.keysPerBin, disp[..], bins.Loads(), D);
    return true, D;
  }

  lemma NoSweep(c: Setting, k: uint32, p: Progress)
    requires 0 < c.n && p.left == []
    ensures Sweeps(c, k, p) == (true, p)
  {
  }

  /** The test at the end of a turn is the one of the function. */
  lemma NextSweep(c: Setting, k: uint32, p: Progress, probe0: nat, probe1: nat)
    requires probe0 < c.n && k + 1 == probe0 + probe1 * c.n && p.left != []
    ensures Sweeps(c, k, p) ==
      if k + 1 >= c.maxProbes || probe1 >= c.n then (false, Swept(c, k, p)) else Sweeps(c, k + 1, Swept(c, k, p))
  {
    hide Swept;
    PermittedNext(c.maxProbes, c.n, probe0, probe1, k + 1);
    assert Permitted(c.maxProbes, c.n, k + 1) <==> k + 1 < c.maxProbes && k + 1 < c.n * c.n;
  }

  lemma StartLeft(c: Setting, ids: seq<uint32>, lists: seq<uint32>, items: seq<Item>, start: nat, len: nat, s: nat,
                  disp: seq<uint32>)
    requires ListOk(c.ms, |disp|, start, len, ids, lists, items, s)
    ensures start + len <= |ids|
    ensures ListStart(c, disp, s) == Progress(disp, Larger(c.ms, |disp|, s), Kept(ids, start, len))
  {
    SizeListIs(c.ms, |disp|, Kept(ids, start, len), s);
  }

  lemma SweepStart(ms: seq<MapItem>, n: nat, ids: seq<uint32>, lists: seq<uint32>, items: seq<Item>, start: nat,
                   len: nat, s: nat)
    requires ListOk(ms, n, start, len, ids, lists, items, s) && |ids| == |lists|
    ensures Sweep(ms, n, ids, lists, items, start, len, 0, 0, s, Larger(ms, n, s))
  {
    hide SizeList, Rest, Down, Larger;
    RestStart(ms, n, ids[start..start + len], s);
    assert ids[start..start + 0] + ids[start + 0..start + len] == ids[start..start + len];
  }

  lemma SweepEmpty(ms: seq<MapItem>, n: nat, ids: seq<uint32>, lists: seq<uint32>, items: seq<Item>, start: nat,
                   s: nat, D: set<nat>)
    requires Sweep(ms, n, ids, lists, items, start, 0, 0, 0, s, D) && 0 < s
    ensures D == Larger(ms, n, s - 1)
  {
    hide Rest, Down, Larger;
    assert ids[start..start + 0] + ids[start + 0..start + 0] == [];
    RestDone(ms, n, s, D);
  }

  lemma ListKept(ms: seq<MapItem>, n: nat, ids: seq<uint32>, lists: seq<uint32>, items: seq<Item>, start: nat, len: nat,
                 t: nat, ids': seq<uint32>, lists': seq<uint32>, from: nat, size: nat)
    requires ListOk(ms, n, start, len, ids, lists, items, t) && start + len <= from && |lists'| == |lists|
    requires Elsewhere(ids, ids', from, size) && Elsewhere(lists, lists', from, size)
    ensures ListOk(ms, n, start, len, ids', lists', items, t)
  {
    hide SizeList;
    assert ids'[start..start + len] == ids[start..start + len];
    forall p: nat | start <= p < start + len
      ensures Entry(ms, ids', lists', items, t, p)
    {
      assert Entry(ms, ids, lists, items, t, p);
    }
  }

  /** The lists of the sizes up to i are as they were made. */
  ghost predicate ListsLeft(ms: seq<MapItem>, n: nat, starts: seq<uint32>, lens: seq<uint32>, ids: seq<uint32>,
                            lists: seq<uint32>, items: seq<Item>, i: nat) {
    && i < |starts| == |lens|
    && (forall t: nat :: 1 <= t <= i ==> ListOk(ms, n, starts[t], lens[t], ids, lists, items, t))
    && (forall s, t :: 1 <= s < t <= i ==> starts[s] as int + lens[s] <= starts[t])
  }

  lemma ListsLess(ms: seq<MapItem>, n: nat, starts: seq<uint32>, lens: seq<uint32>, ids: seq<uint32>,
                  lists: seq<uint32>, items: seq<Item>, i: nat, ids': seq<uint32>, lists': seq<uint32>)
    requires 0 < i && ListsLeft(ms, n, starts, lens, ids, lists, items, i)
    requires Elsewhere(ids, ids', starts[i], lens[i]) && Elsewhere(lists, lists', starts[i], lens[i])
    ensures ListsLeft(ms, n, starts, lens, ids', lists', items, i - 1)
  {
    hide ListOk, Elsewhere;
    forall t: nat | 1 <= t <= i - 1
      ensures ListOk(ms, n, starts[t], lens[t], ids', lists', items, t)
    {
      assert |lists'| == |lists| by { ElsewhereSize(lists, lists', starts[i], lens[i]); }
      ListKept(ms, n, ids, lists, items, starts[t], lens[t], t, ids', lists', starts[i], lens[i]);
    }
  }

  lemma ElsewhereSize(ids: seq<uint32>, ids': seq<uint32>, start: nat, len: nat)
    requires Elsewhere(ids, ids', start, len)
    ensures |ids'| == |ids|
  {
  }

  /**
   place_buckets2. It computes PlaceLists: at the limit of probes a list is given up even if its last bucket has
   just been placed. D are the buckets placed in the end, also after a failure.
   */
  method PlaceBuckets2(bins: Bins, items: seq<Item>, max: uint32, starts: array<uint32>, lens: array<uint32>,
                       ids: array<uint32>, lists: array<uint32>, disp: array<uint32>, maxProbes: uint32,
                       ghost ms: seq<MapItem>)
    returns (ok: bool, ghost D: set<nat>)
    requires bins.Valid() && disp != ids && disp != lists && disp != starts && disp != lens && ids != lists
    requires starts != lens && starts != ids && starts != lists && lens != ids && lens != lists
    requires ids.Length == disp.Length < TWO32
    requires Ordered(ms, disp.Length, max, starts[..], lens[..], ids[..], lists[..], items)
    requires Loaded(bins.Loads(), multiset{}, bins.keysPerBin)
    requires forall g :: 0 <= g < disp.Length ==> disp[g] + 1 < TWO32
    modifies bins.counts, bins.bits, disp, ids, lists, lens
    ensures forall g :: 0 <= g < disp.Length ==> disp[g] + 1 < TWO32
    ensures ok ==> AllPlaced(ms, bins.keysPerBin, disp[..], bins.Loads())
    ensures Placed(ms, bins.keysPerBin, disp[..], bins.Loads(), D)
    ensures
      var r := PlaceLists(Setting(ms, bins.keysPerBin, bins.n, maxProbes), true, old(disp[..]), max);
      ok == r.0 && disp[..] == r.1.disp && D == r.1.placed
  {
    hide Placed, Larger, Ordered, ListOk, ListsLeft, Loaded, Elsewhere, Sweeps, ListStart;
    ghost var n, disp0, c := disp.Length, disp[..], Setting(ms, bins.keysPerBin, bins.n, maxProbes);
    NothingLarger(ms, n, max, starts[..], lens[..], ids[..], lists[..], items);
    PlacedNone(ms, bins.keysPerBin, disp[..], bins.Loads());
    AllListsLeft(ms, n, max, starts[..], lens[..], ids[..], lists[..], items);
    var i: uint32 := max;
    while i > 0
      invariant i <= max && lists.Length == n && forall g :: 0 <= g < disp.Length ==> disp[g] + 1 < TWO32
      invariant lens[..] == old(lens[..]) && starts[..] == old(starts[..])
      invariant ListsLeft(ms, n, starts[..], lens[..], ids[..], lists[..], items, i)
      invariant Placed(ms, bins.keysPerBin, disp[..], bins.Loads(), Larger(ms, n, i))
      invariant PlaceLists(c, true, disp0, max) == PlaceLists(c, true, disp[..], i)
    {
      ghost var ids0, lists0 := ids[..], lists[..];
      LeftAt(ms, n, starts[..], lens[..], ids0, lists0, items, i);
      ok, D := PlaceList2(bins, items, starts[i], lens, ids, lists, disp, i, maxProbes, ms, c);
      if !ok {
        return false, D;
      }
      ListsLess(ms, n, starts[..], lens[..], ids0, lists0, items, i, ids[..], lists[..]);
      i := i - 1;
    }
    NoListsLeft(c, true, disp[..]);
    return true, Larger(ms, n, 0);
  }

  lemma AllListsLeft(ms: seq<MapItem>, n: nat, max: nat, starts: seq<uint32>, lens: seq<uint32>, ids: seq<uint32>,
                     lists: seq<uint32>, items: seq<Item>)
    requires Ordered(ms, n, max, starts, lens, ids, lists, items)
    ensures ListsLeft(ms, n, starts, lens, ids, lists, items, max)
  {
  }

  lemma LeftAt(ms: seq<MapItem>, n: nat, starts: seq<uint32>, lens: seq<uint32>, ids: seq<uint32>, lists: seq<uint32>,
               items: seq<Item>, i: nat)
    requires ListsLeft(ms, n, starts, lens, ids, lists, items, i) && 0 < i
    ensures i < |starts| && i < |lens| && ListOk(ms, n, starts[i], lens[i], ids, lists, items, i)
  {
  }

  /** One bucket of one item. */
  const ONE_ITEM: seq<MapItem> := [Keyed(Item(0, 1), 0)]

  lemma OneItem()
    ensures Group(ONE_ITEM, 0) == [Item(0, 1)] && Larger(ONE_ITEM, 1, 0) == {0} && Larger(ONE_ITEM, 1, 1) == {}
    ensures SizeList(ONE_ITEM, 1, [0], 1) && OfSize(ONE_ITEM, 1, 1) == [0]
  {
    assert ONE_ITEM == [] + [Keyed(Item(0, 1), 0)];
    GroupNone<Item>(0);
    GroupAppend<Item>([], Keyed(Item(0, 1), 0), 0);
    assert SizeList(ONE_ITEM, 1, [0], 1);
    SizeListIs(ONE_ITEM, 1, [0], 1);
  }

  lemma OneSwept(c: Setting)
    requires c == Setting(ONE_ITEM, 1, 3, 1)
    ensures Swept(c, 0, Progress([0], {}, [0])) == Progress([0], {0}, [])
  {
    hide Gathered, Group, Position;
    OneItem();
    GatherNone(Parts(ONE_ITEM, [0], 3));
    OneFits(Displaced(ONE_ITEM, 0, 0, 3));
    assert FitsAt(ONE_ITEM, 1, [0], 3, {}, 0, 0);
    assert [0][0 := 0] == [0] && [0][1..] == [] && {} + {0} == {0};
    NothingSwept(c, 0, Progress([0], {0}, []));
  }

  lemma NothingSwept(c: Setting, d: uint32, p: Progress)
    requires 0 < c.n && p.left == []
    ensures Swept(c, d, p) == p
  {
  }

  /** The only list is emptied by the first sweep and yet given up. */
  lemma OneGivenUp(c: Setting)
    requires c == Setting(ONE_ITEM, 1, 3, 1)
    ensures PlaceLists(c, true, [0], 1) == (false, Progress([0], {0}, []))
  {
    hide Swept, OfSize, Larger, Group;
    OneItem();
    assert ListStart(c, [0], 1) == Progress([0], {}, [0]);
    OneSwept(c);
  }

  lemma OneFits(ps: seq<nat>)
    requires |ps| == 1
    ensures Fits(multiset{}, ps, 3, 1)
  {
    assert ps == [ps[0]];
    assert multiset(ps) == multiset{ps[0]};
  }

  /** With one permitted probe the only bucket is placed, and yet the search is given up. */
  method GivenUpExample() returns (ok: bool, bins: Bins, disp: array<uint32>)
    ensures bins.Valid() && disp.Length == 1
    ensures !ok && AllPlaced(ONE_ITEM, 1, disp[..], bins.Loads())
  {
    hide Placed, Loaded, PlaceLists, Group, Larger, Ordered, SizeList, OfSize;
    OneItem();
    OneGivenUp(Setting(ONE_ITEM, 1, 3, 1));
    bins := new Bins(3, 1);
    var starts, lens := new uint32[] [0, 0], new uint32[] [0, 1];
    var ids, lists := new uint32[] [0], new uint32[] [0];
    disp := new uint32[] [0];
    assert starts[..] == [0, 0] && lens[..] == [0, 1] && ids[..] == [0] && lists[..] == [0] && disp[..] == [0];
    OneOrdered(starts[..], lens[..], ids[..], lists[..]);
    ghost var D;
    ok, D := PlaceBuckets2(bins, [Item(0, 1)], 1, starts, lens, ids, lists, disp, 1, ONE_ITEM);
  }

  lemma OneOrdered(starts: seq<uint32>, lens: seq<uint32>, ids: seq<uint32>, lists: seq<uint32>)
    requires starts == [0, 0] && lens == [0, 1] && ids == [0] == lists
    ensures Ordered(ONE_ITEM, 1, 1, starts, lens, ids, lists, [Item(0, 1)])
  {
    hide Group;
    OneItem();
    assert ids[0..0 + 1] == [0];
    assert [Item(0, 1)][0..0 + 1] == [Item(0, 1)];
    assert Entry(ONE_ITEM, ids, lists, [Item(0, 1)], 1, 0);
  }

  // ---- what the keys get --------------------------------------------------------------------------------------

  /** Where chd_ph_search sends every key. */
  ghost function KeyPositions(ms: seq<MapItem>, disp: seq<uint32>, n: nat): (s: seq<nat>)
    requires 0 < n && Groups(ms, |disp|)
    ensures |s| == |ms|
  {
    seq(|ms|, i requires 0 <= i < |ms| => KeyPosition(ms[i], disp, n))
  }

  ghost function KeyPosition(x: MapItem, disp: seq<uint32>, n: nat): nat
    requires 0 < n && x.group < |disp|
  {
    Bin(x.value, disp[x.group], n)
  }

  /** When every bucket with keys is placed, the bins hold exactly the keys' positions. */
  lemma OccupiedByKeys(ms: seq<MapItem>, disp: seq<uint32>, n: nat, D: set<nat>)
    requires 0 < n && Groups(ms, |disp|) && forall i :: 0 <= i < |ms| ==> ms[i].group in D
    ensures Occupied(ms, disp, n, D) == multiset(KeyPositions(ms, disp, n))
  {
    hide Gathered, Group, Position, Mod, Div;
    var f: (Item, nat) -> nat :=
      (x: Item, g: nat) => if g < |disp| then Position(x, Mod(disp[g], n), Div(disp[g], n), n) else 0;
    GatherImages(ms, |disp|, f, D);
    forall g | 0 <= g < |disp|
      ensures Parts(ms, disp, n)[g] == Images(ms, |disp|, f)[g]
    {
      var so := Group(ms, g);
      assert forall i :: 0 <= i < |so| ==> Displaced(ms, g, disp[g], n)[i] == Image(so, g, f)[i];
    }
    assert Parts(ms, disp, n) == Images(ms, |disp|, f);
    assert KeyPositions(ms, disp, n) == ImageOfAll(ms, f);
  }

  /** No bin gets more keys than the limit, counted over the keys themselves. */
  lemma SearchedIsPerfect(ms: seq<MapItem>, limit: nat, disp: seq<uint32>, loads: seq<nat>)
    requires Groups(ms, |disp|) && AllPlaced(ms, limit, disp, loads)
    ensures 0 < |loads| && Loaded(loads, multiset(KeyPositions(ms, disp, |loads|)), limit)
  {
    hide Gathered, Loaded, Parts;
    var D := Larger(ms, |disp|, 0);
    forall i | 0 <= i < |ms|
      ensures ms[i].group in D
    {
      GroupMember(ms, ms[i].group, ms[i].value);
      assert Keyed(ms[i].value, ms[i].group) == ms[i];
    }
    OccupiedByKeys(ms, disp, |loads|, D);
  }
}
