/** Grouping the elements of a sequence by a number: the specification of the counting passes of chd_ph.c. */
module CountingSort {

  /** An element and the number of its group. */
  datatype Keyed<T> = Keyed(value: T, group: nat)

  /** The elements of group k in their order. */
  ghost function Group<T>(s: seq<Keyed<T>>, k: nat): seq<T> {
    if s == [] then [] else
      var last := s[|s| - 1];
      Group(s[..|s| - 1], k) + if last.group == k then [last.value] else []
  }

  /** Where group k starts when the groups are laid out one behind the other. */
  ghost function Offset<T>(s: seq<Keyed<T>>, k: nat): nat {
    if k == 0 then 0 else Offset(s, k - 1) + |Group(s, k - 1)|
  }

  ghost predicate Groups<T>(s: seq<Keyed<T>>, n: nat) {
    forall i :: 0 <= i < |s| ==> s[i].group < n
  }

  lemma GroupNone<T>(k: nat)
    ensures Group<T>([], k) == []
  {
  }

  lemma GroupAppend<T>(s: seq<Keyed<T>>, x: Keyed<T>, k: nat)
    ensures Group(s + [x], k) == if k == x.group then Group(s, k) + [x.value] else Group(s, k)
  {
    assert (s + [x])[..|s|] == s;
  }

  lemma {:induction false} GroupPrefix<T>(s: seq<Keyed<T>>, i: nat, k: nat)
    requires i <= |s|
    ensures Group(s[..i], k) <= Group(s, k)
    decreases |s|
  {
    if i < |s| {
      GroupPrefix(s[..|s| - 1], i, k);
      assert s[..|s| - 1][..i] == s[..i];
    } else {
      assert s[..i] == s;
    }
  }

  /** The next element of group k has a place of its own before the end of the group. */
  lemma GroupRoom<T>(s: seq<Keyed<T>>, i: nat)
    requires i < |s|
    ensures |Group(s[..i], s[i].group)| < |Group(s, s[i].group)|
  {
    var k := s[i].group;
    assert s[..i + 1] == s[..i] + [s[i]];
    GroupAppend(s[..i], s[i], k);
    GroupPrefix(s, i + 1, k);
  }

  lemma {:induction false} OffsetGrows<T>(s: seq<Keyed<T>>, j: nat, k: nat)
    requires j <= k
    ensures Offset(s, j) <= Offset(s, k)
    ensures j < k ==> Offset(s, j) + |Group(s, j)| <= Offset(s, k)
  {
    if j < k {
      OffsetGrows(s, j, k - 1);
    }
  }

  lemma {:induction false} OffsetAppend<T>(s: seq<Keyed<T>>, x: Keyed<T>, k: nat)
    ensures Offset(s + [x], k) == Offset(s, k) + if x.group < k then 1 else 0
    decreases k
  {
    if k > 0 {
      OffsetAppend(s, x, k - 1);
      GroupAppend(s, x, k - 1);
    }
  }

  lemma {:induction false} OffsetNone<T>(k: nat)
    ensures Offset<T>([], k) == 0
  {
    if k > 0 {
      OffsetNone<T>(k - 1);
    }
  }

  /** The groups together have all elements. */
  lemma {:induction false} OffsetTotal<T>(s: seq<Keyed<T>>, n: nat)
    requires Groups(s, n)
    ensures Offset(s, n) == |s|
  {
    if s == [] {
      OffsetNone<T>(n);
    } else {
      var t, x := s[..|s| - 1], s[|s| - 1];
      assert s == t + [x];
      OffsetTotal(t, n);
      OffsetAppend(t, x, n);
    }
  }

  /** Membership in a group. */
  lemma {:induction false} GroupMember<T>(s: seq<Keyed<T>>, k: nat, v: T)
    ensures v in Group(s, k) <==> Keyed(v, k) in s
    decreases |s|
  {
    if s != [] {
      var t, x := s[..|s| - 1], s[|s| - 1];
      assert s == t + [x];
      GroupMember(t, k, v);
      GroupAppend(t, x, k);
    }
  }

  /** Where the elements seen so far lie: group k fills its stretch of the array from the left. */
  ghost predicate LaidOut<T>(s: seq<Keyed<T>>, i: nat, n: nat, a: seq<T>) {
    && i <= |s| && Groups(s, n) && |s| <= |a|
    && forall k: nat :: k < n ==> LaidOutAt(s, i, a, k)
  }

  ghost predicate LaidOutAt<T>(s: seq<Keyed<T>>, i: nat, a: seq<T>, k: nat) {
    && i <= |s| && Offset(s, k) + |Group(s[..i], k)| <= |a|
    && a[Offset(s, k)..Offset(s, k) + |Group(s[..i], k)|] == Group(s[..i], k)
  }

  lemma LayNone<T>(s: seq<Keyed<T>>, n: nat, a: seq<T>)
    requires Groups(s, n) && |s| <= |a|
    ensures LaidOut(s, 0, n, a)
  {
    OffsetTotal(s, n);
    forall k: nat | k < n
      ensures LaidOutAt(s, 0, a, k)
    {
      OffsetGrows(s, k, n);
    }
  }

  /** Writing the next element behind what its group has so far. */
  lemma LayNext<T>(s: seq<Keyed<T>>, i: nat, n: nat, a: seq<T>, p: nat)
    requires LaidOut(s, i, n, a) && i < |s| && p == Offset(s, s[i].group) + |Group(s[..i], s[i].group)|
    ensures p < |s| && LaidOut(s, i + 1, n, a[p := s[i].value])
  {
    hide Offset, Group;
    var g, a' := s[i].group, if p < |a| then a[p := s[i].value] else a;
    GroupRoom(s, i);
    OffsetGrows(s, g, n);
    OffsetGrows(s, g, g + 1);
    OffsetStep(s, g);
    OffsetGrows(s, g + 1, n);
    OffsetTotal(s, n);
    var i' := i + 1;
    forall k: nat | k < n
      ensures LaidOutAt(s, i', a', k)
    {
      assert LaidOutAt(s, i, a, k);
      assert s[..i'] == s[..i] + [s[i]];
      GroupAppend(s[..i], s[i], k);
      GroupPrefix(s, i, k);
      if k < g {
        OffsetGrows(s, k, g);
      } else if g < k {
        OffsetGrows(s, g, k);
      }
      var lo, hi := Offset(s, k), Offset(s, k) + |Group(s[..i], k)|;
      assert k != g ==> a'[lo..hi] == a[lo..hi];
      assert k == g ==> a'[lo..hi + 1] == a[lo..hi] + [s[i].value];
    }
  }

  lemma OffsetStep<T>(s: seq<Keyed<T>>, k: nat)
    ensures Offset(s, k + 1) == Offset(s, k) + |Group(s, k)|
  {
  }

  /** Sizes counted one element at a time. */
  ghost predicate Counted<T>(s: seq<Keyed<T>>, i: nat, sizes: seq<int>) {
    i <= |s| && forall k: nat :: k < |sizes| ==> sizes[k] == |Group(s[..i], k)|
  }

  lemma CountNext<T>(s: seq<Keyed<T>>, i: nat, sizes: seq<int>)
    requires Counted(s, i, sizes) && i < |s| && s[i].group < |sizes|
    ensures Counted(s, i + 1, sizes[s[i].group := sizes[s[i].group] + 1])
    ensures 0 <= sizes[s[i].group] < |s|
  {
    hide Group;
    assert s[..i + 1] == s[..i] + [s[i]];
    forall k: nat | k < |sizes|
      ensures |Group(s[..i + 1], k)| == |Group(s[..i], k)| + if k == s[i].group then 1 else 0
    {
      GroupAppend(s[..i], s[i], k);
    }
    GroupSize(s[..i], s[i].group);
  }

  lemma {:induction false} GroupAbsent<T>(s: seq<Keyed<T>>, k: nat)
    requires forall i :: 0 <= i < |s| ==> s[i].group != k
    ensures Group(s, k) == []
  {
    if s != [] {
      GroupAbsent(s[..|s| - 1], k);
    }
  }

  /** Elements of different groups are alone in them. */
  lemma {:induction false} GroupAlone<T>(s: seq<Keyed<T>>, k: nat)
    requires forall i, j :: 0 <= i < j < |s| ==> s[i].group != s[j].group
    ensures |Group(s, k)| <= 1
    decreases |s|
  {
    if s != [] {
      var t, x := s[..|s| - 1], s[|s| - 1];
      if x.group == k {
        GroupAbsent(t, k);
      } else {
        GroupAlone(t, k);
      }
    }
  }

  lemma {:induction false} GroupSize<T>(s: seq<Keyed<T>>, k: nat)
    ensures |Group(s, k)| <= |s|
    decreases |s|
  {
    if s != [] {
      GroupSize(s[..|s| - 1], k);
    }
  }

  // ---- putting groups together ---------------------------------------------------------------------

  /** The elements of the parts whose numbers are in D. */
  ghost function Gathered<X>(parts: seq<seq<X>>, D: set<nat>): multiset<X> {
    if parts == [] then multiset{} else
      var n := |parts| - 1;
      Gathered(parts[..n], D) + if n in D then multiset(parts[n]) else multiset{}
  }

  lemma {:induction false} GatherSame<X>(parts: seq<seq<X>>, parts': seq<seq<X>>, D: set<nat>, D': set<nat>)
    requires |parts'| == |parts|
    requires forall k: nat :: k < |parts| ==> (k in D <==> k in D') && (k in D ==> parts'[k] == parts[k])
    ensures Gathered(parts', D') == Gathered(parts, D)
  {
    if parts != [] {
      var n := |parts| - 1;
      GatherSame(parts[..n], parts'[..n], D, D');
    }
  }

  lemma GatherLast<X>(parts: seq<seq<X>>, part: seq<X>, D: set<nat>)
    ensures Gathered(parts + [part], D) == Gathered(parts, D) + if |parts| in D then multiset(part) else multiset{}
  {
    assert (parts + [part])[..|parts|] == parts;
  }

  /** One more part. */
  lemma {:induction false} GatherMore<X>(parts: seq<seq<X>>, D: set<nat>, g: nat, part: seq<X>)
    requires g < |parts| && g !in D
    ensures Gathered(parts[g := part], D + {g}) == Gathered(parts, D) + multiset(part)
  {
    hide Gathered;
    var n := |parts| - 1;
    var rest, last := parts[..n], parts[n];
    assert parts == rest + [last];
    GatherLast(rest, last, D);
    if g == n {
      assert parts[g := part] == rest + [part];
      GatherLast(rest, part, D + {g});
      GatherSame(rest, rest, D, D + {g});
    } else {
      assert parts[g := part] == rest[g := part] + [last];
      GatherLast(rest[g := part], last, D + {g});
      GatherMore(rest, D, g, part);
    }
  }

  ghost function GroupsOf<T>(s: seq<Keyed<T>>, n: nat): (parts: seq<seq<T>>)
    ensures |parts| == n
  {
    seq(n, k requires 0 <= k < n => Group(s, k))
  }

  lemma {:induction false} GatherBound<T>(s: seq<Keyed<T>>, n: nat, D: set<nat>)
    ensures |Gathered(GroupsOf(s, n), D)| <= Offset(s, n)
    decreases n
  {
    if n > 0 {
      GatherBound(s, n - 1, D);
      assert GroupsOf(s, n)[..n - 1] == GroupsOf(s, n - 1);
    }
  }

  lemma {:induction false} GatherNone<X>(parts: seq<seq<X>>)
    ensures Gathered(parts, {}) == multiset{}
  {
    if parts != [] {
      GatherNone(parts[..|parts| - 1]);
    }
  }

  lemma {:induction false} GatherEmpty<X>(parts: seq<seq<X>>, D: set<nat>)
    requires forall k :: 0 <= k < |parts| ==> parts[k] == []
    ensures Gathered(parts, D) == multiset{}
  {
    if parts != [] {
      GatherEmpty(parts[..|parts| - 1], D);
    }
  }

  /** One more element in one of the parts. */
  lemma {:induction false} GatherGrow<X>(parts: seq<seq<X>>, D: set<nat>, g: nat, x: X)
    requires g < |parts| && g in D
    ensures Gathered(parts[g := parts[g] + [x]], D) == Gathered(parts, D) + multiset{x}
  {
    hide Gathered;
    var n := |parts| - 1;
    var rest, last := parts[..n], parts[n];
    assert parts == rest + [last];
    GatherLast(rest, last, D);
    if g == n {
      assert parts[g := parts[g] + [x]] == rest + [last + [x]];
      GatherLast(rest, last + [x], D);
    } else {
      assert parts[g := parts[g] + [x]] == rest[g := rest[g] + [x]] + [last];
      GatherLast(rest[g := rest[g] + [x]], last, D);
      GatherGrow(rest, D, g, x);
    }
  }

  /** There is room for the elements of one more group. */
  lemma GatherRoom<T>(s: seq<Keyed<T>>, n: nat, D: set<nat>, g: nat)
    requires Groups(s, n) && g < n && g !in D
    ensures |Gathered(GroupsOf(s, n), D)| + |Group(s, g)| == |Gathered(GroupsOf(s, n), D + {g})| <= |s|
  {
    hide Gathered, Group;
    var parts := GroupsOf(s, n);
    assert parts[g := Group(s, g)] == parts;
    GatherMore(parts, D, g, Group(s, g));
    GatherBound(s, n, D + {g});
    OffsetTotal(s, n);
  }

  // ---- images of the elements ----------------------------------------------------------------------

  ghost function Image<T, X>(s: seq<T>, g: nat, f: (T, nat) -> X): (r: seq<X>)
    ensures |r| == |s|
  {
    seq(|s|, i requires 0 <= i < |s| => f(s[i], g))
  }

  /** The images of the groups under a function of the element and its group. */
  ghost function Images<T, X>(s: seq<Keyed<T>>, n: nat, f: (T, nat) -> X): (parts: seq<seq<X>>)
    ensures |parts| == n
  {
    seq(n, g requires 0 <= g < n => Image(Group(s, g), g, f))
  }

  /** The images of the elements in their own order. */
  ghost function ImageOfAll<T, X>(s: seq<Keyed<T>>, f: (T, nat) -> X): (r: seq<X>)
    ensures |r| == |s|
  {
    seq(|s|, i requires 0 <= i < |s| => f(s[i].value, s[i].group))
  }

  lemma ImagesGrow<T, X>(t: seq<Keyed<T>>, x: Keyed<T>, n: nat, f: (T, nat) -> X)
    requires x.group < n
    ensures Images(t + [x], n, f) == Images(t, n, f)[x.group := Images(t, n, f)[x.group] + [f(x.value, x.group)]]
  {
    hide Image;
    var a, b, y := Images(t + [x], n, f), Images(t, n, f), f(x.value, x.group);
    forall g | 0 <= g < n
      ensures a[g] == if g == x.group then b[g] + [y] else b[g]
    {
      GroupAppend(t, x, g);
      ImageAppend(Group(t, g), x.value, g, f);
    }
    assert a == b[x.group := b[x.group] + [y]];
  }

  lemma ImageAppend<T, X>(s: seq<T>, v: T, g: nat, f: (T, nat) -> X)
    ensures Image(s + [v], g, f) == Image(s, g, f) + [f(v, g)]
  {
  }

  /** Gathering the images of all non-empty groups gives the images of all elements. */
  lemma {:induction false} GatherImages<T, X>(s: seq<Keyed<T>>, n: nat, f: (T, nat) -> X, D: set<nat>)
    requires Groups(s, n) && forall i :: 0 <= i < |s| ==> s[i].group in D
    ensures Gathered(Images(s, n, f), D) == multiset(ImageOfAll(s, f))
    decreases |s|
  {
    hide Gathered, Images;
    if s == [] {
      ImagesNone<T, X>(n, f);
      GatherEmpty(Images(s, n, f), D);
    } else {
      var t, x := s[..|s| - 1], s[|s| - 1];
      assert s == t + [x];
      GatherImages(t, n, f, D);
      ImagesGrow(t, x, n, f);
      GatherGrow(Images(t, n, f), D, x.group, f(x.value, x.group));
      assert ImageOfAll(s, f) == ImageOfAll(t, f) + [f(x.value, x.group)];
    }
  }

  lemma ImagesNone<T, X>(n: nat, f: (T, nat) -> X)
    ensures forall g :: 0 <= g < n ==> Images([], n, f)[g] == []
  {
  }
}
