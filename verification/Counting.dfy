/** Counting facts about finite sets of natural numbers, used for the bijection theorems. */
module Counting {
  /** The numbers below n. */
  ghost function Below(n: nat): (s: set<nat>)
    ensures |s| == n
    ensures forall i :: i in s <==> 0 <= i < n
  {
    if n == 0 then {} else Below(n - 1) + {n - 1}
  }

  ghost predicate Distinct<T>(s: seq<T>) {
    forall i, j :: 0 <= i < j < |s| ==> s[i] != s[j]
  }

  ghost predicate Bounded(s: seq<nat>, n: nat) {
    forall i :: 0 <= i < |s| ==> s[i] < n
  }

  lemma DistinctMore<T>(s: seq<T>, x: T)
    requires Distinct(s) && x !in s
    ensures Distinct(s + [x])
  {
  }

  lemma SubsetSize<T>(a: set<T>, b: set<T>)
    requires a <= b
    ensures |a| <= |b|
    ensures |a| == |b| ==> a == b
  {
    assert b == a + (b - a);
  }

  lemma DistinctInSet<T>(s: seq<T>, S: set<T>)
    requires Distinct(s)
    requires forall i :: 0 <= i < |s| ==> s[i] in S
    ensures |s| <= |S|
  {
    if s != [] {
      DistinctInSet(s[..|s| - 1], S - {s[|s| - 1]});
    }
  }

  lemma DistinctBounded(s: seq<nat>, n: nat)
    requires Distinct(s) && Bounded(s, n)
    ensures |s| <= n
  {
    DistinctInSet(s, Below(n));
  }

  /** n distinct values below n are all of them. */
  lemma DistinctCovers(s: seq<nat>, n: nat, y: nat)
    requires Distinct(s) && Bounded(s, n) && |s| == n && y < n
    ensures y in s
  {
    if y !in s {
      DistinctInSet(s, Below(n) - {y});
    }
  }

  /** A sequence of n values is a bijection from its indices onto the numbers below n. */
  ghost predicate Bijection(s: seq<nat>, n: nat) {
    && |s| == n && Bounded(s, n) && Distinct(s)
    && forall y :: 0 <= y < n ==> y in s
  }

  lemma DistinctIsBijection(s: seq<nat>, n: nat)
    requires |s| == n && Bounded(s, n) && Distinct(s)
    ensures Bijection(s, n)
  {
    forall y | 0 <= y < n
      ensures y in s
    {
      DistinctCovers(s, n, y);
    }
  }

  lemma TwiceInMultiset<T>(s: seq<T>, i: nat, j: nat)
    requires i < j < |s| && s[i] == s[j]
    ensures multiset(s)[s[i]] >= 2
  {
    var rest := s[..j] + s[j + 1..];
    assert s == s[..j] + [s[j]] + s[j + 1..];
    assert rest[i] == s[i] && s[i] in rest;
    assert multiset(s) == multiset(rest) + multiset{s[j]};
  }

  // ---- ranks -----------------------------------------------------------------------------------------

  ghost function Range<T>(s: seq<T>): set<T> {
    set x | x in s
  }

  lemma RangeAppend<T>(q: seq<T>, x: T)
    ensures Range(q + [x]) == Range(q) + {x}
    ensures x in q ==> !Distinct(q + [x])
    ensures x !in q ==> (Distinct(q + [x]) <==> Distinct(q))
  {
    if x in q {
      var i :| 0 <= i < |q| && q[i] == x;
      assert (q + [x])[i] == (q + [x])[|q|];
    }
    if Distinct(q + [x]) {
      forall i, j | 0 <= i < j < |q|
        ensures q[i] != q[j]
      {
        assert (q + [x])[i] == q[i] && (q + [x])[j] == q[j];
      }
    }
  }

  lemma {:induction false} RangeSize<T>(q: seq<T>)
    ensures |Range(q)| <= |q|
    ensures Distinct(q) <==> |Range(q)| == |q|
  {
    hide Distinct;
    if q == [] {
      DistinctNone<T>();
    } else {
      var n := |q| - 1;
      RangeSize(q[..n]);
      assert q == q[..n] + [q[n]];
      RangeAppend(q[..n], q[n]);
      if q[n] in q[..n] {
        assert Range(q[..n]) + {q[n]} == Range(q[..n]);
      }
    }
  }

  lemma DistinctNone<T>()
    ensures Distinct<T>([])
  {
  }

  /** The entries before place i. */
  ghost function Prefix<T>(order: seq<T>, i: nat): set<T>
    requires i <= |order|
  {
    Range(order[..i])
  }

  lemma PrefixStep<T>(order: seq<T>, i: nat)
    requires i < |order| && Distinct(order)
    ensures order[i] !in Prefix(order, i) && Prefix(order, i + 1) == Prefix(order, i) + {order[i]}
  {
    assert order[..i + 1] == order[..i] + [order[i]];
  }

  /** How many of the places before v are marked. */
  ghost function CountBefore(b: seq<bool>, v: nat): (r: nat)
    requires v <= |b|
    ensures r <= v
  {
    if v == 0 then 0 else CountBefore(b, v - 1) + if b[v - 1] then 1 else 0
  }

  lemma {:induction false} CountMonotone(b: seq<bool>, u: nat, v: nat)
    requires u < v <= |b|
    ensures CountBefore(b, u) <= CountBefore(b, v) <= CountBefore(b, u) + (v - u)
    ensures b[u] ==> CountBefore(b, u) < CountBefore(b, v)
  {
    if u < v - 1 {
      CountMonotone(b, u, v - 1);
    }
  }

  lemma {:induction false} CountIsCardinality(b: seq<bool>, v: nat)
    requires v <= |b|
    ensures CountBefore(b, v) == |set u | 0 <= u < v && b[u]|
  {
    var S := set u | 0 <= u < v && b[u];
    if v == 0 {
      assert S == {};
    } else {
      CountIsCardinality(b, v - 1);
      var T := set u | 0 <= u < v - 1 && b[u];
      if b[v - 1] {
        assert S == T + {v - 1} && v - 1 !in T;
      } else {
        assert S == T;
      }
    }
  }

  /** The chosen places are distinct, and they are exactly the marked ones. */
  ghost predicate Marks(b: seq<bool>, chosen: seq<nat>) {
    && Distinct(chosen) && (forall i :: 0 <= i < |chosen| ==> chosen[i] < |b| && b[chosen[i]])
    && forall v :: 0 <= v < |b| && b[v] ==> v in chosen
  }

  lemma MarksCount(b: seq<bool>, chosen: seq<nat>)
    requires Marks(b, chosen)
    ensures CountBefore(b, |b|) == |chosen|
  {
    CountIsCardinality(b, |b|);
    assert (set u | 0 <= u < |b| && b[u]) == Range(chosen);
    RangeSize(chosen);
  }

  /** Ranking the marked places numbers them without gaps. */
  lemma RanksAreBijection(b: seq<bool>, chosen: seq<nat>)
    requires Marks(b, chosen)
    ensures Bijection(seq(|chosen|, i requires 0 <= i < |chosen| => CountBefore(b, chosen[i])), |chosen|)
  {
    var r := seq(|chosen|, i requires 0 <= i < |chosen| => CountBefore(b, chosen[i]));
    MarksCount(b, chosen);
    forall i | 0 <= i < |r|
      ensures r[i] < |chosen|
    {
      CountMonotone(b, chosen[i], |b|);
    }
    forall i, j | 0 <= i < j < |r|
      ensures r[i] != r[j]
    {
      CountMonotone(b, if chosen[i] < chosen[j] then chosen[i] else chosen[j],
                    if chosen[i] < chosen[j] then chosen[j] else chosen[i]);
    }
    DistinctIsBijection(r, |chosen|);
  }
}
