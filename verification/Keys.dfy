/** How chm.c and bmz.c turn a key into an edge. The seeded hash is an arbitrary function. */
module Keys {
  import opened Arithmetic
  import opened Words
  import opened Multigraph

  type Hash<!Key> = (uint32, Key) -> uint32

  /** The two vertices of a key: the second hash moves on by one when it meets the first. */
  function KeyEdge<Key>(hash: Hash<Key>, s1: uint32, s2: uint32, n: uint32, key: Key): (e: Edge)
    requires 0 < n
    ensures e.src < n && e.dst < n
  {
    var h1 := hash(s1, key) % n;
    var h2 := hash(s2, key) % n;
    Edge(h1, if h1 == h2 then if h2 + 1 >= n then 0 else h2 + 1 else h2)
  }

  lemma NextModulo(h: nat, n: nat)
    requires h < n
    ensures (h + 1) % n == if h + 1 < n then h + 1 else 0
  {
    if h + 1 < n {
      DivisionUnique(h + 1, n, 0, h + 1);
    } else {
      DivisionUnique(n, n, 1, 0);
    }
  }

  /** The edge joins the vertices of the two hashes, or that of both and the next one; it is a loop for n == 1 only. */
  lemma EdgeOfHashes<Key>(hash: Hash<Key>, s1: uint32, s2: uint32, n: uint32, key: Key)
    requires 0 < n
    ensures
      var e, h2 := KeyEdge(hash, s1, s2, n, key), hash(s2, key) % n;
      && e.src == hash(s1, key) % n
      && e.dst == (if e.src == h2 then (h2 as nat + 1) % n else h2 as nat)
      && (IsLoop(e) <==> n == 1)
  {
    NextModulo(hash(s2, key) % n, n);
  }

  /** The edges of two keys join the same two vertices. */
  ghost predicate SamePair<Key>(hash: Hash<Key>, s1: uint32, s2: uint32, n: uint32, k: Key, l: Key)
    requires 0 < n
  {
    var e := KeyEdge(hash, s1, s2, n, k);
    Joins(KeyEdge(hash, s1, s2, n, l), e.src, e.dst)
  }

  ghost function KeyEdges<Key>(hash: Hash<Key>, s1: uint32, s2: uint32, n: uint32, keys: seq<Key>): seq<Edge>
    requires 0 < n
  {
    seq(|keys|, i requires 0 <= i < |keys| => KeyEdge(hash, s1, s2, n, keys[i]))
  }

  /** Up to two keys form a graph without cycles unless both get the same edge. */
  lemma FewKeys<Key>(hash: Hash<Key>, s1: uint32, s2: uint32, n: uint32, keys: seq<Key>)
    requires 2 <= n && |keys| <= 2
    ensures NoLoops(KeyEdges(hash, s1, s2, n, keys))
    ensures HasCycle(KeyEdges(hash, s1, s2, n, keys)) <==>
      |keys| == 2 && SamePair(hash, s1, s2, n, keys[0], keys[1])
  {
    hide HasCycle, KeyEdge;
    forall i | 0 <= i < |keys|
      ensures !IsLoop(KeyEdge(hash, s1, s2, n, keys[i]))
    {
      EdgeOfHashes(hash, s1, s2, n, keys[i]);
    }
    FewEdges(KeyEdges(hash, s1, s2, n, keys));
  }
}
