/** vqueue.c: a circular queue that keeps one slot free. */
module VQueues {
  import opened Words

  /** The array index k places behind i. */
  function Slot(i: nat, k: nat, capacity: nat): int {
    if i + k < capacity then i + k else i + k - capacity
  }

  class VQueue {
    const values: array<uint32>
    const capacity: nat
    var beg: nat
    var end: nat

    ghost var contents: seq<uint32>

    ghost predicate Valid()
      reads this, values
    {
      && 0 < capacity == values.Length && beg < capacity && |contents| < capacity
      && end == Slot(beg, |contents|, capacity)
      && forall k :: 0 <= k < |contents| ==> values[Slot(beg, k + 1, capacity)] == contents[k]
    }

    constructor (capacity: nat)
      ensures Valid() && contents == [] && this.capacity == capacity + 1
      ensures fresh(values)
    {
      values := new uint32[capacity + 1](_ => 0);
      beg, end := 0, 0;
      this.capacity := capacity + 1;
      contents := [];
    }

    method IsEmpty() returns (r: bool)
      requires Valid()
      ensures r <==> contents == []
    {
      r := beg == end;
    }

    /** The source asserts that the queue is not full; that is what callers must show. */
    method Insert(val: uint32)
      requires Valid() && |contents| + 1 < capacity
      modifies this, values
      ensures Valid() && contents == old(contents) + [val]
    {
      Wrap(end + 1, capacity);
      assert (end + 1) % capacity != beg;
      end := (end + 1) % capacity;
      ghost var before := values[..];
      values[end] := val;
      contents := contents + [val];
      forall k | 0 <= k < |contents|
        ensures values[Slot(beg, k + 1, capacity)] == contents[k]
      {
        assert k < |contents| - 1 ==> values[Slot(beg, k + 1, capacity)] == before[Slot(beg, k + 1, capacity)];
      }
    }

    method Remove() returns (val: uint32)
      requires Valid() && contents != []
      modifies this
      ensures Valid() && old(contents) == [val] + contents
    {
      Wrap(beg + 1, capacity);
      ghost var b0 := beg;
      beg := (beg + 1) % capacity;
      val := values[beg];
      assert val == values[Slot(b0, 0 + 1, capacity)] == contents[0];
      ghost var c0 := contents;
      contents := contents[1..];
      forall k | 0 <= k < |contents|
        ensures values[Slot(beg, k + 1, capacity)] == contents[k]
      {
        assert Slot(beg, k + 1, capacity) == Slot(b0, (k + 1) + 1, capacity);
        assert values[Slot(b0, (k + 1) + 1, capacity)] == c0[k + 1];
      }
    }
  }

  lemma Wrap(i: nat, n: nat)
    requires 0 < n && i < 2 * n
    ensures i % n == if i < n then i else i - n
  {
    if i >= n {
      assert i == n + (i - n);
    }
  }
}
