/**
 The circular queue of vqueue.c. One slot always stays empty, so that a full queue is told from
 an empty one.
 */
module VQueue {

  /** The place after `i`, wrapping around */
  function Next(i: nat, capacity: nat): (j: nat)
    requires i < capacity
    ensures j == if i + 1 == capacity then 0 else i + 1
  {
    NextIsModulo(i, capacity);
    (i + 1) % capacity
  }

  lemma NextIsModulo(i: nat, capacity: nat)
    requires i < capacity
    ensures (i + 1) % capacity == if i + 1 == capacity then 0 else i + 1
  {
  }

  /** The place `k` steps after `i` */
  function Place(i: nat, k: nat, capacity: nat): (j: nat)
    requires i < capacity && k < capacity
    ensures j < capacity
  {
    if i + k >= capacity then i + k - capacity else i + k
  }

  /** The `size` entries after place `beg` */
  function Queued(values: seq<nat>, beg: nat, size: nat): (s: seq<nat>)
    requires beg < |values| && size < |values|
    ensures |s| == size
  {
    seq<nat>(size, k requires 0 <= k < size => values[Place(Next(beg, |values|), k, |values|)])
  }

  class Queue {
    const values: array<nat>
    const capacity: nat
    var beg: nat
    var end: nat

    ghost predicate Valid()
      reads this
    {
      values.Length == capacity >= 1 && beg < capacity && end < capacity
    }

    function Size(): (n: nat)
      requires Valid()
      reads this
      ensures n < capacity
    {
      if end >= beg then end - beg else end + capacity - beg
    }

    /** The queued numbers, the oldest first */
    function Contents(): (s: seq<nat>)
      requires Valid()
      reads this, values
      ensures |s| == Size()
    {
      Queued(values[..], beg, Size())
    }

    /** `vqueue_new` */
    constructor (capacity: nat)
      ensures Valid() && fresh(values) && this.capacity == capacity + 1 && Contents() == []
    {
      this.capacity := capacity + 1;
      values := new nat[capacity + 1](_ => 0);
      beg, end := 0, 0;
    }

    /** `vqueue_is_empty` */
    method IsEmpty() returns (r: bool)
      requires Valid()
      ensures r <==> Contents() == []
    {
      r := beg == end;
    }

    /** What the assertion of `vqueue_insert` asks */
    method IsFull() returns (r: bool)
      requires Valid()
      ensures r <==> Size() + 1 == capacity
    {
      r := Next(end, capacity) == beg;
    }

    /** `vqueue_insert`, on a queue that is not full */
    method Insert(val: nat)
      requires Valid() && Size() + 1 < capacity
      modifies this, values
      ensures Valid() && Contents() == old(Contents()) + [val]
    {
      ghost var before := Contents();
      end := Next(end, capacity);
      values[end] := val;
      assert Size() == |before| + 1;
      assert end == Place(Next(beg, capacity), |before|, capacity);
      assert Contents() == before + [val];
    }

    /** `vqueue_remove`, on a queue that is not empty */
    method Remove() returns (val: nat)
      requires Valid() && Contents() != []
      modifies this
      ensures Valid() && [val] + Contents() == old(Contents())
    {
      ghost var before := Contents();
      beg := Next(beg, capacity);
      val := values[beg];
      assert Size() == |before| - 1;
      assert [val] + Contents() == before;
    }
  }
}
