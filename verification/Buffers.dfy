/** The growable byte buffer of the C++ client, which doubles its allocation. Allocation is taken to succeed. */
module Buffers {
  import opened Bytes

  /** The capacity after growing until need bytes fit. */
  function Grown(capacity: nat, need: nat): (c: nat)
    ensures need <= c && capacity <= c
    decreases if capacity < need then need - capacity else 0
  {
    if need <= capacity then capacity else Grown(if capacity == 0 then 64 else capacity * 2, need)
  }

  /** Doubling overshoots by less than a factor of two. */
  lemma {:induction false} GrownBound(capacity: nat, need: nat)
    ensures Grown(capacity, need) <= capacity || Grown(capacity, need) < 2 * need || Grown(capacity, need) == 64
    decreases if capacity < need then need - capacity else 0
  {
    if capacity < need {
      var next := if capacity == 0 then 64 else capacity * 2;
      if next < need {
        GrownBound(next, need);
      }
    }
  }

  class Buffer {
    var data: array<byte>
    var count: nat

    ghost predicate Valid()
      reads this
    {
      count <= data.Length
    }

    ghost function Contents(): (s: bytes)
      reads this, data
      requires Valid()
      ensures |s| == count
    {
      data[..count]
    }

    constructor (capacity: nat)
      ensures Valid() && count == 0 && data.Length == capacity && fresh(data)
    {
      data := new byte[capacity];
      count := 0;
    }

    method GrowCapacity()
      requires Valid()
      modifies this`data
      ensures Valid() && fresh(data)
      ensures data.Length == if old(data.Length) == 0 then 64 else old(data.Length) * 2
      ensures Contents() == old(Contents())
    {
      var bigger := new byte[if data.Length == 0 then 64 else data.Length * 2];
      forall i | 0 <= i < count {
        bigger[i] := data[i];
      }
      data := bigger;
    }

    /** Makes room for n more bytes. */
    method Preallocate(n: nat)
      requires Valid()
      modifies this`data
      ensures Valid() && (data == old(data) || fresh(data))
      ensures data.Length == Grown(old(data.Length), count + n)
      ensures Contents() == old(Contents())
    {
      while count + n > data.Length
        invariant Valid() && (data == old(data) || fresh(data))
        invariant Grown(data.Length, count + n) == Grown(old(data.Length), count + n)
        invariant Contents() == old(Contents())
        decreases count + n - data.Length
      {
        GrowCapacity();
      }
    }

    /** Appends what an outside writer left behind the contents. */
    method Write(buf: bytes)
      requires Valid()
      modifies this, data
      ensures Valid() && (data == old(data) || fresh(data))
      ensures data.Length == Grown(old(data.Length), old(count) + |buf|)
      ensures Contents() == old(Contents()) + buf
    {
      Preallocate(|buf|);
      forall i | 0 <= i < |buf| {
        data[count + i] := buf[i];
      }
      count := count + |buf|;
    }

    /** memmove: the surviving bytes slide to the front. */
    method EraseFromStart(n: nat)
      requires Valid() && n <= count
      modifies this`count, data
      ensures Valid() && Contents() == old(Contents())[n..]
    {
      forall i | 0 <= i < count - n {
        data[i] := data[n + i];
      }
      count := count - n;
    }
  }
}
