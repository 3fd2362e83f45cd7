/** The doubling ring queue of service_package.c. */
module RingQueues {

  /** The elements of a ring from head up to tail, around the end of the buffer if need be. */
  ghost function Ring<T>(buf: seq<T>, head: nat, tail: nat): (s: seq<T>)
    requires head < |buf| && tail < |buf|
    ensures |s| == if head <= tail then tail - head else |buf| - head + tail
  {
    if head <= tail then buf[head..tail] else buf[head..] + buf[..tail]
  }

  /** Index of the k-th slot behind head. */
  function Slot(cap: nat, head: nat, k: nat): (i: nat)
    requires head < cap && k < cap
    ensures i < cap
  {
    if head + k < cap then head + k else head + k - cap
  }

  lemma RingAt<T>(buf: seq<T>, head: nat, tail: nat, k: nat)
    requires head < |buf| && tail < |buf| && k < |Ring(buf, head, tail)|
    ensures Ring(buf, head, tail)[k] == buf[Slot(|buf|, head, k)]
  {
  }

  class Queue<T(0)> {
    var head: nat
    var tail: nat
    var buffer: array<T>

    ghost predicate Valid()
      reads this
    {
      0 < buffer.Length && head < buffer.Length && tail < buffer.Length
    }

    ghost function Contents(): seq<T>
      requires Valid()
      reads this, buffer
    {
      Ring(buffer[..], head, tail)
    }

    /** queue_init */
    constructor ()
      ensures Valid() && Contents() == [] && fresh(buffer)
    {
      head, tail := 0, 0;
      buffer := new T[4];
    }

    /** queue_empty */
    predicate Empty()
      requires Valid()
      reads this, buffer
      ensures Empty() <==> Contents() == []
    {
      head == tail
    }

    /** queue_size */
    function Size(): (n: nat)
      requires Valid()
      reads this, buffer
      ensures n == |Contents()|
    {
      if head > tail then tail + buffer.Length - head else tail - head
    }

    /** queue_pop; the original reports an empty queue and copies nothing then. */
    method Pop() returns (empty: bool, result: T)
      requires Valid()
      modifies this`head
      ensures Valid() && empty == old(Empty())
      ensures empty ==> Contents() == old(Contents())
      ensures !empty ==> old(Contents()) == [result] + Contents()
    {
      empty, result := head == tail, buffer[head];
      if !empty {
        head := head + 1;
        if head >= buffer.Length {
          head := 0;
        }
      }
    }

    /** The copy loop of queue_push: the whole ring from head on, unrolled into a buffer of twice the size. */
    method Unroll(tmp: array<T>)
      requires Valid() && tmp.Length == 2 * buffer.Length && tmp != buffer
      modifies tmp
      ensures forall k :: 0 <= k < buffer.Length ==> tmp[k] == buffer[Slot(buffer.Length, head, k)]
    {
      var h := head;
      for i := 0 to buffer.Length
        invariant h == if i < buffer.Length then Slot(buffer.Length, head, i) else head
        invariant forall k :: 0 <= k < i ==> tmp[k] == buffer[Slot(buffer.Length, head, k)]
      {
        tmp[i] := buffer[h];
        h := h + 1;
        if h >= buffer.Length {
          h := 0;
        }
      }
    }

    /** queue_push */
    method Push(value: T)
      requires Valid()
      modifies this, buffer
      ensures Valid() && Contents() == old(Contents()) + [value]
      ensures buffer == old(buffer) || fresh(buffer)
    {
      ghost var s := Contents();
      ghost var end := tail;
      var slot := tail;
      tail := tail + 1;
      if tail >= buffer.Length {
        tail := 0;
      }
      if head == tail {
        var cap := buffer.Length;
        var tmp := new T[2 * cap];
        Unroll(tmp);
        forall k | 0 <= k < cap - 1 ensures tmp[k] == s[k] {
          RingAt(buffer[..], head, end, k);
        }
        slot, head, tail, buffer := cap - 1, 0, cap, tmp;
      }
      buffer[slot] := value;
    }
  }
}
