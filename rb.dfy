/**
  A fixed-capacity circular queue over a vector of optional slots.
  `tail` is the slot of the oldest element, `head` the slot the next element
  is written to, and `len` the number of occupied slots.
 */
module RingBuffers {
  import opened Wrappers

  /** The slot `k` places after `tail`, wrapping around once. */
  function Offset(tail: nat, k: nat, capacity: nat): (r: nat)
    requires tail < capacity && k <= capacity
    ensures r < capacity
  {
    if tail + k < capacity then tail + k else tail + k - capacity
  }

  /** The source's `% capacity` on an index below twice the capacity. */
  lemma ModOnce(x: nat, capacity: nat)
    requires 0 < capacity && x < 2 * capacity
    ensures x % capacity == if x < capacity then x else x - capacity
  {
  }

  /** Stepping one slot and then `k` more is stepping `k + 1`. */
  lemma OffsetStep(tail: nat, k: nat, capacity: nat)
    requires tail < capacity && k < capacity
    ensures Offset(Offset(tail, 1, capacity), k, capacity) == Offset(tail, k + 1, capacity)
  {
  }

  class RingBuffer<T> {
    const capacity: nat
    const buffer: array<Option<T>>
    var head: nat
    var tail: nat
    var len: nat

    /** The queued elements, oldest first. */
    ghost var Contents: seq<T>

    /**
      The object invariant: the `len` slots starting at `tail` (wrapping) hold
      the contents in order, every other slot is empty, and `head` is the
      slot just after the newest element.
     */
    ghost predicate Valid()
      reads this, buffer
    {
      && buffer.Length == capacity && 0 < capacity
      && len <= capacity && tail < capacity && head < capacity
      && head == Offset(tail, len, capacity)
      && |Contents| == len
      && (forall k :: 0 <= k < len ==> buffer[Offset(tail, k, capacity)] == Some(Contents[k]))
      && (forall k :: len <= k < capacity ==> buffer[Offset(tail, k, capacity)] == None)
    }

    /** `new` panics on a zero capacity; otherwise every slot starts empty. */
    constructor (capacity: nat)
      requires capacity > 0
      ensures Valid() && fresh(buffer)
      ensures this.capacity == capacity && Contents == []
      ensures head == 0 && tail == 0 && len == 0
      ensures forall i :: 0 <= i < capacity ==> buffer[i] == None
    {
      this.capacity := capacity;
      buffer := new Option<T>[capacity](_ => None);
      head, tail, len := 0, 0, 0;
      Contents := [];
    }

    function Capacity(): (r: nat)
      reads this, buffer
      requires Valid()
      ensures 0 < r && |Contents| <= r
    {
      capacity
    }

    function Len(): (r: nat)
      reads this, buffer
      requires Valid()
      ensures r == |Contents|
    {
      len
    }

    predicate IsEmpty()
      reads this, buffer
      requires Valid()
      ensures IsEmpty() <==> Contents == []
    {
      len == 0
    }

    predicate IsFull()
      reads this, buffer
      requires Valid()
      ensures IsFull() <==> |Contents| == capacity
    {
      len == capacity
    }

    /**
      On a full buffer the write slot is the oldest element's slot, so
      writing at `head` overwrites the oldest element.
     */
    lemma FullHeadIsTail()
      requires Valid() && len == capacity
      ensures head == tail
    {
    }

    /** Appends `item`; on a full buffer the oldest element is overwritten. */
    method Push(item: T)
      requires Valid()
      modifies this, buffer
      ensures Valid()
      ensures old(len) == capacity ==> Contents == old(Contents)[1..] + [item]
      ensures old(len) < capacity ==> Contents == old(Contents) + [item]
      ensures head == (old(head) + 1) % capacity
      ensures tail == if old(len) == capacity then (old(tail) + 1) % capacity else old(tail)
    {
      if IsFull() {
        buffer[head] := Some(item);
        ModOnce(tail + 1, capacity);
        tail := (tail + 1) % capacity;
        Contents := Contents[1..] + [item];
        forall k | 0 <= k < capacity
          ensures Offset(tail, k, capacity) == Offset(old(tail), k + 1, capacity)
        {
          OffsetStep(old(tail), k, capacity);
        }
      } else {
        buffer[head] := Some(item);
        len := len + 1;
        Contents := Contents + [item];
      }
      ModOnce(head + 1, capacity);
      head := (head + 1) % capacity;
    }

    /** Appends `item` unless the buffer is full, in which case nothing changes. */
    method TryPush(item: T)
      requires Valid()
      modifies this, buffer
      ensures Valid()
      ensures old(len) == capacity ==> unchanged(this, buffer)
      ensures old(len) < capacity ==> Contents == old(Contents) + [item]
      ensures old(len) < capacity ==> head == (old(head) + 1) % capacity && tail == old(tail)
    {
      if IsFull() {
        return;
      } else {
        buffer[head] := Some(item);
        len := len + 1;
        Contents := Contents + [item];
      }
      ModOnce(head + 1, capacity);
      head := (head + 1) % capacity;
    }

    /** Removes and returns the oldest element, emptying its slot. */
    method Pop() returns (r: Option<T>)
      requires Valid()
      modifies this, buffer
      ensures Valid()
      ensures old(len) == 0 ==> r == None && unchanged(this, buffer)
      ensures old(len) > 0 ==> r == Some(old(Contents)[0]) && Contents == old(Contents)[1..]
      ensures old(len) > 0 ==> tail == (old(tail) + 1) % capacity && head == old(head)
      ensures old(len) > 0 ==> buffer[old(tail)] == None
    {
      if IsEmpty() {
        r := None;
      } else {
        r := buffer[tail];
        buffer[tail] := None;
        ModOnce(tail + 1, capacity);
        tail := (tail + 1) % capacity;
        len := len - 1;
        Contents := Contents[1..];
        forall k | 0 <= k < capacity
          ensures Offset(tail, k, capacity) == Offset(old(tail), k + 1, capacity)
        {
          OffsetStep(old(tail), k, capacity);
        }
      }
    }

    /** The oldest element, if any; nothing changes. */
    function Peek(): (r: Option<T>)
      reads this, buffer
      requires Valid()
      ensures Contents == [] ==> r == None
      ensures Contents != [] ==> r == Some(Contents[0])
    {
      if IsEmpty() then None else buffer[tail]
    }

    /**
      `peek_mut`: hands out the oldest element for in-place editing. The
      caller's edit is `edit`; the method returns the element as it was.
     */
    method PeekMut(edit: T -> T) returns (r: Option<T>)
      requires Valid()
      modifies buffer, this`Contents
      ensures Valid()
      ensures old(Contents) == [] ==> r == None && unchanged(this, buffer)
      ensures old(Contents) != [] ==>
        r == Some(old(Contents)[0]) && Contents == [edit(old(Contents)[0])] + old(Contents)[1..]
    {
      if IsEmpty() {
        r := None;
      } else {
        assert Offset(tail, 0, capacity) == tail;
        r := buffer[tail];
        buffer[tail] := Some(edit(r.value));
        Contents := [edit(r.value)] + Contents[1..];
      }
    }

    /** Empties every slot and resets both indices. */
    method Clear()
      requires Valid()
      modifies this, buffer
      ensures Valid() && Contents == []
      ensures head == 0 && tail == 0 && len == 0
      ensures forall i :: 0 <= i < capacity ==> buffer[i] == None
    {
      head := 0;
      tail := 0;
      len := 0;
      for i := 0 to capacity
        modifies buffer
        invariant forall j :: 0 <= j < i ==> buffer[j] == None
      {
        buffer[i] := None;
      }
      Contents := [];
    }
  }
}
