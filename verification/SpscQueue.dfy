/** The bounded first-in first-out handoff: its contract on sequences and the ring buffer that meets it. */
module Queues {
  import opened Words

  /** The contract both engines' queues are held to: the outcome of an attempt to push and the queue after it. */
  function Pushed<T>(queue: seq<T>, value: T, capacity: nat): (bool, seq<T>) {
    if |queue| < capacity then (true, queue + [value]) else (false, queue)
  }

  function Popped<T>(queue: seq<T>): (Option<T>, seq<T>) {
    if queue == [] then (None, queue) else (Some(queue[0]), queue[1..])
  }

  function NextIndex(index: nat, capacity: nat): nat
    requires index < capacity
  {
    (index + 1) % capacity
  }

  lemma NextIndexWraps(index: nat, capacity: nat)
    requires index < capacity
    ensures NextIndex(index, capacity) == if index + 1 < capacity then index + 1 else 0
  {
    if index + 1 == capacity {
      assert capacity % capacity == 0;
    }
  }

  /** A ring of optional slots; every operation holds the lock, so each is one atomic step. */
  class StandardSpscQueue<T> {
    const slots: array<Option<T>>
    var read: nat
    var write: nat
    var size: nat
    ghost var contents: seq<T>

    /** How far slot `j` lies behind the read position, going round. */
    ghost function Offset(j: nat): int
      reads this
    {
      if j >= read then j - read else j - read + slots.Length
    }

    /** The occupied slots, in ring order from the read position, hold the contents; every other slot is empty. */
    ghost predicate Valid()
      reads this, slots
    {
      && |contents| == size <= slots.Length
      && (slots.Length > 0 ==> read < slots.Length)
      && (slots.Length == 0 ==> read == 0)
      && write == (if read + size < slots.Length then read + size else read + size - slots.Length)
      && forall j :: 0 <= j < slots.Length ==>
           slots[j] == if Offset(j) < size then Some(contents[Offset(j)]) else None
    }

    constructor (capacity: nat)
      ensures Valid() && fresh(slots) && slots.Length == capacity
      ensures contents == []
    {
      slots := new Option<T>[capacity](_ => None);
      read, write, size := 0, 0, 0;
      contents := [];
    }

    method TryPush(value: T) returns (ok: bool)
      requires Valid()
      modifies this, slots
      ensures Valid()
      ensures (ok, contents) == Pushed(old(contents), value, slots.Length)
    {
      if size == slots.Length {
        return false;
      }
      hide NextIndex;
      NextIndexWraps(write, slots.Length);
      slots[write] := Some(value);
      write := NextIndex(write, slots.Length);
      size := size + 1;
      contents := contents + [value];
      return true;
    }

    method TryPop() returns (value: Option<T>)
      requires Valid()
      modifies this, slots
      ensures Valid()
      ensures (value, contents) == Popped(old(contents))
    {
      if size == 0 {
        return None;
      }
      hide NextIndex;
      NextIndexWraps(read, slots.Length);
      value := slots[read];
      slots[read] := None;
      read := NextIndex(read, slots.Length);
      size := size - 1;
      contents := contents[1..];
    }
  }
}
