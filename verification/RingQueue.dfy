/** The bounded ring shared by the single-producer and the multi-producer queue, run by one
    thread at a time; QueueProtocol has the concurrent reading. */
module RingQueue {
  import opened Options
  import opened Ring

  class RingQueue<T(0)> {
    const capacity: nat
    const buffer: array<T>
    var head: nat
    var tail: nat

    ghost predicate Valid()
      reads this
    {
      capacity > 0 && buffer.Length == capacity + 1 && head < buffer.Length && tail < buffer.Length
    }

    /** The queued values, oldest first. */
    ghost function Contents(): (s: seq<T>)
      requires Valid()
      reads this, buffer
      ensures |s| <= capacity && head == Wrap(tail + |s|, capacity + 1)
    {
      Between(buffer[..], tail, head)
    }

    constructor (capacity: nat)
      requires capacity > 0
      ensures Valid() && fresh(buffer) && this.capacity == capacity && Contents() == []
    {
      this.capacity := capacity;
      buffer := new T[capacity + 1];
      head, tail := 0, 0;
    }

    /** Refused exactly when `capacity` values are queued; appended at the back otherwise. */
    method Emplace(value: T) returns (pushed: bool)
      requires Valid()
      modifies this`head, buffer
      ensures Valid()
      ensures pushed <==> |old(Contents())| < capacity
      ensures Contents() == if pushed then old(Contents()) + [value] else old(Contents())
    {
      var currentHead := head;
      var nextHead := Next(currentHead, capacity + 1);
      if nextHead == tail {
        return false;
      }
      BetweenPush(buffer[..], tail, head, value);
      buffer[currentHead] := value;
      head := nextHead;
      return true;
    }

    /** Nothing exactly when empty; the front value, removed, otherwise. Moving a value out of its
        slot leaves `moved` of it there. */
    method Pop(moved: T -> T) returns (r: Option<T>)
      requires Valid()
      modifies this`tail, buffer
      ensures Valid()
      ensures r.None? <==> old(Contents()) == []
      ensures r.None? ==> Contents() == []
      ensures r.Some? ==> old(Contents()) == [r.value] + Contents()
    {
      var currentTail := tail;
      if currentTail == head {
        return None;
      }
      var value := buffer[currentTail];
      BetweenPop(buffer[..], tail, head, moved(value));
      buffer[currentTail] := moved(value);
      tail := Next(currentTail, capacity + 1);
      return Some(value);
    }

    method Empty() returns (empty: bool)
      requires Valid()
      ensures empty <==> Contents() == []
    {
      empty := tail == head;
    }
  }
}
