/**
  Queueing locks (emu/lock.c): the sections that qlock, canqlock and qunlock run while they hold the
  spin lock `use`, on the linked queue of waiting processes.
 */
module QueueLock {
  import opened Links
  import opened Procs
  import opened Seqs

  /** A queueing lock as a value: taken or not, and who waits, first come first. */
  datatype Lock = State(locked: bool, queue: seq<Proc>)

  /** qlock: the lock if it is free, else a place at the end of the queue. */
  function Grab(q: Lock, p: Proc): Lock {
    if q.locked then q.(queue := q.queue + [p]) else q.(locked := true)
  }

  /** qunlock: the first in the queue becomes the owner, else the lock is free. */
  function Release(q: Lock): Lock {
    if |q.queue| > 0 then q.(queue := q.queue[1..]) else q.(locked := false)
  }

  class QLock {
    var head: Proc
    var tail: Proc
    var locked: bool
    var qnext: map<Proc, Proc>
    ghost var queue: seq<Proc>

    ghost function Value(): Lock
      reads this
    {
      State(locked, queue)
    }

    ghost predicate Valid()
      reads this
    {
      && Linked(qnext, head, queue)
      && tail == (if |queue| == 0 then NOBODY else queue[|queue| - 1])
      && NOBODY !in queue && (|queue| > 0 ==> locked)
      && NoDup(queue)
    }

    constructor ()
      ensures Valid() && Value() == State(false, [])
    {
      head, tail, locked, qnext, queue := NOBODY, NOBODY, false, map[], [];
    }

    /** What qlock does with the spin lock held; the caller must wait when it returns true. */
    method Lock(up: Proc) returns (wait: bool)
      requires Valid() && up != NOBODY && up !in queue
      modifies this
      ensures Valid() && Value() == Grab(old(Value()), up) && wait == old(locked)
    {
      if !locked {
        locked := true;
        return false;
      }
      var p := tail;
      if p == NOBODY {
        head := up;
      } else {
        qnext := qnext[p := up];
      }
      tail := up;
      LinkedMore(old(qnext), old(head), queue, up);
      qnext := qnext[up := NOBODY];
      queue := queue + [up];
      return true;
    }

    /** What canqlock does with the spin lock held. */
    method CanLock() returns (got: bool)
      requires Valid()
      modifies this`locked
      ensures Valid() && locked && got == !old(locked)
    {
      if locked {
        return false;
      }
      locked := true;
      return true;
    }

    /** What qunlock does with the spin lock held: the process to wake, or NOBODY. */
    method Unlock() returns (p: Proc)
      requires Valid()
      modifies this
      ensures Valid() && Value() == Release(old(Value()))
      ensures p == if |old(queue)| > 0 then old(queue)[0] else NOBODY
    {
      p := head;
      if p != NOBODY {
        head := qnext[p];
        queue := queue[1..];
        if head == NOBODY {
          tail := NOBODY;
        }
        return;
      }
      locked := false;
    }
  }
}
