/**
 * The blocking queue as an object over the ring queue. Each method is the critical section of a call,
 * entered with the mutex held and left at its unlock or at a wait; it does to the ring and the counters
 * what the monitor's step does to its state.
 */
module QueueObject {
  import opened BlockingQueue
  import opened CircularQueue

  class MpmcBlockingQueue<T(0)> {
    const q: CircularQ<T>
    var discardCounter: nat

    ghost predicate Valid()
      reads this, q
    {
      q.Valid() && q.maxItems > 0
    }

    /** The object holds what the monitor's state says. */
    ghost predicate Represents(s: State<T>)
      reads this, q, q.v
    {
      && Valid() && q.Slots() == s.slots && q.Contents() == s.q
      && q.overrunCounter == s.overrunCounter && discardCounter == s.discardCounter
    }

    constructor (maxItems: nat)
      ensures fresh(q) && fresh(q.v)
      ensures forall threads: nat :: Represents(Start(maxItems, threads))
    {
      q := new CircularQ(maxItems);
      discardCounter := 0;
    }

    /** enqueue: tests for room under the lock, at first and after each wake-up, and waits if there is none. */
    method Enqueue(item: T, ghost s: State<T>, ghost t: nat, ghost waiter: nat) returns (waits: bool)
      requires Represents(s) && t < |s.threads|
      requires s.threads[t] == Enqueuing(item) || s.threads[t] == EnqueueWoken(item)
      modifies q, q.v
      ensures q.v == old(q.v) && |s.q| <= s.slots && Represents(StepThread(s, t, waiter))
      ensures StepThread(s, t, waiter).threads[t] == if waits then EnqueueWaiting(item) else NotifyingPush
    {
      var full := q.IsFull();
      if full {
        return true;
      }
      q.PushBack(item);
      return false;
    }

    method EnqueueNowait(item: T, ghost s: State<T>, ghost t: nat, ghost waiter: nat)
      requires Represents(s) && t < |s.threads| && s.threads[t] == Overrunning(item)
      modifies q, q.v
      ensures q.v == old(q.v) && |s.q| <= s.slots && Represents(StepThread(s, t, waiter))
      ensures StepThread(s, t, waiter).threads[t] == NotifyingPush
    {
      q.PushBack(item);
    }

    /** The first half of enqueue_if_have_room, under the lock. */
    method EnqueueIfHaveRoom(item: T, ghost s: State<T>, ghost t: nat, ghost waiter: nat) returns (pushed: bool)
      requires Represents(s) && t < |s.threads| && s.threads[t] == Trying(item)
      modifies q, q.v
      ensures q.v == old(q.v) && |s.q| <= s.slots && Represents(StepThread(s, t, waiter))
      ensures StepThread(s, t, waiter).threads[t] == if pushed then NotifyingPush else Discarding
    {
      pushed := false;
      var full := q.IsFull();
      if !full {
        q.PushBack(item);
        pushed := true;
      }
    }

    /** Its second half without a push, outside the lock. */
    method CountDiscard(ghost s: State<T>, ghost t: nat, ghost waiter: nat)
      requires Represents(s) && t < |s.threads| && s.threads[t] == Discarding && |s.q| <= s.slots
      modifies this`discardCounter
      ensures Represents(StepThread(s, t, waiter))
    {
      discardCounter := discardCounter + 1;
    }

    /** dequeue, and dequeue_for while its time lasts: takes the front item or waits. */
    method Dequeue(ghost s: State<T>, ghost t: nat, ghost waiter: nat) returns (waits: bool, popped: seq<T>)
      requires Represents(s) && t < |s.threads|
      requires s.threads[t].Dequeuing? || s.threads[t].DequeueWoken?
      modifies q
      ensures q.v == old(q.v) && |s.q| <= s.slots && Represents(StepThread(s, t, waiter))
      ensures waits <==> s.q == []
      ensures waits ==> popped == [] && StepThread(s, t, waiter).threads[t].DequeueWaiting?
      ensures !waits ==> popped == [s.q[0]] && StepThread(s, t, waiter).threads[t] == NotifyingPop(popped[0])
    {
      var empty := q.IsEmpty();
      if empty {
        return true, [];
      }
      var front := q.Front();
      q.PopFront();
      return false, [front];
    }

    /** dequeue_for once its time is up: takes the front item or gives up. */
    method DequeueExpired(ghost s: State<T>, ghost t: nat, ghost waiter: nat) returns (ok: bool, popped: seq<T>)
      requires Represents(s) && t < |s.threads| && s.threads[t] == Local.DequeueExpired
      modifies q
      ensures q.v == old(q.v) && |s.q| <= s.slots && Represents(StepThread(s, t, waiter))
      ensures ok <==> s.q != []
      ensures ok ==> popped == [s.q[0]] && StepThread(s, t, waiter).threads[t] == NotifyingPop(popped[0])
      ensures !ok ==> popped == [] && StepThread(s, t, waiter).threads[t] == Idle
    {
      var empty := q.IsEmpty();
      if empty {
        return false, [];
      }
      var front := q.Front();
      q.PopFront();
      return true, [front];
    }
  }
}
