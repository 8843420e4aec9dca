/**
 * The blocking queue as a monitor: a critical section is one step, and so are each wait, wake-up
 * and notification. Any number of threads call it; notifications are sent after the unlock.
 */
module BlockingQueue {
  import opened BoundedSeq
  import opened Counting

  /** Where one thread is in its call. */
  datatype Local<T> =
    | Idle
    | Enqueuing(item: T)        // enqueue: about to lock and test for room
    | EnqueueWaiting(item: T)   // blocked on pop_cv_, not signalled
    | EnqueueWoken(item: T)     // woken: about to lock and test for room again
    | Overrunning(item: T)      // enqueue_nowait: about to lock and push
    | Trying(item: T)           // enqueue_if_have_room: about to lock and test for room
    | NotifyingPush             // unlocked after a push, about to notify push_cv_
    | Discarding                // unlocked without a push, about to count the discard
    | Dequeuing(timed: bool)    // about to lock and test for an item
    | DequeueWaiting(timed: bool)
    | DequeueWoken(timed: bool)
    | DequeueExpired            // timed out: about to lock and test a last time
    | NotifyingPop(taken: T)    // unlocked after a pop, about to notify pop_cv_

  datatype Call<T> = Enqueue(item: T) | EnqueueNowait(item: T) | EnqueueIfRoom(item: T) | Dequeue(timed: bool)

  /** How an accepted item left the queue. */
  datatype Exit<T> = Taken(item: T, thread: nat) | Overrun(item: T)

  /**
   * The queue, its counters and its threads. History: the items accepted and, oldest first, how
   * the front ones left; and how many items were refused.
   */
  datatype State<T> = State(slots: nat, q: seq<T>, overrunCounter: nat, discardCounter: nat,
                            threads: seq<Local<T>>,
                            accepted: seq<T>, exits: seq<Exit<T>>, refused: nat)

  datatype Event<T> =
    | Begin(thread: nat, call: Call<T>)
    | Step(thread: nat, waiter: nat)   // `waiter` is whom a notification wakes
    | Spurious(thread: nat)
    | Expire(thread: nat)

  function Start<T>(slots: nat, threads: nat): State<T> {
    State(slots, [], 0, 0, seq(threads, i => Idle), [], [], 0)
  }

  // ----- Steps -----

  function At<T>(s: State<T>, t: nat): Local<T> {
    if t < |s.threads| then s.threads[t] else Idle
  }

  function Move<T>(s: State<T>, t: nat, l: Local<T>): State<T>
    requires t < |s.threads|
  {
    s.(threads := s.threads[t := l])
  }

  /** Push under the lock: the oldest item gives way when no slot is left. */
  function Pushed<T>(s: State<T>, item: T): State<T>
    requires |s.q| <= s.slots
  {
    var full := |s.q| == s.slots;
    s.(q := Push(s.q, item, s.slots),
       overrunCounter := if full then s.overrunCounter + 1 else s.overrunCounter,
       accepted := s.accepted + [item],
       exits := if full then s.exits + [Overrun((s.q + [item])[0])] else s.exits)
  }

  function Popped<T>(s: State<T>, t: nat): State<T>
    requires s.q != []
  {
    s.(q := s.q[1..], exits := s.exits + [Taken(s.q[0], t)])
  }

  /** The next step of thread t; a thread that waits has none. */
  function StepThread<T>(s: State<T>, t: nat, waiter: nat): (s': State<T>)
    requires t < |s.threads| && |s.q| <= s.slots
    ensures |s'.q| <= s'.slots == s.slots && |s'.threads| == |s.threads|
  {
    match s.threads[t]
    case Enqueuing(item) =>
      if |s.q| == s.slots then Move(s, t, EnqueueWaiting(item)) else Move(Pushed(s, item), t, NotifyingPush)
    case EnqueueWoken(item) =>
      if |s.q| == s.slots then Move(s, t, EnqueueWaiting(item)) else Move(Pushed(s, item), t, NotifyingPush)
    case Overrunning(item) => Move(Pushed(s, item), t, NotifyingPush)
    case Trying(item) =>
      if |s.q| == s.slots then Move(s, t, Discarding).(refused := s.refused + 1)
      else Move(Pushed(s, item), t, NotifyingPush)
    case NotifyingPush =>
      if Count(s.threads, ConsumerWaits) == 0 then Move(s, t, Idle)
      else if waiter < |s.threads| && ConsumerWaits(s.threads[waiter]) then
        Move(Move(s, waiter, DequeueWoken(s.threads[waiter].timed)), t, Idle)
      else s
    case Discarding => Move(s, t, Idle).(discardCounter := s.discardCounter + 1)
    case Dequeuing(timed) =>
      if s.q == [] then Move(s, t, DequeueWaiting(timed)) else Move(Popped(s, t), t, NotifyingPop(s.q[0]))
    case DequeueWoken(timed) =>
      if s.q == [] then Move(s, t, DequeueWaiting(timed)) else Move(Popped(s, t), t, NotifyingPop(s.q[0]))
    case DequeueExpired => if s.q == [] then Move(s, t, Idle) else Move(Popped(s, t), t, NotifyingPop(s.q[0]))
    case NotifyingPop(_) =>
      if Count(s.threads, ProducerWaits) == 0 then Move(s, t, Idle)
      else if waiter < |s.threads| && ProducerWaits(s.threads[waiter]) then
        Move(Move(s, waiter, EnqueueWoken(s.threads[waiter].item)), t, Idle)
      else s
    case _ => s
  }

  function Next<T>(s: State<T>, e: Event<T>): (s': State<T>)
    requires |s.q| <= s.slots
    ensures |s'.q| <= s'.slots == s.slots && |s'.threads| == |s.threads|
  {
    match e
    case Begin(t, call) =>
      if t >= |s.threads| || s.threads[t] != Idle then s
      else
        Move(s, t, match call
                   case Enqueue(item) => Enqueuing(item)
                   case EnqueueNowait(item) => Overrunning(item)
                   case EnqueueIfRoom(item) => Trying(item)
                   case Dequeue(timed) => Dequeuing(timed))
    case Step(t, waiter) => if t >= |s.threads| then s else StepThread(s, t, waiter)
    case Spurious(t) =>
      (match At(s, t)
       case EnqueueWaiting(item) => Move(s, t, EnqueueWoken(item))
       case DequeueWaiting(timed) => Move(s, t, DequeueWoken(timed))
       case _ => s)
    case Expire(t) =>
      if At(s, t) == DequeueWaiting(true) then Move(s, t, DequeueExpired) else s
  }

  // ----- What is counted -----

  predicate ConsumerWaits<T>(l: Local<T>) { l.DequeueWaiting? }
  predicate ConsumerWoken<T>(l: Local<T>) { l.DequeueWoken? }
  predicate ProducerWaits<T>(l: Local<T>) { l.EnqueueWaiting? }
  predicate ProducerWoken<T>(l: Local<T>) { l.EnqueueWoken? }
  predicate OwesPushNotice<T>(l: Local<T>) { l.NotifyingPush? }
  predicate OwesPopNotice<T>(l: Local<T>) { l.NotifyingPop? }
  predicate OwesDiscard<T>(l: Local<T>) { l.Discarding? }

  /** All seven counts of a state's threads. */
  datatype Counts = Counts(consumersWaiting: nat, consumersWoken: nat, producersWaiting: nat, producersWoken: nat,
                           pushNotices: nat, popNotices: nat, discards: nat)

  function Tally<T>(threads: seq<Local<T>>): Counts {
    Counts(Count(threads, ConsumerWaits), Count(threads, ConsumerWoken), Count(threads, ProducerWaits),
           Count(threads, ProducerWoken), Count(threads, OwesPushNotice), Count(threads, OwesPopNotice),
           Count(threads, OwesDiscard))
  }

  function Bit(b: bool): nat { if b then 1 else 0 }

  lemma TallyMove<T>(threads: seq<Local<T>>, t: nat, l: Local<T>)
    requires t < |threads|
    ensures var a, b, o := Tally(threads), Tally(threads[t := l]), threads[t];
            && b.consumersWaiting == a.consumersWaiting - Bit(ConsumerWaits(o)) + Bit(ConsumerWaits(l))
            && b.consumersWoken == a.consumersWoken - Bit(ConsumerWoken(o)) + Bit(ConsumerWoken(l))
            && b.producersWaiting == a.producersWaiting - Bit(ProducerWaits(o)) + Bit(ProducerWaits(l))
            && b.producersWoken == a.producersWoken - Bit(ProducerWoken(o)) + Bit(ProducerWoken(l))
            && b.pushNotices == a.pushNotices - Bit(OwesPushNotice(o)) + Bit(OwesPushNotice(l))
            && b.popNotices == a.popNotices - Bit(OwesPopNotice(o)) + Bit(OwesPopNotice(l))
            && b.discards == a.discards - Bit(OwesDiscard(o)) + Bit(OwesDiscard(l))
  {
    CountUpdate(threads, t, l, ConsumerWaits);
    CountUpdate(threads, t, l, ConsumerWoken);
    CountUpdate(threads, t, l, ProducerWaits);
    CountUpdate(threads, t, l, ProducerWoken);
    CountUpdate(threads, t, l, OwesPushNotice);
    CountUpdate(threads, t, l, OwesPopNotice);
    CountUpdate(threads, t, l, OwesDiscard);
  }

  // ----- Invariants -----

  /** No wake-up is lost: while somebody waits, the work that could end the wait is announced or under way. */
  ghost predicate NoLostWakeup<T>(s: State<T>) {
    var c := Tally(s.threads);
    && (c.consumersWaiting > 0 ==> |s.q| <= c.pushNotices + c.consumersWoken)
    && (c.producersWaiting > 0 ==> s.slots - |s.q| <= c.popNotices + c.producersWoken)
  }

  function Items<T>(exits: seq<Exit<T>>): (r: seq<T>)
    ensures |r| == |exits|
  {
    seq(|exits|, i requires 0 <= i < |exits| => exits[i].item)
  }

  predicate IsOverrun<T>(x: Exit<T>) { x.Overrun? }

  /** Every accepted item is stored, was taken once or was overrun once, in the order of acceptance. */
  ghost predicate Conserved<T>(s: State<T>) {
    && s.accepted == Items(s.exits) + s.q
    && s.overrunCounter == Count(s.exits, IsOverrun)
    && s.refused == s.discardCounter + Tally(s.threads).discards
  }

  ghost predicate Inv<T>(s: State<T>) {
    |s.q| <= s.slots && NoLostWakeup(s) && Conserved(s)
  }

  // ----- Every step keeps them -----

  lemma PushedConserves<T>(s: State<T>, item: T)
    requires |s.q| <= s.slots && s.accepted == Items(s.exits) + s.q && s.overrunCounter == Count(s.exits, IsOverrun)
    ensures var s' := Pushed(s, item);
            && s'.accepted == Items(s'.exits) + s'.q
            && s'.overrunCounter == Count(s'.exits, IsOverrun)
  {
    var first := Overrun((s.q + [item])[0]);
    CountAppend(s.exits, first, IsOverrun);
    assert Items(s.exits + [first]) == Items(s.exits) + [first.item];
    assert s.q + [item] == [first.item] + (s.q + [item])[1..];
  }

  lemma PoppedConserves<T>(s: State<T>, t: nat)
    requires s.q != [] && s.accepted == Items(s.exits) + s.q && s.overrunCounter == Count(s.exits, IsOverrun)
    ensures var s' := Popped(s, t);
            && s'.accepted == Items(s'.exits) + s'.q
            && s'.overrunCounter == Count(s'.exits, IsOverrun)
  {
    var first := Taken(s.q[0], t);
    CountAppend(s.exits, first, IsOverrun);
    assert Items(s.exits + [first]) == Items(s.exits) + [first.item];
    assert s.q == [s.q[0]] + s.q[1..];
  }

  lemma PushKeeps<T>(s: State<T>, t: nat, item: T)
    requires Inv(s) && t < |s.threads|
    requires s.threads[t].Enqueuing? || s.threads[t].EnqueueWoken? || s.threads[t].Overrunning? || s.threads[t].Trying?
    ensures Inv(Move(Pushed(s, item), t, NotifyingPush))
  {
    PushedConserves(s, item);
    TallyMove(s.threads, t, NotifyingPush);
  }

  lemma PopKeeps<T>(s: State<T>, t: nat)
    requires Inv(s) && t < |s.threads| && s.q != []
    requires s.threads[t].Dequeuing? || s.threads[t].DequeueWoken? || s.threads[t].DequeueExpired?
    ensures Inv(Move(Popped(s, t), t, NotifyingPop(s.q[0])))
  {
    PoppedConserves(s, t);
    TallyMove(s.threads, t, NotifyingPop(s.q[0]));
  }

  /** A notification passes from the notifier to the woken thread; without a waiter nobody needs it. */
  lemma NotifyPushKeeps<T>(s: State<T>, t: nat, waiter: nat)
    requires Inv(s) && t < |s.threads| && s.threads[t].NotifyingPush?
    ensures Inv(StepThread(s, t, waiter))
  {
    TallyMove(s.threads, t, Idle);
    if waiter < |s.threads| && ConsumerWaits(s.threads[waiter]) {
      var l := DequeueWoken(s.threads[waiter].timed);
      TallyMove(s.threads, waiter, l);
      TallyMove(s.threads[waiter := l], t, Idle);
    }
  }

  lemma NotifyPopKeeps<T>(s: State<T>, t: nat, waiter: nat)
    requires Inv(s) && t < |s.threads| && s.threads[t].NotifyingPop?
    ensures Inv(StepThread(s, t, waiter))
  {
    TallyMove(s.threads, t, Idle);
    if waiter < |s.threads| && ProducerWaits(s.threads[waiter]) {
      var l := EnqueueWoken(s.threads[waiter].item);
      TallyMove(s.threads, waiter, l);
      TallyMove(s.threads[waiter := l], t, Idle);
    }
  }

  /** The steps of a call that leave the queue alone. */
  lemma TestKeeps<T>(s: State<T>, t: nat, waiter: nat)
    requires Inv(s) && t < |s.threads|
    requires match s.threads[t]
             case Enqueuing(_) => |s.q| == s.slots
             case EnqueueWoken(_) => |s.q| == s.slots
             case Trying(_) => |s.q| == s.slots
             case Dequeuing(_) => s.q == []
             case DequeueWoken(_) => s.q == []
             case DequeueExpired => s.q == []
             case Discarding => true
             case _ => false
    ensures Inv(StepThread(s, t, waiter))
  {
    TallyMove(s.threads, t, StepThread(s, t, waiter).threads[t]);
  }

  lemma StepThreadKeeps<T>(s: State<T>, t: nat, waiter: nat)
    requires Inv(s) && t < |s.threads|
    ensures Inv(StepThread(s, t, waiter))
  {
    var full, empty := |s.q| == s.slots, s.q == [];
    match s.threads[t]
    case Enqueuing(item) => if full { TestKeeps(s, t, waiter); } else { PushKeeps(s, t, item); }
    case EnqueueWoken(item) => if full { TestKeeps(s, t, waiter); } else { PushKeeps(s, t, item); }
    case Overrunning(item) => PushKeeps(s, t, item);
    case Trying(item) => if full { TestKeeps(s, t, waiter); } else { PushKeeps(s, t, item); }
    case NotifyingPush => NotifyPushKeeps(s, t, waiter);
    case NotifyingPop(_) => NotifyPopKeeps(s, t, waiter);
    case Discarding => TestKeeps(s, t, waiter);
    case Dequeuing(_) => if empty { TestKeeps(s, t, waiter); } else { PopKeeps(s, t); }
    case DequeueWoken(_) => if empty { TestKeeps(s, t, waiter); } else { PopKeeps(s, t); }
    case DequeueExpired => if empty { TestKeeps(s, t, waiter); } else { PopKeeps(s, t); }
    case _ =>
  }

  /** Beginning a call and waking without a notification touch one thread only. */
  lemma MoveKeeps<T>(s: State<T>, t: nat, l: Local<T>)
    requires Inv(s) && t < |s.threads|
    requires match s.threads[t]
             case Idle => l.Enqueuing? || l.Overrunning? || l.Trying? || l.Dequeuing?
             case EnqueueWaiting(_) => l.EnqueueWoken?
             case DequeueWaiting(_) => l.DequeueWoken? || l.DequeueExpired?
             case _ => false
    ensures Inv(Move(s, t, l))
  {
    TallyMove(s.threads, t, l);
  }

  lemma NextKeepsInv<T>(s: State<T>, e: Event<T>)
    requires Inv(s)
    ensures Inv(Next(s, e))
  {
    var s' := Next(s, e);
    match e {
      case Step(t, waiter) => if t < |s.threads| { StepThreadKeeps(s, t, waiter); }
      case _ =>
        if s' != s {
          MoveKeeps(s, e.thread, s'.threads[e.thread]);
        }
    }
  }

  function Run<T>(s: State<T>, events: seq<Event<T>>): (s': State<T>)
    requires |s.q| <= s.slots
    decreases |events|
  {
    if events == [] then s else Run(Next(s, events[0]), events[1..])
  }

  lemma {:induction false} RunKeepsInv<T>(s: State<T>, events: seq<Event<T>>)
    requires Inv(s)
    ensures Inv(Run(s, events))
    decreases |events|
  {
    if events != [] {
      NextKeepsInv(s, events[0]);
      RunKeepsInv(Next(s, events[0]), events[1..]);
    }
  }

  lemma StartInv<T>(slots: nat, threads: nat)
    ensures Inv<T>(Start(slots, threads))
  {
    var s: State<T> := Start(slots, threads);
    CountNone(s.threads, ConsumerWaits);
    CountNone(s.threads, ProducerWaits);
    CountNone(s.threads, OwesDiscard);
  }

  predicate IsTaken<T>(x: Exit<T>) { x.Taken? }

  lemma {:induction false} TakenOrOverrun<T>(exits: seq<Exit<T>>)
    ensures |exits| == Count(exits, IsTaken) + Count(exits, IsOverrun)
  {
    if exits != [] {
      TakenOrOverrun(exits[..|exits| - 1]);
    }
  }

  /**
   * Over every run: no wake-up is lost; accepted items are taken, overrun or stored, each once and in
   * order; and the two counters count what they say.
   */
  lemma EveryRun<T>(slots: nat, threads: nat, events: seq<Event<T>>)
    ensures var s := Run(Start(slots, threads), events);
            && NoLostWakeup(s) && Conserved(s) && |s.q| <= s.slots
            && |s.accepted| == Count(s.exits, IsTaken) + |s.q| + s.overrunCounter
  {
    TakenOrOverrun(Run(Start(slots, threads), events).exits);
    StartInv<T>(slots, threads);
    RunKeepsInv(Start(slots, threads), events);
  }

  // ----- What it means for a caller -----

  /** Nothing but waiting: every thread is idle or blocked without a signal. */
  ghost predicate Quiet<T>(s: State<T>) {
    forall t :: 0 <= t < |s.threads| ==>
      s.threads[t].Idle? || ConsumerWaits(s.threads[t]) || ProducerWaits(s.threads[t])
  }

  /** When nothing moves any more, consumers wait only on an empty queue and producers only on a full one. */
  lemma WaitsForAReason<T>(slots: nat, threads: nat, events: seq<Event<T>>, t: nat)
    requires var s := Run(Start(slots, threads), events); Quiet(s) && t < |s.threads|
    ensures var s := Run(Start(slots, threads), events);
            && (ConsumerWaits(s.threads[t]) ==> s.q == [])
            && (ProducerWaits(s.threads[t]) ==> |s.q| == s.slots)
  {
    StartInv<T>(slots, threads);
    RunKeepsInv(Start(slots, threads), events);
    QuietMeansBlocked(Run(Start(slots, threads), events), t);
  }

  lemma QuietMeansBlocked<T>(s: State<T>, t: nat)
    requires Inv(s) && Quiet(s) && t < |s.threads|
    ensures ConsumerWaits(s.threads[t]) ==> s.q == []
    ensures ProducerWaits(s.threads[t]) ==> |s.q| == s.slots
  {
    CountNone(s.threads, OwesPushNotice);
    CountNone(s.threads, OwesPopNotice);
    CountNone(s.threads, ConsumerWoken);
    CountNone(s.threads, ProducerWoken);
    if ConsumerWaits(s.threads[t]) {
      CountPositive(s.threads, ConsumerWaits, t);
    }
    if ProducerWaits(s.threads[t]) {
      CountPositive(s.threads, ProducerWaits, t);
    }
  }
}
