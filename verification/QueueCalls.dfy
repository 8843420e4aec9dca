/** What each call of the blocking queue does, and what it never does, whatever the other threads do. */
module QueueCalls {
  import opened BoundedSeq
  import opened BlockingQueue
  import opened Counting

  /** Thread t begins a call and takes its first step, which nobody interrupts. */
  function FirstStep<T>(s: State<T>, t: nat, call: Call<T>): State<T>
    requires |s.q| <= s.slots
  {
    Next(Next(s, Begin(t, call)), Step(t, 0))
  }

  /** Everything but the queue, its history and thread t is as it was. */
  ghost predicate OnlyAccepts<T>(s: State<T>, s': State<T>, t: nat, l: Local<T>) {
    && s'.slots == s.slots && s'.discardCounter == s.discardCounter && s'.refused == s.refused
    && t < |s.threads| && s'.threads == s.threads[t := l]
  }

  /** The queue, its counters and its history are as they were. */
  ghost predicate OnlyMoves<T>(s: State<T>, s': State<T>, t: nat, l: Local<T>) {
    && OnlyAccepts(s, s', t, l)
    && s'.q == s.q && s'.overrunCounter == s.overrunCounter && s'.accepted == s.accepted && s'.exits == s.exits
  }

  /** enqueue: accepted behind the others if a slot is free, and otherwise nothing but a wait. */
  lemma EnqueueDoes<T>(s: State<T>, t: nat, x: T)
    requires Inv(s) && t < |s.threads| && s.threads[t] == Idle
    ensures var s' := FirstStep(s, t, Enqueue(x));
            if |s.q| < s.slots then
              && OnlyAccepts(s, s', t, NotifyingPush) && s'.q == s.q + [x] && s'.accepted == s.accepted + [x]
              && s'.exits == s.exits && s'.overrunCounter == s.overrunCounter
            else OnlyMoves(s, s', t, EnqueueWaiting(x))
  {
    MovesTwice(s.threads, t, Enqueuing(x), NotifyingPush);
    MovesTwice(s.threads, t, Enqueuing(x), EnqueueWaiting(x));
  }

  /** enqueue_nowait: always accepted, and the oldest item is overrun if no slot is free. */
  lemma EnqueueNowaitDoes<T>(s: State<T>, t: nat, x: T)
    requires Inv(s) && t < |s.threads| && s.threads[t] == Idle
    ensures var s' := FirstStep(s, t, EnqueueNowait(x));
            && OnlyAccepts(s, s', t, NotifyingPush) && s'.accepted == s.accepted + [x]
            && (|s.q| < s.slots ==>
                  s'.q == s.q + [x] && s'.exits == s.exits && s'.overrunCounter == s.overrunCounter)
            && (|s.q| == s.slots ==>
                  && s'.q == (s.q + [x])[1..] && s'.exits == s.exits + [Overrun((s.q + [x])[0])]
                  && s'.overrunCounter == s.overrunCounter + 1)
  {
    MovesTwice(s.threads, t, Overrunning(x), NotifyingPush);
  }

  /** enqueue_if_have_room: accepted if and only if a slot is free, refused otherwise, and nothing is ever overrun. */
  lemma EnqueueIfRoomDoes<T>(s: State<T>, t: nat, x: T)
    requires Inv(s) && t < |s.threads| && s.threads[t] == Idle
    ensures var s' := FirstStep(s, t, EnqueueIfRoom(x));
            if |s.q| < s.slots then
              && OnlyAccepts(s, s', t, NotifyingPush) && s'.q == s.q + [x] && s'.accepted == s.accepted + [x]
              && s'.exits == s.exits && s'.overrunCounter == s.overrunCounter
            else OnlyMoves(s, s'.(refused := s.refused), t, Discarding) && s'.refused == s.refused + 1
  {
    MovesTwice(s.threads, t, Trying(x), NotifyingPush);
    MovesTwice(s.threads, t, Trying(x), Discarding);
  }

  /** dequeue and dequeue_for: the front item leaves if there is one, and otherwise nothing but a wait. */
  lemma DequeueDoes<T>(s: State<T>, t: nat, timed: bool)
    requires Inv(s) && t < |s.threads| && s.threads[t] == Idle
    ensures var s' := FirstStep(s, t, Dequeue(timed));
            if s.q != [] then
              && OnlyAccepts(s, s', t, NotifyingPop(s.q[0])) && s'.q == s.q[1..] && s'.accepted == s.accepted
              && s'.exits == s.exits + [Taken(s.q[0], t)] && s'.overrunCounter == s.overrunCounter
            else OnlyMoves(s, s', t, DequeueWaiting(timed))
  {
    MovesTwice(s.threads, t, Dequeuing(timed), DequeueWaiting(timed));
    if s.q != [] {
      MovesTwice(s.threads, t, Dequeuing(timed), NotifyingPop(s.q[0]));
    }
  }

  lemma MovesTwice<T>(threads: seq<Local<T>>, t: nat, a: Local<T>, b: Local<T>)
    requires t < |threads|
    ensures threads[t := a][t := b] == threads[t := b]
  {
  }

  /** A refusal is counted by the call's next step, which ends it. */
  lemma DiscardIsCounted<T>(s: State<T>, t: nat)
    requires Inv(s) && t < |s.threads| && s.threads[t] == Discarding
    ensures var s' := Next(s, Step(t, 0));
            s' == s.(discardCounter := s.discardCounter + 1, threads := s.threads[t := Idle])
  {
  }

  /** A timed wait that expires takes the front item if there is one by then, and otherwise gives up. */
  lemma ExpiryEnds<T>(s: State<T>, t: nat)
    requires Inv(s) && t < |s.threads| && s.threads[t] == DequeueWaiting(true)
    ensures var s' := Next(Next(s, Expire(t)), Step(t, 0));
            if s.q == [] then OnlyMoves(s, s', t, Idle)
            else
              && OnlyAccepts(s, s', t, NotifyingPop(s.q[0])) && s'.q == s.q[1..] && s'.accepted == s.accepted
              && s'.exits == s.exits + [Taken(s.q[0], t)] && s'.overrunCounter == s.overrunCounter
  {
    MovesTwice(s.threads, t, DequeueExpired, Idle);
    if s.q != [] {
      MovesTwice(s.threads, t, DequeueExpired, NotifyingPop(s.q[0]));
    }
  }

  /** A wait without a time does not expire; any wait may end without a notification, to test again. */
  lemma WakesToTest<T>(s: State<T>, t: nat)
    requires Inv(s) && t < |s.threads|
    ensures s.threads[t] == DequeueWaiting(false) ==> Next(s, Expire(t)) == s
    ensures s.threads[t].DequeueWaiting? ==>
              OnlyMoves(s, Next(s, Spurious(t)), t, DequeueWoken(s.threads[t].timed))
    ensures s.threads[t].EnqueueWaiting? ==>
              OnlyMoves(s, Next(s, Spurious(t)), t, EnqueueWoken(s.threads[t].item))
  {
  }

  // ----- What the policies never do -----

  predicate CallsNowait<T>(e: Event<T>) { e.Begin? && e.call.EnqueueNowait? }
  predicate CallsIfRoom<T>(e: Event<T>) { e.Begin? && e.call.EnqueueIfRoom? }

  /** Nobody overruns, and nothing was overrun. */
  ghost predicate NoOverrun<T>(s: State<T>) {
    && (forall t :: 0 <= t < |s.threads| ==> !s.threads[t].Overrunning?)
    && s.overrunCounter == 0 && forall g :: 0 <= g < |s.exits| ==> s.exits[g].Taken?
  }

  /** Nobody is about to be refused, and nobody was. */
  ghost predicate NoRefusal<T>(s: State<T>) {
    && (forall t :: 0 <= t < |s.threads| ==> !s.threads[t].Trying? && !s.threads[t].Discarding?)
    && s.refused == s.discardCounter == 0
  }

  /** A step of thread t leaves every other thread as it is, or wakes it with what it asked for. */
  lemma OthersOnlyWake<T>(s: State<T>, t: nat, waiter: nat, u: nat)
    requires |s.q| <= s.slots && t < |s.threads| && u < |s.threads| && u != t
    ensures var a, b := s.threads[u], StepThread(s, t, waiter).threads[u];
            || b == a
            || (a.DequeueWaiting? && b == DequeueWoken(a.timed))
            || (a.EnqueueWaiting? && b == EnqueueWoken(a.item))
  {
  }

  lemma OwnOverrun<T>(s: State<T>, t: nat, waiter: nat)
    requires |s.q| <= s.slots && t < |s.threads| && NoOverrun(s)
    ensures var s' := StepThread(s, t, waiter);
            && !s'.threads[t].Overrunning? && s'.overrunCounter == 0
            && forall g :: 0 <= g < |s'.exits| ==> s'.exits[g].Taken?
  {
  }

  lemma OwnRefusal<T>(s: State<T>, t: nat, waiter: nat)
    requires |s.q| <= s.slots && t < |s.threads| && !s.threads[t].Trying? && !s.threads[t].Discarding?
    ensures var s' := StepThread(s, t, waiter);
            && !s'.threads[t].Trying? && !s'.threads[t].Discarding?
            && s'.refused == s.refused && s'.discardCounter == s.discardCounter
  {
  }

  lemma StepKeepsNoOverrun<T>(s: State<T>, t: nat, waiter: nat)
    requires |s.q| <= s.slots && t < |s.threads| && NoOverrun(s)
    ensures NoOverrun(StepThread(s, t, waiter))
  {
    OwnOverrun(s, t, waiter);
    forall u: nat | u < |s.threads| && u != t ensures !StepThread(s, t, waiter).threads[u].Overrunning? {
      OthersOnlyWake(s, t, waiter, u);
    }
  }

  lemma StepKeepsNoRefusal<T>(s: State<T>, t: nat, waiter: nat)
    requires |s.q| <= s.slots && t < |s.threads| && NoRefusal(s)
    ensures NoRefusal(StepThread(s, t, waiter))
  {
    var s' := StepThread(s, t, waiter);
    OwnRefusal(s, t, waiter);
    forall u: nat | u < |s.threads| && u != t ensures !s'.threads[u].Trying? && !s'.threads[u].Discarding? {
      OthersOnlyWake(s, t, waiter, u);
    }
  }

  lemma NextKeepsNoOverrun<T>(s: State<T>, e: Event<T>)
    requires |s.q| <= s.slots && NoOverrun(s) && !CallsNowait(e)
    ensures NoOverrun(Next(s, e))
  {
    if e.Step? && e.thread < |s.threads| {
      StepKeepsNoOverrun(s, e.thread, e.waiter);
    }
  }

  lemma NextKeepsNoRefusal<T>(s: State<T>, e: Event<T>)
    requires |s.q| <= s.slots && NoRefusal(s) && !CallsIfRoom(e)
    ensures NoRefusal(Next(s, e))
  {
    if e.Step? && e.thread < |s.threads| {
      StepKeepsNoRefusal(s, e.thread, e.waiter);
    }
  }

  lemma {:induction false} RunKeepsNoOverrun<T>(s: State<T>, events: seq<Event<T>>)
    requires |s.q| <= s.slots && NoOverrun(s) && forall i :: 0 <= i < |events| ==> !CallsNowait(events[i])
    ensures NoOverrun(Run(s, events))
    decreases |events|
  {
    if events != [] {
      NextKeepsNoOverrun(s, events[0]);
      RunKeepsNoOverrun(Next(s, events[0]), events[1..]);
    }
  }

  lemma {:induction false} RunKeepsNoRefusal<T>(s: State<T>, events: seq<Event<T>>)
    requires |s.q| <= s.slots && NoRefusal(s) && forall i :: 0 <= i < |events| ==> !CallsIfRoom(events[i])
    ensures NoRefusal(Run(s, events))
    decreases |events|
  {
    if events != [] {
      NextKeepsNoRefusal(s, events[0]);
      RunKeepsNoRefusal(Next(s, events[0]), events[1..]);
    }
  }

  /** Over every run without enqueue_nowait nothing is overrun. */
  lemma OnlyNowaitOverruns<T>(slots: nat, threads: nat, events: seq<Event<T>>)
    requires forall i :: 0 <= i < |events| ==> !CallsNowait(events[i])
    ensures NoOverrun(Run(Start(slots, threads), events))
  {
    RunKeepsNoOverrun(Start(slots, threads), events);
  }

  /** Over every run without enqueue_if_have_room nothing is refused. */
  lemma OnlyIfRoomRefuses<T>(slots: nat, threads: nat, events: seq<Event<T>>)
    requires forall i :: 0 <= i < |events| ==> !CallsIfRoom(events[i])
    ensures NoRefusal(Run(Start(slots, threads), events))
  {
    RunKeepsNoRefusal(Start(slots, threads), events);
  }
}
