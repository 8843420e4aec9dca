/** What the overflow policy of a post does, and what a pool that is only posted to in some ways never does. */
module PoolPolicies {
  import opened QueueCalls
  import opened ThreadPool
  import opened ThreadPoolInv
  import opened ThreadPoolShutdown
  import Q = BlockingQueue

  // ----- One post -----

  /** An idle client posts while the pool serves, and takes the post's first step, which nobody interrupts. */
  function FirstPost(s: State, t: nat, msg: Msg, policy: Policy): State
    requires Shape(s)
  {
    Next(Next(s, Post(t, msg, policy)), QueueStep(t, 0))
  }

  predicate CanPost(s: State, t: nat, msg: Msg)
    requires Shape(s)
  {
    s.phase == Serving && Owner(s) <= t < |s.queue.threads| && s.queue.threads[t].Idle? && msg != Terminate
  }

  /** The post runs the queue's call and touches nothing else. */
  lemma PostIsCall(s: State, t: nat, msg: Msg, policy: Policy, call: Q.Call<Msg>)
    requires Inv(s) && CanPost(s, t, msg)
    requires call == match policy
                     case Block => Q.Enqueue(msg)
                     case OverrunOldest => Q.EnqueueNowait(msg)
                     case DiscardNew => Q.EnqueueIfRoom(msg)
    ensures FirstPost(s, t, msg, policy) == s.(queue := FirstStep(s.queue, t, call))
  {
    assert Next(s, Post(t, msg, policy)) == s.(queue := Q.Next(s.queue, Q.Begin(t, call)));
  }

  /** While there is room, a post is accepted behind the others under every policy, and nothing is lost for it. */
  lemma PostWithRoom(s: State, t: nat, msg: Msg, policy: Policy)
    requires Inv(s) && CanPost(s, t, msg) && |s.queue.q| < s.queue.slots
    ensures var q, q' := s.queue, FirstPost(s, t, msg, policy).queue;
            && OnlyAccepts(q, q', t, Q.NotifyingPush) && q'.q == q.q + [msg] && q'.accepted == q.accepted + [msg]
            && q'.exits == q.exits && q'.overrunCounter == q.overrunCounter
  {
    match policy
    case Block =>
      PostIsCall(s, t, msg, policy, Q.Enqueue(msg));
      EnqueueDoes(s.queue, t, msg);
    case OverrunOldest =>
      PostIsCall(s, t, msg, policy, Q.EnqueueNowait(msg));
      EnqueueNowaitDoes(s.queue, t, msg);
    case DiscardNew =>
      PostIsCall(s, t, msg, policy, Q.EnqueueIfRoom(msg));
      EnqueueIfRoomDoes(s.queue, t, msg);
  }

  /** On a full queue, `block` waits, `overrun_oldest` drops the oldest message and `discard_new` the new one. */
  lemma PostWithoutRoom(s: State, t: nat, msg: Msg, policy: Policy)
    requires Inv(s) && CanPost(s, t, msg) && |s.queue.q| == s.queue.slots
    ensures var q, q' := s.queue, FirstPost(s, t, msg, policy).queue;
            match policy
            case Block => OnlyMoves(q, q', t, Q.EnqueueWaiting(msg))
            case OverrunOldest =>
              && OnlyAccepts(q, q', t, Q.NotifyingPush) && q'.accepted == q.accepted + [msg]
              && q'.q == (q.q + [msg])[1..] && q'.exits == q.exits + [Q.Overrun((q.q + [msg])[0])]
              && q'.overrunCounter == q.overrunCounter + 1
            case DiscardNew =>
              OnlyMoves(q, q'.(refused := q.refused), t, Q.Discarding) && q'.refused == q.refused + 1
  {
    match policy
    case Block =>
      PostIsCall(s, t, msg, policy, Q.Enqueue(msg));
      EnqueueDoes(s.queue, t, msg);
    case OverrunOldest =>
      PostIsCall(s, t, msg, policy, Q.EnqueueNowait(msg));
      EnqueueNowaitDoes(s.queue, t, msg);
    case DiscardNew =>
      PostIsCall(s, t, msg, policy, Q.EnqueueIfRoom(msg));
      EnqueueIfRoomDoes(s.queue, t, msg);
  }

  // ----- Runs -----

  predicate Overruns(e: Event) { e.Post? && e.policy == OverrunOldest }
  predicate Discards(e: Event) { e.Post? && e.policy == DiscardNew }

  /** What an event does to the queue: one of its steps or calls, or nothing. */
  lemma QueueEvent(s: State, e: Event) returns (qe: Q.Event<Msg>)
    requires Shape(s)
    ensures Next(s, e).queue == s.queue || Next(s, e).queue == Q.Next(s.queue, qe)
    ensures CallsNowait(qe) ==> Overruns(e)
    ensures CallsIfRoom(qe) ==> Discards(e)
  {
    qe := match e
      case Post(t, msg, Block) => Q.Begin(t, Q.Enqueue(msg))
      case Post(t, msg, OverrunOldest) => Q.Begin(t, Q.EnqueueNowait(msg))
      case Post(t, msg, DiscardNew) => Q.Begin(t, Q.EnqueueIfRoom(msg))
      case QueueStep(t, waiter) => Q.Step(t, waiter)
      case Loop(w) => Q.Begin(w, Q.Dequeue(false))
      case PostTerminate => Q.Begin(Owner(s), Q.Enqueue(Terminate))
      case Spurious(t) => Q.Spurious(t)
      case _ => Q.Spurious(0);
  }

  lemma {:induction false} RunOverrunsNothing(s: State, events: seq<Event>)
    requires Shape(s) && NoOverrun(s.queue) && forall i :: 0 <= i < |events| ==> !Overruns(events[i])
    ensures NoOverrun(Run(s, events).queue)
    decreases |events|
  {
    if events != [] {
      var qe := QueueEvent(s, events[0]);
      if Next(s, events[0]).queue != s.queue {
        NextKeepsNoOverrun(s.queue, qe);
      }
      RunOverrunsNothing(Next(s, events[0]), events[1..]);
    }
  }

  lemma {:induction false} RunRefusesNothing(s: State, events: seq<Event>)
    requires Shape(s) && NoRefusal(s.queue) && forall i :: 0 <= i < |events| ==> !Discards(events[i])
    ensures NoRefusal(Run(s, events).queue)
    decreases |events|
  {
    if events != [] {
      var qe := QueueEvent(s, events[0]);
      if Next(s, events[0]).queue != s.queue {
        NextKeepsNoRefusal(s.queue, qe);
      }
      RunRefusesNothing(Next(s, events[0]), events[1..]);
    }
  }

  lemma NewPoolIsQuiet(slots: nat, workers: nat, clients: nat)
    requires clients >= 1 && Create(slots, workers, clients).Some?
    ensures var q := Create(slots, workers, clients).value.queue; NoOverrun(q) && NoRefusal(q)
  {
  }

  /** Over every run of a new pool without `overrun_oldest` posts nothing is overrun. */
  lemma OnlyOverrunOldestOverruns(slots: nat, workers: nat, clients: nat, events: seq<Event>)
    requires clients >= 1 && Create(slots, workers, clients).Some?
    requires forall i :: 0 <= i < |events| ==> !Overruns(events[i])
    ensures NoOverrun(Run(Create(slots, workers, clients).value, events).queue)
  {
    NewPoolIsQuiet(slots, workers, clients);
    RunOverrunsNothing(Create(slots, workers, clients).value, events);
  }

  /** Over every run of a new pool without `discard_new` posts nothing is refused. */
  lemma OnlyDiscardNewRefuses(slots: nat, workers: nat, clients: nat, events: seq<Event>)
    requires clients >= 1 && Create(slots, workers, clients).Some?
    requires forall i :: 0 <= i < |events| ==> !Discards(events[i])
    ensures NoRefusal(Run(Create(slots, workers, clients).value, events).queue)
  {
    NewPoolIsQuiet(slots, workers, clients);
    RunRefusesNothing(Create(slots, workers, clients).value, events);
  }

  lemma AllTaken(s: State)
    requires Shape(s) && CleanEnd(s) && NoOverrun(s.queue)
    ensures forall g: nat :: g in s.handled <==> g < |s.queue.accepted| && s.queue.accepted[g] != Terminate
  {
    forall g: nat ensures g in s.handled <==> g < |s.queue.accepted| && s.queue.accepted[g] != Terminate {
      if g < |s.queue.exits| {
        assert s.queue.exits[g].Taken? && s.queue.accepted[g] == s.queue.exits[g].item;
      }
    }
  }

  /**
   * With posts that block only, a pool loses nothing: once its destructor has returned, every message accepted was
   * handled by a back end exactly once, and none was refused.
   */
  lemma BlockingLosesNothing(slots: nat, workers: nat, clients: nat, events: seq<Event>, s: State)
    requires clients >= 1 && Create(slots, workers, clients).Some?
    requires forall i :: 0 <= i < |events| ==> !Overruns(events[i]) && !Discards(events[i])
    requires s == Run(Create(slots, workers, clients).value, events) && s.phase == Destroyed
    ensures forall g: nat :: g in s.handled <==> g < |s.queue.accepted| && s.queue.accepted[g] != Terminate
    ensures forall i, j :: 0 <= i < j < |s.handled| ==> s.handled[i] != s.handled[j]
    ensures s.queue.overrunCounter == 0 && s.queue.refused == s.queue.discardCounter == 0
  {
    OnlyOverrunOldestOverruns(slots, workers, clients, events);
    OnlyDiscardNewRefuses(slots, workers, clients, events);
    AfterDestructor(slots, workers, clients, events);
    AllTaken(s);
  }
}
