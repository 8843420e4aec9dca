/** Every step of the pool keeps its invariant. */
module ThreadPoolInv {
  import opened Counting
  import opened Options
  import opened ThreadPool
  import Q = BlockingQueue

  // ----- The history, as plain sequences -----

  /** Worker t takes message m. */
  lemma TakeHandled(exits: seq<Q.Exit<Msg>>, handled: seq<nat>, carried: seq<Option<Msg>>, hand: seq<nat>,
                    t: nat, m: Msg)
    requires |carried| == |hand| && HandledOnce(exits, handled, carried, hand)
    requires t < |hand| && carried[t] == None
    ensures HandledOnce(exits + [Q.Taken(m, t)], handled, carried[t := Some(m)], hand[t := |exits|])
  {
    var exits', carried', hand' := exits + [Q.Taken(m, t)], carried[t := Some(m)], hand[t := |exits|];
    assert Carries(carried', hand', t, |exits|);
    forall w: nat, g: nat | g < |exits| ensures Carries(carried', hand', w, g) == Carries(carried, hand, w, g) {
    }
  }

  lemma TakeTerminates(exits: seq<Q.Exit<Msg>>, hand: seq<nat>, ended: seq<bool>, t: nat, m: Msg)
    requires |hand| == |ended| && OneTerminateEach(exits, hand, ended)
    requires t < |hand| && !ended[t]
    ensures OneTerminateEach(exits + [Q.Taken(m, t)], hand[t := |exits|],
                             if m == Terminate then ended[t := true] else ended)
  {
    CountAppend(exits, Q.Taken(m, t), TakesTerminate);
    CountUpdate(ended, t, true, IsTrue);
  }

  /** A log or flush message is overrun. */
  lemma OverrunKeeps(exits: seq<Q.Exit<Msg>>, handled: seq<nat>, carried: seq<Option<Msg>>, hand: seq<nat>,
                     ended: seq<bool>, m: Msg)
    requires |carried| == |hand| == |ended| && m != Terminate
    requires HandledOnce(exits, handled, carried, hand) && OneTerminateEach(exits, hand, ended)
    ensures HandledOnce(exits + [Q.Overrun(m)], handled, carried, hand)
    ensures OneTerminateEach(exits + [Q.Overrun(m)], hand, ended)
  {
    CountAppend(exits, Q.Overrun(m), TakesTerminate);
  }

  /** Worker w hands what it carries to a back end. */
  lemma HandleHandled(exits: seq<Q.Exit<Msg>>, handled: seq<nat>, carried: seq<Option<Msg>>, hand: seq<nat>, w: nat)
    requires |carried| == |hand| && HandledOnce(exits, handled, carried, hand)
    requires w < |hand| && carried[w].Some?
    ensures HandledOnce(exits, if carried[w] == Some(Terminate) then handled else handled + [hand[w]],
                        carried[w := None], hand)
  {
    var carried', g := carried[w := None], hand[w];
    assert Carries(carried, hand, w, g);
    forall v: nat, h: nat ensures Carries(carried', hand, v, h) == (Carries(carried, hand, v, h) && v != w) {
    }
  }

  lemma PushLast(accepted: seq<Msg>, pushed: nat, m: Msg)
    requires TerminatesLast(accepted, pushed) && (m == Terminate || pushed == 0)
    ensures TerminatesLast(accepted + [m], if m == Terminate then pushed + 1 else pushed)
  {
    CountAppend(accepted, m, IsTerminate);
    if m != Terminate {
      forall i: nat | i < |accepted| ensures accepted[i] != Terminate {
        NoneYet(accepted, i);
      }
    }
  }

  lemma NoneYet(accepted: seq<Msg>, i: nat)
    requires TerminatesLast(accepted, 0) && i < |accepted|
    ensures accepted[i] != Terminate
  {
    if accepted[i] == Terminate {
      CountPositive(accepted, IsTerminate, i);
    }
  }

  // ----- What a step does to the threads -----

  /** Thread t takes local l and possibly one waiter is woken; the phase stays. */
  ghost predicate Woken(a: seq<Q.Local<Msg>>, b: seq<Q.Local<Msg>>, u: nat)
    requires |a| == |b| && u < |a|
  {
    || b[u] == a[u]
    || (a[u].DequeueWaiting? && b[u] == Q.DequeueWoken(a[u].timed))
    || (a[u].EnqueueWaiting? && b[u] == Q.EnqueueWoken(a[u].item))
  }

  lemma WokenKeeps(s: State, s': State, u: nat)
    requires Shape(s) && Shape(s') && ThreadsOk(s) && u < |s.queue.threads| == |s'.queue.threads|
    requires |s'.workers| == |s.workers| && Woken(s.queue.threads, s'.queue.threads, u)
    requires s'.phase == s.phase || (s.phase.Posting? && s'.phase.Posting?)
    requires u < |s.workers| ==> s'.workers[u] == s.workers[u]
    ensures u < |s.workers| ==> WorkerOk(s'.workers[u], s'.queue.threads[u])
    ensures u >= |s.workers| ==> ClientOk(s'.phase, u == Owner(s'), s'.queue.threads[u])
    ensures u < |s.workers| ==> Carried(s')[u] == Carried(s)[u]
  {
    if u < |s.workers| {
      assert WorkerOk(s.workers[u], s.queue.threads[u]);
    } else {
      assert ClientOk(s.phase, u == Owner(s), s.queue.threads[u]);
    }
  }

  /** The other threads of a queue step: unchanged, or woken. */
  lemma StepOthers(q: Q.State<Msg>, t: nat, waiter: nat, u: nat)
    requires t < |q.threads| && |q.q| <= q.slots && u < |q.threads| && u != t
    ensures Woken(q.threads, Q.StepThread(q, t, waiter).threads, u)
  {
  }

  // ----- A worker's steps -----

  lemma PopForm(s: State, t: nat, waiter: nat)
    requires Shape(s) && t < |s.workers| && s.queue.q != []
    requires s.queue.threads[t].Dequeuing? || s.queue.threads[t].DequeueWoken?
    ensures var m := s.queue.q[0];
            StepQueue(s, t, waiter) ==
            s.(queue := Q.Move(Q.Popped(s.queue, t), t, Q.NotifyingPop(m)),
               hand := s.hand[t := |s.queue.exits|],
               ended := if m == Terminate then s.ended[t := true] else s.ended)
  {
  }

  lemma PopCarries(s: State, s': State, t: nat, m: Msg)
    requires Shape(s) && Shape(s') && ThreadsOk(s) && t < |s.workers|
    requires s.queue.threads[t].Dequeuing? || s.queue.threads[t].DequeueWoken?
    requires s'.workers == s.workers && s'.phase == s.phase
    requires s'.queue.threads == s.queue.threads[t := Q.NotifyingPop(m)]
    ensures Carried(s)[t] == None && s.workers[t] == Looping
    ensures Carried(s') == Carried(s)[t := Some(m)] && Pushed(s') == Pushed(s)
  {
    assert WorkerOk(s.workers[t], s.queue.threads[t]);
  }

  /** The history after a pop, from its parts. */
  lemma PopHistory(s: State, s': State, t: nat, m: Msg)
    requires Shape(s) && Shape(s') && HistoryOk(s) && t < |s.workers|
    requires s'.workers == s.workers && Carried(s)[t] == None && s.workers[t] == Looping
    requires Carried(s') == Carried(s)[t := Some(m)] && Pushed(s') == Pushed(s)
    requires s'.queue.exits == s.queue.exits + [Q.Taken(m, t)] && s'.queue.accepted == s.queue.accepted
    requires s'.hand == s.hand[t := |s.queue.exits|] && s'.handled == s.handled
    requires s'.ended == if m == Terminate then s.ended[t := true] else s.ended
    ensures HistoryOk(s')
  {
    assert !s.ended[t];
    TakeHandled(s.queue.exits, s.handled, Carried(s), s.hand, t, m);
    TakeTerminates(s.queue.exits, s.hand, s.ended, t, m);
  }

  lemma PopKeeps(s: State, t: nat, waiter: nat)
    requires Inv(s) && t < |s.workers| && s.queue.q != []
    requires s.queue.threads[t].Dequeuing? || s.queue.threads[t].DequeueWoken?
    ensures HistoryOk(StepQueue(s, t, waiter))
  {
    var s', m := StepQueue(s, t, waiter), s.queue.q[0];
    PopForm(s, t, waiter);
    PopCarries(s, s', t, m);
    PopHistory(s, s', t, m);
  }

  /** A worker's other steps. */
  predicate Takes(s: State, t: nat)
    requires t < |s.queue.threads|
  {
    (s.queue.threads[t].Dequeuing? || s.queue.threads[t].DequeueWoken?) && s.queue.q != []
  }

  lemma OtherForm(s: State, t: nat, waiter: nat)
    requires Shape(s) && t < |s.workers| && WorkerOk(s.workers[t], s.queue.threads[t]) && !Takes(s, t)
    ensures var s' := StepQueue(s, t, waiter);
            && s'.queue.exits == s.queue.exits && s'.queue.accepted == s.queue.accepted
            && s'.hand == s.hand && s'.ended == s.ended && s'.handled == s.handled && s'.phase == s.phase
            && |s'.workers| == |s.workers| && Shape(s')
            && (forall u :: 0 <= u < |s.workers| && u != t ==> s'.workers[u] == s.workers[u])
            && (s'.workers[t] == Exited <==> s.workers[t] == Exited)
            && Carried(s')[t] == Carried(s)[t]
  {
  }

  lemma OtherKeeps(s: State, t: nat, waiter: nat)
    requires Inv(s) && t < |s.workers| && !Takes(s, t)
    ensures HistoryOk(StepQueue(s, t, waiter))
  {
    var s' := StepQueue(s, t, waiter);
    assert WorkerOk(s.workers[t], s.queue.threads[t]);
    OtherForm(s, t, waiter);
    forall u: nat | u < |s.workers| ensures Carried(s')[u] == Carried(s)[u] {
      if u != t {
        StepOthers(s.queue, t, waiter, u);
        WokenKeeps(s, s', u);
      }
    }
    assert Carried(s') == Carried(s);
    StepOthers(s.queue, t, waiter, Owner(s));
    assert Pushed(s') == Pushed(s);
  }

  lemma WorkerLocal(s: State, t: nat, waiter: nat)
    requires Shape(s) && t < |s.workers| && WorkerOk(s.workers[t], s.queue.threads[t])
    ensures var s' := StepQueue(s, t, waiter);
            && Shape(s') && s'.phase == s.phase && |s'.workers| == |s.workers|
            && |s'.queue.threads| == |s.queue.threads|
            && WorkerOk(s'.workers[t], s'.queue.threads[t])
            && (s.workers[t] == Exited ==> s'.workers[t] == Exited)
            && forall u :: 0 <= u < |s.workers| && u != t ==> s'.workers[u] == s.workers[u]
  {
  }

  lemma WorkerThreads(s: State, t: nat, waiter: nat)
    requires Shape(s) && ThreadsOk(s) && PhaseOk(s) && t < |s.workers|
    ensures ThreadsOk(StepQueue(s, t, waiter)) && PhaseOk(StepQueue(s, t, waiter))
  {
    var s' := StepQueue(s, t, waiter);
    WorkerLocal(s, t, waiter);
    forall u: nat | u < |s.queue.threads| && u != t
      ensures u < |s.workers| ==> WorkerOk(s'.workers[u], s'.queue.threads[u])
      ensures u >= |s.workers| ==> ClientOk(s'.phase, u == Owner(s'), s'.queue.threads[u])
    {
      StepOthers(s.queue, t, waiter, u);
      WokenKeeps(s, s', u);
    }
    StepOthers(s.queue, t, waiter, Owner(s));
  }

  lemma QueueKeeps(s: State, t: nat, waiter: nat)
    requires Inv(s) && t < |s.queue.threads|
    ensures Shape(StepQueue(s, t, waiter)) && Q.Inv(StepQueue(s, t, waiter).queue)
  {
    Q.StepThreadKeeps(s.queue, t, waiter);
  }

  lemma WorkerStepKeeps(s: State, t: nat, waiter: nat)
    requires Inv(s) && t < |s.workers|
    ensures Inv(StepQueue(s, t, waiter))
  {
    QueueKeeps(s, t, waiter);
    WorkerThreads(s, t, waiter);
    if Takes(s, t) {
      PopKeeps(s, t, waiter);
    } else {
      OtherKeeps(s, t, waiter);
    }
  }

  // ----- A client's steps -----

  /** Client t is about to push this message. */
  predicate Pushes(s: State, t: nat, m: Msg)
    requires t < |s.queue.threads|
  {
    var l := s.queue.threads[t];
    || l == Q.Overrunning(m)
    || (|s.queue.q| < s.queue.slots && (l == Q.Enqueuing(m) || l == Q.EnqueueWoken(m) || l == Q.Trying(m)))
  }

  lemma PushForm(s: State, t: nat, waiter: nat, m: Msg)
    requires Shape(s) && Owner(s) <= t < |s.queue.threads| && Pushes(s, t, m)
    ensures StepQueue(s, t, waiter) == s.(queue := Q.Move(Q.Pushed(s.queue, m), t, Q.NotifyingPush))
  {
  }

  /** A full queue pushes its oldest item out. */
  function Oldest(q: Q.State<Msg>, m: Msg): Msg {
    (q.q + [m])[0]
  }

  lemma PushedForm(q: Q.State<Msg>, m: Msg)
    requires |q.q| <= q.slots
    ensures Q.Pushed(q, m).accepted == q.accepted + [m]
    ensures Q.Pushed(q, m).exits == if |q.q| == q.slots then q.exits + [Q.Overrun(Oldest(q, m))] else q.exits
  {
  }

  /** What is overrun is never a terminate: those come only once nobody overruns any more. */
  lemma OldestIsWork(s: State, t: nat, m: Msg)
    requires Shape(s) && ThreadsOk(s) && Owner(s) <= t < |s.queue.threads| && Pushes(s, t, m)
    requires Q.Conserved(s.queue) && TerminatesLast(s.queue.accepted, Pushed(s)) && |s.queue.q| == s.queue.slots
    ensures Oldest(s.queue, m) != Terminate
  {
    assert ClientOk(s.phase, t == Owner(s), s.queue.threads[t]);
    if s.queue.q != [] {
      assert s.queue.accepted[|s.queue.exits|] == Oldest(s.queue, m);
      NoneYet(s.queue.accepted, |s.queue.exits|);
    }
  }

  /** The history after a push, from its parts. */
  lemma PushHistory(s: State, s': State, m: Msg, x: Q.Exit<Msg>)
    requires Shape(s) && Shape(s') && HistoryOk(s)
    requires s'.workers == s.workers && Carried(s') == Carried(s)
    requires s'.hand == s.hand && s'.ended == s.ended && s'.handled == s.handled
    requires s'.queue.accepted == s.queue.accepted + [m] && (m == Terminate || Pushed(s) == 0)
    requires Pushed(s') == if m == Terminate then Pushed(s) + 1 else Pushed(s)
    requires s'.queue.exits == s.queue.exits
             || (x.Overrun? && x.item != Terminate && s'.queue.exits == s.queue.exits + [x])
    ensures HistoryOk(s')
  {
    PushLast(s.queue.accepted, Pushed(s), m);
    if s'.queue.exits != s.queue.exits {
      OverrunKeeps(s.queue.exits, s.handled, Carried(s), s.hand, s.ended, x.item);
    }
  }

  lemma PushCounts(s: State, s': State, t: nat, m: Msg)
    requires Shape(s) && Shape(s') && ThreadsOk(s) && Owner(s) <= t < |s.queue.threads| && Pushes(s, t, m)
    requires s'.workers == s.workers && s'.phase == s.phase
    requires s'.queue.threads == s.queue.threads[t := Q.NotifyingPush]
    ensures Carried(s') == Carried(s) && (m == Terminate || Pushed(s) == 0)
    ensures Pushed(s') == if m == Terminate then Pushed(s) + 1 else Pushed(s)
  {
    assert ClientOk(s.phase, t == Owner(s), s.queue.threads[t]);
  }

  lemma PushKeeps(s: State, t: nat, waiter: nat, m: Msg)
    requires Inv(s) && Owner(s) <= t < |s.queue.threads| && Pushes(s, t, m)
    ensures HistoryOk(StepQueue(s, t, waiter))
  {
    var s' := StepQueue(s, t, waiter);
    PushForm(s, t, waiter, m);
    PushedForm(s.queue, m);
    PushCounts(s, s', t, m);
    if |s.queue.q| == s.queue.slots {
      OldestIsWork(s, t, m);
    }
    PushHistory(s, s', m, Q.Overrun(Oldest(s.queue, m)));
  }

  lemma ClientOtherForm(s: State, t: nat, waiter: nat)
    requires Shape(s) && Owner(s) <= t < |s.queue.threads|
    requires ClientOk(s.phase, t == Owner(s), s.queue.threads[t])
    requires forall m :: !Pushes(s, t, m)
    ensures var s' := StepQueue(s, t, waiter);
            && s'.queue.exits == s.queue.exits && s'.queue.accepted == s.queue.accepted
            && s'.hand == s.hand && s'.ended == s.ended && s'.handled == s.handled
            && s'.workers == s.workers && Shape(s')
            && (s'.phase == s.phase || (t == Owner(s) && s.phase.Posting? && s'.phase.Posting?))
            && (t == Owner(s) ==> Pushed(s') == Pushed(s))
  {
    match s.queue.threads[t]
    case Enqueuing(m) => assert !Pushes(s, t, m);
    case EnqueueWoken(m) => assert !Pushes(s, t, m);
    case Overrunning(m) => assert !Pushes(s, t, m);
    case Trying(m) => assert !Pushes(s, t, m);
    case _ =>
  }

  lemma ClientOtherKeeps(s: State, t: nat, waiter: nat)
    requires Inv(s) && Owner(s) <= t < |s.queue.threads|
    requires forall m :: !Pushes(s, t, m)
    ensures HistoryOk(StepQueue(s, t, waiter))
  {
    var s' := StepQueue(s, t, waiter);
    assert ClientOk(s.phase, t == Owner(s), s.queue.threads[t]);
    ClientOtherForm(s, t, waiter);
    forall u: nat | u < |s.workers| ensures Carried(s')[u] == Carried(s)[u] {
      StepOthers(s.queue, t, waiter, u);
      WokenKeeps(s, s', u);
    }
    assert Carried(s') == Carried(s);
    if t != Owner(s) {
      StepOthers(s.queue, t, waiter, Owner(s));
    }
    assert Pushed(s') == Pushed(s);
  }

  lemma ClientLocal(s: State, t: nat, waiter: nat)
    requires Shape(s) && Owner(s) <= t < |s.queue.threads| && PhaseOk(s)
    requires ClientOk(s.phase, t == Owner(s), s.queue.threads[t])
    ensures var s' := StepQueue(s, t, waiter);
            && Shape(s') && s'.workers == s.workers
            && (s'.phase == s.phase || (s.phase.Posting? && s'.phase.Posting?))
            && ClientOk(s'.phase, t == Owner(s'), s'.queue.threads[t])
            && (t == Owner(s) ==> PhaseOk(s'))
            && (t != Owner(s) ==> s'.phase == s.phase)
  {
  }

  lemma ClientThreads(s: State, t: nat, waiter: nat)
    requires Inv(s) && Owner(s) <= t < |s.queue.threads|
    ensures ThreadsOk(StepQueue(s, t, waiter)) && PhaseOk(StepQueue(s, t, waiter))
  {
    var s' := StepQueue(s, t, waiter);
    assert ClientOk(s.phase, t == Owner(s), s.queue.threads[t]);
    ClientLocal(s, t, waiter);
    forall u: nat | u < |s.queue.threads| && u != t
      ensures u < |s.workers| ==> WorkerOk(s'.workers[u], s'.queue.threads[u])
      ensures u >= |s.workers| ==> ClientOk(s'.phase, u == Owner(s'), s'.queue.threads[u])
    {
      StepOthers(s.queue, t, waiter, u);
      WokenKeeps(s, s', u);
    }
    if t != Owner(s) {
      StepOthers(s.queue, t, waiter, Owner(s));
    }
  }

  lemma ClientStepKeeps(s: State, t: nat, waiter: nat)
    requires Inv(s) && Owner(s) <= t < |s.queue.threads|
    ensures Inv(StepQueue(s, t, waiter))
  {
    QueueKeeps(s, t, waiter);
    ClientThreads(s, t, waiter);
    if m :| Pushes(s, t, m) {
      PushKeeps(s, t, waiter, m);
    } else {
      ClientOtherKeeps(s, t, waiter);
    }
  }

  // ----- The other events -----

  lemma HandleHistory(s: State, w: nat)
    requires Shape(s) && ThreadsOk(s) && HistoryOk(s) && w < |s.workers| && s.workers[w].Handling?
    ensures HistoryOk(Next(s, Handle(w)))
  {
    var s' := Next(s, Handle(w));
    assert WorkerOk(s.workers[w], s.queue.threads[w]);
    var carried := Carried(s);
    assert Carried(s') == carried[w := None];
    assert Pushed(s') == Pushed(s);
    HandleHandled(s.queue.exits, s.handled, carried, s.hand, w);
    assert s.ended[w] <==> carried[w] == Some(Terminate);
    assert EndedOk(s'.workers, carried[w := None], s.ended);
  }

  lemma HandleThreads(s: State, w: nat)
    requires Shape(s) && ThreadsOk(s) && PhaseOk(s) && w < |s.workers| && s.workers[w].Handling?
    ensures ThreadsOk(Next(s, Handle(w))) && PhaseOk(Next(s, Handle(w)))
  {
    assert WorkerOk(s.workers[w], s.queue.threads[w]);
  }

  lemma HandleKeeps(s: State, w: nat)
    requires Inv(s) && w < |s.workers| && s.workers[w].Handling?
    ensures Inv(Next(s, Handle(w)))
  {
    HandleHistory(s, w);
    HandleThreads(s, w);
  }

  /** Starting a call, or a spurious wake-up, of thread t. */
  lemma BeginKeeps(s: State, s': State, t: nat)
    requires Inv(s) && Shape(s') && t < |s.queue.threads| == |s'.queue.threads|
    requires s' == s.(queue := s'.queue) && Q.Inv(s'.queue)
    requires s'.queue.exits == s.queue.exits && s'.queue.accepted == s.queue.accepted
    requires forall u :: 0 <= u < |s.queue.threads| && u != t ==> s'.queue.threads[u] == s.queue.threads[u]
    requires var l := s'.queue.threads[t];
             && (t < |s.workers| ==> WorkerOk(s.workers[t], l))
             && (t >= |s.workers| ==> ClientOk(s.phase, t == Owner(s), l))
             && (l == s.queue.threads[t]
                 || (!l.NotifyingPop? && !s.queue.threads[t].NotifyingPop?
                     && !l.NotifyingPush? && !s.queue.threads[t].NotifyingPush?))
    requires PhaseOk(s')
    ensures Inv(s')
  {
    assert Carried(s') == Carried(s);
    assert Pushed(s') == Pushed(s);
  }

  lemma PostKeeps(s: State, t: nat, msg: Msg, policy: Policy)
    requires Inv(s)
    ensures Inv(Next(s, Post(t, msg, policy)))
  {
    var s' := Next(s, Post(t, msg, policy));
    if s' != s {
      Q.NextKeepsInv(s.queue, Q.Begin(t, match policy
                                         case Block => Q.Enqueue(msg)
                                         case OverrunOldest => Q.EnqueueNowait(msg)
                                         case DiscardNew => Q.EnqueueIfRoom(msg)));
      BeginKeeps(s, s', t);
    }
  }

  lemma LoopKeeps(s: State, w: nat)
    requires Inv(s)
    ensures Inv(Next(s, Loop(w)))
  {
    var s' := Next(s, Loop(w));
    if s' != s {
      Q.NextKeepsInv(s.queue, Q.Begin(w, Q.Dequeue(false)));
      StartsOne(s.queue, w, Q.Dequeue(false));
      BeginKeeps(s, s', w);
    }
  }

  lemma StartsOne(q: Q.State<Msg>, t: nat, call: Q.Call<Msg>)
    requires |q.q| <= q.slots
    ensures var q' := Q.Next(q, Q.Begin(t, call));
            && q'.exits == q.exits && q'.accepted == q.accepted
            && forall u :: 0 <= u < |q.threads| && u != t ==> q'.threads[u] == q.threads[u]
  {
  }

  lemma PostTerminateKeeps(s: State)
    requires Inv(s)
    ensures Inv(Next(s, PostTerminate))
  {
    var s' := Next(s, PostTerminate);
    if s.phase.Posting? && s.queue.threads[Owner(s)].Idle? {
      if s.phase.posted < |s.workers| {
        Q.NextKeepsInv(s.queue, Q.Begin(Owner(s), Q.Enqueue(Terminate)));
        BeginKeeps(s, s', Owner(s));
      } else {
        assert Carried(s') == Carried(s);
        PhaseMoves(s, s');
      }
    }
  }

  /** A phase change with all clients idle but the history unchanged. */
  lemma PhaseMoves(s: State, s': State)
    requires Inv(s) && Shape(s') && s' == s.(phase := s'.phase)
    requires Pushed(s') == Pushed(s) && PhaseOk(s')
    requires forall t :: Owner(s) <= t < |s.queue.threads| ==> s.queue.threads[t].Idle?
    ensures Inv(s')
  {
    assert Carried(s') == Carried(s);
  }

  lemma JoinPhase(s: State)
    requires Shape(s) && ThreadsOk(s) && PhaseOk(s) && s.phase.Joining?
    ensures Shape(Next(s, Join)) && PhaseOk(Next(s, Join)) && Pushed(Next(s, Join)) == Pushed(s)
    ensures forall t :: Owner(s) <= t < |s.queue.threads| ==> s.queue.threads[t].Idle?
  {
    forall t: nat | Owner(s) <= t < |s.queue.threads| ensures s.queue.threads[t].Idle? {
      assert ClientOk(s.phase, t == Owner(s), s.queue.threads[t]);
    }
  }

  lemma JoinKeeps(s: State)
    requires Inv(s)
    ensures Inv(Next(s, Join))
  {
    if s.phase.Joining? {
      JoinPhase(s);
      PhaseMoves(s, Next(s, Join));
    }
  }

  lemma SpuriousKeeps(s: State, t: nat)
    requires Inv(s)
    ensures Inv(Next(s, Spurious(t)))
  {
    var s' := Next(s, Spurious(t));
    if s' != s && t < |s.queue.threads| {
      Q.NextKeepsInv(s.queue, Q.Spurious(t));
      if t < |s.workers| {
        assert WorkerOk(s.workers[t], s.queue.threads[t]);
      } else {
        assert ClientOk(s.phase, t == Owner(s), s.queue.threads[t]);
      }
      BeginKeeps(s, s', t);
    }
  }

  lemma NextKeepsInv(s: State, e: Event)
    requires Inv(s)
    ensures Inv(Next(s, e))
  {
    match e
    case Post(t, msg, policy) => PostKeeps(s, t, msg, policy);
    case QueueStep(t, waiter) =>
      if t < |s.workers| {
        WorkerStepKeeps(s, t, waiter);
      } else if t < |s.queue.threads| {
        ClientStepKeeps(s, t, waiter);
      }
    case Loop(w) => LoopKeeps(s, w);
    case Handle(w) =>
      if w < |s.workers| && s.workers[w].Handling? {
        HandleKeeps(s, w);
      }
    case Shutdown =>
      if Next(s, Shutdown) != s {
        PhaseMoves(s, Next(s, Shutdown));
      }
    case PostTerminate => PostTerminateKeeps(s);
    case Join => JoinKeeps(s);
    case Spurious(t) => SpuriousKeeps(s, t);
  }

  lemma {:induction false} RunKeepsInv(s: State, events: seq<Event>)
    requires Inv(s)
    ensures Inv(Run(s, events))
    decreases |events|
  {
    if events != [] {
      NextKeepsInv(s, events[0]);
      RunKeepsInv(Next(s, events[0]), events[1..]);
    }
  }

  lemma EmptyHistory(carried: seq<Option<Msg>>, hand: seq<nat>, ended: seq<bool>, workers: seq<Worker>)
    requires |carried| == |hand| == |ended| == |workers|
    requires forall w :: 0 <= w < |workers| ==> carried[w] == None && !ended[w] && workers[w] == Looping
    ensures HandledOnce([], [], carried, hand) && EndedOk(workers, carried, ended)
    ensures OneTerminateEach([], hand, ended) && TerminatesLast([], 0)
  {
    CountNone(ended, IsTrue);
  }

  lemma CreateInv(slots: nat, workers: nat, clients: nat)
    requires clients >= 1 && Create(slots, workers, clients).Some?
    ensures Inv(Create(slots, workers, clients).value)
  {
    var s := Create(slots, workers, clients).value;
    Q.StartInv<Msg>(slots, workers + clients);
    FreshInv(s);
  }

  lemma FreshInv(s: State)
    requires Shape(s) && s.phase == Serving && Q.Inv(s.queue)
    requires s.queue.exits == [] && s.queue.accepted == [] && s.handled == []
    requires forall w :: 0 <= w < |s.workers| ==> s.workers[w] == Looping && !s.ended[w]
    requires forall t :: 0 <= t < |s.queue.threads| ==> s.queue.threads[t] == Q.Idle
    ensures Inv(s)
  {
    EmptyHistory(Carried(s), s.hand, s.ended, s.workers);
  }
}
