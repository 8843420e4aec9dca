/** The destructor: what holds when it returns, and that it returns. */
module ThreadPoolShutdown {
  import opened Counting
  import opened Options
  import opened ThreadPool
  import opened ThreadPoolInv
  import Q = BlockingQueue

  // ----- Counting terminates -----

  predicate ExitOfTerminate(x: Q.Exit<Msg>) { x.item == Terminate }

  lemma {:induction false} CountItems(exits: seq<Q.Exit<Msg>>)
    ensures Count(Q.Items(exits), IsTerminate) == Count(exits, ExitOfTerminate)
  {
    if exits != [] {
      var n := |exits| - 1;
      CountItems(exits[..n]);
      assert Q.Items(exits)[..n] == Q.Items(exits[..n]);
    }
  }

  /** Terminates are never overrun. */
  lemma {:induction false} OnlyTaken(exits: seq<Q.Exit<Msg>>)
    requires forall g :: 0 <= g < |exits| && exits[g].Overrun? ==> exits[g].item != Terminate
    ensures Count(exits, ExitOfTerminate) == Count(exits, TakesTerminate)
  {
    if exits != [] {
      OnlyTaken(exits[..|exits| - 1]);
      assert exits[|exits| - 1].Overrun? ==> exits[|exits| - 1].item != Terminate;
    }
  }

  lemma {:induction false} CountConcat(a: seq<Msg>, b: seq<Msg>)
    ensures Count(a + b, IsTerminate) == Count(a, IsTerminate) + Count(b, IsTerminate)
  {
    if b == [] {
      assert a + b == a;
    } else {
      var n := |b| - 1;
      CountConcat(a, b[..n]);
      assert (a + b)[..|a + b| - 1] == a + b[..n];
    }
  }

  /** Terminates pushed are those that ended a worker and those still stored. */
  lemma TerminateBalance(s: State)
    requires Inv(s)
    ensures Pushed(s) == Count(s.ended, IsTrue) + Count(s.queue.q, IsTerminate)
  {
    var exits := s.queue.exits;
    CountConcat(Q.Items(exits), s.queue.q);
    CountItems(exits);
    OnlyTaken(exits);
  }

  lemma {:induction false} CountFull(xs: seq<bool>)
    requires forall w :: 0 <= w < |xs| ==> xs[w]
    ensures Count(xs, IsTrue) == |xs|
  {
    if xs != [] {
      CountFull(xs[..|xs| - 1]);
    }
  }

  lemma AllEnded(s: State)
    requires Inv(s) && forall w :: 0 <= w < |s.workers| ==> s.workers[w] == Exited
    ensures Count(s.ended, IsTrue) == |s.workers|
  {
    CountFull(s.ended);
  }

  /** Terminates came last, so a queue that holds anything behind one holds a terminate. */
  lemma TerminateStored(s: State)
    requires Inv(s) && Pushed(s) > 0 && s.queue.q != []
    ensures Count(s.queue.q, IsTerminate) > 0
  {
    var q, accepted := s.queue.q, s.queue.accepted;
    var g := CountWitness(accepted, IsTerminate);
    assert accepted[|accepted| - 1] == q[|q| - 1];
    CountPositive(q, IsTerminate, |q| - 1);
  }

  /** A queue whose terminates are all consumed holds nothing. */
  lemma NothingBehindTerminates(s: State)
    requires Inv(s) && Count(s.ended, IsTrue) == Pushed(s) > 0
    ensures s.queue.q == []
  {
    TerminateBalance(s);
    if s.queue.q != [] {
      TerminateStored(s);
      assert false;
    }
  }

  /**
   * The queue is empty, each worker exited after consuming exactly one terminate, and every accepted message
   * was either overrun or handled by a back end exactly once.
   */
  ghost predicate CleanEnd(s: State)
    requires Shape(s)
  {
    var exits := s.queue.exits;
    && s.queue.q == [] && s.queue.accepted == Q.Items(exits)
    && (forall w :: 0 <= w < |s.workers| ==>
          && s.workers[w] == Exited
          && s.hand[w] < |exits| && exits[s.hand[w]] == Q.Taken(Terminate, w))
    && (forall g :: 0 <= g < |exits| && TakesTerminate(exits[g]) ==>
          exits[g].thread < |s.workers| && s.hand[exits[g].thread] == g)
    && (forall g: nat :: g in s.handled <==> g < |exits| && IsWork(exits[g]))
    && (forall i, j :: 0 <= i < j < |s.handled| ==> s.handled[i] != s.handled[j])
    && s.queue.overrunCounter == Count(exits, Q.IsOverrun)
  }

  lemma DestroyedState(s: State)
    requires Inv(s) && s.phase == Destroyed
    ensures CleanEnd(s)
  {
    AllEnded(s);
    NothingBehindTerminates(s);
    assert Q.Items(s.queue.exits) + [] == Q.Items(s.queue.exits);
    forall w | 0 <= w < |s.workers| ensures s.ended[w] && Carried(s)[w] == None {
      assert WorkerOk(s.workers[w], s.queue.threads[w]);
    }
  }

  /** Whatever was posted before, in whatever order the threads ran: when the destructor returns, the end is clean. */
  lemma AfterDestructor(slots: nat, workers: nat, clients: nat, events: seq<Event>)
    requires clients >= 1 && Create(slots, workers, clients).Some?
    requires Run(Create(slots, workers, clients).value, events).phase == Destroyed
    ensures CleanEnd(Run(Create(slots, workers, clients).value, events))
  {
    CreateInv(slots, workers, clients);
    RunKeepsInv(Create(slots, workers, clients).value, events);
    DestroyedState(Run(Create(slots, workers, clients).value, events));
  }

  // ----- The destructor returns -----

  function WorkerWeight(w: Worker, l: Q.Local<Msg>): nat {
    match w
    case Exited => 0
    case Handling(_) => 3
    case Looping =>
      match l
      case Idle => 2
      case Dequeuing(_) => 1
      case DequeueWoken(_) => 1
      case NotifyingPop(_) => 5
      case _ => 0
  }

  function OwnerWeight(l: Q.Local<Msg>): nat {
    match l
    case Idle => 2
    case Enqueuing(_) => 1
    case EnqueueWoken(_) => 1
    case NotifyingPush => 4
    case _ => 0
  }

  function PhaseWeight(s: State): nat
    requires Shape(s)
  {
    match s.phase
    case Serving => 0
    case Posting(_) => 9 * (if Pushed(s) <= |s.workers| then |s.workers| - Pushed(s) else 0) + |s.workers| + 2
    case Joining(j) => if j <= |s.workers| then |s.workers| - j + 1 else 1
    case Destroyed => 0
  }

  function Sum(xs: seq<nat>): nat {
    if xs == [] then 0 else Sum(xs[..|xs| - 1]) + xs[|xs| - 1]
  }

  lemma {:induction false} SumUpdate(xs: seq<nat>, i: nat, x: nat)
    requires i < |xs|
    ensures Sum(xs[i := x]) + xs[i] == Sum(xs) + x
  {
    var n := |xs| - 1;
    if i < n {
      SumUpdate(xs[..n], i, x);
      assert xs[i := x][..n] == xs[..n][i := x];
    } else {
      assert xs[i := x][..n] == xs[..n];
    }
  }

  function Weights(s: State): (r: seq<nat>)
    requires Shape(s)
    ensures |r| == |s.workers|
  {
    seq(|s.workers|, w requires 0 <= w < |s.workers| < |s.queue.threads| =>
      WorkerWeight(s.workers[w], s.queue.threads[w]))
  }

  /** What is left to do: it falls with every step of the destructor and the workers. */
  function Measure(s: State): nat
    requires Shape(s)
  {
    PhaseWeight(s) + OwnerWeight(s.queue.threads[Owner(s)]) + 5 * |s.queue.q| + Sum(Weights(s))
  }

  predicate ShuttingDown(s: State) {
    s.phase != Serving
  }

  // ----- Every step makes progress -----

  /** Only worker t's weight and one waiting thread's may change. */
  lemma WorkerMoved(s: State, s': State, t: nat)
    requires Shape(s) && Shape(s') && |s'.workers| == |s.workers| && t < |s.workers|
    requires forall u :: 0 <= u < |s.workers| && u != t ==> Weights(s')[u] == Weights(s)[u]
    ensures Sum(Weights(s')) + Weights(s)[t] == Sum(Weights(s)) + Weights(s')[t]
  {
    assert Weights(s') == Weights(s)[t := Weights(s')[t]];
    SumUpdate(Weights(s), t, Weights(s')[t]);
  }

  lemma WorkersUnmoved(s: State, s': State)
    requires Shape(s) && Shape(s') && |s'.workers| == |s.workers|
    requires forall u :: 0 <= u < |s.workers| ==> Weights(s')[u] == Weights(s)[u]
    ensures Sum(Weights(s')) == Sum(Weights(s))
  {
    assert Weights(s') == Weights(s);
  }

  lemma LoopFalls(s: State, w: nat)
    requires Shape(s) && ThreadsOk(s) && Next(s, Loop(w)) != s
    ensures Measure(Next(s, Loop(w))) < Measure(s)
  {
    WorkerMoved(s, Next(s, Loop(w)), w);
  }

  lemma HandleFalls(s: State, w: nat)
    requires Shape(s) && ThreadsOk(s) && Next(s, Handle(w)) != s
    ensures Measure(Next(s, Handle(w))) < Measure(s)
  {
    var s' := Next(s, Handle(w));
    assert WorkerOk(s.workers[w], s.queue.threads[w]);
    assert Weights(s)[w] == 3 && Weights(s')[w] <= 2;
    WorkerMoved(s, s', w);
    assert PhaseWeight(s') == PhaseWeight(s);
  }

  lemma DestructorFalls(s: State, e: Event)
    requires Shape(s) && ThreadsOk(s) && PhaseOk(s) && ShuttingDown(s)
    requires (e == PostTerminate || e == Join) && Next(s, e) != s
    ensures Measure(Next(s, e)) < Measure(s)
  {
    WorkersUnmoved(s, Next(s, e));
  }

  lemma PopFalls(s: State, t: nat, waiter: nat)
    requires Shape(s) && ThreadsOk(s) && ShuttingDown(s) && t < |s.workers| && Takes(s, t)
    ensures Measure(StepQueue(s, t, waiter)) < Measure(s)
  {
    var s' := StepQueue(s, t, waiter);
    assert WorkerOk(s.workers[t], s.queue.threads[t]);
    PopForm(s, t, waiter);
    assert |s'.queue.q| == |s.queue.q| - 1;
    assert Weights(s)[t] == 1 && Weights(s')[t] == 5;
    WorkerMoved(s, s', t);
    assert PhaseWeight(s') == PhaseWeight(s);
  }

  lemma BlockForm(s: State, t: nat, waiter: nat)
    requires Shape(s) && t < |s.workers| && WorkerOk(s.workers[t], s.queue.threads[t])
    requires !Takes(s, t) && !s.queue.threads[t].NotifyingPop? && StepQueue(s, t, waiter) != s
    ensures s.queue.threads[t].Dequeuing? || s.queue.threads[t].DequeueWoken?
    ensures StepQueue(s, t, waiter) == s.(queue := Q.Move(s.queue, t, Q.DequeueWaiting(false)))
  {
  }

  lemma BlockFalls(s: State, t: nat, waiter: nat)
    requires Shape(s) && ThreadsOk(s) && ShuttingDown(s) && t < |s.workers| && StepQueue(s, t, waiter) != s
    requires !Takes(s, t) && !s.queue.threads[t].NotifyingPop?
    ensures Measure(StepQueue(s, t, waiter)) < Measure(s)
  {
    assert WorkerOk(s.workers[t], s.queue.threads[t]);
    BlockForm(s, t, waiter);
    WorkerMoved(s, StepQueue(s, t, waiter), t);
  }

  lemma NotifyPopForm(s: State, t: nat, waiter: nat)
    requires Shape(s) && t < |s.workers| && s.queue.threads[t].NotifyingPop? && StepQueue(s, t, waiter) != s
    ensures var l := s.queue.threads[t];
            var s1 := s.(workers := s.workers[t := Handling(l.taken)]);
            || StepQueue(s, t, waiter) == s1.(queue := Q.Move(s.queue, t, Q.Idle))
            || (waiter < |s.queue.threads| && s.queue.threads[waiter].EnqueueWaiting?
                && StepQueue(s, t, waiter) == s1.(queue :=
                     Q.Move(Q.Move(s.queue, waiter, Q.EnqueueWoken(s.queue.threads[waiter].item)), t, Q.Idle)))
  {
  }

  lemma ReturnsAlone(s: State, s': State, t: nat)
    requires Shape(s) && ThreadsOk(s) && t < |s.workers| && s.queue.threads[t].NotifyingPop?
    requires s' == s.(workers := s.workers[t := Handling(s.queue.threads[t].taken)],
                      queue := Q.Move(s.queue, t, Q.Idle))
    ensures Measure(s') + 2 <= Measure(s)
  {
    assert WorkerOk(s.workers[t], s.queue.threads[t]);
    WorkerMoved(s, s', t);
    assert PhaseWeight(s') == PhaseWeight(s);
  }

  /** A pop's notification wakes nobody or the destructor. */
  lemma WorkerNotifyFalls(s: State, t: nat, waiter: nat)
    requires Shape(s) && ThreadsOk(s) && ShuttingDown(s) && t < |s.workers| && StepQueue(s, t, waiter) != s
    requires s.queue.threads[t].NotifyingPop?
    ensures Measure(StepQueue(s, t, waiter)) < Measure(s)
  {
    var s' := StepQueue(s, t, waiter);
    var alone := s.(workers := s.workers[t := Handling(s.queue.threads[t].taken)], queue := Q.Move(s.queue, t, Q.Idle));
    NotifyPopForm(s, t, waiter);
    ReturnsAlone(s, alone, t);
    if s' != alone {
      assert waiter < |s.workers| ==> WorkerOk(s.workers[waiter], s.queue.threads[waiter]);
      var l := Q.EnqueueWoken(s.queue.threads[waiter].item);
      assert s'.queue.threads == alone.queue.threads[waiter := l];
      WakesOutside(alone, s', waiter, l);
    }
  }

  lemma WakesOutside(s: State, s': State, t: nat, l: Q.Local<Msg>)
    requires Shape(s) && Shape(s') && Owner(s) <= t < |s.queue.threads|
    requires s.queue.threads[t].EnqueueWaiting? && l.EnqueueWoken?
    requires s'.queue.threads == s.queue.threads[t := l] && s'.queue.q == s.queue.q
    requires s'.workers == s.workers && s'.phase == s.phase
    ensures Measure(s') <= Measure(s) + 1
  {
    WorkersUnmoved(s, s');
    assert PhaseWeight(s') == PhaseWeight(s);
  }

  lemma OwnerPushWeights(s: State, s': State, m: Msg)
    requires Shape(s) && Shape(s') && PhaseOk(s) && ShuttingDown(s) && Pushes(s, Owner(s), m)
    requires ClientOk(s.phase, true, s.queue.threads[Owner(s)])
    requires s'.workers == s.workers && s'.phase == s.phase
    requires s'.queue.threads == s.queue.threads[Owner(s) := Q.NotifyingPush]
    ensures PhaseWeight(s') + 9 == PhaseWeight(s)
    ensures OwnerWeight(s'.queue.threads[Owner(s')]) == OwnerWeight(s.queue.threads[Owner(s)]) + 3
  {
  }

  lemma OwnerPushed(s: State, s': State, m: Msg)
    requires Shape(s) && Shape(s') && PhaseOk(s) && ShuttingDown(s) && Pushes(s, Owner(s), m)
    requires ClientOk(s.phase, true, s.queue.threads[Owner(s)])
    requires s'.workers == s.workers && s'.phase == s.phase && |s'.queue.q| <= |s.queue.q| + 1
    requires s'.queue.threads == s.queue.threads[Owner(s) := Q.NotifyingPush]
    ensures Measure(s') < Measure(s)
  {
    OwnerPushWeights(s, s', m);
    WorkersUnmoved(s, s');
  }

  lemma OwnerPushFalls(s: State, waiter: nat, m: Msg)
    requires Shape(s) && ThreadsOk(s) && PhaseOk(s) && ShuttingDown(s) && Pushes(s, Owner(s), m)
    ensures Measure(StepQueue(s, Owner(s), waiter)) < Measure(s)
  {
    assert ClientOk(s.phase, true, s.queue.threads[Owner(s)]);
    PushForm(s, Owner(s), waiter, m);
    OwnerPushed(s, StepQueue(s, Owner(s), waiter), m);
  }

  lemma OwnerBlockForm(s: State, waiter: nat)
    requires Shape(s) && ShuttingDown(s) && ClientOk(s.phase, true, s.queue.threads[Owner(s)])
    requires !s.queue.threads[Owner(s)].NotifyingPush? && StepQueue(s, Owner(s), waiter) != s
    requires !Pushes(s, Owner(s), Terminate)
    ensures s.queue.threads[Owner(s)].Enqueuing? || s.queue.threads[Owner(s)].EnqueueWoken?
    ensures StepQueue(s, Owner(s), waiter) == s.(queue := Q.Move(s.queue, Owner(s), Q.EnqueueWaiting(Terminate)))
  {
  }

  /** The destructor's queue steps, except for a notification. */
  lemma OwnerStepFalls(s: State, waiter: nat)
    requires Shape(s) && ThreadsOk(s) && PhaseOk(s) && ShuttingDown(s) && StepQueue(s, Owner(s), waiter) != s
    requires !s.queue.threads[Owner(s)].NotifyingPush?
    ensures Measure(StepQueue(s, Owner(s), waiter)) < Measure(s)
  {
    if Pushes(s, Owner(s), Terminate) {
      OwnerPushFalls(s, waiter, Terminate);
    } else {
      assert ClientOk(s.phase, true, s.queue.threads[Owner(s)]);
      OwnerBlockForm(s, waiter);
      WorkersUnmoved(s, StepQueue(s, Owner(s), waiter));
    }
  }

  lemma NotifyPushForm(s: State, waiter: nat)
    requires Shape(s) && s.phase.Posting? && s.queue.threads[Owner(s)].NotifyingPush?
    requires StepQueue(s, Owner(s), waiter) != s
    ensures var s1 := s.(phase := Posting(s.phase.posted + 1));
            || StepQueue(s, Owner(s), waiter) == s1.(queue := Q.Move(s.queue, Owner(s), Q.Idle))
            || (waiter < |s.queue.threads| && s.queue.threads[waiter].DequeueWaiting?
                && StepQueue(s, Owner(s), waiter) == s1.(queue :=
                     Q.Move(Q.Move(s.queue, waiter, Q.DequeueWoken(s.queue.threads[waiter].timed)), Owner(s), Q.Idle)))
  {
  }

  lemma PostsAlone(s: State, s': State)
    requires Shape(s) && PhaseOk(s) && s.phase.Posting? && s.queue.threads[Owner(s)].NotifyingPush?
    requires s' == s.(phase := Posting(s.phase.posted + 1), queue := Q.Move(s.queue, Owner(s), Q.Idle))
    ensures Measure(s') + 2 <= Measure(s)
  {
    WorkersUnmoved(s, s');
    assert Pushed(s') == Pushed(s);
  }

  lemma WakesWorker(s: State, s': State, t: nat, l: Q.Local<Msg>)
    requires Shape(s) && Shape(s') && t < |s.workers| && s.queue.threads[t].DequeueWaiting? && l.DequeueWoken?
    requires WorkerOk(s.workers[t], s.queue.threads[t])
    requires s'.queue.threads == s.queue.threads[t := l] && s'.queue.q == s.queue.q
    requires s'.workers == s.workers && s'.phase == s.phase
    ensures Measure(s') <= Measure(s) + 1
  {
    WorkerMoved(s, s', t);
    assert PhaseWeight(s') == PhaseWeight(s);
  }

  /** Only workers wait for messages. */
  lemma WaitingIsWorker(s: State, t: nat)
    requires Shape(s) && ThreadsOk(s) && t < |s.queue.threads| && s.queue.threads[t].DequeueWaiting?
    ensures t < |s.workers| && WorkerOk(s.workers[t], s.queue.threads[t])
  {
    if t >= |s.workers| {
      NoClientDequeues(s.phase, t == Owner(s), s.queue.threads[t]);
    }
  }

  lemma NoClientDequeues(phase: Phase, owner: bool, l: Q.Local<Msg>)
    requires l.DequeueWaiting?
    ensures !ClientOk(phase, owner, l)
  {
  }

  /** A push's notification wakes nobody or one worker. */
  lemma OwnerNotifyFalls(s: State, waiter: nat)
    requires Shape(s) && ThreadsOk(s) && PhaseOk(s) && ShuttingDown(s) && StepQueue(s, Owner(s), waiter) != s
    requires s.queue.threads[Owner(s)].NotifyingPush?
    ensures Measure(StepQueue(s, Owner(s), waiter)) < Measure(s)
  {
    var s' := StepQueue(s, Owner(s), waiter);
    assert ClientOk(s.phase, true, s.queue.threads[Owner(s)]);
    var alone := s.(phase := Posting(s.phase.posted + 1), queue := Q.Move(s.queue, Owner(s), Q.Idle));
    NotifyPushForm(s, waiter);
    PostsAlone(s, alone);
    if s' != alone {
      WaitingIsWorker(s, waiter);
      var l := Q.DequeueWoken(s.queue.threads[waiter].timed);
      assert s'.queue.threads == alone.queue.threads[waiter := l];
      WakesWorker(alone, s', waiter, l);
    }
  }

  /** Every effective event of the shutdown but a spurious wake-up lowers the measure. */
  lemma StepFalls(s: State, e: Event)
    requires Inv(s) && ShuttingDown(s) && !e.Spurious? && Next(s, e) != s
    ensures Measure(Next(s, e)) < Measure(s)
  {
    match e
    case QueueStep(t, waiter) =>
      assert t >= |s.workers| ==> ClientOk(s.phase, t == Owner(s), s.queue.threads[t]);
      if t < |s.workers| && s.queue.threads[t].NotifyingPop? {
        WorkerNotifyFalls(s, t, waiter);
      } else if t < |s.workers| && Takes(s, t) {
        PopFalls(s, t, waiter);
      } else if t < |s.workers| {
        BlockFalls(s, t, waiter);
      } else if s.queue.threads[t].NotifyingPush? {
        OwnerNotifyFalls(s, waiter);
      } else {
        OwnerStepFalls(s, waiter);
      }
    case Loop(w) => LoopFalls(s, w);
    case Handle(w) => HandleFalls(s, w);
    case Shutdown =>
    case Post(_, _, _) =>
    case _ => DestructorFalls(s, e);
  }

  lemma SpuriousForm(s: State, t: nat)
    requires Shape(s)
    ensures var s', q := Next(s, Spurious(t)), s.queue;
            || s' == s
            || (t < |q.threads| && q.threads[t].DequeueWaiting?
                && s' == s.(queue := Q.Move(q, t, Q.DequeueWoken(q.threads[t].timed))))
            || (t < |q.threads| && q.threads[t].EnqueueWaiting?
                && s' == s.(queue := Q.Move(q, t, Q.EnqueueWoken(q.threads[t].item))))
  {
  }

  /** A spurious wake-up raises it by one at most. */
  lemma SpuriousRises(s: State, t: nat)
    requires Shape(s) && ThreadsOk(s) && ShuttingDown(s)
    ensures Measure(Next(s, Spurious(t))) <= Measure(s) + 1
  {
    SpuriousForm(s, t);
    if Next(s, Spurious(t)) != s {
      if t < |s.workers| {
        assert WorkerOk(s.workers[t], s.queue.threads[t]);
        WakesWorker(s, Next(s, Spurious(t)), t, Q.DequeueWoken(s.queue.threads[t].timed));
      } else {
        assert ClientOk(s.phase, t == Owner(s), s.queue.threads[t]);
        WakesOutside(s, Next(s, Spurious(t)), t, Q.EnqueueWoken(s.queue.threads[t].item));
      }
    }
  }

  /** The shutdown, once begun, stays begun. */
  lemma StaysShut(s: State, e: Event)
    requires Inv(s) && ShuttingDown(s)
    ensures ShuttingDown(Next(s, e))
  {
  }

  // ----- Somebody can always move -----

  lemma WorkerCanMove(s: State, w: nat) returns (e: Event)
    requires Inv(s) && w < |s.workers|
    requires s.workers[w] != Exited && !s.queue.threads[w].DequeueWaiting?
    ensures Next(s, e) != s && !e.Spurious?
  {
    var l := s.queue.threads[w];
    assert WorkerOk(s.workers[w], l);
    if s.workers[w].Handling? {
      e := Handle(w);
      assert Next(s, e).workers[w] != s.workers[w];
    } else if l.Idle? {
      e := Loop(w);
      assert Next(s, e).queue.threads[w] == Q.Dequeuing(false);
    } else {
      var waiter := 0;
      if l.NotifyingPop? && Count(s.queue.threads, Q.ProducerWaits) > 0 {
        waiter := CountWitness(s.queue.threads, Q.ProducerWaits);
      }
      e := QueueStep(w, waiter);
      assert Next(s, e).queue.threads[w] != l;
    }
  }

  lemma OwnerCanMove(s: State) returns (e: Event)
    requires Inv(s) && s.phase.Posting? && !s.queue.threads[Owner(s)].EnqueueWaiting?
    ensures Next(s, e) != s && !e.Spurious?
  {
    var l := s.queue.threads[Owner(s)];
    assert ClientOk(s.phase, true, l);
    if l.Idle? {
      e := PostTerminate;
      assert s.phase.posted < |s.workers| ==> Next(s, e).queue.threads[Owner(s)] == Q.Enqueuing(Terminate);
    } else {
      var waiter := 0;
      if l.NotifyingPush? && Count(s.queue.threads, Q.ConsumerWaits) > 0 {
        waiter := CountWitness(s.queue.threads, Q.ConsumerWaits);
      }
      e := QueueStep(Owner(s), waiter);
      assert Next(s, e).queue.threads[Owner(s)] != l;
    }
  }

  /** Nobody but waiters: then the queue is empty if a worker waits, and full if the destructor does. */
  lemma StuckQueue(s: State, t: nat)
    requires Inv(s) && t < |s.queue.threads|
    requires forall u :: 0 <= u < |s.queue.threads| ==>
               s.queue.threads[u].Idle? || s.queue.threads[u].DequeueWaiting? || s.queue.threads[u].EnqueueWaiting?
    ensures s.queue.threads[t].DequeueWaiting? ==> s.queue.q == []
    ensures s.queue.threads[t].EnqueueWaiting? ==> |s.queue.q| == s.queue.slots
  {
    Q.QuietMeansBlocked(s.queue, t);
  }

  /** All workers gone and the destructor still posting is impossible: it has posted as many as went. */
  lemma SomeWorkerLeft(s: State)
    requires Inv(s) && s.phase.Posting? && !s.queue.threads[Owner(s)].Idle? && !s.queue.threads[Owner(s)].NotifyingPush?
    ensures exists w :: 0 <= w < |s.workers| && s.workers[w] != Exited
  {
    if forall w :: 0 <= w < |s.workers| ==> s.workers[w] == Exited {
      AllEnded(s);
      TerminateBalance(s);
      assert false;
    }
  }

  /** Behind the destructor's last post, a worker that waits in vain would have taken a terminate. */
  lemma TerminatesWait(s: State, w: nat)
    requires Inv(s) && s.phase.Joining? && w < |s.workers| && !s.ended[w]
    ensures s.queue.q != []
  {
    TerminateBalance(s);
    if Count(s.ended, IsTrue) == |s.ended| {
      CountAll(s.ended, IsTrue, w);
    }
  }

  /** With at least one slot, the shutdown never blocks: until the destructor has returned somebody can move. */
  lemma Progress(s: State) returns (e: Event)
    requires Inv(s) && ShuttingDown(s) && s.phase != Destroyed && s.queue.slots >= 1
    ensures Next(s, e) != s && !e.Spurious?
  {
    if w: nat :| w < |s.workers| && s.workers[w] != Exited && !s.queue.threads[w].DequeueWaiting? {
      e := WorkerCanMove(s, w);
    } else if s.phase.Posting? && !s.queue.threads[Owner(s)].EnqueueWaiting? {
      e := OwnerCanMove(s);
    } else if s.phase.Posting? {
      PostingMoves(s);
      assert false;
    } else {
      e := Join;
      JoinMoves(s);
    }
  }

  lemma AllBlocked(s: State, u: nat)
    requires Inv(s) && ShuttingDown(s) && u < |s.queue.threads|
    requires forall w :: 0 <= w < |s.workers| ==> s.workers[w] == Exited || s.queue.threads[w].DequeueWaiting?
    requires s.phase.Posting? ==> s.queue.threads[Owner(s)].EnqueueWaiting?
    ensures s.queue.threads[u].Idle? || s.queue.threads[u].DequeueWaiting? || s.queue.threads[u].EnqueueWaiting?
  {
    if u < |s.workers| {
      assert WorkerOk(s.workers[u], s.queue.threads[u]);
    } else {
      assert ClientOk(s.phase, u == Owner(s), s.queue.threads[u]);
    }
  }

  /** A destructor that waits for room has a worker that does not wait for messages. */
  lemma PostingMoves(s: State)
    requires Inv(s) && s.phase.Posting? && s.queue.slots >= 1 && s.queue.threads[Owner(s)].EnqueueWaiting?
    ensures exists w :: 0 <= w < |s.workers| && s.workers[w] != Exited && !s.queue.threads[w].DequeueWaiting?
  {
    SomeWorkerLeft(s);
    var w :| 0 <= w < |s.workers| && s.workers[w] != Exited;
    if forall v :: 0 <= v < |s.workers| ==> s.workers[v] == Exited || s.queue.threads[v].DequeueWaiting? {
      forall u: nat | u < |s.queue.threads|
        ensures s.queue.threads[u].Idle? || s.queue.threads[u].DequeueWaiting? || s.queue.threads[u].EnqueueWaiting?
      {
        AllBlocked(s, u);
      }
      StuckQueue(s, w);
      StuckQueue(s, Owner(s));
      assert false;
    }
  }

  /** A destructor that waits for a worker to exit has a worker that does not wait for messages. */
  lemma JoinMoves(s: State)
    requires Inv(s) && s.phase.Joining? && s.queue.slots >= 1
    requires forall w :: 0 <= w < |s.workers| ==> s.workers[w] == Exited || s.queue.threads[w].DequeueWaiting?
    ensures Next(s, Join) != s
  {
    var j := s.phase.joined;
    if j < |s.workers| && s.workers[j] != Exited {
      forall u: nat | u < |s.queue.threads|
        ensures s.queue.threads[u].Idle? || s.queue.threads[u].DequeueWaiting? || s.queue.threads[u].EnqueueWaiting?
      {
        AllBlocked(s, u);
      }
      StuckQueue(s, j);
      assert WorkerOk(s.workers[j], s.queue.threads[j]);
      assert Carried(s)[j] == None;
      TerminatesWait(s, j);
      assert false;
    }
  }

  // ----- The destructor returns -----

  function SpuriousIn(events: seq<Event>): nat {
    if events == [] then 0 else (if events[0].Spurious? then 1 else 0) + SpuriousIn(events[1..])
  }

  /** Every event of a run changes something. */
  ghost predicate Effective(s: State, events: seq<Event>)
    requires Shape(s)
    decreases |events|
  {
    events != [] ==> Next(s, events[0]) != s && Effective(Next(s, events[0]), events[1..])
  }

  /** However the threads are scheduled, the shutdown has no run longer than its work plus the spurious wake-ups. */
  lemma {:induction false} ShutdownIsBounded(s: State, events: seq<Event>)
    requires Inv(s) && ShuttingDown(s) && Effective(s, events)
    ensures |events| + Measure(Run(s, events)) <= Measure(s) + 2 * SpuriousIn(events)
    decreases |events|
  {
    if events != [] {
      var s' := Next(s, events[0]);
      NextKeepsInv(s, events[0]);
      StaysShut(s, events[0]);
      if events[0].Spurious? {
        SpuriousRises(s, events[0].thread);
      } else {
        StepFalls(s, events[0]);
      }
      ShutdownIsBounded(s', events[1..]);
    }
  }

  /** From any moment of the shutdown the threads can bring the destructor to its end, with a clean state. */
  lemma {:induction false} CanFinish(s: State) returns (events: seq<Event>)
    requires Inv(s) && ShuttingDown(s) && s.queue.slots >= 1
    ensures Run(s, events).phase == Destroyed && CleanEnd(Run(s, events))
    decreases Measure(s)
  {
    if s.phase == Destroyed {
      events := [];
      DestroyedState(s);
    } else {
      var e := Progress(s);
      NextKeepsInv(s, e);
      StaysShut(s, e);
      StepFalls(s, e);
      var rest := CanFinish(Next(s, e));
      events := [e] + rest;
    }
  }

  // ----- A queue without slots -----

  /** The destructor of a pool whose queue has no slot is at its first terminate. */
  ghost predicate AtFirstPost(s: State)
    requires Shape(s)
  {
    s.phase == Posting(0) && !s.queue.threads[Owner(s)].NotifyingPush?
  }

  lemma OwnerStays(s: State, waiter: nat)
    requires Shape(s) && ThreadsOk(s) && s.queue.slots == 0 && AtFirstPost(s)
    ensures AtFirstPost(StepQueue(s, Owner(s), waiter))
  {
    assert ClientOk(s.phase, true, s.queue.threads[Owner(s)]);
    assert !Pushes(s, Owner(s), Terminate);
    if StepQueue(s, Owner(s), waiter) != s {
      OwnerBlockForm(s, waiter);
    }
  }

  lemma OthersLeaveOwner(s: State, t: nat, waiter: nat)
    requires Shape(s) && AtFirstPost(s) && t < |s.queue.threads| && t != Owner(s)
    ensures AtFirstPost(StepQueue(s, t, waiter))
  {
    StepOthers(s.queue, t, waiter, Owner(s));
  }

  lemma CallsLeaveOwner(s: State, e: Event)
    requires Shape(s) && AtFirstPost(s) && !e.QueueStep? && !e.Spurious?
    ensures AtFirstPost(Next(s, e))
  {
    if e.Loop? {
      StartsOne(s.queue, e.worker, Q.Dequeue(false));
    }
  }

  lemma StaysAtFirstPost(s: State, e: Event)
    requires Shape(s) && ThreadsOk(s) && s.queue.slots == 0 && AtFirstPost(s)
    ensures AtFirstPost(Next(s, e))
  {
    match e
    case QueueStep(t, waiter) =>
      if t == Owner(s) {
        OwnerStays(s, waiter);
      } else if t < |s.queue.threads| {
        OthersLeaveOwner(s, t, waiter);
      }
    case Spurious(t) => SpuriousForm(s, t);
    case _ => CallsLeaveOwner(s, e);
  }

  lemma {:induction false} NeverFinishes(s: State, events: seq<Event>)
    requires Inv(s) && s.queue.slots == 0 && AtFirstPost(s)
    ensures Run(s, events).phase != Destroyed
    decreases |events|
  {
    if events != [] {
      NextKeepsInv(s, events[0]);
      StaysAtFirstPost(s, events[0]);
      NeverFinishes(Next(s, events[0]), events[1..]);
    }
  }

  lemma BeginsAtFirstPost(s: State)
    requires Inv(s) && s.phase == Serving && Next(s, Shutdown) != s
    ensures Inv(Next(s, Shutdown)) && ShuttingDown(Next(s, Shutdown)) && AtFirstPost(Next(s, Shutdown))
    ensures Next(s, Shutdown).queue.slots == s.queue.slots
  {
    NextKeepsInv(s, Shutdown);
  }

  lemma FinishesFrom(s: State)
    requires Inv(s) && s.phase == Serving && Next(s, Shutdown) != s
    ensures s.queue.slots >= 1 <==> exists events :: Run(Next(s, Shutdown), events).phase == Destroyed
  {
    var s' := Next(s, Shutdown);
    BeginsAtFirstPost(s);
    if s'.queue.slots >= 1 {
      var events := CanFinish(s');
      assert Run(s', events).phase == Destroyed;
    } else {
      forall events ensures Run(s', events).phase != Destroyed {
        NeverFinishes(s', events);
      }
    }
  }

  /** After any use of a pool, a destructor that begins can return if and only if the queue was given a slot. */
  lemma FinishesIffSlots(slots: nat, workers: nat, clients: nat, used: seq<Event>, s: State)
    requires clients >= 1 && Create(slots, workers, clients).Some?
    requires s == Run(Create(slots, workers, clients).value, used)
    requires s.phase == Serving && Next(s, Shutdown) != s
    ensures slots >= 1 <==> exists events :: Run(Next(s, Shutdown), events).phase == Destroyed
  {
    CreateInv(slots, workers, clients);
    RunKeepsInv(Create(slots, workers, clients).value, used);
    FinishesFrom(s);
  }
}
