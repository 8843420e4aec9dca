/**
 * The thread pool: workers that loop over the blocking queue, clients that post to it, and the destructor,
 * which posts one terminate message per worker and joins them. Threads 0..N-1 of the queue are the
 * workers, thread N runs the destructor, and it and the threads after it are clients.
 */
module ThreadPool {
  import opened Counting
  import opened Options
  import Q = BlockingQueue

  datatype Msg = Log(id: nat) | Flush(id: nat) | Terminate

  datatype Worker =
    | Looping             // in worker_loop_, inside dequeue or about to call it
    | Handling(msg: Msg)  // dequeue returned msg
    | Exited

  datatype Phase =
    | Serving
    | Posting(posted: nat)   // the destructor's first loop
    | Joining(joined: nat)   // its second loop
    | Destroyed

  /**
   * History: where in the queue's exits each worker's last message is, whether it took a terminate,
   * and which exits were handled by a back end.
   */
  datatype State = State(queue: Q.State<Msg>, workers: seq<Worker>, phase: Phase,
                         hand: seq<nat>, ended: seq<bool>, handled: seq<nat>)

  datatype Event =
    | Post(client: nat, msg: Msg, policy: Policy)
    | QueueStep(thread: nat, waiter: nat)
    | Loop(worker: nat)
    | Handle(worker: nat)
    | Shutdown
    | PostTerminate
    | Join
    | Spurious(thread: nat)

  datatype Policy = Block | OverrunOldest | DiscardNew

  /** The constructor refuses a worker count outside 1..1000. */
  function Create(slots: nat, workers: nat, clients: nat): (r: Option<State>)
    ensures r.Some? <==> 1 <= workers <= 1000
    ensures r.Some? ==> |r.value.workers| == workers && r.value.queue.slots == slots
    ensures r.Some? ==> |r.value.queue.threads| == workers + clients && r.value.phase == Serving
  {
    if workers == 0 || workers > 1000 then None
    else
      Some(State(Q.Start(slots, workers + clients), seq(workers, i => Looping), Serving,
                 seq(workers, i => 0), seq(workers, i => false), []))
  }

  /** The thread that runs the destructor. */
  function Owner(s: State): nat { |s.workers| }

  predicate Shape(s: State) {
    && |s.queue.q| <= s.queue.slots
    && 1 <= |s.workers| < |s.queue.threads|
    && |s.hand| == |s.ended| == |s.workers|
  }

  // ----- Steps -----

  function StepQueue(s: State, t: nat, waiter: nat): State
    requires Shape(s) && t < |s.queue.threads|
  {
    var before, after := s.queue, Q.StepThread(s.queue, t, waiter);
    var s1 := s.(queue := after);
    if t < |s.workers| then
      if |after.exits| > |before.exits| then
        s1.(hand := s.hand[t := |before.exits|],
            ended := if after.exits[|before.exits|].item == Terminate then s.ended[t := true] else s.ended)
      else if before.threads[t].NotifyingPop? && after.threads[t].Idle? then
        s1.(workers := s.workers[t := Handling(before.threads[t].taken)])
      else s1
    else if t == Owner(s) && s.phase.Posting? && before.threads[t].NotifyingPush? && after.threads[t].Idle? then
      s1.(phase := Posting(s.phase.posted + 1))
    else s1
  }

  function Begin(s: State, t: nat, call: Q.Call<Msg>): State
    requires Shape(s)
  {
    s.(queue := Q.Next(s.queue, Q.Begin(t, call)))
  }

  function Next(s: State, e: Event): (s': State)
    requires Shape(s)
    ensures Shape(s') && |s'.workers| == |s.workers| && s'.queue.slots == s.queue.slots
  {
    match e
    case Post(t, msg, policy) =>
      if s.phase != Serving || t < Owner(s) || msg == Terminate then s
      else Begin(s, t, match policy
                       case Block => Q.Enqueue(msg)
                       case OverrunOldest => Q.EnqueueNowait(msg)
                       case DiscardNew => Q.EnqueueIfRoom(msg))
    case QueueStep(t, waiter) =>
      if t < |s.queue.threads| then StepQueue(s, t, waiter) else s
    case Loop(w) =>
      if w < |s.workers| && s.workers[w] == Looping then Begin(s, w, Q.Dequeue(false)) else s
    case Handle(w) =>
      if w >= |s.workers| || !s.workers[w].Handling? then s
      else if s.workers[w].msg == Terminate then s.(workers := s.workers[w := Exited])
      else s.(workers := s.workers[w := Looping], handled := s.handled + [s.hand[w]])
    case Shutdown =>
      if s.phase == Serving && (forall t :: Owner(s) <= t < |s.queue.threads| ==> s.queue.threads[t].Idle?)
      then s.(phase := Posting(0)) else s
    case PostTerminate =>
      if !s.phase.Posting? || !s.queue.threads[Owner(s)].Idle? then s
      else if s.phase.posted < |s.workers| then Begin(s, Owner(s), Q.Enqueue(Terminate))
      else s.(phase := Joining(0))
    case Join =>
      if !s.phase.Joining? then s
      else if s.phase.joined >= |s.workers| then s.(phase := Destroyed)
      else if s.workers[s.phase.joined] == Exited then s.(phase := Joining(s.phase.joined + 1))
      else s
    case Spurious(t) =>
      s.(queue := Q.Next(s.queue, Q.Spurious(t)))
  }

  function Run(s: State, events: seq<Event>): (s': State)
    requires Shape(s)
    ensures Shape(s') && |s'.workers| == |s.workers| && s'.queue.slots == s.queue.slots
    decreases |events|
  {
    if events == [] then s else Run(Next(s, events[0]), events[1..])
  }

  // ----- Threads do only what their part of the program does -----

  predicate WorkerOk(w: Worker, l: Q.Local<Msg>) {
    match l
    case Idle => true
    case Dequeuing(timed) => w == Looping && !timed
    case DequeueWaiting(timed) => w == Looping && !timed
    case DequeueWoken(timed) => w == Looping && !timed
    case NotifyingPop(_) => w == Looping
    case _ => false
  }

  /** A client holds only log and flush messages; in the destructor only the owner is busy, with terminates. */
  predicate ClientOk(phase: Phase, owner: bool, l: Q.Local<Msg>) {
    match l
    case Idle => true
    case Enqueuing(m) => Posts(phase, owner, m)
    case EnqueueWaiting(m) => Posts(phase, owner, m)
    case EnqueueWoken(m) => Posts(phase, owner, m)
    case Overrunning(m) => phase == Serving && m != Terminate
    case Trying(m) => phase == Serving && m != Terminate
    case NotifyingPush => phase == Serving || (owner && phase.Posting?)
    case Discarding => phase == Serving
    case _ => false
  }

  predicate Posts(phase: Phase, owner: bool, m: Msg) {
    if phase == Serving then m != Terminate else owner && phase.Posting? && m == Terminate
  }

  ghost predicate ThreadsOk(s: State)
    requires Shape(s)
  {
    && (forall w :: 0 <= w < |s.workers| ==> WorkerOk(s.workers[w], s.queue.threads[w]))
    && (forall t :: |s.workers| <= t < |s.queue.threads| ==> ClientOk(s.phase, t == Owner(s), s.queue.threads[t]))
  }

  // ----- Each message is handled exactly once -----

  /** The message each worker has taken and not finished with. */
  function Carried(s: State): (c: seq<Option<Msg>>)
    requires Shape(s)
    ensures |c| == |s.workers|
  {
    seq(|s.workers|, w requires 0 <= w < |s.workers| < |s.queue.threads| =>
      if s.workers[w].Handling? then Some(s.workers[w].msg)
      else if s.queue.threads[w].NotifyingPop? then Some(s.queue.threads[w].taken)
      else None)
  }

  predicate IsWork(x: Q.Exit<Msg>) {
    x.Taken? && x.item != Terminate
  }

  /** Worker w is between taking exit g and handing it to a back end. */
  predicate Carries(carried: seq<Option<Msg>>, hand: seq<nat>, w: nat, g: nat)
    requires |carried| == |hand|
  {
    w < |hand| && carried[w].Some? && hand[w] == g
  }

  ghost predicate HandledOnce(exits: seq<Q.Exit<Msg>>, handled: seq<nat>, carried: seq<Option<Msg>>, hand: seq<nat>)
    requires |carried| == |hand|
  {
    && (forall w :: 0 <= w < |hand| && carried[w].Some? ==>
          hand[w] < |exits| && exits[hand[w]] == Q.Taken(carried[w].value, w))
    && (forall g :: 0 <= g < |exits| && IsWork(exits[g]) ==> g in handled || Carries(carried, hand, exits[g].thread, g))
    && (forall g :: g in handled ==> g < |exits| && IsWork(exits[g]) && !Carries(carried, hand, exits[g].thread, g))
    && (forall i, j :: 0 <= i < j < |handled| ==> handled[i] != handled[j])
  }

  // ----- Each worker consumes exactly one terminate -----

  predicate TakesTerminate(x: Q.Exit<Msg>) { x.Taken? && x.item == Terminate }
  predicate IsTerminate(m: Msg) { m == Terminate }
  predicate IsTrue(b: bool) { b }

  /** How many terminates the destructor has pushed. */
  function Pushed(s: State): nat
    requires Shape(s)
  {
    match s.phase
    case Serving => 0
    case Posting(k) => k + (if s.queue.threads[Owner(s)].NotifyingPush? then 1 else 0)
    case Joining(_) => |s.workers|
    case Destroyed => |s.workers|
  }

  /** A worker's flag is up exactly from taking a terminate on. */
  ghost predicate EndedOk(workers: seq<Worker>, carried: seq<Option<Msg>>, ended: seq<bool>)
    requires |workers| == |carried| == |ended|
  {
    forall w :: 0 <= w < |ended| ==> (ended[w] <==> workers[w] == Exited || carried[w] == Some(Terminate))
  }

  ghost predicate OneTerminateEach(exits: seq<Q.Exit<Msg>>, hand: seq<nat>, ended: seq<bool>)
    requires |hand| == |ended|
  {
    && (forall w :: 0 <= w < |ended| && ended[w] ==>
          hand[w] < |exits| && exits[hand[w]] == Q.Taken(Terminate, w))
    && (forall g :: 0 <= g < |exits| && exits[g].Taken? ==>
          && exits[g].thread < |ended|
          && (exits[g].item == Terminate ==> ended[exits[g].thread] && hand[exits[g].thread] == g))
    && (forall g :: 0 <= g < |exits| && exits[g].Overrun? ==> exits[g].item != Terminate)
    && Count(exits, TakesTerminate) == Count(ended, IsTrue)
  }

  /** The destructor's messages come last, and as many as it pushed. */
  ghost predicate TerminatesLast(accepted: seq<Msg>, pushed: nat) {
    && Count(accepted, IsTerminate) == pushed
    && (forall i, j :: 0 <= i < j < |accepted| && accepted[i] == Terminate ==> accepted[j] == Terminate)
  }

  ghost predicate HistoryOk(s: State)
    requires Shape(s)
  {
    && HandledOnce(s.queue.exits, s.handled, Carried(s), s.hand)
    && EndedOk(s.workers, Carried(s), s.ended)
    && OneTerminateEach(s.queue.exits, s.hand, s.ended)
    && TerminatesLast(s.queue.accepted, Pushed(s))
  }

  ghost predicate PhaseOk(s: State)
    requires Shape(s)
  {
    match s.phase
    case Serving => true
    case Posting(k) => k <= |s.workers| && (!s.queue.threads[Owner(s)].Idle? ==> k < |s.workers|)
    case Joining(j) => j <= |s.workers| && forall w :: 0 <= w < j ==> s.workers[w] == Exited
    case Destroyed => forall w :: 0 <= w < |s.workers| ==> s.workers[w] == Exited
  }

  ghost predicate Inv(s: State) {
    Shape(s) && Q.Inv(s.queue) && ThreadsOk(s) && HistoryOk(s) && PhaseOk(s)
  }
}
