/** What an interleaved call returns: in its window a reader gets its next message in a bounded number of steps. */
module RingProgress {
  import opened Bytes
  import opened RingLog
  import opened RingProtocol
  import opened RingSteps

  /**
   * The window of a reader at message k: no store has reached its frame, and what is announced ends less than
   * a ring beyond its boundary, so that the index test can tell.
   */
  predicate InWindow(C: nat, s: State, k: nat)
    requires Capacity(C) && s.visible <= |s.log|
  {
    k <= |s.log| && !Torn(C, s, k) && EndAt(C, s.log, s.visible) < EndAt(C, s.log, k) + C
  }

  /** The steps that a call has left which reads message m. */
  function StepsLeft(m: Message, r: Reader): nat {
    match r.pc
    case RReadIdx => HEADER + |m| + 5
    case RSeqNum => HEADER + |m| + 4
    case RHeader => if |r.header| <= HEADER then HEADER - |r.header| + |m| + 3 else 0
    case RPayload => if |r.buffer| <= |m| then |m| - |r.buffer| + 2 else 0
    case RFinal => 1
    case _ => 0
  }

  /** Reader r is in a call that began at message k with the messages `got`, or this call has returned message k. */
  ghost predicate OnCall(s: State, r: Reader, k: nat, got: seq<seq<byte>>, room: nat) {
    && r.trusted && r.from + |got| == k < s.visible <= |s.log| && |s.log[k]| <= room
    && (if r.pc == RIdle then r.got == got + [s.log[k]] else r.pc != RAttach && r.got == got && r.room == room)
  }

  // ----- One step of the reader -----

  /** Within the window the index test sees that there is a message. */
  lemma IndexTestPasses(C: nat, s: State, r: Reader, k: nat, got: seq<seq<byte>>, room: nat)
    requires InRange(C, s) && PublishInv(C, s) && ReaderInRange(C, r) && ReaderInv(C, s, r)
    requires OnCall(s, r, k, got, room) && InWindow(C, s, k) && r.pc == RReadIdx
    ensures r.idx != s.sh.readIdx
  {
    assert Reading(C, s.log, s.visible, r);
    Monotone(C, s.log, k, s.visible);
    LapStep(C, At(C, s.log, k).laps, At(C, s.log, s.visible).laps);
  }

  lemma LoadAdvances(C: nat, s: State, r: Reader, k: nat, got: seq<seq<byte>>, room: nat)
    requires InRange(C, s) && PublishInv(C, s) && ReaderInRange(C, r) && ReaderInv(C, s, r)
    requires OnCall(s, r, k, got, room) && InWindow(C, s, k) && (r.pc == RReadIdx || r.pc == RSeqNum)
    ensures var r' := StepReader(C, s.sh, s.log, High(C, s), r);
            OnCall(s, r', k, got, room) && StepsLeft(s.log[k], r') == StepsLeft(s.log[k], r) - 1
  {
    if r.pc == RReadIdx {
      IndexTestPasses(C, s, r, k, got, room);
    } else {
      MovedIndexIsBehind(C, s, r);
    }
    assert Reading(C, s.log, s.visible, r);
  }

  lemma HeaderAdvances(C: nat, s: State, r: Reader, k: nat, got: seq<seq<byte>>, room: nat)
    requires InRange(C, s) && PublishInv(C, s) && ReaderInRange(C, r) && ReaderInv(C, s, r)
    requires OnCall(s, r, k, got, room) && InWindow(C, s, k) && r.pc == RHeader
    ensures var r' := StepReader(C, s.sh, s.log, High(C, s), r);
            OnCall(s, r', k, got, room) && StepsLeft(s.log[k], r') == StepsLeft(s.log[k], r) - 1
  {
    assert Reading(C, s.log, s.visible, r) && r.clean;
    FrameDecodes(s.log[k]);
  }

  lemma PayloadAdvances(C: nat, s: State, r: Reader, k: nat, got: seq<seq<byte>>, room: nat)
    requires InRange(C, s) && PublishInv(C, s) && ReaderInRange(C, r) && ReaderInv(C, s, r)
    requires OnCall(s, r, k, got, room) && InWindow(C, s, k) && r.pc == RPayload
    ensures var r' := StepReader(C, s.sh, s.log, High(C, s), r);
            OnCall(s, r', k, got, room) && StepsLeft(s.log[k], r') == StepsLeft(s.log[k], r) - 1
  {
    assert Reading(C, s.log, s.visible, r);
  }

  lemma StepAdvances(C: nat, s: State, r: Reader, k: nat, got: seq<seq<byte>>, room: nat)
    requires InRange(C, s) && PublishInv(C, s) && ReaderInRange(C, r) && ReaderInv(C, s, r)
    requires OnCall(s, r, k, got, room) && InWindow(C, s, k) && r.pc != RIdle
    ensures var r' := StepReader(C, s.sh, s.log, High(C, s), r);
            OnCall(s, r', k, got, room) && StepsLeft(s.log[k], r') == StepsLeft(s.log[k], r) - 1
  {
    match r.pc
    case RHeader => HeaderAdvances(C, s, r, k, got, room);
    case RPayload => PayloadAdvances(C, s, r, k, got, room);
    case RFinal => IntactRead(C, s, r);
    case _ => LoadAdvances(C, s, r, k, got, room);
  }

  // ----- Any event -----

  lemma LogKeeps(C: nat, s: State, e: Event, k: nat)
    requires Inv(C, s) && k <= |s.log|
    ensures |s.log| <= |Next(C, s, e).log| && s.visible <= Next(C, s, e).visible <= |Next(C, s, e).log|
    ensures At(C, Next(C, s, e).log, k) == At(C, s.log, k)
    ensures k < |s.log| ==> Next(C, s, e).log[k] == s.log[k]
  {
    var more := LogGrows(C, s, e);
    AtPrefix(C, s.log, more, k);
    NextKeepsInv(C, s, e);
  }

  /** A window that is open after an event was open before it. */
  lemma WindowEarlier(C: nat, s: State, e: Event, k: nat)
    requires Inv(C, s) && k <= |s.log| && Inv(C, Next(C, s, e)) && InWindow(C, Next(C, s, e), k)
    ensures InWindow(C, s, k)
  {
    var s' := Next(C, s, e);
    LogKeeps(C, s, e, k);
    LogKeeps(C, s, e, s.visible);
    NextKeepsPublish(C, s, e);
    Monotone(C, s'.log, s.visible, s'.visible);
  }

  lemma {:induction false} WindowAtStart(C: nat, s: State, events: seq<Event>, k: nat)
    requires Inv(C, s) && k <= |s.log| && Inv(C, Run(C, s, events)) && InWindow(C, Run(C, s, events), k)
    ensures InWindow(C, s, k)
    decreases |events|
  {
    if events != [] {
      NextKeepsInv(C, s, events[0]);
      LogKeeps(C, s, events[0], k);
      WindowAtStart(C, Next(C, s, events[0]), events[1..], k);
      WindowEarlier(C, s, events[0], k);
    }
  }

  predicate CallsNot(e: Event, i: nat) {
    e.CallRead? ==> e.reader != i
  }

  lemma EventAdvances(C: nat, s: State, e: Event, i: nat, k: nat, got: seq<seq<byte>>, room: nat)
    requires Inv(C, s) && i < |s.readers| && OnCall(s, s.readers[i], k, got, room) && InWindow(C, s, k)
    requires CallsNot(e, i)
    ensures var s' := Next(C, s, e);
            && i < |s'.readers| && OnCall(s', s'.readers[i], k, got, room)
            && s'.log[k] == s.log[k]
            && StepsLeft(s.log[k], s'.readers[i]) <= StepsLeft(s.log[k], s.readers[i])
            && (e == ReaderStep(i) && s.readers[i].pc != RIdle ==>
                  StepsLeft(s.log[k], s'.readers[i]) < StepsLeft(s.log[k], s.readers[i]))
  {
    assert ReaderInv(C, s, s.readers[i]);
    LogKeeps(C, s, e, k);
    if e == ReaderStep(i) && s.readers[i].pc != RIdle {
      StepAdvances(C, s, s.readers[i], k, got, room);
    }
  }

  // ----- Runs -----

  predicate NoCall(events: seq<Event>, i: nat) {
    forall j :: 0 <= j < |events| ==> CallsNot(events[j], i)
  }

  /** How many steps reader i takes among the events. */
  function Taken(events: seq<Event>, i: nat): nat {
    if events == [] then 0 else (if events[0] == ReaderStep(i) then 1 else 0) + Taken(events[1..], i)
  }

  /** A call with no step left has returned. */
  lemma IdleWhenDone(C: nat, s: State, r: Reader, k: nat, got: seq<seq<byte>>, room: nat)
    requires InRange(C, s) && PublishInv(C, s) && ReaderInRange(C, r) && ReaderInv(C, s, r)
    requires OnCall(s, r, k, got, room) && InWindow(C, s, k) && StepsLeft(s.log[k], r) == 0
    ensures r.pc == RIdle
  {
    if r.pc != RIdle {
      StepAdvances(C, s, r, k, got, room);
      assert false;
    }
  }

  lemma {:induction false} CallReturns(C: nat, s: State, events: seq<Event>, i: nat, k: nat,
                                       got: seq<seq<byte>>, room: nat)
    requires Inv(C, s) && i < |s.readers| && OnCall(s, s.readers[i], k, got, room)
    requires NoCall(events, i) && Taken(events, i) >= StepsLeft(s.log[k], s.readers[i])
    requires Run(C, s, events).visible <= |Run(C, s, events).log| && InWindow(C, Run(C, s, events), k)
    ensures var s' := Run(C, s, events);
            && i < |s'.readers| && s'.readers[i].pc == RIdle
            && s'.readers[i].trusted && s'.readers[i].got == got + [s.log[k]]
    decreases |events|
  {
    RunKeepsInv(C, s, events);
    WindowAtStart(C, s, events, k);
    if events == [] {
      IdleWhenDone(C, s, s.readers[i], k, got, room);
    } else {
      EventAdvances(C, s, events[0], i, k, got, room);
      NextKeepsInv(C, s, events[0]);
      assert s.readers[i].pc == RIdle ==> StepsLeft(s.log[k], s.readers[i]) == 0;
      CallReturns(C, Next(C, s, events[0]), events[1..], i, k, got, room);
    }
  }

  /**
   * Progress in every interleaving: a reader that is up to date with its history and calls `Read` while a message is
   * announced, with room for it, has that message after at most nine of its own steps and one for each message
   * byte, whatever the others did meanwhile, provided the window is still open.
   */
  lemma ReadDelivers(C: nat, ring: seq<byte>, before: seq<Event>, s: State, i: nat, room: nat,
                     events: seq<Event>, s': State)
    requires Capacity(C) && |ring| == C && s == Run(C, Start(ring), before)
    requires i < |s.readers| && s.readers[i].pc == RIdle && s.readers[i].trusted
    requires NextMessage(s.readers[i]) < s.visible <= |s.log| && |s.log[NextMessage(s.readers[i])]| <= room
    requires s' == Run(C, Next(C, s, CallRead(i, room)), events) && NoCall(events, i)
    requires Taken(events, i) >= HEADER + |s.log[NextMessage(s.readers[i])]| + 5
    requires s'.visible <= |s'.log| && InWindow(C, s', NextMessage(s.readers[i]))
    ensures i < |s'.readers| && s'.readers[i].pc == RIdle && s'.readers[i].trusted
    ensures s'.readers[i].got == s.readers[i].got + [s.log[NextMessage(s.readers[i])]]
  {
    var k, got := NextMessage(s.readers[i]), s.readers[i].got;
    StartInv(C, ring);
    RunKeepsInv(C, Start(ring), before);
    NextKeepsInv(C, s, CallRead(i, room));
    CallReturns(C, Next(C, s, CallRead(i, room)), events, i, k, got, room);
  }
}
