/**
 * A run in which two messages overrun a reader during its call and no test reports it: the ring holds two
 * frames of the same size, and the reader takes the header of the first message and the bytes of the third.
 */
module RingOverrun {
  import opened Bytes
  import opened RingLog
  import opened RingMemory
  import opened RingProtocol
  import opened RingReads
  import opened RingSolo
  import opened RingSteps
  import opened RingWindow

  /** All steps of one write. */
  function WriteAll(m: Message, past: nat -> byte): seq<Event> {
    [CallWrite(m, past)] + Times(WriterStep, HEADER + |m| + 3)
  }

  /** The reader attaches; a is written; the reader's call gets past the header. */
  function Opening(a: Message, past: nat -> byte, room: nat): seq<Event> {
    [AttachReader, ReaderStep(0)] + WriteAll(a, past) + ([CallRead(0, room)] + Times(ReaderStep(0), HEADER + 3))
  }

  /** Then b and c are written, and the call ends. */
  function Overrun(a: Message, b: Message, c: Message, past: nat -> byte, room: nat): seq<Event> {
    Opening(a, past, room) + WriteAll(b, past) + WriteAll(c, past) + Times(ReaderStep(0), |c| + 2)
  }

  /** Messages of one size, two of which fill the ring. */
  predicate Halves(C: nat, n: nat) {
    Capacity(C) && n <= MAX_MESSAGE && C == 2 * (HEADER + n)
  }

  lemma HalfCursors(C: nat, log: Log, n: nat)
    requires Halves(C, n) && |log| <= 3 && forall i :: 0 <= i < |log| ==> |log[i]| == n
    ensures At(C, log, 0) == Cursor(0, 0, 0, 0)
    ensures |log| >= 1 ==> At(C, log, 1) == Cursor(0, HEADER + n, HEADER + n, 0)
    ensures |log| >= 2 ==> At(C, log, 2) == Cursor(0, C, C, 0)
    ensures |log| >= 3 ==> At(C, log, 3) == Cursor(1, HEADER + n, C + HEADER + n, 0)
  {
    if |log| >= 1 {
      CursorAfter(C, log, 0, Cursor(0, 0, 0, 0));
    }
    if |log| >= 2 {
      CursorAfter(C, log, 1, Cursor(0, HEADER + n, HEADER + n, 0));
    }
    if |log| >= 3 {
      CursorAfter(C, log, 2, Cursor(0, C, C, 0));
    }
  }

  /** A whole write of a message of that size, from a published log of such messages. */
  lemma WriteStage(C: nat, s: State, n: nat, m: Message, past: nat -> byte)
    requires Halves(C, n) && Inv(C, s) && s.writer.pc == WIdle && |m| == n
    requires |s.log| <= 2 && forall i :: 0 <= i < |s.log| ==> |s.log[i]| == n
    ensures var s' := Run(C, s, WriteAll(m, past));
            && Inv(C, s') && s'.writer.pc == WIdle
            && s'.log == s.log + [m] && s'.visible == |s'.log| && s'.readers == s.readers
  {
    HalfCursors(C, s.log, n);
    SoloWrite(C, s, m, past);
    RunKeepsInv(C, s, WriteAll(m, past));
    assert Delivered(C, s.writer.idx, m, past) == m;
  }

  /** The reader once it is attached to the empty ring. */
  function Attached(): Reader {
    Reader(RIdle, 0, 0, 0, 0, [], 0, [], 0, 0, [], true, true, true)
  }

  lemma AttachStage(C: nat, ring: seq<byte>)
    requires Capacity(C) && |ring| == C
    ensures var s := Run(C, Start(ring), [AttachReader, ReaderStep(0)]);
            Inv(C, s) && s.writer.pc == WIdle && s.log == [] && s.visible == 0 && s.readers == [Attached()]
  {
    var s1 := Next(C, Start(ring), AttachReader);
    StartInv(C, ring);
    RunKeepsInv(C, Start(ring), [AttachReader, ReaderStep(0)]);
    assert [AttachReader, ReaderStep(0)] == [AttachReader] + [ReaderStep(0)];
    RunAdd(C, Start(ring), [AttachReader], [ReaderStep(0)]);
    RunOne(C, Start(ring), AttachReader);
    RunOne(C, s1, ReaderStep(0));
  }

  /** The frame that starts the ring, read back. */
  lemma FrontFrame(C: nat, s: State, n: nat, k: nat)
    requires Halves(C, n) && Inv(C, s) && s.writer.pc == WIdle && s.visible == |s.log|
    requires |s.log| <= 3 && k == |s.log| - 1 && (k == 0 || k == 2)
    requires forall i :: 0 <= i < |s.log| ==> |s.log[i]| == n
    ensures HeaderIn(s.sh.ring, 0) == n && PayloadIn(C, s.sh.ring, 0, n) == s.log[k]
  {
    HalfCursors(C, s.log, n);
    LapBaseIsProduct(C, 1);
    assert Due(C, s.log, High(C, s), k, 0);
    FrameReadsBack(C, s.log, s.sh.ring, High(C, s), k);
  }

  /** The two loads, the header and its check, from the first boundary. */
  lemma HeaderStage(C: nat, sh: Shared, log: Log, high: nat, r: Reader, n: nat) returns (clean: bool)
    requires WellFormed(C, sh) && ReaderInRange(C, r) && r.pc == RReadIdx && r.header == [] && r.idx == 0
    requires n <= MAX_MESSAGE && n <= r.room && HeaderIn(sh.ring, 0) == n
    requires sh.readIdx != 0 && Sub64(sh.seqNum, r.seqNum) <= C
    ensures Steps(C, sh, log, high, r, HEADER + 3)
         == r.(pc := RPayload, start := 0, header := sh.ring[..HEADER], size := n, buffer := [], clean := clean)
  {
    assert Steps(C, sh, log, high, r, 0) == r;
    ThenTwo(C, sh, log, high, r, 0);
    var r2 := r.(pc := RHeader, start := 0);
    clean := HeaderAlone(C, sh, log, high, r2, HEADER);
    StepsAdd(C, sh, log, high, r, 2, HEADER);
    ThenOne(C, sh, log, high, r, 2 + HEADER);
    assert sh.ring[0..HEADER] == sh.ring[..HEADER];
  }

  /** The message bytes, the locals and the final test, three half rings later. */
  lemma MessageStage(C: nat, sh: Shared, log: Log, high: nat, r: Reader, n: nat, c: seq<byte>)
    requires Halves(C, n) && WellFormed(C, sh) && ReaderInRange(C, r)
    requires r.pc == RPayload && r.start == 0 && r.size == n && r.buffer == [] && r.seqNum == 0
    requires PayloadIn(C, sh.ring, 0, n) == c && sh.seqNum == C + HEADER + n
    ensures var r' := Steps(C, sh, log, high, r, n + 2); r'.pc == RIdle && r'.got == r.got + [c] && r'.from == r.from
  {
    var clean := PayloadAlone(C, sh, log, high, r, n);
    var r1 := r.(buffer := c, clean := clean);
    ThenTwo(C, sh, log, high, r, n);
    var r2 := StepReader(C, sh, log, high, r1);
    assert r2.pc == RFinal && r2.seqNum == HEADER + n && r2.buffer == c;
  }

  /** The writer is idle, the log is published, and the one reader has the header of its first message. */
  ghost predicate PastHeader(C: nat, s: State, n: nat, log: Log) {
    && Inv(C, s) && s.writer.pc == WIdle && s.log == log && s.visible == |log| && |s.readers| == 1
    && var r := s.readers[0];
    && r.pc == RPayload && r.start == 0 && r.size == n && r.buffer == [] && r.seqNum == 0 && r.got == [] && r.from == 0
  }

  /** The call has returned message c, and the log is as it was. */
  predicate Handed(s: State, log: Log, c: Message) {
    && s.log == log && |s.readers| == 1
    && s.readers[0].pc == RIdle && s.readers[0].from == 0 && s.readers[0].got == [c]
  }

  /** Up to the moment when the call has the header of message a. */
  lemma FirstHalf(C: nat, ring: seq<byte>, n: nat, a: Message, past: nat -> byte, room: nat)
    requires Halves(C, n) && |ring| == C && |a| == n <= room
    ensures var s := Run(C, Start(ring), Opening(a, past, room));
            PastHeader(C, s, n, [a]) && s.readers[0].trusted && s.readers[0].clean
  {
    var attach, call := [AttachReader, ReaderStep(0)], [CallRead(0, room)] + Times(ReaderStep(0), HEADER + 3);
    var s1 := Run(C, Start(ring), attach);
    AttachStage(C, ring);
    var s2 := Run(C, s1, WriteAll(a, past));
    WriteStage(C, s1, n, a, past);
    assert s2.log == [a];
    RunAdd(C, Start(ring), attach, WriteAll(a, past));
    RunAdd(C, Start(ring), attach + WriteAll(a, past), call);
    CallStage(C, s2, n, room);
  }

  lemma CallForm(C: nat, s: State, room: nat, n: nat)
    requires InRange(C, s) && |s.readers| == 1
    ensures var s1 := Next(C, s, CallRead(0, room));
            && |s1.readers| == 1
            && Run(C, s, [CallRead(0, room)] + Times(ReaderStep(0), n))
               == s1.(readers := [Steps(C, s1.sh, s1.log, High(C, s1), s1.readers[0], n)])
  {
    CallThen(C, s, CallRead(0, room), ReaderStep(0), n);
    StepsAreEvents(C, Next(C, s, CallRead(0, room)), 0, n);
  }

  /** While the only message is the one at the reader, no store has reached it. */
  lemma StillThere(C: nat, s: State, n: nat, k: nat)
    requires Halves(C, n) && InRange(C, s) && s.writer.pc == WIdle && |s.log| == 1 && |s.log[0]| == n && k == 0
    ensures !Torn(C, s, k)
  {
    var a, b := At(C, s.log, k), At(C, s.log, |s.log|);
    HalfCursors(C, s.log, n);
    assert a == Cursor(0, 0, 0, 0) && b == Cursor(0, HEADER + n, HEADER + n, 0);
    assert High(C, s) == EndPos(C, b) == LapBase(C, b.laps) + HEADER + n;
    assert StartPos(C, a) == LapBase(C, a.laps);
  }

  lemma CallStage(C: nat, s: State, n: nat, room: nat)
    requires Halves(C, n) && Inv(C, s) && s.writer.pc == WIdle && |s.log| == s.visible == 1 && |s.log[0]| == n <= room
    requires s.readers == [Attached()]
    ensures var s' := Run(C, s, [CallRead(0, room)] + Times(ReaderStep(0), HEADER + 3));
            PastHeader(C, s', n, s.log) && s'.readers[0].trusted && s'.readers[0].clean
  {
    var s1 := Next(C, s, CallRead(0, room));
    HalfCursors(C, s.log, n);
    FrontFrame(C, s, n, 0);
    var clean := HeaderStage(C, s.sh, s.log, High(C, s), s1.readers[0], n);
    CallForm(C, s, room, HEADER + 3);
    var s' := Run(C, s, [CallRead(0, room)] + Times(ReaderStep(0), HEADER + 3));
    RunKeepsInv(C, s, [CallRead(0, room)] + Times(ReaderStep(0), HEADER + 3));
    StillThere(C, s', n, NextMessage(s'.readers[0]));
    assert ReaderInv(C, s', s'.readers[0]);
  }

  lemma EndStage(C: nat, s: State, n: nat, log: Log)
    requires Halves(C, n) && PastHeader(C, s, n, log) && |log| == 3 && forall i :: 0 <= i < 3 ==> |log[i]| == n
    ensures Handed(Run(C, s, Times(ReaderStep(0), n + 2)), log, log[2])
  {
    HalfCursors(C, log, n);
    FrontFrame(C, s, n, 2);
    MessageStage(C, s.sh, s.log, High(C, s), s.readers[0], n, log[2]);
    StepsAreEvents(C, s, 0, n + 2);
  }

  lemma RunFour(C: nat, s: State, e1: seq<Event>, e2: seq<Event>, e3: seq<Event>, e4: seq<Event>)
    requires InRange(C, s)
    ensures Run(C, s, e1 + e2 + e3 + e4) == Run(C, Run(C, Run(C, Run(C, s, e1), e2), e3), e4)
  {
    RunAdd(C, s, e1, e2);
    RunAdd(C, s, e1 + e2, e3);
    RunAdd(C, s, e1 + e2 + e3, e4);
  }

  lemma WriteBehind(C: nat, s: State, n: nat, log: Log, m: Message, past: nat -> byte)
    requires Halves(C, n) && PastHeader(C, s, n, log) && |m| == n
    requires |log| <= 2 && forall i :: 0 <= i < |log| ==> |log[i]| == n
    ensures PastHeader(C, Run(C, s, WriteAll(m, past)), n, log + [m])
  {
    WriteStage(C, s, n, m, past);
  }

  lemma ThreeLog(a: Message, b: Message, c: Message)
    ensures [a] + [b] + [c] == [a, b, c]
  {
  }

  /** From then on: two more messages, and the rest of the call. */
  lemma SecondHalf(C: nat, s: State, n: nat, a: Message, b: Message, c: Message, past: nat -> byte)
    requires Halves(C, n) && PastHeader(C, s, n, [a]) && |a| == |b| == |c| == n
    ensures Handed(Run(C, Run(C, Run(C, s, WriteAll(b, past)), WriteAll(c, past)), Times(ReaderStep(0), |c| + 2)),
                   [a, b, c], c)
  {
    var s1 := Run(C, s, WriteAll(b, past));
    WriteBehind(C, s, n, [a], b, past);
    WriteBehind(C, s1, n, [a] + [b], c, past);
    ThreeLog(a, b, c);
    EndStage(C, Run(C, s1, WriteAll(c, past)), n, [a, b, c]);
  }

  lemma OverrunForm(C: nat, s: State, a: Message, b: Message, c: Message, past: nat -> byte, room: nat)
    requires InRange(C, s)
    ensures var s1 := Run(C, s, Opening(a, past, room));
            Run(C, s, Overrun(a, b, c, past, room))
            == Run(C, Run(C, Run(C, s1, WriteAll(b, past)), WriteAll(c, past)), Times(ReaderStep(0), |c| + 2))
  {
    RunFour(C, s, Opening(a, past, room), WriteAll(b, past), WriteAll(c, past), Times(ReaderStep(0), |c| + 2));
  }

  /**
   * The reader was attached before the first message, called `Read` when only that message was unread, and is
   * handed the third: no tail was skipped, the indices did not coincide, and the final lag is exactly the ring.
   */
  lemma OverrunUnreported(C: nat, ring: seq<byte>, n: nat, a: Message, b: Message, c: Message,
                          past: nat -> byte, room: nat)
    requires Halves(C, n) && |ring| == C && |a| == |b| == |c| == n <= room
    ensures var s := Run(C, Start(ring), Opening(a, past, room));
            PastHeader(C, s, n, [a]) && s.readers[0].trusted && s.readers[0].clean
    ensures Handed(Run(C, Start(ring), Overrun(a, b, c, past, room)), [a, b, c], c)
  {
    FirstHalf(C, ring, n, a, past, room);
    SecondHalf(C, Run(C, Start(ring), Opening(a, past, room)), n, a, b, c, past);
    OverrunForm(C, Start(ring), a, b, c, past, room);
  }

  // ----- A frame in flight -----

  /** The copies of a frame, without the stores that publish it. */
  lemma {:induction false} CopiesOnly(C: nat, s: State, n: nat)
    requires Inv(C, s) && s.writer.pc.WCopy? && n == HEADER + |s.writer.message| - s.writer.pc.j
    ensures var s' := Run(C, s, Times(WriterStep, n));
            && Inv(C, s') && s'.writer == s.writer.(pc := WSeqNum)
            && s'.log == s.log && s'.visible == s.visible && s'.readers == s.readers
    decreases n
  {
    var s' := Next(C, s, WriterStep);
    OneMore(C, s, WriterStep, n - 1);
    NextKeepsInv(C, s, WriterStep);
    if n > 1 {
      CopiesOnly(C, s', n - 1);
    } else {
      assert Run(C, s', Times(WriterStep, 0)) == s';
    }
  }

  /** A write up to, but not including, its store to seqNum. */
  function WriteUnpublished(m: Message, past: nat -> byte): seq<Event> {
    [CallWrite(m, past)] + Times(WriterStep, HEADER + |m| + 1)
  }

  /** The call and its reservation. */
  lemma ReserveStage(C: nat, s: State, m: Message, past: nat -> byte)
    requires Inv(C, s) && s.writer.pc == WIdle && Delivered(C, s.writer.idx, m, past) == m
    ensures var s' := Next(C, Next(C, s, CallWrite(m, past)), WriterStep);
            && Inv(C, s') && s'.writer.pc == WCopy(0) && s'.writer.message == m
            && s'.log == s.log && s'.visible == s.visible && s'.readers == s.readers
  {
    NextKeepsInv(C, s, CallWrite(m, past));
    NextKeepsInv(C, Next(C, s, CallWrite(m, past)), WriterStep);
  }

  lemma UnpublishedForm(C: nat, s: State, m: Message, past: nat -> byte)
    requires InRange(C, s)
    ensures Run(C, s, WriteUnpublished(m, past))
         == Run(C, Next(C, Next(C, s, CallWrite(m, past)), WriterStep), Times(WriterStep, HEADER + |m|))
  {
    CallThen(C, s, CallWrite(m, past), WriterStep, HEADER + |m| + 1);
    OneMore(C, Next(C, s, CallWrite(m, past)), WriterStep, HEADER + |m|);
  }

  lemma UnpublishedStage(C: nat, s: State, n: nat, log: Log, m: Message, past: nat -> byte)
    requires Halves(C, n) && Inv(C, s) && s.writer.pc == WIdle && s.log == log && |log| == 2 && |m| == n
    requires forall i :: 0 <= i < 2 ==> |log[i]| == n
    ensures var s' := Run(C, s, WriteUnpublished(m, past));
            && Inv(C, s') && s'.writer.pc == WSeqNum && s'.writer.message == m
            && s'.log == log && s'.visible == s.visible && s'.readers == s.readers
  {
    HalfCursors(C, log, n);
    ReserveStage(C, s, m, past);
    UnpublishedForm(C, s, m, past);
    CopiesOnly(C, Next(C, Next(C, s, CallWrite(m, past)), WriterStep), HEADER + n);
  }

  /** The frame in flight starts the ring. */
  lemma FlightFrame(C: nat, s: State, n: nat)
    requires Halves(C, n) && Inv(C, s) && s.writer.pc == WSeqNum && |s.writer.message| == n
    requires |s.log| == 2 && forall i :: 0 <= i < 2 ==> |s.log[i]| == n
    ensures HeaderIn(s.sh.ring, 0) == n && PayloadIn(C, s.sh.ring, 0, n) == s.writer.message
  {
    var m := s.writer.message;
    HalfCursors(C, s.log, n);
    forall j: nat | j < HEADER + |m| ensures s.sh.ring[Wrap(C, 0 + j)] == Frame(m)[j] {
      assert s.sh.ring[NextCell(C, s.log, j)] == Frame(m)[j];
    }
    FrameInPlace(C, s.sh.ring, 0, m);
  }

  /** An attached reader, two messages that fill the ring, and a third in flight. */
  function Flight(a: Message, b: Message, c: Message, past: nat -> byte): seq<Event> {
    [AttachReader, ReaderStep(0)] + WriteAll(a, past) + WriteAll(b, past) + WriteUnpublished(c, past)
  }

  lemma FlightState(C: nat, ring: seq<byte>, n: nat, a: Message, b: Message, c: Message, past: nat -> byte)
    requires Halves(C, n) && |ring| == C && |a| == |b| == |c| == n
    ensures var s := Run(C, Start(ring), Flight(a, b, c, past));
            && Inv(C, s) && s.writer.pc == WSeqNum && s.writer.message == c
            && s.log == [a, b] && s.visible == 2 && s.readers == [Attached()]
  {
    var attach := [AttachReader, ReaderStep(0)];
    var s1 := Run(C, Start(ring), attach);
    var s2 := Run(C, s1, WriteAll(a, past));
    var s3 := Run(C, s2, WriteAll(b, past));
    RunFour(C, Start(ring), attach, WriteAll(a, past), WriteAll(b, past), WriteUnpublished(c, past));
    AttachStage(C, ring);
    WriteStage(C, s1, n, a, past);
    assert s2.log == [a];
    WriteStage(C, s2, n, b, past);
    assert s3.log == [a, b];
    UnpublishedStage(C, s3, n, [a, b], c, past);
  }

  lemma FlightRead(C: nat, s: State, n: nat, buffer: seq<byte>)
    requires Halves(C, n) && Inv(C, s) && s.writer.pc == WSeqNum && |s.writer.message| == n <= |buffer|
    requires |s.log| == s.visible == 2 && (forall i :: 0 <= i < 2 ==> |s.log[i]| == n)
    ensures ReadOutcome(C, s.sh, 0, 0, buffer)
         == Outcome(n, HEADER + n, HEADER + n, s.writer.message + buffer[n..])
  {
    HalfCursors(C, s.log, n);
    FlightFrame(C, s, n);
    assert s.sh.readIdx == C && s.sh.seqNum == C;
    ReadIntact(C, s.sh, 0, 0, buffer, s.writer.message);
  }

  /**
   * A lag of exactly the ring, and a frame in flight that no counter shows yet: the reader is handed the message
   * being written, which is not published, in place of the first.
   */
  lemma FlightUnreported(C: nat, ring: seq<byte>, n: nat, a: Message, b: Message, c: Message,
                         past: nat -> byte, buffer: seq<byte>) returns (steps: nat)
    requires Halves(C, n) && |ring| == C && |a| == |b| == |c| == n <= |buffer|
    ensures var s := Run(C, Start(ring), Flight(a, b, c, past));
            && s.log == [a, b] && |s.readers| == 1 && s.readers[0].trusted
            && Handed(Run(C, s, [CallRead(0, |buffer|)] + Times(ReaderStep(0), steps)), [a, b], c)
  {
    var s := Run(C, Start(ring), Flight(a, b, c, past));
    FlightState(C, ring, n, a, b, c, past);
    steps := SoloRead(C, s, 0, buffer);
    FlightRead(C, s, n, buffer);
    assert (c + buffer[n..])[..n] == c;
  }
}
