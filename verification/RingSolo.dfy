/**
 * The step machine agrees with the whole calls: a call whose steps are not interrupted does to the
 * shared memory and to the caller exactly what `AfterWrite` and `ReadOutcome` say, whatever the ring holds.
 */
module RingSolo {
  import opened Bytes
  import opened RingLog
  import opened RingMemory
  import opened RingSteps

  /** The same event n times over. */
  function Times(e: Event, n: nat): (events: seq<Event>)
    ensures |events| == n && forall i :: 0 <= i < n ==> events[i] == e
  {
    seq(n, i => e)
  }

  lemma OneMore(C: nat, s: State, e: Event, n: nat)
    requires InRange(C, s)
    ensures Run(C, s, Times(e, n + 1)) == Run(C, Next(C, s, e), Times(e, n))
  {
    assert Times(e, n + 1)[1..] == Times(e, n);
  }

  lemma CallThen(C: nat, s: State, call: Event, e: Event, n: nat)
    requires InRange(C, s)
    ensures Run(C, s, [call] + Times(e, n)) == Run(C, Next(C, s, call), Times(e, n))
  {
    assert ([call] + Times(e, n))[1..] == Times(e, n);
  }

  lemma {:induction false} RunAdd(C: nat, s: State, a: seq<Event>, b: seq<Event>)
    requires InRange(C, s)
    ensures Run(C, s, a + b) == Run(C, Run(C, s, a), b)
    decreases |a|
  {
    if a == [] {
      assert a + b == b;
    } else {
      assert (a + b)[1..] == a[1..] + b;
      RunAdd(C, Next(C, s, a[0]), a[1..], b);
    }
  }

  lemma RunOne(C: nat, s: State, e: Event)
    requires InRange(C, s)
    ensures Run(C, s, [e]) == Next(C, s, e)
  {
    assert Run(C, s, [e]) == Run(C, Next(C, s, e), [e][1..]);
  }

  // ----- A write without interruption -----

  /** One more byte of a frame laid over the ring. */
  lemma OverlayByte(C: nat, ring: seq<byte>, start: nat, f: seq<byte>, j: nat)
    requires |ring| == C && start < C && j < |f| <= C
    ensures Overlay(C, ring, start, f[..j])[Wrap(C, start + j) := f[j]] == Overlay(C, ring, start, f[..j + 1])
  {
    var a, b, cell := Overlay(C, ring, start, f[..j]), Overlay(C, ring, start, f[..j + 1]), Wrap(C, start + j);
    forall i | 0 <= i < C ensures a[cell := f[j]][i] == b[i] {
      if i == cell {
        assert b[Wrap(C, start + j)] == f[..j + 1][j];
      } else if Covers(C, start, j, i) {
        var k := if start <= i then i - start else i + C - start;
        assert a[Wrap(C, start + k)] == f[..j][k] && b[Wrap(C, start + k)] == f[..j + 1][k];
      } else {
        assert !Covers(C, start, j + 1, i);
      }
    }
  }

  /** The state once the frame is in the ring and published. */
  function Finished(C: nat, s: State, ring: seq<byte>): State
    requires InRange(C, s) && |ring| == C
  {
    var w := s.writer;
    var seqNum := Add64(w.seqNum, HEADER + |w.message|);
    s.(sh := Shared(ring, w.idx, s.sh.writeIdx, seqNum), writer := w.(pc := WIdle, seqNum := seqNum),
       log := s.log + [w.message], visible := |s.log| + 1)
  }

  lemma PublishAlone(C: nat, s: State)
    requires InRange(C, s) && s.writer.pc == WSeqNum
    ensures Run(C, s, Times(WriterStep, 2)) == Finished(C, s, s.sh.ring)
  {
    var s1 := Next(C, s, WriterStep);
    OneMore(C, s, WriterStep, 1);
    OneMore(C, s1, WriterStep, 0);
  }

  lemma CopyForm(C: nat, s: State, ring: seq<byte>)
    requires InRange(C, s) && s.writer.pc.WCopy? && |ring| == C
    requires s.sh.ring == Overlay(C, ring, s.writer.start, Frame(s.writer.message)[..s.writer.pc.j])
    ensures var w, f, j := s.writer, Frame(s.writer.message), s.writer.pc.j;
            StepWriter(C, s) == s.(sh := s.sh.(ring := Overlay(C, ring, w.start, f[..j + 1])),
                                   writer := w.(pc := if j + 1 < |f| then WCopy(j + 1) else WSeqNum))
  {
    OverlayByte(C, ring, s.writer.start, Frame(s.writer.message), s.writer.pc.j);
  }

  /** Neither the ring as it is nor how far the writer is matters to the state it will leave. */
  lemma FinishedForm(C: nat, s: State, s': State, ring: seq<byte>)
    requires InRange(C, s) && InRange(C, s') && |ring| == C
    requires s' == s.(sh := s.sh.(ring := s'.sh.ring), writer := s.writer.(pc := s'.writer.pc))
    ensures Finished(C, s', ring) == Finished(C, s, ring)
  {
  }

  /** The copies that are left, then the two stores that publish. */
  lemma {:induction false} CopyAlone(C: nat, s: State, ring: seq<byte>, n: nat)
    requires InRange(C, s) && s.writer.pc.WCopy? && |ring| == C
    requires n == HEADER + |s.writer.message| - s.writer.pc.j
    requires s.sh.ring == Overlay(C, ring, s.writer.start, Frame(s.writer.message)[..s.writer.pc.j])
    ensures Run(C, s, Times(WriterStep, n + 2))
         == Finished(C, s, Overlay(C, ring, s.writer.start, Frame(s.writer.message)))
    decreases n
  {
    var s', f := StepWriter(C, s), Frame(s.writer.message);
    CopyForm(C, s, ring);
    FinishedForm(C, s, s', Overlay(C, ring, s.writer.start, f));
    OneMore(C, s, WriterStep, n + 1);
    if n > 1 {
      CopyAlone(C, s', ring, n - 1);
    } else {
      assert f[..s.writer.pc.j + 1] == f;
      PublishAlone(C, s');
    }
  }

  /** A write whose steps run on their own is `AfterWrite`, and takes one step for each byte and three stores. */
  lemma SoloWrite(C: nat, s: State, message: Message, past: nat -> byte)
    requires InRange(C, s) && s.writer.pc == WIdle
    ensures var s' := Run(C, s, [CallWrite(message, past)] + Times(WriterStep, HEADER + |message| + 3));
            && s'.sh == AfterWrite(C, s.sh, s.writer.idx, s.writer.seqNum, message, past)
            && s'.writer.pc == WIdle && s'.writer.idx == s'.sh.readIdx && s'.writer.seqNum == s'.sh.seqNum
            && s'.log == s.log + [Delivered(C, s.writer.idx, message, past)] && s'.visible == |s'.log|
            && s'.readers == s.readers
  {
    var n := HEADER + |message|;
    var s1 := Next(C, s, CallWrite(message, past));
    var s2 := Next(C, s1, WriterStep);
    CallThen(C, s, CallWrite(message, past), WriterStep, n + 3);
    OneMore(C, s1, WriterStep, n + 2);
    assert Overlay(C, s.sh.ring, s2.writer.start, Frame(s2.writer.message)[..0]) == s.sh.ring;
    CopyAlone(C, s2, s.sh.ring, n);
  }

  // ----- A read without interruption -----

  /** Reader r after n of its steps on an unchanging memory. */
  function Steps(C: nat, sh: Shared, log: Log, high: nat, r: Reader, n: nat): (r': Reader)
    requires WellFormed(C, sh) && ReaderInRange(C, r)
    ensures ReaderInRange(C, r')
    decreases n
  {
    if n == 0 then r else Steps(C, sh, log, high, StepReader(C, sh, log, high, r), n - 1)
  }

  lemma {:induction false} StepsAreEvents(C: nat, s: State, i: nat, n: nat)
    requires InRange(C, s) && i < |s.readers|
    ensures Run(C, s, Times(ReaderStep(i), n))
         == s.(readers := s.readers[i := Steps(C, s.sh, s.log, High(C, s), s.readers[i], n)])
    decreases n
  {
    if n > 0 {
      OneMore(C, s, ReaderStep(i), n - 1);
      StepsAreEvents(C, Next(C, s, ReaderStep(i)), i, n - 1);
    }
  }

  /** Copying the header leaves the four bytes at its start. */
  lemma {:induction false} HeaderAlone(C: nat, sh: Shared, log: Log, high: nat, r: Reader, n: nat) returns (clean: bool)
    requires WellFormed(C, sh) && ReaderInRange(C, r) && r.pc == RHeader && n == HEADER - |r.header|
    requires r.header == sh.ring[r.start..r.start + |r.header|]
    ensures Steps(C, sh, log, high, r, n) == r.(header := sh.ring[r.start..r.start + HEADER], clean := clean)
    decreases n
  {
    if n > 0 {
      clean := HeaderAlone(C, sh, log, high, StepReader(C, sh, log, high, r), n - 1);
    } else {
      clean := r.clean;
    }
  }

  lemma OneMoreByte(C: nat, sh: Shared, log: Log, high: nat, r: Reader, p: seq<byte>)
    requires WellFormed(C, sh) && ReaderInRange(C, r) && r.pc == RPayload && |r.buffer| < r.size
    requires p == PayloadIn(C, sh.ring, r.start, r.size) && r.buffer == p[..|r.buffer|]
    ensures var r' := StepReader(C, sh, log, high, r);
            r' == r.(buffer := p[..|r.buffer| + 1], clean := r'.clean)
  {
    assert p[..|r.buffer| + 1] == p[..|r.buffer|] + [p[|r.buffer|]];
  }

  /** Copying the message leaves the bytes behind the header, across the end of the ring. */
  lemma {:induction false} PayloadAlone(C: nat, sh: Shared, log: Log, high: nat, r: Reader, n: nat)
    returns (clean: bool)
    requires WellFormed(C, sh) && ReaderInRange(C, r) && r.pc == RPayload && n == r.size - |r.buffer|
    requires r.buffer == PayloadIn(C, sh.ring, r.start, r.size)[..|r.buffer|]
    ensures Steps(C, sh, log, high, r, n) == r.(buffer := PayloadIn(C, sh.ring, r.start, r.size), clean := clean)
    decreases n
  {
    var p := PayloadIn(C, sh.ring, r.start, r.size);
    if n > 0 {
      OneMoreByte(C, sh, log, high, r, p);
      clean := PayloadAlone(C, sh, log, high, StepReader(C, sh, log, high, r), n - 1);
    } else {
      assert p[..r.size] == p;
      clean := r.clean;
    }
  }

  lemma {:induction false} StepsAdd(C: nat, sh: Shared, log: Log, high: nat, r: Reader, a: nat, b: nat)
    requires WellFormed(C, sh) && ReaderInRange(C, r)
    ensures Steps(C, sh, log, high, r, a + b) == Steps(C, sh, log, high, Steps(C, sh, log, high, r, a), b)
    decreases a
  {
    if a > 0 {
      StepsAdd(C, sh, log, high, StepReader(C, sh, log, high, r), a - 1, b);
    }
  }

  /** What a call leaves of its reader: the locals, and the message if there is one. */
  predicate Returned(C: nat, sh: Shared, r: Reader, r': Reader, buffer: seq<byte>)
    requires WellFormed(C, sh) && ReaderInRange(C, r)
  {
    var o := ReadOutcome(C, sh, r.idx, r.seqNum, buffer);
    && r'.pc == RIdle && r'.idx == o.idx && r'.seqNum == o.seqNum && r'.from == r.from
    && r'.got == (if r.idx != sh.readIdx && o.ret >= 0 then r.got + [o.buffer[..o.ret]] else r.got)
  }

  lemma ThenOne(C: nat, sh: Shared, log: Log, high: nat, r: Reader, n: nat)
    requires WellFormed(C, sh) && ReaderInRange(C, r)
    ensures Steps(C, sh, log, high, r, n + 1) == StepReader(C, sh, log, high, Steps(C, sh, log, high, r, n))
  {
    var r1 := Steps(C, sh, log, high, r, n);
    StepsAdd(C, sh, log, high, r, n, 1);
    assert Steps(C, sh, log, high, r1, 1) == Steps(C, sh, log, high, StepReader(C, sh, log, high, r1), 0);
  }

  lemma ThenTwo(C: nat, sh: Shared, log: Log, high: nat, r: Reader, n: nat)
    requires WellFormed(C, sh) && ReaderInRange(C, r)
    ensures Steps(C, sh, log, high, r, n + 2)
         == StepReader(C, sh, log, high, StepReader(C, sh, log, high, Steps(C, sh, log, high, r, n)))
  {
    ThenOne(C, sh, log, high, r, n);
    ThenOne(C, sh, log, high, r, n + 1);
  }

  /** The two steps behind the last message byte. */
  lemma MessageEnd(C: nat, sh: Shared, log: Log, high: nat, r: Reader, idx: nat, buffer: seq<byte>)
    requires WellFormed(C, sh) && ReaderInRange(C, r) && r.pc == RPayload
    requires idx <= C && r.idx == r.start == StartIndex(C, idx)
    requires idx != sh.readIdx && Sub64(sh.seqNum, r.seqNum) <= C
    requires HeaderIn(sh.ring, r.start) == r.size <= |buffer| && r.buffer == PayloadIn(C, sh.ring, r.start, r.size)
    ensures Returned(C, sh, r.(idx := idx), StepReader(C, sh, log, high, StepReader(C, sh, log, high, r)), buffer)
  {
    assert (r.buffer + buffer[r.size..])[..r.size] == r.buffer;
  }

  /** The step behind the last header byte: a refusal, or on to the message. */
  lemma HeaderEnd(C: nat, sh: Shared, log: Log, high: nat, r: Reader, idx: nat, buffer: seq<byte>)
    requires WellFormed(C, sh) && ReaderInRange(C, r) && r.pc == RHeader && r.room == |buffer|
    requires idx <= C && r.idx == r.start == StartIndex(C, idx)
    requires idx != sh.readIdx && Sub64(sh.seqNum, r.seqNum) <= C
    requires r.header == sh.ring[r.start..r.start + HEADER]
    ensures var r', n := StepReader(C, sh, log, high, r), HeaderIn(sh.ring, r.start);
            if 0 <= n <= MAX_MESSAGE && n <= |buffer| then r' == r.(pc := RPayload, size := n, buffer := [])
            else Returned(C, sh, r.(idx := idx), r', buffer)
  {
  }

  /** From the first message byte to the end of the call. */
  lemma MessageAlone(C: nat, sh: Shared, log: Log, high: nat, r: Reader, idx: nat, buffer: seq<byte>) returns (n: nat)
    requires WellFormed(C, sh) && ReaderInRange(C, r) && r.pc == RPayload && r.buffer == []
    requires idx <= C && r.idx == r.start == StartIndex(C, idx)
    requires idx != sh.readIdx && Sub64(sh.seqNum, r.seqNum) <= C
    requires HeaderIn(sh.ring, r.start) == r.size <= |buffer|
    ensures Returned(C, sh, r.(idx := idx), Steps(C, sh, log, high, r, n), buffer)
  {
    n := r.size + 2;
    var clean := PayloadAlone(C, sh, log, high, r, r.size);
    ThenTwo(C, sh, log, high, r, r.size);
    MessageEnd(C, sh, log, high, r.(buffer := PayloadIn(C, sh.ring, r.start, r.size), clean := clean), idx, buffer);
  }

  /** From the first header byte to the end of the call. */
  lemma TakeAlone(C: nat, sh: Shared, log: Log, high: nat, r: Reader, idx: nat, buffer: seq<byte>) returns (n: nat)
    requires WellFormed(C, sh) && ReaderInRange(C, r) && r.pc == RHeader && r.header == [] && r.room == |buffer|
    requires idx <= C && r.idx == r.start == StartIndex(C, idx)
    requires idx != sh.readIdx && Sub64(sh.seqNum, r.seqNum) <= C
    ensures Returned(C, sh, r.(idx := idx), Steps(C, sh, log, high, r, n), buffer)
  {
    var clean := HeaderAlone(C, sh, log, high, r, HEADER);
    var r1 := r.(header := sh.ring[r.start..r.start + HEADER], clean := clean);
    var r2 := StepReader(C, sh, log, high, r1);
    n := HEADER + 1;
    ThenOne(C, sh, log, high, r, HEADER);
    HeaderEnd(C, sh, log, high, r1, idx, buffer);
    if r2.pc == RPayload {
      var rest := MessageAlone(C, sh, log, high, r2, idx, buffer);
      StepsAdd(C, sh, log, high, r, n, rest);
      n := n + rest;
    }
  }

  /** From the load of readIdx to the end of the call. */
  lemma CallAlone(C: nat, sh: Shared, log: Log, high: nat, r: Reader, buffer: seq<byte>) returns (n: nat)
    requires WellFormed(C, sh) && ReaderInRange(C, r) && r.pc == RReadIdx && r.header == [] && r.room == |buffer|
    ensures Returned(C, sh, r, Steps(C, sh, log, high, r, n), buffer)
  {
    var r1 := StepReader(C, sh, log, high, r);
    n := 1;
    assert Steps(C, sh, log, high, r, 0) == r;
    ThenOne(C, sh, log, high, r, 0);
    if r1.pc == RSeqNum {
      var r2 := StepReader(C, sh, log, high, r1);
      n := 2;
      ThenTwo(C, sh, log, high, r, 0);
      if r2.pc == RHeader {
        var rest := TakeAlone(C, sh, log, high, r2, r.idx, buffer);
        StepsAdd(C, sh, log, high, r, 2, rest);
        n := 2 + rest;
      }
    }
  }

  /** A read whose steps run on their own is `ReadOutcome`; it changes nothing but its reader. */
  lemma SoloRead(C: nat, s: State, i: nat, buffer: seq<byte>) returns (n: nat)
    requires InRange(C, s) && i < |s.readers| && s.readers[i].pc == RIdle
    ensures var s' := Run(C, s, [CallRead(i, |buffer|)] + Times(ReaderStep(i), n));
            && |s'.readers| == |s.readers|
            && s' == s.(readers := s.readers[i := s'.readers[i]])
            && Returned(C, s.sh, s.readers[i], s'.readers[i], buffer)
  {
    var s1 := Next(C, s, CallRead(i, |buffer|));
    n := CallAlone(C, s.sh, s.log, High(C, s), s1.readers[i], buffer);
    CallThen(C, s, CallRead(i, |buffer|), ReaderStep(i), n);
    StepsAreEvents(C, s1, i, n);
  }
}
