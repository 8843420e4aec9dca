/** Whole runs of one writer and any number of readers whose calls do not overlap. */
module RingRuns {
  import opened Bytes
  import opened RingLog
  import opened RingMemory
  import opened RingReads
  import opened RingWindow

  /** A reader with its history: the boundary it attached at, the messages it was given, and whether it was misled. */
  datatype Subscriber = Subscriber(idx: nat, seqNum: nat, from: nat, got: seq<seq<byte>>, misled: bool)

  /**
   * The shared memory, the writer's locals and the readers; as history, the messages handed to the
   * writer, the messages it delivered, and whether every write met the geometry of `DeliversAll`.
   */
  datatype World = World(sh: Shared, idx: nat, seqNum: nat, readers: seq<Subscriber>,
                         sent: Log, log: Log, aligned: bool)

  datatype Op =
    | Write(message: seq<byte>, past: nat -> byte)
    | Attach
    | Read(reader: nat, buffer: seq<byte>)

  function Start(ring: seq<byte>): World {
    World(Shared(ring, 0, 0, 0), 0, 0, [], [], [], true)
  }

  /** The calls are total: reads only need the index and counters to be in range. */
  predicate InRange(C: nat, w: World) {
    && WellFormed(C, w.sh) && w.sh.readIdx <= C && w.idx <= C && w.seqNum < TWO64
    && forall r :: 0 <= r < |w.readers| ==> w.readers[r].idx <= C && w.readers[r].seqNum < TWO64
  }

  /** A call of reader s gets past both tests although its next message is no longer in the ring. */
  predicate Misled(C: nat, w: World, s: Subscriber)
    requires InRange(C, w) && s.seqNum < TWO64
  {
    var k := s.from + |s.got|;
    k > |w.log| || (Lapped(C, w.log, k) && s.idx != w.sh.readIdx && Sub64(w.sh.seqNum, s.seqNum) <= C)
  }

  /** A reader's call. */
  function ReadBy(C: nat, w: World, s: Subscriber, buffer: seq<byte>): (s': Subscriber)
    requires InRange(C, w) && s.idx <= C && s.seqNum < TWO64
    ensures s'.idx <= C && s'.seqNum < TWO64
  {
    var o := ReadOutcome(C, w.sh, s.idx, s.seqNum, buffer);
    Subscriber(o.idx, o.seqNum, s.from,
               if s.idx != w.sh.readIdx && o.ret >= 0 then s.got + [o.buffer[..o.ret]] else s.got,
               s.misled || Misled(C, w, s))
  }

  function Apply(C: nat, w: World, op: Op): (w': World)
    requires InRange(C, w)
    ensures InRange(C, w')
  {
    match op
    case Write(message, past) =>
      if |message| > MAX_MESSAGE then w
      else
        w.(sh := AfterWrite(C, w.sh, w.idx, w.seqNum, message, past),
           idx := NextIndex(C, w.idx, |message|),
           seqNum := Add64(w.seqNum, HEADER + |message|),
           sent := w.sent + [message],
           log := w.log + [Delivered(C, w.idx, message, past)],
           aligned := w.aligned && DeliversAll(C, w.idx, |message|))
    case Attach =>
      w.(readers := w.readers + [Subscriber(w.sh.readIdx, w.sh.seqNum, |w.log|, [], false)])
    case Read(r, buffer) =>
      if r >= |w.readers| then w
      else w.(readers := w.readers[r := ReadBy(C, w, w.readers[r], buffer)])
  }

  /** A write takes every message up to the limit, and nothing else. */
  lemma WriteTakes(C: nat, w: World, message: seq<byte>, past: nat -> byte)
    requires InRange(C, w)
    ensures var w' := Apply(C, w, Write(message, past));
            && (|message| > MAX_MESSAGE ==> w' == w)
            && (|message| <= MAX_MESSAGE ==>
                  && w'.sent == w.sent + [message] && |w'.log| == |w.log| + 1 && w'.readers == w.readers
                  && w'.sh == AfterWrite(C, w.sh, w.idx, w.seqNum, message, past)
                  && w'.idx == w'.sh.readIdx && w'.seqNum == w'.sh.seqNum)
  {
  }

  function Run(C: nat, w: World, ops: seq<Op>): (w': World)
    requires InRange(C, w)
    ensures InRange(C, w')
    decreases |ops|
  {
    if ops == [] then w else Run(C, Apply(C, w, ops[0]), ops[1..])
  }

  /** A reader that was never misled holds exactly the log from its attach point. */
  ghost predicate UpToDate(C: nat, log: Log, s: Subscriber)
    requires Capacity(C)
  {
    s.misled || (
      && s.from + |s.got| <= |log|
      && InSync(C, log, s.from + |s.got|, s.idx, s.seqNum)
      && s.got == log[s.from..s.from + |s.got|])
  }

  ghost predicate Inv(C: nat, w: World) {
    && InRange(C, w)
    && Published(C, w.log, w.sh) && w.idx == w.sh.readIdx && w.seqNum == w.sh.seqNum
    && |w.sent| == |w.log| && (w.aligned ==> w.sent == w.log)
    && forall r :: 0 <= r < |w.readers| ==> UpToDate(C, w.log, w.readers[r])
  }

  /** A write leaves every reader where it is. */
  lemma WriteKeepsReader(C: nat, log: Log, m: Message, s: Subscriber)
    requires Capacity(C) && UpToDate(C, log, s)
    ensures UpToDate(C, log + [m], s)
  {
    if !s.misled {
      var k := s.from + |s.got|;
      AtPrefix(C, log, [m], k);
      assert (log + [m])[s.from..k] == log[s.from..k];
    }
  }

  /** A call that the tests end leaves its reader as it was. */
  lemma TestsEnd(C: nat, w: World, s: Subscriber, buffer: seq<byte>)
    requires InRange(C, w) && s.idx <= C && s.seqNum < TWO64
    requires s.idx == w.sh.readIdx || Sub64(w.sh.seqNum, s.seqNum) > C
    ensures ReadBy(C, w, s, buffer) == s.(misled := s.misled || Misled(C, w, s))
  {
  }

  lemma InReachIsNotMisled(C: nat, w: World, s: Subscriber)
    requires InRange(C, w) && s.seqNum < TWO64 && InReach(C, w.log, s.from + |s.got|, s.idx)
    ensures !Misled(C, w, s)
  {
  }

  /** A call whose next message is in reach and fits the buffer. */
  lemma ReachNext(C: nat, w: World, s: Subscriber, buffer: seq<byte>, k: nat)
    requires InRange(C, w) && Published(C, w.log, w.sh) && s.idx <= C && s.seqNum < TWO64
    requires k == s.from + |s.got| < |w.log| && |w.log[k]| <= |buffer|
    requires InSync(C, w.log, k, s.idx, s.seqNum) && InReach(C, w.log, k, s.idx)
    ensures var s' := ReadBy(C, w, s, buffer);
            && s'.misled == s.misled && s'.from == s.from && s'.got == s.got + [w.log[k]]
            && InSync(C, w.log, k + 1, s'.idx, s'.seqNum)
  {
    var o := ReadOutcome(C, w.sh, s.idx, s.seqNum, buffer);
    ReadNext(C, w.log, w.sh, k, s.idx, s.seqNum, buffer);
    IndexTestIsWholeRings(C, w.log, k, s.idx);
    InReachIsNotMisled(C, w, s);
    assert o.buffer[..o.ret] == w.log[k];
  }

  /** A call with nothing to read, or with a buffer that is too small. */
  lemma ReachNothing(C: nat, w: World, s: Subscriber, buffer: seq<byte>, k: nat)
    requires InRange(C, w) && Published(C, w.log, w.sh) && s.idx <= C && s.seqNum < TWO64
    requires k == s.from + |s.got| <= |w.log| && (k < |w.log| ==> |w.log[k]| > |buffer|)
    requires InSync(C, w.log, k, s.idx, s.seqNum) && InReach(C, w.log, k, s.idx)
    ensures var s' := ReadBy(C, w, s, buffer);
            && s'.misled == s.misled && s'.from == s.from && s'.got == s.got
            && InSync(C, w.log, k, s'.idx, s'.seqNum)
  {
    ReadNext(C, w.log, w.sh, k, s.idx, s.seqNum, buffer);
    InReachIsNotMisled(C, w, s);
  }

  /** The next message is there, in reach, and fits the buffer. */
  ghost predicate Gets(C: nat, log: Log, s: Subscriber, buffer: seq<byte>)
    requires Capacity(C)
  {
    var k := s.from + |s.got|;
    k < |log| && InReach(C, log, k, s.idx) && |log[k]| <= |buffer|
  }

  /**
   * Any call of a reader that is not misled hands over exactly the next message when it is in reach and fits the
   * buffer, and otherwise nothing, and leaves the reader at the boundary behind what it holds.
   */
  lemma ReadHandsNext(C: nat, w: World, s: Subscriber, buffer: seq<byte>)
    requires InRange(C, w) && Published(C, w.log, w.sh) && s.idx <= C && s.seqNum < TWO64
    requires !s.misled && UpToDate(C, w.log, s) && !Misled(C, w, s)
    ensures var k, s' := s.from + |s.got|, ReadBy(C, w, s, buffer);
            && !s'.misled && s'.from == s.from
            && s'.got == (if Gets(C, w.log, s, buffer) then s.got + [w.log[k]] else s.got)
            && InSync(C, w.log, s.from + |s'.got|, s'.idx, s'.seqNum)
  {
    var k := s.from + |s.got|;
    if Gets(C, w.log, s, buffer) {
      ReachNext(C, w, s, buffer, k);
    } else if InReach(C, w.log, k, s.idx) {
      ReachNothing(C, w, s, buffer, k);
    } else {
      IndexTestIsWholeRings(C, w.log, k, s.idx);
      TestsEnd(C, w, s, buffer);
    }
  }

  lemma SliceGrows(log: Log, from: nat, k: nat)
    requires from <= k < |log|
    ensures log[from..k + 1] == log[from..k] + [log[k]]
  {
  }

  lemma Handed(C: nat, log: Log, s: Subscriber, s': Subscriber)
    requires Capacity(C) && !s'.misled && s'.from == s.from && s.from + |s.got| <= |log|
    requires s.got == log[s.from..s.from + |s.got|]
    requires s'.got == s.got || (s.from + |s.got| < |log| && s'.got == s.got + [log[s.from + |s.got|]])
    requires InSync(C, log, s'.from + |s'.got|, s'.idx, s'.seqNum)
    ensures UpToDate(C, log, s')
  {
    if s'.got != s.got {
      SliceGrows(log, s.from, s.from + |s.got|);
    }
  }

  lemma MisledStays(C: nat, w: World, s: Subscriber, buffer: seq<byte>)
    requires InRange(C, w) && s.idx <= C && s.seqNum < TWO64
    requires s.misled || Misled(C, w, s)
    ensures ReadBy(C, w, s, buffer).misled
  {
  }

  lemma HandedKeeps(C: nat, w: World, s: Subscriber, buffer: seq<byte>)
    requires InRange(C, w) && Published(C, w.log, w.sh) && s.idx <= C && s.seqNum < TWO64
    requires !s.misled && UpToDate(C, w.log, s) && !Misled(C, w, s)
    ensures UpToDate(C, w.log, ReadBy(C, w, s, buffer))
  {
    var k := s.from + |s.got|;
    if !InReach(C, w.log, k, s.idx) {
      IndexTestIsWholeRings(C, w.log, k, s.idx);
      TestsEnd(C, w, s, buffer);
    } else if k < |w.log| && |w.log[k]| <= |buffer| {
      ReachNext(C, w, s, buffer, k);
      Handed(C, w.log, s, ReadBy(C, w, s, buffer));
    } else {
      ReachNothing(C, w, s, buffer, k);
      Handed(C, w.log, s, ReadBy(C, w, s, buffer));
    }
  }

  lemma ReadKeepsUpToDate(C: nat, w: World, s: Subscriber, buffer: seq<byte>)
    requires InRange(C, w) && Published(C, w.log, w.sh) && s.idx <= C && s.seqNum < TWO64
    requires UpToDate(C, w.log, s)
    ensures UpToDate(C, w.log, ReadBy(C, w, s, buffer))
  {
    if s.misled || Misled(C, w, s) {
      MisledStays(C, w, s, buffer);
    } else {
      HandedKeeps(C, w, s, buffer);
    }
  }

  lemma WriteKeepsInv(C: nat, w: World, message: Message, past: nat -> byte)
    requires Inv(C, w)
    ensures Inv(C, Apply(C, w, Write(message, past)))
  {
    var w', d := Apply(C, w, Write(message, past)), Delivered(C, w.idx, message, past);
    WritePublishes(C, w.log, w.sh, message, past);
    AtAppended(C, w.log, d);
    if w'.aligned {
      DeliveredIffAligned(C, w.idx, |message|);
      assert d == message;
    }
    forall r | 0 <= r < |w'.readers| ensures UpToDate(C, w'.log, w'.readers[r]) {
      WriteKeepsReader(C, w.log, d, w.readers[r]);
    }
  }

  lemma AttachKeepsInv(C: nat, w: World)
    requires Inv(C, w)
    ensures Inv(C, Apply(C, w, Attach))
  {
    var w' := Apply(C, w, Attach);
    var s := w'.readers[|w.readers|];
    assert UpToDate(C, w.log, s);
    forall r | 0 <= r < |w'.readers| ensures UpToDate(C, w'.log, w'.readers[r]) {
      if r < |w.readers| {
        assert w'.readers[r] == w.readers[r];
      }
    }
  }

  lemma ReadKeepsInv(C: nat, w: World, r: nat, buffer: seq<byte>)
    requires Inv(C, w) && r < |w.readers|
    ensures Inv(C, Apply(C, w, Read(r, buffer)))
  {
    var w' := Apply(C, w, Read(r, buffer));
    ReadKeepsUpToDate(C, w, w.readers[r], buffer);
    forall i | 0 <= i < |w'.readers| ensures UpToDate(C, w'.log, w'.readers[i]) {
      if i != r {
        assert w'.readers[i] == w.readers[i];
      }
    }
  }

  lemma ApplyKeepsInv(C: nat, w: World, op: Op)
    requires Inv(C, w)
    ensures Inv(C, Apply(C, w, op))
  {
    match op
    case Write(message, past) =>
      if |message| <= MAX_MESSAGE {
        WriteKeepsInv(C, w, message, past);
      }
    case Attach =>
      AttachKeepsInv(C, w);
    case Read(r, buffer) =>
      if r < |w.readers| {
        ReadKeepsInv(C, w, r, buffer);
      }
  }

  lemma {:induction false} RunKeepsInv(C: nat, w: World, ops: seq<Op>)
    requires Inv(C, w)
    ensures Inv(C, Run(C, w, ops))
    decreases |ops|
  {
    if ops != [] {
      ApplyKeepsInv(C, w, ops[0]);
      RunKeepsInv(C, Apply(C, w, ops[0]), ops[1..]);
    }
  }

  lemma StartInv(C: nat, ring: seq<byte>)
    requires Capacity(C) && |ring| == C
    ensures Inv(C, Start(ring))
  {
  }

  /**
   * FIFO for any number of readers, over every run: a reader that was never misled, whatever error codes it
   * got, was given the delivered log from its attach point, nothing lost, repeated or altered; and those are the
   * messages handed to the writer if every write met the geometry.
   */
  lemma FifoOnEveryRun(C: nat, ring: seq<byte>, ops: seq<Op>, w: World, r: nat)
    requires Capacity(C) && |ring| == C && w == Run(C, Start(ring), ops)
    requires r < |w.readers| && !w.readers[r].misled
    ensures var s := w.readers[r];
            && s.from + |s.got| <= |w.log|
            && s.got == w.log[s.from..s.from + |s.got|]
            && |w.sent| == |w.log|
            && (w.aligned ==> s.got == w.sent[s.from..s.from + |s.got|])
  {
    StartInv(C, ring);
    RunKeepsInv(C, Start(ring), ops);
    assert UpToDate(C, w.log, w.readers[r]);
  }

  lemma ReaderGetsNext(C: nat, w: World, r: nat, buffer: seq<byte>)
    requires Inv(C, w) && r < |w.readers| && |buffer| >= MAX_MESSAGE && !w.readers[r].misled
    requires InReach(C, w.log, w.readers[r].from + |w.readers[r].got|, w.readers[r].idx)
    ensures var s, s' := w.readers[r], Apply(C, w, Read(r, buffer)).readers[r];
            var k := s.from + |s.got|;
            !s'.misled && s'.from == s.from && s'.got == (if k < |w.log| then s.got + [w.log[k]] else s.got)
  {
    var s := w.readers[r];
    var k := s.from + |s.got|;
    assert UpToDate(C, w.log, s);
    if k < |w.log| {
      ReachNext(C, w, s, buffer, k);
    } else {
      ReachNothing(C, w, s, buffer, k);
    }
  }

  /** Nothing is held back: after any run, such a reader's next read with room returns the next message in reach. */
  lemma NextReadDelivers(C: nat, ring: seq<byte>, ops: seq<Op>, w: World, r: nat, buffer: seq<byte>)
    requires Capacity(C) && |ring| == C && w == Run(C, Start(ring), ops)
    requires r < |w.readers| && |buffer| >= MAX_MESSAGE && !w.readers[r].misled
    requires InReach(C, w.log, w.readers[r].from + |w.readers[r].got|, w.readers[r].idx)
    ensures var s, s' := w.readers[r], Apply(C, w, Read(r, buffer)).readers[r];
            var k := s.from + |s.got|;
            !s'.misled && s'.from == s.from && s'.got == (if k < |w.log| then s.got + [w.log[k]] else s.got)
  {
    StartInv(C, ring);
    RunKeepsInv(C, Start(ring), ops);
    ReaderGetsNext(C, w, r, buffer);
  }

  // ----- A run that shows the misplaced copy -----

  lemma RunThree(C: nat, w: World, a: Op, b: Op, c: Op)
    requires InRange(C, w)
    ensures Run(C, w, [a, b, c]) == Apply(C, Apply(C, Apply(C, w, a), b), c)
  {
    var w1 := Apply(C, w, a);
    var w2 := Apply(C, w1, b);
    assert [a, b, c][1..] == [b, c] && [b, c][1..] == [c] && [c][1..] == [];
    assert Run(C, w, [a, b, c]) == Run(C, w1, [b, c]) == Run(C, w2, [c]) == Run(C, Apply(C, w2, c), []);
  }

  /** The state after a write that leaves six bytes to the end, an attach, and a write of 1, 2, 3. */
  lemma SplitState(C: nat, ring: seq<byte>, first: Message, past: nat -> byte)
    requires Capacity(C) && |ring| == C && HEADER + |first| == C - 6
    ensures var w := Run(C, Start(ring), [Write(first, past), Attach, Write([1, 2, 3], past)]);
            && w.sent == [first, [1, 2, 3]] && w.log == [first, [1, 2, 2]]
            && |w.readers| == 1 && w.readers[0].from == 1 && w.readers[0].got == [] && !w.readers[0].misled
  {
    var a, b: Op, c := Write(first, past), Attach, Write([1, 2, 3], past);
    RunThree(C, Start(ring), a, b, c);
    SplitWriteMisdelivers(C, [1, 2, 3], past);
    var w1 := Apply(C, Start(ring), a);
    assert w1.idx == C - 6 && w1.log == [first] && w1.sent == [first];
    var w3 := Apply(C, Apply(C, w1, b), c);
    assert w3.log == [first] + [[1, 2, 2]];
  }

  /**
   * A reader is handed 1, 2, 2 where 1, 2, 3 was written: its first read after two writes that left it
   * three bytes behind. For the smallest ring the first message has 65529 bytes.
   */
  lemma MisdeliveredOnARun(C: nat, ring: seq<byte>, first: Message, past: nat -> byte, buffer: seq<byte>)
    requires Capacity(C) && |ring| == C && HEADER + |first| == C - 6 && |buffer| >= MAX_MESSAGE
    ensures var w := Run(C, Start(ring), [Write(first, past), Attach, Write([1, 2, 3], past)]);
            && w.sent == [first, [1, 2, 3]] && |w.readers| == 1
            && var s := Apply(C, w, Read(0, buffer)).readers[0];
            && !s.misled && s.from == 1 && s.got == [[1, 2, 2]]
  {
    var w := Run(C, Start(ring), [Write(first, past), Attach, Write([1, 2, 3], past)]);
    SplitState(C, ring, first, past);
    StartInv(C, ring);
    RunKeepsInv(C, Start(ring), [Write(first, past), Attach, Write([1, 2, 3], past)]);
    ShortUnread(C, w.log);
    assert UpToDate(C, w.log, w.readers[0]);
    NarrowWindow(C, w.log, 1, w.readers[0].idx);
    ReaderGetsNext(C, w, 0, buffer);
    assert w.log[1] == [1, 2, 2];
  }

  /** Behind the first of two messages, of which the second is short, little is unread. */
  lemma ShortUnread(C: nat, log: Log)
    requires Capacity(C) && |log| == 2 && |log[1]| == 3
    ensures Unread(C, log, 1) <= C - HEADER
  {
    EndAtNext(C, log, 1);
  }
}
