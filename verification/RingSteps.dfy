/**
 * The lock-free protocol as a step machine: every load or store of an atomic and every byte copied
 * is one step, and the steps of one writer and any number of readers interleave freely
 * (sequentially consistent memory).
 */
module RingSteps {
  import opened Bytes
  import opened RingLog
  import opened RingMemory

  // ----- The writer -----

  datatype WriterPc =
    | WIdle
    | WReserve        // about to store writeIdx
    | WCopy(j: nat)   // about to store byte j of the frame
    | WSeqNum         // about to store seqNum
    | WReadIdx        // about to store readIdx

  /** The writer's program counter and locals; `message` is what the frame delivers. */
  datatype Writer = Writer(pc: WriterPc, idx: nat, seqNum: nat, start: nat, message: Message)

  // ----- Readers -----

  datatype ReaderPc =
    | RAttach    // constructor: readIdx loaded, about to load seqNum
    | RIdle      // between calls
    | RReadIdx   // about to load readIdx
    | RSeqNum    // about to load seqNum for the first test
    | RHeader    // copying the header, then validating it
    | RPayload   // copying the message, then moving the locals
    | RFinal     // about to load seqNum for the final test

  /**
   * A reader's program counter and locals. History: the sequence number on entry to the current call,
   * the boundary it attached at, the messages it returned; whether this call copied each byte so far before a
   * store reached that byte's cell again; whether its attach did not straddle a publish and all its completed
   * reads so far were such and returned; and whether they also kept the `Margin`.
   */
  datatype Reader = Reader(pc: ReaderPc, idx: nat, seqNum: nat, room: nat, start: nat,
                           header: seq<byte>, size: nat, buffer: seq<byte>,
                           entry: nat, from: nat, got: seq<seq<byte>>,
                           clean: bool, trusted: bool, margined: bool)

  /** History: the messages whose seqNum store is done, and how many of them readIdx announces. */
  datatype State = State(sh: Shared, writer: Writer, readers: seq<Reader>, log: Log, visible: nat)

  datatype Event =
    | CallWrite(message: Message, past: nat -> byte)
    | WriterStep
    | AttachReader
    | CallRead(reader: nat, room: nat)
    | ReaderStep(reader: nat)

  // ----- Steps -----

  predicate ReaderInRange(C: nat, r: Reader) {
    && r.idx <= C && r.seqNum < TWO64 && r.entry < TWO64
    && r.start + HEADER <= C && |r.header| <= HEADER
    && r.size <= MAX_MESSAGE && |r.buffer| <= r.size
  }

  predicate InRange(C: nat, s: State) {
    && WellFormed(C, s.sh) && s.sh.readIdx <= C
    && s.writer.idx <= C && s.writer.seqNum < TWO64 && s.writer.start + HEADER <= C
    && (s.writer.pc.WCopy? ==> s.writer.pc.j < HEADER + |s.writer.message|)
    && forall i :: 0 <= i < |s.readers| ==> ReaderInRange(C, s.readers[i])
  }

  function Start(ring: seq<byte>): State {
    State(Shared(ring, 0, 0, 0), Writer(WIdle, 0, 0, 0, []), [], [], 0)
  }

  function StepWriter(C: nat, s: State): (s': State)
    requires InRange(C, s)
    ensures InRange(C, s')
  {
    var w, m := s.writer, s.writer.message;
    match w.pc
    case WIdle => s
    case WReserve =>
      s.(sh := s.sh.(writeIdx := w.idx), writer := w.(pc := WCopy(0)))
    case WCopy(j) =>
      s.(sh := s.sh.(ring := s.sh.ring[Wrap(C, w.start + j) := Frame(m)[j]]),
         writer := w.(pc := if j + 1 < HEADER + |m| then WCopy(j + 1) else WSeqNum))
    case WSeqNum =>
      var seqNum := Add64(w.seqNum, HEADER + |m|);
      s.(sh := s.sh.(seqNum := seqNum), writer := w.(pc := WReadIdx, seqNum := seqNum), log := s.log + [m])
    case WReadIdx =>
      s.(sh := s.sh.(readIdx := w.idx), writer := w.(pc := WIdle), visible := |s.log|)
  }

  predicate InFlight(w: Writer) {
    w.pc.WReserve? || w.pc.WCopy? || w.pc.WSeqNum?
  }

  /** How many bytes of the frame in flight are stored. */
  function Stored(w: Writer): nat {
    match w.pc
    case WCopy(j) => j
    case WSeqNum => HEADER + |w.message|
    case _ => 0
  }

  /** The tape position up to which cells are stored to. */
  function High(C: nat, s: State): nat
    requires Capacity(C)
  {
    StoredPos(C, s.log, Stored(s.writer))
  }

  /** The tape position up to which writeIdx, or the call that is about to store it, reserves cells. */
  function Reserved(C: nat, s: State): nat
    requires Capacity(C)
  {
    if InFlight(s.writer) then HighAfter(C, s.log, |s.writer.message|) else EndAt(C, s.log, |s.log|)
  }

  /** No store below `high` has reached the cell of byte j of the frame that the reader is at. */
  predicate Fresh(C: nat, log: Log, high: nat, r: Reader, j: nat)
    requires Capacity(C)
  {
    r.from + |r.got| < |log| && high <= StartPos(C, At(C, log, r.from + |r.got|)) + j + C
  }

  /**
   * The margin by which a reader can tell: the bytes published since its entry, the largest frame that may
   * be in flight and its skipped tail fit the ring, and the counter did not go once round 2^64 meanwhile.
   */
  predicate Margin(C: nat, sh: Shared, log: Log, r: Reader)
    requires WellFormed(C, sh) && r.entry < TWO64
  {
    && Sub64(sh.seqNum, r.entry) + (HEADER + MAX_MESSAGE) + (HEADER - 1) <= C
    && r.from + |r.got| <= |log|
    && SeqAt(C, log, |log|) < SeqAt(C, log, r.from + |r.got|) + TWO64
  }

  /** The next step of reader r on the shared memory, which it does not change; `high` only feeds the history. */
  function StepReader(C: nat, sh: Shared, log: Log, high: nat, r: Reader): (r': Reader)
    requires WellFormed(C, sh) && ReaderInRange(C, r)
    ensures ReaderInRange(C, r')
  {
    match r.pc
    case RAttach =>
      r.(pc := RIdle, seqNum := sh.seqNum,
         trusted := r.trusted && |log| == r.from, margined := r.margined && |log| == r.from)
    case RIdle => r
    case RReadIdx =>
      r.(pc := if r.idx == sh.readIdx then RIdle else RSeqNum)
    case RSeqNum =>
      if Sub64(sh.seqNum, r.seqNum) > C then r.(pc := RIdle)
      else r.(pc := RHeader, start := StartIndex(C, r.idx), idx := StartIndex(C, r.idx))
    case RHeader =>
      if |r.header| < HEADER then
        r.(header := r.header + [sh.ring[r.start + |r.header|]],
           clean := r.clean && Fresh(C, log, high, r, |r.header|))
      else
        var size := DecodeHeader(r.header);
        if size < 0 || size > MAX_MESSAGE || size > r.room then r.(pc := RIdle)
        else r.(pc := RPayload, size := size, buffer := [])
    case RPayload =>
      if |r.buffer| < r.size then
        r.(buffer := r.buffer + [sh.ring[Wrap(C, r.start + HEADER + |r.buffer|)]],
           clean := r.clean && Fresh(C, log, high, r, HEADER + |r.buffer|))
      else
        r.(pc := RFinal, idx := NextIndex(C, r.start, r.size), seqNum := Add64(r.seqNum, HEADER + r.size))
    case RFinal =>
      var alarm := Sub64(sh.seqNum, r.seqNum) > C;
      r.(pc := RIdle, got := if alarm then r.got else r.got + [r.buffer],
         trusted := r.trusted && r.clean && !alarm, margined := r.margined && Margin(C, sh, log, r))
  }

  function Next(C: nat, s: State, e: Event): (s': State)
    requires InRange(C, s)
    ensures InRange(C, s')
  {
    match e
    case CallWrite(message, past) =>
      var w := s.writer;
      if w.pc != WIdle then s
      else s.(writer := Writer(WReserve, NextIndex(C, w.idx, |message|), w.seqNum,
                               StartIndex(C, w.idx), Delivered(C, w.idx, message, past)))
    case WriterStep => StepWriter(C, s)
    case AttachReader =>
      var r := Reader(RAttach, s.sh.readIdx, 0, 0, 0, [], 0, [], 0, s.visible, [], true, true, true);
      s.(readers := s.readers + [r])
    case CallRead(i, room) =>
      if i >= |s.readers| || s.readers[i].pc != RIdle then s
      else
        var r := s.readers[i];
        s.(readers := s.readers[i := r.(pc := RReadIdx, room := room, header := [], clean := true, entry := r.seqNum)])
    case ReaderStep(i) =>
      if i >= |s.readers| then s
      else s.(readers := s.readers[i := StepReader(C, s.sh, s.log, High(C, s), s.readers[i])])
  }

  function Run(C: nat, s: State, events: seq<Event>): (s': State)
    requires InRange(C, s)
    ensures InRange(C, s')
    decreases |events|
  {
    if events == [] then s else Run(C, Next(C, s, events[0]), events[1..])
  }
}
