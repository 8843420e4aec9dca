/** What every step of the lock-free protocol keeps, and what it gives a reader. */
module RingProtocol {
  import opened Bytes
  import opened RingLog
  import opened RingMemory
  import opened RingReads
  import opened RingWindow
  import opened RingSteps

  // ----- The writer's side -----

  ghost predicate FrameStored(C: nat, log: Log, ring: seq<byte>, m: Message, j: nat)
    requires Capacity(C) && |ring| == C && j <= HEADER + |m|
  {
    forall i: nat :: i < j ==> ring[NextCell(C, log, i)] == Frame(m)[i]
  }

  ghost predicate PublishInv(C: nat, s: State)
    requires InRange(C, s)
  {
    var w, c := s.writer, At(C, s.log, |s.log|);
    && w.seqNum == s.sh.seqNum == SeqAt(C, s.log, |s.log|) % TWO64
    && s.visible == (if w.pc.WReadIdx? then |s.log| - 1 else |s.log|)
    && s.sh.readIdx == At(C, s.log, s.visible).idx
    && w.idx == (if InFlight(w) then NextIndex(C, c.idx, |w.message|) else c.idx)
    && s.sh.writeIdx == (if w.pc.WReserve? then c.idx else w.idx)
    && Holds(C, s.log, s.sh.ring, High(C, s))
    && (InFlight(w) ==>
          && w.start == StartIndex(C, c.idx)
          && FrameStored(C, s.log, s.sh.ring, w.message, Stored(w)))
  }

  // ----- A reader's side -----

  function NextMessage(r: Reader): nat {
    r.from + |r.got|
  }

  /** A store has reached the cell of the first byte of the frame that the reader is at, or beyond. */
  predicate Torn(C: nat, s: State, k: nat)
    requires Capacity(C) && k <= |s.log|
  {
    High(C, s) > StartPos(C, At(C, s.log, k)) + C
  }

  /** Where the reader stands in the call that reads message k; what it has copied is the frame's if it is clean. */
  ghost predicate Reading(C: nat, log: Log, visible: nat, r: Reader)
    requires Capacity(C) && visible <= |log| && ReaderInRange(C, r) && NextMessage(r) <= visible
  {
    var k := NextMessage(r);
    match r.pc
    case RAttach => r.idx == At(C, log, k).idx
    case RIdle => AtBoundary(C, log, k, r.idx) && (r.idx != At(C, log, k).idx ==> k < visible)
    case RReadIdx => |r.header| == 0 && AtBoundary(C, log, k, r.idx) && (r.idx != At(C, log, k).idx ==> k < visible)
    case RSeqNum => |r.header| == 0 && AtBoundary(C, log, k, r.idx) && k < visible
    case RHeader =>
      && k < visible && r.idx == r.start == StartIndex(C, At(C, log, k).idx)
      && (r.clean ==> r.header == Frame(log[k])[..|r.header|])
    case RPayload =>
      && k < visible && r.idx == r.start == StartIndex(C, At(C, log, k).idx)
      && (r.clean ==> r.size == |log[k]| && r.buffer == log[k][..|r.buffer|])
    case RFinal =>
      k < visible && (r.clean ==> r.size == |log[k]| && r.buffer == log[k] && r.idx == At(C, log, k + 1).idx)
  }

  /** The sequence number a reader has: at a boundary, or with the size it found added. */
  predicate Counts(C: nat, log: Log, r: Reader)
    requires Capacity(C) && NextMessage(r) <= |log|
  {
    match r.pc
    case RAttach => true
    case RFinal => r.seqNum == (SeqAt(C, log, NextMessage(r)) + HEADER + r.size) % TWO64
    case _ => r.seqNum == SeqAt(C, log, NextMessage(r)) % TWO64
  }

  ghost predicate ReaderInv(C: nat, s: State, r: Reader)
    requires Capacity(C) && s.visible <= |s.log| && ReaderInRange(C, r)
  {
    && (r.margined ==> r.trusted)
    && (r.trusted ==>
      && NextMessage(r) <= s.visible
      && r.got == s.log[r.from..NextMessage(r)]
      && (r.pc == RAttach ==> r.got == [])
      && Counts(C, s.log, r)
      && (r.pc != RAttach && r.pc != RIdle ==>
            && r.entry == SeqAt(C, s.log, NextMessage(r)) % TWO64
            && (r.clean || Torn(C, s, NextMessage(r))))
      && Reading(C, s.log, s.visible, r))
  }

  ghost predicate Inv(C: nat, s: State) {
    && InRange(C, s) && PublishInv(C, s)
    && forall i :: 0 <= i < |s.readers| ==> ReaderInv(C, s, s.readers[i])
  }

  // ----- Writer steps -----

  lemma CallWriteKeeps(C: nat, s: State, message: Message, past: nat -> byte)
    requires InRange(C, s) && PublishInv(C, s) && s.writer.pc == WIdle
    ensures PublishInv(C, Next(C, s, CallWrite(message, past)))
    ensures High(C, Next(C, s, CallWrite(message, past))) == High(C, s)
  {
  }

  lemma CopyKeeps(C: nat, s: State)
    requires InRange(C, s) && PublishInv(C, s) && s.writer.pc.WCopy?
    ensures PublishInv(C, StepWriter(C, s)) && High(C, StepWriter(C, s)) > High(C, s)
  {
    var s', w, m, j := StepWriter(C, s), s.writer, s.writer.message, s.writer.pc.j;
    StoreKeeps(C, s.log, s.sh.ring, j, Frame(m)[j]);
    assert NextCell(C, s.log, j) == Wrap(C, w.start + j);
    forall i: nat | i < j + 1 ensures s'.sh.ring[NextCell(C, s.log, i)] == Frame(m)[i] {
      if i < j {
        assert s.sh.ring[NextCell(C, s.log, i)] == Frame(m)[i];
      }
    }
    assert Stored(s'.writer) == j + 1;
  }

  /** Counting the finished frame turns the reserved end into the end of the log. */
  lemma FrameJoinsLog(C: nat, log: Log, ring: seq<byte>, m: Message)
    requires Capacity(C) && Holds(C, log, ring, HighAfter(C, log, |m|))
    requires FrameStored(C, log, ring, m, HEADER + |m|)
    ensures Holds(C, log + [m], ring, EndAt(C, log + [m], |log| + 1))
    ensures EndAt(C, log + [m], |log| + 1) == HighAfter(C, log, |m|)
    ensures At(C, log + [m], |log|) == At(C, log, |log|)
    ensures At(C, log + [m], |log| + 1).idx == NextIndex(C, At(C, log, |log|).idx, |m|)
    ensures SeqAt(C, log + [m], |log| + 1) % TWO64 == Add64(SeqAt(C, log, |log|) % TWO64, HEADER + |m|)
  {
    HoldsNext(C, log, ring, m);
    AtAppended(C, log, m);
    SeqAppended(C, log, m);
  }

  lemma SeqNumForm(C: nat, s: State)
    requires InRange(C, s) && s.writer.pc.WSeqNum?
    ensures var w, seqNum := s.writer, Add64(s.writer.seqNum, HEADER + |s.writer.message|);
            StepWriter(C, s) == s.(sh := s.sh.(seqNum := seqNum), writer := w.(pc := WReadIdx, seqNum := seqNum),
                                   log := s.log + [w.message])
  {
  }

  lemma SeqNumKeeps(C: nat, s: State)
    requires InRange(C, s) && PublishInv(C, s) && s.writer.pc.WSeqNum?
    ensures PublishInv(C, StepWriter(C, s)) && High(C, StepWriter(C, s)) == High(C, s)
  {
    var s' := StepWriter(C, s);
    SeqNumForm(C, s);
    StoredAll(C, s.log, |s.writer.message|);
    FrameJoinsLog(C, s.log, s.sh.ring, s.writer.message);
    assert |s'.log| == |s.log| + 1 && Stored(s'.writer) == 0;
  }

  lemma StepWriterKeeps(C: nat, s: State)
    requires InRange(C, s) && PublishInv(C, s)
    ensures PublishInv(C, StepWriter(C, s)) && High(C, StepWriter(C, s)) >= High(C, s)
  {
    match s.writer.pc
    case WCopy(_) => CopyKeeps(C, s);
    case WSeqNum => SeqNumKeeps(C, s);
    case _ =>
  }

  lemma ReadingUnmoved(C: nat, log: Log, visible: nat, more: Log, visible': nat, r: Reader)
    requires Capacity(C) && visible <= |log| && ReaderInRange(C, r) && NextMessage(r) <= visible
    requires visible <= visible' <= |log + more| && Reading(C, log, visible, r)
    ensures Reading(C, log + more, visible', r)
  {
    var k := NextMessage(r);
    AtPrefix(C, log, more, k);
    if k < visible {
      AtPrefix(C, log, more, k + 1);
      assert (log + more)[k] == log[k];
    }
  }

  /** Readers keep their place while the log grows and the high mark rises. */
  lemma ReaderUnmoved(C: nat, s: State, s': State, r: Reader, more: Log)
    requires InRange(C, s) && s.visible <= |s.log| && ReaderInRange(C, r) && ReaderInv(C, s, r)
    requires InRange(C, s') && s'.log == s.log + more && s.visible <= s'.visible <= |s'.log|
    requires High(C, s') >= High(C, s)
    ensures ReaderInv(C, s', r)
  {
    if r.trusted {
      var k := NextMessage(r);
      AtPrefix(C, s.log, more, k);
      assert s'.log[r.from..k] == s.log[r.from..k];
      ReadingUnmoved(C, s.log, s.visible, more, s'.visible, r);
    }
  }

  // ----- Reader steps -----

  /** A byte whose cell no store has reached again is the frame's. */
  lemma CopiedByte(C: nat, log: Log, ring: seq<byte>, high: nat, k: nat, j: nat)
    requires Capacity(C) && k < |log| && Holds(C, log, ring, high) && j < HEADER + |log[k]|
    requires high <= StartPos(C, At(C, log, k)) + j + C
    ensures ring[Wrap(C, StartIndex(C, At(C, log, k).idx) + j)] == Frame(log[k])[j]
  {
    assert Due(C, log, high, k, j);
    assert InPlace(C, log, ring, k, j);
  }

  /** With message k in the log, at least that is unread, and the wrapped lag is exact. */
  lemma BehindByOne(C: nat, log: Log, k: nat)
    requires Capacity(C) && k < |log|
    ensures HEADER + |log[k]| <= Unread(C, log, k)
    ensures Unread(C, log, k) < TWO64 ==>
              Sub64(SeqAt(C, log, |log|) % TWO64, SeqAt(C, log, k) % TWO64) == Unread(C, log, k)
  {
    EndAtNext(C, log, k);
    Monotone(C, log, k + 1, |log|);
    if Unread(C, log, k) < TWO64 {
      LagIsExact(SeqAt(C, log, |log|), SeqAt(C, log, k));
    }
  }

  /** Unread frames that end at most a ring behind the start of the first. */
  lemma UnreadWithinRing(C: nat, log: Log, k: nat)
    requires Capacity(C) && k < |log| && EndAt(C, log, |log|) <= StartPos(C, At(C, log, k)) + C
    ensures Unread(C, log, k) <= C
  {
    EndAtNext(C, log, k);
    Monotone(C, log, k + 1, |log|);
    PositionConserved(C, log, k);
    PositionConserved(C, log, |log|);
  }

  lemma MovedIndexMeansMore(C: nat, s: State, r: Reader)
    requires InRange(C, s) && PublishInv(C, s) && ReaderInRange(C, r) && ReaderInv(C, s, r) && r.trusted
    requires (r.pc == RReadIdx && r.idx != s.sh.readIdx) || r.pc == RSeqNum
    ensures NextMessage(r) < s.visible
  {
  }

  /**
   * A reader that sees readIdx moved is behind what seqNum counts, by its next message at least; so the
   * unsigned lag does not underflow, now or when it loads seqNum, after whatever was published in between.
   */
  lemma MovedIndexIsBehind(C: nat, s: State, r: Reader)
    requires InRange(C, s) && PublishInv(C, s) && ReaderInRange(C, r) && ReaderInv(C, s, r) && r.trusted
    requires (r.pc == RReadIdx && r.idx != s.sh.readIdx) || r.pc == RSeqNum
    ensures NextMessage(r) < s.visible
    ensures HEADER + |s.log[NextMessage(r)]| <= Unread(C, s.log, NextMessage(r))
    ensures Unread(C, s.log, NextMessage(r)) < TWO64 ==>
              Sub64(s.sh.seqNum, r.seqNum) == Unread(C, s.log, NextMessage(r))
    ensures !Torn(C, s, NextMessage(r)) ==> Unread(C, s.log, NextMessage(r)) <= C
  {
    MovedIndexMeansMore(C, s, r);
    BehindByOne(C, s.log, NextMessage(r));
    HighCoversLog(C, s);
    if !Torn(C, s, NextMessage(r)) {
      UnreadWithinRing(C, s.log, NextMessage(r));
    }
  }

  lemma HighCoversLog(C: nat, s: State)
    requires InRange(C, s)
    ensures EndAt(C, s.log, |s.log|) <= High(C, s) <= Reserved(C, s)
    ensures Reserved(C, s) <= EndAt(C, s.log, |s.log|) + (HEADER - 1) + HEADER + MAX_MESSAGE
  {
    AdvancePos(C, At(C, s.log, |s.log|), |s.writer.message|);
  }

  /** Within the margin neither the published log nor a frame in flight reaches round to frame k. */
  lemma MarginDistance(C: nat, log: Log, k: nat, m: Message)
    requires Capacity(C) && k <= |log|
    requires Unread(C, log, k) + (HEADER + MAX_MESSAGE) + (HEADER - 1) <= C
    ensures EndAt(C, log, |log|) <= EndAt(C, log, k) + C
    ensures HighAfter(C, log, |m|) <= EndAt(C, log, k) + C
  {
    Monotone(C, log, k, |log|);
    Distance(C, log, k, |log|);
    SeqAppended(C, log, m);
    AtAppended(C, log, m);
    AtPrefix(C, log, [m], k);
    Distance(C, log + [m], k, |log| + 1);
  }

  /** The margin at the final load rules out that any byte of the frame was overwritten before it. */
  lemma MarginMeansUntorn(C: nat, s: State, r: Reader)
    requires InRange(C, s) && s.sh.seqNum == SeqAt(C, s.log, |s.log|) % TWO64
    requires ReaderInRange(C, r) && Margin(C, s.sh, s.log, r)
    requires r.entry == SeqAt(C, s.log, NextMessage(r)) % TWO64
    ensures !Torn(C, s, NextMessage(r))
    ensures Unread(C, s.log, NextMessage(r)) <= C
  {
    var k := NextMessage(r);
    Monotone(C, s.log, k, |s.log|);
    LagIsExact(SeqAt(C, s.log, |s.log|), SeqAt(C, s.log, k));
    MarginDistance(C, s.log, k, s.writer.message);
    HighCoversLog(C, s);
  }

  lemma LateMeansTorn(C: nat, s: State, r: Reader, j: nat)
    requires InRange(C, s) && NextMessage(r) < |s.log| && !Fresh(C, s.log, High(C, s), r, j)
    ensures Torn(C, s, NextMessage(r))
  {
  }

  /** One more header byte, the right one if it was still there. */
  lemma HeaderGrows(C: nat, s: State, r: Reader, b: byte, inTime: bool)
    requires Capacity(C) && s.visible <= |s.log| && ReaderInRange(C, r) && ReaderInv(C, s, r)
    requires r.pc == RHeader && |r.header| < HEADER
    requires r.trusted && inTime ==> b == Frame(s.log[NextMessage(r)])[|r.header|]
    requires r.trusted && !inTime ==> Torn(C, s, NextMessage(r))
    ensures ReaderInv(C, s, r.(header := r.header + [b], clean := r.clean && inTime))
  {
    if r.trusted && inTime {
      var f, j := Frame(s.log[NextMessage(r)]), |r.header|;
      assert f[..j + 1] == f[..j] + [f[j]];
    }
  }

  lemma HeaderByteForm(C: nat, sh: Shared, log: Log, high: nat, r: Reader)
    requires WellFormed(C, sh) && ReaderInRange(C, r) && r.pc == RHeader && |r.header| < HEADER
    ensures StepReader(C, sh, log, high, r)
         == r.(header := r.header + [sh.ring[r.start + |r.header|]],
               clean := r.clean && Fresh(C, log, high, r, |r.header|))
  {
  }

  lemma HeaderByteKeeps(C: nat, s: State, r: Reader)
    requires InRange(C, s) && PublishInv(C, s) && ReaderInRange(C, r) && ReaderInv(C, s, r)
    requires r.pc == RHeader && |r.header| < HEADER
    ensures ReaderInv(C, s, StepReader(C, s.sh, s.log, High(C, s), r))
  {
    var k, j := NextMessage(r), |r.header|;
    var inTime := Fresh(C, s.log, High(C, s), r, j);
    if r.trusted && inTime {
      CopiedByte(C, s.log, s.sh.ring, High(C, s), k, j);
    }
    HeaderByteForm(C, s.sh, s.log, High(C, s), r);
    HeaderGrows(C, s, r, s.sh.ring[r.start + j], inTime);
  }

  lemma HeaderCheckForm(C: nat, sh: Shared, log: Log, high: nat, r: Reader)
    requires WellFormed(C, sh) && ReaderInRange(C, r) && r.pc == RHeader && |r.header| == HEADER
    ensures var r', size := StepReader(C, sh, log, high, r), DecodeHeader(r.header);
            r' == if size < 0 || size > MAX_MESSAGE || size > r.room then r.(pc := RIdle)
                  else r.(pc := RPayload, size := size, buffer := [])
  {
  }

  /** The header check leaves a reader idle at its frame or at the message, with the frame's size if it is clean. */
  lemma HeaderChecked(C: nat, s: State, r: Reader, r': Reader)
    requires Capacity(C) && s.visible <= |s.log| && ReaderInRange(C, r) && ReaderInv(C, s, r) && ReaderInRange(C, r')
    requires r.pc == RHeader && |r.header| == HEADER
    requires r' == r.(pc := RIdle) || r' == r.(pc := RPayload, size := r'.size, buffer := [])
    requires r.trusted && r.clean && r'.pc == RPayload ==> r'.size == |s.log[NextMessage(r)]|
    ensures ReaderInv(C, s, r')
  {
  }

  lemma HeaderCheckKeeps(C: nat, s: State, r: Reader)
    requires InRange(C, s) && PublishInv(C, s) && ReaderInRange(C, r) && ReaderInv(C, s, r)
    requires r.pc == RHeader && |r.header| == HEADER
    ensures ReaderInv(C, s, StepReader(C, s.sh, s.log, High(C, s), r))
  {
    if r.trusted {
      FrameDecodes(s.log[NextMessage(r)]);
    }
    HeaderCheckForm(C, s.sh, s.log, High(C, s), r);
    HeaderChecked(C, s, r, StepReader(C, s.sh, s.log, High(C, s), r));
  }

  /** One more message byte, the right one if it was still there. */
  lemma PayloadGrows(C: nat, s: State, r: Reader, b: byte, inTime: bool)
    requires Capacity(C) && s.visible <= |s.log| && ReaderInRange(C, r) && ReaderInv(C, s, r)
    requires r.pc == RPayload && |r.buffer| < r.size
    requires r.trusted && r.clean && inTime ==> b == s.log[NextMessage(r)][|r.buffer|]
    requires r.trusted && !inTime ==> Torn(C, s, NextMessage(r))
    ensures ReaderInv(C, s, r.(buffer := r.buffer + [b], clean := r.clean && inTime))
  {
    if r.trusted && r.clean && inTime {
      var m, j := s.log[NextMessage(r)], |r.buffer|;
      assert m[..j + 1] == m[..j] + [m[j]];
    }
  }

  lemma CopiedPayload(C: nat, s: State, r: Reader)
    requires InRange(C, s) && PublishInv(C, s) && ReaderInRange(C, r) && ReaderInv(C, s, r)
    requires r.pc == RPayload && |r.buffer| < r.size && r.trusted && r.clean
    requires Fresh(C, s.log, High(C, s), r, HEADER + |r.buffer|)
    ensures s.sh.ring[Wrap(C, r.start + HEADER + |r.buffer|)] == s.log[NextMessage(r)][|r.buffer|]
  {
    var k, j := NextMessage(r), |r.buffer|;
    CopiedByte(C, s.log, s.sh.ring, High(C, s), k, HEADER + j);
    assert Frame(s.log[k])[HEADER + j] == s.log[k][j];
  }

  lemma CopyStepForm(C: nat, sh: Shared, log: Log, high: nat, r: Reader)
    requires WellFormed(C, sh) && ReaderInRange(C, r) && r.pc == RPayload && |r.buffer| < r.size
    ensures StepReader(C, sh, log, high, r)
         == r.(buffer := r.buffer + [sh.ring[Wrap(C, r.start + HEADER + |r.buffer|)]],
               clean := r.clean && Fresh(C, log, high, r, HEADER + |r.buffer|))
  {
  }

  lemma CopyStepKeeps(C: nat, s: State, r: Reader)
    requires InRange(C, s) && PublishInv(C, s) && ReaderInRange(C, r) && ReaderInv(C, s, r)
    requires r.pc == RPayload && |r.buffer| < r.size
    ensures ReaderInv(C, s, StepReader(C, s.sh, s.log, High(C, s), r))
  {
    var j := |r.buffer|;
    var inTime := Fresh(C, s.log, High(C, s), r, HEADER + j);
    if r.trusted && r.clean && inTime {
      CopiedPayload(C, s, r);
    }
    if r.trusted && !inTime {
      LateMeansTorn(C, s, r, HEADER + j);
    }
    PayloadGrows(C, s, r, s.sh.ring[Wrap(C, r.start + HEADER + j)], inTime);
    CopyStepForm(C, s.sh, s.log, High(C, s), r);
  }

  lemma AdvanceForm(C: nat, sh: Shared, log: Log, high: nat, r: Reader)
    requires WellFormed(C, sh) && ReaderInRange(C, r) && r.pc == RPayload && |r.buffer| == r.size
    ensures StepReader(C, sh, log, high, r)
         == r.(pc := RFinal, idx := NextIndex(C, r.start, r.size), seqNum := Add64(r.seqNum, HEADER + r.size))
  {
  }

  lemma LocalsReach(C: nat, log: Log, k: nat, r: Reader)
    requires Capacity(C) && k < |log| && r.size == |log[k]| && r.start == StartIndex(C, At(C, log, k).idx)
    ensures NextIndex(C, r.start, r.size) == At(C, log, k + 1).idx
  {
  }

  /** The locals move by the size found: to the boundary behind the message if the reader is clean. */
  lemma LocalsAdvance(C: nat, s: State, r: Reader, r': Reader)
    requires Capacity(C) && s.visible <= |s.log| && ReaderInRange(C, r) && ReaderInRange(C, r') && ReaderInv(C, s, r)
    requires r.pc == RPayload && |r.buffer| == r.size
    requires r' == r.(pc := RFinal, idx := NextIndex(C, r.start, r.size), seqNum := Add64(r.seqNum, HEADER + r.size))
    ensures ReaderInv(C, s, r')
  {
    if r.trusted {
      var k := NextMessage(r);
      Add64OfWrapped(SeqAt(C, s.log, k), HEADER + r.size);
      if r.clean {
        LocalsReach(C, s.log, k, r);
      }
    }
  }

  lemma AdvanceStepKeeps(C: nat, s: State, r: Reader)
    requires InRange(C, s) && PublishInv(C, s) && ReaderInRange(C, r) && ReaderInv(C, s, r)
    requires r.pc == RPayload && |r.buffer| == r.size
    ensures ReaderInv(C, s, StepReader(C, s.sh, s.log, High(C, s), r))
  {
    AdvanceForm(C, s.sh, s.log, High(C, s), r);
    LocalsAdvance(C, s, r, StepReader(C, s.sh, s.log, High(C, s), r));
  }

  // ----- The final test -----

  predicate Alarm(C: nat, sh: Shared, r: Reader)
    requires WellFormed(C, sh) && ReaderInRange(C, r)
  {
    Sub64(sh.seqNum, r.seqNum) > C
  }

  /**
   * What the final test sees: it subtracts the message just read, so it raises an alarm if and only if less
   * than that was unread, or more than a ring on top of it.
   */
  lemma FinalTestIsExact(C: nat, s: State, r: Reader)
    requires InRange(C, s) && PublishInv(C, s) && ReaderInRange(C, r) && r.pc == RFinal
    requires NextMessage(r) <= |s.log| && Counts(C, s.log, r)
    requires 0 <= Unread(C, s.log, NextMessage(r)) < TWO64
    ensures Alarm(C, s.sh, r) <==> Unread(C, s.log, NextMessage(r)) < HEADER + r.size
                                   || Unread(C, s.log, NextMessage(r)) > C + HEADER + r.size
  {
    var last, next := SeqAt(C, s.log, |s.log|), SeqAt(C, s.log, NextMessage(r)) + HEADER + r.size;
    if last < next {
      LagUnderflows(last, next);
    } else {
      LagIsExact(last, next);
    }
  }

  lemma FinalForm(C: nat, sh: Shared, log: Log, high: nat, r: Reader)
    requires WellFormed(C, sh) && ReaderInRange(C, r) && r.pc == RFinal
    ensures StepReader(C, sh, log, high, r)
         == r.(pc := RIdle, got := if Alarm(C, sh, r) then r.got else r.got + [r.buffer],
               trusted := r.trusted && r.clean && !Alarm(C, sh, r), margined := r.margined && Margin(C, sh, log, r))
  {
  }

  /**
   * When a read that copied an overwritten byte, or whose frame is being overwritten, is nevertheless returned:
   * exactly when the final test, which takes the size found off the lag, leaves between nothing and a ring.
   */
  lemma TornUnreported(C: nat, s: State, r: Reader)
    requires InRange(C, s) && PublishInv(C, s) && ReaderInRange(C, r) && ReaderInv(C, s, r)
    requires r.pc == RFinal && r.trusted && Unread(C, s.log, NextMessage(r)) < TWO64
    ensures var k, n := NextMessage(r), HEADER + r.size;
            var r' := StepReader(C, s.sh, s.log, High(C, s), r);
            && r'.pc == RIdle && (!r.clean ==> Torn(C, s, k))
            && (Torn(C, s, k) && r'.got == r.got + [r.buffer]
                <==> Torn(C, s, k) && n <= Unread(C, s.log, k) <= C + n)
            && (!r.clean && r'.got == r.got + [r.buffer] <==> !r.clean && n <= Unread(C, s.log, k) <= C + n)
  {
    Monotone(C, s.log, NextMessage(r), |s.log|);
    FinalTestIsExact(C, s, r);
    FinalForm(C, s.sh, s.log, High(C, s), r);
    assert r.got + [r.buffer] != r.got;
  }

  /** A reader that holds the next message and takes it stands at the boundary behind it. */
  lemma TakesNext(C: nat, s: State, r: Reader, margined: bool)
    requires Capacity(C) && s.visible <= |s.log| && ReaderInRange(C, r) && r.pc == RFinal && r.trusted && r.clean
    requires ReaderInv(C, s, r)
    ensures ReaderInv(C, s, r.(pc := RIdle, got := r.got + [r.buffer], margined := margined))
  {
    var k, r' := NextMessage(r), r.(pc := RIdle, got := r.got + [r.buffer], margined := margined);
    EndAtNext(C, s.log, k);
    assert NextMessage(r') == k + 1;
    assert r'.got == s.log[r.from..k + 1];
    assert Reading(C, s.log, s.visible, r');
  }

  /**
   * The clean read: in any interleaving, a read that copied each byte before a store reached its cell again
   * holds exactly the next whole published message at its final load, even while a write is in flight, and
   * returns it unless the final test raises an alarm.
   */
  lemma UntornRead(C: nat, s: State, r: Reader)
    requires InRange(C, s) && PublishInv(C, s) && ReaderInRange(C, r) && ReaderInv(C, s, r)
    requires r.pc == RFinal && r.trusted && r.clean
    ensures var k, r' := NextMessage(r), StepReader(C, s.sh, s.log, High(C, s), r);
            && k < s.visible && r.buffer == s.log[k]
            && r'.got == (if Alarm(C, s.sh, r) then r.got else r.got + [s.log[k]])
            && (r'.trusted <==> !Alarm(C, s.sh, r))
            && (Unread(C, s.log, k) < TWO64 ==>
                  (Alarm(C, s.sh, r) <==> Unread(C, s.log, k) > C + HEADER + |s.log[k]|))
  {
    var k := NextMessage(r);
    FinalForm(C, s.sh, s.log, High(C, s), r);
    EndAtNext(C, s.log, k);
    Monotone(C, s.log, k + 1, |s.log|);
    if Unread(C, s.log, k) < TWO64 {
      FinalTestIsExact(C, s, r);
    }
  }

  /** A read whose frame no store has reached by its final load is clean, and the final test is silent. */
  lemma IntactRead(C: nat, s: State, r: Reader)
    requires InRange(C, s) && PublishInv(C, s) && ReaderInRange(C, r) && ReaderInv(C, s, r)
    requires r.pc == RFinal && r.trusted && !Torn(C, s, NextMessage(r))
    ensures var k, r' := NextMessage(r), StepReader(C, s.sh, s.log, High(C, s), r);
            k < s.visible && r.clean && r'.got == r.got + [s.log[k]] && r'.trusted
  {
    HighCoversLog(C, s);
    UnreadWithinRing(C, s.log, NextMessage(r));
    UntornRead(C, s, r);
  }

  /** What a reader can test: a read whose final load keeps the margin returns exactly the next message. */
  lemma MarginRead(C: nat, s: State, r: Reader)
    requires InRange(C, s) && PublishInv(C, s) && ReaderInRange(C, r) && ReaderInv(C, s, r)
    requires r.pc == RFinal && r.trusted && Margin(C, s.sh, s.log, r)
    ensures var k, r' := NextMessage(r), StepReader(C, s.sh, s.log, High(C, s), r);
            k < s.visible && r.clean && r'.got == r.got + [s.log[k]] && r'.trusted
  {
    MarginMeansUntorn(C, s, r);
    IntactRead(C, s, r);
  }

  lemma FinalKeeps(C: nat, s: State, r: Reader)
    requires InRange(C, s) && PublishInv(C, s) && ReaderInRange(C, r) && ReaderInv(C, s, r) && r.pc == RFinal
    ensures ReaderInv(C, s, StepReader(C, s.sh, s.log, High(C, s), r))
  {
    FinalForm(C, s.sh, s.log, High(C, s), r);
    if r.trusted && r.clean && !Alarm(C, s.sh, r) {
      TakesNext(C, s, r, r.margined && Margin(C, s.sh, s.log, r));
    } else if r.margined && Margin(C, s.sh, s.log, r) {
      MarginRead(C, s, r);
      assert false;
    }
  }

  // ----- The first tests -----

  /** The first lag test ends the call if and only if more than a ring is unread. */
  lemma FirstTestIsExact(C: nat, s: State, r: Reader)
    requires InRange(C, s) && PublishInv(C, s) && ReaderInRange(C, r) && ReaderInv(C, s, r)
    requires r.pc == RSeqNum && r.trusted && Unread(C, s.log, NextMessage(r)) < TWO64
    ensures StepReader(C, s.sh, s.log, High(C, s), r).pc == RIdle <==> Unread(C, s.log, NextMessage(r)) > C
  {
    MovedIndexIsBehind(C, s, r);
  }

  lemma LoadStepKeeps(C: nat, s: State, r: Reader)
    requires InRange(C, s) && PublishInv(C, s) && ReaderInRange(C, r) && ReaderInv(C, s, r)
    requires r.pc == RAttach || r.pc == RReadIdx || r.pc == RSeqNum
    ensures ReaderInv(C, s, StepReader(C, s.sh, s.log, High(C, s), r))
  {
    var r' := StepReader(C, s.sh, s.log, High(C, s), r);
    if r'.trusted {
      assert NextMessage(r') == NextMessage(r);
      assert Reading(C, s.log, s.visible, r);
      assert Reading(C, s.log, s.visible, r');
    }
  }

  lemma StepReaderKeeps(C: nat, s: State, r: Reader)
    requires InRange(C, s) && PublishInv(C, s) && ReaderInRange(C, r) && ReaderInv(C, s, r)
    ensures ReaderInv(C, s, StepReader(C, s.sh, s.log, High(C, s), r))
  {
    match r.pc
    case RIdle =>
    case RHeader =>
      if |r.header| < HEADER {
        HeaderByteKeeps(C, s, r);
      } else {
        HeaderCheckKeeps(C, s, r);
      }
    case RPayload =>
      if |r.buffer| < r.size {
        CopyStepKeeps(C, s, r);
      } else {
        AdvanceStepKeeps(C, s, r);
      }
    case RFinal =>
      FinalKeeps(C, s, r);
    case _ => LoadStepKeeps(C, s, r);
  }

  // ----- Runs -----

  /** Reader i after an event, on the shared memory and log from before it. */
  lemma EventOnReader(C: nat, s: State, e: Event, i: nat)
    requires Inv(C, s) && i < |s.readers|
    ensures ReaderInv(C, s, Next(C, s, e).readers[i])
  {
    var r := s.readers[i];
    assert ReaderInv(C, s, r);
    if e == ReaderStep(i) {
      StepReaderKeeps(C, s, r);
    }
  }

  /** An event appends at most one message to the log and never takes an announcement back. */
  lemma LogGrows(C: nat, s: State, e: Event) returns (more: Log)
    requires Inv(C, s)
    ensures Next(C, s, e).log == s.log + more
    ensures s.visible <= Next(C, s, e).visible
  {
    more := if e == WriterStep && s.writer.pc == WSeqNum then [s.writer.message] else [];
    assert s.log + [] == s.log;
  }

  lemma NextKeepsReader(C: nat, s: State, e: Event, i: nat)
    requires Inv(C, s) && i < |Next(C, s, e).readers| && PublishInv(C, Next(C, s, e))
    requires High(C, Next(C, s, e)) >= High(C, s)
    ensures ReaderInv(C, Next(C, s, e), Next(C, s, e).readers[i])
  {
    var s' := Next(C, s, e);
    var r := s'.readers[i];
    if i < |s.readers| {
      EventOnReader(C, s, e, i);
      var more := LogGrows(C, s, e);
      ReaderUnmoved(C, s, s', r, more);
    } else {
      assert e == AttachReader;
    }
  }

  lemma NextKeepsPublish(C: nat, s: State, e: Event)
    requires InRange(C, s) && PublishInv(C, s)
    ensures PublishInv(C, Next(C, s, e)) && High(C, Next(C, s, e)) >= High(C, s)
  {
    match e
    case CallWrite(message, past) =>
      if s.writer.pc == WIdle {
        CallWriteKeeps(C, s, message, past);
      }
    case WriterStep => StepWriterKeeps(C, s);
    case _ =>
  }

  lemma NextKeepsInv(C: nat, s: State, e: Event)
    requires Inv(C, s)
    ensures Inv(C, Next(C, s, e))
  {
    var s' := Next(C, s, e);
    NextKeepsPublish(C, s, e);
    forall i | 0 <= i < |s'.readers| ensures ReaderInv(C, s', s'.readers[i]) {
      NextKeepsReader(C, s, e, i);
    }
  }

  lemma {:induction false} RunKeepsInv(C: nat, s: State, events: seq<Event>)
    requires Inv(C, s)
    ensures Inv(C, Run(C, s, events))
    decreases |events|
  {
    if events != [] {
      NextKeepsInv(C, s, events[0]);
      RunKeepsInv(C, Next(C, s, events[0]), events[1..]);
    }
  }

  lemma StartInv(C: nat, ring: seq<byte>)
    requires Capacity(C) && |ring| == C
    ensures Inv(C, Start(ring))
  {
  }

  /**
   * In every reachable state a reader whose completed reads were clean and returned has been given exactly the
   * published log from its attach point.
   */
  lemma UntornOnEveryRun(C: nat, ring: seq<byte>, events: seq<Event>, s: State, i: nat)
    requires Capacity(C) && |ring| == C && s == Run(C, Start(ring), events)
    requires i < |s.readers| && s.readers[i].trusted
    ensures var r := s.readers[i];
            && r.from + |r.got| <= s.visible <= |s.log|
            && r.got == s.log[r.from..r.from + |r.got|]
  {
    StartInv(C, ring);
    RunKeepsInv(C, Start(ring), events);
    assert ReaderInv(C, s, s.readers[i]);
  }

  /** A reader all of whose reads kept the margin is such a reader. */
  lemma MarginOnEveryRun(C: nat, ring: seq<byte>, events: seq<Event>, s: State, i: nat)
    requires Capacity(C) && |ring| == C && s == Run(C, Start(ring), events)
    requires i < |s.readers| && s.readers[i].margined
    ensures s.readers[i].trusted
  {
    StartInv(C, ring);
    RunKeepsInv(C, Start(ring), events);
    assert ReaderInv(C, s, s.readers[i]);
  }

  /**
   * The publish order in every reachable state: readIdx announces at most what seqNum counts, seqNum at
   * most what writeIdx reserves, the three are at most one message apart, and every published byte less
   * than a ring below the stored end is in place.
   */
  lemma PublishOrder(C: nat, ring: seq<byte>, events: seq<Event>, s: State)
    requires Capacity(C) && |ring| == C && s == Run(C, Start(ring), events)
    ensures s.visible <= |s.log| <= s.visible + 1
    ensures s.sh.readIdx == At(C, s.log, s.visible).idx
    ensures s.sh.seqNum == SeqAt(C, s.log, |s.log|) % TWO64
    ensures EndAt(C, s.log, s.visible) <= EndAt(C, s.log, |s.log|) <= High(C, s) <= Reserved(C, s)
    ensures s.visible < |s.log| ==> Reserved(C, s) == EndAt(C, s.log, |s.log|)
    ensures Reserved(C, s) <= EndAt(C, s.log, |s.log|) + (HEADER - 1) + HEADER + MAX_MESSAGE
    ensures s.sh.writeIdx == if s.writer.pc.WCopy? || s.writer.pc.WSeqNum?
                             then NextIndex(C, At(C, s.log, |s.log|).idx, |s.writer.message|)
                             else At(C, s.log, |s.log|).idx
    ensures Holds(C, s.log, s.sh.ring, High(C, s))
  {
    StartInv(C, ring);
    RunKeepsInv(C, Start(ring), events);
    Monotone(C, s.log, s.visible, |s.log|);
    HighCoversLog(C, s);
  }
}
