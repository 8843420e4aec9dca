/** When a `Read` reports that its reader was overwritten, and what it does when it should and does not. */
module RingAlarms {
  import opened Bytes
  import opened RingLog
  import opened RingMemory
  import opened RingReads
  import opened RingWindow

  /** The read returns the overwrite code before it touched anything. */
  predicate Reported(C: nat, sh: Shared, idx: nat, seqNum: nat, buffer: seq<byte>)
    requires WellFormed(C, sh) && idx <= C && seqNum < TWO64
  {
    ReadOutcome(C, sh, idx, seqNum, buffer) == Outcome(OVERWRITTEN, idx, seqNum, buffer)
  }

  /** The read returns "nothing to read". */
  predicate Silent(C: nat, sh: Shared, idx: nat, seqNum: nat, buffer: seq<byte>)
    requires WellFormed(C, sh) && idx <= C && seqNum < TWO64
  {
    ReadOutcome(C, sh, idx, seqNum, buffer) == Outcome(0, idx, seqNum, buffer)
  }

  /** A sequence number that counts a frame is another one. */
  lemma SeqMoves(seqNum: nat, n: nat)
    requires seqNum < TWO64 && n <= MAX_MESSAGE
    ensures Add64(seqNum, HEADER + n) != seqNum
  {
    var sum := seqNum + HEADER + n;
    if sum >= TWO64 {
      assert (sum - TWO64 + TWO64) % TWO64 == (sum - TWO64) % TWO64;
    }
  }

  /** What the two tests before the header do, whatever the ring holds. */
  lemma FirstTests(C: nat, sh: Shared, idx: nat, seqNum: nat, buffer: seq<byte>)
    requires WellFormed(C, sh) && idx <= C && seqNum < TWO64
    ensures Silent(C, sh, idx, seqNum, buffer) <==> idx == sh.readIdx
    ensures Reported(C, sh, idx, seqNum, buffer) <==> idx != sh.readIdx && Sub64(sh.seqNum, seqNum) > C
  {
    var n := HeaderIn(sh.ring, StartIndex(C, idx));
    if 0 <= n <= MAX_MESSAGE {
      SeqMoves(seqNum, n);
    }
  }

  /** The size found is accepted, and is more than what is unread: the final test then underflows. */
  predicate Overreads(unread: int, n: int, room: nat) {
    0 <= n <= MAX_MESSAGE && n <= room && unread < HEADER + n
  }

  /** What the return code of a read says once the index test has passed, whatever the ring holds. */
  lemma ReturnCode(C: nat, sh: Shared, idx: nat, seqNum: nat, buffer: seq<byte>, last: nat, next: nat)
    requires WellFormed(C, sh) && idx <= C && idx != sh.readIdx
    requires sh.seqNum == last % TWO64 && seqNum == next % TWO64 && next <= last < next + TWO64
    ensures ReadOutcome(C, sh, idx, seqNum, buffer).ret == OVERWRITTEN
            <==> last - next > C || Overreads(last - next, HeaderIn(sh.ring, StartIndex(C, idx)), |buffer|)
  {
    var n := HeaderIn(sh.ring, StartIndex(C, idx));
    LagIsExact(last, next);
    if last - next <= C && 0 <= n <= MAX_MESSAGE {
      LagAfterStraddle(C, last, next, n);
    }
  }

  /**
   * For a reader with unread messages: it is told that there is nothing if and only if the writer is a whole
   * number of rings ahead; and otherwise that it was overwritten if and only if the lag exceeds the ring or is
   * less than the size found. Only in the first case it is told so before anything was touched.
   */
  lemma ReportIsExact(C: nat, log: Log, sh: Shared, k: nat, idx: nat, seqNum: nat, buffer: seq<byte>)
    requires Capacity(C) && Published(C, log, sh) && InSync(C, log, k, idx, seqNum)
    requires k < |log| && Unread(C, log, k) < TWO64
    ensures Silent(C, sh, idx, seqNum, buffer) <==> WholeRingsAhead(C, log, k, idx)
    ensures Reported(C, sh, idx, seqNum, buffer) <==> Unread(C, log, k) > C && !WholeRingsAhead(C, log, k, idx)
    ensures ReadOutcome(C, sh, idx, seqNum, buffer).ret == OVERWRITTEN
            <==> !WholeRingsAhead(C, log, k, idx)
                 && (Unread(C, log, k) > C
                     || Overreads(Unread(C, log, k), HeaderIn(sh.ring, StartIndex(C, idx)), |buffer|))
  {
    Monotone(C, log, k, |log|);
    LagIsExact(SeqAt(C, log, |log|), SeqAt(C, log, k));
    IndexTestIsWholeRings(C, log, k, idx);
    FirstTests(C, sh, idx, seqNum, buffer);
    if idx != sh.readIdx {
      ReturnCode(C, sh, idx, seqNum, buffer, SeqAt(C, log, |log|), SeqAt(C, log, k));
    }
  }

  /** A ring with two bytes more than the smallest leaves the final test nothing to add. */
  lemma ReportInRoomyRing(C: nat, log: Log, sh: Shared, k: nat, idx: nat, seqNum: nat, buffer: seq<byte>)
    requires Capacity(C) && Published(C, log, sh) && InSync(C, log, k, idx, seqNum)
    requires k < |log| && Unread(C, log, k) < TWO64 && C >= HEADER + MAX_MESSAGE + 2
    ensures ReadOutcome(C, sh, idx, seqNum, buffer).ret == OVERWRITTEN
            <==> Unread(C, log, k) > C && !WholeRingsAhead(C, log, k, idx)
  {
    ReportIsExact(C, log, sh, k, idx, seqNum, buffer);
    if Unread(C, log, k) <= C - (HEADER - 1) {
      AlarmVersusLoss(C, log, k);
      NotLappedIsIntact(C, log, sh.ring, k);
      assert StartIndex(C, idx) == StartIndex(C, At(C, log, k).idx);
    }
  }

  /**
   * So a lost header goes unreported if and only if whole rings hide it from both tests, or skipped tails hide
   * it from the lag and the size found fits what is unread or is refused.
   */
  lemma LossUnreported(C: nat, log: Log, sh: Shared, k: nat, idx: nat, seqNum: nat, buffer: seq<byte>)
    requires Capacity(C) && Published(C, log, sh) && InSync(C, log, k, idx, seqNum)
    requires k < |log| && Unread(C, log, k) < TWO64
    ensures HeaderLost(C, log, k) && ReadOutcome(C, sh, idx, seqNum, buffer).ret != OVERWRITTEN
            <==> Lapped(C, log, k)
                 && (WholeRingsAhead(C, log, k, idx)
                     || (Unread(C, log, k) <= C
                         && !Overreads(Unread(C, log, k), HeaderIn(sh.ring, StartIndex(C, idx)), |buffer|)))
  {
    ReportIsExact(C, log, sh, k, idx, seqNum, buffer);
    AlarmVersusLoss(C, log, k);
  }

  /**
   * A read refused for its buffer leaves the index where the header is: as it was, or at the start of the ring if
   * the header did not fit before the end. From there the index test never hides anything from it again, whatever
   * is written.
   */
  lemma RefusedIndex(C: nat, log: Log, sh: Shared, k: nat, idx: nat, seqNum: nat, buffer: seq<byte>,
                     more: Log, sh': Shared, buffer': seq<byte>)
    requires Capacity(C) && Published(C, log, sh) && InSync(C, log, k, idx, seqNum)
    requires k < |log| && InReach(C, log, k, idx) && |log[k]| > |buffer| && Published(C, log + more, sh')
    ensures var o := ReadOutcome(C, sh, idx, seqNum, buffer);
            && o == Outcome(-1, if HeaderFits(C, At(C, log, k).idx) then idx else 0, seqNum, buffer)
            && (!HeaderFits(C, At(C, log, k).idx) ==> !Silent(C, sh', o.idx, o.seqNum, buffer'))
  {
    ReadNext(C, log, sh, k, idx, seqNum, buffer);
    IndexTestIsWholeRings(C, log, k, idx);
    NotLappedIsIntact(C, log, sh.ring, k);
    LagsAreExact(C, log, k);
    FirstTests(C, sh', 0, seqNum, buffer');
    Announced(C, log + more);
  }

  /** Index 0 is not announced once there is a message. */
  lemma Announced(C: nat, log: Log)
    requires Capacity(C) && log != []
    ensures At(C, log, |log|).idx >= 1
  {
  }

  // ----- Whole rings -----

  /** Two or more rings ahead, the next header is gone and the read says that there is nothing. */
  lemma RingsAheadIsSilent(C: nat, log: Log, sh: Shared, k: nat, seqNum: nat, laps: nat, buffer: seq<byte>)
    requires Capacity(C) && Published(C, log, sh) && 0 < k < |log| && InSync(C, log, k, At(C, log, k).idx, seqNum)
    requires laps >= 2 && EndAt(C, log, |log|) == EndAt(C, log, k) + LapBase(C, laps)
    ensures HeaderLost(C, log, k) && Silent(C, sh, At(C, log, k).idx, seqNum, buffer)
  {
    var idx := At(C, log, k).idx;
    assert WholeRingsAhead(C, log, k, idx);
    IndexTestIsWholeRings(C, log, k, idx);
    FirstTests(C, sh, idx, seqNum, buffer);
    LapStep(C, 2, laps);
    LostMeansLapped(C, log, k);
  }

  /** Three messages that each fill the smallest ring: behind the first, the lag is twice the ring. */
  lemma MissedLaps(C: nat, log: Log, sh: Shared, seqNum: nat, buffer: seq<byte>)
    requires Capacity(C) && Published(C, log, sh) && |log| == 3
    requires forall i :: 0 <= i < |log| ==> HEADER + |log[i]| == C
    requires seqNum == C
    ensures At(C, log, 1).idx == C && InSync(C, log, 1, C, seqNum)
    ensures HeaderLost(C, log, 1) && Unread(C, log, 1) == 2 * C
    ensures Silent(C, sh, C, seqNum, buffer)
  {
    var k := |log| - 2;
    CursorAfter(C, log, k - 1, Cursor(0, 0, 0, 0));
    CursorAfter(C, log, k, Cursor(0, C, C, 0));
    CursorAfter(C, log, k + 1, Cursor(1, C, 2 * C, 0));
    assert At(C, log, |log|) == Cursor(2, C, 3 * C, 0);
    TwoLaps(C);
    RingsAheadIsSilent(C, log, sh, k, seqNum, 2, buffer);
  }

  lemma TwoLaps(C: nat)
    ensures LapBase(C, 0) == 0 && LapBase(C, 1) == C && LapBase(C, 2) == 2 * C
  {
    LapBaseIsProduct(C, 2);
  }

  // ----- Skipped tails -----

  /**
   * The second of three frames ends three bytes before the end of the ring, and the third reaches `over` bytes,
   * one to three, into it. For the smallest ring, frames of 100, 65436 and 103 bytes do for three.
   */
  predicate HidesLoss(C: nat, log: Log, over: nat) {
    && |log| == 3 && 1 <= over <= 3
    && HEADER + |log[0]| + HEADER + |log[1]| == C - 3
    && HEADER + |log[2]| == HEADER + |log[0]| + over
  }

  lemma HiddenCursors(C: nat, log: Log, over: nat)
    requires Capacity(C) && HidesLoss(C, log, over)
    ensures var a := HEADER + |log[0]|;
            && At(C, log, 1) == Cursor(0, a, a, 0)
            && At(C, log, 2) == Cursor(0, C - 3, C - 3, 0)
            && At(C, log, 3) == Cursor(1, a + over, C - 3 + a + over, 3)
  {
    var k, a := |log| - 2, HEADER + |log[0]|;
    CursorAfter(C, log, k - 1, Cursor(0, 0, 0, 0));
    CursorAfter(C, log, k, Cursor(0, a, a, 0));
    CursorAfter(C, log, k + 1, Cursor(0, C - 3, C - 3, 0));
  }

  /** The bytes of the third message that lie over the second header. */
  lemma FoundByte(C: nat, log: Log, ring: seq<byte>, over: nat, i: nat)
    requires Capacity(C) && HidesLoss(C, log, over) && Holds(C, log, ring, EndAt(C, log, 3)) && i < over
    ensures ring[HEADER + |log[0]| + i] == log[2][|log[0]| + i]
  {
    HiddenCursors(C, log, over);
    TwoLaps(C);
    assert Due(C, log, EndAt(C, log, 3), 2, HEADER + |log[0]| + i);
    assert InPlace(C, log, ring, 2, HEADER + |log[0]| + i);
  }

  /** The bytes of that header that are left. */
  lemma KeptByte(C: nat, log: Log, ring: seq<byte>, over: nat, i: nat)
    requires Capacity(C) && HidesLoss(C, log, over) && Holds(C, log, ring, EndAt(C, log, 3)) && over <= i < HEADER
    ensures ring[HEADER + |log[0]| + i] == EncodeHeader(|log[1]|)[i]
  {
    HiddenCursors(C, log, over);
    TwoLaps(C);
    assert Due(C, log, EndAt(C, log, 3), 1, i);
    assert InPlace(C, log, ring, 1, i);
  }

  lemma HiddenLoss(C: nat, log: Log, over: nat)
    requires Capacity(C) && HidesLoss(C, log, over)
    ensures HeaderLost(C, log, 1) && Unread(C, log, 1) == C - 3 + over
  {
    HiddenCursors(C, log, over);
    AlarmVersusLoss(C, log, 1);
  }

  lemma HiddenState(C: nat, log: Log, sh: Shared, over: nat)
    requires Capacity(C) && Published(C, log, sh) && HidesLoss(C, log, over)
    ensures var a := HEADER + |log[0]|;
            sh.readIdx == a + over && sh.seqNum == C - 3 + a + over && InSync(C, log, 1, a, a)
  {
    HiddenCursors(C, log, over);
  }

  /** The size that the reader finds: three bytes of the third message, and the top byte of its own header. */
  function FoundSize(m: Message): (n: nat)
    requires |m| >= 3
  {
    var k := |m| - 3;
    m[k] as int + 256 * (m[k + 1] as int + 256 * m[k + 2] as int)
  }

  lemma FoundHeader(C: nat, log: Log, ring: seq<byte>)
    requires Capacity(C) && HidesLoss(C, log, 3) && Holds(C, log, ring, EndAt(C, log, 3))
    ensures HeaderIn(ring, HEADER + |log[0]|) == FoundSize(log[2])
  {
    FoundByte(C, log, ring, 3, 0);
    FoundByte(C, log, ring, 3, 1);
    FoundByte(C, log, ring, 3, 2);
    KeptByte(C, log, ring, 3, 3);
  }

  lemma LagsFound(C: nat, a: nat, n: nat)
    requires Capacity(C) && a <= C && n <= MAX_MESSAGE
    ensures Sub64(C + a, a) == C && Add64(a, HEADER + n) == a + HEADER + n
    ensures Sub64(C + a, a + HEADER + n) == C - HEADER - n
  {
  }

  /** A read of a ring that holds a header of n at index a, when the lag is exactly the ring. */
  lemma ReadsFound(C: nat, sh: Shared, a: nat, n: nat, buffer: seq<byte>)
    requires WellFormed(C, sh) && a + HEADER <= C && sh.readIdx != a && sh.seqNum == C + a
    requires HeaderIn(sh.ring, a) == n
    ensures ReadOutcome(C, sh, a, a, buffer) ==
            if n > MAX_MESSAGE || n > |buffer| then Outcome(-1, a, a, buffer)
            else Outcome(n, NextIndex(C, a, n), a + HEADER + n, PayloadIn(C, sh.ring, a, n) + buffer[n..])
  {
    LagsFound(C, a, if n <= MAX_MESSAGE then n else 0);
    assert StartIndex(C, a) == a;
  }

  /**
   * A lost header that the read does not report: the lag is exactly the ring, for three skipped bytes are not in it.
   * The read takes its size from bytes of the third message and hands over that many bytes if they fit.
   */
  lemma MissedAlarm(C: nat, log: Log, sh: Shared, buffer: seq<byte>)
    requires Capacity(C) && Published(C, log, sh) && HidesLoss(C, log, 3)
    ensures var a, n := HEADER + |log[0]|, FoundSize(log[2]);
            && InSync(C, log, 1, a, a) && HeaderLost(C, log, 1) && Unread(C, log, 1) == C
            && ReadOutcome(C, sh, a, a, buffer) ==
               if n > MAX_MESSAGE || n > |buffer| then Outcome(-1, a, a, buffer)
               else Outcome(n, NextIndex(C, a, n), a + HEADER + n, PayloadIn(C, sh.ring, a, n) + buffer[n..])
  {
    var a, n := HEADER + |log[0]|, FoundSize(log[2]);
    HiddenLoss(C, log, 3);
    FoundHeader(C, log, sh.ring);
    HiddenState(C, log, sh, 3);
    ReadsFound(C, sh, a, n, buffer);
  }

  /** One byte of the size is overwritten, and that made it larger. */
  lemma GrownHeader(C: nat, log: Log, ring: seq<byte>, x: byte)
    requires Capacity(C) && HidesLoss(C, log, 1) && Holds(C, log, ring, EndAt(C, log, 3))
    requires |log[1]| % 256 == 0 && |log[2]| >= 1 && log[2][|log[2]| - 1] == x
    ensures HeaderIn(ring, HEADER + |log[0]|) == |log[1]| + x as int
  {
    FoundByte(C, log, ring, 1, 0);
    KeptByte(C, log, ring, 1, 1);
    KeptByte(C, log, ring, 1, 2);
    KeptByte(C, log, ring, 1, 3);
    SmallSize(|log[1]|);
  }

  lemma SmallSize(n: nat)
    requires n <= MAX_MESSAGE && n % 256 == 0
    ensures EncodeHeader(n)[1] as int * 256 == n && EncodeHeader(n)[2] == 0 && EncodeHeader(n)[3] == 0
  {
  }

  /** A read of a ring that holds a header of more than is unread at index a, when the lag is two below the ring. */
  lemma ReadsTooMuch(C: nat, sh: Shared, a: nat, n: nat, buffer: seq<byte>)
    requires WellFormed(C, sh) && a + HEADER <= C && sh.readIdx != a && sh.seqNum == C - 2 + a
    requires HeaderIn(sh.ring, a) == n && C - 2 < HEADER + n && n <= MAX_MESSAGE <= |buffer|
    ensures ReadOutcome(C, sh, a, a, buffer).ret == OVERWRITTEN && !Reported(C, sh, a, a, buffer)
  {
    assert StartIndex(C, a) == a;
    ReturnCode(C, sh, a, a, buffer, C - 2 + a, a);
    FirstTests(C, sh, a, a, buffer);
  }

  /**
   * A report by the final test at a lag below the ring, in a ring at most one byte larger than the smallest: the
   * size found exceeds what is unread. In the smallest, messages of 248, 65280 and 249 bytes, the last ending in
   * 255, do.
   */
  lemma LateReport(C: nat, log: Log, sh: Shared, x: byte, buffer: seq<byte>)
    requires Capacity(C) && Published(C, log, sh) && HidesLoss(C, log, 1)
    requires |log[1]| % 256 == 0 && |log[2]| >= 1 && log[2][|log[2]| - 1] == x
    requires C - 2 < HEADER + |log[1]| + x as int <= HEADER + MAX_MESSAGE && |buffer| >= MAX_MESSAGE
    ensures var a := HEADER + |log[0]|;
            && InSync(C, log, 1, a, a) && HeaderLost(C, log, 1) && Unread(C, log, 1) == C - 2
            && ReadOutcome(C, sh, a, a, buffer).ret == OVERWRITTEN && !Reported(C, sh, a, a, buffer)
  {
    var a := HEADER + |log[0]|;
    HiddenLoss(C, log, 1);
    GrownHeader(C, log, sh.ring, x);
    HiddenState(C, log, sh, 1);
    ReadsTooMuch(C, sh, a, |log[1]| + x as int, buffer);
  }
}
