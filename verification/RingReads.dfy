/** What one `Read` returns while no write is in progress, for a reader at any frame boundary. */
module RingReads {
  import opened Bytes
  import opened RingLog
  import opened RingMemory
  import opened RingWindow

  /** Everything in the log is published and the ring holds its end. */
  ghost predicate Published(C: nat, log: Log, sh: Shared) {
    && WellFormed(C, sh)
    && sh.readIdx == sh.writeIdx == At(C, log, |log|).idx
    && sh.seqNum == SeqAt(C, log, |log|) % TWO64
    && Holds(C, log, sh.ring, EndAt(C, log, |log|))
  }

  predicate InSync(C: nat, log: Log, k: nat, idx: nat, seqNum: nat)
    requires Capacity(C)
  {
    AtBoundary(C, log, k, idx) && seqNum == SeqAt(C, log, k) % TWO64
  }

  /** Unread frames within the window are all intact, although the lag does not count skipped tails. */
  lemma WindowIsIntact(C: nat, log: Log, ring: seq<byte>, k: nat, i: nat)
    requires Capacity(C) && Holds(C, log, ring, EndAt(C, log, |log|))
    requires k <= i < |log| && Unread(C, log, k) <= C - (HEADER - 1)
    ensures var start := StartIndex(C, At(C, log, i).idx);
            HeaderIn(ring, start) == |log[i]| && PayloadIn(C, ring, start, |log[i]|) == log[i]
  {
    Distance(C, log, k, |log|);
    Monotone(C, log, k, i);
    EndAtNext(C, log, i);
    assert Due(C, log, EndAt(C, log, |log|), i, 0);
    FrameReadsBack(C, log, ring, EndAt(C, log, |log|), i);
  }

  /** A frame that was not lapped is intact, and the lag is within the ring. */
  lemma NotLappedIsIntact(C: nat, log: Log, ring: seq<byte>, k: nat)
    requires Capacity(C) && Holds(C, log, ring, EndAt(C, log, |log|)) && k < |log| && !Lapped(C, log, k)
    ensures var start := StartIndex(C, At(C, log, k).idx);
            HeaderIn(ring, start) == |log[k]| && PayloadIn(C, ring, start, |log[k]|) == log[k]
    ensures HEADER + |log[k]| <= Unread(C, log, k) <= C
  {
    EndAtNext(C, log, k);
    Monotone(C, log, k + 1, |log|);
    AlarmVersusLoss(C, log, k);
    LostMeansLapped(C, log, k);
    assert Due(C, log, EndAt(C, log, |log|), k, 0);
    FrameReadsBack(C, log, ring, EndAt(C, log, |log|), k);
  }

  /** The program's first test reports an overwrite only when one happened, and changes nothing. */
  lemma NoFalseAlarm(C: nat, log: Log, sh: Shared, k: nat, idx: nat, seqNum: nat, buffer: seq<byte>)
    requires Capacity(C) && Published(C, log, sh) && InSync(C, log, k, idx, seqNum)
    requires Unread(C, log, k) < TWO64
    requires idx != sh.readIdx && Sub64(sh.seqNum, seqNum) > C
    ensures k < |log| && HeaderLost(C, log, k)
    ensures ReadOutcome(C, sh, idx, seqNum, buffer) == Outcome(OVERWRITTEN, idx, seqNum, buffer)
  {
    Monotone(C, log, k, |log|);
    LagIsExact(SeqAt(C, log, |log|), SeqAt(C, log, k));
    AlarmVersusLoss(C, log, k);
  }

  /** What a read does once its first lag test passed and the ring holds message m at its index. */
  lemma ReadIntact(C: nat, sh: Shared, idx: nat, seqNum: nat, buffer: seq<byte>, m: Message)
    requires WellFormed(C, sh) && idx <= C && idx != sh.readIdx && seqNum < TWO64
    requires Sub64(sh.seqNum, seqNum) <= C && |m| <= |buffer|
    requires HeaderIn(sh.ring, StartIndex(C, idx)) == |m| && PayloadIn(C, sh.ring, StartIndex(C, idx), |m|) == m
    ensures ReadOutcome(C, sh, idx, seqNum, buffer)
         == Outcome(if Sub64(sh.seqNum, Add64(seqNum, HEADER + |m|)) > C then OVERWRITTEN else |m|,
                    NextIndex(C, idx, |m|), Add64(seqNum, HEADER + |m|), m + buffer[|m|..])
  {
  }

  /** Before and after reading message k the wrapped lags are the true distances. */
  lemma LagsAreExact(C: nat, log: Log, k: nat)
    requires Capacity(C) && k < |log| && Unread(C, log, k) <= C
    ensures Sub64(SeqAt(C, log, |log|) % TWO64, SeqAt(C, log, k) % TWO64) == Unread(C, log, k)
    ensures Add64(SeqAt(C, log, k) % TWO64, HEADER + |log[k]|) == SeqAt(C, log, k + 1) % TWO64
    ensures Sub64(SeqAt(C, log, |log|) % TWO64, SeqAt(C, log, k + 1) % TWO64) == Unread(C, log, k + 1) <= C
  {
    EndAtNext(C, log, k);
    Monotone(C, log, k + 1, |log|);
    LagIsExact(SeqAt(C, log, |log|), SeqAt(C, log, k));
    LagIsExact(SeqAt(C, log, |log|), SeqAt(C, log, k + 1));
    Add64OfWrapped(SeqAt(C, log, k), HEADER + |log[k]|);
  }

  /**
   * One read of a reader whose next message is in reach: nothing when there is nothing, the next message when it
   * fits the buffer, and otherwise a refusal that leaves the reader at the same boundary.
   */
  lemma ReadNext(C: nat, log: Log, sh: Shared, k: nat, idx: nat, seqNum: nat, buffer: seq<byte>)
    requires Capacity(C) && Published(C, log, sh) && InSync(C, log, k, idx, seqNum)
    requires InReach(C, log, k, idx)
    ensures var o := ReadOutcome(C, sh, idx, seqNum, buffer);
            && (k == |log| ==> o == Outcome(0, idx, seqNum, buffer))
            && (k < |log| && |log[k]| <= |buffer| ==>
                  && o.ret == |log[k]|
                  && o.buffer == log[k] + buffer[|log[k]|..]
                  && o.idx == At(C, log, k + 1).idx && InSync(C, log, k + 1, o.idx, o.seqNum))
            && (k < |log| && |log[k]| > |buffer| ==>
                  && o.ret == -1 && o.buffer == buffer && o.seqNum == seqNum
                  && InSync(C, log, k, o.idx, o.seqNum))
  {
    if k < |log| {
      IndexTestIsWholeRings(C, log, k, idx);
      NotLappedIsIntact(C, log, sh.ring, k);
      LagsAreExact(C, log, k);
      assert StartIndex(C, idx) == StartIndex(C, At(C, log, k).idx);
      if |log[k]| <= |buffer| {
        ReadIntact(C, sh, idx, seqNum, buffer, log[k]);
      }
    }
  }

  /** A read refused for its buffer costs nothing: the same read with room returns that message. */
  lemma RetryIsHarmless(C: nat, log: Log, sh: Shared, k: nat, idx: nat, seqNum: nat,
                        small: seq<byte>, large: seq<byte>)
    requires Capacity(C) && Published(C, log, sh) && InSync(C, log, k, idx, seqNum)
    requires k < |log| && InReach(C, log, k, idx)
    requires |small| < |log[k]| <= |large|
    ensures var first := ReadOutcome(C, sh, idx, seqNum, small);
            && first.ret == -1
            && var again := ReadOutcome(C, sh, first.idx, first.seqNum, large);
            && again == ReadOutcome(C, sh, idx, seqNum, large)
            && again.ret == |log[k]| && again.buffer[..|log[k]|] == log[k]
  {
    ReadNext(C, log, sh, k, idx, seqNum, small);
    var first := ReadOutcome(C, sh, idx, seqNum, small);
    ReadNext(C, log, sh, k, idx, seqNum, large);
    assert first.idx == 0 || first.idx == idx;
    ReadNext(C, log, sh, k, first.idx, first.seqNum, large);
    IndexTestIsWholeRings(C, log, k, first.idx);
  }

  /**
   * A reader at a frame boundary whose sequence number is ahead of it by `skew`: what remains of a constructor
   * that loaded `readIdx` before and `seqNum` after that many bytes were published.
   */
  predicate Skewed(C: nat, log: Log, k: nat, idx: nat, seqNum: nat, skew: nat)
    requires Capacity(C)
  {
    AtBoundary(C, log, k, idx) && seqNum == (SeqAt(C, log, k) + skew) % TWO64
  }

  lemma SkewedLags(C: nat, log: Log, k: nat, skew: nat, n: nat)
    requires Capacity(C) && k <= |log| && 0 <= Unread(C, log, k) <= C && skew < TWO64 - C && n <= MAX_MESSAGE
    ensures var now, seqNum := SeqAt(C, log, |log|) % TWO64, (SeqAt(C, log, k) + skew) % TWO64;
            && (Sub64(now, seqNum) > C <==> Unread(C, log, k) < skew)
            && (skew <= Unread(C, log, k) ==>
                  (Sub64(now, Add64(seqNum, HEADER + n)) > C <==> Unread(C, log, k) < skew + HEADER + n))
            && Add64(seqNum, HEADER + n) == (SeqAt(C, log, k) + HEADER + n + skew) % TWO64
  {
    var last, first := SeqAt(C, log, |log|), SeqAt(C, log, k) + skew;
    Add64OfWrapped(first, HEADER + n);
    if last < first {
      LagUnderflows(last, first);
    } else {
      LagAfterStraddle(C, last, first, n);
    }
  }

  /**
   * Every read of such a reader, at any boundary with its message in reach: as long as less than the skew is unread
   * it is told that it was overwritten and stays; otherwise it moves on to the next boundary with the same skew, its
   * buffer holds the intact message, and that message is returned, not reported as overwritten, if and only if
   * the skew and the message are published behind the boundary.
   */
  lemma SkewedRead(C: nat, log: Log, sh: Shared, k: nat, idx: nat, seqNum: nat, skew: nat, buffer: seq<byte>)
    requires Capacity(C) && Published(C, log, sh) && Skewed(C, log, k, idx, seqNum, skew) && skew < TWO64 - C
    requires k < |log| && InReach(C, log, k, idx) && |log[k]| <= |buffer|
    ensures var o, unread := ReadOutcome(C, sh, idx, seqNum, buffer), Unread(C, log, k);
            && (unread < skew ==> o == Outcome(OVERWRITTEN, idx, seqNum, buffer))
            && (skew <= unread ==>
                  && Skewed(C, log, k + 1, o.idx, o.seqNum, skew)
                  && o.buffer == log[k] + buffer[|log[k]|..]
                  && o.ret == if unread < skew + HEADER + |log[k]| then OVERWRITTEN else |log[k]|)
  {
    IndexTestIsWholeRings(C, log, k, idx);
    NotLappedIsIntact(C, log, sh.ring, k);
    SkewedLags(C, log, k, skew, |log[k]|);
    assert StartIndex(C, idx) == StartIndex(C, At(C, log, k).idx);
    if skew <= Unread(C, log, k) {
      ReadIntact(C, sh, idx, seqNum, buffer, log[k]);
    }
  }

  /** What was published between two boundaries. */
  lemma Skew(C: nat, log: Log, k: nat, s: nat) returns (skew: nat)
    requires Capacity(C) && k < s <= |log|
    ensures SeqAt(C, log, s) == SeqAt(C, log, k) + skew && skew <= Unread(C, log, k)
    ensures Unread(C, log, s) == Unread(C, log, k) - skew
  {
    Monotone(C, log, k, s);
    Monotone(C, log, s, |log|);
    skew := SeqAt(C, log, s) - SeqAt(C, log, k);
  }

  lemma FirstSkewedRead(C: nat, log: Log, sh: Shared, k: nat, seqNum: nat, skew: nat, buffer: seq<byte>)
    requires Capacity(C) && Published(C, log, sh) && k < |log|
    requires seqNum == (SeqAt(C, log, k) + skew) % TWO64 && skew <= Unread(C, log, k)
    requires InReach(C, log, k, At(C, log, k).idx) && |log[k]| <= |buffer|
    ensures var o := ReadOutcome(C, sh, At(C, log, k).idx, seqNum, buffer);
            && o.buffer[..|log[k]|] == log[k]
            && o.ret == if Unread(C, log, k) - skew < HEADER + |log[k]| then OVERWRITTEN else |log[k]|
  {
    NotLappedIsIntact(C, log, sh.ring, k);
    SkewedRead(C, log, sh, k, At(C, log, k).idx, seqNum, skew, buffer);
  }

  /**
   * The first read after such a constructor: it has the index of boundary k and the sequence number of a later
   * boundary s, and is reported as overwritten exactly when fewer bytes than its message were published since.
   */
  lemma StraddledAttach(C: nat, log: Log, sh: Shared, k: nat, s: nat, buffer: seq<byte>)
    requires Capacity(C) && Published(C, log, sh) && k < s <= |log|
    requires InReach(C, log, k, At(C, log, k).idx) && |log[k]| <= |buffer|
    ensures var o := ReadOutcome(C, sh, At(C, log, k).idx, SeqAt(C, log, s) % TWO64, buffer);
            && o.buffer[..|log[k]|] == log[k]
            && o.ret == if Unread(C, log, s) < HEADER + |log[k]| then OVERWRITTEN else |log[k]|
  {
    var skew := Skew(C, log, k, s);
    FirstSkewedRead(C, log, sh, k, SeqAt(C, log, s) % TWO64, skew, buffer);
  }

  lemma LagAfterStraddle(C: nat, last: nat, first: nat, n: nat)
    requires Capacity(C) && first <= last <= first + C && n <= MAX_MESSAGE
    ensures Sub64(last % TWO64, first % TWO64) == last - first
    ensures Sub64(last % TWO64, Add64(first % TWO64, HEADER + n)) > C <==> last < first + HEADER + n
  {
    LagIsExact(last, first);
    Add64OfWrapped(first, HEADER + n);
    if last < first + HEADER + n {
      LagUnderflows(last, first + HEADER + n);
    } else {
      LagIsExact(last, first + HEADER + n);
    }
  }

  lemma AtAppended(C: nat, log: Log, m: Message)
    requires Capacity(C)
    ensures At(C, log + [m], |log|) == At(C, log, |log|)
    ensures At(C, log + [m], |log| + 1) == Advance(C, At(C, log, |log|), |m|)
  {
    AtPrefix(C, log, [m], |log|);
  }

  /** The wrapped sequence number counts an appended frame. */
  lemma SeqAppended(C: nat, log: Log, m: Message)
    requires Capacity(C)
    ensures SeqAt(C, log + [m], |log| + 1) == SeqAt(C, log, |log|) + HEADER + |m|
    ensures SeqAt(C, log + [m], |log| + 1) % TWO64 == Add64(SeqAt(C, log, |log|) % TWO64, HEADER + |m|)
  {
    AtAppended(C, log, m);
    var a, b := SeqAt(C, log, |log|), HEADER + |m|;
    assert SeqAt(C, log + [m], |log| + 1) == a + b;
    Add64OfWrapped(a, b);
  }

  /** One write extends the published log by the message as delivered. */
  lemma WritePublishes(C: nat, log: Log, sh: Shared, m: Message, past: nat -> byte)
    requires Capacity(C) && Published(C, log, sh)
    ensures Published(C, log + [Delivered(C, At(C, log, |log|).idx, m, past)],
                      AfterWrite(C, sh, At(C, log, |log|).idx, sh.seqNum, m, past))
  {
    var idx := At(C, log, |log|).idx;
    var d, sh' := Delivered(C, idx, m, past), AfterWrite(C, sh, idx, sh.seqNum, m, past);
    var log' := log + [d];
    assert |log'| == |log| + 1;
    assert Holds(C, log', sh'.ring, EndAt(C, log', |log'|)) by {
      OverlayHolds(C, log, sh.ring, d);
    }
    assert sh'.readIdx == sh'.writeIdx == At(C, log', |log'|).idx by {
      AtAppended(C, log, d);
    }
    assert sh'.seqNum == SeqAt(C, log', |log'|) % TWO64 by {
      SeqAppended(C, log, d);
    }
  }
}
