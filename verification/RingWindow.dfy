/** What indices and sequence numbers tell a reader about the log, and what they miss. */
module RingWindow {
  import opened Bytes
  import opened RingLog

  /**
   * The reader's index denotes the boundary before frame k. After a read refused for a small buffer
   * it may be 0 although the boundary's index lies in the tail that frame k skipped.
   */
  predicate AtBoundary(C: nat, log: Log, k: nat, idx: nat)
    requires Capacity(C)
  {
    k <= |log| &&
    (idx == At(C, log, k).idx || (idx == 0 && k < |log| && !HeaderFits(C, At(C, log, k).idx)))
  }

  /** Bytes published and not yet read, headers included. */
  function Unread(C: nat, log: Log, k: nat): int
    requires Capacity(C) && k <= |log|
  {
    SeqAt(C, log, |log|) - SeqAt(C, log, k)
  }

  /** The index comparison says "nothing to read" exactly when there is nothing. */
  lemma EmptinessTestIsExact(C: nat, log: Log, k: nat, idx: nat)
    requires Capacity(C) && AtBoundary(C, log, k, idx)
    requires Unread(C, log, k) <= C - HEADER
    ensures idx == At(C, log, |log|).idx <==> k == |log|
  {
    Distance(C, log, k, |log|);
    NoAlias(C, log, k, |log|);
  }

  /** The end of the log is a whole number of rings beyond the boundary before frame k. */
  ghost predicate RingsApart(C: nat, log: Log, k: nat)
    requires Capacity(C) && k <= |log|
  {
    exists laps: nat :: EndAt(C, log, |log|) == EndAt(C, log, k) + LapBase(C, laps)
  }

  /**
   * What the comparison tells without the window: a boundary other than the first looks like the
   * announced one exactly when the writer is a whole number of rings ahead.
   */
  lemma EmptinessTestAliases(C: nat, log: Log, k: nat)
    requires Capacity(C) && 0 < k <= |log|
    ensures At(C, log, k).idx == At(C, log, |log|).idx <==> RingsApart(C, log, k)
  {
    var a, b := At(C, log, k), At(C, log, |log|);
    Monotone(C, log, k, |log|);
    if a.idx == b.idx {
      LapBaseAdds(C, a.laps, b.laps - a.laps);
      assert EndPos(C, b) == EndPos(C, a) + LapBase(C, b.laps - a.laps);
    }
    if RingsApart(C, log, k) {
      var laps: nat :| EndAt(C, log, |log|) == EndAt(C, log, k) + LapBase(C, laps);
      WholeLapsApart(C, a, b, laps);
    }
  }

  lemma WholeLapsApart(C: nat, a: Cursor, b: Cursor, laps: nat)
    requires 1 <= a.idx <= C && 1 <= b.idx <= C
    requires EndPos(C, b) == EndPos(C, a) + LapBase(C, laps)
    ensures a.idx == b.idx
  {
    LapBaseAdds(C, a.laps, laps);
    LapStep(C, a.laps + laps, b.laps);
    LapStep(C, b.laps, a.laps + laps);
  }

  lemma {:induction false} LapBaseAdds(C: nat, a: nat, b: nat)
    ensures LapBase(C, a + b) == LapBase(C, a) + LapBase(C, b)
  {
    if b > 0 {
      LapBaseAdds(C, a, b - 1);
    }
  }

  /** Some later frame was laid over the first header byte of frame k. */
  ghost predicate HeaderLost(C: nat, log: Log, k: nat)
    requires Capacity(C) && k < |log|
  {
    exists i: nat, j: nat :: k < i < |log| && j < HEADER + |log[i]| && Cell(C, log, i, j) == Cell(C, log, k, 0)
  }

  /** The tail bytes skipped after the start of frame k. */
  function SkippedAfter(C: nat, log: Log, k: nat): int
    requires Capacity(C) && k < |log|
  {
    At(C, log, |log|).skipped - At(C, log, k + 1).skipped
  }

  /** The frame that was laid over the header of frame k once the log has lapped it. */
  lemma LappingFrame(C: nat, log: Log, k: nat) returns (i: nat, j: nat)
    requires Capacity(C) && k < |log| && Pos(C, log, k, 0) + C < EndAt(C, log, |log|)
    ensures k < i < |log| && j < HEADER + |log[i]| && Cell(C, log, i, j) == Cell(C, log, k, 0)
  {
    var c := At(C, log, k);
    var lap, start := LapOf(C, c, 0), StartIndex(C, c.idx);
    var lap' := lap + 1;
    assert LapBase(C, lap') + start == Pos(C, log, k, 0) + C by {
      LapAndCell(C, c, 0);
    }
    assert EndAt(C, log, k + 1) <= Pos(C, log, k, 0) + C by { EndAtNext(C, log, k); }
    i, j := FrameCovering(C, log, k + 1, |log|, lap', start);
    SamePlace(C, At(C, log, i), j, lap', start);
  }

  /** A tape position has one lap and one cell. */
  lemma SamePlace(C: nat, d: Cursor, j: nat, lap: nat, off: nat)
    requires Capacity(C) && d.idx <= C && j < HEADER + MAX_MESSAGE && off < C
    requires StartPos(C, d) + j == LapBase(C, lap) + off
    ensures Wrap(C, StartIndex(C, d.idx) + j) == off
  {
    LapAndCell(C, d, j);
    LapStep(C, LapOf(C, d, j), lap);
    LapStep(C, lap, LapOf(C, d, j));
  }

  lemma LapsOnly(C: nat, log: Log, k: nat, i: nat, j: nat)
    requires Capacity(C) && k < i < |log| && j < HEADER + |log[i]| && Cell(C, log, i, j) == Cell(C, log, k, 0)
    ensures Pos(C, log, k, 0) + C < EndAt(C, log, |log|)
  {
    EndAtNext(C, log, k);
    Monotone(C, log, k + 1, i);
    EndAtNext(C, log, i);
    SharedCell(C, At(C, log, k), 0, At(C, log, i), j);
    Monotone(C, log, i + 1, |log|);
  }

  lemma LostMeansLapped(C: nat, log: Log, k: nat)
    requires Capacity(C) && k < |log|
    ensures HeaderLost(C, log, k) <==> Pos(C, log, k, 0) + C < EndAt(C, log, |log|)
  {
    if HeaderLost(C, log, k) {
      var i: nat, j: nat :| k < i < |log| && j < HEADER + |log[i]| && Cell(C, log, i, j) == Cell(C, log, k, 0);
      LapsOnly(C, log, k, i, j);
    } else if Pos(C, log, k, 0) + C < EndAt(C, log, |log|) {
      var i, j := LappingFrame(C, log, k);
    }
  }

  /**
   * Exactly when the next header is gone: the lag plus the tails skipped since exceed the ring.
   * So the comparison `lag > C` by itself never raises a false alarm, and misses a lost header only
   * while the lag is in (C - (HEADER - 1), C].
   */
  lemma AlarmVersusLoss(C: nat, log: Log, k: nat)
    requires Capacity(C) && k < |log|
    ensures HeaderLost(C, log, k) <==> Unread(C, log, k) + SkippedAfter(C, log, k) > C
    ensures Unread(C, log, k) > C ==> HeaderLost(C, log, k)
    ensures HeaderLost(C, log, k) ==> Unread(C, log, k) > C - (HEADER - 1)
  {
    LostMeansLapped(C, log, k);
    EndAtNext(C, log, k);
    PositionConserved(C, log, k);
    PositionConserved(C, log, |log|);
    Monotone(C, log, k + 1, |log|);
    if Unread(C, log, k) <= C {
      Distance(C, log, k, |log|);
    }
  }

  /** The cursor after one more frame. */
  lemma CursorAfter(C: nat, log: Log, k: nat, c: Cursor)
    requires Capacity(C) && k < |log| && At(C, log, k) == c
    ensures At(C, log, k + 1) == Advance(C, c, |log[k]|)
  {
  }

  /**
   * The writer is a whole number of rings ahead, so that the index test takes the reader to be up to date.
   * Index 0 is never announced once something was written.
   */
  ghost predicate WholeRingsAhead(C: nat, log: Log, k: nat, idx: nat)
    requires Capacity(C) && k <= |log|
  {
    idx != 0 && RingsApart(C, log, k)
  }

  /** The index test takes a reader with unread messages to be up to date exactly in that case. */
  lemma IndexTestIsWholeRings(C: nat, log: Log, k: nat, idx: nat)
    requires Capacity(C) && k < |log| && AtBoundary(C, log, k, idx)
    ensures idx == At(C, log, |log|).idx <==> WholeRingsAhead(C, log, k, idx)
  {
    if idx != 0 {
      EmptinessTestAliases(C, log, k);
    }
  }

  /** The next header is gone, counted by the caller's numbers. */
  predicate Lapped(C: nat, log: Log, k: nat)
    requires Capacity(C)
  {
    k < |log| && Unread(C, log, k) + SkippedAfter(C, log, k) > C
  }

  /** The next message, if there is one, is in the ring, and the index test sees it. */
  ghost predicate InReach(C: nat, log: Log, k: nat, idx: nat)
    requires Capacity(C)
  {
    k == |log| || (k < |log| && !Lapped(C, log, k) && !WholeRingsAhead(C, log, k, idx))
  }

  /** A plain bound that suffices: at most C - HEADER bytes unread. */
  lemma NarrowWindow(C: nat, log: Log, k: nat, idx: nat)
    requires Capacity(C) && AtBoundary(C, log, k, idx) && Unread(C, log, k) <= C - HEADER
    ensures InReach(C, log, k, idx)
  {
    if k < |log| {
      AlarmVersusLoss(C, log, k);
      EmptinessTestIsExact(C, log, k, idx);
      IndexTestIsWholeRings(C, log, k, idx);
    }
  }
}
