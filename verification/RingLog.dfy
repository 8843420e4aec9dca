/**
 * Where the frames of a log of messages lie in a ring of C bytes.
 *
 * A cursor is a frame boundary. Its index is the one the program keeps, in [0..C]; `laps`, `seq`
 * and `skipped` are history: laps * C + idx is a position on an endless tape that the ring
 * shows the last C bytes of.
 */
module RingLog {
  import opened Bytes

  /** Room for one whole frame; the space to the end fits an `int`. */
  predicate Capacity(C: nat) {
    HEADER + MAX_MESSAGE <= C <= 0x7fff_ffff
  }

  /** The ring cell of an offset that ran past the end at most once. */
  function Wrap(C: nat, i: nat): (r: nat)
    requires i < 2 * C
    ensures r < C
  {
    if i < C then i else i - C
  }

  predicate HeaderFits(C: nat, idx: nat)
    requires idx <= C
  {
    C - idx >= HEADER
  }

  /** Where the frame after index idx starts: the tail is skipped when it cannot hold a header. */
  function StartIndex(C: nat, idx: nat): (r: nat)
    requires Capacity(C) && idx <= C
    ensures r + HEADER <= C
  {
    if HeaderFits(C, idx) then idx else 0
  }

  /** The index after a frame with n message bytes: never 0, and C after an exact fit. */
  function NextIndex(C: nat, idx: nat, n: nat): (r: nat)
    requires Capacity(C) && idx <= C && n <= MAX_MESSAGE
    ensures 1 <= r <= C
  {
    var e := StartIndex(C, idx) + HEADER + n;
    if e <= C then e else e - C
  }

  datatype Cursor = Cursor(laps: nat, idx: nat, seqNum: nat, skipped: nat)

  function Skip(C: nat, idx: nat): (r: nat)
    requires idx <= C
    ensures r < HEADER
  {
    if HeaderFits(C, idx) then 0 else C - idx
  }

  function Advance(C: nat, c: Cursor, n: nat): (r: Cursor)
    requires Capacity(C) && c.idx <= C && n <= MAX_MESSAGE
    ensures 1 <= r.idx <= C
  {
    var wraps := !HeaderFits(C, c.idx) || c.idx + HEADER + n > C;
    Cursor(if wraps then c.laps + 1 else c.laps, NextIndex(C, c.idx, n),
           c.seqNum + HEADER + n, c.skipped + Skip(C, c.idx))
  }

  /** The tape position where a lap begins. */
  function LapBase(C: nat, lap: nat): nat {
    if lap == 0 then 0 else LapBase(C, lap - 1) + C
  }

  lemma {:induction false} LapBaseIsProduct(C: nat, lap: nat)
    ensures LapBase(C, lap) == lap * C
  {
    if lap > 0 {
      LapBaseIsProduct(C, lap - 1);
    }
  }

  /** The tape position of a cursor, and of the frame that follows it. */
  function EndPos(C: nat, c: Cursor): nat {
    LapBase(C, c.laps) + c.idx
  }

  function StartPos(C: nat, c: Cursor): nat
    requires c.idx <= C
  {
    EndPos(C, c) + Skip(C, c.idx)
  }

  lemma AdvancePos(C: nat, c: Cursor, n: nat)
    requires Capacity(C) && c.idx <= C && n <= MAX_MESSAGE
    ensures EndPos(C, Advance(C, c, n)) == StartPos(C, c) + HEADER + n
  {
  }

  // ----- Logs -----

  type Message = m: seq<byte> | |m| <= MAX_MESSAGE
  type Log = seq<Message>

  /** The cursor after the first k frames of the log. */
  function At(C: nat, log: Log, k: nat): (c: Cursor)
    requires Capacity(C) && k <= |log|
    ensures c.idx <= C
    ensures k > 0 ==> c.idx >= 1
  {
    if k == 0 then Cursor(0, 0, 0, 0) else Advance(C, At(C, log, k - 1), |log[k - 1]|)
  }

  /** Messages appended later do not move earlier frames. */
  lemma {:induction false} AtPrefix(C: nat, log: Log, more: Log, k: nat)
    requires Capacity(C) && k <= |log|
    ensures At(C, log + more, k) == At(C, log, k)
  {
    if k > 0 {
      AtPrefix(C, log, more, k - 1);
      assert (log + more)[k - 1] == log[k - 1];
    }
  }

  function SeqAt(C: nat, log: Log, k: nat): nat
    requires Capacity(C) && k <= |log|
  {
    At(C, log, k).seqNum
  }

  function EndAt(C: nat, log: Log, k: nat): nat
    requires Capacity(C) && k <= |log|
  {
    EndPos(C, At(C, log, k))
  }

  /** Tape position and ring cell of byte j of frame i. */
  function Pos(C: nat, log: Log, i: nat, j: nat): nat
    requires Capacity(C) && i < |log|
  {
    StartPos(C, At(C, log, i)) + j
  }

  function Cell(C: nat, log: Log, i: nat, j: nat): (r: nat)
    requires Capacity(C) && i < |log| && j < HEADER + |log[i]|
    ensures r < C
  {
    Wrap(C, StartIndex(C, At(C, log, i).idx) + j)
  }

  lemma EndAtNext(C: nat, log: Log, i: nat)
    requires Capacity(C) && i < |log|
    ensures EndAt(C, log, i + 1) == Pos(C, log, i, HEADER + |log[i]|)
    ensures EndAt(C, log, i) <= Pos(C, log, i, 0)
    ensures SeqAt(C, log, i + 1) == SeqAt(C, log, i) + HEADER + |log[i]|
  {
    AdvancePos(C, At(C, log, i), |log[i]|);
  }

  lemma {:induction false} Monotone(C: nat, log: Log, i: nat, k: nat)
    requires Capacity(C) && i <= k <= |log|
    ensures At(C, log, i).laps <= At(C, log, k).laps
    ensures At(C, log, i).skipped <= At(C, log, k).skipped
    ensures SeqAt(C, log, k) >= SeqAt(C, log, i) + HEADER * (k - i)
    ensures EndAt(C, log, k) >= EndAt(C, log, i) + HEADER * (k - i)
  {
    if i < k {
      Monotone(C, log, i, k - 1);
      EndAtNext(C, log, k - 1);
    }
  }

  /**
   * Position conservation: the tape position is the bytes counted by the sequence number plus the
   * tail bytes skipped, and a lap skips at most HEADER - 1 of them.
   */
  lemma {:induction false} PositionConserved(C: nat, log: Log, k: nat)
    requires Capacity(C) && k <= |log|
    ensures var c := At(C, log, k);
            && EndPos(C, c) == c.laps * C + c.idx == c.seqNum + c.skipped
            && c.skipped <= (HEADER - 1) * c.laps
  {
    if k > 0 {
      PositionConserved(C, log, k - 1);
      AdvancePos(C, At(C, log, k - 1), |log[k - 1]|);
      LapBaseIsProduct(C, At(C, log, k - 1).laps);
    }
    LapBaseIsProduct(C, At(C, log, k).laps);
  }

  // ----- Laps -----

  lemma {:induction false} LapStep(C: nat, a: nat, b: nat)
    ensures a <= b ==> LapBase(C, a) <= LapBase(C, b)
    ensures a < b ==> LapBase(C, a) + C <= LapBase(C, b)
  {
    if a < b {
      LapStep(C, a, b - 1);
    }
  }

  function LapOf(C: nat, c: Cursor, j: nat): nat
    requires Capacity(C) && c.idx <= C
  {
    c.laps + (if HeaderFits(C, c.idx) then 0 else 1) + (if StartIndex(C, c.idx) + j < C then 0 else 1)
  }

  /** A tape position is a lap and a cell. */
  lemma LapAndCell(C: nat, c: Cursor, j: nat)
    requires Capacity(C) && c.idx <= C && j < HEADER + MAX_MESSAGE
    ensures StartPos(C, c) + j == LapBase(C, LapOf(C, c, j)) + Wrap(C, StartIndex(C, c.idx) + j)
  {
  }

  /** Bytes that share a cell are at least a whole ring apart on the tape. */
  lemma SharedCell(C: nat, c: Cursor, j: nat, d: Cursor, k: nat)
    requires Capacity(C) && c.idx <= C && d.idx <= C
    requires j < HEADER + MAX_MESSAGE && k < HEADER + MAX_MESSAGE
    requires Wrap(C, StartIndex(C, c.idx) + j) == Wrap(C, StartIndex(C, d.idx) + k)
    requires StartPos(C, c) + j < StartPos(C, d) + k
    ensures StartPos(C, c) + j + C <= StartPos(C, d) + k
  {
    LapAndCell(C, c, j);
    LapAndCell(C, d, k);
    LapStep(C, LapOf(C, c, j), LapOf(C, d, k));
    LapStep(C, LapOf(C, d, k), LapOf(C, c, j));
  }

  /**
   * While no more than a ring of bytes is published between two boundaries, at most one tail is
   * skipped between them: the second skip needs a whole lap in between.
   * `lap` is the lap that the first skip entered.
   */
  lemma {:induction false} SkipOnce(C: nat, log: Log, i: nat, k: nat) returns (lap: nat)
    requires Capacity(C) && i <= k <= |log|
    ensures var a, b := At(C, log, i), At(C, log, k);
            || b.skipped == a.skipped
            || b.seqNum - a.seqNum > C
            || (b.skipped - a.skipped < HEADER && lap <= b.laps
                && b.seqNum - a.seqNum + LapBase(C, lap) >= EndPos(C, b))
  {
    lap := 0;
    if i < k {
      var a, b, n := At(C, log, i), At(C, log, k - 1), |log[k - 1]|;
      lap := SkipOnce(C, log, i, k - 1);
      Monotone(C, log, i, k - 1);
      AdvancePos(C, b, n);
      LapStep(C, lap, b.laps);
      if !HeaderFits(C, b.idx) && b.skipped == a.skipped {
        lap := b.laps + 1;
      }
    }
  }

  /** The lag ignores skipped tails, but within a ring of bytes it misses at most HEADER - 1. */
  lemma Distance(C: nat, log: Log, i: nat, k: nat)
    requires Capacity(C) && i <= k <= |log|
    requires SeqAt(C, log, k) - SeqAt(C, log, i) <= C
    ensures EndAt(C, log, k) - EndAt(C, log, i) - (SeqAt(C, log, k) - SeqAt(C, log, i)) < HEADER
    ensures EndAt(C, log, k) - EndAt(C, log, i) >= SeqAt(C, log, k) - SeqAt(C, log, i)
  {
    var lap := SkipOnce(C, log, i, k);
    Monotone(C, log, i, k);
    PositionConserved(C, log, i);
    PositionConserved(C, log, k);
  }

  /** Equal indices less than a ring apart are the same boundary: indices 0 and C do not alias. */
  lemma NoAlias(C: nat, log: Log, i: nat, k: nat)
    requires Capacity(C) && i <= k <= |log|
    requires EndAt(C, log, k) < EndAt(C, log, i) + C
    ensures At(C, log, i).idx == At(C, log, k).idx <==> i == k
  {
    Monotone(C, log, i, k);
    LapStep(C, At(C, log, i).laps, At(C, log, k).laps);
  }

  /** A position between two boundaries that is not in a skipped tail belongs to a frame. */
  lemma {:induction false} FrameCovering(C: nat, log: Log, a: nat, b: nat, lap: nat, off: nat)
    returns (i: nat, j: nat)
    requires Capacity(C) && a <= b <= |log|
    requires EndAt(C, log, a) <= LapBase(C, lap) + off < EndAt(C, log, b)
    requires off + HEADER <= C
    ensures a <= i < b && j < HEADER + |log[i]| && Pos(C, log, i, j) == LapBase(C, lap) + off
  {
    var p, c := LapBase(C, lap) + off, At(C, log, b - 1);
    EndAtNext(C, log, b - 1);
    if p < EndPos(C, c) {
      i, j := FrameCovering(C, log, a, b - 1, lap, off);
    } else {
      LapStep(C, lap, c.laps);
      LapStep(C, c.laps, lap);
      assert p >= StartPos(C, c);
      i, j := b - 1, p - StartPos(C, c);
    }
  }
}
