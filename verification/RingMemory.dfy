/**
 * One `Write` and one `Read` as functions on the shared memory, stated without the branches
 * of the program: a frame occupies consecutive cells modulo the capacity.
 */
module RingMemory {
  import opened Bytes
  import opened RingLog

  /** The shared state: the ring bytes and the three atomics. */
  datatype Shared = Shared(ring: seq<byte>, readIdx: nat, writeIdx: nat, seqNum: nat)

  predicate WellFormed(C: nat, sh: Shared) {
    Capacity(C) && |sh.ring| == C && sh.seqNum < TWO64
  }

  // ----- What a split write delivers -----

  /** Byte k from the start of the caller's buffer; `past` is the memory that follows the buffer. */
  function SourceByte(m: Message, past: nat -> byte, k: nat): byte {
    if k < |m| then m[k] else past(k - |m|)
  }

  /** The `len` bytes from offset `at` on of the caller's buffer and the memory that follows it. */
  function Source(m: Message, past: nat -> byte, at: nat, len: nat): (b: seq<byte>)
    ensures |b| == len && forall k :: 0 <= k < len ==> b[k] == SourceByte(m, past, at + k)
  {
    seq(len, k requires 0 <= k => SourceByte(m, past, at + k))
  }

  /** The header fits before the end of the ring but the message does not. */
  predicate Splits(C: nat, idx: nat, n: nat)
    requires idx <= C
  {
    HeaderFits(C, idx) && idx + HEADER + n > C
  }

  /** How many message bytes of a split frame lie at the start of the ring. */
  function Rest(C: nat, idx: nat, n: nat): (r: nat)
    requires idx <= C && Splits(C, idx, n)
    ensures 1 <= r <= n
  {
    idx + HEADER + n - C
  }

  /**
   * The message bytes that reach the ring. The second copy of a split write takes its source at
   * offset Rest from the start of the caller's buffer, where the reader expects offset n - Rest.
   */
  function Delivered(C: nat, idx: nat, m: Message, past: nat -> byte): (d: Message)
    requires idx <= C
    ensures |d| == |m|
  {
    if Splits(C, idx, |m|) then
      var r := Rest(C, idx, |m|);
      m[..|m| - r] + Source(m, past, r, r)
    else m
  }

  /** The bytes behind a caller's buffer. */
  function Behind(past: nat -> byte, k: nat): (b: seq<byte>)
    ensures |b| == k && forall i :: 0 <= i < k ==> b[i] == past(i)
  {
    seq(k, i requires 0 <= i => past(i))
  }

  /**
   * What a split write delivers, message by message: everything before the wrap, and behind it as many bytes of
   * the message as lie there, but from that offset on; where the message ends before them, the bytes that
   * follow the caller's buffer.
   */
  lemma SplitDelivers(C: nat, idx: nat, m: Message, past: nat -> byte)
    requires idx <= C && Splits(C, idx, |m|)
    ensures var n, r, d := |m|, Rest(C, idx, |m|), Delivered(C, idx, m, past);
            && d[..n - r] == m[..n - r]
            && d[n - r..] == (if 2 * r <= n then m[r..2 * r] else m[r..] + Behind(past, 2 * r - n))
  {
    var n, r := |m|, Rest(C, idx, |m|);
    var tail := if 2 * r <= n then m[r..2 * r] else m[r..] + Behind(past, 2 * r - n);
    assert Source(m, past, r, r) == tail;
    assert Delivered(C, idx, m, past) == m[..n - r] + tail;
  }

  /**
   * So a message that splits survives if and only if the bytes that go behind the wrap repeat the ones at the
   * offset they are taken from; and what follows the buffer matters only where the message ends before them.
   */
  lemma SplitSurvives(C: nat, idx: nat, m: Message, past: nat -> byte)
    requires idx <= C && Splits(C, idx, |m|)
    ensures var n, r := |m|, Rest(C, idx, |m|);
            && (2 * r <= n ==> (Delivered(C, idx, m, past) == m <==> m[n - r..] == m[r..2 * r]))
            && (2 * r > n ==> (Delivered(C, idx, m, past) == m <==> m[n - r..] == m[r..] + Behind(past, 2 * r - n)))
    ensures 2 * Rest(C, idx, |m|) <= |m| ==>
              forall other: nat -> byte :: Delivered(C, idx, m, other) == Delivered(C, idx, m, past)
  {
    var n, r, d := |m|, Rest(C, idx, |m|), Delivered(C, idx, m, past);
    SplitDelivers(C, idx, m, past);
    assert d == d[..n - r] + d[n - r..] && m == m[..n - r] + m[n - r..];
    if 2 * r <= n {
      forall other: nat -> byte ensures Delivered(C, idx, m, other) == d {
        SplitDelivers(C, idx, m, other);
        var o := Delivered(C, idx, m, other);
        assert o == o[..n - r] + o[n - r..];
      }
    }
  }

  /** A message that does not split is delivered as it is. */
  lemma UnsplitDelivers(C: nat, idx: nat, m: Message, past: nat -> byte)
    requires idx <= C && !Splits(C, idx, |m|)
    ensures Delivered(C, idx, m, past) == m
  {
  }

  /** The geometry for which every message of a size is delivered unchanged. */
  predicate DeliversAll(C: nat, idx: nat, n: nat)
    requires idx <= C
  {
    Splits(C, idx, n) ==> 2 * Rest(C, idx, n) == n
  }

  /** A message whose split write stores a wrong byte: one non-zero byte, first after the wrap. */
  function Marker(n: nat, at: nat): (m: Message)
    requires at < n <= MAX_MESSAGE
    ensures |m| == n && forall i :: 0 <= i < n ==> m[i] == (if i == at then 1 else 0)
  {
    seq(n, i => if i == at then 1 else 0)
  }

  /** The literal copy delivers every message of n bytes exactly when it does not split or splits in half. */
  lemma DeliveredIffAligned(C: nat, idx: nat, n: nat)
    requires idx <= C && n <= MAX_MESSAGE
    ensures (forall m: Message, past: nat -> byte | |m| == n :: Delivered(C, idx, m, past) == m)
            <==> DeliversAll(C, idx, n)
  {
    if !DeliversAll(C, idx, n) {
      var r := Rest(C, idx, n);
      var m, past := Marker(n, n - r), (k: nat) => 0 as byte;
      assert Delivered(C, idx, m, past)[n - r] == SourceByte(m, past, r) == 0;
      assert m[n - r] == 1;
    } else {
      forall m: Message, past: nat -> byte | |m| == n ensures Delivered(C, idx, m, past) == m {
        var d := Delivered(C, idx, m, past);
        forall i | 0 <= i < n ensures d[i] == m[i] {
          if Splits(C, idx, n) && i >= n / 2 {
            assert d[i] == SourceByte(m, past, Rest(C, idx, n) + (i - n / 2));
          }
        }
      }
    }
  }

  /** A concrete failure: two message bytes before the wrap, one after. */
  lemma SplitWriteMisdelivers(C: nat, m: Message, past: nat -> byte)
    requires Capacity(C) && m == [1, 2, 3]
    ensures Splits(C, C - 6, 3) && Delivered(C, C - 6, m, past) == [1, 2, 2]
  {
    assert Rest(C, C - 6, 3) == 1;
    var d := Delivered(C, C - 6, m, past);
    assert d == m[..2] + Source(m, past, 1, 1);
    assert d == [1, 2, 2];
  }

  // ----- Write -----

  /** Whether cell i is one of the `len` cells from `start` on, modulo the capacity. */
  predicate Covers(C: nat, start: nat, len: nat, i: nat) {
    start <= i < start + len || i + C < start + len
  }

  /** The ring with the bytes f laid from cell `start` on, modulo the capacity. */
  function Overlay(C: nat, ring: seq<byte>, start: nat, f: seq<byte>): (r: seq<byte>)
    requires |ring| == C && start < C && |f| <= C
    ensures |r| == C
    ensures forall j :: 0 <= j < |f| ==> r[Wrap(C, start + j)] == f[j]
    ensures forall i :: 0 <= i < C && !Covers(C, start, |f|, i) ==> r[i] == ring[i]
  {
    seq(C, i requires 0 <= i < C =>
      if start <= i < start + |f| then f[i - start]
      else if i + C < start + |f| then f[i + C - start]
      else ring[i])
  }

  /** The shared memory after one write from writer index idx. */
  function AfterWrite(C: nat, sh: Shared, idx: nat, seqNum: nat, m: Message, past: nat -> byte): (r: Shared)
    requires WellFormed(C, sh) && idx <= C
    ensures WellFormed(C, r)
  {
    var next := NextIndex(C, idx, |m|);
    Shared(Overlay(C, sh.ring, StartIndex(C, idx), Frame(Delivered(C, idx, m, past))),
           next, next, Add64(seqNum, HEADER + |m|))
  }

  // ----- Read -----

  /** INT_MIN, returned when the reader was overwritten. */
  const OVERWRITTEN: int := -0x8000_0000

  datatype Outcome = Outcome(ret: int, idx: nat, seqNum: nat, buffer: seq<byte>)

  function HeaderIn(ring: seq<byte>, start: nat): (n: int)
    requires start + HEADER <= |ring|
    ensures -0x8000_0000 <= n < 0x8000_0000
  {
    DecodeHeader(ring[start..start + HEADER])
  }

  function PayloadIn(C: nat, ring: seq<byte>, start: nat, n: nat): (p: seq<byte>)
    requires |ring| == C && start + HEADER + n < 2 * C
    ensures |p| == n
  {
    seq(n, i requires 0 <= i < n => ring[Wrap(C, start + HEADER + i)])
  }

  /**
   * One read by a reader at index idx whose sequence number is seqNum, into a buffer. The ring
   * bytes may be anything, a torn header included.
   */
  function ReadOutcome(C: nat, sh: Shared, idx: nat, seqNum: nat, buffer: seq<byte>): (o: Outcome)
    requires WellFormed(C, sh) && idx <= C && seqNum < TWO64
    ensures o.idx <= C && o.seqNum < TWO64 && |o.buffer| == |buffer|
    ensures o.ret == OVERWRITTEN || -1 <= o.ret <= |buffer|
    ensures forall i :: 0 <= i < |buffer| && i >= o.ret != OVERWRITTEN ==> o.buffer[i] == buffer[i]
  {
    if idx == sh.readIdx then
      Outcome(0, idx, seqNum, buffer)
    else if Sub64(sh.seqNum, seqNum) > C then
      Outcome(OVERWRITTEN, idx, seqNum, buffer)
    else
      var start := StartIndex(C, idx);
      var n := HeaderIn(sh.ring, start);
      if n < 0 || n > MAX_MESSAGE || n > |buffer| then
        Outcome(-1, start, seqNum, buffer)
      else
        var seqNum' := Add64(seqNum, HEADER + n);
        var ret := if Sub64(sh.seqNum, seqNum') > C then OVERWRITTEN else n;
        Outcome(ret, NextIndex(C, idx, n), seqNum', PayloadIn(C, sh.ring, start, n) + buffer[n..])
  }

  // ----- The ring holds the end of the log -----

  /** Byte j of frame i lies less than a ring below tape position `high`. */
  ghost predicate Due(C: nat, log: Log, high: nat, i: nat, j: nat)
    requires Capacity(C)
  {
    i < |log| && j < HEADER + |log[i]| && Pos(C, log, i, j) + C >= high
  }

  ghost predicate InPlace(C: nat, log: Log, ring: seq<byte>, i: nat, j: nat)
    requires Capacity(C) && |ring| == C && i < |log| && j < HEADER + |log[i]|
  {
    ring[Cell(C, log, i, j)] == Frame(log[i])[j]
  }

  ghost predicate Holds(C: nat, log: Log, ring: seq<byte>, high: nat) {
    && Capacity(C) && |ring| == C
    && forall i: nat, j: nat :: Due(C, log, high, i, j) ==> InPlace(C, log, ring, i, j)
  }

  /** The first free tape position after a message of n bytes is added to the log. */
  function HighAfter(C: nat, log: Log, n: nat): nat
    requires Capacity(C) && n <= MAX_MESSAGE
  {
    EndPos(C, Advance(C, At(C, log, |log|), n))
  }

  /** The cell of byte j of the frame that comes after the log. */
  function NextCell(C: nat, log: Log, j: nat): (r: nat)
    requires Capacity(C) && j < HEADER + MAX_MESSAGE
    ensures r < C
  {
    Wrap(C, StartIndex(C, At(C, log, |log|).idx) + j)
  }

  /** The tape position up to which cells are stored to when the frame after the log has its first j bytes. */
  function StoredPos(C: nat, log: Log, j: nat): nat
    requires Capacity(C)
  {
    if j == 0 then EndAt(C, log, |log|) else StartPos(C, At(C, log, |log|)) + j
  }

  lemma StoredAll(C: nat, log: Log, n: nat)
    requires Capacity(C) && n <= MAX_MESSAGE
    ensures StoredPos(C, log, HEADER + n) == HighAfter(C, log, n)
  {
    AdvancePos(C, At(C, log, |log|), n);
  }

  /** Byte j of the frame after the log shares no cell with a byte that is due once it is stored. */
  lemma NextCellIsFree(C: nat, log: Log, j: nat, i: nat, k: nat)
    requires Capacity(C) && j < HEADER + MAX_MESSAGE
    requires Due(C, log, StoredPos(C, log, j + 1), i, k)
    ensures Cell(C, log, i, k) != NextCell(C, log, j)
  {
    var b, c := At(C, log, i), At(C, log, |log|);
    EndAtNext(C, log, i);
    Monotone(C, log, i + 1, |log|);
    assert StartPos(C, b) + k < StartPos(C, c) + j < StartPos(C, b) + k + C;
    if Cell(C, log, i, k) == NextCell(C, log, j) {
      SharedCell(C, b, k, c, j);
    }
  }

  /** Storing byte j of the frame after the log hits no byte that is then still due. */
  lemma StoreKeeps(C: nat, log: Log, ring: seq<byte>, j: nat, b: byte)
    requires Capacity(C) && j < HEADER + MAX_MESSAGE
    requires Holds(C, log, ring, StoredPos(C, log, j))
    ensures Holds(C, log, ring[NextCell(C, log, j) := b], StoredPos(C, log, j + 1))
    ensures StoredPos(C, log, j) < StoredPos(C, log, j + 1)
  {
    var high, ring' := StoredPos(C, log, j + 1), ring[NextCell(C, log, j) := b];
    HoldsLess(C, log, ring, StoredPos(C, log, j), high);
    forall i: nat, k: nat | Due(C, log, high, i, k) ensures InPlace(C, log, ring', i, k) {
      NextCellIsFree(C, log, j, i, k);
      assert InPlace(C, log, ring, i, k);
    }
  }

  /** Once all its bytes are stored, the new frame belongs to the log that the ring holds. */
  lemma HoldsNext(C: nat, log: Log, ring: seq<byte>, m: Message)
    requires Capacity(C) && Holds(C, log, ring, HighAfter(C, log, |m|))
    requires forall j: nat :: j < HEADER + |m| ==> ring[NextCell(C, log, j)] == Frame(m)[j]
    ensures Holds(C, log + [m], ring, EndAt(C, log + [m], |log| + 1))
    ensures EndAt(C, log + [m], |log| + 1) == HighAfter(C, log, |m|)
  {
    var log', high := log + [m], HighAfter(C, log, |m|);
    AtPrefix(C, log, [m], |log|);
    forall i: nat, j: nat | Due(C, log', high, i, j) ensures InPlace(C, log', ring, i, j) {
      if i < |log| {
        AtPrefix(C, log, [m], i);
        assert log'[i] == log[i];
        assert Due(C, log, high, i, j);
        assert InPlace(C, log, ring, i, j);
      } else {
        assert log'[i] == m;
        assert Cell(C, log', i, j) == NextCell(C, log, j);
      }
    }
  }

  /** The window only ever moves up. */
  lemma HoldsLess(C: nat, log: Log, ring: seq<byte>, high: nat, high': nat)
    requires Holds(C, log, ring, high) && high <= high'
    ensures Holds(C, log, ring, high')
  {
    forall i: nat, j: nat | Due(C, log, high', i, j) ensures InPlace(C, log, ring, i, j) {
      assert Due(C, log, high, i, j);
    }
  }

  /** Laying a whole frame after the log keeps the rest of the window. */
  lemma OverlayHolds(C: nat, log: Log, ring: seq<byte>, m: Message)
    requires Capacity(C) && Holds(C, log, ring, EndAt(C, log, |log|))
    ensures var start := StartIndex(C, At(C, log, |log|).idx);
            Holds(C, log + [m], Overlay(C, ring, start, Frame(m)), EndAt(C, log + [m], |log| + 1))
  {
    var c, high := At(C, log, |log|), HighAfter(C, log, |m|);
    var start := StartIndex(C, c.idx);
    var ring' := Overlay(C, ring, start, Frame(m));
    AdvancePos(C, c, |m|);
    forall i: nat, k: nat | Due(C, log, high, i, k) ensures InPlace(C, log, ring', i, k) {
      assert InPlace(C, log, ring, i, k) by { assert Due(C, log, EndAt(C, log, |log|), i, k); }
      var cell := Cell(C, log, i, k);
      if Covers(C, start, |Frame(m)|, cell) {
        var j := if start <= cell then cell - start else cell + C - start;
        assert Due(C, log, StoredPos(C, log, j + 1), i, k);
        NextCellIsFree(C, log, j, i, k);
      }
    }
    HoldsNext(C, log, ring', m);
  }

  /** Every byte of a frame whose first byte is due. */
  lemma DueByte(C: nat, log: Log, ring: seq<byte>, high: nat, k: nat, j: nat)
    requires Capacity(C) && Holds(C, log, ring, high) && Due(C, log, high, k, 0)
    requires j < HEADER + |log[k]|
    ensures ring[Wrap(C, StartIndex(C, At(C, log, k).idx) + j)] == Frame(log[k])[j]
  {
    assert Due(C, log, high, k, j);
    assert InPlace(C, log, ring, k, j);
  }

  /** A message whose frame lies from cell `start` on is what a reader finds there. */
  lemma FrameInPlace(C: nat, ring: seq<byte>, start: nat, m: Message)
    requires Capacity(C) && |ring| == C && start + HEADER <= C
    requires forall j: nat :: j < HEADER + |m| ==> ring[Wrap(C, start + j)] == Frame(m)[j]
    ensures HeaderIn(ring, start) == |m| && PayloadIn(C, ring, start, |m|) == m
  {
    var header, payload := ring[start..start + HEADER], PayloadIn(C, ring, start, |m|);
    FrameDecodes(m);
    forall j: nat | j < HEADER ensures header[j] == Frame(m)[j] {
      assert Wrap(C, start + j) == start + j;
    }
    assert header == Frame(m)[..HEADER];
    forall i: nat | i < |m| ensures payload[i] == m[i] {
      assert payload[i] == ring[Wrap(C, start + (HEADER + i))];
    }
  }

  /** A frame whose first byte is due is read back whole. */
  lemma FrameReadsBack(C: nat, log: Log, ring: seq<byte>, high: nat, k: nat)
    requires Capacity(C) && Holds(C, log, ring, high) && Due(C, log, high, k, 0)
    ensures var start := StartIndex(C, At(C, log, k).idx);
            HeaderIn(ring, start) == |log[k]| && PayloadIn(C, ring, start, |log[k]|) == log[k]
  {
    var start, m := StartIndex(C, At(C, log, k).idx), log[k];
    forall j: nat | j < |Frame(m)| ensures ring[Wrap(C, start + j)] == Frame(m)[j] {
      DueByte(C, log, ring, high, k, j);
    }
    FrameInPlace(C, ring, start, m);
  }
}
