/** A run in which a reader's constructor straddles a publish, and the message that it costs. */
module RingStraddle {
  import opened Bytes
  import opened RingLog
  import opened RingMemory
  import opened RingProtocol
  import opened RingReads
  import opened RingSolo
  import opened RingSteps
  import opened RingWindow

  /** The reader loads readIdx, a whole message is written, and the reader loads seqNum. */
  function Straddle(m: Message, past: nat -> byte): seq<Event> {
    [AttachReader] + ([CallWrite(m, past)] + Times(WriterStep, HEADER + |m| + 3)) + [ReaderStep(0)]
  }

  lemma StraddleForm(C: nat, ring: seq<byte>, m: Message, past: nat -> byte)
    requires Capacity(C) && |ring| == C
    ensures var s := Run(C, Start(ring), Straddle(m, past));
            && s.log == [m] && s.writer.pc == WIdle && |s.readers| == 1
            && var r := s.readers[0];
            && r.pc == RIdle && r.idx == 0 && r.seqNum == s.sh.seqNum && r.got == [] && !r.trusted
  {
    var write := [CallWrite(m, past)] + Times(WriterStep, HEADER + |m| + 3);
    var s1 := Next(C, Start(ring), AttachReader);
    var s2 := Run(C, s1, write);
    RunAdd(C, Start(ring), [AttachReader] + write, [ReaderStep(0)]);
    RunAdd(C, Start(ring), [AttachReader], write);
    RunOne(C, Start(ring), AttachReader);
    SoloWrite(C, s1, m, past);
    assert Delivered(C, 0, m, past) == m;
    assert [] + [m] == [m];
    RunOne(C, s2, ReaderStep(0));
  }

  /** Reachable: everything is published, and the reader is at the first boundary, skewed by the message. */
  lemma StraddledState(C: nat, ring: seq<byte>, m: Message, past: nat -> byte)
    requires Capacity(C) && |ring| == C
    ensures var s := Run(C, Start(ring), Straddle(m, past));
            && s.log == [m] && Published(C, s.log, s.sh)
            && |s.readers| == 1 && s.readers[0].pc == RIdle && s.readers[0].got == []
            && Skewed(C, s.log, 0, s.readers[0].idx, s.readers[0].seqNum, HEADER + |m|)
            && Unread(C, s.log, 0) == HEADER + |m|
  {
    var s := Run(C, Start(ring), Straddle(m, past));
    StraddleForm(C, ring, m, past);
    StartInv(C, ring);
    RunKeepsInv(C, Start(ring), Straddle(m, past));
    EndAtNext(C, s.log, 0);
  }

  /** Its first read passes over the message, which lies intact in the ring, and reports an overwrite. */
  lemma StraddledReader(C: nat, ring: seq<byte>, m: Message, past: nat -> byte, buffer: seq<byte>) returns (n: nat)
    requires Capacity(C) && |ring| == C && |m| <= |buffer| && |m| <= C - 2 * HEADER
    ensures var s := Run(C, Start(ring), Straddle(m, past));
            var s' := Run(C, s, [CallRead(0, |buffer|)] + Times(ReaderStep(0), n));
            && s.log == s'.log == [m] && |s.readers| == |s'.readers| == 1
            && ReadOutcome(C, s.sh, s.readers[0].idx, s.readers[0].seqNum, buffer).ret == OVERWRITTEN
            && s'.readers[0].pc == RIdle && s'.readers[0].got == [] && s'.readers[0].idx == At(C, s'.log, 1).idx
  {
    var s := Run(C, Start(ring), Straddle(m, past));
    StraddledState(C, ring, m, past);
    n := SoloRead(C, s, 0, buffer);
    var r := s.readers[0];
    NarrowWindow(C, s.log, 0, r.idx);
    SkewedRead(C, s.log, s.sh, 0, r.idx, r.seqNum, HEADER + |m|, buffer);
    FirstBoundary(C, m);
  }

  lemma FirstBoundary(C: nat, m: Message)
    requires Capacity(C)
    ensures At(C, [m], 1).idx != 0
  {
  }
}
