/** The writer and reader objects over one mapped ring, with the branches and copies of the program. */
module RingBuffer {
  import opened Bytes
  import opened RingLog
  import opened RingMemory
  import opened Modular

  function Splice(s: seq<byte>, at: nat, f: seq<byte>): (r: seq<byte>)
    requires at + |f| <= |s|
    ensures |r| == |s|
  {
    s[..at] + f + s[at + |f|..]
  }

  lemma SpliceTwice(s: seq<byte>, at: nat, f: seq<byte>, g: seq<byte>)
    requires at + |f| + |g| <= |s|
    ensures Splice(Splice(s, at, f), at + |f|, g) == Splice(s, at, f + g)
  {
  }

  lemma SpliceOne(s: seq<byte>, at: nat, f: seq<byte>, k: nat)
    requires at + |f| <= |s| && k < |f|
    ensures Splice(s, at, f[..k])[at + k := f[k]] == Splice(s, at, f[..k + 1])
  {
  }

  /** One run of copies to consecutive cells lays the frame. */
  lemma OverlayInOnePiece(C: nat, ring: seq<byte>, start: nat, f: seq<byte>)
    requires |ring| == C && start < C && start + |f| <= C
    ensures Overlay(C, ring, start, f) == Splice(ring, start, f)
  {
  }

  /** A run up to the end of the ring and one from its start lay the frame. */
  lemma OverlayInTwoPieces(C: nat, ring: seq<byte>, start: nat, f: seq<byte>, g: seq<byte>)
    requires |ring| == C && start < C && start + |f| == C && |f| + |g| <= C
    ensures Overlay(C, ring, start, f + g) == Splice(Splice(ring, start, f), 0, g)
  {
  }

  /** std::memcpy into the middle of an array. */
  method CopyInto(target: array<byte>, at: nat, source: seq<byte>)
    requires at + |source| <= target.Length
    modifies target
    ensures target[..] == Splice(old(target[..]), at, source)
  {
    for k := 0 to |source|
      invariant target[..] == Splice(old(target[..]), at, source[..k])
    {
      ghost var before := target[..];
      target[at + k] := source[k];
      SpliceOne(old(target[..]), at, source, k);
      assert target[..] == before[at + k := source[k]];
    }
    assert source[..|source|] == source;
  }

  /** The two copies that begin every frame: the message size, then message bytes right after it. */
  method StoreFrame(target: array<byte>, at: nat, msgSize: nat, bytes: seq<byte>)
    requires msgSize <= MAX_MESSAGE && at + HEADER + |bytes| <= target.Length
    modifies target
    ensures target[..] == Splice(old(target[..]), at, EncodeHeader(msgSize) + bytes)
  {
    CopyInto(target, at, EncodeHeader(msgSize));
    CopyInto(target, at + HEADER, bytes);
    SpliceTwice(old(target[..]), at, EncodeHeader(msgSize), bytes);
  }

  lemma PayloadInOnePiece(C: nat, ring: seq<byte>, start: nat, n: nat)
    requires |ring| == C && start + HEADER + n <= C && n < C
    ensures PayloadIn(C, ring, start, n) == ring[start + HEADER..start + HEADER + n]
  {
    forall i | 0 <= i < n ensures PayloadIn(C, ring, start, n)[i] == ring[start + HEADER + i] {
      assert Wrap(C, start + HEADER + i) == start + HEADER + i;
    }
  }

  lemma PayloadInTwoPieces(C: nat, ring: seq<byte>, start: nat, n: nat)
    requires |ring| == C && start + HEADER <= C <= start + HEADER + n < 2 * C
    ensures PayloadIn(C, ring, start, n) == ring[start + HEADER..] + ring[..start + HEADER + n - C]
  {
    var p := ring[start + HEADER..] + ring[..start + HEADER + n - C];
    forall i | 0 <= i < n ensures PayloadIn(C, ring, start, n)[i] == p[i] {
      assert PayloadIn(C, ring, start, n)[i] == ring[Wrap(C, start + HEADER + i)];
    }
  }

  /** The shared memory region: ring bytes and the three atomics. */
  class Region {
    const data: array<byte>
    var readIdx: nat
    var writeIdx: nat
    var seqNum: nat

    ghost predicate Valid()
      reads this
    {
      Capacity(data.Length) && readIdx <= data.Length && writeIdx <= data.Length && seqNum < TWO64
    }

    function View(): Shared
      reads this, data
    {
      Shared(data[..], readIdx, writeIdx, seqNum)
    }

    constructor (data: array<byte>)
      ensures this.data == data && (Capacity(data.Length) ==> Valid())
      ensures View() == Shared(data[..], 0, 0, 0)
    {
      this.data := data;
      readIdx, writeIdx, seqNum := 0, 0, 0;
    }
  }

  class Writer {
    const region: Region
    var localIndex: nat
    var localSeqNum: nat
    // The offset of the next write location from the start of the ring.
    var nextElement: nat

    /** Between calls all four copies of the write position agree, an exact fit included. */
    ghost predicate Valid()
      reads this, region
    {
      && region.Valid()
      && nextElement == localIndex == region.readIdx == region.writeIdx
      && localSeqNum == region.seqNum
    }

    constructor (region: Region)
      modifies region
      ensures this.region == region && (Capacity(region.data.Length) ==> Valid())
      ensures localIndex == nextElement == localSeqNum == 0
      ensures region.View() == Shared(old(region.data[..]), 0, 0, 0)
    {
      this.region := region;
      localIndex, localSeqNum := 0, 0;
      new;
      region.readIdx := 0;
      region.writeIdx := 0;
      region.seqNum := 0;
      nextElement := 0;
    }

    /** The first of the two writes of a message that wraps, up to the end of the ring, and the second. */
    method StoreSplit(message: Message, past: nat -> byte, spaceToEnd: nat)
      requires Capacity(region.data.Length) && nextElement + spaceToEnd == region.data.Length
      requires HEADER <= spaceToEnd < HEADER + |message|
      modifies this`nextElement, region.data
      ensures region.data[..] == Overlay(region.data.Length, old(region.data[..]), old(nextElement),
                                         Frame(Delivered(region.data.Length, old(nextElement), message, past)))
      ensures nextElement == HEADER + |message| - spaceToEnd
    {
      ghost var C, ring, idx := region.data.Length, region.data[..], nextElement;
      var msgSize := |message|;
      var bytesRemaining := HEADER + msgSize;
      StoreFrame(region.data, nextElement, msgSize, message[..spaceToEnd - HEADER]);
      nextElement := 0;
      bytesRemaining := bytesRemaining - spaceToEnd;
      var rest := Source(message, past, bytesRemaining, bytesRemaining);
      CopyInto(region.data, nextElement, rest);
      nextElement := nextElement + bytesRemaining;
      ghost var first := EncodeHeader(msgSize) + message[..spaceToEnd - HEADER];
      assert Frame(Delivered(C, idx, message, past)) == first + rest;
      OverlayInTwoPieces(C, ring, idx, first, rest);
    }

    /** A frame in consecutive cells from the next write location on. */
    method StoreWhole(message: Message)
      requires Capacity(region.data.Length) && nextElement + HEADER + |message| <= region.data.Length
      modifies this`nextElement, region.data
      ensures region.data[..] == Overlay(region.data.Length, old(region.data[..]), old(nextElement), Frame(message))
      ensures nextElement == old(nextElement) + HEADER + |message|
    {
      StoreFrame(region.data, nextElement, |message|, message);
      OverlayInOnePiece(region.data.Length, old(region.data[..]), nextElement, Frame(message));
      nextElement := nextElement + HEADER + |message|;
    }

    /**
     * Writes the bytes of a caller's buffer; `past` is the memory behind that buffer, which the second
     * copy of a split write may reach into.
     */
    method Write(writeBuffer: seq<byte>, past: nat -> byte) returns (ok: bool)
      requires Valid()
      modifies this, region, region.data
      ensures Valid()
      ensures ok <==> |writeBuffer| <= MAX_MESSAGE
      ensures !ok ==> unchanged(this) && unchanged(region) && unchanged(region.data)
      ensures ok ==>
        && localIndex >= 1
        && region.View() == AfterWrite(region.data.Length, old(region.View()), old(localIndex),
                                       old(localSeqNum), writeBuffer, past)
    {
      if |writeBuffer| > MAX_MESSAGE {
        return false;
      }
      ghost var C, ring, idx := region.data.Length, region.data[..], localIndex;
      var message: Message := writeBuffer;
      var totalBytesToWrite := HEADER + |message|;
      var spaceToEnd := region.data.Length - localIndex;
      localIndex := localIndex + totalBytesToWrite;
      if totalBytesToWrite <= spaceToEnd {
        region.writeIdx := localIndex;
        StoreWhole(message);
      } else if spaceToEnd >= HEADER {
        ModOnce(localIndex, region.data.Length);
        localIndex := localIndex % region.data.Length;
        region.writeIdx := localIndex;
        StoreSplit(message, past, spaceToEnd);
      } else {
        localIndex := |message| + HEADER;
        region.writeIdx := localIndex;
        nextElement := 0;
        StoreWhole(message);
      }
      localSeqNum := Add64(localSeqNum, totalBytesToWrite);
      region.seqNum := localSeqNum;
      region.readIdx := localIndex;
      ok := true;
    }
  }

  class Reader {
    const region: Region
    var localIndex: nat
    var localSeqNum: nat

    ghost predicate Valid()
      reads this, region
    {
      region.Valid() && localIndex <= region.data.Length && localSeqNum < TWO64
    }

    constructor (region: Region)
      requires region.Valid()
      ensures Valid() && this.region == region
      ensures localIndex == region.readIdx && localSeqNum == region.seqNum
    {
      this.region := region;
      localIndex := region.readIdx;
      localSeqNum := region.seqNum;
    }

    /** The header at the local index. */
    method MessageSize() returns (n: int)
      requires localIndex + HEADER <= region.data.Length
      ensures n == HeaderIn(region.data[..], localIndex)
    {
      assert region.data[localIndex..localIndex + HEADER] == region.data[..][localIndex..localIndex + HEADER];
      n := DecodeHeader(region.data[localIndex..localIndex + HEADER]);
    }

    /** Copies a message that lies in one piece behind its header. */
    method TakeWhole(readBuffer: array<byte>, msgSize: nat)
      requires readBuffer != region.data && msgSize <= readBuffer.Length
      requires msgSize < region.data.Length && localIndex + HEADER + msgSize <= region.data.Length
      modifies this`localIndex, readBuffer
      ensures readBuffer[..] == PayloadIn(region.data.Length, region.data[..], old(localIndex), msgSize)
                             + old(readBuffer[msgSize..])
      ensures localIndex == old(localIndex) + HEADER + msgSize
    {
      PayloadInOnePiece(region.data.Length, region.data[..], localIndex, msgSize);
      CopyInto(readBuffer, 0, region.data[localIndex + HEADER..localIndex + HEADER + msgSize]);
      localIndex := localIndex + HEADER + msgSize;
    }

    /** Copies a message that continues at the start of the ring. */
    method TakeSplit(readBuffer: array<byte>, msgSize: nat, spaceToEnd: nat)
      requires readBuffer != region.data && msgSize <= readBuffer.Length
      requires localIndex + spaceToEnd == region.data.Length
      requires HEADER <= spaceToEnd < HEADER + msgSize <= region.data.Length
      modifies this`localIndex, readBuffer
      ensures readBuffer[..] == PayloadIn(region.data.Length, region.data[..], old(localIndex), msgSize)
                             + old(readBuffer[msgSize..])
      ensures localIndex == HEADER + msgSize - spaceToEnd
    {
      PayloadInTwoPieces(region.data.Length, region.data[..], localIndex, msgSize);
      var msgBytesRead := 0;
      CopyInto(readBuffer, 0, region.data[localIndex + HEADER..]);
      localIndex := 0;
      msgBytesRead := msgBytesRead + (spaceToEnd - HEADER);
      var bytesLeft := HEADER + msgSize - spaceToEnd;
      CopyInto(readBuffer, msgBytesRead, region.data[localIndex..localIndex + bytesLeft]);
      localIndex := localIndex + bytesLeft;
    }

    /**
     * Everything between the two overwrite tests: where the header is, its validation and the copies.
     * Returns -1 when the header is invalid or the buffer too small.
     */
    method TakeMessage(readBuffer: array<byte>) returns (msgSize: int)
      requires Valid() && readBuffer != region.data
      modifies this, readBuffer
      ensures Valid()
      ensures var C, ring := region.data.Length, region.data[..];
              var start := StartIndex(C, old(localIndex));
              var n := HeaderIn(ring, start);
              if n < 0 || n > MAX_MESSAGE || n > readBuffer.Length then
                msgSize == -1 && localIndex == start && localSeqNum == old(localSeqNum)
                && readBuffer[..] == old(readBuffer[..])
              else
                msgSize == n && localIndex == NextIndex(C, old(localIndex), n)
                && localSeqNum == Add64(old(localSeqNum), HEADER + n)
                && readBuffer[..] == PayloadIn(C, ring, start, n) + old(readBuffer[..])[n..]
    {
      var spaceToEnd := region.data.Length - localIndex;
      if spaceToEnd >= HEADER {
        msgSize := MessageSize();
        if msgSize < 0 || msgSize > MAX_MESSAGE {
          return -1;
        }
        if msgSize > readBuffer.Length {
          return -1;
        }
        var totalBytesToRead := HEADER + msgSize;
        if totalBytesToRead <= spaceToEnd {
          TakeWhole(readBuffer, msgSize);
        } else {
          TakeSplit(readBuffer, msgSize, spaceToEnd);
        }
        localSeqNum := Add64(localSeqNum, totalBytesToRead);
      } else {
        localIndex := 0;
        msgSize := MessageSize();
        if msgSize < 0 || msgSize > MAX_MESSAGE {
          return -1;
        }
        if msgSize > readBuffer.Length {
          return -1;
        }
        TakeWhole(readBuffer, msgSize);
        localSeqNum := Add64(localSeqNum, HEADER + msgSize);
      }
    }

    /** Reads one message. Any ring bytes are allowed; nothing shared is changed. */
    method Read(readBuffer: array<byte>) returns (ret: int)
      requires Valid() && readBuffer != region.data
      modifies this, readBuffer
      ensures Valid()
      ensures Outcome(ret, localIndex, localSeqNum, readBuffer[..])
           == ReadOutcome(region.data.Length, region.View(), old(localIndex), old(localSeqNum), old(readBuffer[..]))
    {
      if localIndex == region.readIdx {
        return 0;
      }
      var lag := Sub64(region.seqNum, localSeqNum);
      if lag > region.data.Length {
        return OVERWRITTEN;
      }
      var msgSize := TakeMessage(readBuffer);
      if msgSize < 0 {
        return -1;
      }
      lag := Sub64(region.seqNum, localSeqNum);
      if lag > region.data.Length {
        return OVERWRITTEN;
      }
      return msgSize;
    }
  }
}
