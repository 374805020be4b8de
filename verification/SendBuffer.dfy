/** SendBuffer: commands packed in place, closed by a marker, handed to the transport whole. */
module SendBuffers {
  import opened Bytes
  import opened Framing
  import opened RecvBuffers
  import opened Transport
  import opened Wire
  import Batching

  class SendBuffer {
    const mTransport: CommandTransport
    const mBuffer: array<byte>
    var mOffset: nat
    /** The commands in the buffer, and the batches handed to the transport before them. */
    ghost var open: Batch
    ghost var sent: seq<Batch>

    constructor (capacity: nat, transport: CommandTransport)
      requires capacity >= 2 * HEADER_SIZE
      ensures Valid() && fresh(mBuffer)
      ensures mTransport == transport && mBuffer.Length == capacity
      ensures Box() == Batching.Outbox([], [])
    {
      mTransport := transport;
      mBuffer := new byte[capacity];
      mOffset := 0;
      open, sent := [], [];
    }

    /** Whole frames up to `mOffset`, and always room for the marker. */
    ghost predicate Valid()
      reads this, mBuffer
    {
      && mOffset + HEADER_SIZE <= mBuffer.Length
      && 2 * HEADER_SIZE <= mBuffer.Length
      && mBuffer[..mOffset] == EncodeFrames(CommandFrames(open))
    }

    ghost function Box(): Batching.Outbox
      reads this
    {
      Batching.Outbox(sent, open)
    }

    function GetMaximumAllocationSize(): int
      reads this
    {
      mBuffer.Length - 2 * HEADER_SIZE
    }

    method WriteHeader(at: nat, kind: u32, len: u64)
      requires at + HEADER_SIZE <= mBuffer.Length
      modifies mBuffer
      ensures mBuffer[..at] == old(mBuffer[..at])
      ensures mBuffer[at..at + HEADER_SIZE] == Header(kind, len)
    {
      var h := Header(kind, len);
      forall i | 0 <= i < HEADER_SIZE {
        mBuffer[at + i] := h[i];
      }
    }

    method AppendMarker()
      requires Valid()
      modifies this`mOffset, mBuffer
      ensures mOffset == old(mOffset) + HEADER_SIZE <= mBuffer.Length
      ensures mBuffer[..mOffset] == EncodeBatch(open)
      ensures mBuffer[..mOffset] == old(mBuffer[..mOffset]) + [2, 0, 0, 0, 0, 0, 0, 0, 0, 0, 0, 0]
    {
      hide Header, EncodeFrames;
      MarkerBytes();
      WriteHeader(mOffset, MARKER, 0);
      SplitAt(mBuffer[..], mOffset, mOffset + HEADER_SIZE);
      mOffset := mOffset + HEADER_SIZE;
    }

    /** The buffer is emptied whether or not the transport took the batch. */
    method Flush() returns (ok: bool)
      requires Valid()
      modifies this, mBuffer, mTransport`sends, mTransport`wire
      ensures Valid() && Box() == Batching.Flush(old(Box()))
      ensures var t := FlushOn(mTransport.mConnfd, mTransport.outcomes, old(mTransport.sends), old(open));
              && ok == (t.code == 0)
              && mTransport.wire == old(mTransport.wire) + t.taken
              && mTransport.sends == old(mTransport.sends) + t.sends
      ensures old(open) != [] ==>
                mBuffer[..old(mOffset) + 12] == old(mBuffer[..mOffset]) + [2, 0, 0, 0, 0, 0, 0, 0, 0, 0, 0, 0]
    {
      hide Header, EncodeFrames, Transmit;
      Batching.UsedIsLength(open);
      if mOffset <= 0 {
        return true;
      }
      AppendMarker();
      var code := mTransport.Send(mBuffer, mOffset);
      ok := code == 0;
      mOffset := 0;
      sent, open := sent + [open], [];
      EmptyBatch();
    }

    /**
     The offset of `size` writable bytes, or None. What is in them when the next call comes
     is the command.
     */
    method GetCmdSpace(size: nat) returns (space: Option<nat>)
      requires Valid() && size + 2 * HEADER_SIZE < U64
      modifies this, mBuffer, mTransport`sends, mTransport`wire
      ensures Valid()
      ensures var room := size + 24 <= mBuffer.Length;
              var full := old(mOffset) + size + 24 > mBuffer.Length;
              var t := if room && full then FlushOn(mTransport.mConnfd, mTransport.outcomes, old(mTransport.sends), old(open))
                       else Transmission(0, [], 0);
              && (space.Some? <==> room && t.code == 0)
              && mTransport.wire == old(mTransport.wire) + t.taken
              && mTransport.sends == old(mTransport.sends) + t.sends
              && var box := if room && full then Batching.Flush(old(Box())) else old(Box());
                 if space.None? then Box() == box
                 else
                   && space.value + size == mOffset
                   && Box() == box.(open := box.open + [mBuffer[space.value..mOffset]])
                   && 12 <= space.value && IsDataHeader(mBuffer[space.value - 12..space.value], size)
      ensures old(mOffset) == Batching.Used(old(open))
      decreases mOffset
    {
      hide Header, EncodeFrames, IsDataHeader, Batching.Used, Transmit;
      Batching.UsedIsLength(open);
      if size + 2 * HEADER_SIZE > mBuffer.Length {
        return None;
      }
      if mBuffer.Length - size - 2 * HEADER_SIZE < mOffset {
        var ok := Flush();
        if !ok {
          return None;
        }
        Batching.UsedIsLength(open);
        space := GetCmdSpace(size);
        return;
      }
      Append(size);
      return Some(mOffset - size);
    }

    /** The header written and the space behind it claimed. */
    method Append(size: nat)
      requires Valid() && mOffset + size + 2 * HEADER_SIZE <= mBuffer.Length && size < U64
      modifies this`mOffset, this`open, mBuffer
      ensures mOffset == old(mOffset) + HEADER_SIZE + size <= mBuffer.Length
      ensures open == old(open) + [mBuffer[mOffset - size..mOffset]]
      ensures IsDataHeader(mBuffer[mOffset - size - 12..mOffset - size], size)
      ensures Valid()
    {
      hide Header, EncodeFrames, IsDataHeader;
      DataHeaderBytes(size);
      WriteHeader(mOffset, DATA, size);
      var result := mOffset + HEADER_SIZE;
      ghost var body := mBuffer[result..result + size];
      SplitAt(mBuffer[..], mOffset, result);
      SplitAt(mBuffer[..], result, result + size);
      Batching.CommandFramesSnoc(open, body);
      open := open + [body];
      mOffset := result + size;
    }

    /** The caller writing into the space of the last command. */
    method Fill(space: nat, body: Payload)
      requires Valid() && open != [] && |body| == |open[|open| - 1]| && space + |body| == mOffset
      modifies this`open, mBuffer
      ensures Valid()
      ensures open == old(open[..|open| - 1]) + [body]
    {
      hide Header, EncodeFrames;
      ghost var before, last := open[..|open| - 1], open[|open| - 1];
      assert open == before + [last];
      Batching.CommandFramesSnoc(before, last);
      ghost var head := EncodeFrames(CommandFrames(before)) + Header(DATA, |last|);
      assert mBuffer[..mOffset] == head + last;
      PartOfSlice(mBuffer[..], 0, mOffset, space);
      assert mBuffer[..space] == head;
      forall i | 0 <= i < |body| {
        mBuffer[space + i] := body[i];
      }
      SplitAt(mBuffer[..], space, mOffset);
      assert mBuffer[..space] == head && mBuffer[space..mOffset] == body;
      Batching.CommandFramesSnoc(before, body);
      open := before + [body];
    }
  }

  lemma EmptyBatch()
    ensures EncodeFrames(CommandFrames([])) == []
  {}

  /** What flushing the commands in `open` does on a transport. */
  ghost function FlushOn(connfd: int, outcomes: Outcomes, k: nat, open: Batch): Transmission {
    if open == [] then Transmission(0, [], 0) else SendOn(connfd, outcomes, k, EncodeBatch(open))
  }

  /**
   A flush that reports success has put the batch on the wire exactly when the transport is
   connected and every send call takes its whole chunk.
   */
  lemma FlushIsTrueExactly(connfd: int, outcomes: Outcomes, k: nat, open: Batch)
    requires open != []
    ensures var t, data := FlushOn(connfd, outcomes, k, open), EncodeBatch(open);
            t.code == 0 && t.taken == data <==> connfd >= 0 && Full(outcomes, k, |data|, Chunks(|data|))
  {
    hide Full, Chunks, Transmit;
    SendIsExactWhenFull(outcomes, k, EncodeBatch(open));
  }

  /** Over a transport that is not connected every batch is reported sent and lost. */
  lemma ClosedFlushLoses(connfd: int, outcomes: Outcomes, k: nat, open: Batch)
    requires connfd < 0
    ensures FlushOn(connfd, outcomes, k, open) == Transmission(0, [], 0)
    ensures open != [] ==> FlushOn(connfd, outcomes, k, open).taken != EncodeBatch(open)
  {
    assert |EncodeBatch(open)| >= HEADER_SIZE;
  }
}
