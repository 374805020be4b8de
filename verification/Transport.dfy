/** CommandTransport: the receive loop and the chunked send. */
module Transport {
  import opened Bytes
  import opened Framing
  import opened Receiver
  import opened RecvBuffers
  import opened Wire

  /** A copy seen as an extension of what is in front of it. */
  method Place(dst: array<byte>, to: nat, src: array<byte>, from: nat, n: nat)
    requires to + n <= dst.Length && from + n <= src.Length && dst != src
    modifies dst
    ensures dst[..to + n] == old(dst[..to]) + src[from..from + n]
  {
    Memcpy(dst, to, src, from, n);
    SplitAt(dst[..], to, to + n);
  }

  /** The locals of Recv that outlive one recv call. */
  class RecvLoop {
    const cmd: array<byte>
    var recvCmd: bool
    var cmdBuf: nat
    var cmdLen: nat
    var cmdLenLeft: nat
    var hdrLenLeft: nat

    constructor ()
      ensures fresh(cmd) && cmd.Length == HEADER_SIZE
      ensures !recvCmd && hdrLenLeft == HEADER_SIZE
    {
      cmd := new byte[HEADER_SIZE];
      recvCmd := false;
      cmdBuf, cmdLen, cmdLenLeft := 0, 0, 0;
      hdrLenLeft := HEADER_SIZE;
    }

    ghost predicate Valid(rbuf: RecvBuffer)
      reads this, rbuf
    {
      && cmd.Length == HEADER_SIZE && cmd != rbuf.mBuffer
      && 0 < hdrLenLeft <= HEADER_SIZE
      && rbuf.mOffset <= rbuf.mBuffer.Length
      && (recvCmd ==> hdrLenLeft == HEADER_SIZE && 0 < cmdLenLeft <= cmdLen && cmdBuf + cmdLen == rbuf.mOffset)
    }

    /** The parser's state in the terms of the byte-at-a-time reference. */
    ghost function View(rbuf: RecvBuffer): (r: State)
      requires Valid(rbuf)
      reads this, cmd, rbuf, rbuf.mBuffer, rbuf.mHandler
      ensures WellFormed(rbuf.mBuffer.Length, r)
    {
      if recvCmd then
        State(rbuf.mHandler.calls, rbuf.mBuffer[..rbuf.mOffset - cmdLenLeft], InBody(cmdLenLeft))
      else
        State(rbuf.mHandler.calls, rbuf.mBuffer[..rbuf.mOffset], InHeader(cmd[..HEADER_SIZE - hdrLenLeft]))
    }

    /** Copies header bytes; true when the header is complete. */
    method ReadHeader(ghost rbuf: RecvBuffer, recvBuf: array<byte>, nread: nat, bytesLeft: nat)
      returns (complete: bool, left: nat)
      requires Valid(rbuf) && !recvCmd && 0 < bytesLeft <= nread <= recvBuf.Length
      requires recvBuf != cmd
      modifies this`hdrLenLeft, cmd
      ensures Valid(rbuf)
      ensures complete == (bytesLeft >= old(hdrLenLeft))
      ensures left == if complete then bytesLeft - old(hdrLenLeft) else 0
      ensures var got := old(cmd[..HEADER_SIZE - hdrLenLeft]) + recvBuf[nread - bytesLeft..nread - left];
              if complete then hdrLenLeft == HEADER_SIZE && cmd[..] == got
              else cmd[..HEADER_SIZE - hdrLenLeft] == got
    {
      var have := HEADER_SIZE - hdrLenLeft;
      ghost var got := cmd[..have];
      if bytesLeft < hdrLenLeft {
        Memcpy(cmd, have, recvBuf, nread - bytesLeft, bytesLeft);
        hdrLenLeft := hdrLenLeft - bytesLeft;
        assert cmd[..have] == got;
        SplitAt(cmd[..], have, have + bytesLeft);
        return false, 0;
      }
      Memcpy(cmd, have, recvBuf, nread - bytesLeft, hdrLenLeft);
      assert cmd[..have] == got;
      SplitAt(cmd[..], have, HEADER_SIZE);
      assert cmd[..] == cmd[..HEADER_SIZE];
      complete, left := true, bytesLeft - hdrLenLeft;
      hdrLenLeft := HEADER_SIZE;
    }

    /** Points `cmdBuf` at space for a command of `len` bytes, if there is any. */
    method ClaimSpace(rbuf: RecvBuffer, len: nat, ghost before: State) returns (ok: bool)
      requires rbuf.mOffset <= rbuf.mBuffer.Length
      requires before.calls == rbuf.mHandler.calls && before.filled == rbuf.mBuffer[..rbuf.mOffset]
      modifies this`cmdBuf, this`cmdLen, this`cmdLenLeft, rbuf, rbuf.mHandler
      ensures var r := Reserve(rbuf.mBuffer.Length, rbuf.mHandler.answers, before, len);
              && ok == !r.phase.Stuck?
              && rbuf.mHandler.calls == r.calls
              && (ok ==> r.phase == Await(len) && cmdBuf <= rbuf.mBuffer.Length && rbuf.mBuffer[..cmdBuf] == r.filled)
      ensures ok ==> cmdLen == cmdLenLeft == len && cmdBuf + len == rbuf.mOffset <= rbuf.mBuffer.Length
    {
      var space := rbuf.GetCmdSpace(len);
      if space == None {
        return false;
      }
      cmdBuf, cmdLen, cmdLenLeft := space.value, len, len;
      ok := true;
    }

    /** The header of a `len`-byte command is complete: reserve space and copy what is already here. */
    method StartCommand(rbuf: RecvBuffer, recvBuf: array<byte>, nread: nat, bytesLeft: nat, len: nat, ghost before: State)
      returns (ok: bool, left: nat)
      requires Valid(rbuf) && !recvCmd && hdrLenLeft == HEADER_SIZE && bytesLeft <= nread <= recvBuf.Length
      requires recvBuf != rbuf.mBuffer
      requires before.calls == rbuf.mHandler.calls && before.filled == rbuf.mBuffer[..rbuf.mOffset]
      modifies this, rbuf, rbuf.mBuffer, rbuf.mHandler
      ensures left <= bytesLeft && (ok && recvCmd ==> left == 0)
      ensures var r := Reserve(rbuf.mBuffer.Length, rbuf.mHandler.answers, before, len);
              var got := recvBuf[nread - bytesLeft..nread - left];
              && ok == !r.phase.Stuck?
              && (!ok ==> rbuf.mHandler.calls == r.calls)
              && (ok ==> Valid(rbuf) && |got| <= len && View(rbuf) == State(r.calls, r.filled + got, Await(len - |got|)))
    {
      hide Reserve;
      recvCmd := true;
      ok := ClaimSpace(rbuf, len, before);
      if !ok {
        return false, bytesLeft;
      }
      var ncmdbytes := bytesLeft;
      if ncmdbytes >= len {
        ncmdbytes := len;
        recvCmd := false;
      }
      Place(rbuf.mBuffer, cmdBuf, recvBuf, nread - bytesLeft, ncmdbytes);
      left := bytesLeft - ncmdbytes;
      cmdLenLeft := cmdLenLeft - ncmdbytes;
    }

    /** The rest of a command whose first part came with an earlier recv. */
    method ContinueCommand(rbuf: RecvBuffer, recvBuf: array<byte>, nread: nat, ghost before: State) returns (left: nat)
      requires Valid(rbuf) && recvCmd && 0 < nread <= recvBuf.Length
      requires recvBuf != cmd && recvBuf != rbuf.mBuffer
      requires View(rbuf) == before
      modifies this, rbuf.mBuffer
      ensures left < nread && (recvCmd ==> left == 0)
      ensures Valid(rbuf)
      ensures var got := recvBuf[..nread - left];
              && |got| <= before.phase.left
              && View(rbuf) == State(before.calls, before.filled + got, Await(before.phase.left - |got|))
    {
      var ncmdbytes := nread;
      if nread >= cmdLenLeft {
        ncmdbytes := cmdLenLeft;
        recvCmd := false;
      }
      var at := cmdBuf + cmdLen - cmdLenLeft;
      Place(rbuf.mBuffer, at, recvBuf, 0, ncmdbytes);
      left := nread - ncmdbytes;
      cmdLenLeft := cmdLenLeft - ncmdbytes;
    }

    /** One turn of the loop outside a command. */
    method TakeFrame(rbuf: RecvBuffer, recvBuf: array<byte>, nread: nat, bytesLeft: nat, ghost before: State)
      returns (ok: bool, left: nat, ghost after: State)
      requires Valid(rbuf) && !recvCmd && 0 < bytesLeft <= nread <= recvBuf.Length
      requires recvBuf != cmd && recvBuf != rbuf.mBuffer
      requires View(rbuf) == before
      modifies this, cmd, rbuf, rbuf.mBuffer, rbuf.mHandler
      ensures left < bytesLeft && (ok && recvCmd ==> left == 0)
      ensures after == Absorb(rbuf.mBuffer.Length, rbuf.mHandler.answers, before, recvBuf[nread - bytesLeft..nread - left])
      ensures ok == !after.phase.Stuck?
      ensures rbuf.mHandler.calls == after.calls
      ensures ok ==> Valid(rbuf) && View(rbuf) == after
    {
      hide Absorb, Step, Reserve;
      ghost var n, answers, data := rbuf.mBuffer.Length, rbuf.mHandler.answers, recvBuf[..];
      var complete, mid := ReadHeader(rbuf, recvBuf, nread, bytesLeft);
      ghost var h := data[nread - bytesLeft..nread - mid];
      if !complete {
        AbsorbPartialHeader(n, answers, before, h);
        return true, 0, View(rbuf);
      }
      assert before.phase.got + h == cmd[..];
      if KindOf(cmd[..]) == MARKER {
        AbsorbHeader(n, answers, before, h);
        var _ := rbuf.Flush();
        return true, mid, View(rbuf);
      }
      ok, left := StartCommand(rbuf, recvBuf, nread, mid, LenOf(cmd[..]), before);
      ghost var got := data[nread - mid..nread - left];
      after := Absorb(n, answers, before, data[nread - bytesLeft..nread - left]);
      assert data[nread - bytesLeft..nread - left] == h + got;
      AbsorbCommandStart(n, answers, before, h, got);
    }

    /** One turn of the inner loop. A continued command starts at the front of `recvBuf`. */
    method Turn(rbuf: RecvBuffer, recvBuf: array<byte>, nread: nat, bytesLeft: nat, ghost before: State)
      returns (ok: bool, left: nat, ghost after: State)
      requires Valid(rbuf) && 0 < bytesLeft <= nread <= recvBuf.Length
      requires recvBuf != cmd && recvBuf != rbuf.mBuffer
      requires recvCmd ==> bytesLeft == nread
      requires View(rbuf) == before
      modifies this, cmd, rbuf, rbuf.mBuffer, rbuf.mHandler
      ensures left < bytesLeft && (ok && recvCmd ==> left == 0)
      ensures after == Absorb(rbuf.mBuffer.Length, rbuf.mHandler.answers, before, recvBuf[nread - bytesLeft..nread - left])
      ensures ok == !after.phase.Stuck?
      ensures rbuf.mHandler.calls == after.calls
      ensures ok ==> Valid(rbuf) && View(rbuf) == after
    {
      hide Absorb, Step;
      if !recvCmd {
        ok, left, after := TakeFrame(rbuf, recvBuf, nread, bytesLeft, before);
      } else {
        left := ContinueCommand(rbuf, recvBuf, nread, before);
        AbsorbBody(rbuf.mBuffer.Length, rbuf.mHandler.answers, before, recvBuf[..nread - left]);
        ok, after := true, View(rbuf);
      }
    }

    /**
     The loop body for one successful recv of `nread` bytes. `ok` is false when a command
     got no space: the source then copies through a null pointer, and the model stops.
     */
    method Feed(rbuf: RecvBuffer, recvBuf: array<byte>, nread: nat) returns (ok: bool)
      requires Valid(rbuf) && 0 < nread <= recvBuf.Length
      requires recvBuf != cmd && recvBuf != rbuf.mBuffer
      modifies this, cmd, rbuf, rbuf.mBuffer, rbuf.mHandler
      ensures var r := Absorb(rbuf.mBuffer.Length, rbuf.mHandler.answers, old(View(rbuf)), recvBuf[..nread]);
              && ok == !r.phase.Stuck?
              && rbuf.mHandler.calls == r.calls
              && (ok ==> Valid(rbuf) && View(rbuf) == r)
    {
      hide Absorb, Step;
      ghost var n, answers, start, data := rbuf.mBuffer.Length, rbuf.mHandler.answers, View(rbuf), recvBuf[..];
      ghost var r := start;
      AbsorbNothing(n, answers, r);
      var bytesLeft := nread;
      while bytesLeft > 0
        invariant 0 <= bytesLeft <= nread
        invariant Valid(rbuf) && View(rbuf) == r
        invariant recvCmd && bytesLeft > 0 ==> bytesLeft == nread
        invariant recvBuf[..] == data
        invariant r == Absorb(n, answers, start, data[..nread - bytesLeft])
      {
        ghost var next;
        var left;
        ok, left, next := Turn(rbuf, recvBuf, nread, bytesLeft, r);
        SplitPiece(n, answers, start, data, nread - bytesLeft, nread - left);
        r := next;
        if !ok {
          StuckForGood(n, answers, start, data[..nread - left], data[nread - left..nread]);
          assert data[..nread] == data[..nread - left] + data[nread - left..nread];
          return;
        }
        bytesLeft := left;
      }
      ok := true;
    }
  }

  lemma MinIs(a: int, b: int, m: int)
    ensures Min(a, b) <= a && Min(a, b) <= b && (a >= 0 && b >= 0 ==> Min(a, b) >= 0)
    ensures (m == a <= b) || (m == b <= a) ==> m == Min(a, b)
  {}

  class CommandTransport {
    var mConnfd: int
    /** The kernel: how its send calls end, how many there were, what they took. */
    const outcomes: Outcomes
    var sends: nat
    ghost var wire: seq<byte>

    constructor (connfd: int, outcomes: Outcomes)
      ensures mConnfd == connfd && this.outcomes == outcomes && sends == 0 && wire == []
    {
      mConnfd := connfd;
      this.outcomes := outcomes;
      sends, wire := 0, [];
    }

    method KernelSend(buf: array<byte>, size: nat) returns (nsent: int)
      requires size <= buf.Length
      modifies this`sends, this`wire
      ensures sends == old(sends) + 1
      ensures var o := outcomes(old(sends));
              if o < 0 then nsent == o && wire == old(wire)
              else nsent == Min(o, size) && wire == old(wire) + buf[..Min(o, size)]
    {
      nsent := Min(outcomes(sends), size);
      sends := sends + 1;
      if nsent >= 0 {
        wire := wire + buf[..nsent];
      }
    }

    method SendChunk(sendBuf: array<byte>, buf: array<byte>, soff: nat, chunksz: nat) returns (nsent: int)
      requires soff + chunksz <= buf.Length && chunksz <= sendBuf.Length && sendBuf != buf
      modifies this`sends, this`wire, sendBuf
      ensures sends == old(sends) + 1
      ensures var o := outcomes(old(sends));
              if o < 0 then nsent == o && wire == old(wire)
              else nsent == Min(o, chunksz) && wire == old(wire) + buf[soff..soff + nsent]
    {
      Memcpy(sendBuf, 0, buf, soff, chunksz);
      nsent := KernelSend(sendBuf, chunksz);
      if nsent >= 0 {
        PartOfSlice(sendBuf[..], 0, chunksz, nsent);
        PartOfSlice(buf[..], soff, soff + chunksz, nsent);
        assert sendBuf[0..0 + chunksz][..nsent] == buf[soff..soff + chunksz][..nsent];
      }
    }

    method KernelRecv(recvBuf: array<byte>, bytes: seq<byte>) returns (nread: nat)
      requires |bytes| <= recvBuf.Length
      modifies recvBuf
      ensures nread == |bytes| && recvBuf[..nread] == bytes
    {
      forall i | 0 <= i < |bytes| {
        recvBuf[i] := bytes[i];
      }
      nread := |bytes|;
    }

    method Send(buf: array<byte>, sz: nat) returns (code: int)
      requires sz <= buf.Length
      modifies this`sends, this`wire
      ensures var t := SendOn(mConnfd, outcomes, old(sends), buf[..sz]);
              code == t.code && wire == old(wire) + t.taken && sends == old(sends) + t.sends
    {
      hide Transmit;
      if mConnfd < 0 {
        return 0;
      }
      hide Min;
      var sendBuf := new byte[CHUNK_SIZE];
      var soff := 0;
      ghost var rest, taken := buf[..sz], [];
      ghost var whole := Transmit(outcomes, sends, rest);
      while soff < sz
        invariant 0 <= soff && fresh(sendBuf)
        invariant rest == if soff <= sz then buf[soff..sz] else []
        invariant wire == old(wire) + taken
        invariant var t := Transmit(outcomes, sends, rest);
                  whole.code == t.code && whole.taken == taken + t.taken && old(sends) + whole.sends == sends + t.sends
        decreases sz - soff
      {
        var chunksz := sz - soff;
        if chunksz > CHUNK_SIZE {
          chunksz := CHUNK_SIZE;
        }
        MinIs(CHUNK_SIZE, |rest|, chunksz);
        MinIs(outcomes(sends), chunksz, Min(outcomes(sends), chunksz));
        TransmitStep(outcomes, sends, rest, taken);
        var nsent := SendChunk(sendBuf, buf, soff, chunksz);
        if nsent < 0 {
          return nsent;
        }
        PartOfSlice(buf[..], soff, sz, nsent);
        RestOfSlice(buf[..], soff, sz, chunksz);
        assert buf[soff..soff + nsent] == rest[..nsent];
        rest, taken := rest[chunksz..], taken + rest[..nsent];
        soff := soff + CHUNK_SIZE;
      }
      TransmitNothing(outcomes, sends);
      code := 0;
    }

    /** Receives until the connection closes or fails, or `events` runs out. */
    method Recv(rbuf: RecvBuffer, events: seq<RecvEvent>) returns (outcome: RecvOutcome)
      requires rbuf.mOffset <= rbuf.mBuffer.Length
      requires forall i :: 0 <= i < |events| ==> KernelEvent(events[i])
      modifies rbuf, rbuf.mBuffer, rbuf.mHandler
      ensures var start := State(old(rbuf.mHandler.calls), old(rbuf.mBuffer[..rbuf.mOffset]), InHeader([]));
              var r := Absorb(rbuf.mBuffer.Length, rbuf.mHandler.answers, start, Incoming(events));
              && rbuf.mHandler.calls == r.calls
              && outcome == (if r.phase.Stuck? then NoSpace else EndOf(events))
              && (!r.phase.Stuck? ==> |r.filled| <= rbuf.mBuffer.Length && rbuf.mBuffer[..|r.filled|] == r.filled)
    {
      hide Absorb, Step, Incoming, EndOf;
      var recvBuf := new byte[CHUNK_SIZE];
      var loop := new RecvLoop();
      ghost var n, answers, start := rbuf.mBuffer.Length, rbuf.mHandler.answers, loop.View(rbuf);
      assert start.phase.got == [];
      ghost var r := start;
      AbsorbNothing(n, answers, r);
      IncomingSplit(events, 0);
      assert events[..0] == [];
      var i := 0;
      while i < |events|
        invariant 0 <= i <= |events|
        invariant fresh(loop) && fresh(loop.cmd) && fresh(recvBuf) && recvBuf != loop.cmd
        invariant loop.Valid(rbuf) && loop.View(rbuf) == r
        invariant forall j :: 0 <= j < i ==> events[j].Received? || events[j].WouldBlock?
        invariant r == Absorb(n, answers, start, Incoming(events[..i]))
      {
        var event := events[i];
        EventMeans(n, answers, start, events, i);
        match event {
          case Closed =>
            return Returned(0);
          case Failed(errno) =>
            return Returned(-errno);
          case WouldBlock =>
          case Received(bytes) =>
            var nread := KernelRecv(recvBuf, bytes);
            var ok := loop.Feed(rbuf, recvBuf, nread);
            r := Absorb(n, answers, r, bytes);
            if !ok {
              return NoSpace;
            }
        }
        i := i + 1;
      }
      assert events[..i] == events;
      IncomingSplit(events, i);
      outcome := Receiving;
    }
  }

  /** What one recv outcome means for the run so far and for the whole run. */
  lemma EventMeans(n: nat, answers: Answers, start: State, events: seq<RecvEvent>, i: nat)
    requires WellFormed(n, start) && i < |events|
    requires forall j :: 0 <= j < i ==> events[j].Received? || events[j].WouldBlock?
    ensures var r := Absorb(n, answers, start, Incoming(events[..i]));
            var all := Absorb(n, answers, start, Incoming(events));
            match events[i]
            case Received(bytes) =>
              var r' := Absorb(n, answers, r, bytes);
              && Absorb(n, answers, start, Incoming(events[..i + 1])) == r'
              && (r'.phase.Stuck? ==> all == r')
            case WouldBlock => Absorb(n, answers, start, Incoming(events[..i + 1])) == r
            case Closed => all == r && EndOf(events) == Returned(0)
            case Failed(errno) => all == r && EndOf(events) == Returned(-errno)
  {
    hide Absorb, Step, Incoming, EndOf;
    match events[i]
    case Received(bytes) =>
      IncomingStep(events, i);
      AbsorbAppend(n, answers, start, Incoming(events[..i]), bytes);
      if Absorb(n, answers, start, Incoming(events[..i + 1])).phase.Stuck? {
        IncomingSplit(events, i + 1);
        StuckForGood(n, answers, start, Incoming(events[..i + 1]), Incoming(events[i + 1..]));
      }
    case WouldBlock => IncomingStep(events, i);
    case _ => IncomingEnd(events, i);
  }

  lemma IncomingEnd(events: seq<RecvEvent>, i: nat)
    requires i < |events| && (events[i].Closed? || events[i].Failed?)
    requires forall j :: 0 <= j < i ==> events[j].Received? || events[j].WouldBlock?
    ensures Incoming(events) == Incoming(events[..i])
    ensures EndOf(events) == Returned(if events[i].Closed? then 0 else -events[i].errno)
  {
    IncomingSplit(events, i);
    assert Incoming(events[i..]) == [];
    assert Incoming(events[..i]) + [] == Incoming(events[..i]);
  }

  lemma IncomingStep(events: seq<RecvEvent>, i: nat)
    requires i < |events| && (events[i].Received? || events[i].WouldBlock?)
    requires forall j :: 0 <= j < i ==> events[j].Received? || events[j].WouldBlock?
    ensures events[i].Received? ==> Incoming(events[..i + 1]) == Incoming(events[..i]) + events[i].bytes
    ensures events[i].WouldBlock? ==> Incoming(events[..i + 1]) == Incoming(events[..i])
  {
    IncomingSplit(events[..i + 1], i);
    assert events[..i + 1][..i] == events[..i] && events[..i + 1][i..] == [events[i]];
    assert Incoming([events[i]]) == if events[i].Received? then events[i].bytes else [];
  }
}
