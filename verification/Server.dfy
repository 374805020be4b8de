/** The server's handler: pass the batch on, then flush the replies it produced. */
module Server {
  import opened Bytes
  import opened Framing
  import opened Receiver
  import opened SendBuffers
  import opened Delivery
  import Batching

  /** What every caller of a serializer does: ask for space, fill it. */
  method PutCommand(buf: SendBuffer, body: Payload) returns (ok: bool)
    requires buf.Valid() && |body| + 2 * HEADER_SIZE < U64
    modifies buf, buf.mBuffer, buf.mTransport`sends, buf.mTransport`wire
    ensures buf.Valid()
    ensures ViewOf(buf) == CallOn(buf.mBuffer.Length, NetOf(buf), old(ViewOf(buf)), Batching.Put(body))
    ensures ok == (HasRoom(buf.mBuffer.Length, body)
                   && (Flushes(buf.mBuffer.Length, old(ViewOf(buf)), Batching.Put(body)) ==>
                         Flushed(NetOf(buf), old(ViewOf(buf))).code == 0))
  {
    hide FlushOn, Batching.Used, IsDataHeader, EncodeFrames, CommandFrames;
    var space := buf.GetCmdSpace(|body|);
    ok := space.Some?;
    if ok {
      FillLast(buf, space.value, body);
    }
  }

  /** The body goes where the last command's space is; nothing else changes. */
  method FillLast(buf: SendBuffer, space: nat, body: Payload)
    requires buf.Valid() && buf.open != [] && |body| == |buf.open[|buf.open| - 1]| && space + |body| == buf.mOffset
    modifies buf`open, buf.mBuffer
    ensures buf.Valid()
    ensures forall head: Batch, last: Payload :: old(buf.open) == head + [last] ==> buf.open == head + [body]
  {
    hide EncodeFrames;
    ghost var before := buf.open;
    buf.Fill(space, body);
    forall head: Batch, last: Payload | before == head + [last] ensures buf.open == head + [body] {
      assert before[..|before| - 1] == head;
    }
  }

  /** dawn::wire::WireServer: for its i-th batch it emits `replies(i)` and returns `answers(i)`. */
  class WireServer {
    const serializer: SendBuffer
    const answers: Answers
    const replies: nat -> Batch
    var calls: seq<seq<byte>>

    constructor (serializer: SendBuffer, answers: Answers, replies: nat -> Batch)
      ensures this.serializer == serializer && this.answers == answers && this.replies == replies
      ensures calls == []
    {
      this.serializer, this.answers, this.replies := serializer, answers, replies;
      calls := [];
    }

    method HandleCommands(commands: array<byte>, size: nat) returns (ok: bool)
      requires size <= commands.Length && commands != serializer.mBuffer
      requires serializer.Valid()
      requires forall i, j :: 0 <= j < |replies(i)| ==> |replies(i)[j]| + 2 * HEADER_SIZE < U64
      modifies this, serializer, serializer.mBuffer, serializer.mTransport`sends, serializer.mTransport`wire
      ensures serializer.Valid()
      ensures calls == old(calls) + [commands[..size]] && ok == answers(|old(calls)|)
      ensures ViewOf(serializer) == RunOn(serializer.mBuffer.Length, NetOf(serializer), old(ViewOf(serializer)),
                                          Batching.Puts(replies(|old(calls)|)))
    {
      hide CallOn, Batching.Puts;
      var emitted, index := replies(|calls|), |calls|;
      ghost var n, net, start := serializer.mBuffer.Length, NetOf(serializer), ViewOf(serializer);
      calls := calls + [commands[..size]];
      var i := 0;
      PutsNone();
      assert emitted[..0] == [];
      while i < |emitted|
        invariant 0 <= i <= |emitted| && serializer.Valid()
        invariant calls == old(calls) + [commands[..size]]
        invariant NetOf(serializer) == net
        invariant ViewOf(serializer) == RunOn(n, net, start, Batching.Puts(emitted[..i]))
      {
        PutsSnoc(emitted[..i], emitted[i]);
        RunOnSnoc(n, net, start, Batching.Puts(emitted[..i]), Batching.Put(emitted[i]));
        assert emitted[..i + 1] == emitted[..i] + [emitted[i]];
        var _ := PutCommand(serializer, emitted[i]);
        i := i + 1;
      }
      assert emitted[..i] == emitted;
      ok := answers(index);
    }
  }

  lemma PutsNone()
    ensures Batching.Puts([]) == []
  {}

  lemma PutsSnoc(cmds: Batch, body: Payload)
    ensures Batching.Puts(cmds + [body]) == Batching.Puts(cmds) + [Batching.Put(body)]
  {}

  /** The calls one batch makes on the send buffer. */
  function Answering(replies: Batch): seq<Batching.Call> {
    Batching.Puts(replies) + [Batching.FlushNow]
  }

  class DDWGPUServer {
    const mSrv: WireServer
    const mBuf: SendBuffer

    constructor (srv: WireServer, buf: SendBuffer)
      ensures mSrv == srv && mBuf == buf
    {
      mSrv, mBuf := srv, buf;
    }

    /** While flushes deliver, all replies to the batch and nothing else leave before the call returns. */
    method HandleCommands(commands: array<byte>, size: nat) returns (ret: bool)
      requires mSrv.serializer == mBuf && mBuf.Valid() && size <= commands.Length && commands != mBuf.mBuffer
      requires forall i, j :: 0 <= j < |mSrv.replies(i)| ==> |mSrv.replies(i)[j]| + 2 * HEADER_SIZE < U64
      modifies mSrv, mBuf, mBuf.mBuffer, mBuf.mTransport`sends, mBuf.mTransport`wire
      ensures mBuf.Valid() && mBuf.open == []
      ensures mSrv.calls == old(mSrv.calls) + [commands[..size]] && ret == mSrv.answers(|old(mSrv.calls)|)
      ensures var calls := Answering(mSrv.replies(|old(mSrv.calls)|));
              var n, net, before := mBuf.mBuffer.Length, NetOf(mBuf), old(ViewOf(mBuf));
              && ViewOf(mBuf) == RunOn(n, net, before, calls)
              && (InStep(before) && AllDelivered(n, net, before, calls) ==>
                    InStep(ViewOf(mBuf)) && mBuf.Box() == Batching.DoAll(n, before.box, calls))
    {
      hide InStep, FlushOn, AllDelivered, RunOn, Batching.DoAll, Batching.Puts;
      ghost var n, net, before := mBuf.mBuffer.Length, NetOf(mBuf), ViewOf(mBuf);
      ghost var puts := Batching.Puts(mSrv.replies(|mSrv.calls|));
      ret := mSrv.HandleCommands(commands, size);
      var _ := mBuf.Flush();
      RunOnSnoc(n, net, before, puts, Batching.FlushNow);
      if InStep(before) && AllDelivered(n, net, before, puts + [Batching.FlushNow]) {
        DeliveredRun(n, net, before, puts + [Batching.FlushNow]);
      }
    }
  }
}
