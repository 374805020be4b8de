/** The classes put together: a sender's calls on one side, Recv on the other. */
module Session {
  import opened Bytes
  import opened Framing
  import opened Receiver
  import opened RecvBuffers
  import opened SendBuffers
  import opened Transport
  import opened Wire
  import opened EndToEnd
  import opened Delivery
  import opened Server
  import Batching

  predicate NoWrap(calls: seq<Batching.Call>) {
    forall i :: 0 <= i < |calls| && calls[i].Put? ==> |calls[i].body| + 2 * HEADER_SIZE < U64
  }

  method CallOne(buf: SendBuffer, c: Batching.Call)
    requires buf.Valid() && (c.Put? ==> |c.body| + 2 * HEADER_SIZE < U64)
    modifies buf, buf.mBuffer, buf.mTransport`sends, buf.mTransport`wire
    ensures buf.Valid()
    ensures ViewOf(buf) == CallOn(buf.mBuffer.Length, NetOf(buf), old(ViewOf(buf)), c)
  {
    hide FlushOn, Batching.Used;
    match c {
      case Put(body) =>
        var _ := PutCommand(buf, body);
      case FlushNow =>
        var _ := buf.Flush();
    }
  }

  /** Any sequence of commands and flushes, under any kernel. */
  method Issue(buf: SendBuffer, calls: seq<Batching.Call>)
    requires buf.Valid() && NoWrap(calls)
    modifies buf, buf.mBuffer, buf.mTransport`sends, buf.mTransport`wire
    ensures buf.Valid()
    ensures ViewOf(buf) == RunOn(buf.mBuffer.Length, NetOf(buf), old(ViewOf(buf)), calls)
  {
    hide CallOn;
    ghost var n, net, start := buf.mBuffer.Length, NetOf(buf), ViewOf(buf);
    var i := 0;
    assert calls[..0] == [];
    while i < |calls|
      invariant 0 <= i <= |calls| && buf.Valid() && NetOf(buf) == net
      invariant ViewOf(buf) == RunOn(n, net, start, calls[..i])
    {
      RunOnSnoc(n, net, start, calls[..i], calls[i]);
      assert calls[..i + 1] == calls[..i] + [calls[i]];
      CallOne(buf, calls[i]);
      i := i + 1;
    }
    assert calls[..i] == calls;
  }

  /**
   Recv on what a sender has put on the wire, up to any point and in any chunks: one handler call
   per wholly arrived batch, with exactly its payloads, whatever the handler answers, and never a
   command without space.
   */
  method ReceiveFrom(ghost s: Sender, transport: CommandTransport, rbuf: RecvBuffer, events: seq<RecvEvent>)
    returns (outcome: RecvOutcome)
    requires Ordered(s) && Batching.Wellmade(rbuf.mBuffer.Length, s.box)
    requires forall i :: 0 <= i < |events| ==> KernelEvent(events[i])
    requires Incoming(events) <= s.wire
    requires rbuf.mOffset == 0 && rbuf.mHandler.calls == []
    modifies rbuf, rbuf.mBuffer, rbuf.mHandler
    ensures outcome == EndOf(events)
    ensures rbuf.mHandler.calls == FlattenEach(s.box.sent[..Arrived(s.box.sent, |Incoming(events)|)])
  {
    hide Absorb, Step, EncodeBatches, FlattenEach, Incoming, EndOf, Arrived, Batching.Wellmade;
    OrderedDelivers(rbuf.mBuffer.Length, rbuf.mHandler.answers, s, |Incoming(events)|);
    assert Incoming(events) == s.wire[..|Incoming(events)|];
    assert rbuf.mBuffer[..rbuf.mOffset] == [];
    outcome := transport.Recv(rbuf, events);
  }

  /**
   A sender's calls and a receiver's reads from one connection: the handler sees the wholly arrived
   batches, and all that were made once every byte of a delivered run is there.
   */
  method Exchange(capacity: nat, connfd: int, outcomes: Outcomes, answers: Answers, calls: seq<Batching.Call>,
                  events: seq<RecvEvent>)
    returns (outcome: RecvOutcome, handled: seq<seq<byte>>)
    requires capacity >= 2 * HEADER_SIZE && NoWrap(calls)
    requires forall i :: 0 <= i < |events| ==> KernelEvent(events[i])
    requires var s := RunOn(capacity, Net(connfd, outcomes), NEW, calls);
             Ordered(s) && Incoming(events) <= s.wire
    ensures outcome == EndOf(events)
    ensures var s := RunOn(capacity, Net(connfd, outcomes), NEW, calls);
            && handled == FlattenEach(s.box.sent[..Arrived(s.box.sent, |Incoming(events)|)])
            && (AllDelivered(capacity, Net(connfd, outcomes), NEW, calls) && Incoming(events) == s.wire ==>
                  handled == FlattenEach(Batching.DoAll(capacity, Batching.Outbox([], []), calls).sent))
  {
    hide RunOn, AllDelivered, Ordered, Incoming, EndOf, FlattenEach, Arrived, Batching.Wellmade, Batching.DoAll, EncodeBatches;
    ghost var net := Net(connfd, outcomes);
    ghost var s := RunOn(capacity, net, NEW, calls);
    var transport := new CommandTransport(connfd, outcomes);
    var buf := new SendBuffer(capacity, transport);
    Issue(buf, calls);
    RunKeepsFitFromNew(capacity, net, calls);
    var handler := new CommandHandler(answers);
    var rbuf := new RecvBuffer(capacity, handler);
    var peer := new CommandTransport(connfd, outcomes);
    outcome := ReceiveFrom(s, peer, rbuf, events);
    handled := handler.calls;
    if AllDelivered(capacity, net, NEW, calls) {
      EncodeNone();
      DeliveredRun(capacity, net, NEW, calls);
      ArrivedAll(s.box.sent);
      assert s.box.sent[..|s.box.sent|] == s.box.sent;
    }
  }
}
