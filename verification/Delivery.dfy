/**
 SendBuffer with its transport, under every kernel: what any calls leave in the buffer and on the
 wire, and what a receiver makes of it, as long as flushes deliver and after the first that fails.
 */
module Delivery {
  import opened Bytes
  import opened Framing
  import opened Receiver
  import opened SendBuffers
  import opened Wire
  import opened EndToEnd
  import Batching

  /** A descriptor and how the kernel ends the send calls on it. */
  datatype Net = Net(connfd: int, outcomes: Outcomes)

  datatype Sender = Sender(box: Batching.Outbox, wire: seq<byte>, sends: nat)

  const NEW := Sender(Batching.Outbox([], []), [], 0)

  ghost function ViewOf(buf: SendBuffer): Sender
    reads buf, buf.mTransport
  {
    Sender(buf.Box(), buf.mTransport.wire, buf.mTransport.sends)
  }

  ghost function NetOf(buf: SendBuffer): Net
    reads buf, buf.mTransport
  {
    Net(buf.mTransport.mConnfd, buf.mTransport.outcomes)
  }

  ghost function Flushed(net: Net, s: Sender): Transmission {
    FlushOn(net.connfd, net.outcomes, s.sends, s.box.open)
  }

  predicate HasRoom(n: nat, body: Payload) {
    |body| + 2 * HEADER_SIZE <= n
  }

  /** The call makes the buffer flush. */
  predicate Flushes(n: nat, s: Sender, c: Batching.Call) {
    match c
    case FlushNow => true
    case Put(body) => HasRoom(n, body) && n - |body| - 2 * HEADER_SIZE < Batching.Used(s.box.open)
  }

  ghost function AfterFlush(net: Net, s: Sender): Sender {
    Sender(Batching.Flush(s.box), s.wire + Flushed(net, s).taken, s.sends + Flushed(net, s).sends)
  }

  /** A command is lost when the flush that would make room for it fails. */
  ghost function CallOn(n: nat, net: Net, s: Sender, c: Batching.Call): Sender {
    var s' := if Flushes(n, s, c) then AfterFlush(net, s) else s;
    if c.Put? && HasRoom(n, c.body) && (Flushes(n, s, c) ==> Flushed(net, s).code == 0) then
      s'.(box := s'.box.(open := s'.box.open + [c.body]))
    else s'
  }

  ghost function RunOn(n: nat, net: Net, s: Sender, cs: seq<Batching.Call>): Sender {
    if cs == [] then s else CallOn(n, net, RunOn(n, net, s, cs[..|cs| - 1]), cs[|cs| - 1])
  }

  lemma RunOnSnoc(n: nat, net: Net, s: Sender, cs: seq<Batching.Call>, c: Batching.Call)
    ensures RunOn(n, net, s, cs + [c]) == CallOn(n, net, RunOn(n, net, s, cs), c)
  {
    assert (cs + [c])[..|cs|] == cs;
  }

  // ---- while flushes deliver ----

  /** Every send call that flushing `s` makes takes its whole chunk; later calls do not matter. */
  ghost predicate Delivers(net: Net, s: Sender) {
    s.box.open == [] ||
    var size := |EncodeBatch(s.box.open)|;
    net.connfd >= 0 && Full(net.outcomes, s.sends, size, Chunks(size))
  }

  ghost predicate AllDelivered(n: nat, net: Net, s: Sender, cs: seq<Batching.Call>) {
    cs == [] ||
    var before := RunOn(n, net, s, cs[..|cs| - 1]);
    && AllDelivered(n, net, s, cs[..|cs| - 1])
    && (Flushes(n, before, cs[|cs| - 1]) ==> Delivers(net, before))
  }

  /** The wire has carried exactly the batches. */
  predicate InStep(s: Sender) {
    s.wire == EncodeBatches(s.box.sent)
  }

  lemma DeliveredFlush(net: Net, s: Sender)
    requires InStep(s) && Delivers(net, s)
    ensures Flushed(net, s).code == 0 && InStep(AfterFlush(net, s))
  {
    hide Transmit, Full, Chunks, EncodeBatches, EncodeBatch;
    SendIsExactWhenFull(net.outcomes, s.sends, EncodeBatch(s.box.open));
    EncodeBatchesSnoc(s.box.sent, s.box.open);
  }

  /** A flush delivers exactly when it reports success with the batch, and nothing more, on the wire. */
  lemma DeliversExactly(net: Net, s: Sender)
    ensures Delivers(net, s) <==>
            && Flushed(net, s).code == 0
            && Flushed(net, s).taken == if s.box.open == [] then [] else EncodeBatch(s.box.open)
  {
    hide Transmit, Full, Chunks, EncodeBatch;
    if s.box.open != [] {
      FlushIsTrueExactly(net.connfd, net.outcomes, s.sends, s.box.open);
    }
  }

  /** A connected transport whose send calls take all they are given delivers every flush. */
  lemma {:induction false} WorkingDelivers(n: nat, net: Net, s: Sender, cs: seq<Batching.Call>)
    requires net.connfd >= 0 && forall i :: net.outcomes(i) >= 65536
    ensures AllDelivered(n, net, s, cs)
    decreases |cs|
  {
    if cs != [] {
      WorkingDelivers(n, net, s, cs[..|cs| - 1]);
    }
  }

  lemma DeliveredCall(n: nat, net: Net, s: Sender, c: Batching.Call)
    requires InStep(s) && (Flushes(n, s, c) ==> Delivers(net, s))
    ensures InStep(CallOn(n, net, s, c)) && CallOn(n, net, s, c).box == Batching.Do(n, s.box, c)
  {
    hide Flushed, EncodeBatches, Delivers, Batching.Used;
    if Flushes(n, s, c) {
      DeliveredFlush(net, s);
    }
  }

  lemma {:induction false} DeliveredRun(n: nat, net: Net, s: Sender, cs: seq<Batching.Call>)
    requires InStep(s) && AllDelivered(n, net, s, cs)
    ensures InStep(RunOn(n, net, s, cs)) && RunOn(n, net, s, cs).box == Batching.DoAll(n, s.box, cs)
    decreases |cs|
  {
    hide InStep, CallOn, Flushes, Delivers, Batching.Do;
    if cs != [] {
      DeliveredRun(n, net, s, cs[..|cs| - 1]);
      DeliveredCall(n, net, RunOn(n, net, s, cs[..|cs| - 1]), cs[|cs| - 1]);
    }
  }

  // ---- batches fit whatever happens ----

  lemma CallKeepsFit(n: nat, net: Net, s: Sender, c: Batching.Call)
    requires n >= HEADER_SIZE && Batching.Wellmade(n, s.box)
    ensures Batching.Wellmade(n, CallOn(n, net, s, c).box)
  {
    hide Flushed, Batching.Used;
    Batching.DoKeeps(n, s.box, c);
    Batching.DoKeeps(n, s.box, Batching.FlushNow);
  }

  lemma {:induction false} RunKeepsFit(n: nat, net: Net, s: Sender, cs: seq<Batching.Call>)
    requires n >= HEADER_SIZE && Batching.Wellmade(n, s.box)
    ensures Batching.Wellmade(n, RunOn(n, net, s, cs).box)
    decreases |cs|
  {
    hide CallOn, Batching.Wellmade;
    if cs != [] {
      RunKeepsFit(n, net, s, cs[..|cs| - 1]);
      CallKeepsFit(n, net, RunOn(n, net, s, cs[..|cs| - 1]), cs[|cs| - 1]);
    }
  }

  // ---- what the receiver makes of the wire ----

  /** The wire is a prefix of what the batches encode to. */
  predicate Ordered(s: Sender) {
    s.wire <= EncodeBatches(s.box.sent)
  }

  /** One handler call per batch wholly on the wire and read, and space for every command. */
  lemma OrderedDelivers(n: nat, answers: Answers, s: Sender, k: nat)
    requires Batching.Wellmade(n, s.box) && Ordered(s) && k <= |s.wire|
    ensures var r := Absorb(n, answers, INIT, s.wire[..k]);
            !r.phase.Stuck? && r.calls == FlattenEach(s.box.sent[..Arrived(s.box.sent, k)])
  {
    hide Absorb, Step, EncodeBatches, FlattenEach, Arrived, Batching.Fits;
    PrefixDelivers(n, answers, INIT, s.box.sent, k);
    assert s.wire[..k] == EncodeBatches(s.box.sent)[..k];
    assert INIT.calls + FlattenEach(s.box.sent[..Arrived(s.box.sent, k)])
        == FlattenEach(s.box.sent[..Arrived(s.box.sent, k)]);
  }

  lemma {:induction false} ArrivedWithin(bs: seq<Batch>, b: Batch, j: nat)
    requires j < |EncodeBatch(b)|
    ensures Arrived(bs + [b], |EncodeBatches(bs)| + j) == |bs|
    decreases |bs|
  {
    hide EncodeBatch, EncodeBatches;
    if bs == [] {
      EncodeNone();
      assert bs + [b] == [b];
    } else {
      assert bs == [bs[0]] + bs[1..] && (bs + [b])[1..] == bs[1..] + [b];
      EncodeBatchesCons(bs[0], bs[1..]);
      ArrivedWithin(bs[1..], b, j);
    }
  }

  /** The `m`-th send call of this flush fails, and those before it were full. */
  ghost predicate FailsAt(net: Net, s: Sender, m: nat) {
    var size := |EncodeBatch(s.box.open)|;
    && s.box.open != [] && net.connfd >= 0
    && m < Chunks(size) && Full(net.outcomes, s.sends, size, m) && net.outcomes(s.sends + m) < 0
  }

  lemma FailedFlush(net: Net, s: Sender, m: nat)
    requires InStep(s) && FailsAt(net, s, m)
    ensures Flushed(net, s).code < 0 && m * CHUNK_SIZE < |EncodeBatch(s.box.open)|
    ensures AfterFlush(net, s).wire == EncodeBatches(s.box.sent) + EncodeBatch(s.box.open)[..m * CHUNK_SIZE]
    ensures Ordered(AfterFlush(net, s))
  {
    hide Transmit, Full, EncodeBatch, EncodeBatches;
    var e := EncodeBatch(s.box.open);
    SendStopsAtFailure(net.outcomes, s.sends, e, m);
    EncodeBatchesSnoc(s.box.sent, s.box.open);
    assert EncodeBatches(s.box.sent) + e[..m * CHUNK_SIZE] + e[m * CHUNK_SIZE..] == EncodeBatches(s.box.sent) + e;
  }

  /** Where no send call is short, a flush delivers or fails at one of its send calls. */
  lemma DeliversOrFails(net: Net, s: Sender)
    requires net.connfd >= 0 && forall i :: net.outcomes(i) < 0 || net.outcomes(i) >= 65536
    ensures Delivers(net, s) || exists m :: FailsAt(net, s, m)
  {
    hide EncodeBatch;
    if s.box.open != [] {
      var size := |EncodeBatch(s.box.open)|;
      var m := FullUntil(net.outcomes, s.sends, size, Chunks(size));
      assert m < Chunks(size) ==> FailsAt(net, s, m);
    }
  }

  lemma {:induction false} FullUntil(outcomes: Outcomes, k: nat, size: nat, most: nat) returns (m: nat)
    requires most <= Chunks(size) && forall i :: outcomes(i) < 0 || outcomes(i) >= 65536
    ensures m <= most && Full(outcomes, k, size, m) && (m < most ==> outcomes(k + m) < 0)
    decreases most
  {
    if most == 0 {
      m := 0;
    } else {
      m := FullUntil(outcomes, k, size, most - 1);
      if m == most - 1 && outcomes(k + m) >= 0 {
        m := most;
      }
    }
  }

  /** A wire stays in order through all delivered flushes and through the first that fails. */
  lemma OrderedToFailure(n: nat, net: Net, cs: seq<Batching.Call>, c: Batching.Call)
    requires AllDelivered(n, net, NEW, cs)
    requires var s := RunOn(n, net, NEW, cs);
             Flushes(n, s, c) ==> Delivers(net, s) || exists m :: FailsAt(net, s, m)
    ensures Ordered(RunOn(n, net, NEW, cs)) && Ordered(RunOn(n, net, NEW, cs + [c]))
  {
    hide EncodeBatches, Flushes, Flushed, FailsAt, Delivers, RunOn, AllDelivered;
    EncodeNone();
    DeliveredRun(n, net, NEW, cs);
    RunOnSnoc(n, net, NEW, cs, c);
    var s := RunOn(n, net, NEW, cs);
    if Flushes(n, s, c) && !Delivers(net, s) {
      var m :| FailsAt(net, s, m);
      FailedFlush(net, s, m);
    } else {
      DeliveredCall(n, net, s, c);
    }
  }

  /**
   Calls `cs` whose flushes all delivered, then a call whose flush fails at its m-th send: the wire
   holds the delivered batches and m whole chunks of the next; the receiver handles exactly the
   delivered ones, never lacks space, and never sees the batch that failed.
   */
  lemma FirstFailure(n: nat, answers: Answers, net: Net, cs: seq<Batching.Call>, c: Batching.Call, m: nat, k: nat)
    requires n >= HEADER_SIZE && AllDelivered(n, net, NEW, cs)
    requires var s := RunOn(n, net, NEW, cs);
             Flushes(n, s, c) && FailsAt(net, s, m) && k <= |CallOn(n, net, s, c).wire|
    ensures var s := RunOn(n, net, NEW, cs);
            var s' := CallOn(n, net, s, c);
            var r := Absorb(n, answers, INIT, s'.wire[..k]);
            && s.box == Batching.DoAll(n, NEW.box, cs)
            && s'.wire == EncodeBatches(s.box.sent) + EncodeBatch(s.box.open)[..m * 65536]
            && !r.phase.Stuck?
            && r.calls <= FlattenEach(s.box.sent)
            && (k == |s'.wire| ==> r.calls == FlattenEach(s.box.sent))
  {
    hide Absorb, Step, EncodeBatch, EncodeBatches, FlattenEach, Arrived, Flushes, Flushed, FailsAt, RunOn, AllDelivered, Batching.Wellmade;
    EncodeNone();
    DeliveredRun(n, net, NEW, cs);
    RunKeepsFitFromNew(n, net, cs);
    var s := RunOn(n, net, NEW, cs);
    FailedFlush(net, s, m);
    var s' := CallOn(n, net, s, c);
    CallKeepsFit(n, net, s, c);
    FailedBox(net, s, m);
    ReceiverOfFailure(n, answers, s.box.sent, s.box.open, s', m * CHUNK_SIZE, k);
  }

  lemma FailedBox(net: Net, s: Sender, m: nat)
    requires FailsAt(net, s, m)
    ensures Batching.Flush(s.box).sent == s.box.sent + [s.box.open]
  {}

  lemma RunKeepsFitFromNew(n: nat, net: Net, cs: seq<Batching.Call>)
    requires n >= HEADER_SIZE
    ensures Batching.Wellmade(n, RunOn(n, net, NEW, cs).box)
  {
    RunKeepsFit(n, net, NEW, cs);
  }

  lemma ReceiverOfFailure(n: nat, answers: Answers, sent: seq<Batch>, open: Batch, s: Sender, j: nat, k: nat)
    requires Batching.Wellmade(n, s.box) && s.box.sent == sent + [open]
    requires j < |EncodeBatch(open)| && s.wire == EncodeBatches(sent) + EncodeBatch(open)[..j]
    requires Ordered(s) && k <= |s.wire|
    ensures var r := Absorb(n, answers, INIT, s.wire[..k]);
            && !r.phase.Stuck? && r.calls <= FlattenEach(sent)
            && (k == |s.wire| ==> r.calls == FlattenEach(sent))
  {
    hide Absorb, Step, EncodeBatch, EncodeBatches, FlattenEach, Arrived, Batching.Wellmade;
    var w := |s.wire|;
    OrderedDelivers(n, answers, s, k);
    OrderedDelivers(n, answers, s, w);
    ArrivedWithin(sent, open, j);
    assert s.box.sent[..|sent|] == sent;
    assert s.wire[..w] == s.wire == s.wire[..k] + s.wire[k..];
    AbsorbAppend(n, answers, INIT, s.wire[..k], s.wire[k..]);
    CallsGrow(n, answers, Absorb(n, answers, INIT, s.wire[..k]), s.wire[k..]);
  }
}
