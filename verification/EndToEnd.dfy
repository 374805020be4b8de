/** SendBuffer's output against the receiver: every call sequence, every cut of the stream. */
module EndToEnd {
  import opened Bytes
  import opened Framing
  import opened Receiver
  import Batching

  predicate AllFit(n: nat, bs: seq<Batch>) {
    forall i :: 0 <= i < |bs| ==> Batching.Fits(n, bs[i])
  }

  /** Commands of one batch pile up; the space never runs out, whatever the handler answers. */
  lemma {:induction false} CommandsMean(n: nat, answers: Answers, r: State, cmds: Batch)
    requires Ready(n, r) && |r.filled| + |Flatten(cmds)| <= n
    ensures Absorb(n, answers, r, EncodeFrames(CommandFrames(cmds)))
            == r.(filled := r.filled + Flatten(cmds))
    decreases |cmds|
  {
    hide Absorb, Step, EncodeFrame;
    var fs := CommandFrames(cmds);
    if cmds == [] {
      AbsorbNothing(n, answers, r);
      assert r.filled + [] == r.filled;
    } else {
      var f := Command(DATA, cmds[0]);
      assert fs[0] == f && fs[1..] == CommandFrames(cmds[1..]);
      AbsorbAppend(n, answers, r, EncodeFrame(f), EncodeFrames(fs[1..]));
      AbsorbCommand(n, answers, r, f);
      var q := r.(filled := r.filled + cmds[0]);
      CommandsMean(n, answers, q, cmds[1..]);
      assert q.filled + Flatten(cmds[1..]) == r.filled + Flatten(cmds);
    }
  }

  /** One batch is one handler call with exactly its payload. */
  lemma BatchMeans(n: nat, answers: Answers, r: State, b: Batch)
    requires Ready(n, r) && r.filled == [] && Batching.Fits(n, b)
    ensures Absorb(n, answers, r, EncodeBatch(b)) == State(r.calls + [Flatten(b)], [], InHeader([]))
  {
    hide Absorb, Step;
    Batching.UsedIsLength(b);
    CommandsMean(n, answers, r, b);
    AbsorbAppend(n, answers, r, EncodeFrames(CommandFrames(b)), Header(MARKER, 0));
    assert r.filled + Flatten(b) == Flatten(b);
    AbsorbMarker(n, answers, r.(filled := Flatten(b)), 0);
  }

  /** A batch that has not fully arrived makes no call and asks for no space that is not there. */
  lemma PartBatchMeans(n: nat, answers: Answers, r: State, b: Batch, k: nat)
    requires Ready(n, r) && r.filled == [] && Batching.Fits(n, b)
    requires k < |EncodeBatch(b)|
    ensures var q := Absorb(n, answers, r, EncodeBatch(b)[..k]);
            q.calls == r.calls && !q.phase.Stuck?
  {
    hide Absorb, Step, EncodeFrames, CommandFrames, Header, Flatten, Batching.Used;
    var body, s := EncodeFrames(CommandFrames(b)), EncodeBatch(b);
    Batching.UsedIsLength(b);
    CommandsMean(n, answers, r, b);
    var full := Absorb(n, answers, r, body);
    if k <= |body| {
      assert s[..k] == body[..k] && body == body[..k] + body[k..];
      var q := Absorb(n, answers, r, body[..k]);
      AbsorbAppend(n, answers, r, body[..k], body[k..]);
      CallsGrow(n, answers, r, body[..k]);
      CallsGrow(n, answers, q, body[k..]);
      if q.phase.Stuck? {
        AbsorbStuck(n, answers, q, body[k..]);
      }
    } else {
      var h := Header(MARKER, 0)[..k - |body|];
      assert s[..k] == body + h;
      AbsorbAppend(n, answers, r, body, h);
      AbsorbPartialHeader(n, answers, full, h);
    }
  }

  lemma BatchThen(n: nat, answers: Answers, r: State, b: Batch, later: seq<byte>)
    requires Ready(n, r) && r.filled == [] && Batching.Fits(n, b)
    ensures Absorb(n, answers, r, EncodeBatch(b) + later)
            == Absorb(n, answers, State(r.calls + [Flatten(b)], [], InHeader([])), later)
  {
    hide Absorb, Step, EncodeBatch, Batching.Fits;
    BatchMeans(n, answers, r, b);
    AbsorbAppend(n, answers, r, EncodeBatch(b), later);
  }

  lemma {:induction false} BatchesMean(n: nat, answers: Answers, r: State, bs: seq<Batch>)
    requires Ready(n, r) && r.filled == [] && AllFit(n, bs)
    ensures Absorb(n, answers, r, EncodeBatches(bs)) == State(r.calls + FlattenEach(bs), [], InHeader([]))
    decreases |bs|
  {
    hide Absorb, Step, EncodeBatch, EncodeBatches, Flatten, Batching.Fits;
    if bs == [] {
      EncodeNone();
      AbsorbNothing(n, answers, r);
      assert r.calls + FlattenEach(bs) == r.calls;
    } else {
      EncodeBatchesCons(bs[0], bs[1..]);
      assert bs == [bs[0]] + bs[1..];
      BatchThen(n, answers, r, bs[0], EncodeBatches(bs[1..]));
      var q := State(r.calls + [Flatten(bs[0])], [], InHeader([]));
      BatchesMean(n, answers, q, bs[1..]);
      assert q.calls + FlattenEach(bs[1..]) == r.calls + FlattenEach(bs);
    }
  }

  /** How many of the batches have wholly arrived with the first `k` bytes. */
  function Arrived(bs: seq<Batch>, k: nat): (m: nat)
    ensures m <= |bs|
  {
    if bs == [] || k < |EncodeBatch(bs[0])| then 0
    else 1 + Arrived(bs[1..], k - |EncodeBatch(bs[0])|)
  }

  lemma {:induction false} ArrivedAll(bs: seq<Batch>)
    ensures Arrived(bs, |EncodeBatches(bs)|) == |bs|
    decreases |bs|
  {
    hide EncodeBatch, EncodeBatches;
    if bs == [] {
      EncodeNone();
    } else {
      assert bs == [bs[0]] + bs[1..];
      EncodeBatchesCons(bs[0], bs[1..]);
      ArrivedAll(bs[1..]);
    }
  }

  /** The first `k` bytes are the arrived batches and a proper part of the next one. */
  lemma {:induction false} ArrivedSplit(bs: seq<Batch>, k: nat) returns (j: nat)
    requires k <= |EncodeBatches(bs)|
    ensures var m, s := Arrived(bs, k), EncodeBatches(bs);
            if m == |bs| then s[..k] == EncodeBatches(bs[..m])
            else j < |EncodeBatch(bs[m])| && s[..k] == EncodeBatches(bs[..m]) + EncodeBatch(bs[m])[..j]
    decreases |bs|
  {
    hide EncodeBatch, EncodeFrames;
    var m, s := Arrived(bs, k), EncodeBatches(bs);
    j := k;
    if bs == [] {
      assert bs[..m] == bs && s[..k] == s by { EncodeNone(); }
    } else {
      var e, later := EncodeBatch(bs[0]), EncodeBatches(bs[1..]);
      assert bs == [bs[0]] + bs[1..];
      EncodeBatchesCons(bs[0], bs[1..]);
      if k < |e| {
        EncodeNone();
        assert bs[..0] == [] && s[..k] == [] + e[..k];
      } else {
        j := ArrivedSplit(bs[1..], k - |e|);
        assert bs[..m] == [bs[0]] + bs[1..][..m - 1];
        EncodeBatchesCons(bs[0], bs[1..][..m - 1]);
        assert s[..k] == e + later[..k - |e|];
      }
    }
  }

  lemma EncodeNone()
    ensures EncodeBatches([]) == []
  {}

  /**
   After any `k` bytes of what SendBuffer sent, in any chunks and under any handler: one call
   per wholly arrived batch, with its concatenated payloads, and space for every command.
   */
  lemma PrefixDelivers(n: nat, answers: Answers, r: State, bs: seq<Batch>, k: nat)
    requires Ready(n, r) && r.filled == [] && AllFit(n, bs)
    requires k <= |EncodeBatches(bs)|
    ensures var q := Absorb(n, answers, r, EncodeBatches(bs)[..k]);
            && q.calls == r.calls + FlattenEach(bs[..Arrived(bs, k)])
            && !q.phase.Stuck?
  {
    hide Absorb, Step, EncodeBatch, EncodeBatches, Batching.Fits, Arrived, FlattenEach;
    var m := Arrived(bs, k);
    var j := ArrivedSplit(bs, k);
    BatchesMean(n, answers, r, bs[..m]);
    if m < |bs| {
      AbsorbAppend(n, answers, r, EncodeBatches(bs[..m]), EncodeBatch(bs[m])[..j]);
      PartBatchMeans(n, answers, State(r.calls + FlattenEach(bs[..m]), [], InHeader([])), bs[m], j);
    }
  }

  /**
   Any calls on the sending side, any prefix of the stream on the receiving side: the handler
   has seen a prefix of the batches, and all of them once every byte is there.
   */
  lemma EndToEnd(n: nat, answers: Answers, cs: seq<Batching.Call>, k: nat)
    requires n >= HEADER_SIZE
    requires k <= |EncodeBatches(Batching.DoAll(n, Batching.Outbox([], []), cs).sent)|
    ensures var o := Batching.DoAll(n, Batching.Outbox([], []), cs);
            var stream := EncodeBatches(o.sent);
            var r := Absorb(n, answers, INIT, stream[..k]);
            && !r.phase.Stuck?
            && r.calls <= FlattenEach(o.sent)
            && (k == |stream| ==> r == State(FlattenEach(o.sent), [], InHeader([])))
            && Flatten(o.sent) + o.open == Batching.Accepted(n, cs)
  {
    hide Absorb, Step, FlattenEach, EncodeBatches, Arrived, Batching.Fits, Batching.DoAll;
    Batching.CallsKeep(n, cs);
    var o := Batching.DoAll(n, Batching.Outbox([], []), cs);
    var stream := EncodeBatches(o.sent);
    PrefixDelivers(n, answers, INIT, o.sent, k);
    BatchesMean(n, answers, INIT, o.sent);
    var m := Arrived(o.sent, k);
    FlattenEachAppend(o.sent[..m], o.sent[m..]);
    assert o.sent == o.sent[..m] + o.sent[m..];
    assert stream[..|stream|] == stream;
    assert INIT.calls + FlattenEach(o.sent) == FlattenEach(o.sent);
  }
}
