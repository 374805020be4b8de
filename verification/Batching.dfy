/**
 What SendBuffer does to the commands put into it, while every Send succeeds; the batches
 it makes, and why no other way of cutting the same commands makes fewer.
 */
module Batching {
  import opened Bytes
  import opened Framing

  /** Bytes the commands of a batch take in the buffer, headers included. */
  function Used(cmds: Batch): (u: nat)
    ensures u >= HEADER_SIZE * |cmds|
  {
    if cmds == [] then 0 else Used(cmds[..|cmds| - 1]) + HEADER_SIZE + |cmds[|cmds| - 1]|
  }

  /** The batch and its closing marker fit a buffer of `n` bytes. */
  predicate Fits(n: nat, cmds: Batch) {
    Used(cmds) + HEADER_SIZE <= n
  }

  lemma NoneUsed()
    ensures Used([]) == 0
  {}

  lemma UsedSnoc(cmds: Batch, body: Payload)
    ensures Used(cmds + [body]) == Used(cmds) + HEADER_SIZE + |body|
  {
    assert (cmds + [body])[..|cmds|] == cmds;
  }

  lemma CommandFramesSnoc(cmds: Batch, body: Payload)
    ensures EncodeFrames(CommandFrames(cmds + [body]))
            == EncodeFrames(CommandFrames(cmds)) + Header(DATA, |body|) + body
  {
    hide EncodeFrames, Header;
    assert CommandFrames(cmds + [body]) == CommandFrames(cmds) + [Command(DATA, body)];
    EncodeFramesAppend(CommandFrames(cmds), [Command(DATA, body)]);
    EncodeOne(Command(DATA, body));
  }

  /** `Used` is the length of the encoding, and a header more than the payload per command. */
  lemma {:induction false} UsedIsLength(cmds: Batch)
    ensures |EncodeFrames(CommandFrames(cmds))| == Used(cmds)
    ensures Used(cmds) == HEADER_SIZE * |cmds| + |Flatten(cmds)|
    decreases |cmds|
  {
    if cmds != [] {
      var k := |cmds| - 1;
      assert cmds == cmds[..k] + [cmds[k]];
      UsedIsLength(cmds[..k]);
      CommandFramesSnoc(cmds[..k], cmds[k]);
      FlattenSnoc(cmds[..k], cmds[k]);
    }
  }

  /** The batches flushed so far and the commands still in the buffer. */
  datatype Outbox = Outbox(sent: seq<Batch>, open: Batch)

  /** A caller's step on the buffer. */
  datatype Call = Put(body: Payload) | FlushNow

  function Flush(o: Outbox): Outbox {
    if o.open == [] then o else Outbox(o.sent + [o.open], [])
  }

  /** GetCmdSpace for `body`, then the caller filling the space. */
  function PutOne(n: nat, o: Outbox, body: Payload): Outbox {
    if |body| + 2 * HEADER_SIZE > n then o
    else
      var o' := if n - |body| - 2 * HEADER_SIZE < Used(o.open) then Flush(o) else o;
      o'.(open := o'.open + [body])
  }

  function Do(n: nat, o: Outbox, c: Call): Outbox {
    match c
    case Put(body) => PutOne(n, o, body)
    case FlushNow => Flush(o)
  }

  function DoAll(n: nat, o: Outbox, cs: seq<Call>): Outbox {
    if cs == [] then o else Do(n, DoAll(n, o, cs[..|cs| - 1]), cs[|cs| - 1])
  }

  /** The commands GetCmdSpace has room for. */
  function Accepted(n: nat, cs: seq<Call>): Batch {
    if cs == [] then []
    else
      var c := cs[|cs| - 1];
      Accepted(n, cs[..|cs| - 1])
        + if c.Put? && |c.body| + 2 * HEADER_SIZE <= n then [c.body] else []
  }

  predicate Wellmade(n: nat, o: Outbox) {
    && (forall i :: 0 <= i < |o.sent| ==> o.sent[i] != [] && Fits(n, o.sent[i]))
    && Fits(n, o.open)
  }

  /** The commands issued, in order. */
  function Issued(o: Outbox): Batch {
    Flatten(o.sent) + o.open
  }

  lemma DoKeeps(n: nat, o: Outbox, c: Call)
    requires n >= HEADER_SIZE && Wellmade(n, o)
    ensures Wellmade(n, Do(n, o, c))
    ensures Issued(Do(n, o, c)) ==
            Issued(o) + if c.Put? && |c.body| + 2 * HEADER_SIZE <= n then [c.body] else []
  {
    hide Used, Flatten;
    FlattenSnoc(o.sent, o.open);
    assert Used([]) == 0 by { NoneUsed(); }
    if c.Put? {
      UsedSnoc(o.open, c.body);
      UsedSnoc([], c.body);
      assert [] + [c.body] == [c.body];
    }
  }

  /** After any calls: every batch is non-empty and fits, and no command is lost or reordered. */
  lemma {:induction false} CallsKeep(n: nat, cs: seq<Call>)
    requires n >= HEADER_SIZE
    ensures var o := DoAll(n, Outbox([], []), cs);
            Wellmade(n, o) && Issued(o) == Accepted(n, cs)
    decreases |cs|
  {
    if cs != [] {
      CallsKeep(n, cs[..|cs| - 1]);
      DoKeeps(n, DoAll(n, Outbox([], []), cs[..|cs| - 1]), cs[|cs| - 1]);
    }
  }

  // ---- optimality of the implicit flushes ----

  /** A way of cutting `cmds` into batches that fit, in order. */
  predicate Cut(n: nat, cmds: Batch, p: seq<Batch>) {
    Flatten(p) == cmds && forall i :: 0 <= i < |p| ==> Fits(n, p[i])
  }

  function Puts(cmds: Batch): (cs: seq<Call>)
    ensures |cs| == |cmds|
  {
    seq(|cmds|, i requires 0 <= i < |cmds| => Put(cmds[i]))
  }

  /** The buffer after putting all of `cmds` without a caller's flush. */
  function Greedy(n: nat, cmds: Batch): Outbox {
    DoAll(n, Outbox([], []), Puts(cmds))
  }

  lemma DoPutsSnoc(n: nat, o: Outbox, cmds: Batch, body: Payload)
    ensures DoAll(n, o, Puts(cmds + [body])) == PutOne(n, DoAll(n, o, Puts(cmds)), body)
  {
    assert Puts(cmds + [body])[..|cmds|] == Puts(cmds);
  }

  lemma GreedySnoc(n: nat, cmds: Batch, body: Payload)
    ensures Greedy(n, cmds + [body]) == PutOne(n, Greedy(n, cmds), body)
  {
    DoPutsSnoc(n, Outbox([], []), cmds, body);
  }

  lemma GreedyOpen(n: nat, cmds: Batch)
    requires cmds != []
    requires forall i :: 0 <= i < |cmds| ==> |cmds[i]| + 2 * HEADER_SIZE <= n
    ensures Greedy(n, cmds).open != []
  {
    var k := |cmds| - 1;
    assert cmds == cmds[..k] + [cmds[k]];
    GreedySnoc(n, cmds[..k], cmds[k]);
  }

  lemma CutWithoutLast(n: nat, cmds: Batch, q: seq<Batch>, last: Batch)
    requires last != [] && Cut(n, cmds, q + [last])
    ensures var b := last[..|last| - 1];
            && cmds != [] && last == b + [cmds[|cmds| - 1]]
            && Cut(n, cmds[..|cmds| - 1], q + [b])
  {
    var b, x := last[..|last| - 1], last[|last| - 1];
    assert last == b + [x];
    FlattenSnoc(q, last);
    FlattenSnoc(q, b);
    assert cmds == Flatten(q) + b + [x];
    UsedSnoc(b, x);
    forall i | 0 <= i < |q + [b]| ensures Fits(n, (q + [b])[i]) {
      assert i < |q| ==> (q + [last])[i] == q[i];
      assert (q + [last])[|q|] == last;
    }
  }

  /** The buffer after one more command. */
  lemma GreedyStep(n: nat, cmds: Batch, x: Payload)
    requires forall i :: 0 <= i < |cmds| ==> |cmds[i]| + 2 * HEADER_SIZE <= n
    requires |x| + 2 * HEADER_SIZE <= n
    ensures var g, g' := Greedy(n, cmds), Greedy(n, cmds + [x]);
            var room := Used(g.open) + HEADER_SIZE + |x| + HEADER_SIZE <= n;
            && |g'.sent| == (if room then |g.sent| else |g.sent| + 1)
            && Used(g'.open) == HEADER_SIZE + |x| + (if room then Used(g.open) else 0)
            && (cmds == [] ==> g == Outbox([], []) && room)
  {
    hide Greedy;
    GreedySnoc(n, cmds, x);
    UsedSnoc(Greedy(n, cmds).open, x);
    UsedSnoc([], x);
    assert [] + [x] == [x];
    if cmds == [] {
      GreedyNone(n);
    } else {
      GreedyOpen(n, cmds);
    }
  }

  lemma GreedyNone(n: nat)
    ensures Greedy(n, []) == Outbox([], [])
  {
    assert Puts([]) == [];
  }

  /**
   Greedy stays ahead: it has made no more batches than any cut of the same commands, and
   when it has made as many its open batch is no fuller than the cut's last one.
   */
  lemma {:induction false} GreedyStaysAhead(n: nat, cmds: Batch, p: seq<Batch>)
    requires forall i :: 0 <= i < |cmds| ==> |cmds[i]| + 2 * HEADER_SIZE <= n
    requires cmds != [] && Cut(n, cmds, p)
    ensures var g := Greedy(n, cmds);
            && |g.sent| + 1 <= |p|
            && (|g.sent| + 1 == |p| ==> Used(g.open) <= Used(p[|p| - 1]))
    decreases |p|, |cmds|
  {
    hide Used, Greedy;
    var q, last := p[..|p| - 1], p[|p| - 1];
    assert p == q + [last];
    FlattenSnoc(q, last);
    if last == [] {
      GreedyStaysAhead(n, cmds, q);
    } else {
      var shorter, x, b := cmds[..|cmds| - 1], cmds[|cmds| - 1], last[..|last| - 1];
      CutWithoutLast(n, cmds, q, last);
      UsedSnoc(b, x);
      assert cmds == shorter + [x] && last == b + [x];
      assert Fits(n, p[|p| - 1]);
      if shorter != [] {
        GreedyStaysAhead(n, shorter, q + [b]);
      }
      GreedyStep(n, shorter, x);
    }
  }

  /** No cut of the commands into fitting batches has fewer batches than the final flush leaves. */
  lemma GreedyIsOptimal(n: nat, cmds: Batch, p: seq<Batch>)
    requires n >= HEADER_SIZE
    requires forall i :: 0 <= i < |cmds| ==> |cmds[i]| + 2 * HEADER_SIZE <= n
    requires Cut(n, cmds, p)
    ensures var made := Flush(Greedy(n, cmds)).sent;
            Cut(n, cmds, made) && |made| <= |p|
  {
    GreedyCuts(n, cmds);
    if cmds != [] {
      GreedyStaysAhead(n, cmds, p);
    }
  }

  lemma {:induction false} AllAccepted(n: nat, cmds: Batch)
    requires forall i :: 0 <= i < |cmds| ==> |cmds[i]| + 2 * HEADER_SIZE <= n
    ensures Accepted(n, Puts(cmds)) == cmds
    decreases |cmds|
  {
    if cmds != [] {
      var k := |cmds| - 1;
      assert Puts(cmds)[..k] == Puts(cmds[..k]);
      AllAccepted(n, cmds[..k]);
    }
  }

  lemma GreedyCuts(n: nat, cmds: Batch)
    requires n >= HEADER_SIZE
    requires forall i :: 0 <= i < |cmds| ==> |cmds[i]| + 2 * HEADER_SIZE <= n
    ensures Cut(n, cmds, Flush(Greedy(n, cmds)).sent)
  {
    CallsKeep(n, Puts(cmds));
    AllAccepted(n, cmds);
    var g := Greedy(n, cmds);
    FlattenSnoc(g.sent, g.open);
    if g.open == [] {
      assert Flatten(g.sent) + [] == Flatten(g.sent);
    }
  }
}
