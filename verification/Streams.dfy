/** Any byte stream at all: the pure recursive decoder the receiver agrees with, and when it stops. */
module Streams {
  import opened Bytes
  import opened Framing
  import opened Receiver
  import opened RecvBuffers
  import opened Transport

  /** The state after the whole frames of a stream. */
  function AfterFrames(n: nat, fs: seq<Frame>): State {
    Delivered([], Group([], WithImplicitMarkers(n, 0, fs)))
  }

  /** The receiver's state, from the frames of the whole stream and the incomplete tail. */
  function Meaning(n: nat, s: seq<byte>): State {
    var p := ParseFrames(s);
    var q := AfterFrames(n, p.frames);
    if |p.rest| < HEADER_SIZE then q.(phase := InHeader(p.rest))
    else
      var len, got := LenOf(p.rest[..HEADER_SIZE]), p.rest[HEADER_SIZE..];
      var phase := if |got| < len then InBody(len - |got|) else InHeader([]);
      if |q.filled| + len > n then State(q.calls + [q.filled], got, phase)
      else State(q.calls, q.filled + got, phase)
  }

  /** There is space for every command of the stream, also for the last, incomplete one. */
  predicate StreamServed(n: nat, answers: Answers, s: seq<byte>) {
    var p := ParseFrames(s);
    Served(n, answers, 0, 0, p.frames) && TailServed(n, answers, AfterFrames(n, p.frames), p.rest)
  }

  predicate TailServed(n: nat, answers: Answers, q: State, rest: seq<byte>) {
    |rest| >= HEADER_SIZE ==>
      var len := LenOf(rest[..HEADER_SIZE]);
      len <= n && (|q.filled| + len > n ==> answers(|q.calls|))
  }

  lemma RestIsCommand(s: seq<byte>)
    ensures var rest := ParseFrames(s).rest;
            |rest| >= HEADER_SIZE ==>
              && KindOf(rest[..HEADER_SIZE]) != MARKER
              && |rest| - HEADER_SIZE < LenOf(rest[..HEADER_SIZE])
  {
    EncodeParse(s);
  }

  lemma FramesFromStart(n: nat, answers: Answers, fs: seq<Frame>)
    requires Served(n, answers, 0, 0, fs)
    ensures Ready(n, INIT) && Ready(n, AfterFrames(n, fs))
    ensures Absorb(n, answers, INIT, EncodeFrames(fs)) == AfterFrames(n, fs)
  {
    hide Absorb, Step, EncodeFrames;
    FramesMean(n, answers, INIT, [], fs);
  }

  /**
   While there is space, the calls, the buffer and the parser's position are those of the
   decoder, whatever the handler answers at markers.
   */
  lemma StreamMeans(n: nat, answers: Answers, s: seq<byte>)
    requires StreamServed(n, answers, s)
    ensures Absorb(n, answers, INIT, s) == Meaning(n, s)
  {
    hide Absorb, Step, EncodeFrames, ParseFrames, AfterFrames, KindOf, LenOf;
    var p := ParseFrames(s);
    EncodeParse(s);
    RestIsCommand(s);
    FramesFromStart(n, answers, p.frames);
    AbsorbAppend(n, answers, INIT, EncodeFrames(p.frames), p.rest);
    TailMeans(n, answers, AfterFrames(n, p.frames), p.rest);
  }

  lemma TailMeans(n: nat, answers: Answers, q: State, rest: seq<byte>)
    requires Ready(n, q) && TailServed(n, answers, q, rest)
    requires |rest| >= HEADER_SIZE ==>
               KindOf(rest[..HEADER_SIZE]) != MARKER && |rest| - HEADER_SIZE < LenOf(rest[..HEADER_SIZE])
    ensures Absorb(n, answers, q, rest) ==
            if |rest| < HEADER_SIZE then q.(phase := InHeader(rest))
            else
              var len, got := LenOf(rest[..HEADER_SIZE]), rest[HEADER_SIZE..];
              if |q.filled| + len > n then State(q.calls + [q.filled], got, InBody(len - |got|))
              else State(q.calls, q.filled + got, InBody(len - |got|))
  {
    hide Absorb, Step, KindOf, LenOf;
    if |rest| < HEADER_SIZE {
      AbsorbPartialHeader(n, answers, q, rest);
      assert [] + rest == rest;
    } else {
      var h, got := rest[..HEADER_SIZE], rest[HEADER_SIZE..];
      assert rest == h + got && [] + h == h && [] + got == got;
      AbsorbCommandStart(n, answers, q, h, got);
    }
  }

  /**
   Space is missing exactly when a length exceeds the buffer or the handler refuses an implicit
   flush: for every handler and every stream.
   */
  lemma StuckExactly(n: nat, answers: Answers, s: seq<byte>)
    ensures Absorb(n, answers, INIT, s).phase.Stuck? <==> !StreamServed(n, answers, s)
  {
    hide Absorb, Step, EncodeFrames, ParseFrames, AfterFrames, KindOf, LenOf, Served;
    var p := ParseFrames(s);
    EncodeParse(s);
    RestIsCommand(s);
    if StreamServed(n, answers, s) {
      StreamMeans(n, answers, s);
    } else if !Served(n, answers, 0, 0, p.frames) {
      UnservedSticks(n, answers, INIT, p.frames, p.rest);
    } else {
      FramesFromStart(n, answers, p.frames);
      AbsorbAppend(n, answers, INIT, EncodeFrames(p.frames), p.rest);
      var h, got := p.rest[..HEADER_SIZE], p.rest[HEADER_SIZE..];
      assert p.rest == h + got;
      TooLongSticks(n, answers, Absorb(n, answers, INIT, EncodeFrames(p.frames)), h, got);
    }
  }

  /**
   Two commands that fill the buffer each: nothing is too long, and the receiver stops when the
   handler refuses the flush that makes room for the second.
   */
  lemma RefusedFlushSticks(n: u64, answers: Answers)
    requires 0 < n && !answers(0)
    ensures var body := seq(n, _ => 0);
            var fs := [Command(DATA, body), Command(DATA, body)];
            BodiesFit(n, fs) && Absorb(n, answers, INIT, EncodeFrames(fs)).phase.Stuck?
  {
    hide Absorb, Step, EncodeFrames;
    var body: Payload := seq(n, _ => 0);
    var fs := [Command(DATA, body), Command(DATA, body)];
    assert fs[1..] == [Command(DATA, body)];
    assert !Served(n, answers, 0, 0, fs) by {
      assert !Served(n, answers, 0, n, fs[1..]);
    }
    UnservedSticks(n, answers, INIT, fs, []);
    assert EncodeFrames(fs) + [] == EncodeFrames(fs);
  }

  /**
   Fragmentation independence on the parser itself: fed any non-empty chunks, it ends where the
   decoder says for their concatenation, and is out of space exactly when that stream is not served.
   */
  method FeedAll(loop: RecvLoop, rbuf: RecvBuffer, chunks: seq<seq<byte>>) returns (ok: bool)
    requires loop.Valid(rbuf) && loop.View(rbuf) == INIT
    requires forall i :: 0 <= i < |chunks| ==> chunks[i] != []
    modifies loop, loop.cmd, rbuf, rbuf.mBuffer, rbuf.mHandler
    ensures ok == StreamServed(rbuf.mBuffer.Length, rbuf.mHandler.answers, Flatten(chunks))
    ensures rbuf.mHandler.calls == Absorb(rbuf.mBuffer.Length, rbuf.mHandler.answers, INIT, Flatten(chunks)).calls
    ensures ok ==> loop.Valid(rbuf) && loop.View(rbuf) == Meaning(rbuf.mBuffer.Length, Flatten(chunks))
  {
    hide Absorb, Step, Flatten, StreamServed, Meaning;
    ghost var n, answers := rbuf.mBuffer.Length, rbuf.mHandler.answers;
    AbsorbNothing(n, answers, INIT);
    FlattenNone<byte>();
    assert chunks[..0] == [];
    var i := 0;
    while i < |chunks|
      invariant 0 <= i <= |chunks|
      invariant loop.Valid(rbuf) && loop.View(rbuf) == Absorb(n, answers, INIT, Flatten(chunks[..i]))
      invariant rbuf.mHandler.answers == answers
    {
      var chunk := chunks[i];
      var recvBuf := new byte[|chunk|](j requires 0 <= j < |chunk| => chunk[j]);
      assert recvBuf[..|chunk|] == chunk;
      ChunkStep(n, answers, chunks, i);
      ok := loop.Feed(rbuf, recvBuf, |chunk|);
      if !ok {
        StuckExactly(n, answers, Flatten(chunks));
        return;
      }
      i := i + 1;
    }
    assert chunks[..i] == chunks;
    StuckExactly(n, answers, Flatten(chunks));
    if StreamServed(n, answers, Flatten(chunks)) {
      StreamMeans(n, answers, Flatten(chunks));
    }
    ok := true;
  }

  lemma FlattenNone<T>()
    ensures Flatten<T>([]) == []
  {}

  lemma ChunkStep(n: nat, answers: Answers, chunks: seq<seq<byte>>, i: nat)
    requires i < |chunks|
    ensures var r := Absorb(n, answers, INIT, Flatten(chunks[..i]));
            var r' := Absorb(n, answers, r, chunks[i]);
            && Absorb(n, answers, INIT, Flatten(chunks[..i + 1])) == r'
            && (r'.phase.Stuck? ==> Absorb(n, answers, INIT, Flatten(chunks)) == r')
  {
    hide Absorb, Step, Flatten;
    var done := Flatten(chunks[..i + 1]);
    assert chunks[..i + 1] == chunks[..i] + [chunks[i]];
    FlattenSnoc(chunks[..i], chunks[i]);
    AbsorbAppend(n, answers, INIT, Flatten(chunks[..i]), chunks[i]);
    assert chunks == chunks[..i + 1] + chunks[i + 1..];
    FlattenAppend(chunks[..i + 1], chunks[i + 1..]);
    if Absorb(n, answers, INIT, done).phase.Stuck? {
      StuckForGood(n, answers, INIT, done, Flatten(chunks[i + 1..]));
    }
  }
}
