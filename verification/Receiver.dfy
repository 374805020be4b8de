/**
 What Recv does to the receive buffer and its handler, one byte at a time: the reference
 the bulk-copying parser refines, and the results about whole streams.
 */
module Receiver {
  import opened Bytes
  import opened Framing

  /** `answers(i)` says whether the i-th handler call succeeds: any handler, on any run. */
  type Answers = nat -> bool

  /** Stuck: GetCmdSpace returned no space for a command the stream announces. */
  datatype Phase = InHeader(got: seq<byte>) | InBody(left: nat) | Stuck

  /** The handler calls so far, the bytes placed since the last flush, the parser's position. */
  datatype State = State(calls: seq<seq<byte>>, filled: seq<byte>, phase: Phase)

  const INIT := State([], [], InHeader([]))

  predicate WellFormed(n: nat, r: State) {
    match r.phase
    case InHeader(got) => |got| < HEADER_SIZE && |r.filled| <= n
    case InBody(left) => 0 < left && |r.filled| + left <= n
    case Stuck => true
  }

  function Await(len: nat): Phase {
    if len == 0 then InHeader([]) else InBody(len)
  }

  /** RecvBuffer::Flush, called at a marker. */
  function Flush(r: State): State {
    State(r.calls + [r.filled], [], InHeader([]))
  }

  /** RecvBuffer::GetCmdSpace, called when the header of a `len`-byte command is complete. */
  function Reserve(n: nat, answers: Answers, r: State, len: nat): State {
    if len > n then
      r.(phase := Stuck)
    else if n - len < |r.filled| then
      State(r.calls + [r.filled], [], if answers(|r.calls|) then Await(len) else Stuck)
    else
      r.(phase := Await(len))
  }

  function OnHeader(n: nat, answers: Answers, r: State, h: seq<byte>): State
    requires |h| == HEADER_SIZE
  {
    if KindOf(h) == MARKER then Flush(r) else Reserve(n, answers, r, LenOf(h))
  }

  function Step(n: nat, answers: Answers, r: State, b: byte): (r': State)
    requires WellFormed(n, r)
    ensures WellFormed(n, r')
  {
    match r.phase
    case InHeader(got) =>
      if |got| + 1 < HEADER_SIZE then r.(phase := InHeader(got + [b]))
      else OnHeader(n, answers, r, got + [b])
    case InBody(left) => State(r.calls, r.filled + [b], Await(left - 1))
    case Stuck => r
  }

  function Absorb(n: nat, answers: Answers, r: State, s: seq<byte>): (r': State)
    requires WellFormed(n, r)
    ensures WellFormed(n, r')
    decreases |s|
  {
    if s == [] then r else Absorb(n, answers, Step(n, answers, r, s[0]), s[1..])
  }

  // ---- how runs compose ----

  lemma AbsorbNothing(n: nat, answers: Answers, r: State)
    requires WellFormed(n, r)
    ensures Absorb(n, answers, r, []) == r
  {}

  lemma {:induction false} AbsorbAppend(n: nat, answers: Answers, r: State, a: seq<byte>, b: seq<byte>)
    requires WellFormed(n, r)
    ensures Absorb(n, answers, r, a + b) == Absorb(n, answers, Absorb(n, answers, r, a), b)
    decreases |a|
  {
    if a == [] {
      assert a + b == b;
    } else {
      assert (a + b)[1..] == a[1..] + b;
      AbsorbAppend(n, answers, Step(n, answers, r, a[0]), a[1..], b);
    }
  }

  lemma {:induction false} AbsorbPartialHeader(n: nat, answers: Answers, r: State, s: seq<byte>)
    requires WellFormed(n, r) && r.phase.InHeader? && |r.phase.got| + |s| < HEADER_SIZE
    ensures Absorb(n, answers, r, s) == r.(phase := InHeader(r.phase.got + s))
    decreases |s|
  {
    if s == [] {
      assert r.phase.got + s == r.phase.got;
    } else {
      AbsorbPartialHeader(n, answers, Step(n, answers, r, s[0]), s[1..]);
      assert r.phase.got + [s[0]] + s[1..] == r.phase.got + s;
    }
  }

  lemma AbsorbHeader(n: nat, answers: Answers, r: State, s: seq<byte>)
    requires WellFormed(n, r) && r.phase.InHeader? && |r.phase.got| + |s| == HEADER_SIZE
    ensures Absorb(n, answers, r, s) == OnHeader(n, answers, r, r.phase.got + s)
  {
    var k := |s| - 1;
    var r' := r.(phase := InHeader(r.phase.got + s[..k]));
    assert s == s[..k] + [s[k]];
    AbsorbAppend(n, answers, r, s[..k], [s[k]]);
    AbsorbPartialHeader(n, answers, r, s[..k]);
    assert Absorb(n, answers, r', [s[k]]) == Step(n, answers, r', s[k]);
    assert r.phase.got + s[..k] + [s[k]] == r.phase.got + s;
  }

  lemma {:induction false} AbsorbBody(n: nat, answers: Answers, r: State, s: seq<byte>)
    requires WellFormed(n, r) && r.phase.InBody? && |s| <= r.phase.left
    ensures Absorb(n, answers, r, s) == State(r.calls, r.filled + s, Await(r.phase.left - |s|))
    decreases |s|
  {
    if s == [] {
      assert r.filled + s == r.filled;
    } else {
      if |s| > 1 {
        AbsorbBody(n, answers, Step(n, answers, r, s[0]), s[1..]);
      }
      assert r.filled + [s[0]] + s[1..] == r.filled + s;
    }
  }

  lemma {:induction false} AbsorbStuck(n: nat, answers: Answers, r: State, s: seq<byte>)
    requires r.phase.Stuck?
    ensures Absorb(n, answers, r, s) == r
    decreases |s|
  {
    if s != [] {
      AbsorbStuck(n, answers, r, s[1..]);
    }
  }

  lemma {:induction false} CallsGrow(n: nat, answers: Answers, r: State, s: seq<byte>)
    requires WellFormed(n, r)
    ensures r.calls <= Absorb(n, answers, r, s).calls
    decreases |s|
  {
    if s != [] {
      CallsGrow(n, answers, Step(n, answers, r, s[0]), s[1..]);
    }
  }

  lemma SplitPiece(n: nat, answers: Answers, r: State, s: seq<byte>, i: nat, j: nat)
    requires WellFormed(n, r) && i <= j <= |s|
    ensures Absorb(n, answers, r, s[..j]) == Absorb(n, answers, Absorb(n, answers, r, s[..i]), s[i..j])
  {
    hide Absorb, Step;
    assert s[..j] == s[..i] + s[i..j];
    AbsorbAppend(n, answers, r, s[..i], s[i..j]);
  }

  lemma StuckForGood(n: nat, answers: Answers, r: State, a: seq<byte>, b: seq<byte>)
    requires WellFormed(n, r) && Absorb(n, answers, r, a).phase.Stuck?
    ensures Absorb(n, answers, r, a + b) == Absorb(n, answers, r, a)
  {
    hide Absorb, Step;
    hide Absorb;
    var q := Absorb(n, answers, r, a);
    AbsorbAppend(n, answers, r, a, b);
    AbsorbStuck(n, answers, q, b);
  }

  /** The end of a data header followed by the start of its body. */
  lemma AbsorbCommandStart(n: nat, answers: Answers, r: State, h: seq<byte>, got: seq<byte>)
    requires WellFormed(n, r) && r.phase.InHeader? && |r.phase.got| + |h| == HEADER_SIZE
    requires KindOf(r.phase.got + h) != MARKER
    ensures var len := LenOf(r.phase.got + h);
            var q := Reserve(n, answers, r, len);
            if q.phase.Stuck? then Absorb(n, answers, r, h + got) == q
            else |got| <= len ==>
              Absorb(n, answers, r, h + got) == State(q.calls, q.filled + got, Await(len - |got|))
  {
    hide Absorb, Step;
    var len := LenOf(r.phase.got + h);
    var q := Reserve(n, answers, r, len);
    AbsorbAppend(n, answers, r, h, got);
    AbsorbHeader(n, answers, r, h);
    if q.phase.Stuck? {
      AbsorbStuck(n, answers, q, got);
    } else if q.phase.InBody? && |got| <= len {
      AbsorbBody(n, answers, q, got);
    } else if |got| <= len {
      assert got == [] && q.filled + got == q.filled;
      AbsorbNothing(n, answers, q);
    }
  }

  // ---- conservation on every stream ----

  /** The body bytes among `s` for a parser at `phase`: what is neither header nor marker. */
  function BodyBytes(phase: Phase, s: seq<byte>): seq<byte>
    requires phase.InHeader? ==> |phase.got| < HEADER_SIZE
    requires phase.InBody? ==> 0 < phase.left
    decreases |s|
  {
    if s == [] || phase.Stuck? then []
    else match phase
      case InHeader(got) =>
        var h := got + [s[0]];
        if |h| < HEADER_SIZE then BodyBytes(InHeader(h), s[1..])
        else BodyBytes(if KindOf(h) == MARKER then InHeader([]) else Await(LenOf(h)), s[1..])
      case InBody(left) => [s[0]] + BodyBytes(Await(left - 1), s[1..])
  }

  /** Nothing placed in the buffer is lost, repeated or reordered on its way to the handler. */
  lemma {:induction false} Conservation(n: nat, answers: Answers, r: State, s: seq<byte>)
    requires WellFormed(n, r)
    requires !Absorb(n, answers, r, s).phase.Stuck?
    ensures var r' := Absorb(n, answers, r, s);
            Flatten(r'.calls) + r'.filled == Flatten(r.calls) + r.filled + BodyBytes(r.phase, s)
    decreases |s|
  {
    hide KindOf, LenOf, Flatten;
    if s != [] {
      var q := Step(n, answers, r, s[0]);
      if q.phase.Stuck? {
        AbsorbStuck(n, answers, q, s[1..]);
      } else {
        Conservation(n, answers, q, s[1..]);
        FlattenSnoc(r.calls, r.filled);
      }
    }
  }

  // ---- the frame-level meaning of a stream ----

  /** An implicit flush acts as a marker in front of the command that would overflow. */
  function WithImplicitMarkers(n: nat, used: nat, fs: seq<Frame>): seq<Frame>
    decreases |fs|
  {
    if fs == [] then []
    else match fs[0]
      case Command(_, body) =>
        if used + |body| > n then [Marker(0), fs[0]] + WithImplicitMarkers(n, |body|, fs[1..])
        else [fs[0]] + WithImplicitMarkers(n, used + |body|, fs[1..])
      case Marker(_) => [fs[0]] + WithImplicitMarkers(n, 0, fs[1..])
  }

  predicate BodiesFit(n: nat, fs: seq<Frame>) {
    forall i :: 0 <= i < |fs| && fs[i].Command? ==> |fs[i].body| <= n
  }

  /**
   Space is there for every command of `fs` when `k` handler calls and `used` bytes come before:
   no body exceeds the buffer, and each call an implicit flush makes succeeds. The answer at a
   marker plays no part.
   */
  predicate Served(n: nat, answers: Answers, k: nat, used: nat, fs: seq<Frame>)
    decreases |fs|
  {
    fs == [] ||
    match fs[0]
    case Marker(_) => Served(n, answers, k + 1, 0, fs[1..])
    case Command(_, body) =>
      && |body| <= n
      && if used + |body| > n then answers(k) && Served(n, answers, k + 1, |body|, fs[1..])
         else Served(n, answers, k, used + |body|, fs[1..])
  }

  /** The numbers of the handler calls that implicit flushes make. */
  function ImplicitCalls(n: nat, k: nat, used: nat, fs: seq<Frame>): set<nat>
    decreases |fs|
  {
    if fs == [] then {}
    else match fs[0]
      case Marker(_) => ImplicitCalls(n, k + 1, 0, fs[1..])
      case Command(_, body) =>
        if used + |body| > n then {k} + ImplicitCalls(n, k + 1, |body|, fs[1..])
        else ImplicitCalls(n, k, used + |body|, fs[1..])
  }

  lemma {:induction false} ServedExactly(n: nat, answers: Answers, k: nat, used: nat, fs: seq<Frame>)
    ensures Served(n, answers, k, used, fs) <==>
            BodiesFit(n, fs) && forall i :: i in ImplicitCalls(n, k, used, fs) ==> answers(i)
    decreases |fs|
  {
    if fs != [] {
      BodiesFitCons(n, fs);
      match fs[0]
      case Marker(_) => ServedExactly(n, answers, k + 1, 0, fs[1..]);
      case Command(_, body) =>
        if used + |body| > n {
          ServedExactly(n, answers, k + 1, |body|, fs[1..]);
        } else {
          ServedExactly(n, answers, k, used + |body|, fs[1..]);
        }
    }
  }

  lemma BodiesFitCons(n: nat, fs: seq<Frame>)
    requires fs != []
    ensures BodiesFit(n, fs) <==> (fs[0].Command? ==> |fs[0].body| <= n) && BodiesFit(n, fs[1..])
  {
    assert fs == [fs[0]] + fs[1..];
  }

  predicate Ready(n: nat, r: State) {
    WellFormed(n, r) && r.phase == InHeader([])
  }

  lemma AbsorbCommand(n: nat, answers: Answers, r: State, f: Frame)
    requires Ready(n, r) && f.Command? && |f.body| <= n
    requires |r.filled| + |f.body| > n ==> answers(|r.calls|)
    ensures Absorb(n, answers, r, EncodeFrame(f)) ==
            if |r.filled| + |f.body| > n then State(r.calls + [r.filled], f.body, InHeader([]))
            else State(r.calls, r.filled + f.body, InHeader([]))
  {
    hide Absorb, Step;
    var h := Header(f.kind, |f.body|);
    AbsorbAppend(n, answers, r, h, f.body);
    AbsorbHeader(n, answers, r, h);
    assert r.phase.got + h == h;
    var q := Reserve(n, answers, r, |f.body|);
    if f.body != [] {
      AbsorbBody(n, answers, q, f.body);
    } else {
      AbsorbNothing(n, answers, q);
    }
    assert [] + f.body == f.body && (f.body == [] ==> q.filled + f.body == q.filled);
  }

  /** What twelve bytes make the receiver do: flush at type 2, else ask for the length in bytes 4 to 11. */
  lemma TwelveBytesMean(n: nat, answers: Answers, r: State, h: seq<byte>)
    requires Ready(n, r) && |h| == 12
    ensures var len := Word32(h[4], h[5], h[6], h[7])
                + 0x1_0000_0000 * Word32(h[8], h[9], h[10], h[11]);
            var room := |r.filled| + len <= n;
            var next := if len == 0 then InHeader([]) else InBody(len);
            Absorb(n, answers, r, h) ==
            if h[..4] == [2, 0, 0, 0] then State(r.calls + [r.filled], [], InHeader([]))
            else if len > n then State(r.calls, r.filled, Stuck)
            else if room then State(r.calls, r.filled, next)
            else State(r.calls + [r.filled], [], if answers(|r.calls|) then next else Stuck)
  {
    hide Absorb, Step, KindOf, LenOf, Word32;
    AbsorbHeader(n, answers, r, h);
    assert r.phase.got + h == h;
    HeaderLayout(h);
    KindBytes(h, 2);
  }

  lemma AbsorbMarker(n: nat, answers: Answers, r: State, len: u64)
    requires Ready(n, r)
    ensures Absorb(n, answers, r, EncodeFrame(Marker(len))) == Flush(r)
  {
    hide Absorb, Step;
    AbsorbHeader(n, answers, r, Header(MARKER, len));
    assert r.phase.got + Header(MARKER, len) == Header(MARKER, len);
  }

  /**
   On any frame list with space for every command, the calls are the batches between (explicit
   and implicit) markers, each made of whole commands.
   */
  lemma {:induction false} FramesMean(n: nat, answers: Answers, r: State, open: Batch, fs: seq<Frame>)
    requires Ready(n, r) && r.filled == Flatten(open)
    requires Served(n, answers, |r.calls|, |r.filled|, fs)
    ensures Absorb(n, answers, r, EncodeFrames(fs)) ==
            Delivered(r.calls, Group(open, WithImplicitMarkers(n, |r.filled|, fs)))
    decreases |fs|
  {
    if fs == [] {
      assert r.calls + [] == r.calls;
    } else {
      var q := Absorb(n, answers, r, EncodeFrame(fs[0]));
      AbsorbAppend(n, answers, r, EncodeFrame(fs[0]), EncodeFrames(fs[1..]));
      var open' := FrameMeans(n, answers, r, open, fs);
      FramesMean(n, answers, q, open', fs[1..]);
    }
  }

  /** Groups handed to the handler whole; the rest sits in the buffer. */
  function Delivered(calls: seq<seq<byte>>, g: Grouped): State {
    State(calls + FlattenEach(g.batches), Flatten(g.open), InHeader([]))
  }

  /** The first frame of `fs`: what it leaves open, and how the rest of the grouping follows. */
  lemma FrameMeans(n: nat, answers: Answers, r: State, open: Batch, fs: seq<Frame>) returns (open': Batch)
    requires fs != [] && Ready(n, r) && r.filled == Flatten(open)
    requires Served(n, answers, |r.calls|, |r.filled|, fs)
    ensures var q := Absorb(n, answers, r, EncodeFrame(fs[0]));
            && Ready(n, q) && q.filled == Flatten(open')
            && Served(n, answers, |q.calls|, |q.filled|, fs[1..])
            && Delivered(r.calls, Group(open, WithImplicitMarkers(n, |r.filled|, fs)))
               == Delivered(q.calls, Group(open', WithImplicitMarkers(n, |q.filled|, fs[1..])))
  {
    hide Absorb, Step, EncodeFrame;
    match fs[0]
    case Marker(len) =>
      AbsorbMarker(n, answers, r, len);
      MarkerMeans(r.calls, open, Group([], WithImplicitMarkers(n, 0, fs[1..])));
      return [];
    case Command(_, body) =>
      AbsorbCommand(n, answers, r, fs[0]);
      FlattenSnoc(open, body);
      if |r.filled| + |body| <= n {
        return open + [body];
      }
      var later := [fs[0]] + WithImplicitMarkers(n, |body|, fs[1..]);
      assert ([Marker(0), fs[0]] + WithImplicitMarkers(n, |body|, fs[1..]))[1..] == later;
      assert later[1..] == WithImplicitMarkers(n, |body|, fs[1..]);
      assert Flatten([body]) == body && [] + [body] == [body];
      MarkerMeans(r.calls, open, Group([body], later[1..]));
      return [body];
  }

  lemma MarkerMeans(calls: seq<seq<byte>>, open: Batch, g: Grouped)
    ensures Delivered(calls, Grouped([open] + g.batches, g.open)) == Delivered(calls + [Flatten(open)], g)
  {
    FlattenEachCons(open, g.batches);
  }

  lemma TooLongSticks(n: nat, answers: Answers, r: State, h: seq<byte>, tail: seq<byte>)
    requires Ready(n, r) && |h| == HEADER_SIZE && KindOf(h) != MARKER
    requires LenOf(h) > n || (|r.filled| + LenOf(h) > n && !answers(|r.calls|))
    ensures Absorb(n, answers, r, h + tail).phase.Stuck?
  {
    hide Absorb, Step, KindOf, LenOf;
    assert [] + h == h;
    AbsorbCommandStart(n, answers, r, h, tail);
  }

  /** Whatever follows, the receiver stops at the first command without space. */
  lemma {:induction false} UnservedSticks(n: nat, answers: Answers, r: State, fs: seq<Frame>, tail: seq<byte>)
    requires Ready(n, r) && !Served(n, answers, |r.calls|, |r.filled|, fs)
    ensures Absorb(n, answers, r, EncodeFrames(fs) + tail).phase.Stuck?
    decreases |fs|
  {
    hide Absorb, Step, Header, KindOf, LenOf;
    var f, later := fs[0], EncodeFrames(fs[1..]) + tail;
    assert EncodeFrames(fs) + tail == EncodeFrame(f) + later;
    if f.Command? && (|f.body| > n || (|r.filled| + |f.body| > n && !answers(|r.calls|))) {
      assert EncodeFrame(f) + later == Header(f.kind, |f.body|) + (f.body + later);
      TooLongSticks(n, answers, r, Header(f.kind, |f.body|), f.body + later);
    } else {
      AbsorbAppend(n, answers, r, EncodeFrame(f), later);
      if f.Command? {
        AbsorbCommand(n, answers, r, f);
      } else {
        AbsorbMarker(n, answers, r, f.len);
      }
      UnservedSticks(n, answers, Absorb(n, answers, r, EncodeFrame(f)), fs[1..], tail);
    }
  }
}
