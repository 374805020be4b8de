/**
 The wire format: packed 12-byte headers (a 4-byte type, an 8-byte length), bodies behind
 every header whose type is not 2, and type-2 headers that close a batch.
 */
module Framing {
  import opened Bytes

  const HEADER_SIZE := 12
  const DATA: DataKind := 1
  const MARKER := 2

  type DataKind = k: u32 | k != 2 witness 0

  /** A marker's length field is carried but never looked at. */
  datatype Frame = Command(kind: DataKind, body: Payload) | Marker(len: u64)

  type Batch = seq<Payload>

  // ---- headers ----

  function Header(kind: u32, len: u64): (h: seq<byte>)
    ensures |h| == HEADER_SIZE
    ensures KindOf(h) == kind && LenOf(h) == len
  {
    Pow256Widths(); FromToLE(kind, 4); FromToLE(len, 8);
    var h := ToLE(kind, 4) + ToLE(len, 8);
    assert h[..4] == ToLE(kind, 4) && h[4..] == ToLE(len, 8);
    h
  }

  function KindOf(h: seq<byte>): u32
    requires |h| == HEADER_SIZE
  {
    Pow256Widths();
    FromLE(h[..4])
  }

  function LenOf(h: seq<byte>): u64
    requires |h| == HEADER_SIZE
  {
    Pow256Widths();
    FromLE(h[4..])
  }

  lemma HeaderOnto(h: seq<byte>)
    requires |h| == HEADER_SIZE
    ensures Header(KindOf(h), LenOf(h)) == h
  {
    ToFromLE(h[..4]);
    ToFromLE(h[4..]);
    assert h == h[..4] + h[4..];
  }

  /** The packed layout: the type in bytes 0 to 3, the length in bytes 4 to 11, lowest byte first. */
  lemma HeaderLayout(h: seq<byte>)
    requires |h| == 12
    ensures KindOf(h) == Word32(h[0], h[1], h[2], h[3])
    ensures LenOf(h) == Word32(h[4], h[5], h[6], h[7])
                + 0x1_0000_0000 * Word32(h[8], h[9], h[10], h[11])
  {
    FromLE4(h[..4]);
    FromLE8(h[4..]);
  }

  /** What a header written for a type and a length has in its twelve bytes. */
  lemma HeaderBytes(kind: u32, len: u64)
    ensures var h := Header(kind, len);
            && |h| == 12
            && Word32(h[0], h[1], h[2], h[3]) == kind
            && Word32(h[4], h[5], h[6], h[7])
                + 0x1_0000_0000 * Word32(h[8], h[9], h[10], h[11]) == len
  {
    hide KindOf, LenOf, Word32, Header;
    HeaderLayout(Header(kind, len));
  }

  lemma KindBytes(h: seq<byte>, v: byte)
    requires |h| == 12
    ensures KindOf(h) == v <==> h[..4] == [v, 0, 0, 0]
  {
    hide KindOf, LenOf, Word32;
    HeaderLayout(h);
    Word32Is(h[0], h[1], h[2], h[3], v);
    assert h[..4] == [h[0], h[1], h[2], h[3]];
  }

  lemma MarkerBytes()
    ensures Header(MARKER, 0) == [2, 0, 0, 0, 0, 0, 0, 0, 0, 0, 0, 0]
  {
    hide KindOf, LenOf, Word32, Header;
    var h := Header(MARKER, 0);
    KindBytes(h, 2);
    HeaderLayout(h);
    Word32Is(h[4], h[5], h[6], h[7], 0);
    Word32Is(h[8], h[9], h[10], h[11], 0);
    assert h == h[..4] + [h[4], h[5], h[6], h[7], h[8], h[9], h[10], h[11]];
  }

  /** A data header: type 1 and the size. */
  predicate IsDataHeader(h: seq<byte>, size: nat) {
    && |h| == 12 && h[..4] == [1, 0, 0, 0]
    && size == Word32(h[4], h[5], h[6], h[7])
                + 0x1_0000_0000 * Word32(h[8], h[9], h[10], h[11])
  }

  lemma DataHeaderBytes(len: u64)
    ensures IsDataHeader(Header(DATA, len), len)
  {
    hide KindOf, LenOf, Word32, Header;
    HeaderLayout(Header(DATA, len));
    KindBytes(Header(DATA, len), 1);
  }

  // ---- frames ----

  function EncodeFrame(f: Frame): (s: seq<byte>)
    ensures |s| >= HEADER_SIZE
  {
    match f
    case Command(kind, body) => Header(kind, |body|) + body
    case Marker(len) => Header(MARKER, len)
  }

  function EncodeFrames(fs: seq<Frame>): seq<byte> {
    if fs == [] then [] else EncodeFrame(fs[0]) + EncodeFrames(fs[1..])
  }

  lemma {:induction false} EncodeFramesAppend(a: seq<Frame>, b: seq<Frame>)
    ensures EncodeFrames(a + b) == EncodeFrames(a) + EncodeFrames(b)
  {
    if a == [] {
      assert a + b == b;
    } else {
      assert (a + b)[1..] == a[1..] + b;
      EncodeFramesAppend(a[1..], b);
    }
  }

  datatype Parsed = Parsed(frames: seq<Frame>, rest: seq<byte>)

  /** Peels whole frames off the front; what is left is the start of the next one. */
  function ParseFrames(s: seq<byte>): Parsed
    decreases |s|
  {
    if Incomplete(s) then Parsed([], s)
    else
      var f := FirstFrame(s);
      var p := ParseFrames(s[|EncodeFrame(f)|..]);
      Parsed([f] + p.frames, p.rest)
  }

  /** No whole frame is at the front of `s`. */
  predicate Incomplete(s: seq<byte>) {
    |s| < HEADER_SIZE
    || (KindOf(s[..HEADER_SIZE]) != MARKER && |s| - HEADER_SIZE < LenOf(s[..HEADER_SIZE]))
  }

  function FirstFrame(s: seq<byte>): (f: Frame)
    requires !Incomplete(s)
    ensures EncodeFrame(f) <= s
  {
    var h := s[..HEADER_SIZE];
    HeaderOnto(h);
    if KindOf(h) == MARKER then
      Marker(LenOf(h))
    else
      var body := s[HEADER_SIZE..HEADER_SIZE + LenOf(h)];
      assert h + body == s[..HEADER_SIZE + LenOf(h)];
      Command(KindOf(h), body)
  }

  lemma FirstFrameOfEncoding(f: Frame, t: seq<byte>)
    ensures !Incomplete(EncodeFrame(f) + t)
    ensures FirstFrame(EncodeFrame(f) + t) == f
  {
    var s := EncodeFrame(f) + t;
    match f
    case Command(kind, body) =>
      assert s[..HEADER_SIZE] == Header(kind, |body|);
      assert s[HEADER_SIZE..HEADER_SIZE + |body|] == body;
    case Marker(len) =>
      assert s[..HEADER_SIZE] == Header(MARKER, len);
  }

  lemma ParseCons(f: Frame, t: seq<byte>)
    ensures var p := ParseFrames(t);
            ParseFrames(EncodeFrame(f) + t) == Parsed([f] + p.frames, p.rest)
  {
    FirstFrameOfEncoding(f, t);
    assert (EncodeFrame(f) + t)[|EncodeFrame(f)|..] == t;
  }

  /** Parsing undoes encoding, whatever incomplete frame follows. */
  lemma {:induction false} ParseEncode(fs: seq<Frame>, tail: seq<byte>)
    requires Incomplete(tail)
    ensures ParseFrames(EncodeFrames(fs) + tail) == Parsed(fs, tail)
  {
    if fs == [] {
      assert EncodeFrames(fs) + tail == tail;
    } else {
      var t := EncodeFrames(fs[1..]) + tail;
      assert EncodeFrames(fs) + tail == EncodeFrame(fs[0]) + t;
      ParseEncode(fs[1..], tail);
      ParseCons(fs[0], t);
      assert [fs[0]] + fs[1..] == fs;
    }
  }

  /** Every byte string is exactly one list of frames and one incomplete tail. */
  lemma {:induction false} EncodeParse(s: seq<byte>)
    ensures var p := ParseFrames(s); EncodeFrames(p.frames) + p.rest == s && Incomplete(p.rest)
    decreases |s|
  {
    hide EncodeFrame, FirstFrame, Incomplete;
    if Incomplete(s) {
      assert EncodeFrames([]) + s == s;
    } else {
      var f := FirstFrame(s);
      var t := s[|EncodeFrame(f)|..];
      EncodeParse(t);
      var p := ParseFrames(t);
      assert ParseFrames(s).frames[1..] == p.frames;
      calc {
        EncodeFrame(f) + EncodeFrames(p.frames) + p.rest;
        EncodeFrame(f) + (EncodeFrames(p.frames) + p.rest);
        EncodeFrame(f) + t;
        s;
      }
    }
  }

  /** More bytes never change the frames already recognised. */
  lemma {:induction false} ParsePrefix(a: seq<byte>, b: seq<byte>)
    ensures ParseFrames(a).frames <= ParseFrames(a + b).frames
    decreases |a|
  {
    hide EncodeFrame, FirstFrame, Incomplete;
    if !Incomplete(a) {
      var f := FirstFrame(a);
      var t := a[|EncodeFrame(f)|..];
      assert a == EncodeFrame(f) + t;
      assert a + b == EncodeFrame(f) + (t + b);
      ParsePrefix(t, b);
      ParseCons(f, t);
      ParseCons(f, t + b);
    }
  }

  /** How a frame at the front of a byte string is read off its bytes. */
  lemma FirstFrameLayout(s: seq<byte>)
    requires !Incomplete(s)
    ensures |s| >= 12
    ensures s[..4] == [2, 0, 0, 0] <==> FirstFrame(s).Marker?
    ensures s[..4] != [2, 0, 0, 0] ==>
              var len := Word32(s[4], s[5], s[6], s[7])
                + 0x1_0000_0000 * Word32(s[8], s[9], s[10], s[11]);
              12 + len <= |s| && FirstFrame(s).body == s[12..12 + len]
  {
    hide KindOf, LenOf, Header, Word32;
    var h := s[..12];
    HeaderLayout(h);
    KindBytes(h, 2);
    assert s[..4] == h[..4];
  }

  // ---- batches ----

  /** The frames SendBuffer writes for the commands of one batch. */
  function CommandFrames(cmds: Batch): (fs: seq<Frame>)
    ensures |fs| == |cmds|
  {
    seq(|cmds|, i requires 0 <= i < |cmds| => Command(DATA, cmds[i]))
  }

  function BatchFrames(bs: seq<Batch>): seq<Frame> {
    if bs == [] then [] else CommandFrames(bs[0]) + [Marker(0)] + BatchFrames(bs[1..])
  }

  /** Joining the payloads of each batch, or of all of them at once. */
  lemma {:induction false} FlattenBatches(bs: seq<Batch>)
    ensures Flatten(FlattenEach(bs)) == Flatten(Flatten(bs))
    decreases |bs|
  {
    if bs != [] {
      FlattenBatches(bs[1..]);
      assert FlattenEach(bs)[1..] == FlattenEach(bs[1..]);
      FlattenAppend(bs[0], Flatten(bs[1..]));
    }
  }

  function EncodeBatch(cmds: Batch): seq<byte> {
    EncodeFrames(CommandFrames(cmds)) + Header(MARKER, 0)
  }

  function EncodeBatches(bs: seq<Batch>): seq<byte> {
    EncodeFrames(BatchFrames(bs))
  }

  lemma EncodeOne(f: Frame)
    ensures EncodeFrames([f]) == EncodeFrame(f)
  {
    hide EncodeFrame;
    assert EncodeFrames([f][1..]) == [];
  }

  lemma EncodeBatchesCons(b: Batch, bs: seq<Batch>)
    ensures EncodeBatches([b] + bs) == EncodeBatch(b) + EncodeBatches(bs)
  {
    hide CommandFrames;
    var cs := CommandFrames(b);
    assert ([b] + bs)[1..] == bs;
    assert BatchFrames([b] + bs) == cs + [Marker(0)] + BatchFrames(bs);
    EncodeFramesAppend(cs + [Marker(0)], BatchFrames(bs));
    EncodeFramesAppend(cs, [Marker(0)]);
    EncodeOne(Marker(0));
  }

  lemma EncodeBatchesAppend(a: seq<Batch>, b: seq<Batch>)
    ensures EncodeBatches(a + b) == EncodeBatches(a) + EncodeBatches(b)
  {
    BatchFramesAppend(a, b);
    EncodeFramesAppend(BatchFrames(a), BatchFrames(b));
  }

  lemma {:induction false} BatchFramesAppend(a: seq<Batch>, b: seq<Batch>)
    ensures BatchFrames(a + b) == BatchFrames(a) + BatchFrames(b)
  {
    if a == [] {
      assert a + b == b;
    } else {
      assert (a + b)[1..] == a[1..] + b;
      BatchFramesAppend(a[1..], b);
    }
  }

  lemma EncodeBatchesSnoc(bs: seq<Batch>, b: Batch)
    ensures EncodeBatches(bs + [b]) == EncodeBatches(bs) + EncodeBatch(b)
  {
    EncodeBatchesAppend(bs, [b]);
    EncodeBatchesCons(b, []);
    assert [b] + [] == [b];
  }

  datatype Grouped = Grouped(batches: seq<Batch>, open: Batch)

  /** Cuts a frame list at its markers; `open` is what has arrived since the last one. */
  function Group(open: Batch, fs: seq<Frame>): Grouped
    decreases |fs|
  {
    if fs == [] then Grouped([], open)
    else match fs[0]
      case Command(_, body) => Group(open + [body], fs[1..])
      case Marker(_) => var g := Group([], fs[1..]); Grouped([open] + g.batches, g.open)
  }

  lemma {:induction false} GroupAppend(open: Batch, a: seq<Frame>, b: seq<Frame>)
    ensures var g := Group(open, a); var h := Group(g.open, b);
            Group(open, a + b) == Grouped(g.batches + h.batches, h.open)
    decreases |a|
  {
    if a == [] {
      assert a + b == b;
    } else {
      assert (a + b)[1..] == a[1..] + b;
      match a[0]
      case Command(_, body) => GroupAppend(open + [body], a[1..], b);
      case Marker(_) => GroupAppend([], a[1..], b);
    }
  }

  lemma {:induction false} GroupCommands(open: Batch, cmds: Batch)
    ensures Group(open, CommandFrames(cmds)) == Grouped([], open + cmds)
    decreases |cmds|
  {
    if cmds == [] {
      assert open + cmds == open;
    } else {
      assert CommandFrames(cmds)[1..] == CommandFrames(cmds[1..]);
      GroupCommands(open + [cmds[0]], cmds[1..]);
      assert open + [cmds[0]] + cmds[1..] == open + cmds;
    }
  }

  lemma {:induction false} GroupBatches(bs: seq<Batch>)
    ensures Group([], BatchFrames(bs)) == Grouped(bs, [])
  {
    if bs != [] {
      var cs := CommandFrames(bs[0]);
      GroupAppend([], cs + [Marker(0)], BatchFrames(bs[1..]));
      GroupAppend([], cs, [Marker(0)]);
      GroupCommands([], bs[0]);
      assert [] + bs[0] == bs[0];
      assert Group(bs[0], [Marker(0)]) == Grouped([bs[0]], []);
      GroupBatches(bs[1..]);
      assert [bs[0]] + bs[1..] == bs;
    }
  }

  /** The batches a byte string carries, and the commands after its last marker. */
  function Decode(s: seq<byte>): Grouped {
    Group([], ParseFrames(s).frames)
  }

  lemma DecodeEncode(bs: seq<Batch>)
    ensures Decode(EncodeBatches(bs)) == Grouped(bs, [])
    ensures ParseFrames(EncodeBatches(bs)).rest == []
  {
    assert EncodeBatches(bs) + [] == EncodeBatches(bs);
    ParseEncode(BatchFrames(bs), []);
    GroupBatches(bs);
  }

  lemma DecodePrefix(bs: seq<Batch>, k: nat)
    requires k <= |EncodeBatches(bs)|
    ensures Decode(EncodeBatches(bs)[..k]).batches <= bs
  {
    hide EncodeBatches, ParseFrames;
    var s := EncodeBatches(bs);
    assert s == s[..k] + s[k..];
    ParsePrefix(s[..k], s[k..]);
    var p, q := ParseFrames(s[..k]).frames, ParseFrames(s).frames;
    assert q == p + q[|p|..];
    GroupAppend([], p, q[|p|..]);
    DecodeEncode(bs);
  }

  lemma EncodingInjective(bs: seq<Batch>, cs: seq<Batch>)
    requires EncodeBatches(bs) == EncodeBatches(cs)
    ensures bs == cs
  {
    DecodeEncode(bs);
    DecodeEncode(cs);
  }
}
