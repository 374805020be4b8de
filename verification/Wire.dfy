/** What the kernel does with the calls a transport makes: every outcome it may choose. */
module Wire {
  import opened Bytes

  const CHUNK_SIZE := 65536

  /** What `send` returns, call by call: negative for -errno, else how many bytes it may take. */
  type Outcomes = nat -> int

  /** What one `recv` returns. */
  datatype RecvEvent = Received(bytes: seq<byte>) | Closed | WouldBlock | Failed(errno: int)

  predicate KernelEvent(e: RecvEvent) {
    (e.Received? ==> 0 < |e.bytes| <= 65536) && (e.Failed? ==> 0 < e.errno)
  }

  /** The bytes read before the connection closes or fails. */
  function Incoming(events: seq<RecvEvent>): seq<byte> {
    if events == [] then []
    else match events[0]
      case Received(bytes) => bytes + Incoming(events[1..])
      case WouldBlock => Incoming(events[1..])
      case _ => []
  }

  datatype RecvOutcome = Returned(code: int) | Receiving | NoSpace

  function EndOf(events: seq<RecvEvent>): RecvOutcome {
    if events == [] then Receiving
    else match events[0]
      case Closed => Returned(0)
      case Failed(errno) => Returned(-errno)
      case _ => EndOf(events[1..])
  }

  lemma {:induction false} IncomingSplit(events: seq<RecvEvent>, i: nat)
    requires i <= |events|
    requires forall j :: 0 <= j < i ==> events[j].Received? || events[j].WouldBlock?
    ensures Incoming(events) == Incoming(events[..i]) + Incoming(events[i..])
    ensures EndOf(events) == EndOf(events[i..]) && EndOf(events[..i]) == Receiving
  {
    if i == 0 {
      assert events[0..] == events;
    } else {
      IncomingSplit(events[1..], i - 1);
      assert events[1..][..i - 1] == events[..i][1..] && events[1..][i - 1..] == events[i..];
    }
  }

  function BytesOf(e: RecvEvent): seq<byte> {
    if e.Received? then e.bytes else []
  }

  /**
   The bytes of every chunk before the first close or failure, in order and nothing after it; the
   code 0 for a close, -errno for a failure, none while neither has come.
   */
  lemma {:induction false} EventsMean(events: seq<RecvEvent>, m: nat)
    requires m <= |events|
    requires forall j :: 0 <= j < m ==> events[j].Received? || events[j].WouldBlock?
    requires m < |events| ==> events[m].Closed? || events[m].Failed?
    ensures Incoming(events) == Flatten(seq(m, j requires 0 <= j < m => BytesOf(events[j])))
    ensures EndOf(events) == if m == |events| then Receiving
                             else if events[m].Closed? then Returned(0)
                             else Returned(-events[m].errno)
    decreases m
  {
    var parts := seq(m, j requires 0 <= j < m => BytesOf(events[j]));
    if m > 0 {
      EventsMean(events[1..], m - 1);
      assert parts[1..] == seq(m - 1, j requires 0 <= j < m - 1 => BytesOf(events[1..][j]));
    }
  }

  // ---- sending ----

  function Min(a: int, b: int): int {
    if a < b then a else b
  }

  /** How many `send` calls `size` bytes need. */
  function Chunks(size: nat): nat {
    (size + CHUNK_SIZE - 1) / CHUNK_SIZE
  }

  /** The size of the i-th chunk. */
  function ChunkLength(size: nat, i: nat): nat
    requires i < Chunks(size)
  {
    Min(CHUNK_SIZE, size - i * CHUNK_SIZE)
  }

  /** Chunks of 65536 bytes, the last one what is left. */
  lemma ChunksAre(size: nat)
    ensures Chunks(size) == (size + 65535) / 65536
    ensures forall i: nat :: i < Chunks(size) ==>
              65536 * i < size && ChunkLength(size, i) == if 65536 * i + 65536 <= size then 65536 else size - 65536 * i
  {
  }

  /** The code Send returns, the bytes the wire took, the number of `send` calls. */
  datatype Transmission = Transmission(code: int, taken: seq<byte>, sends: nat)

  /** The transmission of `data` when `k` send calls came before it. */
  function Transmit(outcomes: Outcomes, k: nat, data: seq<byte>): Transmission
    decreases |data|
  {
    if data == [] then Transmission(0, [], 0)
    else
      var chunk := Min(CHUNK_SIZE, |data|);
      if outcomes(k) < 0 then Transmission(outcomes(k), [], 1)
      else
        var rest := Transmit(outcomes, k + 1, data[chunk..]);
        Transmission(rest.code, data[..Min(outcomes(k), chunk)] + rest.taken, rest.sends + 1)
  }

  /** Send on a descriptor: one that is not connected returns `false`, the code of success. */
  function SendOn(connfd: int, outcomes: Outcomes, k: nat, data: seq<byte>): Transmission {
    if connfd < 0 then Transmission(0, [], 0) else Transmit(outcomes, k, data)
  }

  lemma TransmitNothing(outcomes: Outcomes, k: nat)
    ensures Transmit(outcomes, k, []) == Transmission(0, [], 0)
  {}

  lemma TransmitStep(outcomes: Outcomes, k: nat, data: seq<byte>, before: seq<byte>)
    requires data != []
    ensures var chunk, t := Min(CHUNK_SIZE, |data|), Transmit(outcomes, k, data);
            if outcomes(k) < 0 then t == Transmission(outcomes(k), [], 1)
            else
              var rest := Transmit(outcomes, k + 1, data[chunk..]);
              && t.code == rest.code && t.sends == rest.sends + 1
              && before + t.taken == before + data[..Min(outcomes(k), chunk)] + rest.taken
  {}

  predicate Full(outcomes: Outcomes, k: nat, size: nat, m: nat)
    requires m <= Chunks(size)
  {
    forall i :: 0 <= i < m ==> outcomes(k + i) >= ChunkLength(size, i)
  }

  lemma FullShift(outcomes: Outcomes, k: nat, size: nat, m: nat)
    requires size > 0 && 0 < m <= Chunks(size)
    ensures var rest := size - Min(CHUNK_SIZE, size);
            && Chunks(rest) == Chunks(size) - 1
            && (Full(outcomes, k, size, m) <==>
                outcomes(k) >= Min(CHUNK_SIZE, size) && Full(outcomes, k + 1, rest, m - 1))
  {
    var rest := size - Min(CHUNK_SIZE, size);
    assert ChunkLength(size, 0) == Min(CHUNK_SIZE, size);
    forall i | 0 <= i < m - 1 ensures ChunkLength(rest, i) == ChunkLength(size, i + 1) {}
    if outcomes(k) >= Min(CHUNK_SIZE, size) && Full(outcomes, k + 1, rest, m - 1) {
      forall i | 0 <= i < m ensures outcomes(k + i) >= ChunkLength(size, i) {
        if i > 0 { assert outcomes(k + 1 + (i - 1)) >= ChunkLength(rest, i - 1); }
      }
    }
    if Full(outcomes, k, size, m) {
      assert outcomes(k + 0) >= ChunkLength(size, 0);
      forall i | 0 <= i < m - 1 ensures outcomes(k + 1 + i) >= ChunkLength(rest, i) {
        assert outcomes(k + (i + 1)) >= ChunkLength(size, i + 1);
      }
    }
  }

  lemma {:induction false} TakenAtMost(outcomes: Outcomes, k: nat, data: seq<byte>)
    ensures var t := Transmit(outcomes, k, data);
            |t.taken| <= |data| && t.sends <= Chunks(|data|) && t.code <= 0
    decreases |data|
  {
    if data != [] {
      TakenAtMost(outcomes, k + 1, data[Min(CHUNK_SIZE, |data|)..]);
    }
  }

  /**
   Send puts exactly its buffer on the wire, and says so, exactly when every send call takes
   its whole chunk: a short count is neither retried nor reported.
   */
  lemma {:induction false} SendIsExactWhenFull(outcomes: Outcomes, k: nat, data: seq<byte>)
    ensures var t := Transmit(outcomes, k, data);
            && (t.code == 0 && t.taken == data <==> Full(outcomes, k, |data|, Chunks(|data|)))
            && (t.code == 0 ==> t.sends == (|data| + 65535) / 65536)
    decreases |data|
  {
    if data != [] {
      var chunk := Min(CHUNK_SIZE, |data|);
      FullShift(outcomes, k, |data|, Chunks(|data|));
      SendIsExactWhenFull(outcomes, k + 1, data[chunk..]);
      TakenAtMost(outcomes, k + 1, data[chunk..]);
      assert data == data[..chunk] + data[chunk..];
      if outcomes(k) >= chunk {
        var rest := Transmit(outcomes, k + 1, data[chunk..]).taken;
        assert (data[..chunk] + rest)[chunk..] == rest;
      }
    }
  }

  /** A send call failing after `m` full ones leaves the first `m` chunks on the wire. */
  lemma {:induction false} SendStopsAtFailure(outcomes: Outcomes, k: nat, data: seq<byte>, m: nat)
    requires m < Chunks(|data|) && Full(outcomes, k, |data|, m) && outcomes(k + m) < 0
    ensures m * 65536 <= |data|
    ensures Transmit(outcomes, k, data) == Transmission(outcomes(k + m), data[..m * 65536], m + 1)
    decreases m
  {
    if m > 0 {
      var chunk := Min(CHUNK_SIZE, |data|);
      FullShift(outcomes, k, |data|, m);
      SendStopsAtFailure(outcomes, k + 1, data[chunk..], m - 1);
      assert data[..m * CHUNK_SIZE] == data[..chunk] + data[chunk..][..(m - 1) * CHUNK_SIZE];
    }
  }
}
