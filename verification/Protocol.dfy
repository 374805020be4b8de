/**
 Client and server over two wires: every interleaving of commands put and flushed, bytes
 delivered in any chunks, batches handled and replies sent.
 */
module Protocol {
  import opened Bytes
  import opened Framing
  import opened Receiver
  import opened Wire
  import opened EndToEnd
  import Batching

  /**
   One direction: the sender's buffer with the batches it has sent, the bytes in flight, the
   bytes recv has returned and the parser has not read, those it has, and the receiver.
   */
  datatype Lane = Lane(box: Batching.Outbox, wire: seq<byte>, chunk: seq<byte>, read: seq<byte>, rx: State)

  const IDLE := Lane(Batching.Outbox([], []), [], [], [], INIT)

  function Sending(n: nat, l: Lane, c: Batching.Call): Lane {
    var box := Batching.Do(n, l.box, c);
    l.(box := box, wire := l.wire + EncodeBatches(NewBatches(l.box, box)))
  }

  function NewBatches(o: Batching.Outbox, o': Batching.Outbox): seq<Batch> {
    if |o.sent| <= |o'.sent| then o'.sent[|o.sent|..] else []
  }

  function Receive(l: Lane, k: nat): Lane
    requires k <= |l.wire|
  {
    l.(chunk := l.wire[..k], wire := l.wire[k..])
  }

  function Parse(n: nat, answers: Answers, l: Lane): Lane
    requires l.chunk != [] && WellFormed(n, l.rx)
  {
    l.(chunk := l.chunk[1..], read := l.read + [l.chunk[0]], rx := Step(n, answers, l.rx, l.chunk[0]))
  }

  predicate CanReceive(l: Lane, k: nat) {
    l.chunk == [] && 0 < k <= |l.wire| && k <= CHUNK_SIZE
  }

  /**
   `busy`: the server is inside HandleCommands. `replies[i]` are the commands it has put while
   handling its i-th batch, `groups[i]` the batches they left in.
   */
  datatype System = System(c2s: Lane, s2c: Lane, busy: bool, replies: seq<Batch>, groups: seq<seq<Batch>>)

  const START := System(IDLE, IDLE, false, [], [])

  datatype Action =
    | ClientCall(call: Batching.Call)
    | ServerReceive(k: nat)
    | ServerParse
    | Reply(body: Payload)
    | ServerFlush
    | ClientReceive(k: nat)
    | ClientParse

  /** The capacity of the buffers, and how the two handlers answer. */
  datatype Setup = Setup(n: nat, server: Answers, client: Answers)

  predicate Enabled(c: Setup, s: System, a: Action) {
    match a
    case ClientCall(_) => true
    case ServerReceive(k) => !s.busy && CanReceive(s.c2s, k)
    case ServerParse => !s.busy && s.c2s.chunk != [] && WellFormed(c.n, s.c2s.rx)
    case Reply(_) => s.busy && s.replies != [] && s.groups != []
    case ServerFlush => s.busy && s.groups != []
    case ClientReceive(k) => CanReceive(s.s2c, k)
    case ClientParse => s.s2c.chunk != [] && WellFormed(c.n, s.s2c.rx)
  }

  function Last<T>(s: seq<T>): T
    requires s != []
  {
    s[|s| - 1]
  }

  function AddToLast<T>(s: seq<seq<T>>, x: seq<T>): seq<seq<T>>
    requires s != []
  {
    s[..|s| - 1] + [Last(s) + x]
  }

  function Taken(n: nat, body: Payload): Batch {
    if |body| + 2 * HEADER_SIZE <= n then [body] else []
  }

  /** The server's next step on its send buffer, while it handles its last batch. */
  function ServerSends(n: nat, s: System, call: Batching.Call): System
    requires s.groups != []
  {
    var s2c := Sending(n, s.s2c, call);
    s.(s2c := s2c, groups := AddToLast(s.groups, NewBatches(s.s2c.box, s2c.box)))
  }

  function Next(c: Setup, s: System, a: Action): System {
    if !Enabled(c, s, a) then s
    else match a
      case ClientCall(call) => s.(c2s := Sending(c.n, s.c2s, call))
      case ServerReceive(k) => s.(c2s := Receive(s.c2s, k))
      case ServerParse =>
        var c2s := Parse(c.n, c.server, s.c2s);
        if |c2s.rx.calls| == |s.c2s.rx.calls| then s.(c2s := c2s)
        else s.(c2s := c2s, busy := true, replies := s.replies + [[]], groups := s.groups + [[]])
      case Reply(body) =>
        ServerSends(c.n, s, Batching.Put(body)).(replies := AddToLast(s.replies, Taken(c.n, body)))
      case ServerFlush => ServerSends(c.n, s, Batching.FlushNow).(busy := false)
      case ClientReceive(k) => s.(s2c := Receive(s.s2c, k))
      case ClientParse => s.(s2c := Parse(c.n, c.client, s.s2c))
  }

  function Run(c: Setup, actions: seq<Action>): System {
    if actions == [] then START
    else Next(c, Run(c, actions[..|actions| - 1]), Last(actions))
  }

  // ---- the invariant ----

  ghost predicate LaneInv(n: nat, answers: Answers, l: Lane) {
    && Batching.Wellmade(n, l.box)
    && EncodeBatches(l.box.sent) == l.read + l.chunk + l.wire
    && l.rx == Absorb(n, answers, INIT, l.read)
  }

  ghost predicate RepliesInv(s: System) {
    && |s.groups| == |s.replies| == |s.c2s.rx.calls|
    && s.s2c.box.sent == Flatten(s.groups)
    && (s.busy ==> s.groups != [])
    && (forall i :: 0 <= i < |s.groups| - (if s.busy then 1 else 0) ==> Flatten(s.groups[i]) == s.replies[i])
    && if s.busy then Flatten(Last(s.groups)) + s.s2c.box.open == Last(s.replies)
       else s.s2c.box.open == []
  }

  ghost predicate Inv(c: Setup, s: System) {
    LaneInv(c.n, c.server, s.c2s) && LaneInv(c.n, c.client, s.s2c) && RepliesInv(s)
  }

  lemma SendingKeeps(n: nat, answers: Answers, l: Lane, c: Batching.Call)
    requires n >= HEADER_SIZE && LaneInv(n, answers, l)
    ensures LaneInv(n, answers, Sending(n, l, c))
    ensures var box := Batching.Do(n, l.box, c);
            box.sent == l.box.sent + NewBatches(l.box, box)
  {
    hide EncodeBatches, Absorb, Batching.Wellmade;
    Batching.DoKeeps(n, l.box, c);
    var box := Batching.Do(n, l.box, c);
    var made := NewBatches(l.box, box);
    assert box.sent == l.box.sent + made;
    EncodeBatchesAppend(l.box.sent, made);
    assert l.read + l.chunk + l.wire + EncodeBatches(made) == l.read + l.chunk + (l.wire + EncodeBatches(made));
  }

  lemma ReceiveKeeps(n: nat, answers: Answers, l: Lane, k: nat)
    requires LaneInv(n, answers, l) && CanReceive(l, k)
    ensures LaneInv(n, answers, Receive(l, k))
  {
    hide EncodeBatches, Absorb, Batching.Wellmade;
    assert l.wire == l.wire[..k] + l.wire[k..];
  }

  lemma ParseKeeps(n: nat, answers: Answers, l: Lane)
    requires LaneInv(n, answers, l) && l.chunk != []
    ensures LaneInv(n, answers, Parse(n, answers, l))
  {
    hide EncodeBatches, Batching.Wellmade;
    var b := l.chunk[0];
    assert l.chunk == [b] + l.chunk[1..];
    AbsorbOne(n, answers, l.read, b);
  }

  lemma AbsorbOne(n: nat, answers: Answers, s: seq<byte>, b: byte)
    ensures Absorb(n, answers, INIT, s + [b]) == Step(n, answers, Absorb(n, answers, INIT, s), b)
  {
    hide Step;
    AbsorbAppend(n, answers, INIT, s, [b]);
    AbsorbNothing(n, answers, Step(n, answers, Absorb(n, answers, INIT, s), b));
  }

  lemma FlattenAddToLast<T>(groups: seq<seq<T>>, made: seq<T>)
    requires groups != []
    ensures Flatten(AddToLast(groups, made)) == Flatten(groups) + made
  {
    var k := |groups| - 1;
    assert groups == groups[..k] + [groups[k]];
    FlattenSnoc(groups[..k], groups[k]);
    FlattenSnoc(groups[..k], groups[k] + made);
  }

  /** What a call adds to the batches and the open batch is what it was given. */
  lemma SendingAdds(n: nat, l: Lane, c: Batching.Call)
    requires n >= HEADER_SIZE && Batching.Wellmade(n, l.box)
    ensures var box := Batching.Do(n, l.box, c);
            && Flatten(NewBatches(l.box, box)) + box.open
               == l.box.open + (if c.Put? then Taken(n, c.body) else [])
            && (c.FlushNow? ==> box.open == [])
  {
    hide Batching.Wellmade, Flatten;
    var given: Batch := if c.Put? then Taken(n, c.body) else [];
    Batching.DoKeeps(n, l.box, c);
    var box := Batching.Do(n, l.box, c);
    var made := NewBatches(l.box, box);
    assert box.sent == l.box.sent + made;
    FlattenAppend(l.box.sent, made);
    var before := Flatten(l.box.sent);
    assert Batching.Issued(box) == before + (Flatten(made) + box.open);
    assert Batching.Issued(l.box) + given == before + (l.box.open + given);
    SamePrefix(before, Flatten(made) + box.open, l.box.open + given);
  }

  lemma SamePrefix<T>(p: seq<T>, a: seq<T>, b: seq<T>)
    requires p + a == p + b
    ensures a == b
  {
    assert (p + a)[|p|..] == a && (p + b)[|p|..] == b;
  }

  /** The server's bookkeeping when its send buffer goes from `box` to `box'` by one call. */
  lemma RepliesGrow(s: System, s': System, made: seq<Batch>, given: Batch)
    requires RepliesInv(s) && s.busy
    requires s'.c2s == s.c2s
    requires s'.s2c.box.sent == s.s2c.box.sent + made && s'.groups == AddToLast(s.groups, made)
    requires Flatten(made) + s'.s2c.box.open == s.s2c.box.open + given
    requires s'.replies == AddToLast(s.replies, given)
    requires !s'.busy ==> s'.s2c.box.open == []
    ensures RepliesInv(s')
  {
    hide Flatten;
    FlattenAddToLast(s.groups, made);
    LastGrows(Last(s.groups), made, s.s2c.box.open, s'.s2c.box.open, Last(s.replies), given);
    assert Last(s'.groups) == Last(s.groups) + made && Last(s'.replies) == Last(s.replies) + given;
    if !s'.busy {
      assert Flatten(Last(s'.groups)) + [] == Flatten(Last(s'.groups));
    }
  }

  lemma LastGrows(group: seq<Batch>, made: seq<Batch>, open: Batch, open': Batch, replies: Batch, given: Batch)
    requires Flatten(group) + open == replies && Flatten(made) + open' == open + given
    ensures Flatten(group + made) + open' == replies + given
  {
    hide Flatten;
    FlattenAppend(group, made);
    calc {
      Flatten(group + made) + open';
      Flatten(group) + (Flatten(made) + open');
      Flatten(group) + (open + given);
      Flatten(group) + open + given;
    }
  }

  lemma AddNothing<T>(s: seq<seq<T>>)
    requires s != []
    ensures AddToLast(s, []) == s
  {
    assert Last(s) + [] == Last(s);
  }

  lemma LastReplies(s: System)
    requires RepliesInv(s) && s.busy
    ensures s.groups != [] && s.replies != []
  {}

  lemma ReplyKeeps(c: Setup, s: System, body: Payload)
    requires c.n >= HEADER_SIZE && Inv(c, s) && s.busy
    ensures Inv(c, Next(c, s, Reply(body)))
  {
    hide LaneInv, Batching.Do, Flatten, NewBatches, RepliesInv;
    LastReplies(s);
    var call := Batching.Put(body);
    SendingKeepsLane(c.n, c.client, s.s2c, call);
    RepliesGrow(s, Next(c, s, Reply(body)), NewBatches(s.s2c.box, Batching.Do(c.n, s.s2c.box, call)), Taken(c.n, body));
  }

  lemma ServerFlushKeeps(c: Setup, s: System)
    requires c.n >= HEADER_SIZE && Inv(c, s) && s.busy
    ensures Inv(c, Next(c, s, ServerFlush))
  {
    hide LaneInv, Batching.Do, Flatten, NewBatches, RepliesInv, AddToLast;
    LastReplies(s);
    var call := Batching.FlushNow;
    SendingKeepsLane(c.n, c.client, s.s2c, call);
    AddNothing(s.replies);
    var made := NewBatches(s.s2c.box, Batching.Do(c.n, s.s2c.box, call));
    var s' := Next(c, s, ServerFlush);
    assert s' == s.(s2c := Sending(c.n, s.s2c, call), busy := false, groups := AddToLast(s.groups, made));
    RepliesGrow(s, s', made, []);
  }

  lemma SendingKeepsLane(n: nat, answers: Answers, l: Lane, c: Batching.Call)
    requires n >= HEADER_SIZE && LaneInv(n, answers, l)
    ensures LaneInv(n, answers, Sending(n, l, c))
    ensures var box := Batching.Do(n, l.box, c);
            && box.sent == l.box.sent + NewBatches(l.box, box)
            && Flatten(NewBatches(l.box, box)) + box.open
               == l.box.open + (if c.Put? then Taken(n, c.body) else [])
            && (c.FlushNow? ==> box.open == [])
  {
    SendingKeeps(n, answers, l, c);
    SendingAdds(n, l, c);
  }

  lemma ServerParseKeeps(c: Setup, s: System)
    requires c.n >= HEADER_SIZE && Inv(c, s) && Enabled(c, s, ServerParse)
    ensures Inv(c, Next(c, s, ServerParse))
  {
    hide Absorb, EncodeBatches, Batching.Wellmade;
    ParseKeeps(c.n, c.server, s.c2s);
    FlattenSnoc(s.groups, []);
    assert Flatten(s.groups) + [] == Flatten(s.groups);
  }

  lemma NextKeeps(c: Setup, s: System, a: Action)
    requires c.n >= HEADER_SIZE && Inv(c, s)
    ensures Inv(c, Next(c, s, a))
  {
    hide LaneInv, Sending, Parse, ServerSends;
    if Enabled(c, s, a) {
      match a
      case ClientCall(call) => ClientSends(c, s, call);
      case ServerReceive(k) => ReceiveKeeps(c.n, c.server, s.c2s, k);
      case ServerParse => ServerParseKeeps(c, s);
      case Reply(body) => ReplyKeeps(c, s, body);
      case ServerFlush => ServerFlushKeeps(c, s);
      case ClientReceive(k) => ReceiveKeeps(c.n, c.client, s.s2c, k);
      case ClientParse => ClientParses(c, s);
    }
  }

  lemma ClientSends(c: Setup, s: System, call: Batching.Call)
    requires c.n >= HEADER_SIZE && Inv(c, s)
    ensures Inv(c, Next(c, s, ClientCall(call)))
  {
    SendingKeeps(c.n, c.server, s.c2s, call);
  }

  lemma ClientParses(c: Setup, s: System)
    requires Inv(c, s) && Enabled(c, s, ClientParse)
    ensures Inv(c, Next(c, s, ClientParse))
  {
    ParseKeeps(c.n, c.client, s.s2c);
  }

  lemma {:induction false} RunKeeps(c: Setup, actions: seq<Action>)
    requires c.n >= HEADER_SIZE
    ensures Inv(c, Run(c, actions))
    decreases |actions|
  {
    if actions == [] {
      AbsorbNothing(c.n, c.server, INIT);
      AbsorbNothing(c.n, c.client, INIT);
    } else {
      RunKeeps(c, actions[..|actions| - 1]);
      NextKeeps(c, Run(c, actions[..|actions| - 1]), Last(actions));
    }
  }

  // ---- the histories behind the buffers ----

  /** The calls the client made, in order. */
  function ClientCalls(actions: seq<Action>): seq<Batching.Call> {
    if actions == [] then []
    else ClientCalls(actions[..|actions| - 1])
         + if Last(actions).ClientCall? then [Last(actions).call] else []
  }

  /** Only the client's calls touch its buffer, each in its turn. */
  lemma {:induction false} ClientBox(c: Setup, actions: seq<Action>)
    ensures Run(c, actions).c2s.box == Batching.DoAll(c.n, Batching.Outbox([], []), ClientCalls(actions))
    decreases |actions|
  {
    hide Batching.Do, Enabled;
    if actions != [] {
      var k := |actions| - 1;
      ClientBox(c, actions[..k]);
      if actions[k].ClientCall? {
        var before := ClientCalls(actions[..k]);
        assert (before + [actions[k].call])[..|before|] == before;
        AlwaysEnabled(c, Run(c, actions[..k]), actions[k]);
      } else {
        assert ClientCalls(actions[..k]) + [] == ClientCalls(actions[..k]);
      }
    }
  }

  lemma AlwaysEnabled(c: Setup, s: System, a: Action)
    requires a.ClientCall?
    ensures Enabled(c, s, a)
  {}

  /** A handler call of the server runs: from the byte that completes a marker until the flush after it. */
  function Handling(c: Setup, actions: seq<Action>): bool {
    if actions == [] then false
    else
      var before := actions[..|actions| - 1];
      match Last(actions)
      case ServerParse => Handling(c, before) || CallStarts(c, actions)
      case ServerFlush => false
      case _ => Handling(c, before)
  }

  /** The last action makes the server call its handler. */
  predicate CallStarts(c: Setup, actions: seq<Action>)
    requires actions != []
  {
    |Run(c, actions).c2s.rx.calls| > |Run(c, actions[..|actions| - 1]).c2s.rx.calls|
  }

  /**
   The bodies of the Reply actions that come while a call runs and have room in the buffer, in
   order, one list for each handler call.
   */
  function RepliesMade(c: Setup, actions: seq<Action>): seq<Batch> {
    if actions == [] then []
    else
      var before := actions[..|actions| - 1];
      var made := RepliesMade(c, before);
      match Last(actions)
      case ServerParse => if CallStarts(c, actions) then made + [[]] else made
      case Reply(body) =>
        if Handling(c, before) && |body| + 24 <= c.n && made != [] then
          made[..|made| - 1] + [made[|made| - 1] + [body]]
        else made
      case _ => made
  }

  /** The same bodies without the grouping. */
  function ReplyBodies(c: Setup, actions: seq<Action>): Batch {
    if actions == [] then []
    else
      var before := actions[..|actions| - 1];
      ReplyBodies(c, before)
        + match Last(actions)
          case Reply(body) => if Handling(c, before) && |body| + 24 <= c.n then [body] else []
          case _ => []
  }

  lemma {:induction false} RepliesAreMade(c: Setup, actions: seq<Action>)
    requires c.n >= HEADER_SIZE
    ensures Run(c, actions).busy == Handling(c, actions)
    ensures Run(c, actions).replies == RepliesMade(c, actions)
    decreases |actions|
  {
    if actions != [] {
      var before := actions[..|actions| - 1];
      RepliesAreMade(c, before);
      RunKeeps(c, before);
      ReplyStep(c, actions);
    }
  }

  lemma ReplyStep(c: Setup, actions: seq<Action>)
    requires c.n >= HEADER_SIZE && actions != []
    requires var before := actions[..|actions| - 1];
             && Run(c, before).busy == Handling(c, before) && Run(c, before).replies == RepliesMade(c, before)
             && Inv(c, Run(c, before))
    ensures Run(c, actions).busy == Handling(c, actions)
    ensures Run(c, actions).replies == RepliesMade(c, actions)
  {
    hide Absorb, EncodeBatches, Batching.Do, Batching.Wellmade, Flatten;
    var before := actions[..|actions| - 1];
    var s := Run(c, before);
    match Last(actions)
    case ServerParse =>
      if Enabled(c, s, ServerParse) {
        CallsByOne(c.n, c.server, s.c2s);
      } else {
        LaneWellFormed(c.n, c.server, s.c2s);
      }
    case Reply(body) =>
      if s.busy {
        assert Last(s.replies) + [] == Last(s.replies);
        assert s.replies == s.replies[..|s.replies| - 1] + [Last(s.replies)];
      }
    case _ =>
  }

  lemma CallsByOne(n: nat, answers: Answers, l: Lane)
    requires l.chunk != [] && WellFormed(n, l.rx)
    ensures |l.rx.calls| <= |Parse(n, answers, l).rx.calls| <= |l.rx.calls| + 1
  {}

  lemma {:induction false} ReplyBodiesGrouped(c: Setup, actions: seq<Action>)
    requires c.n >= HEADER_SIZE
    ensures Flatten(RepliesMade(c, actions)) == ReplyBodies(c, actions)
    decreases |actions|
  {
    hide Flatten, CallStarts;
    if actions == [] {
      assert Flatten<Payload>([]) == [] by { NothingFlat(); }
    } else {
      var before := actions[..|actions| - 1];
      var made := RepliesMade(c, before);
      ReplyBodiesGrouped(c, before);
      RepliesAreMade(c, before);
      RunKeeps(c, before);
      assert ReplyBodies(c, before) + [] == ReplyBodies(c, before);
      match Last(actions)
      case ServerParse =>
        FlattenSnoc(made, []);
        assert Flatten(made) + [] == Flatten(made);
      case Reply(body) =>
        if Handling(c, before) && |body| + 24 <= c.n {
          LastReplies(Run(c, before));
          FlattenAddToLast(made, [body]);
        }
      case _ =>
    }
  }

  lemma NothingFlat()
    ensures Flatten<Payload>([]) == []
  {}

  /** While a call runs the server reads nothing: only the client's own calls touch that lane. */
  lemma HandlingReadsNothing(c: Setup, actions: seq<Action>, a: Action)
    requires c.n >= HEADER_SIZE && Handling(c, actions) && !a.ClientCall?
    ensures Run(c, actions + [a]).c2s == Run(c, actions).c2s
  {
    RepliesAreMade(c, actions);
    assert (actions + [a])[..|actions|] == actions;
  }

  /** The server has put exactly the replies. */
  lemma ServerBox(s: System)
    requires RepliesInv(s)
    ensures Batching.Issued(s.s2c.box) == Flatten(s.replies)
  {
    hide Flatten;
    if s.busy {
      var k := |s.groups| - 1;
      GroupsMatch(s.groups[..k], s.replies[..k]);
      assert s.groups == s.groups[..k] + [Last(s.groups)] && s.replies == s.replies[..k] + [Last(s.replies)];
      FlattenSnoc(s.groups[..k], Last(s.groups));
      FlattenSnoc(s.replies[..k], Last(s.replies));
      FlattenAppend(Flatten(s.groups[..k]), Last(s.groups));
      calc {
        Batching.Issued(s.s2c.box);
        Flatten(Flatten(s.groups)) + s.s2c.box.open;
        Flatten(Flatten(s.groups[..k])) + Flatten(Last(s.groups)) + s.s2c.box.open;
        Flatten(s.replies[..k]) + (Flatten(Last(s.groups)) + s.s2c.box.open);
        Flatten(s.replies[..k]) + Last(s.replies);
        Flatten(s.replies);
      }
    } else {
      GroupsMatch(s.groups, s.replies);
      assert Flatten(s.s2c.box.sent) + [] == Flatten(s.s2c.box.sent);
    }
  }

  // ---- what every run guarantees ----

  /** The payload bytes of a lane, by where they are. */
  ghost function Payloads(l: Lane): seq<byte>
    requires l.rx.phase.InHeader? ==> |l.rx.phase.got| < HEADER_SIZE
    requires l.rx.phase.InBody? ==> 0 < l.rx.phase.left
  {
    Flatten(l.rx.calls) + l.rx.filled + BodyBytes(l.rx.phase, l.chunk + l.wire) + Flatten(l.box.open)
  }

  /** One direction: nothing is lost, handler calls are whole batches in order, space never fails. */
  ghost predicate Faithful(l: Lane) {
    && !l.rx.phase.Stuck?
    && (l.rx.phase.InHeader? ==> |l.rx.phase.got| < HEADER_SIZE)
    && (l.rx.phase.InBody? ==> 0 < l.rx.phase.left)
    && l.rx.calls == FlattenEach(l.box.sent[..Arrived(l.box.sent, |l.read|)])
    && Payloads(l) == Flatten(Batching.Issued(l.box))
  }

  lemma LaneIsFaithful(n: nat, answers: Answers, l: Lane)
    requires LaneInv(n, answers, l)
    ensures Faithful(l)
    ensures l.chunk == l.wire == [] ==> l.rx == State(FlattenEach(l.box.sent), [], InHeader([]))
  {
    hide EncodeBatches, Absorb, Step, FlattenEach, Arrived, BodyBytes, Flatten, Batching.Fits;
    var stream, rest := EncodeBatches(l.box.sent), l.chunk + l.wire;
    assert stream == l.read + rest && stream[..|l.read|] == l.read;
    PrefixDelivers(n, answers, INIT, l.box.sent, |l.read|);
    assert INIT.calls + FlattenEach(l.box.sent[..Arrived(l.box.sent, |l.read|)])
        == FlattenEach(l.box.sent[..Arrived(l.box.sent, |l.read|)]);
    BatchesMean(n, answers, INIT, l.box.sent);
    assert INIT.calls + FlattenEach(l.box.sent) == FlattenEach(l.box.sent);
    AbsorbAppend(n, answers, INIT, l.read, rest);
    if l.chunk == l.wire == [] {
      assert stream == l.read;
    }
    Conservation(n, answers, l.rx, rest);
    FlattenBatches(l.box.sent);
    assert Flatten(FlattenEach(l.box.sent)) + [] == Flatten(Flatten(l.box.sent));
    FlattenAppend(Flatten(l.box.sent), l.box.open);
  }

  /**
   In every reachable state, in both directions: what the client's calls had accepted, and what
   the server replied, is handled, buffered, in flight or in the send buffer, in that order.
   */
  lemma ProtocolIsFaithful(c: Setup, actions: seq<Action>)
    requires c.n >= HEADER_SIZE
    ensures var s := Run(c, actions);
            && Faithful(s.c2s) && Payloads(s.c2s) == Flatten(Batching.Accepted(c.n, ClientCalls(actions)))
            && Faithful(s.s2c) && Payloads(s.s2c) == Flatten(ReplyBodies(c, actions))
  {
    hide LaneInv, Payloads, RepliesInv, Run, Arrived, Batching.Issued, Flatten, FlattenEach, RepliesMade, ReplyBodies;
    RunKeeps(c, actions);
    LaneIsFaithful(c.n, c.server, Run(c, actions).c2s);
    LaneIsFaithful(c.n, c.client, Run(c, actions).s2c);
    ClientBox(c, actions);
    ClientIssued(c.n, ClientCalls(actions));
    ServerBox(Run(c, actions));
    RepliesAreMade(c, actions);
    ReplyBodiesGrouped(c, actions);
  }

  lemma ClientIssued(n: nat, cs: seq<Batching.Call>)
    requires n >= HEADER_SIZE
    ensures Batching.Issued(Batching.DoAll(n, Batching.Outbox([], []), cs)) == Batching.Accepted(n, cs)
  {
    Batching.CallsKeep(n, cs);
  }

  /**
   In every reachable state the server's reply batches, in order, are the groups of the batches
   it handled: the replies to one batch leave before any reply to the next, no batch mixes the
   two, and between batches nothing waits in the server's send buffer.
   */
  lemma RepliesKeepOrder(c: Setup, actions: seq<Action>)
    requires c.n >= HEADER_SIZE
    ensures var s := Run(c, actions);
            && |s.groups| == |s.replies| == |s.c2s.rx.calls|
            && s.s2c.box.sent == Flatten(s.groups)
            && s.s2c.rx.calls <= FlattenEach(Flatten(s.groups))
            && s.replies == RepliesMade(c, actions)
            && (forall i :: 0 <= i < |s.groups| - 1 ==> Flatten(s.groups[i]) == RepliesMade(c, actions)[i])
            && (Handling(c, actions) ==>
                  s.groups != [] && Flatten(Last(s.groups)) + s.s2c.box.open == Last(RepliesMade(c, actions)))
            && (!Handling(c, actions) ==>
                  s.s2c.box.open == [] && Flatten(s.s2c.box.sent) == ReplyBodies(c, actions))
  {
    hide LaneInv, FlattenEach, Arrived, Payloads, RepliesMade, ReplyBodies, Handling, Run;
    RunKeeps(c, actions);
    RepliesAreMade(c, actions);
    ReplyBodiesGrouped(c, actions);
    var s := Run(c, actions);
    LaneIsFaithful(c.n, c.client, s.s2c);
    var m, sent := Arrived(s.s2c.box.sent, |s.s2c.read|), s.s2c.box.sent;
    assert sent == sent[..m] + sent[m..];
    FlattenEachAppend(sent[..m], sent[m..]);
    if !s.busy {
      GroupsMatch(s.groups, s.replies);
    }
  }

  lemma {:induction false} GroupsMatch(groups: seq<seq<Batch>>, replies: seq<Batch>)
    requires |groups| == |replies|
    requires forall i :: 0 <= i < |groups| ==> Flatten(groups[i]) == replies[i]
    ensures Flatten(Flatten(groups)) == Flatten(replies)
    decreases |groups|
  {
    if groups != [] {
      GroupsMatch(groups[1..], replies[1..]);
      FlattenAppend(groups[0], Flatten(groups[1..]));
    }
  }

  /** Once everything is delivered, each side has handled exactly what the other sent. */
  lemma QuietMeansDelivered(c: Setup, actions: seq<Action>)
    requires c.n >= HEADER_SIZE
    requires Quiet(Run(c, actions))
    ensures var s := Run(c, actions);
            && s.c2s.rx == State(FlattenEach(s.c2s.box.sent), [], InHeader([]))
            && s.s2c.rx == State(FlattenEach(Flatten(s.groups)), [], InHeader([]))
            && |s.replies| == |s.c2s.box.sent|
            && s.replies == RepliesMade(c, actions)
            && Flatten(s.s2c.rx.calls) == Flatten(ReplyBodies(c, actions))
            && s.c2s.box == Batching.DoAll(c.n, Batching.Outbox([], []), ClientCalls(actions))
  {
    hide LaneInv, Arrived, Payloads, Flatten, FlattenEach, Run, Faithful, RepliesMade, ReplyBodies;
    ClientBox(c, actions);
    RepliesAreMade(c, actions);
    ReplyBodiesGrouped(c, actions);
    RunKeeps(c, actions);
    var s := Run(c, actions);
    LaneIsFaithful(c.n, c.server, s.c2s);
    LaneIsFaithful(c.n, c.client, s.s2c);
    FlattenEachLength(s.c2s.box.sent);
    GroupsMatch(s.groups, s.replies);
    FlattenBatches(s.s2c.box.sent);
  }

  lemma {:induction false} FlattenEachLength(bs: seq<Batch>)
    ensures |FlattenEach(bs)| == |bs|
    decreases |bs|
  {
    if bs != [] {
      FlattenEachLength(bs[1..]);
    }
  }

  predicate Quiet(s: System) {
    !s.busy && s.c2s.chunk == s.c2s.wire == [] && s.s2c.chunk == s.s2c.wire == []
  }

  /** Steps a lane still needs to deliver what is under way. */
  function Pending(l: Lane): nat {
    2 * |l.wire| + |l.chunk|
  }

  lemma LaneWellFormed(n: nat, answers: Answers, l: Lane)
    requires LaneInv(n, answers, l)
    ensures WellFormed(n, l.rx)
  {}

  /** The next step towards quiet, with no new command from either side. */
  lemma DrainStep(c: Setup, s: System) returns (a: Action)
    requires c.n >= HEADER_SIZE && Inv(c, s) && !Quiet(s)
    ensures !a.ClientCall? && !a.Reply? && Enabled(c, s, a)
    ensures var s' := Next(c, s, a);
            || Pending(s'.c2s) < Pending(s.c2s)
            || (Pending(s'.c2s) == Pending(s.c2s) && s.busy && !s'.busy)
            || (Pending(s'.c2s) == Pending(s.c2s) && s.busy == s'.busy && Pending(s'.s2c) < Pending(s.s2c))
  {
    hide LaneInv, Absorb, Step, EncodeBatches, WellFormed, Flatten, Batching.Do;
    LaneWellFormed(c.n, c.server, s.c2s);
    LaneWellFormed(c.n, c.client, s.s2c);
    a := if s.busy then ServerFlush
         else if s.c2s.chunk != [] then ServerParse
         else if s.c2s.wire != [] then ServerReceive(1)
         else if s.s2c.chunk != [] then ClientParse
         else ClientReceive(1);
  }

  /** From every reachable state, delivering what is under way ends in quiet, with everything handled. */
  lemma {:induction false} EveryRunCanDrain(c: Setup, actions: seq<Action>) returns (more: seq<Action>)
    requires c.n >= HEADER_SIZE
    ensures Quiet(Run(c, actions + more))
    ensures forall i :: 0 <= i < |more| ==> !more[i].ClientCall? && !more[i].Reply?
    decreases Pending(Run(c, actions).c2s), Run(c, actions).busy, Pending(Run(c, actions).s2c)
  {
    hide Inv, Next, Enabled, Pending, Quiet;
    RunKeeps(c, actions);
    if Quiet(Run(c, actions)) {
      more := [];
      assert actions + more == actions;
    } else {
      var a := DrainStep(c, Run(c, actions));
      assert (actions + [a])[..|actions|] == actions;
      assert Run(c, actions + [a]) == Next(c, Run(c, actions), a);
      more := EveryRunCanDrain(c, actions + [a]);
      assert actions + ([a] + more) == actions + [a] + more;
      more := [a] + more;
    }
  }
}
