/**
 multiplyMatrices on the CPU: one thread per 64x64 tile over one shared result, interleaved at
 single loads and stores, started one by one and joined in the same order.
 */
module TiledCpu {
  import opened Bytes
  import opened Matrix

  const BATCH := 64

  /** `tiles` rows and columns of tiles cover the matrix exactly. */
  datatype Job = Job(a: Words, b: Words, dim: nat, tiles: nat) {
    predicate Valid() {
      Square(a, dim) && Square(b, dim) && dim == 64 * tiles
    }
  }

  /** The thread started with by == 64 * y and bx == 64 * x. */
  datatype Tile = Tile(y: nat, x: nat)

  predicate InGrid(tiles: nat, t: Tile) {
    t.y < tiles && t.x < tiles
  }

  predicate InTile(t: Tile, i: nat, j: nat) {
    BATCH * t.y <= i < BATCH * t.y + BATCH && BATCH * t.x <= j < BATCH * t.x + BATCH
  }

  /** The next memory access of a thread, with what it has in registers. */
  datatype Pc =
    | Clear(i: nat, j: nat)
    | LoadA(i: nat, j: nat, k: nat)
    | LoadB(i: nat, j: nat, k: nat, x: u32)
    | LoadRes(i: nat, j: nat, k: nat, p: u32)
    | Store(i: nat, j: nat, k: nat, v: u32)
    | Done

  /** The access is to a cell of the thread's own tile, in row and column range. */
  predicate Inside(job: Job, t: Tile, pc: Pc) {
    pc.Done? || (InTile(t, pc.i, pc.j) && (pc.Clear? || pc.k < job.dim))
  }

  function AfterCell(t: Tile, i: nat, j: nat): Pc {
    if j + 1 < BATCH * t.x + BATCH then Clear(i, j + 1)
    else if i + 1 < BATCH * t.y + BATCH then Clear(i + 1, BATCH * t.x)
    else Done
  }

  function NextPc(job: Job, t: Tile, pc: Pc, res: Words): Pc
    requires job.Valid() && InGrid(job.tiles, t) && Inside(job, t, pc) && !pc.Done? && Square(res, job.dim)
  {
    match pc
    case Clear(i, j) => LoadA(i, j, 0)
    case LoadA(i, j, k) => LoadB(i, j, k, At(job.a, job.dim, i, k))
    case LoadB(i, j, k, x) => LoadRes(i, j, k, Times(x, At(job.b, job.dim, k, j)))
    case LoadRes(i, j, k, p) => Store(i, j, k, Plus(At(res, job.dim, i, j), p))
    case Store(i, j, k, v) => if k + 1 < job.dim then LoadA(i, j, k + 1) else AfterCell(t, i, j)
  }

  function NextRes(job: Job, t: Tile, pc: Pc, res: Words): Words
    requires job.Valid() && InGrid(job.tiles, t) && Inside(job, t, pc) && !pc.Done? && Square(res, job.dim)
  {
    match pc
    case Clear(i, j) => res[Index(job.dim, i, j) := 0]
    case Store(i, j, k, v) => res[Index(job.dim, i, j) := v]
    case _ => res
  }

  /** `spawn` and `join` are how far main's two loops have come. */
  datatype State = State(res: Words, threads: map<Tile, Pc>, spawn: Tile, join: Tile)

  datatype Action = Spawn | Run(t: Tile) | Join

  /** Loop order: by outside, bx inside. */
  predicate Before(t: Tile, u: Tile) {
    t.y < u.y || (t.y == u.y && t.x < u.x)
  }

  function NextTile(tiles: nat, t: Tile): Tile {
    if t.x + 1 < tiles then Tile(t.y, t.x + 1) else Tile(t.y + 1, 0)
  }

  function Start(job: Job, res: Words): State {
    State(res, map y, x | 0 <= y < job.tiles && 0 <= x < job.tiles :: Tile(y, x) := Clear(BATCH * y, BATCH * x),
          Tile(0, 0), Tile(0, 0))
  }

  predicate Enabled(job: Job, s: State, act: Action) {
    match act
    case Spawn => InGrid(job.tiles, s.spawn)
    case Run(t) =>
      && job.Valid() && Square(s.res, job.dim) && InGrid(job.tiles, t)
      && Before(t, s.spawn) && t in s.threads && Inside(job, t, s.threads[t]) && !s.threads[t].Done?
    case Join => !InGrid(job.tiles, s.spawn) && InGrid(job.tiles, s.join) && s.join in s.threads && s.threads[s.join].Done?
  }

  function Next(job: Job, s: State, act: Action): State {
    if !Enabled(job, s, act) then s
    else match act
      case Spawn => s.(spawn := NextTile(job.tiles, s.spawn))
      case Run(t) =>
        var pc := s.threads[t];
        s.(res := NextRes(job, t, pc, s.res), threads := s.threads[t := NextPc(job, t, pc, s.res)])
      case Join => s.(join := NextTile(job.tiles, s.join))
  }

  function Execute(job: Job, res: Words, schedule: seq<Action>): State {
    if schedule == [] then Start(job, res)
    else Next(job, Execute(job, res, schedule[..|schedule| - 1]), schedule[|schedule| - 1])
  }

  // ---- the invariant: each thread owns its tile ----

  predicate Passed(pc: Pc, i: nat, j: nat) {
    pc.Done? || i < pc.i || (i == pc.i && j < pc.j)
  }

  ghost predicate Finished(job: Job, t: Tile, pc: Pc, res: Words)
    requires job.Valid() && InGrid(job.tiles, t) && Square(res, job.dim)
  {
    forall i, j :: InTile(t, i, j) && Passed(pc, i, j) ==> EntryDone(job.a, job.b, res, job.dim, i, j)
  }

  predicate CurrentCell(job: Job, t: Tile, pc: Pc, res: Words)
    requires job.Valid() && InGrid(job.tiles, t) && Inside(job, t, pc) && Square(res, job.dim)
  {
    pc.Done? || pc.Clear? ||
    (&& At(res, job.dim, pc.i, pc.j) == Partial(job.a, job.b, job.dim, pc.i, pc.j, pc.k)
     && match pc
        case LoadB(i, j, k, x) => x == At(job.a, job.dim, i, k)
        case LoadRes(i, j, k, p) => p == Times(At(job.a, job.dim, i, k), At(job.b, job.dim, k, j))
        case Store(i, j, k, v) => v == Partial(job.a, job.b, job.dim, i, j, k + 1)
        case _ => true)
  }

  ghost predicate ThreadInv(job: Job, t: Tile, pc: Pc, res: Words)
    requires job.Valid() && InGrid(job.tiles, t) && Square(res, job.dim)
  {
    Inside(job, t, pc) && Finished(job, t, pc, res) && CurrentCell(job, t, pc, res)
  }

  ghost predicate Inv(job: Job, s: State)
    requires job.Valid()
  {
    && Square(s.res, job.dim)
    && (forall t :: InGrid(job.tiles, t) ==> t in s.threads)
    && (forall t :: InGrid(job.tiles, t) ==> ThreadInv(job, t, s.threads[t], s.res))
    && (forall t :: InGrid(job.tiles, t) && Before(t, s.join) ==> s.threads[t].Done?)
    && OnPath(job.tiles, s.spawn) && OnPath(job.tiles, s.join)
    && (InGrid(job.tiles, s.spawn) ==> s.join == Tile(0, 0))
  }

  predicate OnPath(tiles: nat, t: Tile) {
    InGrid(tiles, t) || t == Tile(tiles, 0)
  }

  /** A step of one thread leaves every other thread's facts alone: tiles share no cell. */
  lemma OthersKeep(job: Job, t: Tile, pc: Pc, res: Words, u: Tile, pcU: Pc)
    requires job.Valid() && InGrid(job.tiles, t) && InGrid(job.tiles, u) && t != u
    requires Square(res, job.dim) && Inside(job, t, pc) && !pc.Done?
    requires ThreadInv(job, u, pcU, res)
    ensures ThreadInv(job, u, pcU, NextRes(job, t, pc, res))
  {
    hide Partial, At, Index;
    var res' := NextRes(job, t, pc, res);
    forall i, j | InTile(u, i, j) ensures At(res', job.dim, i, j) == At(res, job.dim, i, j) {
      OtherCell(job, t, pc, res, i, j);
    }
  }

  lemma OtherCell(job: Job, t: Tile, pc: Pc, res: Words, i: nat, j: nat)
    requires job.Valid() && InGrid(job.tiles, t) && i < job.dim && j < job.dim
    requires Square(res, job.dim) && Inside(job, t, pc) && !pc.Done?
    requires i != pc.i || j != pc.j
    ensures At(NextRes(job, t, pc, res), job.dim, i, j) == At(res, job.dim, i, j)
  {
    hide At, Index;
    match pc
    case Clear(i0, j0) => AtUpdated(res, job.dim, i0, j0, 0, i, j);
    case Store(i0, j0, _, v) => AtUpdated(res, job.dim, i0, j0, v, i, j);
    case _ =>
  }

  lemma OwnStep(job: Job, t: Tile, pc: Pc, res: Words)
    requires job.Valid() && InGrid(job.tiles, t) && Square(res, job.dim)
    requires ThreadInv(job, t, pc, res) && !pc.Done?
    ensures ThreadInv(job, t, NextPc(job, t, pc, res), NextRes(job, t, pc, res))
  {
    hide Partial, At, Index, Times, Plus;
    OwnCell(job, t, pc, res);
    var pc', res' := NextPc(job, t, pc, res), NextRes(job, t, pc, res);
    forall i, j | InTile(t, i, j) && Passed(pc', i, j) ensures EntryDone(job.a, job.b, res', job.dim, i, j) {
      if i != pc.i || j != pc.j {
        OtherCell(job, t, pc, res, i, j);
        assert Passed(pc, i, j);
      }
    }
  }

  /** What a step does to the cell it works on. */
  lemma OwnCell(job: Job, t: Tile, pc: Pc, res: Words)
    requires job.Valid() && InGrid(job.tiles, t) && Square(res, job.dim)
    requires Inside(job, t, pc) && CurrentCell(job, t, pc, res) && !pc.Done?
    ensures var pc', res' := NextPc(job, t, pc, res), NextRes(job, t, pc, res);
            && Inside(job, t, pc') && CurrentCell(job, t, pc', res')
            && (Passed(pc', pc.i, pc.j) ==> EntryDone(job.a, job.b, res', job.dim, pc.i, pc.j))
  {
    hide Partial, At, Index, Times, Plus;
    match pc
    case Clear(i, j) =>
      AtUpdated(res, job.dim, i, j, 0, i, j);
      PartialNone(job, i, j);
    case LoadRes(i, j, k, p) => Accumulate(job.a, job.b, job.dim, i, j, k);
    case Store(i, j, k, v) => AtUpdated(res, job.dim, i, j, v, i, j);
    case _ =>
  }

  lemma PartialNone(job: Job, i: nat, j: nat)
    requires job.Valid() && i < job.dim && j < job.dim
    ensures Partial(job.a, job.b, job.dim, i, j, 0) == 0
  {}

  lemma NextKeeps(job: Job, s: State, act: Action)
    requires job.Valid() && Inv(job, s)
    ensures Inv(job, Next(job, s, act))
  {
    hide ThreadInv, NextRes, NextPc;
    if act.Run? && Enabled(job, s, act) {
      var t := act.t;
      var pc := s.threads[t];
      OwnStep(job, t, pc, s.res);
      NextResSquare(job, t, pc, s.res);
      forall u | InGrid(job.tiles, u) && u != t
        ensures ThreadInv(job, u, s.threads[u], NextRes(job, t, pc, s.res))
      {
        OthersKeep(job, t, pc, s.res, u, s.threads[u]);
      }
    }
  }

  lemma NextResSquare(job: Job, t: Tile, pc: Pc, res: Words)
    requires job.Valid() && InGrid(job.tiles, t) && Inside(job, t, pc) && !pc.Done? && Square(res, job.dim)
    ensures Square(NextRes(job, t, pc, res), job.dim)
  {}

  lemma {:induction false} ScheduleKeeps(job: Job, res: Words, schedule: seq<Action>)
    requires job.Valid() && Square(res, job.dim)
    ensures Inv(job, Execute(job, res, schedule))
    decreases |schedule|
  {
    if schedule == [] {
      StartHolds(job, res);
    } else {
      ScheduleKeeps(job, res, schedule[..|schedule| - 1]);
      NextKeeps(job, Execute(job, res, schedule[..|schedule| - 1]), schedule[|schedule| - 1]);
    }
  }

  lemma StartHolds(job: Job, res: Words)
    requires job.Valid() && Square(res, job.dim)
    ensures Inv(job, Start(job, res))
  {
    forall t | InGrid(job.tiles, t) ensures t in Start(job, res).threads {
      assert t == Tile(t.y, t.x);
    }
  }

  // ---- what every schedule guarantees ----

  predicate AllJoined(job: Job, s: State) {
    s.join == Tile(job.tiles, 0)
  }

  /** Whatever the schedule and whatever was in `res`, after the joins it is the product. */
  lemma EveryScheduleMultiplies(job: Job, res: Words, schedule: seq<Action>)
    requires job.Valid() && Square(res, job.dim)
    requires AllJoined(job, Execute(job, res, schedule))
    ensures IsProduct(job.a, job.b, Execute(job, res, schedule).res, job.dim)
  {
    hide Partial, At, Index, Execute, Entry;
    ScheduleKeeps(job, res, schedule);
    var s := Execute(job, res, schedule);
    ProductMeans(job.a, job.b, s.res, job.dim);
    forall i, j | 0 <= i < job.dim && 0 <= j < job.dim
      ensures EntryDone(job.a, job.b, s.res, job.dim, i, j)
    {
      var t := Tile(i / BATCH, j / BATCH);
      assert InGrid(job.tiles, t) && InTile(t, i, j) && Before(t, s.join);
      assert ThreadInv(job, t, s.threads[t], s.res);
    }
  }

  /** Any two complete schedules end with the same result. */
  lemma SchedulesAgree(job: Job, res: Words, res': Words, schedule: seq<Action>, schedule': seq<Action>)
    requires job.Valid() && Square(res, job.dim) && Square(res', job.dim)
    requires AllJoined(job, Execute(job, res, schedule)) && AllJoined(job, Execute(job, res', schedule'))
    ensures Execute(job, res, schedule).res == Execute(job, res', schedule').res
  {
    EveryScheduleMultiplies(job, res, schedule);
    EveryScheduleMultiplies(job, res', schedule');
    ProductUnique(job.a, job.b, Execute(job, res, schedule).res, Execute(job, res', schedule').res, job.dim);
  }

  /** Until all threads are joined some step is possible: no schedule gets stuck. */
  lemma NeverStuck(job: Job, res: Words, schedule: seq<Action>)
    requires job.Valid() && Square(res, job.dim)
    ensures var s := Execute(job, res, schedule);
            AllJoined(job, s) || exists act :: Enabled(job, s, act)
  {
    hide Finished, CurrentCell, Execute;
    ScheduleKeeps(job, res, schedule);
    var s := Execute(job, res, schedule);
    if InGrid(job.tiles, s.spawn) {
      assert Enabled(job, s, Spawn);
    } else if InGrid(job.tiles, s.join) {
      assert ThreadInv(job, s.join, s.threads[s.join], s.res);
      assert if s.threads[s.join].Done? then Enabled(job, s, Join) else Enabled(job, s, Run(s.join));
    }
  }

  /**
   What can happen next in any reachable state: every thread that is started and not done may take
   its step, the next thread may start, and main may join the next one that is done once all run.
   */
  lemma StepsPossible(job: Job, res: Words, schedule: seq<Action>)
    requires job.Valid() && Square(res, job.dim)
    ensures var s := Execute(job, res, schedule);
            && (forall t :: InGrid(job.tiles, t) ==>
                  t in s.threads && (Enabled(job, s, Run(t)) <==> Before(t, s.spawn) && !s.threads[t].Done?))
            && (Enabled(job, s, Spawn) <==> s.spawn != Tile(job.tiles, 0))
            && (Enabled(job, s, Join) <==>
                  s.spawn == Tile(job.tiles, 0) && InGrid(job.tiles, s.join) && s.threads[s.join].Done?)
  {
    hide Finished, CurrentCell, Execute;
    ScheduleKeeps(job, res, schedule);
    var s := Execute(job, res, schedule);
    forall t | InGrid(job.tiles, t)
      ensures t in s.threads && (Enabled(job, s, Run(t)) <==> Before(t, s.spawn) && !s.threads[t].Done?)
    {
      assert ThreadInv(job, t, s.threads[t], s.res);
    }
  }

  // ---- how long every schedule is ----

  /** The memory accesses a thread has left. */
  function Work(job: Job, t: Tile, pc: Pc): nat
    requires Inside(job, t, pc)
  {
    if pc.Done? then 0
    else CellsAfter(t, pc.i, pc.j) * (4 * job.dim + 1) + InCell(job, pc)
  }

  function CellsAfter(t: Tile, i: nat, j: nat): nat
    requires InTile(t, i, j)
  {
    (BATCH * t.y + BATCH - 1 - i) * BATCH + BATCH * t.x + BATCH - 1 - j
  }

  function InCell(job: Job, pc: Pc): nat
    requires !pc.Done? && (pc.Clear? || pc.k < job.dim)
  {
    match pc
    case Clear(_, _) => 4 * job.dim + 1
    case LoadA(_, _, k) => 4 * (job.dim - k)
    case LoadB(_, _, k, _) => 4 * (job.dim - k) - 1
    case LoadRes(_, _, k, _) => 4 * (job.dim - k) - 2
    case Store(_, _, k, _) => 4 * (job.dim - k) - 3
  }

  lemma StepIsWork(job: Job, t: Tile, pc: Pc, res: Words)
    requires job.Valid() && InGrid(job.tiles, t) && Inside(job, t, pc) && !pc.Done? && Square(res, job.dim)
    ensures Inside(job, t, NextPc(job, t, pc, res))
    ensures Work(job, t, NextPc(job, t, pc, res)) == Work(job, t, pc) - 1
  {
    hide At, Times, Plus;
    var pc' := NextPc(job, t, pc, res);
    if pc.Store? && pc.k + 1 == job.dim && !pc'.Done? {
      var left, cost := CellsAfter(t, pc'.i, pc'.j), 4 * job.dim + 1;
      assert CellsAfter(t, pc.i, pc.j) == left + 1;
      assert (left + 1) * cost == left * cost + cost;
    }
  }

  predicate AllInside(job: Job, threads: map<Tile, Pc>) {
    forall y: nat, x: nat :: y < job.tiles && x < job.tiles ==>
      Tile(y, x) in threads && Inside(job, Tile(y, x), threads[Tile(y, x)])
  }

  function RowWork(job: Job, threads: map<Tile, Pc>, y: nat, x: nat): nat
    requires AllInside(job, threads) && y < job.tiles && x <= job.tiles
  {
    if x == 0 then 0
    else RowWork(job, threads, y, x - 1) + Work(job, Tile(y, x - 1), threads[Tile(y, x - 1)])
  }

  function GridWork(job: Job, threads: map<Tile, Pc>, y: nat): nat
    requires AllInside(job, threads) && y <= job.tiles
  {
    if y == 0 then 0 else GridWork(job, threads, y - 1) + RowWork(job, threads, y - 1, job.tiles)
  }

  lemma {:induction false} RowWorkUpdated(job: Job, threads: map<Tile, Pc>, threads': map<Tile, Pc>, t: Tile, y: nat, x: nat)
    requires AllInside(job, threads) && AllInside(job, threads') && InGrid(job.tiles, t)
    requires threads' == threads[t := threads'[t]]
    requires y < job.tiles && x <= job.tiles
    ensures RowWork(job, threads', y, x) == RowWork(job, threads, y, x)
              + if y == t.y && t.x < x then Work(job, t, threads'[t]) - Work(job, t, threads[t]) else 0
    decreases x
  {
    hide Work;
    if x > 0 {
      RowWorkUpdated(job, threads, threads', t, y, x - 1);
      assert t == Tile(t.y, t.x);
    }
  }

  lemma {:induction false} GridWorkUpdated(job: Job, threads: map<Tile, Pc>, threads': map<Tile, Pc>, t: Tile, y: nat)
    requires AllInside(job, threads) && AllInside(job, threads') && InGrid(job.tiles, t)
    requires threads' == threads[t := threads'[t]]
    requires y <= job.tiles
    ensures GridWork(job, threads', y) == GridWork(job, threads, y)
              + if t.y < y then Work(job, t, threads'[t]) - Work(job, t, threads[t]) else 0
    decreases y
  {
    hide Work, RowWork;
    if y > 0 {
      GridWorkUpdated(job, threads, threads', t, y - 1);
      RowWorkUpdated(job, threads, threads', t, y - 1, job.tiles);
    }
  }

  lemma {:induction false} RowWorkDone(job: Job, threads: map<Tile, Pc>, y: nat, x: nat)
    requires AllInside(job, threads) && y < job.tiles && x <= job.tiles
    requires forall t :: InGrid(job.tiles, t) ==> threads[t].Done?
    ensures RowWork(job, threads, y, x) == 0
    decreases x
  {
    if x > 0 {
      RowWorkDone(job, threads, y, x - 1);
      assert InGrid(job.tiles, Tile(y, x - 1));
    }
  }

  lemma {:induction false} GridWorkDone(job: Job, threads: map<Tile, Pc>, y: nat)
    requires AllInside(job, threads) && y <= job.tiles
    requires forall t :: InGrid(job.tiles, t) ==> threads[t].Done?
    ensures GridWork(job, threads, y) == 0
    decreases y
  {
    if y > 0 {
      GridWorkDone(job, threads, y - 1);
      RowWorkDone(job, threads, y - 1, job.tiles);
    }
  }

  /** How many turns one of main's loops has left. */
  function TurnsLeft(tiles: nat, t: Tile): nat
    requires OnPath(tiles, t)
  {
    TurnsPositive(tiles, t);
    (tiles - t.y) * tiles - t.x
  }

  lemma TurnsPositive(tiles: nat, t: Tile)
    requires OnPath(tiles, t)
    ensures 0 <= (tiles - t.y) * tiles - t.x
    ensures InGrid(tiles, t) ==> 0 < (tiles - t.y) * tiles - t.x
  {
    if InGrid(tiles, t) {
      MulMono(tiles, 1, tiles - t.y);
    }
  }

  lemma TurnTaken(tiles: nat, t: Tile)
    requires InGrid(tiles, t)
    ensures OnPath(tiles, NextTile(tiles, t))
    ensures TurnsLeft(tiles, NextTile(tiles, t)) == TurnsLeft(tiles, t) - 1
  {
    assert (tiles - t.y) * tiles == (tiles - t.y - 1) * tiles + tiles;
  }

  lemma InvInside(job: Job, s: State)
    requires job.Valid() && Inv(job, s)
    ensures AllInside(job, s.threads)
  {
    hide Finished, CurrentCell;
    forall y: nat, x: nat | y < job.tiles && x < job.tiles
      ensures Tile(y, x) in s.threads && Inside(job, Tile(y, x), s.threads[Tile(y, x)])
    {
      assert ThreadInv(job, Tile(y, x), s.threads[Tile(y, x)], s.res);
    }
  }

  ghost function Remaining(job: Job, s: State): nat
    requires job.Valid() && Inv(job, s)
  {
    InvInside(job, s);
    TurnsLeft(job.tiles, s.spawn) + TurnsLeft(job.tiles, s.join) + GridWork(job, s.threads, job.tiles)
  }

  lemma StepTakesOne(job: Job, s: State, act: Action)
    requires job.Valid() && Inv(job, s) && Enabled(job, s, act)
    ensures Inv(job, Next(job, s, act))
    ensures Remaining(job, Next(job, s, act)) == Remaining(job, s) - 1
  {
    hide ThreadInv, NextRes, NextPc, TurnsLeft, GridWork, Work;
    NextKeeps(job, s, act);
    var s' := Next(job, s, act);
    InvInside(job, s);
    InvInside(job, s');
    match act
    case Spawn => TurnTaken(job.tiles, s.spawn);
    case Join => TurnTaken(job.tiles, s.join);
    case Run(t) =>
      StepIsWork(job, t, s.threads[t], s.res);
      GridWorkUpdated(job, s.threads, s'.threads, t, job.tiles);
  }

  /** Every action of the schedule was possible when it was taken. */
  ghost predicate Effective(job: Job, res: Words, schedule: seq<Action>) {
    forall i :: 0 <= i < |schedule| ==> Enabled(job, Execute(job, res, schedule[..i]), schedule[i])
  }

  lemma {:induction false} ScheduleTakes(job: Job, res: Words, schedule: seq<Action>)
    requires job.Valid() && Square(res, job.dim) && Effective(job, res, schedule)
    ensures Inv(job, Start(job, res)) && Inv(job, Execute(job, res, schedule))
    ensures Remaining(job, Execute(job, res, schedule)) == Remaining(job, Start(job, res)) - |schedule|
    decreases |schedule|
  {
    hide Inv, Remaining, Enabled, Next, Start;
    StartHolds(job, res);
    if schedule != [] {
      var k := |schedule| - 1;
      var shorter := schedule[..k];
      assert forall i :: 0 <= i < k ==> shorter[..i] == schedule[..i];
      assert Enabled(job, Execute(job, res, schedule[..k]), schedule[k]);
      ScheduleTakes(job, res, shorter);
      StepTakesOne(job, Execute(job, res, shorter), schedule[k]);
    }
  }

  lemma NothingRemains(job: Job, s: State)
    requires job.Valid() && Inv(job, s)
    ensures AllJoined(job, s) <==> Remaining(job, s) == 0
  {
    hide ThreadInv;
    InvInside(job, s);
    TurnsPositive(job.tiles, s.join);
    if AllJoined(job, s) {
      forall t | InGrid(job.tiles, t) ensures s.threads[t].Done? {
        assert Before(t, s.join);
      }
      GridWorkDone(job, s.threads, job.tiles);
    }
  }

  /** Starts, joins, and 4096 cells a tile with one clearing store and four accesses a product. */
  function Steps(job: Job): nat {
    2 * (job.tiles * job.tiles) + job.tiles * (job.tiles * TileSteps(job))
  }

  function TileSteps(job: Job): nat {
    4096 * (4 * job.dim + 1)
  }

  lemma WorkAtStart(job: Job, t: Tile)
    requires InGrid(job.tiles, t) && Inside(job, t, Clear(BATCH * t.y, BATCH * t.x))
    ensures Work(job, t, Clear(BATCH * t.y, BATCH * t.x)) == TileSteps(job)
  {}

  lemma {:induction false} RowWorkAtStart(job: Job, res: Words, y: nat, x: nat)
    requires AllInside(job, Start(job, res).threads) && y < job.tiles && x <= job.tiles
    ensures RowWork(job, Start(job, res).threads, y, x) == x * TileSteps(job)
    decreases x
  {
    hide TileSteps, Work;
    if x > 0 {
      RowWorkAtStart(job, res, y, x - 1);
      WorkAtStart(job, Tile(y, x - 1));
      assert x * TileSteps(job) == (x - 1) * TileSteps(job) + TileSteps(job);
    }
  }

  lemma {:induction false} GridWorkAtStart(job: Job, res: Words, y: nat)
    requires AllInside(job, Start(job, res).threads) && y <= job.tiles
    ensures GridWork(job, Start(job, res).threads, y) == y * (job.tiles * TileSteps(job))
    decreases y
  {
    hide TileSteps, Start, RowWork;
    if y > 0 {
      GridWorkAtStart(job, res, y - 1);
      RowWorkAtStart(job, res, y - 1, job.tiles);
      var row := job.tiles * TileSteps(job);
      assert y * row == (y - 1) * row + row;
    }
  }

  lemma RemainingAtStart(job: Job, res: Words)
    requires job.Valid() && Square(res, job.dim)
    ensures Inv(job, Start(job, res)) && Remaining(job, Start(job, res)) == Steps(job)
  {
    hide ThreadInv, GridWork, TileSteps;
    StartHolds(job, res);
    InvInside(job, Start(job, res));
    GridWorkAtStart(job, res, job.tiles);
  }

  /** No schedule of possible steps is longer than `Steps`, and only at that length is every thread joined. */
  lemma EveryScheduleEnds(job: Job, res: Words, schedule: seq<Action>)
    requires job.Valid() && Square(res, job.dim) && Effective(job, res, schedule)
    ensures |schedule| <= Steps(job)
    ensures AllJoined(job, Execute(job, res, schedule)) <==> |schedule| == Steps(job)
  {
    hide Inv, Remaining, Execute, Effective, AllJoined, Steps;
    ScheduleTakes(job, res, schedule);
    RemainingAtStart(job, res);
    NothingRemains(job, Execute(job, res, schedule));
  }

  /** Every schedule of possible steps can be carried on to a complete one. */
  lemma {:induction false} EveryScheduleExtends(job: Job, res: Words, schedule: seq<Action>) returns (more: seq<Action>)
    requires job.Valid() && Square(res, job.dim) && Effective(job, res, schedule)
    ensures Effective(job, res, schedule + more) && AllJoined(job, Execute(job, res, schedule + more))
    decreases Steps(job) - |schedule|
  {
    hide Inv, Remaining, Execute, AllJoined, Steps, Enabled;
    EveryScheduleEnds(job, res, schedule);
    if AllJoined(job, Execute(job, res, schedule)) {
      more := [];
      assert schedule + more == schedule;
    } else {
      NeverStuck(job, res, schedule);
      var act :| Enabled(job, Execute(job, res, schedule), act);
      var longer := schedule + [act];
      forall i | 0 <= i < |longer| ensures Enabled(job, Execute(job, res, longer[..i]), longer[i]) {
        assert longer[..i] == schedule[..i];
        assert i == |schedule| ==> schedule[..i] == schedule;
      }
      EveryScheduleEnds(job, res, longer);
      more := EveryScheduleExtends(job, res, longer);
      assert schedule + ([act] + more) == longer + more;
      more := [act] + more;
    }
  }

  /** Every cell is in exactly one tile of the grid. */
  lemma TilesPartition(tiles: nat, i: nat, j: nat)
    requires i < BATCH * tiles && j < BATCH * tiles
    ensures InGrid(tiles, Tile(i / BATCH, j / BATCH)) && InTile(Tile(i / BATCH, j / BATCH), i, j)
    ensures forall t :: InTile(t, i, j) ==> t == Tile(i / BATCH, j / BATCH)
  {
  }

  /** Every word of the result is written by exactly one thread, as exactly one cell. */
  lemma OneOwner(tiles: nat, p: nat) returns (t: Tile, i: nat, j: nat)
    requires p < 64 * tiles * (64 * tiles)
    ensures InGrid(tiles, t) && InTile(t, i, j)
    ensures 64 * t.y <= i < 64 * t.y + 64 && 64 * t.x <= j < 64 * t.x + 64 && p == j + 64 * tiles * i
    ensures forall t', i', j' :: InGrid(tiles, t') && InTile(t', i', j') && Cell(64 * tiles, i', j') == p ==>
              t' == t && i' == i && j' == j
  {
    i, j := CellOnto(64 * tiles, 64 * tiles, p);
    OwnerOf(tiles, i, j);
    t := Tile(i / BATCH, j / BATCH);
  }

  lemma OwnerOf(tiles: nat, i: nat, j: nat)
    requires i < 64 * tiles && j < 64 * tiles
    ensures InGrid(tiles, Tile(i / BATCH, j / BATCH)) && InTile(Tile(i / BATCH, j / BATCH), i, j)
    ensures forall t', i', j' :: InGrid(tiles, t') && InTile(t', i', j') && Cell(64 * tiles, i', j') == Cell(64 * tiles, i, j) ==>
              t' == Tile(i / BATCH, j / BATCH) && i' == i && j' == j
  {
    hide Cell;
    TilesPartition(tiles, i, j);
    forall t', i', j' | InGrid(tiles, t') && InTile(t', i', j') && Cell(64 * tiles, i', j') == Cell(64 * tiles, i, j)
      ensures t' == Tile(i / BATCH, j / BATCH) && i' == i && j' == j
    {
      CellInjective(64 * tiles, i, j, i', j');
    }
  }

  /** The tiles the two loops start: every by and bx that is a multiple of 64 below `dim`. */
  predicate Started(dim: nat, t: Tile) {
    BATCH * t.y < dim && BATCH * t.x < dim
  }

  /** The threads stay inside a `dim` by `dim` matrix exactly when 64 divides `dim`. */
  lemma TilesInsideExactly(dim: nat)
    ensures dim % 64 == 0 <==>
            forall t, i: nat, j: nat :: Started(dim, t) && InTile(t, i, j) ==> i < dim && j < dim && j + dim * i < dim * dim
  {
    if dim % 64 == 0 {
      forall t, i: nat, j: nat | Started(dim, t) && InTile(t, i, j)
        ensures i < dim && j < dim && j + dim * i < dim * dim
      {
        CellInside(dim, i, j);
      }
    } else {
      var k := dim / BATCH;
      assert Started(dim, Tile(k, k)) && InTile(Tile(k, k), BATCH * k + 63, BATCH * k);
    }
  }
}
