/** The loops of multiplyMatrices over the array itself: one thread's body, and one thread after another. */
module CpuLoops {
  import opened Bytes
  import opened Matrix
  import opened TiledCpu

  /** The cell (i, j) of the result is its row times its column. */
  ghost predicate CellDone(job: Job, res: array<u32>, i: nat, j: nat)
    requires job.Valid() && Square(res[..], job.dim) && i < job.dim && j < job.dim
    reads res
  {
    Entry(job.a, job.b, res[..], job.dim, i, j)
  }

  /** One cell: cleared, then accumulated in place. */
  method ComputeCell(job: Job, res: array<u32>, i: nat, j: nat)
    requires job.Valid() && Square(res[..], job.dim) && i < job.dim && j < job.dim
    modifies res
    ensures res[..] == old(res[..])[Index(job.dim, i, j) := Partial(job.a, job.b, job.dim, i, j, job.dim)]
  {
    hide At, Partial, Times, Plus;
    var p := Index(job.dim, i, j);
    res[p] := 0;
    PartialNone(job, i, j);
    var k := 0;
    while k < job.dim
      invariant 0 <= k <= job.dim
      invariant res[..] == old(res[..])[p := Partial(job.a, job.b, job.dim, i, j, k)]
    {
      Accumulate(job.a, job.b, job.dim, i, j, k);
      res[p] := Plus(res[p], Times(At(job.a, job.dim, i, k), At(job.b, job.dim, k, j)));
      k := k + 1;
    }
  }

  /** The lambda a thread runs: exactly its tile becomes the product. */
  method ThreadBody(job: Job, res: array<u32>, t: Tile)
    requires job.Valid() && Square(res[..], job.dim) && InGrid(job.tiles, t)
    modifies res
    ensures forall i, j :: 0 <= i < job.dim && 0 <= j < job.dim ==>
              if InTile(t, i, j) then CellDone(job, res, i, j)
              else At(res[..], job.dim, i, j) == old(At(res[..], job.dim, i, j))
  {
    hide At, Partial, Index, Entry;
    var top, left := BATCH * t.y, BATCH * t.x;
    var i := top;
    while i < top + BATCH
      invariant top <= i <= top + BATCH
      invariant TileUpTo(job, t, old(res[..]), res[..], i, left)
    {
      var j := left;
      while j < left + BATCH
        invariant left <= j <= left + BATCH
        invariant TileUpTo(job, t, old(res[..]), res[..], i, j)
      {
        ghost var before := res[..];
        ComputeCell(job, res, i, j);
        CellUpdates(job, t, old(res[..]), before, res[..], i, j);
        j := j + 1;
      }
      i := i + 1;
    }
    EntriesMean(job, res[..]);
  }

  lemma EntriesMean(job: Job, res: Words)
    requires job.Valid() && Square(res, job.dim)
    ensures forall i, j :: 0 <= i < job.dim && 0 <= j < job.dim && EntryDone(job.a, job.b, res, job.dim, i, j) ==>
              Entry(job.a, job.b, res, job.dim, i, j)
  {
    hide Entry, EntryDone;
    forall i, j | 0 <= i < job.dim && 0 <= j < job.dim && EntryDone(job.a, job.b, res, job.dim, i, j)
      ensures Entry(job.a, job.b, res, job.dim, i, j)
    {
      EntryMeans(job.a, job.b, res, job.dim, i, j);
    }
  }

  /** The tile's cells before (i, j) in loop order are done; all other cells are as they were. */
  ghost predicate TileUpTo(job: Job, t: Tile, start: Words, res: Words, i: nat, j: nat)
    requires job.Valid() && Square(start, job.dim)
  {
    && Square(res, job.dim)
    && forall i', j' :: 0 <= i' < job.dim && 0 <= j' < job.dim ==>
         if InTile(t, i', j') && (i' < i || (i' == i && j' < j)) then EntryDone(job.a, job.b, res, job.dim, i', j')
         else At(res, job.dim, i', j') == At(start, job.dim, i', j')
  }

  lemma CellUpdates(job: Job, t: Tile, start: Words, before: Words, res: Words, i: nat, j: nat)
    requires job.Valid() && Square(start, job.dim) && InGrid(job.tiles, t) && InTile(t, i, j)
    requires TileUpTo(job, t, start, before, i, j)
    requires res == before[Index(job.dim, i, j) := Partial(job.a, job.b, job.dim, i, j, job.dim)]
    ensures TileUpTo(job, t, start, res, i, j + 1)
  {
    hide At, Partial, Index;
    forall i', j' | 0 <= i' < job.dim && 0 <= j' < job.dim
      ensures At(res, job.dim, i', j') ==
              if i' == i && j' == j then Partial(job.a, job.b, job.dim, i, j, job.dim) else At(before, job.dim, i', j')
    {
      AtUpdated(before, job.dim, i, j, Partial(job.a, job.b, job.dim, i, j, job.dim), i', j');
    }
  }

  /** The tiles before `t` in loop order are done. */
  ghost predicate TilesDone(job: Job, res: Words, t: Tile)
    requires job.Valid()
  {
    && Square(res, job.dim)
    && forall i, j, u :: 0 <= i < job.dim && 0 <= j < job.dim && InTile(u, i, j) && Before(u, t) ==>
         EntryDone(job.a, job.b, res, job.dim, i, j)
  }

  /** The schedule in which each thread has finished when the next one starts. */
  method MultiplyMatrices(job: Job, res: array<u32>)
    requires job.Valid() && Square(res[..], job.dim)
    modifies res
    ensures IsProduct(job.a, job.b, res[..], job.dim)
  {
    hide At, Partial, Index, Entry, EntryDone, InTile, TilesDone, IsProduct;
    NoTileDone(job, res[..]);
    var top := 0;
    while top < job.dim
      invariant top % BATCH == 0 && top <= job.dim && Square(res[..], job.dim)
      invariant TilesDone(job, res[..], Tile(top / BATCH, 0))
    {
      var left := 0;
      while left < job.dim
        invariant left % BATCH == 0 && left <= job.dim && Square(res[..], job.dim)
        invariant TilesDone(job, res[..], Tile(top / BATCH, left / BATCH))
      {
        ghost var before := res[..];
        var t := Tile(top / BATCH, left / BATCH);
        ThreadBody(job, res, t);
        TileFinished(job, before, res[..], t);
        assert Tile(t.y, t.x + 1) == Tile(top / BATCH, (left + BATCH) / BATCH);
        left := left + BATCH;
      }
      RowFinished(job, res[..], top / BATCH);
      top := top + BATCH;
    }
    AllTilesDone(job, res[..]);
  }

  lemma AllTilesDone(job: Job, res: Words)
    requires job.Valid() && TilesDone(job, res, Tile(job.tiles, 0))
    ensures IsProduct(job.a, job.b, res, job.dim)
  {
    hide At, Partial, Index, Entry;
    ProductMeans(job.a, job.b, res, job.dim);
    forall i, j | 0 <= i < job.dim && 0 <= j < job.dim ensures EntryDone(job.a, job.b, res, job.dim, i, j) {
      TilesPartition(job.tiles, i, j);
      assert Before(Tile(i / BATCH, j / BATCH), Tile(job.tiles, 0));
    }
  }

  lemma NoTileDone(job: Job, res: Words)
    requires job.Valid() && Square(res, job.dim)
    ensures TilesDone(job, res, Tile(0, 0))
  {}

  lemma TileFinished(job: Job, before: Words, res: Words, t: Tile)
    requires job.Valid() && InGrid(job.tiles, t) && TilesDone(job, before, t) && Square(res, job.dim)
    requires forall i, j :: 0 <= i < job.dim && 0 <= j < job.dim ==>
               if InTile(t, i, j) then Entry(job.a, job.b, res, job.dim, i, j)
               else At(res, job.dim, i, j) == At(before, job.dim, i, j)
    ensures TilesDone(job, res, Tile(t.y, t.x + 1))
  {
    hide At, Partial, Entry;
    forall i, j, u | 0 <= i < job.dim && 0 <= j < job.dim && InTile(u, i, j) && Before(u, Tile(t.y, t.x + 1))
      ensures EntryDone(job.a, job.b, res, job.dim, i, j)
    {
      EntryMeans(job.a, job.b, res, job.dim, i, j);
      if !InTile(t, i, j) {
        assert Before(u, t);
        assert EntryDone(job.a, job.b, before, job.dim, i, j);
      }
    }
  }

  lemma RowFinished(job: Job, res: Words, y: nat)
    requires job.Valid() && TilesDone(job, res, Tile(y, job.tiles))
    ensures TilesDone(job, res, Tile(y + 1, 0))
  {
    hide At, Partial;
    forall i, j, u | 0 <= i < job.dim && 0 <= j < job.dim && InTile(u, i, j) && Before(u, Tile(y + 1, 0))
      ensures EntryDone(job.a, job.b, res, job.dim, i, j)
    {
      assert Before(u, Tile(y, job.tiles));
    }
  }
}
