/** The WGSL kernel of multiplyMatricesGPU, its dispatch, and how its result compares with the CPU's. */
module Gpu {
  import opened Bytes
  import opened Matrix
  import TiledCpu

  /** An invocation's row or column, in workgroups of 16. */
  function GlobalId(workgroup: nat, local: nat): nat {
    16 * workgroup + local
  }

  /** A row or column of the dispatch of dim/16 by dim/16 workgroups. */
  ghost predicate Launched(dim: nat, x: nat)
    ensures Launched(dim, x) ==> x < dim
  {
    exists w: nat, l: nat :: w < dim / 16 && l < 16 && x == GlobalId(w, l)
  }

  /** The launched rows are those below the last multiple of 16, each once. */
  lemma GlobalIds(dim: nat, x: nat)
    ensures Launched(dim, x) <==> x < dim - dim % 16
    ensures forall w: nat, l: nat :: l < 16 && x == GlobalId(w, l) ==> w == x / 16 && l == x % 16
  {
    assert x == GlobalId(x / 16, x % 16);
  }

  /** One invocation; `gz` is its z index, 0 under the dispatch. */
  method KernelMain(results: array<u32>, inputA: Words, inputB: Words, dimension: nat, gx: nat, gy: nat, gz: nat)
    requires Square(inputA, dimension) && Square(inputB, dimension) && Square(results[..], dimension)
    requires gx + gz * 16 < dimension && gy + gz * 16 < dimension
    modifies results
    ensures var row, col := gx + gz * 16, gy + gz * 16;
            results[..] == old(results[..])[Index(dimension, row, col) :=
                                            Partial(inputA, inputB, dimension, row, col, dimension)]
  {
    hide At, Partial, Times, Plus, Index;
    var batch := gz;
    var row := gx + batch * 16;
    var col := gy + batch * 16;
    var sum: u32 := 0;
    PartialStart(inputA, inputB, dimension, row, col);
    var i := 0;
    while i < dimension
      invariant 0 <= i <= dimension && results[..] == old(results[..])
      invariant sum == Partial(inputA, inputB, dimension, row, col, i)
    {
      Accumulate(inputA, inputB, dimension, row, col, i);
      sum := Plus(sum, Times(At(inputA, dimension, row, i), At(inputB, dimension, i, col)));
      i := i + 1;
    }
    assert i == dimension;
    var p := Index(dimension, row, col);
    results[p] := sum;
    assert results[..] == old(results[..])[p := sum];
  }

  lemma PartialStart(a: Words, b: Words, dim: nat, i: nat, j: nat)
    requires Square(a, dim) && Square(b, dim) && i < dim && j < dim
    ensures Partial(a, b, dim, i, j, 0) == 0
  {}

  /** The leading square is the product; every other cell keeps its uploaded value. */
  ghost predicate Dispatched(a: Words, b: Words, uploaded: Words, results: Words, dim: nat)
    requires Square(a, dim) && Square(b, dim) && Square(uploaded, dim)
  {
    && Square(results, dim)
    && forall i, j :: 0 <= i < dim && 0 <= j < dim ==>
         if i < dim - dim % 16 && j < dim - dim % 16 then Entry(a, b, results, dim, i, j)
         else At(results, dim, i, j) == At(uploaded, dim, i, j)
  }

  /** An order in which the dispatch may run its invocations. */
  ghost predicate Order(order: seq<(nat, nat)>, dim: nat) {
    && (forall m :: 0 <= m < |order| ==> Launched(dim, order[m].0) && Launched(dim, order[m].1))
    && (forall x: nat, y: nat :: Launched(dim, x) && Launched(dim, y) ==> (x, y) in order)
  }

  lemma OrderMeans(order: seq<(nat, nat)>, dim: nat)
    ensures Order(order, dim) <==>
            && (forall m :: 0 <= m < |order| ==> order[m].0 < dim - dim % 16 && order[m].1 < dim - dim % 16)
            && (forall x: nat, y: nat :: x < dim - dim % 16 && y < dim - dim % 16 ==> (x, y) in order)
  {
    hide Launched;
    forall x: nat ensures Launched(dim, x) <==> x < dim - dim % 16 { GlobalIds(dim, x); }
  }

  /** What is in the result buffer after the invocations of `order`, one after another. */
  function AfterInvocations(a: Words, b: Words, uploaded: Words, dim: nat, order: seq<(nat, nat)>): (results: Words)
    requires Square(a, dim) && Square(b, dim) && Square(uploaded, dim)
    requires forall m :: 0 <= m < |order| ==> order[m].0 < dim && order[m].1 < dim
    ensures Square(results, dim)
  {
    if order == [] then uploaded
    else
      var k := |order| - 1;
      var id := order[k];
      AfterInvocations(a, b, uploaded, dim, order[..k])
        [Index(dim, id.0, id.1) := Partial(a, b, dim, id.0, id.1, dim)]
  }

  method Dispatch(results: array<u32>, a: Words, b: Words, dim: nat, order: seq<(nat, nat)>)
    requires Square(a, dim) && Square(b, dim) && Square(results[..], dim)
    requires 4 * (dim * dim) < U32 && Order(order, dim)
    modifies results
    ensures results[..] == AfterInvocations(a, b, old(results[..]), dim, order)
    ensures Dispatched(a, b, old(results[..]), results[..], dim)
  {
    hide At, Partial, Index, Launched, Entry;
    OrderMeans(order, dim);
    ghost var uploaded := results[..];
    var m := 0;
    assert order[..0] == [];
    while m < |order|
      invariant 0 <= m <= |order|
      invariant results[..] == AfterInvocations(a, b, uploaded, dim, order[..m])
    {
      assert order[..m + 1][..m] == order[..m];
      KernelMain(results, a, b, dim, order[m].0, order[m].1, 0);
      m := m + 1;
    }
    assert order[..m] == order;
    EveryOrderDispatches(a, b, uploaded, dim, order);
  }

  /** In any order: the leading square is the product, the other cells are as uploaded. */
  lemma EveryOrderDispatches(a: Words, b: Words, uploaded: Words, dim: nat, order: seq<(nat, nat)>)
    requires Square(a, dim) && Square(b, dim) && Square(uploaded, dim) && Order(order, dim)
    ensures Dispatched(a, b, uploaded, AfterInvocations(a, b, uploaded, dim, order), dim)
  {
    hide At, Partial, Index, AfterInvocations, Entry, EntryDone, Launched;
    OrderMeans(order, dim);
    InvocationsWrite(a, b, uploaded, dim, order);
    forall i, j | 0 <= i < dim && 0 <= j < dim
      ensures var results := AfterInvocations(a, b, uploaded, dim, order);
              if i < dim - dim % 16 && j < dim - dim % 16 then Entry(a, b, results, dim, i, j)
              else At(results, dim, i, j) == At(uploaded, dim, i, j)
    {
      EntryMeans(a, b, AfterInvocations(a, b, uploaded, dim, order), dim, i, j);
    }
  }

  lemma {:induction false} InvocationsWrite(a: Words, b: Words, uploaded: Words, dim: nat, ran: seq<(nat, nat)>)
    requires Square(a, dim) && Square(b, dim) && Square(uploaded, dim)
    requires forall m :: 0 <= m < |ran| ==> ran[m].0 < dim && ran[m].1 < dim
    ensures Written(a, b, uploaded, AfterInvocations(a, b, uploaded, dim, ran), dim, ran)
    decreases |ran|
  {
    hide At, Partial, Index, Written;
    if ran == [] {
      NothingWritten(a, b, uploaded, dim);
    } else {
      var k := |ran| - 1;
      InvocationsWrite(a, b, uploaded, dim, ran[..k]);
      var before := AfterInvocations(a, b, uploaded, dim, ran[..k]);
      WriteOne(a, b, uploaded, before, AfterInvocations(a, b, uploaded, dim, ran), dim, ran[..k], ran[k]);
      assert ran == ran[..k] + [ran[k]];
    }
  }

  lemma NothingWritten(a: Words, b: Words, uploaded: Words, dim: nat)
    requires Square(a, dim) && Square(b, dim) && Square(uploaded, dim)
    ensures Written(a, b, uploaded, uploaded, dim, [])
  {}

  /** The cells of the invocations run so far are done, the others untouched. */
  ghost predicate Written(a: Words, b: Words, uploaded: Words, results: Words, dim: nat, ran: seq<(nat, nat)>)
    requires Square(a, dim) && Square(b, dim) && Square(uploaded, dim)
  {
    && Square(results, dim)
    && forall i, j :: 0 <= i < dim && 0 <= j < dim ==>
         if (i, j) in ran then EntryDone(a, b, results, dim, i, j)
         else At(results, dim, i, j) == At(uploaded, dim, i, j)
  }

  lemma WriteOne(a: Words, b: Words, uploaded: Words, before: Words, results: Words, dim: nat, ran: seq<(nat, nat)>, id: (nat, nat))
    requires Square(a, dim) && Square(b, dim) && Square(uploaded, dim) && id.0 < dim && id.1 < dim
    requires Written(a, b, uploaded, before, dim, ran)
    requires results == before[Index(dim, id.0, id.1) := Partial(a, b, dim, id.0, id.1, dim)]
    ensures Written(a, b, uploaded, results, dim, ran + [id])
  {
    hide At, Partial, Index;
    forall i, j | 0 <= i < dim && 0 <= j < dim
      ensures At(results, dim, i, j) == if (i, j) == id then Partial(a, b, dim, i, j, dim) else At(before, dim, i, j)
    {
      AtUpdated(before, dim, id.0, id.1, Partial(a, b, dim, id.0, id.1, dim), i, j);
    }
  }

  /** The download is the product exactly when the cells the dispatch misses already held it. */
  lemma WholeProductExactly(a: Words, b: Words, uploaded: Words, results: Words, dim: nat)
    requires Square(a, dim) && Square(b, dim) && Square(uploaded, dim)
    requires Dispatched(a, b, uploaded, results, dim)
    ensures IsProduct(a, b, results, dim) <==>
            forall i, j :: 0 <= i < dim && 0 <= j < dim && (i >= dim - dim % 16 || j >= dim - dim % 16) ==>
              Entry(a, b, uploaded, dim, i, j)
    ensures dim % 16 == 0 ==> IsProduct(a, b, results, dim)
  {
    hide Entry, At;
    forall i, j | 0 <= i < dim && 0 <= j < dim && (i >= dim - dim % 16 || j >= dim - dim % 16)
      ensures Entry(a, b, uploaded, dim, i, j) <==> Entry(a, b, results, dim, i, j)
    {
      SameWordSameEntry(a, b, uploaded, results, dim, i, j);
    }
  }

  lemma SameWordSameEntry(a: Words, b: Words, r: Words, s: Words, dim: nat, i: nat, j: nat)
    requires Square(a, dim) && Square(b, dim) && Square(r, dim) && Square(s, dim) && i < dim && j < dim
    requires At(r, dim, i, j) == At(s, dim, i, j)
    ensures Entry(a, b, r, dim, i, j) <==> Entry(a, b, s, dim, i, j)
  {
    hide Sum, Dot;
  }

  /** Row by row, the invocations of a square. */
  function RowMajor(side: nat, rows: nat): seq<(nat, nat)> {
    if rows == 0 then [] else RowMajor(side, rows - 1) + seq(side, y requires 0 <= y => (rows - 1, y))
  }

  lemma {:induction false} RowMajorCovers(side: nat, rows: nat)
    ensures forall p :: p in RowMajor(side, rows) <==> p.0 < rows && p.1 < side
    decreases rows
  {
    if rows > 0 {
      RowMajorCovers(side, rows - 1);
      var row := seq(side, y requires 0 <= y => (rows - 1, y));
      forall p: (nat, nat) ensures p in row <==> p.0 == rows - 1 && p.1 < side {
        if p.0 == rows - 1 && p.1 < side {
          assert row[p.1] == p;
        }
      }
    }
  }

  lemma AnOrder(dim: nat)
    ensures Order(RowMajor(dim - dim % 16, dim - dim % 16), dim)
  {
    hide Order;
    var order := RowMajor(dim - dim % 16, dim - dim % 16);
    RowMajorCovers(dim - dim % 16, dim - dim % 16);
    OrderMeans(order, dim);
    forall m | 0 <= m < |order| ensures order[m].0 < dim - dim % 16 && order[m].1 < dim - dim % 16 {
      assert order[m] in order;
    }
  }

  /** An order of the launched invocations and what it leaves of an upload. */
  ghost predicate Downloads(a: Words, b: Words, uploaded: Words, dim: nat, order: seq<(nat, nat)>, results: Words)
    requires Square(a, dim) && Square(b, dim) && Square(uploaded, dim)
  {
    && Order(order, dim)
    && results == AfterInvocations(a, b, uploaded, dim, order)
  }

  /** Every upload and every order give the product if and only if 16 divides the dimension. */
  lemma ProductForEveryUpload(a: Words, b: Words, dim: nat)
    requires Square(a, dim) && Square(b, dim)
    ensures dim % 16 == 0 <==>
            forall uploaded: Words, order, results :: Square(uploaded, dim) && Downloads(a, b, uploaded, dim, order, results) ==>
              IsProduct(a, b, results, dim)
  {
    hide At, Partial, Index, AfterInvocations, IsProduct, Dispatched, Launched;
    if dim % 16 == 0 {
      forall uploaded: Words, order, results | Square(uploaded, dim) && Downloads(a, b, uploaded, dim, order, results)
        ensures IsProduct(a, b, results, dim)
      {
        EveryOrderDispatches(a, b, uploaded, dim, order);
        WholeProductExactly(a, b, uploaded, results, dim);
      }
    } else {
      var uploaded, order, results := FailingUpload(a, b, dim);
      assert Square(uploaded, dim) && Downloads(a, b, uploaded, dim, order, results);
    }
  }

  /** When 16 does not divide the dimension: words that the dispatch leaves and that are no product. */
  lemma FailingUpload(a: Words, b: Words, dim: nat) returns (uploaded: Words, order: seq<(nat, nat)>, results: Words)
    requires Square(a, dim) && Square(b, dim) && dim % 16 != 0
    ensures Square(uploaded, dim) && Downloads(a, b, uploaded, dim, order, results)
    ensures !IsProduct(a, b, results, dim)
  {
    hide AfterInvocations, RowMajor, Launched, Partial, Entry;
    var last := dim - 1;
    var wrong: u32 := if Partial(a, b, dim, last, last, dim) == 0 then 1 else 0;
    uploaded := seq(dim * dim, _ => wrong);
    order := RowMajor(dim - dim % 16, dim - dim % 16);
    AnOrder(dim);
    results := AfterInvocations(a, b, uploaded, dim, order);
    EveryOrderDispatches(a, b, uploaded, dim, order);
    WholeProductExactly(a, b, uploaded, results, dim);
    EntryMeans(a, b, uploaded, dim, last, last);
    assert last >= dim - dim % 16 && !Entry(a, b, uploaded, dim, last, last);
  }

  lemma TilesAreWorkgroups(job: TiledCpu.Job)
    requires job.Valid()
    ensures job.dim % 16 == 0
  {
    assert job.dim == 16 * (4 * job.tiles);
  }

  /** For dimensions the CPU version is made for, both give the same words on every schedule and order. */
  lemma CpuAndGpuAgree(job: TiledCpu.Job, res: Words, schedule: seq<TiledCpu.Action>, uploaded: Words, order: seq<(nat, nat)>,
                       results: Words)
    requires job.Valid() && Square(res, job.dim) && Square(uploaded, job.dim)
    requires TiledCpu.AllJoined(job, TiledCpu.Execute(job, res, schedule))
    requires Downloads(job.a, job.b, uploaded, job.dim, order, results)
    ensures results == TiledCpu.Execute(job, res, schedule).res
  {
    hide At, Partial, TiledCpu.Execute, Dispatched, IsProduct, AfterInvocations, Launched;
    TilesAreWorkgroups(job);
    EveryOrderDispatches(job.a, job.b, uploaded, job.dim, order);
    WholeProductExactly(job.a, job.b, uploaded, results, job.dim);
    TiledCpu.EveryScheduleMultiplies(job, res, schedule);
    ProductUnique(job.a, job.b, results, TiledCpu.Execute(job, res, schedule).res, job.dim);
  }
}
