/** Square matrices of 32-bit words in row order, and their product modulo 2^32. */
module Matrix {
  import opened Bytes

  type Words = seq<u32>

  function Cell(dim: nat, i: nat, j: nat): nat {
    j + dim * i
  }

  lemma MulMono(d: nat, a: nat, b: nat)
    ensures a <= b ==> d * a <= d * b
  {}

  /** Rows do not overlap. */
  lemma RowsApart(dim: nat, i: nat, i': nat)
    ensures i < i' ==> dim * i + dim <= dim * i'
  {
    MulMono(dim, i + 1, i');
    assert dim * (i + 1) == dim * i + dim;
  }

  lemma CellInside(dim: nat, i: nat, j: nat)
    requires i < dim && j < dim
    ensures Cell(dim, i, j) < dim * dim
  {
    RowsApart(dim, i, dim);
  }

  lemma CellInjective(dim: nat, i: nat, j: nat, i': nat, j': nat)
    requires j < dim && j' < dim && Cell(dim, i, j) == Cell(dim, i', j')
    ensures i == i' && j == j'
  {
    RowsApart(dim, i, i');
    RowsApart(dim, i', i);
  }

  /** Every index below the end of the rows is a cell. */
  lemma {:induction false} CellOnto(dim: nat, rows: nat, p: nat) returns (i: nat, j: nat)
    requires p < dim * rows
    ensures i < rows && j < dim && Cell(dim, i, j) == p
    decreases rows
  {
    if rows == 0 {
      assert false;
    } else if p < dim * (rows - 1) {
      i, j := CellOnto(dim, rows - 1, p);
    } else {
      i, j := rows - 1, p - dim * (rows - 1);
      assert dim * (i + 1) == dim * i + dim;
    }
  }

  /** An index as the program computes it in 32 bits: never wrapped, up to dimension 65536. */
  function Index(dim: nat, i: nat, j: nat): (p: u32)
    requires i < dim <= 65536 && j < dim
    ensures p == Cell(dim, i, j) == j + dim * i < dim * dim
  {
    IndexFits(dim, i, j);
    (j + dim * i % U32) % U32
  }

  lemma IndexFits(dim: nat, i: nat, j: nat)
    requires i < dim <= 65536 && j < dim
    ensures 0 <= dim * i && dim * i + j < dim * dim <= U32
  {
    CellInside(dim, i, j);
    MulMono(dim, dim, 65536);
    assert dim * 65536 <= 65536 * 65536 == U32;
  }

  /** `dim` is at most 65536 and `m` has a word for every cell. */
  predicate Square(m: Words, dim: nat) {
    dim <= 65536 && |m| == dim * dim
  }

  function At(m: Words, dim: nat, i: nat, j: nat): u32
    requires Square(m, dim) && i < dim && j < dim
  {
    m[Index(dim, i, j)]
  }

  lemma WordsMultiply(x: u32, y: u32)
    ensures x * y >= 0
  {}

  /** The integer sum of the first `k` products of row `i` and column `j`. */
  function SumTo(a: Words, b: Words, dim: nat, i: nat, j: nat, k: nat): nat
    requires Square(a, dim) && Square(b, dim) && i < dim && j < dim && k <= dim
  {
    if k == 0 then 0
    else
      var x, y := At(a, dim, i, k - 1), At(b, dim, k - 1, j);
      WordsMultiply(x, y);
      SumTo(a, b, dim, i, j, k - 1) + x * y
  }

  function Partial(a: Words, b: Words, dim: nat, i: nat, j: nat, k: nat): u32
    requires Square(a, dim) && Square(b, dim) && i < dim && j < dim && k <= dim
  {
    SumTo(a, b, dim, i, j, k) % U32
  }

  function Times(x: u32, y: u32): u32 {
    x * y % U32
  }

  function Plus(x: u32, y: u32): u32 {
    (x + y) % U32
  }

  lemma ModPlus(s: nat, p: nat)
    ensures (s % U32 + p % U32) % U32 == (s + p) % U32
  {
  }

  /** Accumulating in 32 bits is the integer sum modulo 2^32. */
  lemma Accumulate(a: Words, b: Words, dim: nat, i: nat, j: nat, k: nat)
    requires Square(a, dim) && Square(b, dim) && i < dim && j < dim && k < dim
    ensures Plus(Partial(a, b, dim, i, j, k), Times(At(a, dim, i, k), At(b, dim, k, j)))
            == Partial(a, b, dim, i, j, k + 1)
  {
    hide At;
    var x: nat, y: nat := At(a, dim, i, k), At(b, dim, k, j);
    WordsMultiply(x, y);
    ModPlus(SumTo(a, b, dim, i, j, k), x * y);
  }

  predicate EntryDone(a: Words, b: Words, res: Words, dim: nat, i: nat, j: nat)
    requires Square(a, dim) && Square(b, dim) && Square(res, dim) && i < dim && j < dim
  {
    At(res, dim, i, j) == Partial(a, b, dim, i, j, dim)
  }

  // ---- what a product is, on the words ----

  function Sum(n: nat, f: nat -> int): int {
    if n == 0 then 0 else Sum(n - 1, f) + f(n - 1)
  }

  /** The products of row `i` of `a` and column `j` of `b`. */
  function Dot(a: Words, b: Words, dim: nat, i: nat, j: nat): nat -> int
    requires Square(a, dim) && Square(b, dim) && i < dim && j < dim
  {
    (k: nat) =>
      if k < dim then
        IndexFits(dim, i, k); IndexFits(dim, k, j);
        (a[k + dim * i] as int) * (b[j + dim * k] as int)
      else 0
  }

  predicate Entry(a: Words, b: Words, res: Words, dim: nat, i: nat, j: nat)
    requires Square(a, dim) && Square(b, dim) && Square(res, dim) && i < dim && j < dim
  {
    IndexFits(dim, i, j);
    res[j + dim * i] == Sum(dim, Dot(a, b, dim, i, j)) % 0x1_0000_0000
  }

  /** Every word of `res` is its row times its column, modulo 2^32. */
  ghost predicate IsProduct(a: Words, b: Words, res: Words, dim: nat)
    requires Square(a, dim) && Square(b, dim)
  {
    Square(res, dim) && forall i, j :: 0 <= i < dim && 0 <= j < dim ==> Entry(a, b, res, dim, i, j)
  }

  lemma DotIs(a: Words, b: Words, dim: nat, i: nat, j: nat, k: nat)
    requires Square(a, dim) && Square(b, dim) && i < dim && j < dim && k < dim
    ensures Dot(a, b, dim, i, j)(k) == (At(a, dim, i, k) as int) * (At(b, dim, k, j) as int)
  {
  }

  lemma {:induction false} SumIs(a: Words, b: Words, dim: nat, i: nat, j: nat, k: nat)
    requires Square(a, dim) && Square(b, dim) && i < dim && j < dim && k <= dim
    ensures Sum(k, Dot(a, b, dim, i, j)) == SumTo(a, b, dim, i, j, k)
    decreases k
  {
    hide Dot, At;
    if k > 0 {
      DotIs(a, b, dim, i, j, k - 1);
      SumIs(a, b, dim, i, j, k - 1);
    }
  }

  /** What the loops leave in a cell is the sum of the products of its row and column. */
  lemma EntryMeans(a: Words, b: Words, res: Words, dim: nat, i: nat, j: nat)
    requires Square(a, dim) && Square(b, dim) && Square(res, dim) && i < dim && j < dim
    ensures EntryDone(a, b, res, dim, i, j) <==> Entry(a, b, res, dim, i, j)
  {
    hide Sum, SumTo, Dot;
    SumIs(a, b, dim, i, j, dim);
  }

  lemma ProductMeans(a: Words, b: Words, res: Words, dim: nat)
    requires Square(a, dim) && Square(b, dim) && Square(res, dim)
    ensures IsProduct(a, b, res, dim) <==>
            forall i, j :: 0 <= i < dim && 0 <= j < dim ==> EntryDone(a, b, res, dim, i, j)
  {
    hide Entry, EntryDone;
    forall i, j | 0 <= i < dim && 0 <= j < dim
      ensures EntryDone(a, b, res, dim, i, j) <==> Entry(a, b, res, dim, i, j)
    {
      EntryMeans(a, b, res, dim, i, j);
    }
  }

  /** A product is determined word by word: the cells leave no gap. */
  lemma ProductUnique(a: Words, b: Words, r: Words, s: Words, dim: nat)
    requires Square(a, dim) && Square(b, dim)
    requires IsProduct(a, b, r, dim) && IsProduct(a, b, s, dim)
    ensures r == s
  {
    hide Partial, Cell, Entry;
    ProductMeans(a, b, r, dim);
    ProductMeans(a, b, s, dim);
    forall p | 0 <= p < |r| ensures r[p] == s[p] {
      var i, j := CellOnto(dim, dim, p);
      assert EntryDone(a, b, r, dim, i, j) && EntryDone(a, b, s, dim, i, j);
    }
  }

  lemma AtUpdated(m: Words, dim: nat, i: nat, j: nat, v: u32, i': nat, j': nat)
    requires Square(m, dim) && i < dim && j < dim && i' < dim && j' < dim
    ensures At(m[Index(dim, i, j) := v], dim, i', j') == if i == i' && j == j' then v else At(m, dim, i', j')
  {
    if Index(dim, i, j) == Index(dim, i', j') {
      CellInjective(dim, i, j, i', j');
    }
  }
}
