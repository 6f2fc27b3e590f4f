/**
 * The 6x6 Tango board. A board is the sequence of the 36 cell symbols in
 * row-major order; the per-cell interface flags (initial, error,
 * highlighted) are never read by the validator or the generator.
 */
module TangoTypes {
  import opened Common

  const Size: int := 6
  const Cells: int := 36

  datatype Sym = Empty | Moon | Sun

  datatype Relation = Equals | NotEquals

  /** Horizontal constraints point to the right-hand cell, vertical ones downwards. */
  datatype Direction = Horizontal | Vertical

  datatype Constraint = Constraint(row: int, col: int, kind: Relation, dir: Direction)

  datatype Pos = Pos(row: int, col: int)

  datatype Difficulty = Easy | Medium | Hard

  predicate IsBoard(g: seq<Sym>)
  {
    |g| == Cells
  }

  predicate InGrid(r: int, c: int)
  {
    0 <= r < Size && 0 <= c < Size
  }

  function Idx(r: int, c: int): int
  {
    r * Size + c
  }

  function At(g: seq<Sym>, r: int, c: int): Sym
    requires IsBoard(g) && InGrid(r, c)
  {
    g[Idx(r, c)]
  }

  /** A neighbour lookup that yields nothing past the edge of the board. */
  function CellAt(g: seq<Sym>, r: int, c: int): Option<Sym>
    requires IsBoard(g)
  {
    if InGrid(r, c) then Some(At(g, r, c)) else None
  }

  function RowOf(k: int): int
  {
    k / Size
  }

  function ColOf(k: int): int
  {
    k % Size
  }

  lemma IdxInverse(k: int)
    requires 0 <= k < Cells
    ensures InGrid(RowOf(k), ColOf(k)) && Idx(RowOf(k), ColOf(k)) == k
  {
  }

  lemma IdxInjective(r1: int, c1: int, r2: int, c2: int)
    requires InGrid(r1, c1) && InGrid(r2, c2) && Idx(r1, c1) == Idx(r2, c2)
    ensures r1 == r2 && c1 == c2
  {
  }

  lemma IdxInRange(r: int, c: int)
    requires InGrid(r, c)
    ensures 0 <= Idx(r, c) < Cells
  {
  }

  /** How many of the first n cells of row r, other than column `skip`, hold s. */
  function RowCount(g: seq<Sym>, r: int, s: Sym, skip: int, n: int): (k: nat)
    requires IsBoard(g) && 0 <= r < Size && 0 <= n <= Size
    ensures k <= n
  {
    if n == 0 then 0
    else RowCount(g, r, s, skip, n - 1) + (if n - 1 != skip && At(g, r, n - 1) == s then 1 else 0)
  }

  /** How many of the first n cells of column c, other than row `skip`, hold s. */
  function ColCount(g: seq<Sym>, c: int, s: Sym, skip: int, n: int): (k: nat)
    requires IsBoard(g) && 0 <= c < Size && 0 <= n <= Size
    ensures k <= n
  {
    if n == 0 then 0
    else ColCount(g, c, s, skip, n - 1) + (if n - 1 != skip && At(g, n - 1, c) == s then 1 else 0)
  }

  /** Leaving one cell out of a count removes exactly that cell's contribution. */
  lemma {:induction false} RowCountSkip(g: seq<Sym>, r: int, s: Sym, skip: int, n: int)
    requires IsBoard(g) && 0 <= r < Size && 0 <= n <= Size && 0 <= skip < Size
    ensures RowCount(g, r, s, -1, n) == RowCount(g, r, s, skip, n) + (if skip < n && At(g, r, skip) == s then 1 else 0)
  {
    if n > 0 {
      RowCountSkip(g, r, s, skip, n - 1);
    }
  }

  lemma {:induction false} ColCountSkip(g: seq<Sym>, c: int, s: Sym, skip: int, n: int)
    requires IsBoard(g) && 0 <= c < Size && 0 <= n <= Size && 0 <= skip < Size
    ensures ColCount(g, c, s, -1, n) == ColCount(g, c, s, skip, n) + (if skip < n && At(g, skip, c) == s then 1 else 0)
  {
    if n > 0 {
      ColCountSkip(g, c, s, skip, n - 1);
    }
  }

  /** Counts only look at their own row: two boards that agree on it count alike. */
  lemma {:induction false} RowCountAgree(g: seq<Sym>, h: seq<Sym>, r: int, s: Sym, skip: int, n: int)
    requires IsBoard(g) && IsBoard(h) && 0 <= r < Size && 0 <= n <= Size
    requires forall c :: 0 <= c < n && c != skip ==> At(g, r, c) == At(h, r, c)
    ensures RowCount(g, r, s, skip, n) == RowCount(h, r, s, skip, n)
  {
    if n > 0 {
      RowCountAgree(g, h, r, s, skip, n - 1);
    }
  }

  lemma {:induction false} ColCountAgree(g: seq<Sym>, h: seq<Sym>, c: int, s: Sym, skip: int, n: int)
    requires IsBoard(g) && IsBoard(h) && 0 <= c < Size && 0 <= n <= Size
    requires forall r :: 0 <= r < n && r != skip ==> At(g, r, c) == At(h, r, c)
    ensures ColCount(g, c, s, skip, n) == ColCount(h, c, s, skip, n)
  {
    if n > 0 {
      ColCountAgree(g, h, c, s, skip, n - 1);
    }
  }

  /** Every cell holds a symbol. */
  predicate Filled(g: seq<Sym>)
  {
    forall i :: 0 <= i < |g| ==> g[i] != Empty
  }

  /** `h` is `g` with some cells emptied: every symbol of `h` is the symbol of `g` there. */
  predicate SubGrid(h: seq<Sym>, g: seq<Sym>)
  {
    |h| == |g| && forall i :: 0 <= i < |h| ==> h[i] == Empty || h[i] == g[i]
  }

  /** Counting a symbol over a board with fewer symbols never finds more. */
  lemma {:induction false} RowCountSubGrid(h: seq<Sym>, g: seq<Sym>, r: int, s: Sym, skip: int, n: int)
    requires IsBoard(g) && SubGrid(h, g) && 0 <= r < Size && 0 <= n <= Size && s != Empty
    ensures RowCount(h, r, s, skip, n) <= RowCount(g, r, s, skip, n)
  {
    if n > 0 {
      RowCountSubGrid(h, g, r, s, skip, n - 1);
      IdxInRange(r, n - 1);
    }
  }

  lemma {:induction false} ColCountSubGrid(h: seq<Sym>, g: seq<Sym>, c: int, s: Sym, skip: int, n: int)
    requires IsBoard(g) && SubGrid(h, g) && 0 <= c < Size && 0 <= n <= Size && s != Empty
    ensures ColCount(h, c, s, skip, n) <= ColCount(g, c, s, skip, n)
  {
    if n > 0 {
      ColCountSubGrid(h, g, c, s, skip, n - 1);
      IdxInRange(n - 1, c);
    }
  }

  /**
   * A solved board: every cell filled, three of each symbol in every row and
   * column, and no three equal symbols in a row or column.
   */
  predicate IsSolvedGrid(g: seq<Sym>)
  {
    && IsBoard(g)
    && Filled(g)
    && (forall r :: 0 <= r < Size ==> RowCount(g, r, Sun, -1, Size) == 3 && RowCount(g, r, Moon, -1, Size) == 3)
    && (forall c :: 0 <= c < Size ==> ColCount(g, c, Sun, -1, Size) == 3 && ColCount(g, c, Moon, -1, Size) == 3)
    && (forall r, c :: 0 <= r < Size && 0 <= c < Size - 2 ==>
          !(At(g, r, c) == At(g, r, c + 1) && At(g, r, c + 1) == At(g, r, c + 2)))
    && (forall r, c :: 0 <= r < Size - 2 && 0 <= c < Size ==>
          !(At(g, r, c) == At(g, r + 1, c) && At(g, r + 1, c) == At(g, r + 2, c)))
  }
}
