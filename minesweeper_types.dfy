/**
 * Minesweeper cells, configurations and grids. A grid is a sequence of rows,
 * each a sequence of cells; the per-cell highlight flag is presentation only
 * and is not part of the model.
 */
module MinesweeperTypes {

  datatype CellState = Hidden | Revealed | Flagged

  datatype Cell = Cell(isMine: bool, state: CellState, adjacentMines: int)

  datatype Difficulty = Beginner | Intermediate | Expert

  datatype Config = Config(rows: nat, cols: nat, mines: nat)

  datatype GameStatus = Playing | Won | Lost

  datatype Pos = Pos(row: int, col: int)

  predicate Shaped(g: seq<seq<Cell>>, rows: int, cols: int)
  {
    |g| == rows && forall r :: 0 <= r < |g| ==> |g[r]| == cols
  }

  predicate InBounds(rows: int, cols: int, r: int, c: int)
  {
    0 <= r < rows && 0 <= c < cols
  }

  /** (nr, nc) is one of the eight cells around (r, c). */
  predicate Adjacent(r: int, c: int, nr: int, nc: int)
  {
    -1 <= nr - r <= 1 && -1 <= nc - c <= 1 && (nr != r || nc != c)
  }

  /** The grid with the cell at (r, c) replaced. */
  function Update(g: seq<seq<Cell>>, r: int, c: int, x: Cell): (h: seq<seq<Cell>>)
    requires 0 <= r < |g| && 0 <= c < |g[r]|
    ensures |h| == |g| && forall i :: 0 <= i < |g| ==> |h[i]| == |g[i]|
    ensures forall i, j :: 0 <= i < |g| && 0 <= j < |g[i]| ==> h[i][j] == if i == r && j == c then x else g[i][j]
  {
    g[r := g[r][c := x]]
  }

  predicate IsMine(x: Cell)
  {
    x.isMine
  }

  predicate IsHidden(x: Cell)
  {
    x.state == Hidden
  }

  predicate IsRevealed(x: Cell)
  {
    x.state == Revealed
  }

  predicate IsFlagged(x: Cell)
  {
    x.state == Flagged
  }

  /** How many cells of a row satisfy f. */
  function RowCount(row: seq<Cell>, f: Cell -> bool): (n: nat)
    ensures n <= |row|
  {
    if row == [] then 0 else RowCount(row[..|row| - 1], f) + (if f(row[|row| - 1]) then 1 else 0)
  }

  /** How many cells of a grid satisfy f. */
  function GridCount(g: seq<seq<Cell>>, f: Cell -> bool): nat
  {
    if g == [] then 0 else GridCount(g[..|g| - 1], f) + RowCount(g[|g| - 1], f)
  }

  lemma {:induction false} RowCountUpdate(row: seq<Cell>, c: int, x: Cell, f: Cell -> bool)
    requires 0 <= c < |row|
    ensures RowCount(row[c := x], f) + (if f(row[c]) then 1 else 0) == RowCount(row, f) + (if f(x) then 1 else 0)
  {
    var last := |row| - 1;
    if c < last {
      assert row[c := x][..last] == row[..last][c := x];
      RowCountUpdate(row[..last], c, x, f);
    } else {
      assert row[c := x][..last] == row[..last];
    }
  }

  /** Replacing one cell changes a count by that cell's contribution only. */
  lemma {:induction false} GridCountUpdate(g: seq<seq<Cell>>, r: int, c: int, x: Cell, f: Cell -> bool)
    requires 0 <= r < |g| && 0 <= c < |g[r]|
    ensures GridCount(Update(g, r, c, x), f) + (if f(g[r][c]) then 1 else 0) == GridCount(g, f) + (if f(x) then 1 else 0)
  {
    var last := |g| - 1;
    var h := Update(g, r, c, x);
    if r < last {
      assert h[..last] == Update(g[..last], r, c, x);
      GridCountUpdate(g[..last], r, c, x, f);
    } else {
      assert h[..last] == g[..last];
      RowCountUpdate(g[r], c, x, f);
    }
  }

  /** A count over the first r rows plus the first c cells of row r. */
  function CountBefore(g: seq<seq<Cell>>, f: Cell -> bool, r: int, c: int): nat
    requires 0 <= r <= |g| && (r < |g| ==> 0 <= c <= |g[r]|)
  {
    GridCount(g[..r], f) + (if r < |g| then RowCount(g[r][..c], f) else 0)
  }

  /** Scanning the next cell adds its contribution; finishing a row moves to the next. */
  lemma CountBeforeStep(g: seq<seq<Cell>>, f: Cell -> bool, r: int, c: int)
    requires 0 <= r < |g| && 0 <= c < |g[r]|
    ensures CountBefore(g, f, r, c + 1) == CountBefore(g, f, r, c) + (if f(g[r][c]) then 1 else 0)
  {
    assert g[r][..c + 1][..c] == g[r][..c];
  }

  lemma CountBeforeNextRow(g: seq<seq<Cell>>, f: Cell -> bool, r: int)
    requires 0 <= r < |g|
    ensures CountBefore(g, f, r, |g[r]|) == CountBefore(g, f, r + 1, 0)
  {
    assert g[..r + 1][..r] == g[..r];
    assert g[r][..|g[r]|] == g[r];
  }

  lemma CountBeforeAll(g: seq<seq<Cell>>, f: Cell -> bool)
    ensures CountBefore(g, f, |g|, 0) == GridCount(g, f)
  {
    assert g[..|g|] == g;
  }

  /** A count can only fall when every counted cell of h was counted in g. */
  lemma {:induction false} RowCountMono(a: seq<Cell>, b: seq<Cell>, f: Cell -> bool)
    requires |a| == |b| && forall j :: 0 <= j < |a| && f(b[j]) ==> f(a[j])
    ensures RowCount(b, f) <= RowCount(a, f)
  {
    if a != [] {
      RowCountMono(a[..|a| - 1], b[..|b| - 1], f);
    }
  }

  lemma {:induction false} GridCountMono(g: seq<seq<Cell>>, h: seq<seq<Cell>>, f: Cell -> bool)
    requires |g| == |h| && forall i :: 0 <= i < |g| ==> |g[i]| == |h[i]|
    requires forall i, j :: 0 <= i < |g| && 0 <= j < |g[i]| && f(h[i][j]) ==> f(g[i][j])
    ensures GridCount(h, f) <= GridCount(g, f)
  {
    if g != [] {
      var last := |g| - 1;
      GridCountMono(g[..last], h[..last], f);
      RowCountMono(g[last], h[last], f);
    }
  }

  lemma {:induction false} RowCountNone(row: seq<Cell>, f: Cell -> bool)
    requires forall j :: 0 <= j < |row| ==> !f(row[j])
    ensures RowCount(row, f) == 0
  {
    if row != [] {
      RowCountNone(row[..|row| - 1], f);
    }
  }

  lemma {:induction false} GridCountNone(g: seq<seq<Cell>>, f: Cell -> bool)
    requires forall i, j :: 0 <= i < |g| && 0 <= j < |g[i]| ==> !f(g[i][j])
    ensures GridCount(g, f) == 0
  {
    if g != [] {
      GridCountNone(g[..|g| - 1], f);
      RowCountNone(g[|g| - 1], f);
    }
  }
}
