/**
 * Checks on a Sudoku board of player cells: whether a digit may go in a
 * cell, which cells clash with a cell, whether the board is complete or
 * filled, and how many cells carry an error mark.
 */
module SudokuValidator {
  import opened Common
  import opened SudokuBoard

  /**
   * The fields of a player cell the validator reads: the digit, None when
   * the cell is blank, and the error mark. Notes and the initial and
   * highlighted flags are never read here.
   */
  datatype Cell = Cell(value: Option<int>, isError: bool)

  predicate IsBoard(g: seq<Cell>)
  {
    |g| == Cells
  }

  function ValueAt(g: seq<Cell>, r: int, c: int): Option<int>
    requires IsBoard(g) && InGrid(r, c)
  {
    g[Idx(r, c)].value
  }

  /** No other cell of the row, the column or the box of (row, col) holds num. */
  predicate MoveAllowed(g: seq<Cell>, row: int, col: int, num: int)
    requires IsBoard(g) && InGrid(row, col)
  {
    forall r, c :: 0 <= r < N && 0 <= c < N && Peer(row, col, r, c) ==> ValueAt(g, r, c) != Some(num)
  }

  /** Scans the row, then the column, then the box, each skipping the cell itself. */
  method IsValidMove(g: seq<Cell>, row: int, col: int, num: int) returns (ok: bool)
    requires IsBoard(g) && InGrid(row, col)
    ensures ok <==> MoveAllowed(g, row, col, num)
  {
    for x := 0 to N
      invariant forall c :: 0 <= c < x && c != col ==> ValueAt(g, row, c) != Some(num)
    {
      if x != col && ValueAt(g, row, x) == Some(num) {
        assert Peer(row, col, row, x);
        return false;
      }
    }
    for x := 0 to N
      invariant forall r :: 0 <= r < x && r != row ==> ValueAt(g, r, col) != Some(num)
    {
      if x != row && ValueAt(g, x, col) == Some(num) {
        assert Peer(row, col, x, col);
        return false;
      }
    }
    var startRow := row - row % 3;
    var startCol := col - col % 3;
    SameBand(row, row);
    SameBand(col, col);
    for i := 0 to 3
      invariant forall r, c :: startRow <= r < startRow + i && startCol <= c < startCol + 3 && (r != row || c != col) ==>
                  ValueAt(g, r, c) != Some(num)
    {
      for j := 0 to 3
        invariant forall r, c :: ((startRow <= r < startRow + i && startCol <= c < startCol + 3) ||
                                  (r == startRow + i && startCol <= c < startCol + j)) && (r != row || c != col) ==>
                    ValueAt(g, r, c) != Some(num)
      {
        var r := i + startRow;
        var c := j + startCol;
        if (r != row || c != col) && ValueAt(g, r, c) == Some(num) {
          SameBand(row, r);
          SameBand(col, c);
          assert Peer(row, col, r, c);
          return false;
        }
      }
    }
    forall r, c | InGrid(r, c) && Peer(row, col, r, c)
      ensures ValueAt(g, r, c) != Some(num)
    {
      if r != row && c != col {
        SameBand(row, r);
        SameBand(col, c);
      }
    }
    return true;
  }

  /** Whether a digit is allowed never depends on what the cell itself holds. */
  lemma MoveIgnoresOwnCell(g: seq<Cell>, row: int, col: int, num: int, v: Cell)
    requires IsBoard(g) && InGrid(row, col)
    ensures MoveAllowed(g[Idx(row, col) := v], row, col, num) <==> MoveAllowed(g, row, col, num)
  {
    var h := g[Idx(row, col) := v];
    forall r, c | InGrid(r, c) && Peer(row, col, r, c)
      ensures ValueAt(h, r, c) == ValueAt(g, r, c)
    {
      if Idx(r, c) == Idx(row, col) {
        IdxInjective(r, c, row, col);
      }
    }
  }

  /** p is another cell of the unit of (row, col) holding the same digit. */
  predicate Conflicting(g: seq<Cell>, row: int, col: int, p: Pos)
    requires IsBoard(g) && InGrid(row, col)
  {
    InGrid(p.row, p.col) && Peer(row, col, p.row, p.col) && ValueAt(g, p.row, p.col) == ValueAt(g, row, col)
  }

  /**
   * Lists the row, then the column, then the box clashes of a filled cell;
   * a box cell already listed through its row or column is not listed again.
   */
  method GetConflicts(g: seq<Cell>, row: int, col: int) returns (conflicts: seq<Pos>)
    requires IsBoard(g) && InGrid(row, col)
    ensures forall p :: p in conflicts <==> ValueAt(g, row, col).Some? && Conflicting(g, row, col, p)
    ensures Distinct(conflicts)
  {
    conflicts := [];
    var cellValue := ValueAt(g, row, col);
    if cellValue == None {
      return;
    }
    for x := 0 to N
      invariant Distinct(conflicts)
      invariant forall p :: p in conflicts <==> p.row == row && 0 <= p.col < x && Conflicting(g, row, col, p)
    {
      if x != col && ValueAt(g, row, x) == cellValue {
        conflicts := conflicts + [Pos(row, x)];
      }
    }
    for x := 0 to N
      invariant Distinct(conflicts)
      invariant forall p :: p in conflicts <==>
                  (p.row == row || (p.col == col && 0 <= p.row < x)) && Conflicting(g, row, col, p)
    {
      if x != row && ValueAt(g, x, col) == cellValue {
        conflicts := conflicts + [Pos(x, col)];
      }
    }
    var startRow := row - row % 3;
    var startCol := col - col % 3;
    SameBand(row, row);
    SameBand(col, col);
    for i := 0 to 3
      invariant Distinct(conflicts)
      invariant forall p :: p in conflicts <==>
                  (p.row == row || p.col == col || InBoxBefore(p, startRow, startCol, i, 0)) && Conflicting(g, row, col, p)
    {
      for j := 0 to 3
        invariant Distinct(conflicts)
        invariant forall p :: p in conflicts <==>
                    (p.row == row || p.col == col || InBoxBefore(p, startRow, startCol, i, j)) && Conflicting(g, row, col, p)
      {
        var r := i + startRow;
        var c := j + startCol;
        if (r != row || c != col) && ValueAt(g, r, c) == cellValue {
          SameBand(row, r);
          SameBand(col, c);
          if Pos(r, c) !in conflicts {
            conflicts := conflicts + [Pos(r, c)];
          }
        }
      }
    }
    forall p | Conflicting(g, row, col, p)
      ensures p.row == row || p.col == col || InBoxBefore(p, startRow, startCol, 3, 0)
    {
      SameBand(row, p.row);
      SameBand(col, p.col);
    }
  }

  /** p lies in the box at (startRow, startCol), at one of the offsets scanned before (i, j). */
  predicate InBoxBefore(p: Pos, startRow: int, startCol: int, i: int, j: int)
  {
    var a := p.row - startRow;
    var b := p.col - startCol;
    0 <= a < 3 && 0 <= b < 3 && (a < i || (a == i && b < j))
  }

  /** Every cell holds a digit. */
  predicate Filled(g: seq<Cell>)
  {
    forall i :: 0 <= i < |g| ==> g[i].value.Some?
  }

  /** Every cell holds the digit of the solution there; a blank cell never matches. */
  predicate MatchesSolution(g: seq<Cell>, solution: seq<int>)
    requires IsBoard(g) && |solution| == Cells
  {
    forall i :: 0 <= i < Cells ==> g[i].value == Some(solution[i])
  }

  method IsComplete(g: seq<Cell>, solution: seq<int>) returns (ok: bool)
    requires IsBoard(g) && |solution| == Cells
    ensures ok <==> MatchesSolution(g, solution)
    ensures ok ==> Filled(g)
  {
    for row := 0 to N
      invariant forall i :: 0 <= i < Idx(row, 0) ==> g[i].value == Some(solution[i])
    {
      for col := 0 to N
        invariant forall i :: 0 <= i < Idx(row, col) ==> g[i].value == Some(solution[i])
      {
        if g[Idx(row, col)].value != Some(solution[Idx(row, col)]) {
          return false;
        }
      }
    }
    return true;
  }

  method IsFilled(g: seq<Cell>) returns (ok: bool)
    requires IsBoard(g)
    ensures ok <==> Filled(g)
  {
    for row := 0 to N
      invariant forall i :: 0 <= i < Idx(row, 0) ==> g[i].value.Some?
    {
      for col := 0 to N
        invariant forall i :: 0 <= i < Idx(row, col) ==> g[i].value.Some?
      {
        if g[Idx(row, col)].value.None? {
          return false;
        }
      }
    }
    return true;
  }

  /** How many of the first n cells carry an error mark. */
  function ErrorCount(g: seq<Cell>, n: int): (k: nat)
    requires 0 <= n <= |g|
    ensures k <= n
  {
    if n == 0 then 0 else ErrorCount(g, n - 1) + (if g[n - 1].isError then 1 else 0)
  }

  /** No error is counted exactly when no cell carries the mark. */
  lemma {:induction false} ErrorCountZero(g: seq<Cell>, n: int)
    requires 0 <= n <= |g|
    ensures ErrorCount(g, n) == 0 <==> forall i :: 0 <= i < n ==> !g[i].isError
  {
    if n > 0 {
      ErrorCountZero(g, n - 1);
    }
  }

  method CountErrors(g: seq<Cell>) returns (errors: int)
    requires IsBoard(g)
    ensures errors == ErrorCount(g, Cells)
    ensures 0 <= errors <= Cells
  {
    errors := 0;
    for row := 0 to N
      invariant errors == ErrorCount(g, Idx(row, 0))
    {
      for col := 0 to N
        invariant errors == ErrorCount(g, Idx(row, col))
      {
        if g[Idx(row, col)].isError {
          errors := errors + 1;
        }
      }
    }
  }
}
