/**
 * The Sudoku generator: a randomised backtracking fill of an empty 9x9
 * grid, a depth-first solution search capped at a number of solutions, and
 * the carving of a puzzle out of the solution that keeps only removals
 * after which the search still finds exactly one completion.
 *
 * Grids hold the digits 1..9, with 0 for an empty cell, in row-major order.
 */
module SudokuGeneration {
  import opened Common
  import opened SudokuBoard
  import SudokuValidator
  import Shuffling

  datatype Difficulty = Simple | Normal | Expert | Maitre | DieuxSudoku
    /** A difficulty outside the five levels, handled by the table's default. */
    | Unlisted

  /** How many cells the carving tries to empty. */
  function CellsToRemove(d: Difficulty): (n: int)
    ensures d == Simple ==> n == 35
    ensures d == Normal ==> n == 45
    ensures d == Expert ==> n == 52
    ensures d == Maitre ==> n == 58
    ensures d == DieuxSudoku ==> n == 64
    ensures d == Unlisted ==> n == 40
    ensures 0 < n < Cells
  {
    match d
    case Simple => 35
    case Normal => 45
    case Expert => 52
    case Maitre => 58
    case DieuxSudoku => 64
    case Unlisted => 40
  }

  // ---------------------------------------------------------------------------
  // Grids of digits

  predicate IsGrid(g: seq<int>)
  {
    |g| == Cells && forall i :: 0 <= i < |g| ==> 0 <= g[i] <= N
  }

  function At(g: seq<int>, r: int, c: int): int
    requires |g| == Cells && InGrid(r, c)
  {
    g[Idx(r, c)]
  }

  lemma UpdateAt(g: seq<int>, row: int, col: int, v: int, r: int, c: int)
    requires |g| == Cells && InGrid(row, col) && InGrid(r, c)
    ensures At(g[Idx(row, col) := v], r, c) == if r == row && c == col then v else At(g, r, c)
  {
    if Idx(r, c) == Idx(row, col) {
      IdxInjective(r, c, row, col);
    }
  }

  predicate NoZeros(g: seq<int>)
  {
    forall i :: 0 <= i < |g| ==> g[i] != 0
  }

  /** `h` is `g` with some cells emptied: every digit of `h` is the digit of `g` there. */
  predicate SubGrid(h: seq<int>, g: seq<int>)
  {
    |h| == |g| && forall i :: 0 <= i < |h| ==> h[i] == 0 || h[i] == g[i]
  }

  /** num occurs nowhere in the row, the column or the box of (row, col), the cell itself included. */
  predicate Free(g: seq<int>, row: int, col: int, num: int)
    requires |g| == Cells && InGrid(row, col)
  {
    forall r, c :: 0 <= r < N && 0 <= c < N && SameUnit(row, col, r, c) ==> At(g, r, c) != num
  }

  /** The cell (r, c) is empty or holds a digit none of its peers holds. */
  predicate Settled(g: seq<int>, r: int, c: int)
    requires |g| == Cells && InGrid(r, c)
  {
    At(g, r, c) == 0 || forall r2, c2 :: 0 <= r2 < N && 0 <= c2 < N && Peer(r, c, r2, c2) ==> At(g, r2, c2) != At(g, r, c)
  }

  /** Digits in range, and no digit repeated within a row, a column or a box. */
  predicate Consistent(g: seq<int>)
  {
    IsGrid(g) && forall r, c {:trigger Settled(g, r, c)} :: 0 <= r < N && 0 <= c < N ==> Settled(g, r, c)
  }

  /** A finished grid: every cell holds a digit and no unit repeats one. */
  predicate Solved(g: seq<int>)
  {
    Consistent(g) && NoZeros(g)
  }

  function RowValues(g: seq<int>, r: int): seq<int>
    requires |g| == Cells && 0 <= r < N
  {
    seq(N, c requires 0 <= c < N => At(g, r, c))
  }

  function ColValues(g: seq<int>, c: int): seq<int>
    requires |g| == Cells && 0 <= c < N
  {
    seq(N, r requires 0 <= r < N => At(g, r, c))
  }

  /** The nine cells of box b, boxes numbered row by row, each box read row by row. */
  function BoxValues(g: seq<int>, b: int): seq<int>
    requires |g| == Cells && 0 <= b < N
  {
    seq(N, k requires 0 <= k < N => At(g, BoxRow(b, k), BoxCol(b, k)))
  }

  /** The row of the k-th cell of box b. */
  function BoxRow(b: int, k: int): int
    requires 0 <= b < N && 0 <= k < N
    ensures 0 <= BoxRow(b, k) < N
  {
    Band(b / 3, k / 3);
    3 * (b / 3) + k / 3
  }

  /** The column of the k-th cell of box b. */
  function BoxCol(b: int, k: int): int
    requires 0 <= b < N && 0 <= k < N
    ensures 0 <= BoxCol(b, k) < N
  {
    Band(b % 3, k % 3);
    3 * (b % 3) + k % 3
  }

  /** Every row, column and box holds each of 1..9 exactly once. */
  predicate UnitsComplete(g: seq<int>)
    requires |g| == Cells
  {
    && (forall r :: 0 <= r < N ==> AllDigitsOnce(RowValues(g, r)))
    && (forall c :: 0 <= c < N ==> AllDigitsOnce(ColValues(g, c)))
    && (forall b :: 0 <= b < N ==> AllDigitsOnce(BoxValues(g, b)))
  }

  lemma SolvedUnitsComplete(g: seq<int>)
    requires Solved(g)
    ensures UnitsComplete(g)
  {
    forall r | 0 <= r < N
      ensures AllDigitsOnce(RowValues(g, r))
    {
      var s := RowValues(g, r);
      forall i, j | 0 <= i < j < N
        ensures s[i] != s[j]
      {
        assert Settled(g, r, i) && Peer(r, i, r, j);
      }
      Pigeonhole(s);
    }
    forall c | 0 <= c < N
      ensures AllDigitsOnce(ColValues(g, c))
    {
      var s := ColValues(g, c);
      forall i, j | 0 <= i < j < N
        ensures s[i] != s[j]
      {
        assert Settled(g, i, c) && Peer(i, c, j, c);
      }
      Pigeonhole(s);
    }
    forall b | 0 <= b < N
      ensures AllDigitsOnce(BoxValues(g, b))
    {
      BoxDistinct(g, b);
      Pigeonhole(BoxValues(g, b));
    }
  }

  lemma BoxDistinct(g: seq<int>, b: int)
    requires Solved(g) && 0 <= b < N
    ensures Distinct(BoxValues(g, b))
    ensures forall k :: 0 <= k < N ==> 1 <= BoxValues(g, b)[k] <= N
  {
    forall i, j | 0 <= i < j < N
      ensures BoxValues(g, b)[i] != BoxValues(g, b)[j]
    {
      BoxPair(g, b, i, j);
    }
    forall k | 0 <= k < N
      ensures 1 <= BoxValues(g, b)[k] <= N
    {
      BoxDigit(g, b, k);
    }
  }

  lemma BoxPair(g: seq<int>, b: int, i: int, j: int)
    requires Solved(g) && 0 <= b < N && 0 <= i < N && 0 <= j < N && i != j
    ensures BoxValues(g, b)[i] != BoxValues(g, b)[j]
  {
    BoxPeers(b, i, j);
    var r1, c1 := BoxRow(b, i), BoxCol(b, i);
    IdxInRange(r1, c1);
    assert Settled(g, r1, c1) && At(g, r1, c1) != 0;
  }

  lemma BoxDigit(g: seq<int>, b: int, k: int)
    requires Solved(g) && 0 <= b < N && 0 <= k < N
    ensures 1 <= BoxValues(g, b)[k] <= N
  {
    IdxInRange(BoxRow(b, k), BoxCol(b, k));
  }

  /** Two different offsets within box b are two different cells of that box. */
  lemma BoxPeers(b: int, i: int, j: int)
    requires 0 <= b < N && 0 <= i < N && 0 <= j < N && i != j
    ensures Peer(BoxRow(b, i), BoxCol(b, i), BoxRow(b, j), BoxCol(b, j))
  {
    Band(b / 3, i / 3);
    Band(b / 3, j / 3);
    Band(b % 3, i % 3);
    Band(b % 3, j % 3);
    assert i == 3 * (i / 3) + i % 3 && j == 3 * (j / 3) + j % 3;
  }

  /** Offset t within band q is a coordinate whose band starts at 3 * q. */
  lemma Band(q: int, t: int)
    requires 0 <= q < 3 && 0 <= t < 3
    ensures 0 <= 3 * q + t < N && BoxStart(3 * q + t) == 3 * q
  {
  }

  // ---------------------------------------------------------------------------
  // Placement checks

  /** A placement check passes on an empty cell exactly when the player's move check passes. */
  function AsPlayerGrid(g: seq<int>): (cells: seq<SudokuValidator.Cell>)
    ensures |cells| == |g|
    ensures forall i :: 0 <= i < |g| ==> (cells[i].value == None <==> g[i] == 0)
    ensures forall i :: 0 <= i < |g| && g[i] != 0 ==> cells[i].value == Some(g[i])
  {
    seq(|g|, i requires 0 <= i < |g| =>
      SudokuValidator.Cell(if g[i] == 0 then None else Some(g[i]), false))
  }

  lemma FreeAgreesWithValidator(g: seq<int>, row: int, col: int, num: int)
    requires |g| == Cells && InGrid(row, col) && At(g, row, col) == 0 && num != 0
    ensures Free(g, row, col, num) <==> SudokuValidator.MoveAllowed(AsPlayerGrid(g), row, col, num)
  {
    var cells := AsPlayerGrid(g);
    if SudokuValidator.MoveAllowed(cells, row, col, num) {
      forall r, c | 0 <= r < N && 0 <= c < N && SameUnit(row, col, r, c)
        ensures At(g, r, c) != num
      {
        if r != row || c != col {
          assert SudokuValidator.ValueAt(cells, r, c) != Some(num);
        }
      }
    }
  }

  /** The row, column and box scans of a placement check over any grid. */
  method IsValidInGrid(g: array<int>, row: int, col: int, num: int) returns (ok: bool)
    requires g.Length == Cells && InGrid(row, col)
    ensures ok <==> Free(g[..], row, col, num)
  {
    for x := 0 to N
      invariant forall c :: 0 <= c < x ==> g[Idx(row, c)] != num
    {
      if g[Idx(row, x)] == num {
        assert SameUnit(row, col, row, x);
        return false;
      }
    }
    for x := 0 to N
      invariant forall r :: 0 <= r < x ==> g[Idx(r, col)] != num
    {
      if g[Idx(x, col)] == num {
        assert SameUnit(row, col, x, col);
        return false;
      }
    }
    var startRow := row - row % 3;
    var startCol := col - col % 3;
    SameBand(row, row);
    SameBand(col, col);
    for i := 0 to 3
      invariant forall r, c :: startRow <= r < startRow + i && startCol <= c < startCol + 3 ==> g[Idx(r, c)] != num
    {
      for j := 0 to 3
        invariant forall r, c :: ((startRow <= r < startRow + i && startCol <= c < startCol + 3) ||
                                  (r == startRow + i && startCol <= c < startCol + j)) ==> g[Idx(r, c)] != num
      {
        if g[Idx(i + startRow, j + startCol)] == num {
          SameBand(row, i + startRow);
          SameBand(col, j + startCol);
          assert SameUnit(row, col, i + startRow, j + startCol);
          return false;
        }
      }
    }
    forall r, c | 0 <= r < N && 0 <= c < N && SameUnit(row, col, r, c)
      ensures At(g[..], r, c) != num
    {
      SameBand(row, r);
      SameBand(col, c);
    }
    return true;
  }

  /** Placing a digit free for an empty cell keeps the grid consistent. */
  lemma PlaceKeepsConsistent(g: seq<int>, row: int, col: int, num: int)
    requires Consistent(g) && InGrid(row, col) && At(g, row, col) == 0
    requires 1 <= num <= N && Free(g, row, col, num)
    ensures Consistent(g[Idx(row, col) := num])
  {
    IdxInRange(row, col);
    var h := g[Idx(row, col) := num];
    forall r, c | 0 <= r < N && 0 <= c < N
      ensures Settled(h, r, c)
    {
      PlaceKeepsSettled(g, row, col, num, r, c);
    }
  }

  lemma PlaceKeepsSettled(g: seq<int>, row: int, col: int, num: int, r: int, c: int)
    requires Consistent(g) && InGrid(row, col) && At(g, row, col) == 0
    requires 1 <= num <= N && Free(g, row, col, num) && InGrid(r, c)
    ensures Settled(g[Idx(row, col) := num], r, c)
  {
    var h := g[Idx(row, col) := num];
    assert Settled(g, r, c);
    UpdateAt(g, row, col, num, r, c);
    forall r2, c2 | 0 <= r2 < N && 0 <= c2 < N && Peer(r, c, r2, c2) && At(h, r, c) != 0
      ensures At(h, r2, c2) != At(h, r, c)
    {
      UpdateAt(g, row, col, num, r2, c2);
      if r2 == row && c2 == col {
        assert SameUnit(row, col, r, c);
      }
    }
  }

  // ---------------------------------------------------------------------------
  // The solution search

  /** Index of the first empty cell in row-major order, or the length when there is none. */
  function FirstZero(g: seq<int>): (k: nat)
    ensures k <= |g|
    ensures k < |g| ==> g[k] == 0
    ensures forall i :: 0 <= i < k ==> g[i] != 0
  {
    if |g| == 0 then 0 else if g[0] == 0 then 0 else 1 + FirstZero(g[1..])
  }

  lemma FirstZeroUnique(g: seq<int>, k: int)
    requires 0 <= k <= |g| && (k < |g| ==> g[k] == 0) && forall i :: 0 <= i < k ==> g[i] != 0
    ensures FirstZero(g) == k
  {
  }

  function CountZeros(g: seq<int>): nat
  {
    multiset(g)[0]
  }

  lemma FillOneLowersCount(g: seq<int>, k: int, v: int)
    requires 0 <= k < |g| && g[k] == 0 && v != 0
    ensures CountZeros(g[k := v]) == CountZeros(g) - 1
  {
  }

  lemma EmptyOneRaisesCount(g: seq<int>, k: int)
    requires 0 <= k < |g| && g[k] != 0
    ensures CountZeros(g[k := 0]) == CountZeros(g) + 1
  {
  }

  /**
   * The completed grids the search reaches from g, in order: a grid with no
   * empty cell is itself a solution; otherwise the first empty cell takes
   * each digit 1..9 that is free there, and the search goes on from each.
   */
  ghost function Enum(g: seq<int>): seq<seq<int>>
    requires |g| == Cells
    decreases CountZeros(g), N + 1
  {
    var k := FirstZero(g);
    if k == Cells then [g] else Branches(g, k, N)
  }

  /** What the search finds from g after trying the digits 1..n at cell k. */
  ghost function Branches(g: seq<int>, k: int, n: int): seq<seq<int>>
    requires |g| == Cells && 0 <= k < Cells && g[k] == 0 && 0 <= n <= N
    decreases CountZeros(g), n
  {
    if n == 0 then []
    else
      FillOneLowersCount(g, k, n);
      IdxInverse(k);
      Branches(g, k, n - 1) + (if Free(g, RowOf(k), ColOf(k), n) then Enum(g[k := n]) else [])
  }

  lemma BranchesStep(g: seq<int>, k: int, n: int)
    requires |g| == Cells && 0 <= k < Cells && g[k] == 0 && 0 <= n < N
    ensures InGrid(RowOf(k), ColOf(k))
    ensures Branches(g, k, n + 1) == Branches(g, k, n)
      + (if Free(g, RowOf(k), ColOf(k), n + 1) then Enum(g[k := n + 1]) else [])
  {
    IdxInverse(k);
  }

  /** The search step for digit num, given whether num is free at cell k. */
  lemma BranchesNext(g: seq<int>, k: int, num: int, valid: bool)
    requires |g| == Cells && 0 <= k < Cells && g[k] == 0 && 1 <= num <= N
    requires valid == Free(g, RowOf(k), ColOf(k), num)
    ensures valid ==> Branches(g, k, num) == Branches(g, k, num - 1) + Enum(g[k := num])
    ensures !valid ==> Branches(g, k, num) == Branches(g, k, num - 1)
  {
    BranchesStep(g, k, num - 1);
    if !valid {
      assert Branches(g, k, num) == Branches(g, k, num - 1) + [];
    }
  }

  /** Trying more digits only adds solutions. */
  lemma {:induction false} BranchesGrow(g: seq<int>, k: int, n: int, m: int, x: seq<int>)
    requires |g| == Cells && 0 <= k < Cells && g[k] == 0 && 0 <= n <= m <= N
    requires x in Branches(g, k, n)
    decreases m - n
    ensures x in Branches(g, k, m)
  {
    if n < m {
      BranchesStep(g, k, n);
      BranchesGrow(g, k, n + 1, m, x);
    }
  }

  /** Every grid the search reaches is full and keeps every digit of g. */
  lemma {:induction false} EnumSound(g: seq<int>)
    requires |g| == Cells
    decreases CountZeros(g), N + 1
    ensures forall x :: x in Enum(g) ==> |x| == Cells && NoZeros(x) && SubGrid(g, x)
  {
    var k := FirstZero(g);
    if k < Cells {
      BranchesSound(g, k, N);
    }
  }

  lemma {:induction false} BranchesSound(g: seq<int>, k: int, n: int)
    requires |g| == Cells && 0 <= k < Cells && g[k] == 0 && 0 <= n <= N
    decreases CountZeros(g), n
    ensures forall x :: x in Branches(g, k, n) ==> |x| == Cells && NoZeros(x) && SubGrid(g, x)
  {
    if n > 0 {
      FillOneLowersCount(g, k, n);
      BranchesSound(g, k, n - 1);
      EnumSound(g[k := n]);
    }
  }

  /** A solved grid that keeps every digit of g. */
  predicate ValidCompletion(g: seq<int>, x: seq<int>)
  {
    Solved(x) && SubGrid(g, x)
  }

  /** The solution's digit is free for an empty cell of any grid it completes. */
  lemma CompletionDigitFree(g: seq<int>, x: seq<int>, row: int, col: int)
    requires |g| == Cells && ValidCompletion(g, x) && InGrid(row, col) && At(g, row, col) == 0
    ensures Free(g, row, col, At(x, row, col))
  {
    assert Settled(x, row, col);
    IdxInRange(row, col);
    assert At(x, row, col) != 0;
    forall r, c | 0 <= r < N && 0 <= c < N && SameUnit(row, col, r, c)
      ensures At(g, r, c) != At(x, row, col)
    {
      IdxInRange(r, c);
      if r != row || c != col {
        assert Peer(row, col, r, c);
        assert At(x, r, c) != At(x, row, col);
      }
    }
  }

  lemma {:induction false} EnumComplete(g: seq<int>, x: seq<int>)
    requires |g| == Cells && ValidCompletion(g, x)
    decreases CountZeros(g)
    ensures x in Enum(g)
  {
    var k := FirstZero(g);
    if k == Cells {
      assert g == x;
    } else {
      IdxInverse(k);
      var v := x[k];
      var h := g[k := v];
      FillOneLowersCount(g, k, v);
      CompletionDigitFree(g, x, RowOf(k), ColOf(k));
      EnumComplete(h, x);
      BranchesStep(g, k, v - 1);
      BranchesGrow(g, k, v, N, x);
    }
  }

  lemma EnumOfFullGrid(g: seq<int>)
    requires |g| == Cells && NoZeros(g)
    ensures Enum(g) == [g]
  {
    assert FirstZero(g) == Cells;
  }

  /**
   * When the search reaches exactly one grid from a puzzle carved out of a
   * solution, that solution is the only grid that completes the puzzle.
   */
  lemma UniqueCompletion(puzzle: seq<int>, sol: seq<int>)
    requires |puzzle| == Cells && ValidCompletion(puzzle, sol) && |Enum(puzzle)| == 1
    ensures Enum(puzzle) == [sol]
    ensures forall x :: ValidCompletion(puzzle, x) <==> x == sol
  {
    EnumComplete(puzzle, sol);
    forall x | ValidCompletion(puzzle, x)
      ensures x == sol
    {
      EnumComplete(puzzle, x);
    }
  }

  /** Every grid the search reaches from a consistent grid is a valid completion of it. */
  lemma {:induction false} EnumValid(g: seq<int>)
    requires Consistent(g)
    decreases CountZeros(g), N + 1
    ensures forall x :: x in Enum(g) ==> ValidCompletion(g, x)
  {
    var k := FirstZero(g);
    if k < Cells {
      BranchesValid(g, k, N);
    }
  }

  lemma {:induction false} BranchesValid(g: seq<int>, k: int, n: int)
    requires Consistent(g) && 0 <= k < Cells && g[k] == 0 && 0 <= n <= N
    decreases CountZeros(g), n
    ensures forall x :: x in Branches(g, k, n) ==> ValidCompletion(g, x)
  {
    if n > 0 {
      FillOneLowersCount(g, k, n);
      IdxInverse(k);
      BranchesValid(g, k, n - 1);
      if Free(g, RowOf(k), ColOf(k), n) {
        PlaceKeepsConsistent(g, RowOf(k), ColOf(k), n);
        EnumValid(g[k := n]);
      }
    }
  }

  /** The search never reaches the same grid twice. */
  lemma {:induction false} EnumDistinct(g: seq<int>)
    requires |g| == Cells
    decreases CountZeros(g), N + 1
    ensures Distinct(Enum(g))
  {
    var k := FirstZero(g);
    if k < Cells {
      BranchesDistinct(g, k, N);
    }
  }

  /** The grids found after trying digits 1..n at cell k are distinct and hold one of them there. */
  lemma {:induction false} BranchesDistinct(g: seq<int>, k: int, n: int)
    requires |g| == Cells && 0 <= k < Cells && g[k] == 0 && 0 <= n <= N
    decreases CountZeros(g), n
    ensures Distinct(Branches(g, k, n))
    ensures forall x :: x in Branches(g, k, n) ==> |x| == Cells && 1 <= x[k] <= n
  {
    if n > 0 {
      FillOneLowersCount(g, k, n);
      IdxInverse(k);
      BranchesDistinct(g, k, n - 1);
      var a := Branches(g, k, n - 1);
      if Free(g, RowOf(k), ColOf(k), n) {
        EnumDistinct(g[k := n]);
        FilledKeepsDigit(g, k, n);
        DigitSplit(a, Enum(g[k := n]), k, n);
      } else {
        DigitSplit(a, [], k, n);
      }
    }
  }

  /** Grids holding a digit below n at cell k, followed by distinct grids holding n there, stay distinct. */
  lemma DigitSplit(a: seq<seq<int>>, b: seq<seq<int>>, k: int, n: int)
    requires Distinct(a) && Distinct(b) && 0 <= k < Cells && 1 <= n
    requires forall x :: x in a ==> |x| == Cells && 1 <= x[k] <= n - 1
    requires forall x :: x in b ==> |x| == Cells && x[k] == n
    ensures Distinct(a + b)
    ensures forall x :: x in a + b ==> |x| == Cells && 1 <= x[k] <= n
  {
    DistinctConcat(a, b);
  }

  /** Every grid the search reaches after writing n at cell k still holds n there. */
  lemma FilledKeepsDigit(g: seq<int>, k: int, n: int)
    requires |g| == Cells && 0 <= k < Cells && 1 <= n <= N
    ensures forall x :: x in Enum(g[k := n]) ==> |x| == Cells && x[k] == n
  {
    EnumSound(g[k := n]);
  }

  /** A puzzle carved out of a solved grid is consistent. */
  lemma SubGridConsistent(puzzle: seq<int>, sol: seq<int>)
    requires ValidCompletion(puzzle, sol)
    ensures Consistent(puzzle)
  {
    forall r, c | 0 <= r < N && 0 <= c < N
      ensures Settled(puzzle, r, c)
    {
      IdxInRange(r, c);
      assert Settled(sol, r, c);
      forall r2, c2 | 0 <= r2 < N && 0 <= c2 < N && Peer(r, c, r2, c2) && At(puzzle, r, c) != 0
        ensures At(puzzle, r2, c2) != At(puzzle, r, c)
      {
        IdxInRange(r2, c2);
      }
    }
  }

  /**
   * For a puzzle carved out of a solution, the search's list holds exactly
   * the valid completions, and it has one entry exactly when the solution
   * is the only valid completion; otherwise some other grid completes it.
   */
  lemma SearchExact(puzzle: seq<int>, sol: seq<int>)
    requires |puzzle| == Cells && ValidCompletion(puzzle, sol)
    ensures forall x :: x in Enum(puzzle) <==> ValidCompletion(puzzle, x)
    ensures |Enum(puzzle)| == 1 <==> forall x :: ValidCompletion(puzzle, x) ==> x == sol
    ensures |Enum(puzzle)| != 1 ==> exists x :: ValidCompletion(puzzle, x) && x != sol
  {
    SubGridConsistent(puzzle, sol);
    EnumValid(puzzle);
    EnumDistinct(puzzle);
    forall x | ValidCompletion(puzzle, x)
      ensures x in Enum(puzzle)
    {
      EnumComplete(puzzle, x);
    }
    var e := Enum(puzzle);
    if |e| != 1 {
      assert sol in e;
      assert |e| >= 2;
      assert e[0] != e[1];
      var other := if e[0] == sol then e[1] else e[0];
      assert ValidCompletion(puzzle, other) && other != sol;
    }
  }

  /** The first empty cell, scanning row by row; (-1, -1) when the grid is full. */
  method FindFirstZero(g: array<int>) returns (zeroRow: int, zeroCol: int)
    requires g.Length == Cells
    ensures zeroRow == -1 ==> zeroCol == -1 && FirstZero(g[..]) == Cells
    ensures zeroRow != -1 ==> InGrid(zeroRow, zeroCol) && Idx(zeroRow, zeroCol) == FirstZero(g[..])
  {
    for row := 0 to N
      invariant forall i :: 0 <= i < Idx(row, 0) ==> g[i] != 0
    {
      for col := 0 to N
        invariant forall i :: 0 <= i < Idx(row, col) ==> g[i] != 0
      {
        if g[Idx(row, col)] == 0 {
          FirstZeroUnique(g[..], Idx(row, col));
          return row, col;
        }
      }
    }
    FirstZeroUnique(g[..], Cells);
    return -1, -1;
  }

  // ---------------------------------------------------------------------------
  // The generator object

  /** The digits the fill shuffles for each cell. */
  const Digits: seq<int> := [1, 2, 3, 4, 5, 6, 7, 8, 9]

  lemma DigitInRange(x: int)
    requires x in Digits
    ensures 1 <= x <= N
  {
  }

  /** A grid extending g with one empty cell filled extends g. */
  lemma PlaceSubGrid(g: seq<int>, k: int, num: int, x: seq<int>)
    requires 0 <= k < |g| && g[k] == 0 && SubGrid(g[k := num], x)
    ensures SubGrid(g, x)
  {
  }

  class SudokuGenerator {
    /** The grid the fill works on. */
    var grid: array<int>

    constructor ()
      ensures grid.Length == Cells && forall i :: 0 <= i < Cells ==> grid[i] == 0
    {
      grid := new int[Cells](_ => 0);
    }

    /** The placement check of the fill, over the generator's own grid. */
    method IsValid(row: int, col: int, num: int) returns (ok: bool)
      requires grid.Length == Cells && InGrid(row, col)
      ensures ok <==> Free(grid[..], row, col, num)
    {
      ok := IsValidInGrid(grid, row, col, num);
    }

    /**
     * Fills the first empty cell with each digit of a shuffled 1..9 that is
     * free there and recurses; a digit that leads nowhere is taken back, and
     * when none works the cell is emptied again and the fill fails.
     */
    method FillGrid(draws: seq<nat>) returns (ok: bool, rest: seq<nat>)
      requires grid.Length == Cells && Consistent(grid[..])
      modifies grid
      decreases CountZeros(grid[..])
      ensures !ok ==> grid[..] == old(grid[..])
      ensures ok ==> Solved(grid[..]) && SubGrid(old(grid[..]), grid[..])
    {
      rest := draws;
      var row, col := FindFirstZero(grid);
      if row == -1 {
        return true, rest;
      }
      var k := Idx(row, col);
      ghost var before := grid[..];
      assert At(before, row, col) == 0;
      var numbers;
      numbers, rest := Shuffling.Shuffle(Digits, rest);
      for n := 0 to |numbers|
        invariant grid[..] == before
      {
        var num := numbers[n];
        PermutationMember(Digits, numbers, n);
        DigitInRange(num);
        var valid := IsValid(row, col, num);
        if valid {
          PlaceKeepsConsistent(before, row, col, num);
          FillOneLowersCount(before, k, num);
          assert before[k := num][k := 0] == before;
          grid[k] := num;
          ghost var placed := grid[..];
          var filled;
          filled, rest := FillGrid(rest);
          if filled {
            PlaceSubGrid(before, k, num, grid[..]);
            return true, rest;
          }
          grid[k] := 0;
          assert grid[..] == placed[k := 0];
        }
      }
      return false, rest;
    }

    /** Fills a fresh empty grid and returns a copy of it. */
    method GenerateComplete(draws: seq<nat>) returns (solution: seq<int>, rest: seq<nat>)
      modifies this
      ensures IsGrid(solution)
      ensures NoZeros(solution) ==> Solved(solution) && UnitsComplete(solution)
      ensures !NoZeros(solution) ==> forall i :: 0 <= i < Cells ==> solution[i] == 0
    {
      grid := new int[Cells](_ => 0);
      ghost var empty := grid[..];
      assert Consistent(empty);
      var ok;
      ok, rest := FillGrid(draws);
      solution := grid[..];
      if ok {
        SolvedUnitsComplete(solution);
      } else {
        assert solution[0] == 0;
      }
    }

    /** Copies the grid and searches the copy with room for two solutions. */
    method HasUniqueSolution(g: array<int>) returns (unique: bool)
      requires g.Length == Cells
      ensures unique <==> |Enum(g[..])| == 1
    {
      var temp := new int[Cells](i reads g requires 0 <= i < Cells => g[i]);
      assert temp[..] == g[..];
      var solutions := CountSolutions(temp, [], 2);
      unique := |solutions| == 1;
    }

    /**
     * Depth-first search for completions: appends to `solutions` the grids
     * `Enum` lists, stopping once `maxSolutions` are held, and leaves the
     * grid as it found it.
     */
    method CountSolutions(g: array<int>, solutions: seq<seq<int>>, maxSolutions: int)
      returns (found: seq<seq<int>>)
      requires g.Length == Cells
      modifies g
      decreases CountZeros(g[..])
      ensures g[..] == old(g[..])
      ensures found == Capped(solutions, Enum(old(g[..])), maxSolutions)
    {
      if |solutions| >= maxSolutions {
        return solutions;
      }
      var row, col := FindFirstZero(g);
      if row == -1 {
        return solutions + [g[..]];
      }
      ghost var before := g[..];
      var k := Idx(row, col);
      IdxInverse(k);
      assert row == RowOf(k) && col == ColOf(k);
      found := solutions;
      for num := 1 to N + 1
        invariant g[..] == before
        invariant found == Capped(solutions, Branches(before, k, num - 1), maxSolutions)
      {
        ghost var tried := Branches(before, k, num - 1);
        var valid := IsValidInGrid(g, row, col, num);
        BranchesNext(before, k, num, valid);
        if valid {
          FillOneLowersCount(before, k, num);
          g[k] := num;
          found := CountSolutions(g, found, maxSolutions);
          CappedAppend(solutions, tried, Enum(before[k := num]), maxSolutions);
          g[k] := 0;
          assert g[..] == before;
        }
      }
    }

    /**
     * Empties the cells of a copy of the solution in a random order, keeping
     * each removal only while the search still finds exactly one solution,
     * until the difficulty's number of removals is reached or every cell was
     * tried.
     */
    method RemoveNumbers(solution: seq<int>, d: Difficulty, draws: seq<nat>)
      returns (puzzle: seq<int>, rest: seq<nat>)
      requires |solution| == Cells
      ensures SubGrid(puzzle, solution)
      ensures NoZeros(solution) ==> CountZeros(puzzle) <= CellsToRemove(d)
      ensures NoZeros(solution) ==> |Enum(puzzle)| == 1
    {
      var cellsToRemove := CellsToRemove(d);
      var p := new int[Cells](i requires 0 <= i < Cells => solution[i]);
      assert p[..] == solution;
      var positions;
      positions, rest := ShuffledPositions(draws);
      if NoZeros(solution) {
        EnumOfFullGrid(solution);
      }
      var removed := 0;
      for n := 0 to |positions|
        invariant SubGrid(p[..], solution)
        invariant removed <= cellsToRemove
        invariant NoZeros(solution) ==> CountZeros(p[..]) == removed
        invariant NoZeros(solution) ==> |Enum(p[..])| == 1
        invariant forall m :: n <= m < |positions| ==>
          p[Idx(positions[m].row, positions[m].col)] == solution[Idx(positions[m].row, positions[m].col)]
      {
        if removed >= cellsToRemove {
          break;
        }
        var pos := positions[n];
        ghost var k := Idx(pos.row, pos.col);
        IdxInRange(pos.row, pos.col);
        ghost var before := p[..];
        forall m | n < m < |positions|
          ensures Idx(positions[m].row, positions[m].col) != k
        {
          if Idx(positions[m].row, positions[m].col) == k {
            IdxInjective(positions[m].row, positions[m].col, pos.row, pos.col);
          }
        }
        var kept := TryRemove(p, pos);
        if kept {
          if NoZeros(solution) {
            EmptyOneRaisesCount(before, k);
          }
          removed := removed + 1;
        }
      }
      puzzle := p[..];
    }

    /**
     * The body of one removal step: empties the cell, checks a copy of the
     * grid for a unique solution, and puts the digit back when it fails.
     */
    method TryRemove(p: array<int>, pos: Pos) returns (kept: bool)
      requires p.Length == Cells && InGrid(pos.row, pos.col)
      modifies p
      ensures kept ==> p[..] == old(p[..])[Idx(pos.row, pos.col) := 0] && |Enum(p[..])| == 1
      ensures !kept ==> p[..] == old(p[..])
    {
      var k := Idx(pos.row, pos.col);
      IdxInRange(pos.row, pos.col);
      var backup := p[k];
      p[k] := 0;
      var tempGrid := new int[Cells](i reads p requires 0 <= i < Cells => p[i]);
      assert tempGrid[..] == p[..];
      kept := HasUniqueSolution(tempGrid);
      if !kept {
        p[k] := backup;
        assert p[..] == old(p[..]);
      }
    }

    /**
     * A solution and a puzzle carved from it. The solution is a value, so
     * the carving, which works on its own copy, cannot change it. When the
     * fill succeeds, the solution is the puzzle's only completion.
     */
    method Generate(d: Difficulty, draws: seq<nat>) returns (puzzle: seq<int>, solution: seq<int>, rest: seq<nat>)
      modifies this
      ensures IsGrid(solution) && SubGrid(puzzle, solution)
      ensures NoZeros(solution) ==> UnitsComplete(solution)
      ensures NoZeros(solution) ==> CountZeros(puzzle) <= CellsToRemove(d)
      ensures NoZeros(solution) ==> forall x :: ValidCompletion(puzzle, x) <==> x == solution
    {
      solution, rest := GenerateComplete(draws);
      puzzle, rest := RemoveNumbers(solution, d, rest);
      if NoZeros(solution) {
        UniqueCompletion(puzzle, solution);
      }
    }
  }

  /** The 81 positions, cell i at row i / 9 and column i % 9, in a random order. */
  method ShuffledPositions(draws: seq<nat>) returns (shuffled: seq<Pos>, rest: seq<nat>)
    ensures |shuffled| == Cells && Distinct(shuffled)
    ensures forall i :: 0 <= i < |shuffled| ==> InGrid(shuffled[i].row, shuffled[i].col)
    ensures forall r, c :: InGrid(r, c) ==> Pos(r, c) in shuffled
  {
    var positions := seq(Cells, i requires 0 <= i < Cells => Pos(i / N, i % N));
    assert forall i :: 0 <= i < Cells ==> Idx(positions[i].row, positions[i].col) == i;
    shuffled, rest := Shuffling.Shuffle(positions, draws);
    DistinctPermutation(positions, shuffled);
    forall i | 0 <= i < |shuffled|
      ensures InGrid(shuffled[i].row, shuffled[i].col)
    {
      PermutationMember(positions, shuffled, i);
    }
    forall r, c | InGrid(r, c)
      ensures Pos(r, c) in shuffled
    {
      var k := Idx(r, c);
      assert 0 <= k < Cells;
      IdxInjective(positions[k].row, positions[k].col, r, c);
      assert positions[k] in multiset(shuffled);
    }
  }
}
