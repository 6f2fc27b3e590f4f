/**
 * Puzzle generation for Tango (src/utils/tangoGenerator.ts): a backtracking
 * fill of a complete board, a random selection of constraints read off that
 * board, and the carving of a puzzle whose completion stays unique.
 *
 * The search that decides uniqueness is specified by `Enum`, the list of
 * completed boards that the depth-first search reaches, in the order it
 * reaches them.
 */
module TangoGenerator {
  import opened Common
  import opened TangoTypes
  import opened TangoValidator
  import Shuffling

  // ---------------------------------------------------------------------------
  // Difficulty settings

  /** Never more constraints than the 60 pairs of orthogonally adjacent cells. */
  function ConstraintTarget(d: Difficulty): (n: nat)
    ensures n == (match d case Easy => 8 case Medium => 6 case Hard => 4)
    ensures 0 < n <= 2 * Size * (Size - 1)
  {
    match d
    case Easy => 8
    case Medium => 6
    case Hard => 4
  }

  /** Always leaves some given cells on the board. */
  function RemovalTarget(d: Difficulty): (n: nat)
    ensures n == (match d case Easy => 18 case Medium => 24 case Hard => 30)
    ensures 0 < n < Cells
  {
    match d
    case Easy => 18
    case Medium => 24
    case Hard => 30
  }

  // ---------------------------------------------------------------------------
  // Filling a complete board

  /**
   * The check made while filling, on the board as it stands: the cell just
   * placed ends no run of three to its left or above it, a completed row has
   * three of each symbol, no column holds more than three of a symbol, and a
   * completed column has three of each.
   */
  predicate IsValidPlacement(g: seq<Sym>, row: int, col: int)
    requires IsBoard(g) && InGrid(row, col)
  {
    var s := At(g, row, col);
    var sunCountCol := ColCount(g, col, Sun, -1, Size);
    var moonCountCol := ColCount(g, col, Moon, -1, Size);
    && !(col >= 2 && At(g, row, col - 1) == s && At(g, row, col - 2) == s)
    && !(row >= 2 && At(g, row - 1, col) == s && At(g, row - 2, col) == s)
    && (col == Size - 1 ==> RowCount(g, row, Sun, -1, Size) == 3 && RowCount(g, row, Moon, -1, Size) == 3)
    && sunCountCol <= 3 && moonCountCol <= 3
    && (row == Size - 1 ==> sunCountCol == 3 && moonCountCol == 3)
  }

  /** The board whose first n cells are those of g and whose other cells are empty. */
  function Prefix(g: seq<Sym>, n: int): (p: seq<Sym>)
    requires IsBoard(g) && 0 <= n <= Cells
    ensures IsBoard(p)
    ensures forall i :: 0 <= i < Cells ==> p[i] == if i < n then g[i] else Empty
  {
    g[..n] + seq(Cells - n, _ => Empty)
  }

  /**
   * Every cell from index k on holds a symbol that passed the fill check when
   * it was placed, that is with the cells after it still empty.
   */
  predicate PlacedFrom(g: seq<Sym>, k: int)
    requires IsBoard(g)
  {
    forall r, c {:trigger PlacedAt(g, r, c)} :: 0 <= r < Size && 0 <= c < Size && k <= Idx(r, c) ==> PlacedAt(g, r, c)
  }

  /** Cell (r, c) holds a symbol that passed the fill check with the cells after it empty. */
  predicate PlacedAt(g: seq<Sym>, r: int, c: int)
    requires IsBoard(g) && InGrid(r, c)
  {
    IdxInRange(r, c);
    At(g, r, c) != Empty && IsValidPlacement(Prefix(g, Idx(r, c) + 1), r, c)
  }

  lemma PlacedStep(placed: seq<Sym>, g: seq<Sym>, row: int, col: int)
    requires IsBoard(placed) && IsBoard(g) && InGrid(row, col)
    requires At(placed, row, col) != Empty && IsValidPlacement(placed, row, col)
    requires forall i :: Idx(row, col) < i < Cells ==> placed[i] == Empty
    requires forall i :: 0 <= i <= Idx(row, col) ==> g[i] == placed[i]
    requires PlacedFrom(g, Idx(row, col) + 1)
    ensures PlacedFrom(g, Idx(row, col))
  {
    assert Prefix(g, Idx(row, col) + 1) == placed;
    forall r, c | InGrid(r, c) && Idx(row, col) == Idx(r, c)
      ensures r == row && c == col
    {
      IdxInjective(r, c, row, col);
    }
  }

  /**
   * Fills the cells from (row, col) onwards, trying both symbols in a random
   * order at each cell. On success every cell from (row, col) on passed the
   * fill check; on failure the board is as it was.
   */
  method FillGrid(grid: array<Sym>, row: int, col: int, draws: seq<nat>) returns (ok: bool, rest: seq<nat>)
    requires grid.Length == Cells
    requires 0 <= row <= Size && 0 <= col < Size
    requires forall i :: Idx(row, col) <= i < Cells ==> grid[i] == Empty
    modifies grid
    decreases Cells - Idx(row, col)
    ensures forall i :: 0 <= i < Idx(row, col) && i < Cells ==> grid[i] == old(grid[i])
    ensures !ok ==> grid[..] == old(grid[..])
    ensures ok ==> PlacedFrom(grid[..], Idx(row, col))
  {
    if row == Size {
      assert forall r, c :: 0 <= r < Size && 0 <= c < Size ==> Idx(r, c) < Idx(row, col);
      return true, draws;
    }
    var k := Idx(row, col);
    var nextRow := if col == Size - 1 then row + 1 else row;
    var nextCol := if col == Size - 1 then 0 else col + 1;
    assert Idx(nextRow, nextCol) == k + 1;
    var symbols;
    symbols, rest := Shuffling.Shuffle([Sun, Moon], draws);
    for n := 0 to |symbols|
      invariant forall i :: 0 <= i < Cells && i != k ==> grid[i] == old(grid[i])
    {
      PermutationMember([Sun, Moon], symbols, n);
      grid[k] := symbols[n];
      if IsValidPlacement(grid[..], row, col) {
        ghost var placed := grid[..];
        var filled;
        filled, rest := FillGrid(grid, nextRow, nextCol, rest);
        if filled {
          PlacedStep(placed, grid[..], row, col);
          return true, rest;
        }
      }
    }
    grid[k] := Empty;
    assert grid[..] == old(grid[..]);
    return false, rest;
  }

  /** A board on which every cell passed the fill check is solved. */
  lemma PlacedBoardIsSolved(g: seq<Sym>)
    requires IsBoard(g) && PlacedFrom(g, 0)
    ensures IsSolvedGrid(g)
  {
    forall i | 0 <= i < Cells
      ensures g[i] != Empty
    {
      IdxInverse(i);
      assert PlacedAt(g, RowOf(i), ColOf(i));
    }
    forall r | 0 <= r < Size
      ensures RowCount(g, r, Sun, -1, Size) == 3 && RowCount(g, r, Moon, -1, Size) == 3
    {
      var p := Prefix(g, Idx(r, Size - 1) + 1);
      assert PlacedAt(g, r, Size - 1);
      RowCountAgree(p, g, r, Sun, -1, Size);
      RowCountAgree(p, g, r, Moon, -1, Size);
    }
    forall c | 0 <= c < Size
      ensures ColCount(g, c, Sun, -1, Size) == 3 && ColCount(g, c, Moon, -1, Size) == 3
    {
      var p := Prefix(g, Idx(Size - 1, c) + 1);
      assert PlacedAt(g, Size - 1, c);
      ColCountAgree(p, g, c, Sun, -1, Size);
      ColCountAgree(p, g, c, Moon, -1, Size);
    }
    forall r, c | 0 <= r < Size && 0 <= c < Size - 2
      ensures !(At(g, r, c) == At(g, r, c + 1) && At(g, r, c + 1) == At(g, r, c + 2))
    {
      var p := Prefix(g, Idx(r, c + 2) + 1);
      assert PlacedAt(g, r, c + 2);
      assert At(p, r, c) == At(g, r, c) && At(p, r, c + 1) == At(g, r, c + 1) && At(p, r, c + 2) == At(g, r, c + 2);
    }
    forall r, c | 0 <= r < Size - 2 && 0 <= c < Size
      ensures !(At(g, r, c) == At(g, r + 1, c) && At(g, r + 1, c) == At(g, r + 2, c))
    {
      var p := Prefix(g, Idx(r + 2, c) + 1);
      assert PlacedAt(g, r + 2, c);
      assert At(p, r, c) == At(g, r, c) && At(p, r + 1, c) == At(g, r + 1, c) && At(p, r + 2, c) == At(g, r + 2, c);
    }
  }

  /** Conversely, every cell of a solved board passes the fill check, so the fill can reach any solved board. */
  lemma SolvedBoardIsPlaced(g: seq<Sym>)
    requires IsSolvedGrid(g)
    ensures PlacedFrom(g, 0)
  {
    forall r, c | 0 <= r < Size && 0 <= c < Size
      ensures PlacedAt(g, r, c)
    {
      SolvedCellPlaced(g, r, c);
    }
  }

  lemma SolvedCellPlaced(g: seq<Sym>, r: int, c: int)
    requires IsSolvedGrid(g) && InGrid(r, c)
    ensures PlacedAt(g, r, c)
  {
    IdxInRange(r, c);
    var p := Prefix(g, Idx(r, c) + 1);
    assert SubGrid(p, g);
    assert forall r2, c2 :: InGrid(r2, c2) && Idx(r2, c2) <= Idx(r, c) ==> At(p, r2, c2) == At(g, r2, c2);
    assert At(g, r, c) != Empty;
    if c >= 2 {
      assert !(At(g, r, c - 2) == At(g, r, c - 1) && At(g, r, c - 1) == At(g, r, c));
    }
    if r >= 2 {
      assert !(At(g, r - 2, c) == At(g, r - 1, c) && At(g, r - 1, c) == At(g, r, c));
    }
    if c == Size - 1 {
      RowCountAgree(p, g, r, Sun, -1, Size);
      RowCountAgree(p, g, r, Moon, -1, Size);
    }
    if r == Size - 1 {
      ColCountAgree(p, g, c, Sun, -1, Size);
      ColCountAgree(p, g, c, Moon, -1, Size);
    } else {
      ColCountSubGrid(p, g, c, Sun, -1, Size);
      ColCountSubGrid(p, g, c, Moon, -1, Size);
    }
  }

  /** Fills an empty board; the success flag is ignored, as a failed fill leaves the board empty. */
  method GenerateCompleteGrid(draws: seq<nat>) returns (solution: seq<Sym>, rest: seq<nat>)
    ensures IsBoard(solution)
    ensures Filled(solution) ==> IsSolvedGrid(solution)
    ensures !Filled(solution) ==> forall i :: 0 <= i < Cells ==> solution[i] == Empty
  {
    var grid := new Sym[Cells](_ => Empty);
    var ok;
    ok, rest := FillGrid(grid, 0, 0, draws);
    solution := grid[..];
    if ok {
      PlacedBoardIsSolved(solution);
    }
  }

  // ---------------------------------------------------------------------------
  // Constraints

  /** The second cell of a constraint: to the right of a horizontal one, below a vertical one. */
  function Partner(c: Constraint): Pos
  {
    if c.dir == Horizontal then Pos(c.row, c.col + 1) else Pos(c.row + 1, c.col)
  }

  /** c joins two cells of the board and records whether `sol` holds equal symbols there. */
  predicate IsCandidate(sol: seq<Sym>, c: Constraint)
    requires IsBoard(sol)
  {
    && InGrid(c.row, c.col) && InGrid(Partner(c).row, Partner(c).col)
    && c.kind == (if At(sol, c.row, c.col) == At(sol, Partner(c).row, Partner(c).col) then Equals else NotEquals)
  }

  /** Board x meets constraint c; one that reaches off the board is met trivially. */
  predicate Satisfied(x: seq<Sym>, c: Constraint)
    requires IsBoard(x)
  {
    InGrid(c.row, c.col) && InGrid(Partner(c).row, Partner(c).col) ==>
      Related(c.kind, At(x, c.row, c.col), At(x, Partner(c).row, Partner(c).col))
  }

  predicate AllSatisfied(x: seq<Sym>, cs: seq<Constraint>)
    requires IsBoard(x)
  {
    forall i :: 0 <= i < |cs| ==> Satisfied(x, cs[i])
  }

  /** Before the cell (row, col) in row-major order. */
  predicate AnchoredBefore(c: Constraint, row: int, col: int)
  {
    c.row < row || (c.row == row && c.col < col)
  }

  /** Every horizontal and every vertical constraint of the board, each typed by the solution. */
  method CandidatePool(sol: seq<Sym>) returns (pool: seq<Constraint>)
    requires IsBoard(sol)
    ensures |pool| == 60
    ensures Distinct(pool)
    ensures forall c :: c in pool <==> IsCandidate(sol, c)
  {
    pool := [];
    for row := 0 to Size
      invariant |pool| == 11 * Min(row, Size - 1) + (if row == Size then Size - 1 else 0)
      invariant Distinct(pool)
      invariant forall i :: 0 <= i < |pool| ==> pool[i].row < row
      invariant forall c :: c in pool <==> IsCandidate(sol, c) && c.row < row
    {
      for col := 0 to Size
        invariant |pool| == 11 * row + Min(col, Size - 1) + (if row < Size - 1 then col else 0)
        invariant Distinct(pool)
        invariant forall i :: 0 <= i < |pool| ==> AnchoredBefore(pool[i], row, col)
        invariant forall c :: c in pool <==> IsCandidate(sol, c) && AnchoredBefore(c, row, col)
      {
        if col < Size - 1 {
          var kind := if At(sol, row, col) == At(sol, row, col + 1) then Equals else NotEquals;
          pool := pool + [Constraint(row, col, kind, Horizontal)];
        }
        if row < Size - 1 {
          var kind := if At(sol, row, col) == At(sol, row + 1, col) then Equals else NotEquals;
          pool := pool + [Constraint(row, col, kind, Vertical)];
        }
      }
    }
  }

  /** A random selection of distinct constraints, all read off the solution. */
  method GenerateConstraints(sol: seq<Sym>, d: Difficulty, draws: seq<nat>) returns (cs: seq<Constraint>, rest: seq<nat>)
    requires IsBoard(sol)
    ensures |cs| == ConstraintTarget(d)
    ensures Distinct(cs)
    ensures forall i :: 0 <= i < |cs| ==> IsCandidate(sol, cs[i])
  {
    var target := ConstraintTarget(d);
    var pool := CandidatePool(sol);
    var shuffled;
    shuffled, rest := Shuffling.Shuffle(pool, draws);
    DistinctPermutation(pool, shuffled);
    cs := [];
    for i := 0 to Min(target, |shuffled|)
      invariant cs == shuffled[..i]
    {
      cs := cs + [shuffled[i]];
    }
    forall i | 0 <= i < |cs|
      ensures IsCandidate(sol, cs[i])
    {
      PermutationMember(pool, shuffled, i);
    }
  }

  /** Constraints read off a board hold on it. */
  lemma CandidatesSatisfied(sol: seq<Sym>, cs: seq<Constraint>)
    requires IsBoard(sol)
    requires forall i :: 0 <= i < |cs| ==> IsCandidate(sol, cs[i])
    ensures AllSatisfied(sol, cs)
  {
  }

  /**
   * On a solved board, under constraints it satisfies, the validator accepts
   * every cell's own symbol as a move.
   */
  lemma SolvedBoardPassesValidator(sol: seq<Sym>, cs: seq<Constraint>, row: int, col: int)
    requires IsSolvedGrid(sol) && AllSatisfied(sol, cs) && InGrid(row, col)
    ensures ValidMove(sol, row, col, At(sol, row, col), cs)
  {
    SubGridPlacementOK(sol, sol, row, col, cs);
    PlacementAgreesWithValidator(sol, row, col, cs);
  }

  // ---------------------------------------------------------------------------
  // The placement check of the solution search

  /**
   * The check made by the solution search on the symbol just placed at
   * (row, col): no run of three through it (counting only filled neighbours),
   * at most three of the symbol in its row and in its column, and every
   * constraint at the cell respected.
   */
  predicate PlacementOK(g: seq<Sym>, row: int, col: int, cs: seq<Constraint>)
    requires IsBoard(g) && InGrid(row, col)
  {
    var s := At(g, row, col);
    && NoRunThrough(g, row, col)
    && RowCount(g, row, s, -1, Size) <= 3
    && ColCount(g, col, s, -1, Size) <= 3
    && ConstraintsAllow(g, row, col, s, cs)
  }

  method IsValidPlacementWithConstraints(g: seq<Sym>, row: int, col: int, cs: seq<Constraint>) returns (ok: bool)
    requires IsBoard(g) && InGrid(row, col)
    ensures ok <==> PlacementOK(g, row, col, cs)
  {
    var s := At(g, row, col);
    if col >= 2 && At(g, row, col - 1) == s && At(g, row, col - 2) == s {
      return false;
    }
    if 1 <= col < Size - 1 && At(g, row, col - 1) == s && At(g, row, col + 1) == s && At(g, row, col + 1) != Empty {
      return false;
    }
    if col < Size - 2 && At(g, row, col + 1) == s && At(g, row, col + 2) == s
       && At(g, row, col + 1) != Empty && At(g, row, col + 2) != Empty {
      return false;
    }
    if row >= 2 && At(g, row - 1, col) == s && At(g, row - 2, col) == s {
      return false;
    }
    if 1 <= row < Size - 1 && At(g, row - 1, col) == s && At(g, row + 1, col) == s && At(g, row + 1, col) != Empty {
      return false;
    }
    if row < Size - 2 && At(g, row + 1, col) == s && At(g, row + 2, col) == s
       && At(g, row + 1, col) != Empty && At(g, row + 2, col) != Empty {
      return false;
    }
    if RowCount(g, row, s, -1, Size) > 3 {
      return false;
    }
    if ColCount(g, col, s, -1, Size) > 3 {
      return false;
    }
    ok := CheckConstraints(g, row, col, s, cs);
  }

  /**
   * For a filled cell, the search's placement check and the player's move
   * check are the same rule.
   */
  lemma PlacementAgreesWithValidator(g: seq<Sym>, row: int, col: int, cs: seq<Constraint>)
    requires IsBoard(g) && InGrid(row, col) && At(g, row, col) != Empty
    ensures PlacementOK(g, row, col, cs) <==> ValidMove(g, row, col, At(g, row, col), cs)
  {
    var s := At(g, row, col);
    RowCountSkip(g, row, s, col, Size);
    ColCountSkip(g, col, s, row, Size);
  }

  /** The run conditions of the placement check, on their own. */
  predicate NoRunThrough(g: seq<Sym>, row: int, col: int)
    requires IsBoard(g) && InGrid(row, col)
  {
    var s := At(g, row, col);
    && !(col >= 2 && At(g, row, col - 1) == s && At(g, row, col - 2) == s)
    && !(1 <= col < Size - 1 && At(g, row, col - 1) == s && At(g, row, col + 1) == s && At(g, row, col + 1) != Empty)
    && !(col < Size - 2 && At(g, row, col + 1) == s && At(g, row, col + 2) == s
         && At(g, row, col + 1) != Empty && At(g, row, col + 2) != Empty)
    && !(row >= 2 && At(g, row - 1, col) == s && At(g, row - 2, col) == s)
    && !(1 <= row < Size - 1 && At(g, row - 1, col) == s && At(g, row + 1, col) == s && At(g, row + 1, col) != Empty)
    && !(row < Size - 2 && At(g, row + 1, col) == s && At(g, row + 2, col) == s
         && At(g, row + 1, col) != Empty && At(g, row + 2, col) != Empty)
  }

  lemma SubGridCell(h: seq<Sym>, x: seq<Sym>, r: int, c: int)
    requires IsBoard(x) && SubGrid(h, x) && InGrid(r, c) && At(h, r, c) != Empty
    ensures At(h, r, c) == At(x, r, c)
  {
    IdxInRange(r, c);
  }

  lemma SubGridRuns(h: seq<Sym>, x: seq<Sym>, row: int, col: int)
    requires IsSolvedGrid(x)
    requires IsBoard(h) && SubGrid(h, x) && InGrid(row, col) && At(h, row, col) == At(x, row, col)
    ensures NoRunThrough(h, row, col)
  {
    var s := At(h, row, col);
    IdxInRange(row, col);
    forall r, c | InGrid(r, c) && At(h, r, c) == s
      ensures At(x, r, c) == s
    {
      SubGridCell(h, x, r, c);
    }
    if col >= 2 {
      assert !(At(x, row, col - 2) == At(x, row, col - 1) && At(x, row, col - 1) == At(x, row, col));
    }
    if 1 <= col < Size - 1 {
      assert !(At(x, row, col - 1) == At(x, row, col) && At(x, row, col) == At(x, row, col + 1));
    }
    if col < Size - 2 {
      assert !(At(x, row, col) == At(x, row, col + 1) && At(x, row, col + 1) == At(x, row, col + 2));
    }
    if row >= 2 {
      assert !(At(x, row - 2, col) == At(x, row - 1, col) && At(x, row - 1, col) == At(x, row, col));
    }
    if 1 <= row < Size - 1 {
      assert !(At(x, row - 1, col) == At(x, row, col) && At(x, row, col) == At(x, row + 1, col));
    }
    if row < Size - 2 {
      assert !(At(x, row, col) == At(x, row + 1, col) && At(x, row + 1, col) == At(x, row + 2, col));
    }
  }

  lemma SubGridCounts(h: seq<Sym>, x: seq<Sym>, row: int, col: int)
    requires IsSolvedGrid(x)
    requires IsBoard(h) && SubGrid(h, x) && InGrid(row, col) && At(h, row, col) == At(x, row, col)
    ensures RowCount(h, row, At(h, row, col), -1, Size) <= 3
    ensures ColCount(h, col, At(h, row, col), -1, Size) <= 3
  {
    var s := At(h, row, col);
    IdxInRange(row, col);
    RowCountSubGrid(h, x, row, s, -1, Size);
    ColCountSubGrid(h, x, col, s, -1, Size);
    assert RowCount(x, row, s, -1, Size) == 3;
    assert ColCount(x, col, s, -1, Size) == 3;
  }

  lemma SubGridConstraints(h: seq<Sym>, x: seq<Sym>, row: int, col: int, cs: seq<Constraint>)
    requires IsBoard(x) && AllSatisfied(x, cs)
    requires IsBoard(h) && SubGrid(h, x) && InGrid(row, col) && At(h, row, col) == At(x, row, col)
    ensures ConstraintsAllow(h, row, col, At(h, row, col), cs)
  {
    var s := At(h, row, col);
    forall r, c | InGrid(r, c) && At(h, r, c) != Empty
      ensures At(h, r, c) == At(x, r, c)
    {
      SubGridCell(h, x, r, c);
    }
    forall i | 0 <= i < |cs|
      ensures ConstraintAllows(h, row, col, s, cs[i])
    {
      assert Satisfied(x, cs[i]);
    }
  }

  /**
   * A symbol placed on a board that a solved board x extends, copying x's
   * symbol, passes the placement check.
   */
  lemma SubGridPlacementOK(h: seq<Sym>, x: seq<Sym>, row: int, col: int, cs: seq<Constraint>)
    requires IsSolvedGrid(x) && AllSatisfied(x, cs)
    requires IsBoard(h) && SubGrid(h, x) && InGrid(row, col) && At(h, row, col) == At(x, row, col)
    ensures PlacementOK(h, row, col, cs)
  {
    SubGridRuns(h, x, row, col);
    SubGridCounts(h, x, row, col);
    SubGridConstraints(h, x, row, col, cs);
  }

  // ---------------------------------------------------------------------------
  // The solution search

  const Symbols: seq<Sym> := [Sun, Moon]

  /** Index of the first empty cell in row-major order, or the length when there is none. */
  function FirstEmpty(g: seq<Sym>): (k: nat)
    ensures k <= |g|
    ensures k < |g| ==> g[k] == Empty
    ensures forall i :: 0 <= i < k ==> g[i] != Empty
  {
    if |g| == 0 then 0 else if g[0] == Empty then 0 else 1 + FirstEmpty(g[1..])
  }

  function CountEmpty(g: seq<Sym>): nat
  {
    multiset(g)[Empty]
  }

  lemma FillOneLowersCount(g: seq<Sym>, k: int, v: Sym)
    requires 0 <= k < |g| && g[k] == Empty && v != Empty
    ensures CountEmpty(g[k := v]) == CountEmpty(g) - 1
  {
  }

  /**
   * The completed boards the search reaches from g, in order: none left to
   * fill gives g itself; otherwise the first empty cell takes each symbol in
   * turn and the search goes on wherever the placement check passes.
   */
  ghost function Enum(g: seq<Sym>, cs: seq<Constraint>): seq<seq<Sym>>
    requires IsBoard(g)
    decreases CountEmpty(g), 3
  {
    var k := FirstEmpty(g);
    if k == Cells then [g] else Branches(g, k, cs, |Symbols|)
  }

  /** What the search finds from g after trying the first n symbols at cell k. */
  ghost function Branches(g: seq<Sym>, k: int, cs: seq<Constraint>, n: nat): seq<seq<Sym>>
    requires IsBoard(g) && 0 <= k < Cells && g[k] == Empty && n <= |Symbols|
    decreases CountEmpty(g), n
  {
    if n == 0 then []
    else
      var h := g[k := Symbols[n - 1]];
      FillOneLowersCount(g, k, Symbols[n - 1]);
      IdxInverse(k);
      Branches(g, k, cs, n - 1) + (if PlacementOK(h, RowOf(k), ColOf(k), cs) then Enum(h, cs) else [])
  }

  /** One more symbol tried at cell k adds what the search finds from there. */
  lemma BranchesStep(g: seq<Sym>, k: int, cs: seq<Constraint>, n: nat)
    requires IsBoard(g) && 0 <= k < Cells && g[k] == Empty && n < |Symbols|
    ensures InGrid(RowOf(k), ColOf(k))
    ensures Branches(g, k, cs, n + 1) == Branches(g, k, cs, n)
      + (if PlacementOK(g[k := Symbols[n]], RowOf(k), ColOf(k), cs) then Enum(g[k := Symbols[n]], cs) else [])
  {
    IdxInverse(k);
  }

  /** The search step for the n-th symbol, given whether it passed the placement check. */
  lemma BranchesNext(g: seq<Sym>, k: int, cs: seq<Constraint>, n: nat, valid: bool)
    requires IsBoard(g) && 0 <= k < Cells && g[k] == Empty && n < |Symbols|
    requires InGrid(RowOf(k), ColOf(k))
    requires valid == PlacementOK(g[k := Symbols[n]], RowOf(k), ColOf(k), cs)
    ensures valid ==> Branches(g, k, cs, n + 1) == Branches(g, k, cs, n) + Enum(g[k := Symbols[n]], cs)
    ensures !valid ==> Branches(g, k, cs, n + 1) == Branches(g, k, cs, n)
  {
    BranchesStep(g, k, cs, n);
    if !valid {
      assert Branches(g, k, cs, n + 1) == Branches(g, k, cs, n) + [];
    }
  }

  /** Every board the search reaches is full and keeps every symbol of g. */
  lemma {:induction false} EnumSound(g: seq<Sym>, cs: seq<Constraint>)
    requires IsBoard(g)
    decreases CountEmpty(g), 3
    ensures forall x :: x in Enum(g, cs) ==> IsBoard(x) && Filled(x) && SubGrid(g, x)
  {
    var k := FirstEmpty(g);
    if k < Cells {
      BranchesSound(g, k, cs, |Symbols|);
    }
  }

  lemma {:induction false} BranchesSound(g: seq<Sym>, k: int, cs: seq<Constraint>, n: nat)
    requires IsBoard(g) && 0 <= k < Cells && g[k] == Empty && n <= |Symbols|
    decreases CountEmpty(g), n
    ensures forall x :: x in Branches(g, k, cs, n) ==> IsBoard(x) && Filled(x) && SubGrid(g, x)
  {
    if n > 0 {
      var h := g[k := Symbols[n - 1]];
      FillOneLowersCount(g, k, Symbols[n - 1]);
      BranchesSound(g, k, cs, n - 1);
      EnumSound(h, cs);
    }
  }

  /** A board extending g that is solved and meets every constraint is reached by the search. */
  predicate ValidCompletion(g: seq<Sym>, cs: seq<Constraint>, x: seq<Sym>)
  {
    IsSolvedGrid(x) && AllSatisfied(x, cs) && SubGrid(g, x)
  }

  lemma {:induction false} EnumComplete(g: seq<Sym>, cs: seq<Constraint>, x: seq<Sym>)
    requires IsBoard(g) && ValidCompletion(g, cs, x)
    decreases CountEmpty(g)
    ensures x in Enum(g, cs)
  {
    var k := FirstEmpty(g);
    if k == Cells {
      assert g == x;
    } else {
      IdxInverse(k);
      var n := if x[k] == Sun then 1 else 2;
      assert Symbols[n - 1] == x[k];
      var h := g[k := x[k]];
      FillOneLowersCount(g, k, x[k]);
      SubGridPlacementOK(h, x, RowOf(k), ColOf(k), cs);
      EnumComplete(h, cs, x);
      assert x in Branches(g, k, cs, n);
      if n == 1 {
        assert Branches(g, k, cs, 2) == Branches(g, k, cs, 1) + (
          var h2 := g[k := Symbols[1]];
          if PlacementOK(h2, RowOf(k), ColOf(k), cs) then Enum(h2, cs) else []);
      }
    }
  }

  lemma EnumOfFullBoard(g: seq<Sym>, cs: seq<Constraint>)
    requires IsBoard(g) && Filled(g)
    ensures Enum(g, cs) == [g]
  {
    assert FirstEmpty(g) == Cells;
  }

  /**
   * When the search reaches exactly one board from a puzzle carved out of a
   * solution, that solution is the only board that completes the puzzle.
   */
  lemma UniqueCompletion(puzzle: seq<Sym>, sol: seq<Sym>, cs: seq<Constraint>)
    requires IsBoard(puzzle) && ValidCompletion(puzzle, cs, sol) && |Enum(puzzle, cs)| == 1
    ensures Enum(puzzle, cs) == [sol]
    ensures forall x :: ValidCompletion(puzzle, cs, x) <==> x == sol
  {
    EnumComplete(puzzle, cs, sol);
    forall x | ValidCompletion(puzzle, cs, x)
      ensures x == sol
    {
      EnumComplete(puzzle, cs, x);
    }
  }

  // ---------------------------------------------------------------------------
  // What the search keeps true

  /** Constraint c holds between its two cells once both hold a symbol. */
  predicate SatisfiedSoFar(g: seq<Sym>, c: Constraint)
    requires IsBoard(g)
  {
    InGrid(c.row, c.col) && InGrid(Partner(c).row, Partner(c).col) &&
    At(g, c.row, c.col) != Empty && At(g, Partner(c).row, Partner(c).col) != Empty ==>
      Related(c.kind, At(g, c.row, c.col), At(g, Partner(c).row, Partner(c).col))
  }

  /**
   * A partly filled board breaking no rule among its filled cells: no three
   * equal symbols in a row or column, at most three of a symbol in any row
   * or column, and every constraint between two filled cells met.
   */
  predicate Consistent(g: seq<Sym>, cs: seq<Constraint>)
  {
    && IsBoard(g)
    && (forall r, c :: 0 <= r < Size && 0 <= c < Size - 2 ==>
          !(At(g, r, c) != Empty && At(g, r, c) == At(g, r, c + 1) && At(g, r, c + 1) == At(g, r, c + 2)))
    && (forall r, c :: 0 <= r < Size - 2 && 0 <= c < Size ==>
          !(At(g, r, c) != Empty && At(g, r, c) == At(g, r + 1, c) && At(g, r + 1, c) == At(g, r + 2, c)))
    && (forall r, v :: 0 <= r < Size ==> RowCount(g, r, v, -1, Size) <= 3 || v == Empty)
    && (forall c, v :: 0 <= c < Size ==> ColCount(g, c, v, -1, Size) <= 3 || v == Empty)
    && (forall i :: 0 <= i < |cs| ==> SatisfiedSoFar(g, cs[i]))
  }

  /** In a filled row or column every cell holds one of the two symbols. */
  lemma {:induction false} FilledRowCounts(g: seq<Sym>, r: int, n: int)
    requires IsBoard(g) && Filled(g) && 0 <= r < Size && 0 <= n <= Size
    ensures RowCount(g, r, Sun, -1, n) + RowCount(g, r, Moon, -1, n) == n
  {
    if n > 0 {
      FilledRowCounts(g, r, n - 1);
      IdxInRange(r, n - 1);
    }
  }

  lemma {:induction false} FilledColCounts(g: seq<Sym>, c: int, n: int)
    requires IsBoard(g) && Filled(g) && 0 <= c < Size && 0 <= n <= Size
    ensures ColCount(g, c, Sun, -1, n) + ColCount(g, c, Moon, -1, n) == n
  {
    if n > 0 {
      FilledColCounts(g, c, n - 1);
      IdxInRange(n - 1, c);
    }
  }

  /** A consistent board with no empty cell is solved and meets every constraint. */
  lemma ConsistentFilled(g: seq<Sym>, cs: seq<Constraint>)
    requires Consistent(g, cs) && Filled(g)
    ensures IsSolvedGrid(g) && AllSatisfied(g, cs)
  {
    forall r | 0 <= r < Size
      ensures RowCount(g, r, Sun, -1, Size) == 3 && RowCount(g, r, Moon, -1, Size) == 3
    {
      FilledRowCounts(g, r, Size);
      assert RowCount(g, r, Sun, -1, Size) <= 3 && RowCount(g, r, Moon, -1, Size) <= 3;
    }
    forall c | 0 <= c < Size
      ensures ColCount(g, c, Sun, -1, Size) == 3 && ColCount(g, c, Moon, -1, Size) == 3
    {
      FilledColCounts(g, c, Size);
      assert ColCount(g, c, Sun, -1, Size) <= 3 && ColCount(g, c, Moon, -1, Size) <= 3;
    }
    forall r, c | InGrid(r, c)
      ensures At(g, r, c) != Empty
    {
      IdxInRange(r, c);
    }
    forall i | 0 <= i < |cs|
      ensures Satisfied(g, cs[i])
    {
      assert SatisfiedSoFar(g, cs[i]);
    }
  }

  /** The board g with symbol v written at (row, col), cell by cell. */
  lemma PlaceAt(g: seq<Sym>, row: int, col: int, v: Sym)
    requires IsBoard(g) && InGrid(row, col)
    ensures 0 <= Idx(row, col) < Cells
    ensures forall r, c :: InGrid(r, c) ==>
      At(g[Idx(row, col) := v], r, c) == if r == row && c == col then v else At(g, r, c)
  {
    IdxInRange(row, col);
    forall r, c | InGrid(r, c) && (r != row || c != col)
      ensures At(g[Idx(row, col) := v], r, c) == At(g, r, c)
    {
      UpdateElsewhere(g, row, col, v, r, c);
    }
  }

  /** A count in the row of the new symbol only grows for that symbol. */
  lemma PlaceRowCount(g: seq<Sym>, row: int, col: int, v: Sym, r: int, w: Sym)
    requires IsBoard(g) && InGrid(row, col) && At(g, row, col) == Empty && 0 <= r < Size && w != v
    ensures RowCount(g[Idx(row, col) := v], r, w, -1, Size) <= RowCount(g, r, w, -1, Size)
  {
    PlaceAt(g, row, col, v);
    var h := g[Idx(row, col) := v];
    if r == row {
      RowCountSkip(g, r, w, col, Size);
      RowCountSkip(h, r, w, col, Size);
      RowCountAgree(g, h, r, w, col, Size);
    } else {
      RowCountAgree(g, h, r, w, -1, Size);
    }
  }

  lemma PlaceColCount(g: seq<Sym>, row: int, col: int, v: Sym, c: int, w: Sym)
    requires IsBoard(g) && InGrid(row, col) && At(g, row, col) == Empty && 0 <= c < Size && w != v
    ensures ColCount(g[Idx(row, col) := v], c, w, -1, Size) <= ColCount(g, c, w, -1, Size)
  {
    PlaceAt(g, row, col, v);
    var h := g[Idx(row, col) := v];
    if c == col {
      ColCountSkip(g, c, w, row, Size);
      ColCountSkip(h, c, w, row, Size);
      ColCountAgree(g, h, c, w, row, Size);
    } else {
      ColCountAgree(g, h, c, w, -1, Size);
    }
  }

  /** A symbol that passes the placement check keeps a consistent board consistent. */
  lemma PlaceKeepsConsistent(g: seq<Sym>, cs: seq<Constraint>, row: int, col: int, v: Sym)
    requires Consistent(g, cs) && InGrid(row, col) && At(g, row, col) == Empty && v != Empty
    requires IsBoard(g[Idx(row, col) := v]) && PlacementOK(g[Idx(row, col) := v], row, col, cs)
    ensures Consistent(g[Idx(row, col) := v], cs)
  {
    PlaceKeepsRuns(g, cs, row, col, v);
    PlaceKeepsCounts(g, cs, row, col, v, g[Idx(row, col) := v]);
    PlaceKeepsConstraints(g, cs, row, col, v);
  }

  lemma PlaceKeepsRuns(g: seq<Sym>, cs: seq<Constraint>, row: int, col: int, v: Sym)
    requires Consistent(g, cs) && InGrid(row, col) && At(g, row, col) == Empty && v != Empty
    requires IsBoard(g[Idx(row, col) := v]) && NoRunThrough(g[Idx(row, col) := v], row, col)
    ensures var h := g[Idx(row, col) := v];
      && (forall r, c :: 0 <= r < Size && 0 <= c < Size - 2 ==>
            !(At(h, r, c) != Empty && At(h, r, c) == At(h, r, c + 1) && At(h, r, c + 1) == At(h, r, c + 2)))
      && (forall r, c :: 0 <= r < Size - 2 && 0 <= c < Size ==>
            !(At(h, r, c) != Empty && At(h, r, c) == At(h, r + 1, c) && At(h, r + 1, c) == At(h, r + 2, c)))
  {
    PlaceAt(g, row, col, v);
    PlaceKeepsRowRuns(g, cs, row, col, v, g[Idx(row, col) := v]);
    PlaceKeepsColRuns(g, cs, row, col, v, g[Idx(row, col) := v]);
  }

  lemma PlaceKeepsRowRuns(g: seq<Sym>, cs: seq<Constraint>, row: int, col: int, v: Sym, h: seq<Sym>)
    requires Consistent(g, cs) && InGrid(row, col) && IsBoard(h) && NoRunThrough(h, row, col)
    requires forall r, c :: InGrid(r, c) ==> At(h, r, c) == if r == row && c == col then v else At(g, r, c)
    ensures forall r, c :: 0 <= r < Size && 0 <= c < Size - 2 ==>
      !(At(h, r, c) != Empty && At(h, r, c) == At(h, r, c + 1) && At(h, r, c + 1) == At(h, r, c + 2))
  {
    forall r, c | 0 <= r < Size && 0 <= c < Size - 2
      ensures !(At(h, r, c) != Empty && At(h, r, c) == At(h, r, c + 1) && At(h, r, c + 1) == At(h, r, c + 2))
    {
      if !(r == row && c <= col <= c + 2) {
        assert !(At(g, r, c) != Empty && At(g, r, c) == At(g, r, c + 1) && At(g, r, c + 1) == At(g, r, c + 2));
      }
    }
  }

  lemma PlaceKeepsColRuns(g: seq<Sym>, cs: seq<Constraint>, row: int, col: int, v: Sym, h: seq<Sym>)
    requires Consistent(g, cs) && InGrid(row, col) && IsBoard(h) && NoRunThrough(h, row, col)
    requires forall r, c :: InGrid(r, c) ==> At(h, r, c) == if r == row && c == col then v else At(g, r, c)
    ensures forall r, c :: 0 <= r < Size - 2 && 0 <= c < Size ==>
      !(At(h, r, c) != Empty && At(h, r, c) == At(h, r + 1, c) && At(h, r + 1, c) == At(h, r + 2, c))
  {
    forall r, c | 0 <= r < Size - 2 && 0 <= c < Size
      ensures !(At(h, r, c) != Empty && At(h, r, c) == At(h, r + 1, c) && At(h, r + 1, c) == At(h, r + 2, c))
    {
      if !(c == col && r <= row <= r + 2) {
        assert !(At(g, r, c) != Empty && At(g, r, c) == At(g, r + 1, c) && At(g, r + 1, c) == At(g, r + 2, c));
      }
    }
  }

  lemma PlaceKeepsCounts(g: seq<Sym>, cs: seq<Constraint>, row: int, col: int, v: Sym, h: seq<Sym>)
    requires Consistent(g, cs) && InGrid(row, col) && At(g, row, col) == Empty && v != Empty
    requires IsBoard(h) && h == g[Idx(row, col) := v]
    requires RowCount(h, row, v, -1, Size) <= 3 && ColCount(h, col, v, -1, Size) <= 3
    ensures forall r, w :: 0 <= r < Size ==> RowCount(h, r, w, -1, Size) <= 3 || w == Empty
    ensures forall c, w :: 0 <= c < Size ==> ColCount(h, c, w, -1, Size) <= 3 || w == Empty
  {
    PlaceAt(g, row, col, v);
    forall r, w | 0 <= r < Size && w != Empty
      ensures RowCount(h, r, w, -1, Size) <= 3
    {
      if w != v {
        PlaceRowCount(g, row, col, v, r, w);
        assert RowCount(g, r, w, -1, Size) <= 3;
      } else if r != row {
        RowCountAgree(g, h, r, w, -1, Size);
        assert RowCount(g, r, w, -1, Size) <= 3;
      }
    }
    forall c, w | 0 <= c < Size && w != Empty
      ensures ColCount(h, c, w, -1, Size) <= 3
    {
      if w != v {
        PlaceColCount(g, row, col, v, c, w);
        assert ColCount(g, c, w, -1, Size) <= 3;
      } else if c != col {
        ColCountAgree(g, h, c, w, -1, Size);
        assert ColCount(g, c, w, -1, Size) <= 3;
      }
    }
  }

  lemma PlaceKeepsConstraints(g: seq<Sym>, cs: seq<Constraint>, row: int, col: int, v: Sym)
    requires Consistent(g, cs) && InGrid(row, col) && At(g, row, col) == Empty && v != Empty
    requires IsBoard(g[Idx(row, col) := v]) && ConstraintsAllow(g[Idx(row, col) := v], row, col, v, cs)
    ensures forall i :: 0 <= i < |cs| ==> SatisfiedSoFar(g[Idx(row, col) := v], cs[i])
  {
    PlaceAt(g, row, col, v);
    var h := g[Idx(row, col) := v];
    forall i | 0 <= i < |cs|
      ensures SatisfiedSoFar(h, cs[i])
    {
      assert SatisfiedSoFar(g, cs[i]);
      assert ConstraintAllows(h, row, col, v, cs[i]);
    }
  }

  /** Every board the search reaches from a consistent board is a valid completion of it. */
  lemma {:induction false} EnumValid(g: seq<Sym>, cs: seq<Constraint>)
    requires Consistent(g, cs)
    decreases CountEmpty(g), 3
    ensures forall x :: x in Enum(g, cs) ==> ValidCompletion(g, cs, x)
  {
    var k := FirstEmpty(g);
    if k == Cells {
      ConsistentFilled(g, cs);
    } else {
      BranchesValid(g, k, cs, |Symbols|);
    }
  }

  lemma {:induction false} BranchesValid(g: seq<Sym>, k: int, cs: seq<Constraint>, n: nat)
    requires Consistent(g, cs) && 0 <= k < Cells && g[k] == Empty && n <= |Symbols|
    decreases CountEmpty(g), n
    ensures forall x :: x in Branches(g, k, cs, n) ==> ValidCompletion(g, cs, x)
  {
    if n > 0 {
      var h := g[k := Symbols[n - 1]];
      FillOneLowersCount(g, k, Symbols[n - 1]);
      IdxInverse(k);
      BranchesValid(g, k, cs, n - 1);
      if PlacementOK(h, RowOf(k), ColOf(k), cs) {
        PlaceKeepsConsistent(g, cs, RowOf(k), ColOf(k), Symbols[n - 1]);
        EnumValid(h, cs);
      }
    }
  }

  /** The search never reaches the same board twice. */
  lemma {:induction false} EnumDistinct(g: seq<Sym>, cs: seq<Constraint>)
    requires IsBoard(g)
    decreases CountEmpty(g), 3
    ensures Distinct(Enum(g, cs))
  {
    var k := FirstEmpty(g);
    if k < Cells {
      BranchesDistinct(g, k, cs, |Symbols|);
    }
  }

  /** The boards found after trying the first n symbols at cell k are distinct and hold one of them there. */
  lemma {:induction false} BranchesDistinct(g: seq<Sym>, k: int, cs: seq<Constraint>, n: nat)
    requires IsBoard(g) && 0 <= k < Cells && g[k] == Empty && n <= |Symbols|
    decreases CountEmpty(g), n
    ensures Distinct(Branches(g, k, cs, n))
    ensures forall x :: x in Branches(g, k, cs, n) ==> |x| == Cells && x[k] in Symbols[..n]
  {
    if n > 0 {
      var h := g[k := Symbols[n - 1]];
      FillOneLowersCount(g, k, Symbols[n - 1]);
      IdxInverse(k);
      BranchesDistinct(g, k, cs, n - 1);
      var a := Branches(g, k, cs, n - 1);
      var b := if PlacementOK(h, RowOf(k), ColOf(k), cs) then Enum(h, cs) else [];
      EnumDistinct(h, cs);
      EnumSound(h, cs);
      assert forall x :: x in b ==> x[k] == Symbols[n - 1];
      assert Symbols[n - 1] !in Symbols[..n - 1];
      DistinctConcat(a, b);
    }
  }

  /** A puzzle carved out of a valid completion is consistent. */
  lemma SubGridConsistent(puzzle: seq<Sym>, cs: seq<Constraint>, sol: seq<Sym>)
    requires IsBoard(puzzle) && ValidCompletion(puzzle, cs, sol)
    ensures Consistent(puzzle, cs)
  {
    forall r, c | InGrid(r, c) && At(puzzle, r, c) != Empty
      ensures At(puzzle, r, c) == At(sol, r, c)
    {
      SubGridCell(puzzle, sol, r, c);
    }
    forall r, w | 0 <= r < Size && w != Empty
      ensures RowCount(puzzle, r, w, -1, Size) <= 3
    {
      RowCountSubGrid(puzzle, sol, r, w, -1, Size);
    }
    forall c, w | 0 <= c < Size && w != Empty
      ensures ColCount(puzzle, c, w, -1, Size) <= 3
    {
      ColCountSubGrid(puzzle, sol, c, w, -1, Size);
    }
    forall i | 0 <= i < |cs|
      ensures SatisfiedSoFar(puzzle, cs[i])
    {
      assert Satisfied(sol, cs[i]);
    }
  }

  /**
   * For a puzzle carved out of a valid completion, the search's list holds
   * exactly the valid completions, and it has one entry exactly when the
   * solution is the only valid completion; otherwise some other board
   * completes it.
   */
  lemma SearchExact(puzzle: seq<Sym>, sol: seq<Sym>, cs: seq<Constraint>)
    requires IsBoard(puzzle) && ValidCompletion(puzzle, cs, sol)
    ensures forall x :: x in Enum(puzzle, cs) <==> ValidCompletion(puzzle, cs, x)
    ensures |Enum(puzzle, cs)| == 1 <==> forall x :: ValidCompletion(puzzle, cs, x) ==> x == sol
    ensures |Enum(puzzle, cs)| != 1 ==> exists x :: ValidCompletion(puzzle, cs, x) && x != sol
  {
    SubGridConsistent(puzzle, cs, sol);
    EnumValid(puzzle, cs);
    EnumDistinct(puzzle, cs);
    forall x | ValidCompletion(puzzle, cs, x)
      ensures x in Enum(puzzle, cs)
    {
      EnumComplete(puzzle, cs, x);
    }
    var e := Enum(puzzle, cs);
    if |e| != 1 {
      assert sol in e;
      assert e[0] != e[1];
      var other := if e[0] == sol then e[1] else e[0];
      assert ValidCompletion(puzzle, cs, other) && other != sol;
    }
  }

  /** The first empty cell, scanning row by row; (-1, -1) when the board is full. */
  method FindFirstEmpty(grid: array<Sym>) returns (emptyRow: int, emptyCol: int)
    requires grid.Length == Cells
    ensures emptyRow == -1 ==> emptyCol == -1 && FirstEmpty(grid[..]) == Cells
    ensures emptyRow != -1 ==> InGrid(emptyRow, emptyCol) && Idx(emptyRow, emptyCol) == FirstEmpty(grid[..])
  {
    for row := 0 to Size
      invariant forall i :: 0 <= i < Idx(row, 0) ==> grid[i] != Empty
    {
      for col := 0 to Size
        invariant forall i :: 0 <= i < Idx(row, col) ==> grid[i] != Empty
      {
        if grid[Idx(row, col)] == Empty {
          FirstEmptyUnique(grid[..], Idx(row, col));
          return row, col;
        }
      }
    }
    FirstEmptyUnique(grid[..], Cells);
    return -1, -1;
  }

  lemma FirstEmptyUnique(g: seq<Sym>, k: int)
    requires 0 <= k <= |g| && (k < |g| ==> g[k] == Empty) && forall i :: 0 <= i < k ==> g[i] != Empty
    ensures FirstEmpty(g) == k
  {
  }

  /**
   * Depth-first search for completions: appends to `solutions` the boards
   * `Enum` lists, stopping once `maxSolutions` are held, and leaves the grid
   * as it found it.
   */
  method CountSolutions(grid: array<Sym>, cs: seq<Constraint>, solutions: seq<seq<Sym>>, maxSolutions: int)
    returns (found: seq<seq<Sym>>)
    requires grid.Length == Cells
    modifies grid
    decreases CountEmpty(grid[..])
    ensures grid[..] == old(grid[..])
    ensures found == Capped(solutions, Enum(old(grid[..]), cs), maxSolutions)
  {
    if |solutions| >= maxSolutions {
      return solutions;
    }
    var emptyRow, emptyCol := FindFirstEmpty(grid);
    if emptyRow == -1 {
      return solutions + [grid[..]];
    }
    ghost var g := grid[..];
    var k := Idx(emptyRow, emptyCol);
    IdxInverse(k);
    assert RowOf(k) == emptyRow && ColOf(k) == emptyCol;
    found := solutions;
    for n := 0 to |Symbols|
      invariant grid[..] == g
      invariant found == Capped(solutions, Branches(g, k, cs, n), maxSolutions)
    {
      ghost var tried := Branches(g, k, cs, n);
      grid[k] := Symbols[n];
      assert grid[..] == g[k := Symbols[n]];
      var valid := IsValidPlacementWithConstraints(grid[..], emptyRow, emptyCol, cs);
      BranchesNext(g, k, cs, n, valid);
      if valid {
        FillOneLowersCount(g, k, Symbols[n]);
        found := CountSolutions(grid, cs, found, maxSolutions);
        CappedAppend(solutions, tried, Enum(g[k := Symbols[n]], cs), maxSolutions);
      }
      grid[k] := Empty;
      assert grid[..] == g;
    }
  }

  /** Searches a copy of the grid with room for two boards. */
  method HasUniqueSolution(grid: array<Sym>, cs: seq<Constraint>) returns (unique: bool)
    requires grid.Length == Cells
    ensures unique <==> |Enum(grid[..], cs)| == 1
  {
    var temp := new Sym[Cells](i reads grid requires 0 <= i < Cells => grid[i]);
    assert temp[..] == grid[..];
    var solutions := CountSolutions(temp, cs, [], 2);
    unique := |solutions| == 1;
  }

  // ---------------------------------------------------------------------------
  // Carving the puzzle

  /** The 36 positions in row-major order. */
  method AllPositions() returns (positions: seq<Pos>)
    ensures |positions| == Cells
    ensures Distinct(positions)
    ensures forall i :: 0 <= i < |positions| ==> InGrid(positions[i].row, positions[i].col)
    ensures forall r, c :: InGrid(r, c) ==> 0 <= Idx(r, c) < Cells && positions[Idx(r, c)] == Pos(r, c)
  {
    positions := [];
    for row := 0 to Size
      invariant |positions| == Idx(row, 0)
      invariant forall i :: 0 <= i < |positions| ==>
        InGrid(positions[i].row, positions[i].col) && Idx(positions[i].row, positions[i].col) == i
    {
      for col := 0 to Size
        invariant |positions| == Idx(row, col)
        invariant forall i :: 0 <= i < |positions| ==>
          InGrid(positions[i].row, positions[i].col) && Idx(positions[i].row, positions[i].col) == i
      {
        positions := positions + [Pos(row, col)];
      }
    }
    forall r, c | InGrid(r, c)
      ensures 0 <= Idx(r, c) < Cells && positions[Idx(r, c)] == Pos(r, c)
    {
      IdxInRange(r, c);
      IdxInjective(positions[Idx(r, c)].row, positions[Idx(r, c)].col, r, c);
    }
  }

  /** The positions in a random order. */
  method ShufflePositions(draws: seq<nat>) returns (shuffled: seq<Pos>, rest: seq<nat>)
    ensures |shuffled| == Cells && Distinct(shuffled)
    ensures forall i :: 0 <= i < |shuffled| ==> InGrid(shuffled[i].row, shuffled[i].col)
    ensures forall r, c :: InGrid(r, c) ==> Pos(r, c) in shuffled
  {
    var positions := AllPositions();
    shuffled, rest := Shuffling.Shuffle(positions, draws);
    DistinctPermutation(positions, shuffled);
    forall i | 0 <= i < |shuffled|
      ensures InGrid(shuffled[i].row, shuffled[i].col)
    {
      PermutationMember(positions, shuffled, i);
    }
    forall r, c | InGrid(r, c)
      ensures Pos(r, c) in shuffled
    {
      IdxInRange(r, c);
      assert positions[Idx(r, c)] in multiset(shuffled);
    }
  }

  /**
   * Empties the cell at p and keeps it empty only if the search still
   * reaches exactly one board; otherwise puts the old symbol back.
   */
  method TryRemove(grid: array<Sym>, p: Pos, cs: seq<Constraint>) returns (kept: bool)
    requires grid.Length == Cells && InGrid(p.row, p.col)
    modifies grid
    ensures kept ==> grid[..] == old(grid[..])[Idx(p.row, p.col) := Empty] && |Enum(grid[..], cs)| == 1
    ensures !kept ==> grid[..] == old(grid[..])
  {
    var k := Idx(p.row, p.col);
    IdxInRange(p.row, p.col);
    var backup := grid[k];
    grid[k] := Empty;
    kept := HasUniqueSolution(grid, cs);
    if !kept {
      grid[k] := backup;
      assert grid[..] == old(grid[..]);
    }
  }

  lemma EmptyOneRaisesCount(g: seq<Sym>, k: int)
    requires 0 <= k < |g| && g[k] != Empty
    ensures CountEmpty(g[k := Empty]) == CountEmpty(g) + 1
  {
  }

  /**
   * Empties cells of the solution in a random order, keeping each removal
   * only while the search still reaches exactly one board, until the
   * difficulty's number of removals is reached or every cell was tried.
   */
  method CreatePuzzle(solution: seq<Sym>, cs: seq<Constraint>, d: Difficulty, draws: seq<nat>)
    returns (puzzle: seq<Sym>, rest: seq<nat>)
    requires IsBoard(solution)
    ensures IsBoard(puzzle) && SubGrid(puzzle, solution)
    ensures Filled(solution) ==> CountEmpty(puzzle) <= RemovalTarget(d)
    ensures Filled(solution) ==> |Enum(puzzle, cs)| == 1
  {
    var grid := new Sym[Cells](i requires 0 <= i < Cells => solution[i]);
    assert grid[..] == solution;
    var target := RemovalTarget(d);
    var shuffled;
    shuffled, rest := ShufflePositions(draws);
    if Filled(solution) {
      EnumOfFullBoard(solution, cs);
    }
    var removed := 0;
    for n := 0 to |shuffled|
      invariant SubGrid(grid[..], solution)
      invariant removed <= target
      invariant Filled(solution) ==> CountEmpty(grid[..]) == removed
      invariant Filled(solution) ==> |Enum(grid[..], cs)| == 1
      invariant forall m :: n <= m < |shuffled| ==>
        grid[Idx(shuffled[m].row, shuffled[m].col)] == solution[Idx(shuffled[m].row, shuffled[m].col)]
    {
      if removed >= target {
        break;
      }
      var p := shuffled[n];
      ghost var k := Idx(p.row, p.col);
      IdxInRange(p.row, p.col);
      ghost var before := grid[..];
      forall m | n < m < |shuffled|
        ensures Idx(shuffled[m].row, shuffled[m].col) != k
      {
        if Idx(shuffled[m].row, shuffled[m].col) == k {
          IdxInjective(shuffled[m].row, shuffled[m].col, p.row, p.col);
        }
      }
      var kept := TryRemove(grid, p, cs);
      if kept {
        if Filled(solution) {
          EmptyOneRaisesCount(before, k);
        }
        removed := removed + 1;
      }
    }
    puzzle := grid[..];
  }

  /**
   * A complete game: a solution, constraints read off it, and a puzzle carved
   * from it. When the fill succeeds, the solution is the puzzle's only
   * completion that follows the rules and the constraints.
   */
  method Generate(d: Difficulty, draws: seq<nat>)
    returns (puzzle: seq<Sym>, solution: seq<Sym>, constraints: seq<Constraint>, rest: seq<nat>)
    ensures IsBoard(puzzle) && IsBoard(solution) && SubGrid(puzzle, solution)
    ensures |constraints| == ConstraintTarget(d) && Distinct(constraints)
    ensures forall i :: 0 <= i < |constraints| ==> IsCandidate(solution, constraints[i])
    ensures Filled(solution) ==> IsSolvedGrid(solution)
    ensures Filled(solution) ==> CountEmpty(puzzle) <= RemovalTarget(d)
    ensures Filled(solution) ==> forall x :: ValidCompletion(puzzle, constraints, x) <==> x == solution
  {
    solution, rest := GenerateCompleteGrid(draws);
    constraints, rest := GenerateConstraints(solution, d, rest);
    puzzle, rest := CreatePuzzle(solution, constraints, d, rest);
    if Filled(solution) {
      CandidatesSatisfied(solution, constraints);
      UniqueCompletion(puzzle, solution, constraints);
    }
  }
}
