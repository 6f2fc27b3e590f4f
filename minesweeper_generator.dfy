/**
 * Minesweeper board construction: the three configurations, the empty
 * grid, mine placement that keeps the 3x3 block around the first click
 * clear, and the adjacent-mine numbers.
 *
 * The grid the original mutates in place is passed in and the updated grid
 * returned. The random positions of the placement loop come from a stream
 * of draws, two per attempt, each reduced into the row or column range.
 */
module MinesweeperGenerator {
  import opened MinesweeperTypes
  import Shuffling

  function GetConfig(d: Difficulty): (cfg: Config)
    ensures d == Beginner ==> cfg == Config(9, 9, 10)
    ensures d == Intermediate ==> cfg == Config(16, 16, 40)
    ensures d == Expert ==> cfg == Config(16, 30, 99)
    ensures 0 < cfg.mines < cfg.rows * cfg.cols - 9
  {
    match d
    case Beginner => Config(9, 9, 10)
    case Intermediate => Config(16, 16, 40)
    case Expert => Config(16, 30, 99)
  }

  const EmptyCell: Cell := Cell(false, Hidden, 0)

  function CreateEmptyGrid(cfg: Config): (g: seq<seq<Cell>>)
    ensures Shaped(g, cfg.rows, cfg.cols)
    ensures forall r, c :: InBounds(cfg.rows, cfg.cols, r, c) ==> g[r][c] == EmptyCell
  {
    seq(cfg.rows, _ => seq(cfg.cols, _ => EmptyCell))
  }

  /** The empty grid has no mine and no revealed or flagged cell. */
  lemma EmptyGridCounts(cfg: Config)
    ensures GridCount(CreateEmptyGrid(cfg), IsMine) == 0
    ensures GridCount(CreateEmptyGrid(cfg), IsRevealed) == 0
    ensures GridCount(CreateEmptyGrid(cfg), IsFlagged) == 0
    ensures GridCount(CreateEmptyGrid(cfg), IsHidden) == cfg.rows * cfg.cols
  {
    var g := CreateEmptyGrid(cfg);
    GridCountNone(g, IsMine);
    GridCountNone(g, IsRevealed);
    GridCountNone(g, IsFlagged);
    AllHiddenCount(g, cfg.cols);
  }

  lemma {:induction false} AllHiddenCount(g: seq<seq<Cell>>, cols: nat)
    requires Shaped(g, |g|, cols) && forall r, c :: InBounds(|g|, cols, r, c) ==> g[r][c] == EmptyCell
    ensures GridCount(g, IsHidden) == |g| * cols
  {
    if g != [] {
      var last := |g| - 1;
      AllHiddenCount(g[..last], cols);
      AllHiddenRow(g[last]);
    }
  }

  lemma {:induction false} AllHiddenRow(row: seq<Cell>)
    requires forall c :: 0 <= c < |row| ==> row[c] == EmptyCell
    ensures RowCount(row, IsHidden) == |row|
  {
    if row != [] {
      AllHiddenRow(row[..|row| - 1]);
    }
  }

  /** The in-bounds cells of the 3x3 block centred on the first click. */
  predicate InSafeZone(cfg: Config, safeRow: int, safeCol: int, r: int, c: int)
  {
    InBounds(cfg.rows, cfg.cols, r, c) && -1 <= r - safeRow <= 1 && -1 <= c - safeCol <= 1
  }

  method ForbiddenZone(cfg: Config, safeRow: int, safeCol: int) returns (forbidden: set<Pos>)
    ensures forall p :: p in forbidden <==> InSafeZone(cfg, safeRow, safeCol, p.row, p.col)
  {
    forbidden := {};
    for dr := -1 to 2
      invariant forall p :: p in forbidden <==>
        InSafeZone(cfg, safeRow, safeCol, p.row, p.col) && p.row - safeRow < dr
    {
      for dc := -1 to 2
        invariant forall p :: p in forbidden <==>
          InSafeZone(cfg, safeRow, safeCol, p.row, p.col) &&
          (p.row - safeRow < dr || (p.row - safeRow == dr && p.col - safeCol < dc))
      {
        var r := safeRow + dr;
        var c := safeCol + dc;
        if r >= 0 && r < cfg.rows && c >= 0 && c < cfg.cols {
          forbidden := forbidden + {Pos(r, c)};
        }
      }
    }
  }

  // ---------------------------------------------------------------------------
  // Adjacent-mine numbers

  function MineAt(g: seq<seq<Cell>>, rows: int, cols: int, r: int, c: int): bool
    requires Shaped(g, rows, cols)
  {
    InBounds(rows, cols, r, c) && g[r][c].isMine
  }

  /** The neighbour offset with index k in 0..8, row-major; index 4 is the cell itself. */
  function OffsetRow(k: int): int
  {
    k / 3 - 1
  }

  function OffsetCol(k: int): int
  {
    k % 3 - 1
  }

  /** Mines at the first k offsets around (r, c), the centre not counted. */
  function OffsetMines(g: seq<seq<Cell>>, rows: int, cols: int, r: int, c: int, k: int): (n: nat)
    requires Shaped(g, rows, cols) && 0 <= k <= 9
    ensures n <= (if k > 4 then k - 1 else k)
  {
    if k == 0 then 0 else OffsetMines(g, rows, cols, r, c, k - 1) + OffsetMine(g, rows, cols, r, c, k - 1)
  }

  /** 1 when the neighbour at offset j is a mine, 0 otherwise and for the centre. */
  function OffsetMine(g: seq<seq<Cell>>, rows: int, cols: int, r: int, c: int, j: int): nat
    requires Shaped(g, rows, cols)
  {
    if j != 4 && MineAt(g, rows, cols, r + OffsetRow(j), c + OffsetCol(j)) then 1 else 0
  }

  /** Offset 3 * (dr + 1) + (dc + 1) is the neighbour (r + dr, c + dc). */
  lemma OffsetIndex(dr: int, dc: int)
    requires -1 <= dr <= 1 && -1 <= dc <= 1
    ensures OffsetRow(3 * dr + dc + 4) == dr && OffsetCol(3 * dr + dc + 4) == dc
    ensures 3 * dr + dc + 4 == 4 <==> dr == 0 && dc == 0
  {
    var k := 3 * dr + dc + 4;
    assert k == 3 * (dr + 1) + (dc + 1);
    assert 0 <= dc + 1 < 3;
  }

  /** How many of the at most eight in-bounds neighbours of (r, c) are mines. */
  function NeighbourMines(g: seq<seq<Cell>>, rows: int, cols: int, r: int, c: int): (n: nat)
    requires Shaped(g, rows, cols)
    ensures n <= 8
  {
    OffsetMines(g, rows, cols, r, c, 9)
  }

  lemma {:induction false} OffsetMinesZero(g: seq<seq<Cell>>, rows: int, cols: int, r: int, c: int, k: int)
    requires Shaped(g, rows, cols) && 0 <= k <= 9
    ensures OffsetMines(g, rows, cols, r, c, k) == 0 <==> forall j :: 0 <= j < k ==> OffsetMine(g, rows, cols, r, c, j) == 0
  {
    if k > 0 {
      OffsetMinesZero(g, rows, cols, r, c, k - 1);
    }
  }

  /** A cell counts no mine exactly when none of its neighbours is a mine. */
  lemma NeighbourMinesZero(g: seq<seq<Cell>>, rows: int, cols: int, r: int, c: int)
    requires Shaped(g, rows, cols)
    ensures NeighbourMines(g, rows, cols, r, c) == 0 <==>
      forall nr, nc :: Adjacent(r, c, nr, nc) ==> !MineAt(g, rows, cols, nr, nc)
  {
    OffsetMinesZero(g, rows, cols, r, c, 9);
    if NeighbourMines(g, rows, cols, r, c) == 0 {
      forall nr, nc | Adjacent(r, c, nr, nc)
        ensures !MineAt(g, rows, cols, nr, nc)
      {
        OffsetIndex(nr - r, nc - c);
        assert OffsetMine(g, rows, cols, r, c, 3 * (nr - r) + (nc - c) + 4) == 0;
      }
    } else {
      var j :| 0 <= j < 9 && OffsetMine(g, rows, cols, r, c, j) != 0;
      assert Adjacent(r, c, r + OffsetRow(j), c + OffsetCol(j));
    }
  }

  /** Grids with the same mines give every cell the same number. */
  lemma {:induction false} OffsetMinesAgree(g: seq<seq<Cell>>, h: seq<seq<Cell>>, rows: int, cols: int, r: int, c: int, k: int)
    requires Shaped(g, rows, cols) && Shaped(h, rows, cols) && 0 <= k <= 9
    requires forall i, j :: InBounds(rows, cols, i, j) ==> g[i][j].isMine == h[i][j].isMine
    ensures OffsetMines(g, rows, cols, r, c, k) == OffsetMines(h, rows, cols, r, c, k)
  {
    if k > 0 {
      OffsetMinesAgree(g, h, rows, cols, r, c, k - 1);
    }
  }

  /** Scanning offset (dr, dc) adds 1 exactly for a mine there other than the centre. */
  lemma OffsetStep(g: seq<seq<Cell>>, rows: int, cols: int, r: int, c: int, dr: int, dc: int)
    requires Shaped(g, rows, cols) && -1 <= dr <= 1 && -1 <= dc <= 1
    ensures OffsetMines(g, rows, cols, r, c, 3 * dr + dc + 5) == OffsetMines(g, rows, cols, r, c, 3 * dr + dc + 4) +
      (if (dr != 0 || dc != 0) && InBounds(rows, cols, r + dr, c + dc) && g[r + dr][c + dc].isMine then 1 else 0)
  {
    OffsetIndex(dr, dc);
  }

  /** The eight-neighbour scan for one cell. */
  method CountAdjacent(g: seq<seq<Cell>>, cfg: Config, r: int, c: int) returns (count: int)
    requires Shaped(g, cfg.rows, cfg.cols)
    ensures count == NeighbourMines(g, cfg.rows, cfg.cols, r, c)
  {
    count := 0;
    for dr := -1 to 2
      invariant count == OffsetMines(g, cfg.rows, cfg.cols, r, c, 3 * dr + 3)
    {
      for dc := -1 to 2
        invariant count == OffsetMines(g, cfg.rows, cfg.cols, r, c, 3 * dr + dc + 4)
      {
        OffsetStep(g, cfg.rows, cfg.cols, r, c, dr, dc);
        if dr == 0 && dc == 0 {
          continue;
        }
        var nr := r + dr;
        var nc := c + dc;
        if nr >= 0 && nr < cfg.rows && nc >= 0 && nc < cfg.cols && g[nr][nc].isMine {
          count := count + 1;
        }
      }
    }
  }

  /** What the numbering pass gives a cell: mines keep their number, others count their mine neighbours. */
  predicate Numbered(grid: seq<seq<Cell>>, g: seq<seq<Cell>>, cfg: Config, r: int, c: int)
    requires Shaped(grid, cfg.rows, cfg.cols) && Shaped(g, cfg.rows, cfg.cols) && InBounds(cfg.rows, cfg.cols, r, c)
  {
    && g[r][c].isMine == grid[r][c].isMine
    && g[r][c].state == grid[r][c].state
    && g[r][c].adjacentMines == (if grid[r][c].isMine then grid[r][c].adjacentMines
                                 else NeighbourMines(grid, cfg.rows, cfg.cols, r, c))
  }

  /**
   * Writes into every non-mine cell the number of mines around it; mine
   * cells and all cell states are left as they are.
   */
  method CalculateAdjacentMines(grid: seq<seq<Cell>>, cfg: Config) returns (g: seq<seq<Cell>>)
    requires Shaped(grid, cfg.rows, cfg.cols)
    ensures Shaped(g, cfg.rows, cfg.cols)
    ensures forall r, c :: InBounds(cfg.rows, cfg.cols, r, c) ==> Numbered(grid, g, cfg, r, c)
  {
    g := grid;
    for r := 0 to cfg.rows
      invariant Shaped(g, cfg.rows, cfg.cols)
      invariant forall i, j :: InBounds(cfg.rows, cfg.cols, i, j) && i < r ==> Numbered(grid, g, cfg, i, j)
      invariant forall i, j :: InBounds(cfg.rows, cfg.cols, i, j) && i >= r ==> g[i][j] == grid[i][j]
    {
      for c := 0 to cfg.cols
        invariant Shaped(g, cfg.rows, cfg.cols)
        invariant forall i, j :: InBounds(cfg.rows, cfg.cols, i, j) && (i < r || (i == r && j < c)) ==> Numbered(grid, g, cfg, i, j)
        invariant forall i, j :: InBounds(cfg.rows, cfg.cols, i, j) && (i > r || (i == r && j >= c)) ==> g[i][j] == grid[i][j]
      {
        if g[r][c].isMine {
          continue;
        }
        var count := CountAdjacent(g, cfg, r, c);
        MinesAgree(g, grid, cfg.rows, cfg.cols);
        OffsetMinesAgree(g, grid, cfg.rows, cfg.cols, r, c, 9);
        g := Update(g, r, c, g[r][c].(adjacentMines := count));
      }
    }
  }

  /** Numbering never changes where the mines are. */
  lemma MinesAgree(g: seq<seq<Cell>>, grid: seq<seq<Cell>>, rows: int, cols: int)
    requires Shaped(g, rows, cols) && Shaped(grid, rows, cols)
    requires forall i, j :: InBounds(rows, cols, i, j) ==> g[i][j].isMine == grid[i][j].isMine
    ensures GridCount(g, IsMine) == GridCount(grid, IsMine)
  {
    GridCountMono(g, grid, IsMine);
    GridCountMono(grid, g, IsMine);
  }

  // ---------------------------------------------------------------------------
  // Mine placement

  /**
   * Draws positions and turns each into a mine unless it lies in the safe
   * zone or already holds one, until `mines` mines were placed or the draws
   * run out; then numbers the grid.
   */
  method PlaceMines(grid: seq<seq<Cell>>, cfg: Config, safeRow: int, safeCol: int, draws: seq<nat>)
    returns (g: seq<seq<Cell>>, rest: seq<nat>)
    requires Shaped(grid, cfg.rows, cfg.cols) && cfg.rows > 0 && cfg.cols > 0
    ensures Shaped(g, cfg.rows, cfg.cols)
    ensures forall r, c :: InBounds(cfg.rows, cfg.cols, r, c) ==> g[r][c].state == grid[r][c].state
    ensures forall r, c :: InBounds(cfg.rows, cfg.cols, r, c) && grid[r][c].isMine ==> g[r][c].isMine
    ensures forall r, c :: InSafeZone(cfg, safeRow, safeCol, r, c) ==> g[r][c].isMine == grid[r][c].isMine
    ensures GridCount(g, IsMine) <= GridCount(grid, IsMine) + cfg.mines
    ensures rest != [] ==> GridCount(g, IsMine) == GridCount(grid, IsMine) + cfg.mines
    ensures forall r, c :: InBounds(cfg.rows, cfg.cols, r, c) ==>
      g[r][c].adjacentMines == if g[r][c].isMine then grid[r][c].adjacentMines else NeighbourMines(g, cfg.rows, cfg.cols, r, c)
  {
    var forbidden := ForbiddenZone(cfg, safeRow, safeCol);
    var mined, placed;
    mined, placed, rest := DrawMines(grid, cfg, forbidden, draws);
    g := CalculateAdjacentMines(mined, cfg);
    MinesAgree(g, mined, cfg.rows, cfg.cols);
    forall r, c | InBounds(cfg.rows, cfg.cols, r, c)
      ensures !g[r][c].isMine ==> g[r][c].adjacentMines == NeighbourMines(g, cfg.rows, cfg.cols, r, c)
    {
      assert Numbered(mined, g, cfg, r, c);
      OffsetMinesAgree(g, mined, cfg.rows, cfg.cols, r, c, 9);
    }
  }

  /** The placement loop, with its counter of placed mines. */
  method DrawMines(grid: seq<seq<Cell>>, cfg: Config, forbidden: set<Pos>, draws: seq<nat>)
    returns (g: seq<seq<Cell>>, placed: int, rest: seq<nat>)
    requires Shaped(grid, cfg.rows, cfg.cols) && cfg.rows > 0 && cfg.cols > 0
    ensures Shaped(g, cfg.rows, cfg.cols)
    ensures 0 <= placed <= cfg.mines && (rest != [] ==> placed == cfg.mines)
    ensures GridCount(g, IsMine) == GridCount(grid, IsMine) + placed
    ensures forall r, c :: InBounds(cfg.rows, cfg.cols, r, c) ==>
      g[r][c] == grid[r][c] || (!grid[r][c].isMine && Pos(r, c) !in forbidden && g[r][c] == grid[r][c].(isMine := true))
  {
    g := grid;
    placed := 0;
    rest := draws;
    while placed < cfg.mines && rest != []
      invariant Shaped(g, cfg.rows, cfg.cols)
      invariant 0 <= placed <= cfg.mines
      invariant GridCount(g, IsMine) == GridCount(grid, IsMine) + placed
      invariant forall r, c :: InBounds(cfg.rows, cfg.cols, r, c) ==>
        g[r][c] == grid[r][c] || (!grid[r][c].isMine && Pos(r, c) !in forbidden && g[r][c] == grid[r][c].(isMine := true))
      decreases |rest|
    {
      var r := Shuffling.Head(rest) % cfg.rows;
      rest := Shuffling.Tail(rest);
      var c := Shuffling.Head(rest) % cfg.cols;
      rest := Shuffling.Tail(rest);
      if Pos(r, c) !in forbidden && !g[r][c].isMine {
        GridCountUpdate(g, r, c, g[r][c].(isMine := true), IsMine);
        g := Update(g, r, c, g[r][c].(isMine := true));
        placed := placed + 1;
      }
    }
  }

  /** The first click lies in its own safe zone, so placement never puts a mine under it. */
  lemma FirstClickSafe(cfg: Config, row: int, col: int)
    requires InBounds(cfg.rows, cfg.cols, row, col)
    ensures InSafeZone(cfg, row, col, row, col)
  {
  }
}
