/**
 * The Minesweeper game state and its moves: revealing a cell (placing the
 * mines on the first reveal), the flood reveal from cells with no adjacent
 * mine, flagging, losing on a mine and winning once every safe cell is
 * revealed.
 *
 * The game keeps its grid as a value that each move replaces. Timers,
 * saving, statistics and the UI selection are not modelled; the random
 * mine positions come from a stream of draws handed to the first reveal.
 */
module MinesweeperStore {
  import opened MinesweeperTypes
  import opened MinesweeperGenerator

  /** Every non-mine cell shows the number of mines around it. */
  ghost predicate Numbers(g: seq<seq<Cell>>, rows: int, cols: int)
    requires Shaped(g, rows, cols)
  {
    forall r, c :: InBounds(rows, cols, r, c) && !g[r][c].isMine ==> g[r][c].adjacentMines == NeighbourMines(g, rows, cols, r, c)
  }

  /** No mine has been placed and nothing has been revealed. */
  ghost predicate Untouched(g: seq<seq<Cell>>, rows: int, cols: int)
    requires Shaped(g, rows, cols)
  {
    forall r, c :: InBounds(rows, cols, r, c) ==> !g[r][c].isMine && g[r][c].state != Revealed
  }

  /** No mine is shown. */
  ghost predicate NoMineShown(g: seq<seq<Cell>>, rows: int, cols: int)
    requires Shaped(g, rows, cols)
  {
    forall r, c :: InBounds(rows, cols, r, c) && g[r][c].isMine ==> g[r][c].state != Revealed
  }

  /** h has g's mines and numbers; only cell states may differ. */
  ghost predicate SameLayout(g: seq<seq<Cell>>, h: seq<seq<Cell>>, rows: int, cols: int)
    requires Shaped(g, rows, cols) && Shaped(h, rows, cols)
  {
    forall r, c :: InBounds(rows, cols, r, c) ==>
      h[r][c].isMine == g[r][c].isMine && h[r][c].adjacentMines == g[r][c].adjacentMines
  }

  lemma LayoutKeepsNumbers(g: seq<seq<Cell>>, h: seq<seq<Cell>>, rows: int, cols: int)
    requires Shaped(g, rows, cols) && Shaped(h, rows, cols) && SameLayout(g, h, rows, cols)
    requires Numbers(g, rows, cols)
    ensures Numbers(h, rows, cols)
  {
    forall r, c | InBounds(rows, cols, r, c) && !h[r][c].isMine
      ensures h[r][c].adjacentMines == NeighbourMines(h, rows, cols, r, c)
    {
      OffsetMinesAgree(g, h, rows, cols, r, c, 9);
    }
  }

  lemma SameLayoutTrans(g: seq<seq<Cell>>, h: seq<seq<Cell>>, k: seq<seq<Cell>>, rows: int, cols: int)
    requires Shaped(g, rows, cols) && Shaped(h, rows, cols) && Shaped(k, rows, cols)
    requires SameLayout(g, h, rows, cols) && SameLayout(h, k, rows, cols)
    ensures SameLayout(g, k, rows, cols)
  {
  }

  /** Grids with the same layout hold the same number of mines. */
  lemma LayoutMineCount(g: seq<seq<Cell>>, h: seq<seq<Cell>>, rows: int, cols: int)
    requires Shaped(g, rows, cols) && Shaped(h, rows, cols) && SameLayout(g, h, rows, cols)
    ensures GridCount(g, IsMine) == GridCount(h, IsMine)
  {
    GridCountMono(g, h, IsMine);
    GridCountMono(h, g, IsMine);
  }

  /** Two grids of the same shape with the same cells are equal. */
  lemma GridExt(g: seq<seq<Cell>>, h: seq<seq<Cell>>, rows: int, cols: int)
    requires Shaped(g, rows, cols) && Shaped(h, rows, cols)
    requires forall r, c :: InBounds(rows, cols, r, c) ==> g[r][c] == h[r][c]
    ensures g == h
  {
    forall r | 0 <= r < rows
      ensures g[r] == h[r]
    {
      assert forall c :: 0 <= c < cols ==> g[r][c] == h[r][c];
    }
  }

  // ---------------------------------------------------------------------------
  // Flood reveal

  /** h is g with some hidden non-mine cells revealed, and nothing else changed. */
  ghost predicate Grows(g: seq<seq<Cell>>, h: seq<seq<Cell>>, rows: int, cols: int)
  {
    Shaped(g, rows, cols) && Shaped(h, rows, cols) &&
    forall r, c :: InBounds(rows, cols, r, c) ==>
      h[r][c] == g[r][c] || (g[r][c].state == Hidden && !g[r][c].isMine && h[r][c] == g[r][c].(state := Revealed))
  }

  lemma GrowsTrans(g: seq<seq<Cell>>, h: seq<seq<Cell>>, k: seq<seq<Cell>>, rows: int, cols: int)
    requires Grows(g, h, rows, cols) && Grows(h, k, rows, cols)
    ensures Grows(g, k, rows, cols)
  {
  }

  /** Revealing cells never adds a hidden cell. */
  lemma GrowsHidden(g: seq<seq<Cell>>, h: seq<seq<Cell>>, rows: int, cols: int)
    requires Grows(g, h, rows, cols)
    ensures GridCount(h, IsHidden) <= GridCount(g, IsHidden)
    ensures SameLayout(g, h, rows, cols)
  {
    GridCountMono(g, h, IsHidden);
  }

  /** The neighbour (nr, nc) can no longer be opened: it is shown, flagged or a mine. */
  ghost predicate Blocked(h: seq<seq<Cell>>, rows: int, cols: int, nr: int, nc: int)
    requires Shaped(h, rows, cols) && InBounds(rows, cols, nr, nc)
  {
    h[nr][nc].state != Hidden || h[nr][nc].isMine
  }

  /** Every in-bounds neighbour of (r, c) scanned before offset (dr, dc) is blocked. */
  ghost predicate ClosedBefore(h: seq<seq<Cell>>, rows: int, cols: int, r: int, c: int, dr: int, dc: int)
    requires Shaped(h, rows, cols)
  {
    forall nr, nc ::
      (InBounds(rows, cols, nr, nc) && Adjacent(r, c, nr, nc) && (nr - r < dr || (nr - r == dr && nc - c < dc))) ==>
      Blocked(h, rows, cols, nr, nc)
  }

  /** Every in-bounds neighbour of (r, c) is blocked. */
  ghost predicate Opened(h: seq<seq<Cell>>, rows: int, cols: int, r: int, c: int)
    requires Shaped(h, rows, cols)
  {
    forall nr, nc :: InBounds(rows, cols, nr, nc) && Adjacent(r, c, nr, nc) ==> Blocked(h, rows, cols, nr, nc)
  }

  /** Every cell revealed between g and h that shows 0 has had its neighbours opened. */
  ghost predicate ZeroClosed(g: seq<seq<Cell>>, h: seq<seq<Cell>>, rows: int, cols: int)
    requires Shaped(g, rows, cols) && Shaped(h, rows, cols)
  {
    forall r, c ::
      (InBounds(rows, cols, r, c) && g[r][c].state == Hidden && h[r][c].state == Revealed && h[r][c].adjacentMines == 0) ==>
      Opened(h, rows, cols, r, c)
  }

  lemma GrowsKeepsOpened(g: seq<seq<Cell>>, h: seq<seq<Cell>>, rows: int, cols: int, r: int, c: int)
    requires Grows(g, h, rows, cols) && Opened(g, rows, cols, r, c)
    ensures Opened(h, rows, cols, r, c)
  {
    forall nr, nc | InBounds(rows, cols, nr, nc) && Adjacent(r, c, nr, nc)
      ensures Blocked(h, rows, cols, nr, nc)
    {
      assert Blocked(g, rows, cols, nr, nc);
    }
  }

  lemma ZeroClosedTrans(g: seq<seq<Cell>>, h: seq<seq<Cell>>, k: seq<seq<Cell>>, rows: int, cols: int)
    requires Grows(g, h, rows, cols) && Grows(h, k, rows, cols)
    requires ZeroClosed(g, h, rows, cols) && ZeroClosed(h, k, rows, cols)
    ensures ZeroClosed(g, k, rows, cols)
  {
    forall r, c | InBounds(rows, cols, r, c) && g[r][c].state == Hidden && k[r][c].state == Revealed && k[r][c].adjacentMines == 0
      ensures Opened(k, rows, cols, r, c)
    {
      if h[r][c].state == Revealed {
        GrowsKeepsOpened(h, k, rows, cols, r, c);
      }
    }
  }

  /** The cell flood reveal opens when called on it: in bounds, hidden, not a mine. */
  ghost predicate Opens(g: seq<seq<Cell>>, rows: int, cols: int, r: int, c: int)
    requires Shaped(g, rows, cols)
  {
    InBounds(rows, cols, r, c) && g[r][c].state == Hidden && !g[r][c].isMine
  }

  /** (a, b) was hidden in g and is revealed in h showing 0: a cell whose neighbours were spread to. */
  ghost predicate NewZero(g: seq<seq<Cell>>, h: seq<seq<Cell>>, rows: int, cols: int, a: int, b: int)
    requires Shaped(g, rows, cols) && Shaped(h, rows, cols)
  {
    InBounds(rows, cols, a, b) && g[a][b].state == Hidden && h[a][b].state == Revealed && h[a][b].adjacentMines == 0
  }

  /**
   * (i, j) is (r, c), or a neighbour of a cell linked to (r, c) that was
   * revealed showing 0, by a path of at most n such steps.
   */
  ghost predicate Linked(g: seq<seq<Cell>>, h: seq<seq<Cell>>, rows: int, cols: int, r: int, c: int, i: int, j: int, n: nat)
    requires Shaped(g, rows, cols) && Shaped(h, rows, cols)
    decreases n
  {
    (i == r && j == c) ||
    (n > 0 && exists a, b :: Adjacent(a, b, i, j) && NewZero(g, h, rows, cols, a, b) && Linked(g, h, rows, cols, r, c, a, b, n - 1))
  }

  /** Every cell revealed between g and h is linked to (r, c) through cells revealed showing 0. */
  ghost predicate Reached(g: seq<seq<Cell>>, h: seq<seq<Cell>>, rows: int, cols: int, r: int, c: int)
    requires Shaped(g, rows, cols) && Shaped(h, rows, cols)
  {
    forall i, j :: InBounds(rows, cols, i, j) && g[i][j].state == Hidden && h[i][j].state == Revealed ==>
      exists n: nat :: Linked(g, h, rows, cols, r, c, i, j, n)
  }

  /** The cells revealed showing 0 between g and h are also so between g2 and h2. */
  ghost predicate ZeroLift(g: seq<seq<Cell>>, h: seq<seq<Cell>>, g2: seq<seq<Cell>>, h2: seq<seq<Cell>>, rows: int, cols: int)
    requires Shaped(g, rows, cols) && Shaped(h, rows, cols) && Shaped(g2, rows, cols) && Shaped(h2, rows, cols)
  {
    forall a, b :: NewZero(g, h, rows, cols, a, b) ==> NewZero(g2, h2, rows, cols, a, b)
  }

  /** A longer bound allows every path a shorter one does. */
  lemma {:induction false} LinkedMono(g: seq<seq<Cell>>, h: seq<seq<Cell>>, rows: int, cols: int,
                                      r: int, c: int, i: int, j: int, m: nat, k: nat)
    requires Shaped(g, rows, cols) && Shaped(h, rows, cols)
    requires Linked(g, h, rows, cols, r, c, i, j, m)
    ensures Linked(g, h, rows, cols, r, c, i, j, m + k)
    decreases m
  {
    if !(i == r && j == c) {
      var a, b :| Adjacent(a, b, i, j) && NewZero(g, h, rows, cols, a, b) && Linked(g, h, rows, cols, r, c, a, b, m - 1);
      LinkedMono(g, h, rows, cols, r, c, a, b, m - 1, k);
    }
  }

  /** A path from (r2, c2) to (i, j) continues a path from (r, c) to (r2, c2). */
  lemma {:induction false} LinkedJoin(g: seq<seq<Cell>>, h: seq<seq<Cell>>, g2: seq<seq<Cell>>, h2: seq<seq<Cell>>,
                                      rows: int, cols: int, r: int, c: int, r2: int, c2: int, i: int, j: int, n: nat, m: nat)
    requires Shaped(g, rows, cols) && Shaped(h, rows, cols) && Shaped(g2, rows, cols) && Shaped(h2, rows, cols)
    requires ZeroLift(g, h, g2, h2, rows, cols)
    requires Linked(g, h, rows, cols, r2, c2, i, j, n) && Linked(g2, h2, rows, cols, r, c, r2, c2, m)
    ensures Linked(g2, h2, rows, cols, r, c, i, j, n + m)
    decreases n
  {
    if i == r2 && j == c2 {
      LinkedMono(g2, h2, rows, cols, r, c, i, j, m, n);
    } else {
      var a, b :| Adjacent(a, b, i, j) && NewZero(g, h, rows, cols, a, b) && Linked(g, h, rows, cols, r2, c2, a, b, n - 1);
      LinkedJoin(g, h, g2, h2, rows, cols, r, c, r2, c2, a, b, n - 1, m);
      assert NewZero(g2, h2, rows, cols, a, b);
    }
  }

  /**
   * After the recursive flood at the neighbour (nr, nc) of a zero cell
   * (row, col), every cell revealed so far is still linked to (row, col).
   */
  lemma ReachedStep(g0: seq<seq<Cell>>, g1: seq<seq<Cell>>, before: seq<seq<Cell>>, after: seq<seq<Cell>>,
                    rows: int, cols: int, row: int, col: int, nr: int, nc: int)
    requires Grows(g0, g1, rows, cols) && Opens(g0, rows, cols, row, col)
    requires g1[row][col].state == Revealed && g1[row][col].adjacentMines == 0
    requires Grows(g1, before, rows, cols) && Reached(g0, before, rows, cols, row, col)
    requires Adjacent(row, col, nr, nc) && Flooded(before, after, rows, cols, nr, nc)
    ensures Reached(g0, after, rows, cols, row, col)
  {
    assert NewZero(g0, after, rows, cols, row, col);
    assert ZeroLift(g0, before, g0, after, rows, cols);
    assert ZeroLift(before, after, g0, after, rows, cols);
    assert Linked(g0, after, rows, cols, row, col, row, col, 0);
    assert Linked(g0, after, rows, cols, row, col, nr, nc, 1);
    forall i, j | InBounds(rows, cols, i, j) && g0[i][j].state == Hidden && after[i][j].state == Revealed
      ensures exists n: nat :: Linked(g0, after, rows, cols, row, col, i, j, n)
    {
      if before[i][j].state == Revealed {
        var n: nat :| Linked(g0, before, rows, cols, row, col, i, j, n);
        LinkedJoin(g0, before, g0, after, rows, cols, row, col, row, col, i, j, n, 0);
      } else {
        var n: nat :| Linked(before, after, rows, cols, nr, nc, i, j, n);
        LinkedJoin(before, after, g0, after, rows, cols, row, col, nr, nc, i, j, n, 1);
      }
    }
  }

  /** A cell linked to the start of a flood h2 of g is revealed in every other flood of g from there. */
  lemma {:induction false} FloodCovers(g: seq<seq<Cell>>, h1: seq<seq<Cell>>, h2: seq<seq<Cell>>, rows: int, cols: int,
                                       r: int, c: int, i: int, j: int, n: nat)
    requires Grows(g, h1, rows, cols) && Grows(g, h2, rows, cols) && ZeroClosed(g, h2, rows, cols)
    requires Opens(g, rows, cols, r, c) ==> h2[r][c].state == Revealed
    requires InBounds(rows, cols, i, j) && g[i][j].state == Hidden && h1[i][j].state == Revealed
    requires Linked(g, h1, rows, cols, r, c, i, j, n)
    ensures h2[i][j].state == Revealed
    decreases n
  {
    if !(i == r && j == c) {
      var a, b :| Adjacent(a, b, i, j) && NewZero(g, h1, rows, cols, a, b) && Linked(g, h1, rows, cols, r, c, a, b, n - 1);
      FloodCovers(g, h1, h2, rows, cols, r, c, a, b, n - 1);
      assert Opened(h2, rows, cols, a, b);
      assert Blocked(h2, rows, cols, i, j);
    }
  }

  // ---------------------------------------------------------------------------
  // Flags

  /** The grid after a flag toggle at (row, col): hidden and flagged swap, revealed cells stay. */
  function Toggled(g: seq<seq<Cell>>, row: int, col: int): (h: seq<seq<Cell>>)
    ensures |h| == |g| && forall i :: 0 <= i < |g| ==> |h[i]| == |g[i]|
    ensures forall i, j :: 0 <= i < |g| && 0 <= j < |g[i]| && (i != row || j != col) ==> h[i][j] == g[i][j]
    ensures 0 <= row < |g| && 0 <= col < |g[row]| ==>
      h[row][col] == g[row][col].(state := match g[row][col].state
                                            case Hidden => Flagged
                                            case Flagged => Hidden
                                            case Revealed => Revealed)
  {
    if 0 <= row < |g| && 0 <= col < |g[row]| && g[row][col].state != Revealed then
      Update(g, row, col, g[row][col].(state := if g[row][col].state == Flagged then Hidden else Flagged))
    else g
  }

  /** Toggling twice restores the grid. */
  lemma ToggleInvolution(g: seq<seq<Cell>>, row: int, col: int)
    ensures Toggled(Toggled(g, row, col), row, col) == g
  {
    var h := Toggled(Toggled(g, row, col), row, col);
    forall i | 0 <= i < |g|
      ensures h[i] == g[i]
    {
      assert forall j :: 0 <= j < |g[i]| ==> h[i][j] == g[i][j];
    }
  }

  /** A toggle adds a flag on a hidden cell, removes one on a flagged cell, and nothing on a revealed one. */
  lemma ToggleFlagCount(g: seq<seq<Cell>>, row: int, col: int)
    requires 0 <= row < |g| && 0 <= col < |g[row]|
    ensures g[row][col].state == Hidden ==> GridCount(Toggled(g, row, col), IsFlagged) == GridCount(g, IsFlagged) + 1
    ensures g[row][col].state == Flagged ==> GridCount(Toggled(g, row, col), IsFlagged) + 1 == GridCount(g, IsFlagged)
    ensures g[row][col].state == Revealed ==> Toggled(g, row, col) == g
  {
    if g[row][col].state != Revealed {
      GridCountUpdate(g, row, col, Toggled(g, row, col)[row][col], IsFlagged);
    }
  }

  // ---------------------------------------------------------------------------
  // Whole-grid passes

  function ShowMine(x: Cell): Cell
  {
    if x.isMine then x.(state := Revealed) else x
  }

  function FlagMine(x: Cell): Cell
  {
    if x.isMine && x.state == Hidden then x.(state := Flagged) else x
  }

  /** The grid with f applied to every cell. */
  function Mapped(g: seq<seq<Cell>>, f: Cell -> Cell): (h: seq<seq<Cell>>)
    ensures |h| == |g| && forall i :: 0 <= i < |g| ==> |h[i]| == |g[i]|
    ensures forall i, j :: 0 <= i < |g| && 0 <= j < |g[i]| ==> h[i][j] == f(g[i][j])
  {
    seq(|g|, i requires 0 <= i < |g| => seq(|g[i]|, j requires 0 <= j < |g[i]| => f(g[i][j])))
  }

  /** Showing every mine leaves each non-mine cell and each cell's layout as it was. */
  lemma ShowMinesEffect(g: seq<seq<Cell>>, rows: int, cols: int)
    requires Shaped(g, rows, cols)
    ensures Shaped(Mapped(g, ShowMine), rows, cols) && SameLayout(g, Mapped(g, ShowMine), rows, cols)
    ensures forall r, c :: InBounds(rows, cols, r, c) ==>
      (g[r][c].isMine ==> Mapped(g, ShowMine)[r][c].state == Revealed) &&
      (!g[r][c].isMine ==> Mapped(g, ShowMine)[r][c] == g[r][c])
  {
  }

  /** Flagging the hidden mines changes no revealed cell and reveals nothing. */
  lemma FlagMinesEffect(g: seq<seq<Cell>>, rows: int, cols: int)
    requires Shaped(g, rows, cols)
    ensures Shaped(Mapped(g, FlagMine), rows, cols) && SameLayout(g, Mapped(g, FlagMine), rows, cols)
    ensures GridCount(Mapped(g, FlagMine), IsRevealed) == GridCount(g, IsRevealed)
    ensures forall r, c :: InBounds(rows, cols, r, c) && g[r][c].isMine ==> Mapped(g, FlagMine)[r][c].state != Hidden
    ensures NoMineShown(g, rows, cols) ==> NoMineShown(Mapped(g, FlagMine), rows, cols)
  {
    var h := Mapped(g, FlagMine);
    GridCountMono(g, h, IsRevealed);
    GridCountMono(h, g, IsRevealed);
  }

  /**
   * What holds of the grid of every game: its numbers are right, nothing is
   * placed or shown before the first reveal, and no mine is shown unless the
   * game is lost.
   */
  ghost predicate Playable(g: seq<seq<Cell>>, cfg: Config, firstClick: bool, status: GameStatus)
  {
    && Shaped(g, cfg.rows, cfg.cols)
    && Numbers(g, cfg.rows, cfg.cols)
    && (firstClick ==> Untouched(g, cfg.rows, cfg.cols))
    && (status != Lost ==> NoMineShown(g, cfg.rows, cfg.cols))
  }

  /** Revealing hidden non-mine cells after the first reveal keeps a grid playable. */
  lemma GrowsKeepsPlayable(g: seq<seq<Cell>>, h: seq<seq<Cell>>, cfg: Config, status: GameStatus)
    requires Grows(g, h, cfg.rows, cfg.cols) && Playable(g, cfg, false, status)
    ensures Playable(h, cfg, false, status)
  {
    GrowsHidden(g, h, cfg.rows, cfg.cols);
    LayoutKeepsNumbers(g, h, cfg.rows, cfg.cols);
  }

  // ---------------------------------------------------------------------------
  // The game

  class Game {
    var grid: seq<seq<Cell>>
    var difficulty: Difficulty
    var config: Config
    var status: GameStatus
    var isPaused: bool
    var isFirstClick: bool

    ghost predicate Valid()
      reads this
    {
      config == GetConfig(difficulty) && Playable(grid, config, isFirstClick, status)
    }

    /** A new game: the configuration's empty grid, playing, waiting for the first reveal. */
    constructor(d: Difficulty)
      ensures Valid()
      ensures difficulty == d && config == GetConfig(d) && grid == CreateEmptyGrid(config)
      ensures status == Playing && !isPaused && isFirstClick
    {
      difficulty := d;
      config := GetConfig(d);
      grid := CreateEmptyGrid(GetConfig(d));
      status := Playing;
      isPaused := false;
      isFirstClick := true;
      new;
      forall r, c | InBounds(config.rows, config.cols, r, c)
        ensures NeighbourMines(grid, config.rows, config.cols, r, c) == 0
      {
        NeighbourMinesZero(grid, config.rows, config.cols, r, c);
      }
    }

    method Pause()
      requires Valid()
      modifies this
      ensures Valid() && isPaused
      ensures grid == old(grid) && status == old(status) && isFirstClick == old(isFirstClick)
      ensures config == old(config) && difficulty == old(difficulty)
    {
      isPaused := true;
    }

    method Resume()
      requires Valid()
      modifies this
      ensures Valid() && !isPaused
      ensures grid == old(grid) && status == old(status) && isFirstClick == old(isFirstClick)
      ensures config == old(config) && difficulty == old(difficulty)
    {
      isPaused := false;
    }

    /** Counts the cells satisfying f, row by row. */
    method CountCells(f: Cell -> bool) returns (count: nat)
      requires Valid()
      ensures count == GridCount(grid, f)
    {
      count := 0;
      for r := 0 to config.rows
        invariant count == CountBefore(grid, f, r, 0)
      {
        for c := 0 to config.cols
          invariant count == CountBefore(grid, f, r, c)
        {
          CountBeforeStep(grid, f, r, c);
          if f(grid[r][c]) {
            count := count + 1;
          }
        }
        CountBeforeNextRow(grid, f, r);
      }
      CountBeforeAll(grid, f);
    }

    method FlagsPlaced() returns (n: nat)
      requires Valid()
      ensures n == GridCount(grid, IsFlagged)
    {
      n := CountCells(IsFlagged);
    }

    method RevealedCount() returns (n: nat)
      requires Valid()
      ensures n == GridCount(grid, IsRevealed)
    {
      n := CountCells(IsRevealed);
    }

    /** Mines minus flags; negative once more flags than mines are placed. */
    method RemainingMines() returns (n: int)
      requires Valid()
      ensures n == config.mines - GridCount(grid, IsFlagged)
      ensures config.mines - config.rows * config.cols <= n <= config.mines
    {
      var flags := FlagsPlaced();
      GridCountBound(grid, config.rows, config.cols, IsFlagged);
      n := config.mines - flags;
    }

    /** Applies f to every cell, row by row. */
    method ApplyToAll(f: Cell -> Cell)
      requires Shaped(grid, config.rows, config.cols)
      modifies this
      ensures grid == Mapped(old(grid), f)
      ensures config == old(config) && difficulty == old(difficulty) && status == old(status)
      ensures isPaused == old(isPaused) && isFirstClick == old(isFirstClick)
    {
      ghost var g0 := grid;
      for r := 0 to config.rows
        invariant Shaped(grid, config.rows, config.cols)
        invariant config == old(config) && difficulty == old(difficulty) && status == old(status)
        invariant isPaused == old(isPaused) && isFirstClick == old(isFirstClick)
        invariant forall i, j :: InBounds(config.rows, config.cols, i, j) && i < r ==> grid[i][j] == f(g0[i][j])
        invariant forall i, j :: InBounds(config.rows, config.cols, i, j) && i >= r ==> grid[i][j] == g0[i][j]
      {
        for c := 0 to config.cols
          invariant Shaped(grid, config.rows, config.cols)
          invariant config == old(config) && difficulty == old(difficulty) && status == old(status)
          invariant isPaused == old(isPaused) && isFirstClick == old(isFirstClick)
          invariant forall i, j :: InBounds(config.rows, config.cols, i, j) && (i < r || (i == r && j < c)) ==> grid[i][j] == f(g0[i][j])
          invariant forall i, j :: InBounds(config.rows, config.cols, i, j) && (i > r || (i == r && j >= c)) ==> grid[i][j] == g0[i][j]
        {
          grid := Update(grid, r, c, f(grid[r][c]));
        }
      }
      GridExt(grid, Mapped(g0, f), config.rows, config.cols);
    }

    /** Shows every mine; the other cells are untouched. */
    method RevealAllMines()
      requires Valid() && status == Lost
      modifies this
      ensures Valid()
      ensures grid == Mapped(old(grid), ShowMine)
      ensures config == old(config) && difficulty == old(difficulty) && status == old(status)
      ensures isPaused == old(isPaused) && isFirstClick == old(isFirstClick)
    {
      ghost var g0 := grid;
      ApplyToAll(ShowMine);
      ShowMinesEffect(g0, config.rows, config.cols);
      LayoutKeepsNumbers(g0, grid, config.rows, config.cols);
    }

    /** Wins once every safe cell is revealed, flagging the mines still hidden. */
    method CheckWin()
      requires Valid() && status == Playing
      modifies this
      ensures Valid()
      ensures var won := GridCount(old(grid), IsRevealed) == config.rows * config.cols - config.mines;
        && status == (if won then Won else old(status))
        && grid == (if won then Mapped(old(grid), FlagMine) else old(grid))
      ensures config == old(config) && difficulty == old(difficulty)
      ensures isPaused == old(isPaused) && isFirstClick == old(isFirstClick)
    {
      var revealed := RevealedCount();
      if revealed == config.rows * config.cols - config.mines {
        ghost var g0 := grid;
        status := Won;
        ApplyToAll(FlagMine);
        FlagMinesEffect(g0, config.rows, config.cols);
        LayoutKeepsNumbers(g0, grid, config.rows, config.cols);
        if isFirstClick {
          assert forall r, c :: InBounds(config.rows, config.cols, r, c) ==> grid[r][c] == g0[r][c];
        }
      }
    }

    /** Swaps hidden and flagged at (row, col) while the game is playing and not paused. */
    method ToggleFlag(row: int, col: int)
      requires Valid()
      modifies this
      ensures Valid()
      ensures grid == if old(status) == Playing && !old(isPaused) then Toggled(old(grid), row, col) else old(grid)
      ensures config == old(config) && difficulty == old(difficulty) && status == old(status)
      ensures isPaused == old(isPaused) && isFirstClick == old(isFirstClick)
    {
      if status != Playing || isPaused {
        return;
      }
      if !(row >= 0 && row < config.rows && col >= 0 && col < config.cols) {
        return;
      }
      var cell := grid[row][col];
      if cell.state == Revealed {
        return;
      }
      ghost var g0 := grid;
      if cell.state == Flagged {
        grid := Update(grid, row, col, cell.(state := Hidden));
      } else {
        grid := Update(grid, row, col, cell.(state := Flagged));
      }
      LayoutKeepsNumbers(g0, grid, config.rows, config.cols);
    }

    /**
     * Reveals (row, col) when it is a hidden non-mine cell, and, when it
     * shows 0, each of its in-bounds neighbours in turn.
     */
    method FloodReveal(row: int, col: int)
      requires Valid() && !isFirstClick
      modifies this
      ensures Valid() && !isFirstClick
      ensures config == old(config) && difficulty == old(difficulty) && status == old(status) && isPaused == old(isPaused)
      ensures Flooded(old(grid), grid, config.rows, config.cols, row, col)
      decreases GridCount(grid, IsHidden), 1
    {
      if !(row >= 0 && row < config.rows && col >= 0 && col < config.cols) {
        return;
      }
      var cell := grid[row][col];
      if cell.state != Hidden || cell.isMine {
        return;
      }
      ghost var g0 := grid;
      ghost var cfg := config;
      ghost var st := status;
      GridCountUpdate(grid, row, col, cell.(state := Revealed), IsHidden);
      grid := Update(grid, row, col, cell.(state := Revealed));
      ghost var g1 := grid;
      FloodStart(g0, g1, cfg.rows, cfg.cols, row, col);
      GrowsKeepsPlayable(g0, g1, cfg, st);
      if cell.adjacentMines == 0 {
        ScanStart(g0, g1, cfg.rows, cfg.cols, row, col);
        FloodNeighbours(row, col, g0, g1);
        ScanDone(g0, g1, grid, cfg.rows, cfg.cols, row, col);
      }
      GrowsKeepsPlayable(g1, grid, cfg, st);
      FloodClose(g0, g1, grid, config.rows, config.cols, row, col);
    }

    /**
     * The neighbour pass of a flood reveal from the zero cell (row, col):
     * each in-bounds neighbour, in row-major order, is flood revealed in turn.
     */
    method FloodNeighbours(row: int, col: int, ghost g0: seq<seq<Cell>>, ghost g1: seq<seq<Cell>>)
      requires Valid() && !isFirstClick
      requires Scanning(g0, g1, grid, config.rows, config.cols, row, col, -1, -1)
      requires GridCount(grid, IsHidden) < GridCount(g0, IsHidden)
      modifies this
      ensures Valid() && !isFirstClick
      ensures config == old(config) && difficulty == old(difficulty) && status == old(status) && isPaused == old(isPaused)
      ensures Scanning(g0, g1, grid, config.rows, config.cols, row, col, 2, -1)
      decreases GridCount(g0, IsHidden), 0
    {
      ghost var cfg := config;
      ghost var st := status;
      for dr := -1 to 2
        invariant Valid() && !isFirstClick && config == cfg && status == st
        invariant difficulty == old(difficulty) && isPaused == old(isPaused)
        invariant GridCount(grid, IsHidden) < GridCount(g0, IsHidden)
        invariant Scanning(g0, g1, grid, config.rows, config.cols, row, col, dr, -1)
      {
        for dc := -1 to 2
          invariant Valid() && !isFirstClick && config == cfg && status == st
          invariant difficulty == old(difficulty) && isPaused == old(isPaused)
          invariant GridCount(grid, IsHidden) < GridCount(g0, IsHidden)
          invariant Scanning(g0, g1, grid, config.rows, config.cols, row, col, dr, dc)
        {
          var nr := row + dr;
          var nc := col + dc;
          if (dr != 0 || dc != 0) && nr >= 0 && nr < config.rows && nc >= 0 && nc < config.cols {
            ghost var before := grid;
            FloodReveal(nr, nc);
            FloodStep(g0, g1, before, grid, config.rows, config.cols, row, col, dr, dc, nr, nc);
          } else {
            ScanSkip(g0, g1, grid, config.rows, config.cols, row, col, dr, dc);
          }
        }
        ScanSkip(g0, g1, grid, config.rows, config.cols, row, col, dr, 2);
      }
    }

    /**
     * Reveals (row, col) while the game is playing and not paused and the
     * cell is hidden. The first reveal places the mines around a safe zone
     * holding the cell, so it never loses. A mine loses and shows every
     * mine; any other cell is flood revealed and the win is checked.
     */
    method RevealCell(row: int, col: int, draws: seq<nat>) returns (rest: seq<nat>)
      requires Valid()
      modifies this
      ensures Valid()
      ensures config == old(config) && difficulty == old(difficulty) && isPaused == old(isPaused)
      ensures !old(CanReveal(row, col)) ==>
        grid == old(grid) && status == old(status) && isFirstClick == old(isFirstClick) && rest == draws
      ensures old(CanReveal(row, col)) ==> !isFirstClick && grid[row][col].state == Revealed
      ensures old(CanReveal(row, col)) && old(isFirstClick) ==> status != Lost
      ensures old(CanReveal(row, col)) && old(isFirstClick) ==>
        GridCount(grid, IsMine) <= config.mines && (rest != [] ==> GridCount(grid, IsMine) == config.mines) &&
        forall r, c :: InSafeZone(config, row, col, r, c) ==> !grid[r][c].isMine
      ensures old(CanReveal(row, col)) && !old(isFirstClick) ==>
        SameLayout(old(grid), grid, config.rows, config.cols) && rest == draws &&
        (status == Lost <==> old(grid)[row][col].isMine)
      ensures old(CanReveal(row, col)) && status == Lost ==> grid == Mapped(old(grid), ShowMine)
      ensures old(CanReveal(row, col)) && status != Lost ==>
        (status == Won <==> GridCount(grid, IsRevealed) == config.rows * config.cols - config.mines)
      ensures old(CanReveal(row, col)) && old(isFirstClick) && status != Lost ==>
        exists placed :: MinesPlaced(old(grid), placed, config, row, col) &&
          FloodOutcome(placed, grid, config.rows, config.cols, row, col, status == Won)
      ensures old(CanReveal(row, col)) && !old(isFirstClick) && status != Lost ==>
        FloodOutcome(old(grid), grid, config.rows, config.cols, row, col, status == Won)
    {
      rest := draws;
      if status != Playing || isPaused || !(row >= 0 && row < config.rows && col >= 0 && col < config.cols) ||
         grid[row][col].state != Hidden {
        return;
      }
      ghost var g0 := grid;
      if isFirstClick {
        rest := PlaceFirst(row, col, draws);
      }
      ghost var g1: seq<seq<Cell>> := grid;
      RevealPlaced(row, col);
      LayoutMineCount(g1, grid, config.rows, config.cols);
      assert old(isFirstClick) ==> MinesPlaced(g0, g1, config, row, col);
    }

    /** The first reveal's placement of the mines around the safe zone of (row, col). */
    method PlaceFirst(row: int, col: int, draws: seq<nat>) returns (rest: seq<nat>)
      requires Valid() && isFirstClick && InBounds(config.rows, config.cols, row, col)
      modifies this
      ensures Valid() && !isFirstClick
      ensures config == old(config) && difficulty == old(difficulty) && isPaused == old(isPaused) && status == old(status)
      ensures MinesPlaced(old(grid), grid, config, row, col) && !grid[row][col].isMine
      ensures rest != [] ==> GridCount(grid, IsMine) == config.mines
    {
      ghost var g0 := grid;
      grid, rest := PlaceMines(grid, config, row, col, draws);
      isFirstClick := false;
      PlacedValid(g0, grid, config, row, col);
      GridCountNone(g0, IsMine);
      FirstClickSafe(config, row, col);
    }

    /**
     * The reveal once the mines are placed: a mine loses and shows every
     * mine, any other cell is flood revealed and the win is checked.
     */
    method RevealPlaced(row: int, col: int)
      requires Valid() && !isFirstClick && status == Playing
      requires InBounds(config.rows, config.cols, row, col) && grid[row][col].state == Hidden
      modifies this
      ensures Valid() && !isFirstClick
      ensures config == old(config) && difficulty == old(difficulty) && isPaused == old(isPaused)
      ensures SameLayout(old(grid), grid, config.rows, config.cols) && grid[row][col].state == Revealed
      ensures status == Lost <==> old(grid)[row][col].isMine
      ensures status == Lost ==> grid == Mapped(old(grid), ShowMine)
      ensures status != Lost ==> (status == Won <==> GridCount(grid, IsRevealed) == config.rows * config.cols - config.mines)
      ensures status != Lost ==> FloodOutcome(old(grid), grid, config.rows, config.cols, row, col, status == Won)
    {
      var cell := grid[row][col];
      ghost var g1 := grid;
      if cell.isMine {
        grid := Update(grid, row, col, cell.(state := Revealed));
        status := Lost;
        LayoutKeepsNumbers(g1, grid, config.rows, config.cols);
        RevealAllMines();
        GridExt(grid, Mapped(g1, ShowMine), config.rows, config.cols);
        ShowMinesEffect(g1, config.rows, config.cols);
      } else {
        FloodReveal(row, col);
        ghost var g2 := grid;
        GrowsHidden(g1, g2, config.rows, config.cols);
        CheckWin();
        FlagMinesEffect(g2, config.rows, config.cols);
        SameLayoutTrans(g1, g2, grid, config.rows, config.cols);
        assert Flooded(g1, g2, config.rows, config.cols, row, col) && grid == (if status == Won then Mapped(g2, FlagMine) else g2);
      }
    }

    /** The guards of a reveal: playing, not paused, and a hidden cell in bounds. */
    ghost predicate CanReveal(row: int, col: int)
      reads this
    {
      status == Playing && !isPaused && 0 <= row < |grid| && 0 <= col < |grid[row]| && grid[row][col].state == Hidden
    }
  }

  lemma GridCountBound(g: seq<seq<Cell>>, rows: int, cols: int, f: Cell -> bool)
    requires Shaped(g, rows, cols)
    ensures GridCount(g, f) <= rows * cols
  {
    GridCountAtMost(g, cols, f);
  }

  lemma {:induction false} GridCountAtMost(g: seq<seq<Cell>>, cols: int, f: Cell -> bool)
    requires Shaped(g, |g|, cols)
    ensures GridCount(g, f) <= |g| * cols
  {
    if g != [] {
      GridCountAtMost(g[..|g| - 1], cols, f);
    }
  }

  /**
   * The effect of a flood reveal started at (r, c): hidden non-mine cells
   * only are revealed, every revealed cell showing 0 has its neighbours
   * opened, every revealed cell is reached from the start through cells
   * revealed showing 0, the start cell is revealed when it can be, and
   * nothing changes when it cannot. FloodedUnique shows that this fixes h.
   */
  ghost predicate Flooded(g: seq<seq<Cell>>, h: seq<seq<Cell>>, rows: int, cols: int, r: int, c: int)
  {
    && Grows(g, h, rows, cols)
    && ZeroClosed(g, h, rows, cols)
    && Reached(g, h, rows, cols, r, c)
    && (Opens(g, rows, cols, r, c) ==> h[r][c].state == Revealed)
    && (Opens(g, rows, cols, r, c) && g[r][c].adjacentMines != 0 ==> h == Update(g, r, c, g[r][c].(state := Revealed)))
    && (!Opens(g, rows, cols, r, c) ==> h == g)
  }

  /** A flood is determined by the grid and the start cell. */
  lemma FloodedUnique(g: seq<seq<Cell>>, h1: seq<seq<Cell>>, h2: seq<seq<Cell>>, rows: int, cols: int, r: int, c: int)
    requires Flooded(g, h1, rows, cols, r, c) && Flooded(g, h2, rows, cols, r, c)
    ensures h1 == h2
  {
    forall i, j | InBounds(rows, cols, i, j)
      ensures h1[i][j] == h2[i][j]
    {
      if g[i][j].state == Hidden && h1[i][j].state == Revealed {
        var n: nat :| Linked(g, h1, rows, cols, r, c, i, j, n);
        FloodCovers(g, h1, h2, rows, cols, r, c, i, j, n);
      } else if g[i][j].state == Hidden && h2[i][j].state == Revealed {
        var n: nat :| Linked(g, h2, rows, cols, r, c, i, j, n);
        FloodCovers(g, h2, h1, rows, cols, r, c, i, j, n);
      }
    }
    GridExt(h1, h2, rows, cols);
  }

  /**
   * The state of the neighbour pass of a flood from (row, col) before offset
   * (dr, dc): g1 is g0 with the start revealed showing 0, h grew from g1, the
   * zero cells revealed since g1 are opened, the neighbours scanned so far
   * are blocked, and every cell revealed since g0 is linked to the start.
   */
  ghost predicate Scanning(g0: seq<seq<Cell>>, g1: seq<seq<Cell>>, h: seq<seq<Cell>>, rows: int, cols: int,
                           row: int, col: int, dr: int, dc: int)
  {
    && Grows(g0, g1, rows, cols) && Opens(g0, rows, cols, row, col)
    && g1[row][col].state == Revealed && g1[row][col].adjacentMines == 0
    && Grows(g1, h, rows, cols) && ZeroClosed(g1, h, rows, cols)
    && ClosedBefore(h, rows, cols, row, col, dr, dc) && Reached(g0, h, rows, cols, row, col)
  }

  /** The neighbour pass after one recursive flood at offset (dr, dc). */
  lemma FloodStep(g0: seq<seq<Cell>>, g1: seq<seq<Cell>>, before: seq<seq<Cell>>, after: seq<seq<Cell>>, rows: int, cols: int,
                  row: int, col: int, dr: int, dc: int, nr: int, nc: int)
    requires Scanning(g0, g1, before, rows, cols, row, col, dr, dc)
    requires nr == row + dr && nc == col + dc
    requires -1 <= dr <= 1 && -1 <= dc <= 1 && (dr != 0 || dc != 0) && InBounds(rows, cols, nr, nc)
    requires Flooded(before, after, rows, cols, nr, nc)
    ensures Scanning(g0, g1, after, rows, cols, row, col, dr, dc + 1)
    ensures GridCount(after, IsHidden) <= GridCount(before, IsHidden)
  {
    GrowsHidden(before, after, rows, cols);
    GrowsTrans(g1, before, after, rows, cols);
    ZeroClosedTrans(g1, before, after, rows, cols);
    ClosedStep(before, after, rows, cols, row, col, dr, dc);
    ReachedStep(g0, g1, before, after, rows, cols, row, col, nr, nc);
  }

  /** Skipping the centre, and moving to the next row of offsets, keep the pass state. */
  lemma ScanSkip(g0: seq<seq<Cell>>, g1: seq<seq<Cell>>, h: seq<seq<Cell>>, rows: int, cols: int,
                 row: int, col: int, dr: int, dc: int)
    requires Scanning(g0, g1, h, rows, cols, row, col, dr, dc)
    requires (dr == 0 && dc == 0) || !InBounds(rows, cols, row + dr, col + dc) || dc == 2
    ensures dc != 2 ==> Scanning(g0, g1, h, rows, cols, row, col, dr, dc + 1)
    ensures dc == 2 ==> Scanning(g0, g1, h, rows, cols, row, col, dr + 1, -1)
  {
  }

  /** Before the pass nothing but the start has been revealed. */
  lemma ScanStart(g0: seq<seq<Cell>>, g1: seq<seq<Cell>>, rows: int, cols: int, row: int, col: int)
    requires Grows(g0, g1, rows, cols) && Opens(g0, rows, cols, row, col) && Reached(g0, g1, rows, cols, row, col)
    requires g1[row][col].state == Revealed && g1[row][col].adjacentMines == 0
    ensures Scanning(g0, g1, g1, rows, cols, row, col, -1, -1)
  {
  }

  /** At the end of the pass every neighbour of the start is blocked. */
  lemma ScanDone(g0: seq<seq<Cell>>, g1: seq<seq<Cell>>, h: seq<seq<Cell>>, rows: int, cols: int, row: int, col: int)
    requires Scanning(g0, g1, h, rows, cols, row, col, 2, -1)
    ensures Opened(h, rows, cols, row, col)
  {
  }

  /** Revealing the start cell alone: the only cell revealed is the start itself. */
  lemma FloodStart(g0: seq<seq<Cell>>, g1: seq<seq<Cell>>, rows: int, cols: int, row: int, col: int)
    requires Shaped(g0, rows, cols) && Opens(g0, rows, cols, row, col)
    requires g1 == Update(g0, row, col, g0[row][col].(state := Revealed))
    ensures Grows(g0, g1, rows, cols) && Reached(g0, g1, rows, cols, row, col)
  {
    assert Linked(g0, g1, rows, cols, row, col, row, col, 0);
  }

  /** A neighbour scan at (dr, dc) leaves that neighbour blocked and keeps the earlier ones blocked. */
  lemma ClosedStep(before: seq<seq<Cell>>, after: seq<seq<Cell>>, rows: int, cols: int, row: int, col: int, dr: int, dc: int)
    requires Grows(before, after, rows, cols)
    requires ClosedBefore(before, rows, cols, row, col, dr, dc)
    requires InBounds(rows, cols, row + dr, col + dc)
    requires Opens(before, rows, cols, row + dr, col + dc) ==> after[row + dr][col + dc].state == Revealed
    ensures ClosedBefore(after, rows, cols, row, col, dr, dc + 1)
  {
    forall nr, nc | InBounds(rows, cols, nr, nc) && Adjacent(row, col, nr, nc) &&
      (nr - row < dr || (nr - row == dr && nc - col < dc + 1))
      ensures Blocked(after, rows, cols, nr, nc)
    {
      if nr - row < dr || nc - col < dc {
        assert Blocked(before, rows, cols, nr, nc);
      }
    }
  }

  /** Puts the reveal of (row, col) and the neighbour pass together. */
  lemma FloodClose(g0: seq<seq<Cell>>, g1: seq<seq<Cell>>, g2: seq<seq<Cell>>, rows: int, cols: int, row: int, col: int)
    requires Shaped(g0, rows, cols) && Shaped(g1, rows, cols) && Opens(g0, rows, cols, row, col)
    requires forall r, c :: InBounds(rows, cols, r, c) ==>
      g1[r][c] == if r == row && c == col then g0[r][c].(state := Revealed) else g0[r][c]
    requires Grows(g1, g2, rows, cols) && ZeroClosed(g1, g2, rows, cols)
    requires g1[row][col].adjacentMines == 0 ==> Opened(g2, rows, cols, row, col)
    requires g1[row][col].adjacentMines != 0 ==> g2 == g1
    requires Reached(g0, g2, rows, cols, row, col)
    ensures Flooded(g0, g2, rows, cols, row, col)
  {
    assert Grows(g0, g1, rows, cols);
    if g1[row][col].adjacentMines != 0 {
      GridExt(g1, Update(g0, row, col, g0[row][col].(state := Revealed)), rows, cols);
    }
  }

  /** Mine placement on a fresh grid keeps the game valid. */
  lemma PlacedValid(g0: seq<seq<Cell>>, g: seq<seq<Cell>>, cfg: Config, row: int, col: int)
    requires Shaped(g0, cfg.rows, cfg.cols) && Shaped(g, cfg.rows, cfg.cols) && Untouched(g0, cfg.rows, cfg.cols)
    requires forall r, c :: InBounds(cfg.rows, cfg.cols, r, c) ==> g[r][c].state == g0[r][c].state
    requires forall r, c :: InBounds(cfg.rows, cfg.cols, r, c) ==>
      g[r][c].adjacentMines == if g[r][c].isMine then g0[r][c].adjacentMines else NeighbourMines(g, cfg.rows, cfg.cols, r, c)
    ensures Numbers(g, cfg.rows, cfg.cols) && NoMineShown(g, cfg.rows, cfg.cols)
  {
  }

  /**
   * The grid after the flood reveal from (row, col) and the win check: the
   * flood of g1, with the hidden mines then flagged when the game was won.
   */
  ghost predicate FloodOutcome(g1: seq<seq<Cell>>, h: seq<seq<Cell>>, rows: int, cols: int, row: int, col: int, won: bool)
  {
    exists f :: Flooded(g1, f, rows, cols, row, col) && h == (if won then Mapped(f, FlagMine) else f)
  }

  /**
   * g is the fresh grid g0 with mines placed for a first reveal at (row, col):
   * no state changed, no mine in the safe zone, at most cfg.mines mines, and
   * every number right.
   */
  ghost predicate MinesPlaced(g0: seq<seq<Cell>>, g: seq<seq<Cell>>, cfg: Config, row: int, col: int)
  {
    && Shaped(g0, cfg.rows, cfg.cols) && Shaped(g, cfg.rows, cfg.cols)
    && (forall r, c :: InBounds(cfg.rows, cfg.cols, r, c) ==> g[r][c].state == g0[r][c].state)
    && (forall r, c :: InSafeZone(cfg, row, col, r, c) ==> !g[r][c].isMine)
    && GridCount(g, IsMine) <= cfg.mines
    && Numbers(g, cfg.rows, cfg.cols)
  }
}
