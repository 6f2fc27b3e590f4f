/**
 * Move legality, completion and conflict reporting for Tango
 * (src/utils/tangoValidator.ts).
 */
module TangoValidator {
  import opened Common
  import opened TangoTypes

  // ---------------------------------------------------------------------------
  // Three in a row

  /** The three checks of the horizontal rule: (row, col) as third, middle and first cell. */
  predicate NoThreeHorizontal(g: seq<Sym>, row: int, col: int, s: Sym)
    requires IsBoard(g) && InGrid(row, col)
  {
    && !(col >= 2 && At(g, row, col - 1) == s && At(g, row, col - 2) == s)
    && !(1 <= col < Size - 1 && At(g, row, col - 1) == s && At(g, row, col + 1) == s)
    && !(col < Size - 2 && At(g, row, col + 1) == s && At(g, row, col + 2) == s)
  }

  predicate NoThreeVertical(g: seq<Sym>, row: int, col: int, s: Sym)
    requires IsBoard(g) && InGrid(row, col)
  {
    && !(row >= 2 && At(g, row - 1, col) == s && At(g, row - 2, col) == s)
    && !(1 <= row < Size - 1 && At(g, row - 1, col) == s && At(g, row + 1, col) == s)
    && !(row < Size - 2 && At(g, row + 1, col) == s && At(g, row + 2, col) == s)
  }

  /** Columns a..a+2 of `row` contain `col`, and the two cells other than `col` hold s. */
  predicate HWindow(g: seq<Sym>, row: int, col: int, s: Sym, a: int)
    requires IsBoard(g) && InGrid(row, col)
  {
    0 <= a && a + 2 < Size && a <= col <= a + 2
    && forall k :: a <= k <= a + 2 && k != col ==> At(g, row, k) == s
  }

  /** Rows a..a+2 of `col` contain `row`, and the two cells other than `row` hold s. */
  predicate VWindow(g: seq<Sym>, row: int, col: int, s: Sym, a: int)
    requires IsBoard(g) && InGrid(row, col)
  {
    0 <= a && a + 2 < Size && a <= row <= a + 2
    && forall k :: a <= k <= a + 2 && k != row ==> At(g, k, col) == s
  }

  /** The horizontal rule holds exactly when no window of three around the cell would be uniform. */
  lemma NoThreeHorizontalWindows(g: seq<Sym>, row: int, col: int, s: Sym)
    requires IsBoard(g) && InGrid(row, col)
    ensures NoThreeHorizontal(g, row, col, s) <==> forall a :: !HWindow(g, row, col, s, a)
  {
    if !NoThreeHorizontal(g, row, col, s) {
      if col >= 2 && At(g, row, col - 1) == s && At(g, row, col - 2) == s {
        assert HWindow(g, row, col, s, col - 2);
      } else if 1 <= col < Size - 1 && At(g, row, col - 1) == s && At(g, row, col + 1) == s {
        assert HWindow(g, row, col, s, col - 1);
      } else {
        assert HWindow(g, row, col, s, col);
      }
    } else {
      forall a | 0 <= a && a + 2 < Size && a <= col <= a + 2
        ensures !HWindow(g, row, col, s, a)
      {
        if a == col - 2 {
          assert !(At(g, row, col - 1) == s && At(g, row, col - 2) == s);
        } else if a == col - 1 {
          assert !(At(g, row, col - 1) == s && At(g, row, col + 1) == s);
        } else {
          assert !(At(g, row, col + 1) == s && At(g, row, col + 2) == s);
        }
      }
    }
  }

  lemma NoThreeVerticalWindows(g: seq<Sym>, row: int, col: int, s: Sym)
    requires IsBoard(g) && InGrid(row, col)
    ensures NoThreeVertical(g, row, col, s) <==> forall a :: !VWindow(g, row, col, s, a)
  {
    if !NoThreeVertical(g, row, col, s) {
      if row >= 2 && At(g, row - 1, col) == s && At(g, row - 2, col) == s {
        assert VWindow(g, row, col, s, row - 2);
      } else if 1 <= row < Size - 1 && At(g, row - 1, col) == s && At(g, row + 1, col) == s {
        assert VWindow(g, row, col, s, row - 1);
      } else {
        assert VWindow(g, row, col, s, row);
      }
    } else {
      forall a | 0 <= a && a + 2 < Size && a <= row <= a + 2
        ensures !VWindow(g, row, col, s, a)
      {
        if a == row - 2 {
          assert !(At(g, row - 1, col) == s && At(g, row - 2, col) == s);
        } else if a == row - 1 {
          assert !(At(g, row - 1, col) == s && At(g, row + 1, col) == s);
        } else {
          assert !(At(g, row + 1, col) == s && At(g, row + 2, col) == s);
        }
      }
    }
  }

  // ---------------------------------------------------------------------------
  // Row and column counts

  /** Counts the symbol being placed plus the other cells of the row that hold it. */
  method CheckRowCount(g: seq<Sym>, row: int, col: int, s: Sym) returns (ok: bool)
    requires IsBoard(g) && InGrid(row, col)
    ensures ok <==> 1 + RowCount(g, row, s, col, Size) <= 3
  {
    var count := 1;
    for c := 0 to Size
      invariant count == 1 + RowCount(g, row, s, col, c)
    {
      if c != col && At(g, row, c) == s {
        count := count + 1;
      }
    }
    ok := count <= 3;
  }

  method CheckColumnCount(g: seq<Sym>, row: int, col: int, s: Sym) returns (ok: bool)
    requires IsBoard(g) && InGrid(row, col)
    ensures ok <==> 1 + ColCount(g, col, s, row, Size) <= 3
  {
    var count := 1;
    for r := 0 to Size
      invariant count == 1 + ColCount(g, col, s, row, r)
    {
      if r != row && At(g, r, col) == s {
        count := count + 1;
      }
    }
    ok := count <= 3;
  }

  // ---------------------------------------------------------------------------
  // Constraints

  /** Whether symbols s and v stand in the relation. */
  predicate Related(kind: Relation, s: Sym, v: Sym)
  {
    if kind == Equals then s == v else s != v
  }

  /** A partner cell off the board or still empty imposes nothing. */
  predicate Compatible(kind: Relation, s: Sym, partner: Option<Sym>)
  {
    match partner
    case None => true
    case Some(v) => v == Empty || Related(kind, s, v)
  }

  /**
   * Placing s at (row, col) respects constraint c, whether c starts at this
   * cell (pointing right or down) or arrives at it (from the left or from above).
   */
  predicate ConstraintAllows(g: seq<Sym>, row: int, col: int, s: Sym, c: Constraint)
    requires IsBoard(g)
  {
    && (c.row == row && c.col == col && c.dir == Horizontal ==> Compatible(c.kind, s, CellAt(g, row, col + 1)))
    && (c.row == row && c.col == col - 1 && c.dir == Horizontal ==> Compatible(c.kind, s, CellAt(g, row, col - 1)))
    && (c.row == row && c.col == col && c.dir == Vertical ==> Compatible(c.kind, s, CellAt(g, row + 1, col)))
    && (c.row == row - 1 && c.col == col && c.dir == Vertical ==> Compatible(c.kind, s, CellAt(g, row - 1, col)))
  }

  predicate ConstraintsAllow(g: seq<Sym>, row: int, col: int, s: Sym, cs: seq<Constraint>)
    requires IsBoard(g)
  {
    forall i :: 0 <= i < |cs| ==> ConstraintAllows(g, row, col, s, cs[i])
  }

  /** Checks one partner cell against the relation; shared by the four cases. */
  method CheckPartner(kind: Relation, s: Sym, partner: Option<Sym>) returns (ok: bool)
    ensures ok <==> Compatible(kind, s, partner)
  {
    ok := true;
    if partner.Some? && partner.value != Empty {
      if kind == Equals {
        if s != partner.value {
          ok := false;
        }
      } else {
        if s == partner.value {
          ok := false;
        }
      }
    }
  }

  method CheckConstraints(g: seq<Sym>, row: int, col: int, s: Sym, cs: seq<Constraint>) returns (ok: bool)
    requires IsBoard(g)
    ensures ok <==> ConstraintsAllow(g, row, col, s, cs)
  {
    for i := 0 to |cs|
      invariant forall j :: 0 <= j < i ==> ConstraintAllows(g, row, col, s, cs[j])
    {
      var c := cs[i];
      var fine := true;
      if c.row == row && c.col == col && c.dir == Horizontal {
        fine := CheckPartner(c.kind, s, CellAt(g, row, col + 1));
        if !fine {
          return false;
        }
      }
      if c.row == row && c.col == col - 1 && c.dir == Horizontal {
        fine := CheckPartner(c.kind, s, CellAt(g, row, col - 1));
        if !fine {
          return false;
        }
      }
      if c.row == row && c.col == col && c.dir == Vertical {
        fine := CheckPartner(c.kind, s, CellAt(g, row + 1, col));
        if !fine {
          return false;
        }
      }
      if c.row == row - 1 && c.col == col && c.dir == Vertical {
        fine := CheckPartner(c.kind, s, CellAt(g, row - 1, col));
        if !fine {
          return false;
        }
      }
    }
    return true;
  }

  // ---------------------------------------------------------------------------
  // Move legality

  /** The five rules a move must pass. */
  predicate ValidMove(g: seq<Sym>, row: int, col: int, s: Sym, cs: seq<Constraint>)
    requires IsBoard(g) && InGrid(row, col)
  {
    && NoThreeHorizontal(g, row, col, s)
    && NoThreeVertical(g, row, col, s)
    && 1 + RowCount(g, row, s, col, Size) <= 3
    && 1 + ColCount(g, col, s, row, Size) <= 3
    && ConstraintsAllow(g, row, col, s, cs)
  }

  /** Runs the five checks in order and stops at the first that fails. */
  method IsValidMove(g: seq<Sym>, row: int, col: int, s: Sym, cs: seq<Constraint>) returns (ok: bool)
    requires IsBoard(g) && InGrid(row, col)
    ensures ok <==> && (forall a :: !HWindow(g, row, col, s, a))
                    && (forall a :: !VWindow(g, row, col, s, a))
                    && 1 + RowCount(g, row, s, col, Size) <= 3
                    && 1 + ColCount(g, col, s, row, Size) <= 3
                    && ConstraintsAllow(g, row, col, s, cs)
    ensures ok <==> ValidMove(g, row, col, s, cs)
  {
    NoThreeHorizontalWindows(g, row, col, s);
    NoThreeVerticalWindows(g, row, col, s);
    if !NoThreeHorizontal(g, row, col, s) {
      return false;
    }
    if !NoThreeVertical(g, row, col, s) {
      return false;
    }
    ok := CheckRowCount(g, row, col, s);
    if !ok {
      return false;
    }
    ok := CheckColumnCount(g, row, col, s);
    if !ok {
      return false;
    }
    ok := CheckConstraints(g, row, col, s, cs);
  }

  lemma UpdateElsewhere(g: seq<Sym>, row: int, col: int, v: Sym, r: int, c: int)
    requires IsBoard(g) && InGrid(row, col) && InGrid(r, c) && (r != row || c != col)
    ensures At(g[Idx(row, col) := v], r, c) == At(g, r, c)
  {
    if Idx(r, c) == Idx(row, col) {
      IdxInjective(r, c, row, col);
    }
  }

  /** The verdict on a move never depends on what the target cell currently holds. */
  lemma MoveIgnoresTargetCell(g: seq<Sym>, row: int, col: int, s: Sym, v: Sym, cs: seq<Constraint>)
    requires IsBoard(g) && InGrid(row, col)
    ensures ValidMove(g[Idx(row, col) := v], row, col, s, cs) <==> ValidMove(g, row, col, s, cs)
  {
    var h := g[Idx(row, col) := v];
    forall c | 0 <= c < Size && c != col
      ensures At(g, row, c) == At(h, row, c)
    {
      UpdateElsewhere(g, row, col, v, row, c);
    }
    forall r | 0 <= r < Size && r != row
      ensures At(g, r, col) == At(h, r, col)
    {
      UpdateElsewhere(g, row, col, v, r, col);
    }
    RowCountAgree(g, h, row, s, col, Size);
    ColCountAgree(g, h, col, s, row, Size);
    assert CellAt(h, row, col + 1) == CellAt(g, row, col + 1);
    assert CellAt(h, row, col - 1) == CellAt(g, row, col - 1);
    assert CellAt(h, row + 1, col) == CellAt(g, row + 1, col);
    assert CellAt(h, row - 1, col) == CellAt(g, row - 1, col);
    assert NoThreeHorizontal(h, row, col, s) <==> NoThreeHorizontal(g, row, col, s);
    assert NoThreeVertical(h, row, col, s) <==> NoThreeVertical(g, row, col, s);
    assert ConstraintsAllow(h, row, col, s, cs) <==> ConstraintsAllow(g, row, col, s, cs);
  }

  // ---------------------------------------------------------------------------
  // Completion

  method IsFilled(g: seq<Sym>) returns (ok: bool)
    requires IsBoard(g)
    ensures ok <==> Filled(g)
  {
    for row := 0 to Size
      invariant forall i :: 0 <= i < Idx(row, 0) ==> g[i] != Empty
    {
      for col := 0 to Size
        invariant forall i :: 0 <= i < Idx(row, col) ==> g[i] != Empty
      {
        if At(g, row, col) == Empty {
          return false;
        }
      }
    }
    return true;
  }

  /** Filled, and every cell equal to the solution's. */
  method IsComplete(g: seq<Sym>, solution: seq<Sym>) returns (ok: bool)
    requires IsBoard(g) && IsBoard(solution)
    ensures ok <==> Filled(g) && g == solution
    ensures ok ==> Filled(g)
    ensures Filled(solution) ==> (ok <==> g == solution)
  {
    ok := IsFilled(g);
    if !ok {
      return false;
    }
    for row := 0 to Size
      invariant forall i :: 0 <= i < Idx(row, 0) ==> g[i] == solution[i]
    {
      for col := 0 to Size
        invariant forall i :: 0 <= i < Idx(row, col) ==> g[i] == solution[i]
      {
        if At(g, row, col) != At(solution, row, col) {
          return false;
        }
      }
    }
    return true;
  }

  // ---------------------------------------------------------------------------
  // Conflicts

  /** p is one of the other two cells of a uniform horizontal window of three through (row, col). */
  predicate RunConflictH(g: seq<Sym>, row: int, col: int, p: Pos)
    requires IsBoard(g) && InGrid(row, col)
  {
    p.row == row && p.col != col && exists a :: HWindow(g, row, col, At(g, row, col), a) && a <= p.col <= a + 2
  }

  predicate RunConflictV(g: seq<Sym>, row: int, col: int, p: Pos)
    requires IsBoard(g) && InGrid(row, col)
  {
    p.col == col && p.row != row && exists a :: VWindow(g, row, col, At(g, row, col), a) && a <= p.row <= a + 2
  }

  predicate RunConflict(g: seq<Sym>, row: int, col: int, p: Pos)
    requires IsBoard(g) && InGrid(row, col)
  {
    RunConflictH(g, row, col, p) || RunConflictV(g, row, col, p)
  }

  /** Constraint c starts at (row, col), its partner p is filled, and the relation fails. */
  predicate ViolatedAnchor(g: seq<Sym>, row: int, col: int, c: Constraint, p: Pos)
    requires IsBoard(g) && InGrid(row, col)
  {
    && c.row == row && c.col == col
    && p == (if c.dir == Horizontal then Pos(row, col + 1) else Pos(row + 1, col))
    && InGrid(p.row, p.col)
    && At(g, p.row, p.col) != Empty
    && !Related(c.kind, At(g, row, col), At(g, p.row, p.col))
  }

  predicate AnchorConflict(g: seq<Sym>, row: int, col: int, cs: seq<Constraint>, n: int, p: Pos)
    requires IsBoard(g) && InGrid(row, col) && 0 <= n <= |cs|
  {
    exists i :: 0 <= i < n && ViolatedAnchor(g, row, col, cs[i], p)
  }

  /** The horizontal run part of the conflict report. */
  method RunConflictsH(g: seq<Sym>, row: int, col: int) returns (conflicts: seq<Pos>)
    requires IsBoard(g) && InGrid(row, col)
    ensures forall p :: p in conflicts <==> RunConflictH(g, row, col, p)
  {
    var s := At(g, row, col);
    conflicts := [];
    if col >= 2 && At(g, row, col - 1) == s && At(g, row, col - 2) == s {
      assert HWindow(g, row, col, s, col - 2);
      conflicts := conflicts + [Pos(row, col - 1), Pos(row, col - 2)];
    }
    if 1 <= col < Size - 1 && At(g, row, col - 1) == s && At(g, row, col + 1) == s {
      assert HWindow(g, row, col, s, col - 1);
      conflicts := conflicts + [Pos(row, col - 1), Pos(row, col + 1)];
    }
    if col < Size - 2 && At(g, row, col + 1) == s && At(g, row, col + 2) == s {
      assert HWindow(g, row, col, s, col);
      conflicts := conflicts + [Pos(row, col + 1), Pos(row, col + 2)];
    }
    forall p | RunConflictH(g, row, col, p)
      ensures p in conflicts
    {
      var a :| HWindow(g, row, col, s, a) && a <= p.col <= a + 2;
      assert a == col - 2 || a == col - 1 || a == col;
    }
  }

  method RunConflictsV(g: seq<Sym>, row: int, col: int) returns (conflicts: seq<Pos>)
    requires IsBoard(g) && InGrid(row, col)
    ensures forall p :: p in conflicts <==> RunConflictV(g, row, col, p)
  {
    var s := At(g, row, col);
    conflicts := [];
    if row >= 2 && At(g, row - 1, col) == s && At(g, row - 2, col) == s {
      assert VWindow(g, row, col, s, row - 2);
      conflicts := conflicts + [Pos(row - 1, col), Pos(row - 2, col)];
    }
    if 1 <= row < Size - 1 && At(g, row - 1, col) == s && At(g, row + 1, col) == s {
      assert VWindow(g, row, col, s, row - 1);
      conflicts := conflicts + [Pos(row - 1, col), Pos(row + 1, col)];
    }
    if row < Size - 2 && At(g, row + 1, col) == s && At(g, row + 2, col) == s {
      assert VWindow(g, row, col, s, row);
      conflicts := conflicts + [Pos(row + 1, col), Pos(row + 2, col)];
    }
    forall p | RunConflictV(g, row, col, p)
      ensures p in conflicts
    {
      var a :| VWindow(g, row, col, s, a) && a <= p.row <= a + 2;
      assert a == row - 2 || a == row - 1 || a == row;
    }
  }

  /**
   * The cells in conflict with (row, col): the other cells of every uniform
   * window of three through it, and the partner of every constraint that
   * starts at it and is violated. An empty cell has no conflicts.
   */
  method GetConflicts(g: seq<Sym>, row: int, col: int, cs: seq<Constraint>) returns (conflicts: seq<Pos>)
    requires IsBoard(g) && InGrid(row, col)
    ensures At(g, row, col) == Empty ==> conflicts == []
    ensures At(g, row, col) != Empty ==>
      forall p :: p in conflicts <==> RunConflict(g, row, col, p) || AnchorConflict(g, row, col, cs, |cs|, p)
    ensures forall p :: p in conflicts ==> InGrid(p.row, p.col) && p != Pos(row, col)
  {
    var s := At(g, row, col);
    if s == Empty {
      return [];
    }
    var horizontal := RunConflictsH(g, row, col);
    var vertical := RunConflictsV(g, row, col);
    conflicts := horizontal + vertical;
    for i := 0 to |cs|
      invariant forall p :: p in conflicts <==> RunConflict(g, row, col, p) || AnchorConflict(g, row, col, cs, i, p)
    {
      var c := cs[i];
      if c.row == row && c.col == col && c.dir == Horizontal {
        var right := CellAt(g, row, col + 1);
        if right.Some? && right.value != Empty {
          var shouldMatch := c.kind == Equals;
          if (shouldMatch && s != right.value) || (!shouldMatch && s == right.value) {
            assert ViolatedAnchor(g, row, col, c, Pos(row, col + 1));
            conflicts := conflicts + [Pos(row, col + 1)];
          }
        }
      }
      if c.row == row && c.col == col && c.dir == Vertical {
        var bottom := CellAt(g, row + 1, col);
        if bottom.Some? && bottom.value != Empty {
          var shouldMatch := c.kind == Equals;
          if (shouldMatch && s != bottom.value) || (!shouldMatch && s == bottom.value) {
            assert ViolatedAnchor(g, row, col, c, Pos(row + 1, col));
            conflicts := conflicts + [Pos(row + 1, col)];
          }
        }
      }
      forall p | AnchorConflict(g, row, col, cs, i + 1, p)
        ensures p in conflicts
      {
        var j :| 0 <= j < i + 1 && ViolatedAnchor(g, row, col, cs[j], p);
        if j < i {
          assert AnchorConflict(g, row, col, cs, i, p);
        }
      }
    }
  }

  /**
   * The conflict report only follows constraints that start at the cell: a
   * violated constraint arriving from the left is rejected by the move check
   * but reported by neither end.
   */
  lemma ArrivingConstraintNotReported()
    ensures var g := seq(Cells, i => if i < 2 then Sun else Empty);
            var cs := [Constraint(0, 0, NotEquals, Horizontal)];
            && IsBoard(g)
            && !ValidMove(g, 0, 1, Sun, cs)
            && (forall p :: !RunConflict(g, 0, 1, p) && !AnchorConflict(g, 0, 1, cs, |cs|, p))
  {
    var g := seq(Cells, i => if i < 2 then Sun else Empty);
    var cs := [Constraint(0, 0, NotEquals, Horizontal)];
    assert !ConstraintAllows(g, 0, 1, Sun, cs[0]);
    assert At(g, 0, 2) == Empty && At(g, 1, 1) == Empty && At(g, 2, 1) == Empty;
  }
}
