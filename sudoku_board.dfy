/**
 * The fixed 9x9 Sudoku geometry: row-major cell indices, 3x3 boxes, and the
 * peers of a cell (the other cells of its row, its column and its box).
 */
module SudokuBoard {
  import opened Common

  const N: int := 9
  const Cells: int := 81

  datatype Pos = Pos(row: int, col: int)

  predicate InGrid(r: int, c: int)
  {
    0 <= r < N && 0 <= c < N
  }

  function Idx(r: int, c: int): int
  {
    r * N + c
  }

  function RowOf(k: int): int
  {
    k / N
  }

  function ColOf(k: int): int
  {
    k % N
  }

  lemma IdxInverse(k: int)
    requires 0 <= k < Cells
    ensures InGrid(RowOf(k), ColOf(k)) && Idx(RowOf(k), ColOf(k)) == k
  {
  }

  lemma IdxInjective(r1: int, c1: int, r2: int, c2: int)
    requires InGrid(r1, c1) && InGrid(r2, c2) && Idx(r1, c1) == Idx(r2, c2)
    ensures r1 == r2 && c1 == c2
  {
  }

  lemma IdxInRange(r: int, c: int)
    requires InGrid(r, c)
    ensures 0 <= Idx(r, c) < Cells
  {
  }

  /** The first row (or column) of the box band holding row (or column) x. */
  function BoxStart(x: int): int
  {
    x - x % 3
  }

  /** Boxes are the aligned bands of three: x and y share a band exactly when y lies within x's. */
  lemma SameBand(x: int, y: int)
    requires 0 <= x < N && 0 <= y < N
    ensures 0 <= BoxStart(x) && BoxStart(x) + 3 <= N
    ensures BoxStart(x) == BoxStart(y) <==> BoxStart(x) <= y < BoxStart(x) + 3
  {
  }

  predicate SameBox(r: int, c: int, r2: int, c2: int)
  {
    BoxStart(r2) == BoxStart(r) && BoxStart(c2) == BoxStart(c)
  }

  /** (r2, c2) lies in the row, the column or the box of (r, c), possibly the cell itself. */
  predicate SameUnit(r: int, c: int, r2: int, c2: int)
  {
    r2 == r || c2 == c || SameBox(r, c, r2, c2)
  }

  /** (r2, c2) is another cell of the row, the column or the box of (r, c). */
  predicate Peer(r: int, c: int, r2: int, c2: int)
  {
    SameUnit(r, c, r2, c2) && (r2 != r || c2 != c)
  }

  /** A list of the nine digits, each exactly once. */
  predicate AllDigitsOnce(s: seq<int>)
  {
    |s| == N && Distinct(s) && forall v :: 1 <= v <= N ==> v in s
  }

  lemma {:induction false} DistinctBound(s: seq<int>, d: set<int>)
    requires Distinct(s) && forall i :: 0 <= i < |s| ==> s[i] in d
    ensures |s| <= |d|
  {
    if s != [] {
      var a := s[0];
      var t := s[1..];
      assert d * {a} == {a};
      forall i | 0 <= i < |t|
        ensures t[i] in d - {a}
      {
        assert t[i] == s[i + 1];
      }
      DistinctBound(t, d - {a});
    }
  }

  /** Nine different digits from 1..9 are all of them. */
  lemma Pigeonhole(s: seq<int>)
    requires |s| == N && Distinct(s) && forall i :: 0 <= i < |s| ==> 1 <= s[i] <= N
    ensures AllDigitsOnce(s)
  {
    forall v | 1 <= v <= N
      ensures v in s
    {
      if v !in s {
        var digits: set<int> := {1, 2, 3, 4, 5, 6, 7, 8, 9};
        assert |digits| == 9;
        assert digits * {v} == {v};
        DistinctBound(s, digits - {v});
      }
    }
  }
}
