/** Geometry of the fixed 10x10 board: the row/column <-> linear index
    arithmetic, the eight neighbour directions, and the count of mines
    around a cell. */
module Grid {

  /** The board is square: COLUMN_COUNT rows of COLUMN_COUNT cells. */
  const Columns: int := 10
  const CellCount: int := 100   // Columns * Columns
  const BombCount: int := 5
  /** The number of cells that are not mines once the mines are placed. */
  const SafeCount: int := CellCount - BombCount

  predicate InBounds(row: int, col: int) {
    0 <= row < Columns && 0 <= col < Columns
  }

  predicate ValidIndex(n: int) {
    0 <= n < CellCount
  }

  /** Linear index of a cell; `Row` and `Col` take it apart again. */
  function Index(row: int, col: int): (n: int)
    requires InBounds(row, col)
    ensures ValidIndex(n)
    ensures n / Columns == row && n % Columns == col
  {
    row * Columns + col
  }

  function Row(n: int): int
    requires ValidIndex(n)
  {
    n / Columns
  }

  function Col(n: int): int
    requires ValidIndex(n)
  {
    n % Columns
  }

  /** Splitting an index into its row and column and joining them again
      gives back the same cell. */
  lemma PositionRoundTrip(n: int)
    requires ValidIndex(n)
    ensures InBounds(Row(n), Col(n))
    ensures Index(Row(n), Col(n)) == n
  {
  }

  /** Two distinct cells touch horizontally, vertically or diagonally. */
  predicate Adjacent(a: int, b: int)
    requires ValidIndex(a) && ValidIndex(b)
  {
    && a != b
    && -1 <= Row(a) - Row(b) <= 1
    && -1 <= Col(a) - Col(b) <= 1
  }

  /** The edge-clipped Moore neighbourhood of a cell, without the cell itself. */
  function Neighbours(n: int): set<int>
    requires ValidIndex(n)
  {
    set m | 0 <= m < CellCount && Adjacent(n, m)
  }

  /** The eight offsets, in the order the board visits them. */
  const DRow: seq<int> := [-1, -1, -1, 0, 0, 1, 1, 1]
  const DCol: seq<int> := [-1, 0, 1, -1, 1, -1, 0, 1]

  /** Whether direction `k` from (row, col) stays on the board. */
  predicate StepInBounds(row: int, col: int, k: int)
    requires 0 <= k < 8
  {
    InBounds(row + DRow[k], col + DCol[k])
  }

  /** The cell reached from (row, col) in direction `k`. */
  function Step(row: int, col: int, k: int): (m: int)
    requires 0 <= k < 8 && InBounds(row, col) && StepInBounds(row, col, k)
    ensures ValidIndex(m) && Adjacent(Index(row, col), m)
  {
    Index(row + DRow[k], col + DCol[k])
  }

  /** The position in the direction table of the offset from `n` to `m`. */
  function Direction(n: int, m: int): (k: int)
    requires ValidIndex(n) && ValidIndex(m) && Adjacent(n, m)
    ensures 0 <= k < 8
    ensures StepInBounds(Row(n), Col(n), k) && Step(Row(n), Col(n), k) == m
  {
    var dr := Row(m) - Row(n);
    var dc := Col(m) - Col(n);
    PositionRoundTrip(n);
    PositionRoundTrip(m);
    if dr == -1 then (if dc == -1 then 0 else if dc == 0 then 1 else 2)
    else if dr == 0 then (if dc == -1 then 3 else 4)
    else (if dc == -1 then 5 else if dc == 0 then 6 else 7)
  }

  /** The neighbours of (row, col) reached by the directions `k` to 7. */
  ghost function NeighboursFrom(row: int, col: int, k: int): set<int>
    requires InBounds(row, col) && 0 <= k <= 8
  {
    set m | 0 <= m < CellCount && Adjacent(Index(row, col), m)
                                && Direction(Index(row, col), m) >= k
  }

  /** The mine count of the loop over directions `k` to 7, as the board
      computes it: one for each direction that stays on the board and
      lands on a mine. */
  function CountFrom(mines: set<int>, row: int, col: int, k: int): (count: int)
    requires InBounds(row, col) && 0 <= k <= 8
    ensures 0 <= count <= 8 - k
    decreases 8 - k
  {
    if k == 8 then 0
    else
      (if StepInBounds(row, col, k) && Step(row, col, k) in mines then 1 else 0)
      + CountFrom(mines, row, col, k + 1)
  }

  /** The loop over directions `k` to 7 counts each mine among the
      neighbours it visits exactly once. */
  lemma {:induction false} CountFromIsSetCount(mines: set<int>, row: int, col: int, k: int)
    requires InBounds(row, col) && 0 <= k <= 8
    ensures CountFrom(mines, row, col, k) == |NeighboursFrom(row, col, k) * mines|
    decreases 8 - k
  {
    if k == 8 {
      assert NeighboursFrom(row, col, k) == {};
    } else {
      CountFromIsSetCount(mines, row, col, k + 1);
      NeighboursFromStep(mines, row, col, k);
    }
  }

  /** Going one direction further drops exactly the cell in direction `k`. */
  lemma NeighboursFromStep(mines: set<int>, row: int, col: int, k: int)
    requires InBounds(row, col) && 0 <= k < 8
    ensures StepInBounds(row, col, k) ==>
      NeighboursFrom(row, col, k) * mines
        == NeighboursFrom(row, col, k + 1) * mines
           + (if Step(row, col, k) in mines then {Step(row, col, k)} else {})
    ensures StepInBounds(row, col, k) ==> Step(row, col, k) !in NeighboursFrom(row, col, k + 1)
    ensures !StepInBounds(row, col, k) ==>
      NeighboursFrom(row, col, k) == NeighboursFrom(row, col, k + 1)
  {
    var n := Index(row, col);
    PositionRoundTrip(n);
    forall m | 0 <= m < CellCount && Adjacent(n, m) && Direction(n, m) == k
      ensures StepInBounds(row, col, k) && m == Step(row, col, k)
    {
    }
    if StepInBounds(row, col, k) {
      var s := Step(row, col, k);
      assert Direction(n, s) == k by {
        var d := Direction(n, s);
        assert Step(row, col, d) == s;
        PositionRoundTrip(s);
      }
    }
  }

  /** countNeighborBombs: the number of mines around (row, col). */
  function NeighbourMines(mines: set<int>, row: int, col: int): (count: int)
    requires InBounds(row, col)
    ensures 0 <= count <= 8
  {
    CountFrom(mines, row, col, 0)
  }

  /** The direction loop counts each mine of the Moore neighbourhood once,
      so the count is at most eight. */
  lemma NeighbourMinesIsMooreCount(mines: set<int>, row: int, col: int)
    requires InBounds(row, col)
    ensures NeighbourMines(mines, row, col) == |Neighbours(Index(row, col)) * mines|
    ensures 0 <= NeighbourMines(mines, row, col) <= 8
  {
    CountFromIsSetCount(mines, row, col, 0);
    assert NeighboursFrom(row, col, 0) == Neighbours(Index(row, col));
  }

  /** The mine count of a cell given by its linear index: the number of
      mines in its Moore neighbourhood. */
  function MineCount(mines: set<int>, n: int): (count: int)
    requires ValidIndex(n)
    ensures 0 <= count <= 8
  {
    PositionRoundTrip(n);
    NeighbourMinesIsMooreCount(mines, Row(n), Col(n));
    NeighbourMines(mines, Row(n), Col(n))
  }

  /** The count shown for cell `n` is the number of mines touching it. */
  lemma MineCountIsMooreCount(mines: set<int>, n: int)
    requires ValidIndex(n)
    ensures MineCount(mines, n) == |Neighbours(n) * mines|
  {
    PositionRoundTrip(n);
    NeighbourMinesIsMooreCount(mines, Row(n), Col(n));
  }
}
