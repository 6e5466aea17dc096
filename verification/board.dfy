/** The state of one game: the per-cell state that the activity keeps in
    each cell view's tag, the mine set, and the four counters. */
module Board {
  import opened Grid

  /** The tag of a cell: no tag (hidden), 1 (flagged), 2 (just unflagged)
      or "revealed", which here also carries the neighbour mine count the
      cell displays. */
  datatype Cell = Hidden | Flagged | Unflagged | Revealed(count: int)

  /** `gameOver`, split by the branch that set it. */
  datatype Status = Playing | Won | Lost

  datatype Game = Game(
    cells: seq<Cell>,
    mines: set<int>,
    revealedSafe: int,     // revealedSafeSquares
    correctFlags: int,     // correctlyFlaggedBombs
    remainingFlags: int,   // remainingFlags
    status: Status)
  {
    predicate Over() {
      status != Playing
    }
  }

  predicate WellFormed(g: Game) {
    |g.cells| == CellCount
  }

  function RevealedCells(cells: seq<Cell>): set<int> {
    set i | 0 <= i < |cells| && cells[i].Revealed?
  }

  function UnrevealedCells(cells: seq<Cell>): set<int> {
    set i | 0 <= i < |cells| && !cells[i].Revealed?
  }

  function FlaggedCells(cells: seq<Cell>): set<int> {
    set i | 0 <= i < |cells| && cells[i] == Flagged
  }

  function UnflaggedCells(cells: seq<Cell>): set<int> {
    set i | 0 <= i < |cells| && cells[i] == Unflagged
  }

  function AllCells(): set<int> {
    Range(CellCount)
  }

  /** `0 <= i < k` as a named predicate: it gives the comprehension in
      Range a term to trigger on, which a bare comparison does not. */
  predicate Below(i: int, k: int) {
    0 <= i < k
  }

  /** The integers 0 .. k - 1. The explicit bound lets Dafny see the set is
      finite; `Below` supplies the trigger. */
  function Range(k: int): set<int> {
    set i | 0 <= i < k && Below(i, k)
  }

  /** Every revealed cell showing zero, other than those in `pending`, has
      all its neighbours that are not mines revealed. With `pending` empty
      this is the state flood fill leaves behind. */
  ghost predicate Closed(g: Game, pending: set<int>)
    requires WellFormed(g)
  {
    forall i, m | ValidIndex(i) && ValidIndex(m) && i !in pending && g.cells[i] == Revealed(0)
                  && Adjacent(i, m) && m !in g.mines
      :: g.cells[m].Revealed?
  }

  /** A set of BombCount cell indices. */
  ghost predicate ValidMines(mines: set<int>) {
    && |mines| == BombCount
    && forall m | m in mines :: ValidIndex(m)
  }

  /** A revealed cell is never a mine and shows its neighbour mine count. */
  ghost predicate RevealedSafe(g: Game)
    requires WellFormed(g)
  {
    forall i | 0 <= i < CellCount && g.cells[i].Revealed? ::
      i !in g.mines && g.cells[i].count == MineCount(g.mines, i)
  }

  /** The counters agree with the cells: one revealed square per revealed
      cell, one correct flag per flagged mine, and the flags on the board
      plus those in hand never exceed BombCount nor fall to zero. */
  ghost predicate CountersAgree(g: Game) {
    && g.revealedSafe == |RevealedCells(g.cells)|
    && g.correctFlags == |FlaggedCells(g.cells) * g.mines|
    && 0 <= g.remainingFlags
    && 1 <= g.remainingFlags + |FlaggedCells(g.cells)| <= BombCount
  }

  /** The tag 2 survives only on the mine whose unflagging lost the game;
      a game still in play has not met its win condition. */
  ghost predicate StatusAgrees(g: Game) {
    && UnflaggedCells(g.cells) <= g.mines
    && (g.status == Lost <==> UnflaggedCells(g.cells) != {})
    && (g.status == Playing ==> g.revealedSafe != SafeCount && g.correctFlags != BombCount)
    && (g.status == Won ==> g.revealedSafe == SafeCount || g.correctFlags == BombCount)
  }

  /** The bookkeeping that every reachable game state satisfies. */
  ghost predicate Inv(g: Game) {
    && WellFormed(g)
    && ValidMines(g.mines)
    && RevealedSafe(g)
    && CountersAgree(g)
    && StatusAgrees(g)
    && Closed(g, {})
  }

  lemma {:induction false} RangeCardinality(k: nat)
    ensures |Range(k)| == k
  {
    if k > 0 {
      RangeCardinality(k - 1);
      assert Range(k) == Range(k - 1) + {k - 1};
    }
  }

  /** A subset's complement within a superset makes up the difference in size. */
  lemma SubsetCardinality(a: set<int>, b: set<int>)
    requires a <= b
    ensures |b| == |a| + |b - a|
  {
    assert b == a + (b - a);
    assert a * (b - a) == {};
  }

  /** The safe cells of a valid mine layout number SafeCount. */
  lemma SafeCellsCount(mines: set<int>)
    requires ValidMines(mines)
    ensures |AllCells() - mines| == SafeCount
  {
    RangeCardinality(CellCount);
    assert mines <= AllCells();
    assert AllCells() == (AllCells() - mines) + mines;
  }

  /** No mine is ever revealed, so at most SafeCount cells are, and the
      counters stay within their ranges. */
  lemma CounterBounds(g: Game)
    requires Inv(g)
    ensures 0 <= g.revealedSafe <= SafeCount
    ensures 0 <= g.correctFlags <= BombCount
    ensures 0 <= g.remainingFlags <= BombCount
  {
    SafeCellsCount(g.mines);
    assert RevealedCells(g.cells) <= AllCells() - g.mines;
    SubsetCardinality(RevealedCells(g.cells), AllCells() - g.mines);
    SubsetCardinality(FlaggedCells(g.cells) * g.mines, g.mines);
  }

  /** The reveal counter of a reachable state reaches SafeCount exactly
      when every safe cell is revealed. */
  lemma AllSafeRevealedMeaning(g: Game)
    requires WellFormed(g) && ValidMines(g.mines) && RevealedSafe(g) && CountersAgree(g)
    ensures g.revealedSafe == SafeCount <==> RevealedCells(g.cells) == AllCells() - g.mines
    ensures g.revealedSafe == SafeCount <==>
              forall i | 0 <= i < CellCount && i !in g.mines :: g.cells[i].Revealed?
  {
    var safe := AllCells() - g.mines;
    var revealed := RevealedCells(g.cells);
    SafeCellsCount(g.mines);
    assert revealed <= safe;
    if g.revealedSafe == SafeCount {
      SubsetOfSameSize(revealed, safe);
    }
    if forall i | 0 <= i < CellCount && i !in g.mines :: g.cells[i].Revealed? {
      forall i | i in safe
        ensures i in revealed
      {
        assert Below(i, CellCount);
      }
    }
    if safe <= revealed {
      forall i | 0 <= i < CellCount && i !in g.mines
        ensures g.cells[i].Revealed?
      {
        assert Below(i, CellCount);
        assert i in safe;
      }
    }
  }

  /** The flag counter of a reachable state reaches BombCount exactly when
      every mine is flagged. */
  lemma AllMinesFlaggedMeaning(g: Game)
    requires WellFormed(g) && ValidMines(g.mines) && CountersAgree(g)
    ensures g.correctFlags == BombCount <==> forall m | m in g.mines :: g.cells[m] == Flagged
  {
    var flaggedMines := FlaggedCells(g.cells) * g.mines;
    if g.correctFlags == BombCount {
      SubsetOfSameSize(flaggedMines, g.mines);
      forall m | m in g.mines
        ensures g.cells[m] == Flagged
      {
        assert m in flaggedMines;
      }
    }
    if forall m | m in g.mines :: g.cells[m] == Flagged {
      assert g.mines <= flaggedMines;
      assert g.mines == flaggedMines;
    }
  }

  /** Some element of a non-empty set. */
  lemma Element(a: set<int>) returns (x: int)
    requires |a| > 0
    ensures x in a
  {
    // Dafny does not derive an element from |a| > 0 by itself; ruling out
    // the empty case explicitly makes the choice below well defined.
    if forall y :: y !in a {
      assert false;
    }
    x :| x in a;
  }

  lemma SubsetOfSameSize(a: set<int>, b: set<int>)
    requires a <= b && |a| == |b|
    ensures a == b
  {
    SubsetCardinality(a, b);
    assert b - a == {};
  }

  /** The state setupBoard leaves: every cell hidden, no square revealed,
      no bomb flagged, all flags available, play in progress. */
  function NewGame(mines: set<int>): (g: Game)
    requires ValidMines(mines)
    ensures Inv(g) && g.mines == mines
    ensures forall i | 0 <= i < CellCount :: g.cells[i] == Hidden
    ensures g.remainingFlags == BombCount && !g.Over()
  {
    var g := Game(seq(CellCount, _ => Hidden), mines, 0, 0, BombCount, Playing);
    assert RevealedCells(g.cells) == {};
    assert FlaggedCells(g.cells) == {};
    assert UnflaggedCells(g.cells) == {};
    g
  }
}
