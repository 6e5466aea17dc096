/** revealSquare and revealEmptyNeighbors: revealing a safe cell and, when
    it has no neighbouring mine, recursively revealing its neighbours in
    the order of the direction table. */
module FloodFill {
  import opened Grid
  import opened Board

  /** What a reveal leaves alone: the mine set, the flag counters and the
      status. */
  predicate SameBookkeeping(g: Game, r: Game) {
    && r.mines == g.mines
    && r.correctFlags == g.correctFlags
    && r.remainingFlags == g.remainingFlags
    && r.status == g.status
  }

  /** Every cell that differs between `g` and `r` was unrevealed in `g`, is
      not a mine, and is revealed in `r` showing its neighbour mine count. */
  predicate OnlyNewlyRevealed(g: Game, r: Game)
    requires WellFormed(g) && WellFormed(r)
  {
    forall i | 0 <= i < CellCount && r.cells[i] != g.cells[i] ::
      && !g.cells[i].Revealed?
      && i !in g.mines
      && r.cells[i] == Revealed(MineCount(g.mines, i))
  }

  /** revealSquare(Row(n), Col(n)). The caller guarantees that `n` is not a
      mine. An already revealed cell is left as it is. */
  function Reveal(g: Game, n: int): (r: Game)
    requires WellFormed(g) && ValidIndex(n) && n !in g.mines
    ensures WellFormed(r) && SameBookkeeping(g, r)
    ensures r.cells[n].Revealed?
    ensures g.cells[n].Revealed? ==> r == g
    ensures RevealedCells(g.cells) <= RevealedCells(r.cells)
    ensures OnlyNewlyRevealed(g, r)
    ensures r.revealedSafe - g.revealedSafe == |RevealedCells(r.cells)| - |RevealedCells(g.cells)|
    decreases UnrevealedCells(g.cells), 0, 0
  {
    if g.cells[n].Revealed? then g
    else
      var count := MineCount(g.mines, n);
      var g1 := g.(cells := g.cells[n := Revealed(count)], revealedSafe := g.revealedSafe + 1);
      RevealOne(g, n, count);
      if count == 0 then RevealNeighbours(g1, n, 0) else g1
  }

  /** revealEmptyNeighbors(Row(n), Col(n)), from direction `k` onwards: every
      neighbour that is on the board and is not a mine is revealed. */
  function RevealNeighbours(g: Game, n: int, k: int): (r: Game)
    requires WellFormed(g) && ValidIndex(n) && 0 <= k <= 8
    ensures WellFormed(r) && SameBookkeeping(g, r)
    ensures RevealedCells(g.cells) <= RevealedCells(r.cells)
    ensures OnlyNewlyRevealed(g, r)
    ensures r.revealedSafe - g.revealedSafe == |RevealedCells(r.cells)| - |RevealedCells(g.cells)|
    decreases UnrevealedCells(g.cells), 1, 8 - k
  {
    if k == 8 then g
    else
      PositionRoundTrip(n);
      var row, col := Row(n), Col(n);
      var g1 :=
        if StepInBounds(row, col, k) && Step(row, col, k) !in g.mines
        then Reveal(g, Step(row, col, k))
        else g;
      assert UnrevealedCells(g1.cells) <= UnrevealedCells(g.cells);
      RevealNeighbours(g1, n, k + 1)
  }

  /** Marking one unrevealed cell as revealed adds exactly that cell to the
      revealed ones. */
  lemma RevealOne(g: Game, n: int, count: int)
    requires WellFormed(g) && ValidIndex(n) && !g.cells[n].Revealed?
    ensures RevealedCells(g.cells[n := Revealed(count)]) == RevealedCells(g.cells) + {n}
    ensures n !in RevealedCells(g.cells)
    ensures UnrevealedCells(g.cells[n := Revealed(count)]) == UnrevealedCells(g.cells) - {n}
    ensures n in UnrevealedCells(g.cells)
  {
  }

  /** Every neighbour of `n` in a direction below `k` that is on the board
      and is not a mine is revealed. */
  ghost predicate NeighboursDoneBefore(g: Game, n: int, k: int)
    requires WellFormed(g) && ValidIndex(n) && 0 <= k <= 8
  {
    PositionRoundTrip(n);
    forall j | 0 <= j < k && StepInBounds(Row(n), Col(n), j) && Step(Row(n), Col(n), j) !in g.mines ::
      g.cells[Step(Row(n), Col(n), j)].Revealed?
  }

  /** Flood-fill closure: revealing a cell keeps every revealed zero cell
      (outside `pending`) surrounded by revealed safe neighbours. */
  lemma {:induction false} RevealKeepsClosed(g: Game, n: int, pending: set<int>)
    requires WellFormed(g) && ValidIndex(n) && n !in g.mines
    requires Closed(g, pending)
    ensures Closed(Reveal(g, n), pending)
    decreases UnrevealedCells(g.cells), 0, 0
  {
    if !g.cells[n].Revealed? {
      var count := MineCount(g.mines, n);
      var g1 := g.(cells := g.cells[n := Revealed(count)], revealedSafe := g.revealedSafe + 1);
      RevealOne(g, n, count);
      if count == 0 {
        assert Closed(g1, pending + {n});
        RevealNeighboursKeepsClosed(g1, n, 0, pending);
      } else {
        assert Closed(g1, pending);
      }
    }
  }

  /** While the neighbours of the zero cell `n` are being revealed, `n` is
      the one cell whose closure is pending; once all eight directions are
      done it is closed too. */
  lemma {:induction false} RevealNeighboursKeepsClosed(g: Game, n: int, k: int, pending: set<int>)
    requires WellFormed(g) && ValidIndex(n) && 0 <= k <= 8
    requires g.cells[n] == Revealed(0)
    requires Closed(g, pending + {n})
    requires NeighboursDoneBefore(g, n, k)
    ensures Closed(RevealNeighbours(g, n, k), pending)
    decreases UnrevealedCells(g.cells), 1, 8 - k
  {
    PositionRoundTrip(n);
    var row, col := Row(n), Col(n);
    if k == 8 {
      AllNeighboursDone(g, n, pending);
    } else {
      var g1 :=
        if StepInBounds(row, col, k) && Step(row, col, k) !in g.mines
        then Reveal(g, Step(row, col, k))
        else g;
      if StepInBounds(row, col, k) && Step(row, col, k) !in g.mines {
        RevealKeepsClosed(g, Step(row, col, k), pending + {n});
      }
      NeighbourStepDone(g, g1, n, k);
      RevealNeighboursKeepsClosed(g1, n, k + 1, pending);
    }
  }

  /** With every direction done, the zero cell `n` needs no more work. */
  lemma AllNeighboursDone(g: Game, n: int, pending: set<int>)
    requires WellFormed(g) && ValidIndex(n)
    requires Closed(g, pending + {n})
    requires NeighboursDoneBefore(g, n, 8)
    ensures Closed(g, pending)
  {
    forall m | ValidIndex(m) && Adjacent(n, m) && m !in g.mines
      ensures g.cells[m].Revealed?
    {
      var d := Direction(n, m);
    }
  }

  /** Handling direction `k` extends the done directions by one. */
  lemma NeighbourStepDone(g: Game, g1: Game, n: int, k: int)
    requires WellFormed(g) && WellFormed(g1) && ValidIndex(n) && 0 <= k < 8
    requires g1.mines == g.mines
    requires RevealedCells(g.cells) <= RevealedCells(g1.cells)
    requires NeighboursDoneBefore(g, n, k)
    requires InBounds(Row(n), Col(n))
    requires StepInBounds(Row(n), Col(n), k) && Step(Row(n), Col(n), k) !in g.mines ==>
               g1.cells[Step(Row(n), Col(n), k)].Revealed?
    ensures NeighboursDoneBefore(g1, n, k + 1)
  {
    var row, col := Row(n), Col(n);
    forall j | 0 <= j < k + 1 && StepInBounds(row, col, j) && Step(row, col, j) !in g1.mines
      ensures g1.cells[Step(row, col, j)].Revealed?
    {
      if j < k {
        assert Step(row, col, j) in RevealedCells(g.cells);
      }
    }
  }

  /** A path of unrevealed safe cells, each adjacent to the next, along which
      every cell but the last has no neighbouring mine: the route by which
      flood fill spreads from the first cell to the last. */
  ghost predicate ZeroPath(g: Game, p: seq<int>)
    requires WellFormed(g)
  {
    && |p| > 0
    && (forall i | 0 <= i < |p| :: ValidIndex(p[i]) && p[i] !in g.mines && !g.cells[p[i]].Revealed?)
    && (forall i | 0 <= i < |p| - 1 :: Adjacent(p[i], p[i + 1]) && MineCount(g.mines, p[i]) == 0)
  }

  /** `m` is in the flood region of `n`: a zero path leads from `n` to `m`. */
  ghost predicate Reaches(g: Game, n: int, m: int)
    requires WellFormed(g)
  {
    exists p :: ZeroPath(g, p) && p[0] == n && p[|p| - 1] == m
  }

  /** A zero path stays one when fewer cells are revealed. */
  lemma ZeroPathWeaken(h: Game, h1: Game, p: seq<int>)
    requires WellFormed(h) && WellFormed(h1) && h1.mines == h.mines
    requires RevealedCells(h.cells) <= RevealedCells(h1.cells)
    requires ZeroPath(h1, p)
    ensures ZeroPath(h, p)
  {
    forall i | 0 <= i < |p|
      ensures !h.cells[p[i]].Revealed?
    {
      assert p[i] !in RevealedCells(h1.cells);
    }
  }

  /** Everything a reveal changes lies in the flood region of the cell. */
  lemma {:induction false} RevealWithinRegion(g: Game, n: int)
    requires WellFormed(g) && ValidIndex(n) && n !in g.mines
    ensures forall m | 0 <= m < CellCount && Reveal(g, n).cells[m] != g.cells[m] :: Reaches(g, n, m)
    decreases UnrevealedCells(g.cells), 0, 0
  {
    var r := Reveal(g, n);
    if !g.cells[n].Revealed? {
      var count := MineCount(g.mines, n);
      var g1 := g.(cells := g.cells[n := Revealed(count)], revealedSafe := g.revealedSafe + 1);
      RevealOne(g, n, count);
      assert ZeroPath(g, [n]);
      if count == 0 {
        RevealNeighboursWithinRegion(g1, n, 0);
        ExtendRegion(g, g1, r, n);
      }
    }
  }

  /** What the neighbour loop changes after revealing the zero cell `n` is
      in the flood region of `n`. */
  lemma ExtendRegion(g: Game, g1: Game, r: Game, n: int)
    requires WellFormed(g) && WellFormed(r) && ValidIndex(n) && n !in g.mines && !g.cells[n].Revealed?
    requires MineCount(g.mines, n) == 0
    requires g1 == g.(cells := g.cells[n := Revealed(0)], revealedSafe := g.revealedSafe + 1)
    requires forall m | 0 <= m < CellCount && r.cells[m] != g1.cells[m] :: NearRegion(g1, n, m)
    ensures forall m | 0 <= m < CellCount && m != n && r.cells[m] != g.cells[m] :: Reaches(g, n, m)
  {
    forall m | 0 <= m < CellCount && m != n && r.cells[m] != g.cells[m]
      ensures Reaches(g, n, m)
    {
      assert r.cells[m] != g1.cells[m];
      var p :| ZeroPath(g1, p) && Adjacent(n, p[0]) && p[|p| - 1] == m;
      ZeroPathExtend(g, g1, n, p);
      assert ([n] + p)[0] == n && ([n] + p)[|[n] + p| - 1] == m;
    }
  }

  /** Putting the zero cell `n`, just revealed in `g1`, in front of a zero
      path of `g1` that starts next to it gives a zero path of `g`. */
  lemma ZeroPathExtend(g: Game, g1: Game, n: int, p: seq<int>)
    requires WellFormed(g) && ValidIndex(n) && n !in g.mines && !g.cells[n].Revealed?
    requires MineCount(g.mines, n) == 0
    requires g1 == g.(cells := g.cells[n := Revealed(0)], revealedSafe := g.revealedSafe + 1)
    requires ZeroPath(g1, p) && Adjacent(n, p[0])
    ensures ZeroPath(g, [n] + p)
  {
    RevealOne(g, n, 0);
    ZeroPathWeaken(g, g1, p);
    var q := [n] + p;
    forall i | 0 <= i < |q| - 1
      ensures Adjacent(q[i], q[i + 1]) && MineCount(g.mines, q[i]) == 0
    {
      if i > 0 {
        assert q[i] == p[i - 1] && q[i + 1] == p[i];
      }
    }
  }

  /** `m` is in the flood region of some neighbour of `n`. */
  ghost predicate NearRegion(g: Game, n: int, m: int)
    requires WellFormed(g) && ValidIndex(n)
  {
    exists p :: ZeroPath(g, p) && Adjacent(n, p[0]) && p[|p| - 1] == m
  }

  /** Everything the neighbour loop from direction `k` changes lies in the
      flood region of some neighbour of `n`. */
  lemma {:induction false} RevealNeighboursWithinRegion(h: Game, n: int, k: int)
    requires WellFormed(h) && ValidIndex(n) && 0 <= k <= 8
    ensures forall m | 0 <= m < CellCount && RevealNeighbours(h, n, k).cells[m] != h.cells[m] ::
              NearRegion(h, n, m)
    decreases UnrevealedCells(h.cells), 1, 8 - k
  {
    if k < 8 {
      var step, s, h1 := NeighbourTarget(h, n, k);
      if step {
        RevealWithinRegion(h, s);
        StepNear(h, h1, n, s);
      }
      RevealNeighboursWithinRegion(h1, n, k + 1);
      CombineNear(h, h1, RevealNeighbours(h1, n, k + 1), n);
    }
  }

  /** One turn of the neighbour loop: whether direction `k` leads to an
      on-board non-mine cell `s`, the board `h1` after revealing it, and
      the loop unrolled once. */
  lemma NeighbourTarget(h: Game, n: int, k: int) returns (step: bool, s: int, h1: Game)
    requires WellFormed(h) && ValidIndex(n) && 0 <= k < 8
    ensures step ==> ValidIndex(s) && Adjacent(n, s) && s !in h.mines && h1 == Reveal(h, s)
    ensures !step ==> h1 == h
    ensures WellFormed(h1) && h1.mines == h.mines
    ensures RevealedCells(h.cells) <= RevealedCells(h1.cells)
    ensures UnrevealedCells(h1.cells) <= UnrevealedCells(h.cells)
    ensures RevealNeighbours(h, n, k) == RevealNeighbours(h1, n, k + 1)
  {
    PositionRoundTrip(n);
    var row, col := Row(n), Col(n);
    step := StepInBounds(row, col, k) && Step(row, col, k) !in h.mines;
    s := if step then Step(row, col, k) else n;
    h1 := if step then Reveal(h, s) else h;
    assert UnrevealedCells(h1.cells) <= UnrevealedCells(h.cells);
  }

  /** The cells revealed from neighbour `s` of `n` are near `n`. */
  lemma StepNear(h: Game, h1: Game, n: int, s: int)
    requires WellFormed(h) && WellFormed(h1) && ValidIndex(n) && ValidIndex(s) && Adjacent(n, s)
    requires forall m | 0 <= m < CellCount && h1.cells[m] != h.cells[m] :: Reaches(h, s, m)
    ensures forall m | 0 <= m < CellCount && h1.cells[m] != h.cells[m] :: NearRegion(h, n, m)
  {
    forall m | 0 <= m < CellCount && h1.cells[m] != h.cells[m]
      ensures NearRegion(h, n, m)
    {
      NearViaStep(h, n, s, m);
    }
  }

  /** Changes near `n` made in two stages, the second on a board with more
      cells revealed, are near `n` on the original board. */
  lemma CombineNear(h: Game, h1: Game, r: Game, n: int)
    requires WellFormed(h) && WellFormed(h1) && WellFormed(r) && ValidIndex(n)
    requires h1.mines == h.mines && RevealedCells(h.cells) <= RevealedCells(h1.cells)
    requires forall m | 0 <= m < CellCount && h1.cells[m] != h.cells[m] :: NearRegion(h, n, m)
    requires forall m | 0 <= m < CellCount && r.cells[m] != h1.cells[m] :: NearRegion(h1, n, m)
    ensures forall m | 0 <= m < CellCount && r.cells[m] != h.cells[m] :: NearRegion(h, n, m)
  {
    forall m | 0 <= m < CellCount && r.cells[m] != h.cells[m]
      ensures NearRegion(h, n, m)
    {
      if h1.cells[m] == h.cells[m] {
        NearViaLater(h, h1, n, m);
      }
    }
  }

  /** A cell in the flood region of neighbour `s` of `n` is near `n`. */
  lemma NearViaStep(h: Game, n: int, s: int, m: int)
    requires WellFormed(h) && ValidIndex(n) && ValidIndex(s)
    requires Adjacent(n, s) && Reaches(h, s, m)
    ensures NearRegion(h, n, m)
  {
    var p :| ZeroPath(h, p) && p[0] == s && p[|p| - 1] == m;
  }

  /** Nearness on a board with more cells revealed carries back to `h`. */
  lemma NearViaLater(h: Game, h1: Game, n: int, m: int)
    requires WellFormed(h) && WellFormed(h1) && h1.mines == h.mines && ValidIndex(n)
    requires RevealedCells(h.cells) <= RevealedCells(h1.cells)
    requires NearRegion(h1, n, m)
    ensures NearRegion(h, n, m)
  {
    var p :| ZeroPath(h1, p) && Adjacent(n, p[0]) && p[|p| - 1] == m;
    ZeroPathWeaken(h, h1, p);
  }

  /** On a closed board, everything in the flood region of a cell is
      changed by revealing it. */
  lemma RegionRevealed(g: Game, n: int, p: seq<int>)
    requires WellFormed(g) && ValidIndex(n) && n !in g.mines && Closed(g, {})
    requires ZeroPath(g, p) && p[0] == n
    ensures Reveal(g, n).cells[p[|p| - 1]] != g.cells[p[|p| - 1]]
  {
    var r := Reveal(g, n);
    RevealKeepsClosed(g, n, {});
    var i := 0;
    while i < |p| - 1
      invariant 0 <= i < |p|
      invariant r.cells[p[i]].Revealed?
    {
      assert r.cells[p[i]] != g.cells[p[i]];
      assert r.cells[p[i]] == Revealed(0);
      assert Adjacent(p[i], p[i + 1]);
      i := i + 1;
    }
  }

  /** revealSquare on a closed board changes exactly the flood region of
      the cell: its connected zero cells and the numbered cells bordering
      them, none of them revealed before and none a mine. */
  lemma FloodFillRegion(g: Game, n: int)
    requires WellFormed(g) && ValidIndex(n) && n !in g.mines && Closed(g, {})
    ensures forall m | 0 <= m < CellCount ::
              Reveal(g, n).cells[m] != g.cells[m] <==> Reaches(g, n, m)
  {
    RevealWithinRegion(g, n);
    forall m | 0 <= m < CellCount && Reaches(g, n, m)
      ensures Reveal(g, n).cells[m] != g.cells[m]
    {
      var p :| ZeroPath(g, p) && p[0] == n && p[|p| - 1] == m;
      RegionRevealed(g, n, p);
    }
  }
}
