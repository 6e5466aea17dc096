/** A game from setupBoard through any sequence of clicks: what holds in
    every state the player can reach. */
module Session {
  import opened Grid
  import opened Placement
  import opened Board
  import opened Engine
  import opened Invariants

  /** setupBoard: place the mines from the draws, then start a fresh game.
      None when the draws run out before BombCount distinct indices. */
  method SetupBoard(draws: seq<int>) returns (r: Option<Game>)
    requires forall i | 0 <= i < |draws| :: ValidIndex(draws[i])
    ensures r.Some? <==> |set x | x in draws| >= BombCount
    ensures r.Some? ==> Inv(r.value) && !r.value.Over()
    ensures r.Some? ==> |r.value.mines| == BombCount && r.value.mines <= set x | x in draws
    ensures r.Some? ==> exists u | 0 < u <= |draws| ::
      && r.value.mines == (set x | x in FirstOccurrences(draws[..u]))
      && |FirstOccurrences(draws[..u - 1])| == BombCount - 1
    ensures r.Some? ==> RevealedCells(r.value.cells) == {} && FlaggedCells(r.value.cells) == {}
    ensures r.Some? ==> r.value.remainingFlags == BombCount
  {
    var placed, used := PlaceMines(draws);
    if placed.None? {
      return None;
    }
    var mines := set x | x in placed.value;
    DistinctCardinality(placed.value);
    forall x | x in mines
      ensures x in draws
    {
      assert x in draws[..used];
    }
    var g := NewGame(mines);
    assert g.mines == mines;
    assert RevealedCells(g.cells) == {} && FlaggedCells(g.cells) == {};
    r := Some(g);
  }

  /** The clicks are cell indices on the board. */
  predicate ValidClicks(clicks: seq<int>) {
    forall i | 0 <= i < |clicks| :: ValidIndex(clicks[i])
  }

  /** The state after handling the clicks one by one. */
  function Play(g: Game, clicks: seq<int>): (r: Game)
    requires WellFormed(g) && ValidClicks(clicks)
    ensures WellFormed(r) && r.mines == g.mines
    decreases |clicks|
  {
    if |clicks| == 0 then g else Play(Click(g, clicks[0]), clicks[1..])
  }

  /** A click never hides a revealed cell nor changes what it shows, never
      lowers revealedSafeSquares, and never changes a finished game. */
  lemma ClickMonotone(g: Game, n: int)
    requires WellFormed(g) && ValidIndex(n)
    ensures RevealedCells(g.cells) <= RevealedCells(Click(g, n).cells)
    ensures forall i | 0 <= i < CellCount && g.cells[i].Revealed? :: Click(g, n).cells[i] == g.cells[i]
    ensures Click(g, n).revealedSafe >= g.revealedSafe
    ensures g.Over() ==> Click(g, n) == g
  {
    var r := Click(g, n);
    if !g.Over() && g.cells[n] == Flagged {
      if n !in g.mines {
        SubsetCardinality(RevealedCells(g.cells), RevealedCells(r.cells));
      } else {
        assert RevealedCells(r.cells) == RevealedCells(g.cells);
      }
    } else if !g.Over() && g.cells[n] == Hidden && g.remainingFlags > 0 {
      assert RevealedCells(r.cells) == RevealedCells(g.cells);
    }
  }

  /** Every state reached by clicks from a state that keeps the invariant
      keeps it too. */
  lemma {:induction false} PlayPreservesInv(g: Game, clicks: seq<int>)
    requires Inv(g) && ValidClicks(clicks)
    ensures Inv(Play(g, clicks))
    decreases |clicks|
  {
    if |clicks| > 0 {
      ClickPreservesInv(g, clicks[0]);
      PlayPreservesInv(Click(g, clicks[0]), clicks[1..]);
    }
  }

  /** Over any sequence of clicks revealed cells stay revealed,
      revealedSafeSquares never decreases, and a won or lost game stays
      exactly as it is. */
  lemma {:induction false} PlayMonotone(g: Game, clicks: seq<int>)
    requires WellFormed(g) && ValidClicks(clicks)
    ensures RevealedCells(g.cells) <= RevealedCells(Play(g, clicks).cells)
    ensures Play(g, clicks).revealedSafe >= g.revealedSafe
    ensures g.Over() ==> Play(g, clicks) == g
    ensures g.status == Won ==> Play(g, clicks).status == Won
    ensures g.status == Lost ==> Play(g, clicks).status == Lost
    decreases |clicks|
  {
    if |clicks| > 0 {
      ClickMonotone(g, clicks[0]);
      PlayMonotone(Click(g, clicks[0]), clicks[1..]);
    }
  }

  /** In every reachable state the counters are in range: at most
      SafeCount squares revealed, at most BombCount bombs correctly
      flagged, between 0 and BombCount flags in hand. */
  lemma ReachableBounds(mines: set<int>, clicks: seq<int>)
    requires ValidMines(mines) && ValidClicks(clicks)
    ensures Inv(Play(NewGame(mines), clicks))
    ensures 0 <= Play(NewGame(mines), clicks).revealedSafe <= SafeCount
    ensures 0 <= Play(NewGame(mines), clicks).correctFlags <= BombCount
    ensures 0 <= Play(NewGame(mines), clicks).remainingFlags <= BombCount
  {
    PlayPreservesInv(NewGame(mines), clicks);
    CounterBounds(Play(NewGame(mines), clicks));
  }

  /** A game in play never gets stuck: some click still changes the state.
      With a flag in hand any mine can be clicked (it is hidden or
      flagged); with none, some cell holds a flag that can be lifted. */
  lemma NoDeadlock(g: Game) returns (n: int)
    requires Inv(g) && !g.Over()
    ensures ValidIndex(n) && Click(g, n) != g
  {
    assert UnflaggedCells(g.cells) == {};
    if g.remainingFlags > 0 {
      n := Element(g.mines);
      assert !g.cells[n].Revealed? && n !in UnflaggedCells(g.cells);
    } else {
      n := Element(FlaggedCells(g.cells));
    }
    assert Click(g, n).cells[n] != g.cells[n];
  }

  /** Flood fill reveals flagged safe cells without returning their flags:
      lifting the flag from a safe cell with no neighbouring mine reveals a
      flagged safe neighbour too, and the flags on the board plus those in
      hand drop. */
  lemma FloodFillSwallowsFlags(g: Game, n: int, m: int)
    requires Inv(g) && !g.Over() && ValidIndex(n) && ValidIndex(m)
    requires g.cells[n] == Flagged && n !in g.mines && MineCount(g.mines, n) == 0
    requires Adjacent(n, m) && g.cells[m] == Flagged && m !in g.mines
    ensures Click(g, n).cells[m].Revealed?
    ensures Click(g, n).remainingFlags == g.remainingFlags + 1
    ensures Click(g, n).remainingFlags + |FlaggedCells(Click(g, n).cells)|
            < g.remainingFlags + |FlaggedCells(g.cells)|
  {
    var r := Click(g, n);
    ClickPreservesInv(g, n);
    LiftFlagGuards(g, n);
    LiftSafeFlagged(g, n);
    assert r.cells[n] == Revealed(0);
    assert r.cells[m].Revealed?;
    var f := FlaggedCells(g.cells);
    assert FlaggedCells(r.cells) <= f - {n} - {m};
    SubsetCardinality(FlaggedCells(r.cells), f - {n} - {m});
    assert n in f && m in f && n != m;
    assert |f - {n} - {m}| == |f| - 2;
  }

  /** The mines of the sample board. */
  const SampleMines: set<int> := {5, 17, 42, 73, 88}

  /** A board with the mines at 5, 17, 42, 73 and 88. */
  function SampleGame(): (g: Game)
    ensures Inv(g) && !g.Over() && g.mines == SampleMines
  {
    assert |SampleMines| == 5;
    NewGame(SampleMines)
  }

  /** Flagging the five mines in turn wins the game on the fifth flag and
      not before. */
  lemma FlagAllMinesWins()
    ensures Play(SampleGame(), [5, 17, 42, 73]).status == Playing
    ensures Play(SampleGame(), [5, 17, 42, 73, 88]).status == Won
    ensures Play(SampleGame(), [5, 17, 42, 73, 88]).correctFlags == BombCount
  {
    var g := SampleGame();
    var g1 := Click(g, 5);
    var g2 := Click(g1, 17);
    var g3 := Click(g2, 42);
    var g4 := Click(g3, 73);
    var g5 := Click(g4, 88);
    assert g4.correctFlags == 4 && g4.status == Playing;
    assert Play(g, [5, 17, 42, 73]) == g4 by {
      assert [5, 17, 42, 73][1..] == [17, 42, 73];
      assert [17, 42, 73][1..] == [42, 73];
      assert [42, 73][1..] == [73];
    }
    assert Play(g, [5, 17, 42, 73, 88]) == g5 by {
      assert [5, 17, 42, 73, 88][1..] == [17, 42, 73, 88];
      assert [17, 42, 73, 88][1..] == [42, 73, 88];
      assert [42, 73, 88][1..] == [73, 88];
      assert [73, 88][1..] == [88];
    }
  }

  /** Clicking a mine twice (flag, then unflag) loses the game with nothing
      revealed; the cell keeps the just-unflagged tag, and later clicks
      change nothing. */
  lemma DoubleClickMineLoses(n: int)
    requires ValidIndex(n)
    ensures Play(SampleGame(), [5, 5]).status == Lost
    ensures Play(SampleGame(), [5, 5]).cells[5] == Unflagged
    ensures RevealedCells(Play(SampleGame(), [5, 5]).cells) == {}
    ensures Click(Play(SampleGame(), [5, 5]), n) == Play(SampleGame(), [5, 5])
  {
    var g := SampleGame();
    var g2 := Click(Click(g, 5), 5);
    assert [5, 5][1..] == [5];
    assert Play(g, [5, 5]) == g2;
    assert RevealedCells(g.cells) == {};
    assert RevealedCells(g2.cells) == RevealedCells(g.cells);
  }

  /** Cell 4 of the sample board (row 0, column 4) touches one mine, 5. */
  lemma SampleCountAtFour()
    ensures MineCount(SampleGame().mines, 4) == 1
  {
    SampleCountAbove();
    SampleCountBeside();
  }

  /** The three directions pointing above row 0 leave the board. */
  lemma SampleCountAbove()
    ensures CountFrom(SampleMines, 0, 4, 0) == CountFrom(SampleMines, 0, 4, 3)
  {
    assert !StepInBounds(0, 4, 0) && !StepInBounds(0, 4, 1) && !StepInBounds(0, 4, 2);
  }

  /** Of the five remaining neighbours 3, 5, 13, 14 and 15 only 5 is a
      mine. */
  lemma SampleCountBeside()
    ensures CountFrom(SampleMines, 0, 4, 3) == 1
  {
    assert CountFrom(SampleMines, 0, 4, 8) == 0;
    assert Step(0, 4, 7) == 15 && CountFrom(SampleMines, 0, 4, 7) == 0;
    assert Step(0, 4, 6) == 14 && CountFrom(SampleMines, 0, 4, 6) == 0;
    assert Step(0, 4, 5) == 13 && CountFrom(SampleMines, 0, 4, 5) == 0;
    assert Step(0, 4, 4) == 5 && CountFrom(SampleMines, 0, 4, 4) == 1;
    assert Step(0, 4, 3) == 3;
  }

  /** Clicking twice a safe cell next to a mine reveals just that cell,
      showing one neighbouring mine, and the game goes on. */
  lemma DoubleClickNumberedCell()
    ensures Play(SampleGame(), [4, 4]).cells[4] == Revealed(1)
    ensures Play(SampleGame(), [4, 4]).revealedSafe == 1
    ensures Play(SampleGame(), [4, 4]).remainingFlags == BombCount
    ensures Play(SampleGame(), [4, 4]).status == Playing
  {
    var g := SampleGame();
    SampleCountAtFour();
    var g1 := Click(g, 4);
    assert g1 == PlaceFlag(g, 4);
    var g2 := Click(g1, 4);
    assert g2 == LiftFlag(g1, 4);
    assert [4, 4][1..] == [4];
    assert Play(g, [4, 4]) == g2;
  }

  /** Cell 0 of the sample board, a corner, touches no mine. */
  lemma SampleCountAtZero()
    ensures MineCount(SampleGame().mines, 0) == 0
  {
    assert !StepInBounds(0, 0, 0) && !StepInBounds(0, 0, 1) && !StepInBounds(0, 0, 2);
    assert !StepInBounds(0, 0, 3) && !StepInBounds(0, 0, 5);
    assert Step(0, 0, 4) == 1 && Step(0, 0, 6) == 10 && Step(0, 0, 7) == 11;
    assert CountFrom(SampleMines, 0, 0, 4) == 0;
  }

  /** Flagging the safe cells 0 and 1 of the sample board. */
  lemma SampleFlagsZeroOne()
    ensures Play(SampleGame(), [0, 1]).cells[0] == Flagged
    ensures Play(SampleGame(), [0, 1]).cells[1] == Flagged
    ensures Play(SampleGame(), [0, 1]).remainingFlags == BombCount - 2
    ensures !Play(SampleGame(), [0, 1]).Over()
  {
    var g := SampleGame();
    var g1 := Click(g, 0);
    assert g1 == PlaceFlag(g, 0);
    var g2 := Click(g1, 1);
    assert g2 == PlaceFlag(g1, 1);
    assert [0, 1][1..] == [1];
    assert Play(g, [0, 1]) == g2;
  }

  /** Flagging the safe cells 0 and 1 and then lifting the flag from 0
      reveals 1 as well, and its flag is not given back. */
  lemma SwallowedFlag()
    ensures Click(Play(SampleGame(), [0, 1]), 0).cells[1].Revealed?
    ensures Click(Play(SampleGame(), [0, 1]), 0).remainingFlags == BombCount - 1
    ensures FlaggedCells(Click(Play(SampleGame(), [0, 1]), 0).cells) == {}
  {
    var g2 := Play(SampleGame(), [0, 1]);
    PlayPreservesInv(SampleGame(), [0, 1]);
    SampleCountAtZero();
    SampleFlagsZeroOne();
    FloodFillSwallowsFlags(g2, 0, 1);
  }
}
