// The Whack-A-Mole game object: a 3x3 board of cells, the two counters and
// their on-screen copies, the last spawned mole, and the spawn timeline
// (reduced to whether it is playing). HandleClicks, Tick, StartGame,
// StartPlaying, EndGame and RestartGame are proved to move the abstract state
// Model() exactly as the matching function of GameSpec does, and what the game
// promises is proved about those functions in GameSpec. CreateView is proved
// to reach GameSpec's initial state, and Increment states its field updates
// directly.
module Games {
  import opened Cells
  import opened GameSpec

  class Game {
    // the board, row by row; a slot is null until CreateView fills it
    const board: array2<Cell?>
    const maxMisses: int
    var points: int
    var misses: int
    // the observable properties the score and miss labels are bound to
    var score: int
    var missProp: int
    // the last cell a mole was spawned in, null before the first tick
    var prevCell: Cell?
    // whether the spawn timeline is playing
    var running: bool
    // the position of prevCell on the board
    ghost var prevPos: Option<Pos>

    /** The board is 3x3, every slot holds a cell and no cell sits in two slots. */
    ghost predicate Populated()
      reads this, board
    {
      board.Length0 == Size && board.Length1 == Size &&
      (forall r, c :: 0 <= r < Size && 0 <= c < Size ==> board[r, c] != null) &&
      (forall r, c, r', c' ::
         (0 <= r < Size && 0 <= c < Size && 0 <= r' < Size && 0 <= c' < Size &&
          board[r, c] == board[r', c']) ==> r == r' && c == c')
    }

    ghost predicate Valid()
      reads this, board
    {
      Populated() && maxMisses == MaxMisses &&
      (prevCell == null <==> prevPos.None?) &&
      (prevPos.Some? ==>
         OnBoard(prevPos.value) && board[prevPos.value.row, prevPos.value.col] == prevCell)
    }

    /** The cells on the board. */
    ghost function Footprint(): set<Cell?>
      reads this, board
    {
      set r, c | 0 <= r < board.Length0 && 0 <= c < board.Length1 :: board[r, c]
    }

    /** The positions whose cell is active. */
    ghost function ActiveSet(): set<Pos>
      requires Valid()
      reads this, board, Footprint()
    {
      set r, c | 0 <= r < Size && 0 <= c < Size && board[r, c].active :: Pos(r, c)
    }

    /** The abstract state of the game. */
    ghost function Model(): State
      requires Valid()
      reads this, board, Footprint()
    {
      State(ActiveSet(), prevPos, points, misses, score, missProp, running)
    }

    /** A new game: counters at zero, no previous mole, timeline stopped, board not yet filled. */
    constructor ()
      ensures fresh(board) && board.Length0 == Size && board.Length1 == Size
      ensures forall r, c :: 0 <= r < Size && 0 <= c < Size ==> board[r, c] == null
      ensures maxMisses == MaxMisses
      ensures points == 0 && misses == 0 && score == 0 && missProp == 0
      ensures prevCell == null && prevPos == None && !running
    {
      board := new Cell?[Size, Size]((r, c) => null);
      maxMisses := MaxMisses;
      points := 0;
      misses := 0;
      score := points;
      missProp := misses;
      prevCell := null;
      prevPos := None;
      running := false;
    }

    /** Fills the board with nine new, distinct, inactive cells. */
    method CreateView()
      requires board.Length0 == Size && board.Length1 == Size && maxMisses == MaxMisses
      requires prevCell == null && prevPos == None
      modifies board
      ensures Valid()
      ensures forall r, c :: 0 <= r < Size && 0 <= c < Size ==> fresh(board[r, c])
      ensures Model() == State({}, None, points, misses, score, missProp, running)
    {
      for row := 0 to Size
        invariant forall r, c :: 0 <= r < row && 0 <= c < Size ==>
          board[r, c] != null && fresh(board[r, c]) && !board[r, c].active
        invariant forall r, c, r', c' ::
          (0 <= r < row && 0 <= c < Size && 0 <= r' < row && 0 <= c' < Size &&
           board[r, c] == board[r', c']) ==> r == r' && c == c'
      {
        for col := 0 to Size
          invariant forall r, c :: 0 <= r < Size && 0 <= c < Size && (r < row || (r == row && c < col)) ==>
            board[r, c] != null && fresh(board[r, c]) && !board[r, c].active
          invariant forall r, c, r', c' ::
            (0 <= r < Size && 0 <= c < Size && (r < row || (r == row && c < col)) &&
             0 <= r' < Size && 0 <= c' < Size && (r' < row || (r' == row && c' < col)) &&
             board[r, c] == board[r', c']) ==> r == r' && c == c'
        {
          var cell := new Cell();
          board[row, col] := cell;
        }
      }
      assert ActiveSet() == {};
    }

    /** A hit: ten points more, shown in the score. */
    method Increment(c: Cell)
      modifies this`points, this`score
      ensures points == old(points) + HitPoints && score == points
    {
      points := points + HitPoints;
      score := points;
    }

    /** A click on cell c, which sits at position `at`. */
    method HandleClicks(c: Cell, ghost at: Pos)
      requires Valid() && OnBoard(at) && board[at.row, at.col] == c
      modifies this`points, this`score, this`misses, this`missProp, this`running, c
      ensures Valid()
      ensures Model() == Click(old(Model()), at)
    {
      if c.GetActive() {
        Increment(c);
        c.SetActive(false);
      } else {
        misses := misses + 1;
        missProp := misses;
        if misses >= maxMisses {
          EndGame();
        }
      }
    }

    /**
     * One firing of the spawn timeline. `draws` is the stream of positions the
     * random generator yields, each a row and a column in 0..2; the loop
     * draws until it meets a cell other than the previous mole.
     */
    method Tick(draws: seq<Pos>)
      requires Valid() && running
      requires forall j :: 0 <= j < |draws| ==> OnBoard(draws[j])
      requires CanSpawn(draws, prevPos)
      modifies this`prevCell, this`prevPos, Footprint()
      ensures Valid()
      ensures Model() == TickTo(old(Model()), Spawn(draws, old(prevPos)))
    {
      if prevCell != null {
        prevCell.SetActive(false);
      }
      ghost var k :| 0 <= k < |draws| && Fresh(draws[k], prevPos);
      var i := 0;
      var row, col := draws[0].row, draws[0].col;
      while board[row, col] == prevCell
        invariant 0 <= i <= k && Pos(row, col) == draws[i]
        invariant forall j :: 0 <= j < i ==> !Fresh(draws[j], prevPos)
        decreases k - i
      {
        i := i + 1;
        row, col := draws[i].row, draws[i].col;
      }
      assert FirstFresh(draws, prevPos, i);
      SpawnIsFirstFresh(draws, prevPos, i);
      var curCell := board[row, col];
      curCell.SetActive(true);
      prevCell := curCell;
      prevPos := Some(Pos(row, col));
    }

    /** Starts the spawn timeline, to fire indefinitely. */
    method StartGame()
      requires Valid()
      modifies this`running
      ensures Valid()
      ensures Model() == GameSpec.StartPlaying(old(Model()))
    {
      running := true;
    }

    /** Leaves the start menu and starts playing. */
    method StartPlaying()
      requires Valid()
      modifies this`running
      ensures Valid()
      ensures Model() == GameSpec.StartPlaying(old(Model()))
    {
      StartGame();
    }

    /** Stops the spawn timeline. */
    method EndGame()
      requires Valid()
      modifies this`running
      ensures Valid()
      ensures Model() == GameSpec.EndGame(old(Model()))
    {
      running := false;
    }

    /** Zeroes both counters and plays again. */
    method RestartGame()
      requires Valid()
      modifies this`points, this`misses, this`score, this`missProp, this`running
      ensures Valid()
      ensures Model() == Restart(old(Model()))
    {
      misses := 0;
      points := 0;
      score := points;
      missProp := misses;
      StartPlaying();
    }
  }

  /** The game as the application sets it up: constructed, then its board populated. */
  method NewGame() returns (g: Game)
    ensures fresh(g) && fresh(g.board) && g.Valid() && g.Model() == Init()
    ensures forall r, c :: 0 <= r < Size && 0 <= c < Size ==> fresh(g.board[r, c])
  {
    g := new Game();
    g.CreateView();
  }

  /**
   * A client of the contracts above: start, tick, hit the mole, tick again
   * (the first draw repeats the mole and is redrawn), miss five times, restart.
   */
  method PlayScenario()
  {
    var g := NewGame();
    g.StartPlaying();
    assert Fresh([Pos(1, 1)][0], g.prevPos);
    g.Tick([Pos(1, 1)]);
    assert g.Model().active == {Pos(1, 1)};
    g.HandleClicks(g.board[1, 1], Pos(1, 1));
    assert g.points == 10 && g.misses == 0 && g.Model().active == {};
    assert Fresh([Pos(1, 1), Pos(0, 2)][1], g.prevPos);
    g.Tick([Pos(1, 1), Pos(0, 2)]);
    assert g.Model().active == {Pos(0, 2)};
    MissFiveTimes(g);
    assert !g.running && g.points == 10 && g.misses == 5;
    g.RestartGame();
    assert g.points == 0 && g.misses == 0 && g.running;
    assert g.Model().active == {Pos(0, 2)};
  }

  /** Five clicks on an empty cell end a game that had no misses. */
  method MissFiveTimes(g: Game)
    requires g.Valid() && g.running && g.misses == 0 && g.missProp == 0
    requires Pos(0, 0) !in g.Model().active
    modifies g, g.board[0, 0]
    ensures g.Valid() && PhaseOf(g.Model()) == Over
    ensures g.Model() == old(g.Model()).(misses := 5, missProp := 5, running := false)
  {
    var c := g.board[0, 0];
    ghost var s := g.Model();
    g.HandleClicks(c, Pos(0, 0));
    assert g.Model() == s.(misses := 1, missProp := 1);
    g.HandleClicks(c, Pos(0, 0));
    assert g.Model() == s.(misses := 2, missProp := 2);
    g.HandleClicks(c, Pos(0, 0));
    assert g.Model() == s.(misses := 3, missProp := 3);
    g.HandleClicks(c, Pos(0, 0));
    assert g.Model() == s.(misses := 4, missProp := 4);
    g.HandleClicks(c, Pos(0, 0));
  }
}
