# Whack-A-Mole game state, modelled in Dafny

This project models the game logic of a small Whack-A-Mole desktop game. The
board is a 3×3 grid of cells. Every second a timer moves the mole to a random
cell, never the one that held it last. Clicking a cell with a mole scores 10
points and clears that cell. Clicking any other cell counts a miss. The fifth
miss stops the timer and ends the game. Restart clears both counters and starts
the timer again.

Files:

- `cells.dfy`, module `Cells`: the `Cell` class. Its one mutable field is the
  `active` flag, with a getter and a setter.
- `game.dfy`, module `Games`: the `Game` class. It keeps:
  - the board, as an `array2<Cell?>` that `CreateView` fills with nested `for`
    loops;
  - `points`, `misses` and their displayed copies `score` and `missProp`;
  - `prevCell`, the cell that got the last mole;
  - `running`, which stands for the spawn timeline.

  `HandleClicks`, `Tick`, `StartGame`, `StartPlaying`, `EndGame` and
  `RestartGame` are proved to change the ghost abstract state `Model()` exactly
  as the matching `GameSpec` function does. `CreateView` (with the
  constructor, in `NewGame`) is proved to reach `GameSpec.Init()`. `Increment`
  states its two field updates directly.
- `game_spec.dfy`, module `GameSpec`: the game state as a value (`State`) and
  each operation as a function on it. It also holds:
  - the spawn rule (`Spawn`, the first random draw that is not the previous
    mole);
  - the invariant `Inv`;
  - runs of events (`Exec`), and lemmas about single operations and whole runs.

The tick takes its random numbers as a parameter: `draws` lists the (row,
column) pairs that `random.nextInt(3)` would return, in order. The tick keeps
the source's resampling `while` loop over that list. It requires the list to
contain at least one cell other than the previous mole. The Java loop ends only
with probability 1.

Runs of events (`GameSpec.Exec`) allow each event only where the user interface
allows it:

- a tick only while the timeline plays;
- a click only while the board pane is shown, which is exactly while the
  timeline plays (`startPlaying` shows the board and starts the timeline,
  `endGame` hides the board and stops the timeline);
- Start only on the start menu;
- Restart only on the game-over menu.

The visible panel is not modelled. `GameSpec.PhaseOf` derives it from `running`
and `misses` instead.

A mole that disappears without being clicked does not count as a miss: the
tick (Game.java:154-178) never touches `misses`.

## Model

| member | source | states |
|---|---|---|
| `Cells.Cell.constructor` | src/main/java/com/bdelhommer/jfxdemo/Cell.java:36-54 | a new cell is inactive: the constructor never sets the flag, so it keeps its default `false` |
| `Cells.Cell.GetActive` | src/main/java/com/bdelhommer/jfxdemo/Cell.java:63 | the getter reports exactly the cell's current active flag |
| `Cells.Cell.SetActive` | src/main/java/com/bdelhommer/jfxdemo/Cell.java:69 | the setter changes the `active` field, and no other field, to the value given |
| `Cells.SetThenGet` | src/main/java/com/bdelhommer/jfxdemo/Cell.java:63-69 | `getActive` returns the value most recently passed to `setActive` |
| `Cells.SetActiveIdempotent` | src/main/java/com/bdelhommer/jfxdemo/Cell.java:69 | setting the same value twice leaves the same state, and reads back the same, as setting it once |
| `Games.Game.constructor` | src/main/java/com/bdelhommer/jfxdemo/Game.java:61-81 | a new game has an empty 3×3 board, points = misses = 0 with equal displays, no previous cell, the timeline stopped, and maxMisses = 5 |
| `Games.Game.CreateView` | src/main/java/com/bdelhommer/jfxdemo/Game.java:92-104 | the nested loops fill every slot with a new cell, no two slots share a cell, and no cell is active; counters and previous cell are untouched |
| `Games.NewGame` | src/main/java/com/bdelhommer/jfxdemo/Game.java:61-97 | a constructed and populated game is in the initial state: no active cell, no previous cell, zero counters, timeline stopped |
| `Games.Game.Increment` | src/main/java/com/bdelhommer/jfxdemo/Game.java:198-203 | points grow by exactly 10, the score display equals points, and no other field changes |
| `Games.Game.HandleClicks` | src/main/java/com/bdelhommer/jfxdemo/Game.java:124-145 | a click changes only the counters, their displays, the timeline and the clicked cell, and moves the game exactly as `GameSpec.Click` (whose effects the lemmas below state) |
| `Games.Game.Tick` | src/main/java/com/bdelhommer/jfxdemo/Game.java:154-178 | the tick deactivates the previous mole, keeps drawing until a draw differs from it, activates that cell and records it as `prevCell`; the result is `GameSpec.TickTo` at `GameSpec.Spawn(draws, prev)`, and only board cells and `prevCell` change |
| `Games.Game.StartGame` | src/main/java/com/bdelhommer/jfxdemo/Game.java:186-192 | the spawn timeline runs afterwards and nothing else changes: the abstract state moves as `GameSpec.StartPlaying` |
| `Games.Game.StartPlaying` | src/main/java/com/bdelhommer/jfxdemo/Game.java:239-245 | starting play only sets the timeline running; board, previous cell and counters stay |
| `Games.Game.EndGame` | src/main/java/com/bdelhommer/jfxdemo/Game.java:247-253 | the spawn timeline is stopped afterwards and nothing else changes: the abstract state moves as `GameSpec.EndGame` |
| `Games.Game.RestartGame` | src/main/java/com/bdelhommer/jfxdemo/Game.java:255-265 | restart zeroes points, misses and both displays and runs the timeline, as `GameSpec.Restart` |
| `Games.MissFiveTimes` | src/main/java/com/bdelhommer/jfxdemo/Game.java:138-143 | five clicks on an empty cell of a running game without misses leave misses = 5 and the timeline stopped, with nothing else changed |
| `GameSpec.Spawn` | src/main/java/com/bdelhommer/jfxdemo/Game.java:163-170 | the cell picked by rejection sampling differs from the previous mole, and it is the first draw of the stream that does |
| `GameSpec.SpawnIsFirstFresh` | src/main/java/com/bdelhommer/jfxdemo/Game.java:167-173 | wherever the resampling loop stops at the first draw different from the previous mole, that draw is the spawned cell |
| `GameSpec.InitInv` | src/main/java/com/bdelhommer/jfxdemo/Game.java:61-81 | the initial game has no active cell and satisfies the invariant |
| `GameSpec.AtMostOneActive` | src/main/java/com/bdelhommer/jfxdemo/Game.java:156-177 | under the invariant (every active cell is the previous mole), at most one cell is active, and if one is, it is the previous mole |
| `GameSpec.TickMovesMole` | src/main/java/com/bdelhommer/jfxdemo/Game.java:156-177 | after a tick to a cell other than the previous mole, exactly that cell is active, it is the new previous mole, the old mole is inactive, and the invariant holds |
| `GameSpec.ClickOnMole` | src/main/java/com/bdelhommer/jfxdemo/Game.java:127-130 | a hit adds exactly 10 points (score mirrors them), leaves misses, the previous mole and the timeline unchanged, and clears only the clicked cell |
| `GameSpec.ClickOnEmpty` | src/main/java/com/bdelhommer/jfxdemo/Game.java:138-143 | a miss adds exactly 1 to misses (missProp mirrors it), leaves points and every flag unchanged, and stops the timeline exactly when misses reaches 5 |
| `GameSpec.FifthMissEndsGame` | src/main/java/com/bdelhommer/jfxdemo/Game.java:139-142 | the miss that brings misses to 5 stops the timeline, and the game is over |
| `GameSpec.GameOverAllowsOnlyRestart` | src/main/java/com/bdelhommer/jfxdemo/Game.java:247-253 | once the game is over, the only event that can occur is Restart: no tick and no click (a consequence of ticks and clicks needing the timeline running, which the fifth miss stops) |
| `GameSpec.StartBeginsPlay` | src/main/java/com/bdelhommer/jfxdemo/Game.java:239-245 | Start on the start menu moves the game to play and changes nothing but the timeline |
| `GameSpec.RestartResets` | src/main/java/com/bdelhommer/jfxdemo/Game.java:255-265 | restart sets points, misses and both displays to 0 and runs the timeline; the board flags and the previous mole are untouched |
| `GameSpec.RestartClearsLeftoverMole` | src/main/java/com/bdelhommer/jfxdemo/Game.java:255-265 | after game over, Restart followed by one tick leaves exactly the new mole active, with zero counters and the timeline running; the leftover mole is cleared |
| `GameSpec.StepPreservesInv` | src/main/java/com/bdelhommer/jfxdemo/Game.java:124-178 | each event that can occur keeps the invariant: every active cell is the previous mole; points is a non-negative multiple of 10; the displays equal the counters; misses ≤ 5; the timeline runs only below 5 misses |
| `GameSpec.ExecPreservesInv` | src/main/java/com/bdelhommer/jfxdemo/Game.java:124-265 | every run of events that can occur keeps the invariant |
| `GameSpec.Reachable` | src/main/java/com/bdelhommer/jfxdemo/Game.java:61-81 | every game reachable from the initial one has at most one active cell, points a non-negative multiple of 10, displays equal to the counters, and at most 5 misses |
| `GameSpec.SpawnsNeverRepeat` | src/main/java/com/bdelhommer/jfxdemo/Game.java:163-177 | across a whole run, with any clicks and restarts in between, no two consecutive ticks spawn the mole in the same cell, and the first differs from the previous mole |
| `GameSpec.CountersCountClicks` | src/main/java/com/bdelhommer/jfxdemo/Game.java:127-140 | in a run without a restart, points grow by exactly 10 per hit and misses by exactly 1 per miss |

## Left out

- `App.java`: the application bootstrap, scene, stage, style sheet and the static game instance. `Games.NewGame` stands for its construct-then-`createView` sequence.
- The presentation: labels and their text bindings, layout panes, the start and game-over menus (`createStartMenu`, `createGameOverMenu`), panel visibility, the mole images and image views, the size bindings, and the fade transition after a hit. Only the integer values behind the two labels (`score`, `missProp`) are kept.
- The Quit button (`Platform.exit()`): it ends the process and changes no game state.
- The `Timeline` and `KeyFrame` timing (1000 ms, indefinite cycles). The timeline is the flag `running`, and one firing is one call of `Tick`.
- `java.util.Random`. The draws are a parameter, and the probability-1 termination of the resampling loop becomes a precondition: the draws must include a cell other than the previous mole.
- The width and height arguments of the `Cell` constructor and of `createView`. They are floating-point layout values with no effect on game state.
- Games.Game.HandleClicks: takes the clicked cell's board position as an extra ghost argument. In the source, each click handler is attached to one board cell in `createView`.
- GameSpec.Click: points and misses are unbounded integers. Java's 32-bit `int` points would wrap after about 214 million hits, so the non-negative-multiple-of-10 invariant holds for the model, not for a game played that long.
- GameSpec.Exec: a click is allowed only while the timeline plays, and Start and Restart only in their menu's phase. This mirrors which panel is visible. `Games.Game.HandleClicks` itself, like the source, does not check this.
