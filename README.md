# Level progress of the TactileMatch3 game manager

This project models and verifies the level-progress state machine of the
match-3 game's `GameManager` component (`Assets/Scripts/GameManager.cs`).
It covers three parts:

- **Objective counters.** The level keeps one objective count per piece
  type. Each scored piece of that type counts its entry down by one, and the
  entry is then clamped to [0, 1000].
- **Cleared check.** The level is cleared once no objective entry is still
  positive. A scoring call that leaves the level cleared shows the win panel.
- **Move budget.** Each used move adds one to moves-used and takes one from
  moves-left. The lose panel appears once moves-left is negative.

`GameManager` is a class in `game_manager.dfy` (module `Game`):

- The objectives are an `array<int32>` that `Score` updates in place.
- The two counters are fields of type `int32`. The budget
  (`MaximunNumberOfMoves`) is a constant.
- The ghost flags `winShown` and `loseShown` stand for
  `WinPanel.SetActive(true)` and `LosePanel.SetActive(true)`.
- `Valid()` ties the counters and the lose flag to a ghost move count,
  `turns`, through the specification functions `UsedAfter`, `LeftAfter` and
  `LoseReached`.
- `PlayShortLevel` is a client that drives a two-move level using only the
  contracts.

C# `int` arithmetic is unchecked and wraps around. `numerics.dfy` (module
`Numerics`) models it with the following members:

- `int32`: the 32-bit integer type.
- `Inc32` and `Dec32`: C#'s `++` and `--`.
- `Wrap32`: reduction of an unbounded integer modulo 2^32, the reference
  definition `Inc32` and `Dec32` are proved against.
- `Clamp`: Unity's integer `Mathf.Clamp`, which tests the lower bound first.

Three consequences of the wrap-around are proved rather than assumed:

- An objective entry equal to `int.MinValue` wraps to `int.MaxValue` when
  scored. The clamp then turns it into 1000, which re-opens a cleared level.
- The lose panel first appears on move `max + 1` for a budget `max >= 0`. For
  a negative budget it appears on the first move. For a budget of
  `int.MinValue` it appears on move 2^31 + 1, because moves-left first wraps
  to `int.MaxValue`.
- Moves-used plus moves-left always equals the budget modulo 2^32. The sum is
  exact until one of the counters wraps.

The game's rules engine (the board, match detection, gravity and refill,
in `Tactile.TactileMatch3Challenge.Model`) lies outside `GameManager.cs`
and is not modelled.

## Model

| member | source | states |
|---|---|---|
| `Game.GameManager.constructor` | Assets/Scripts/GameManager.cs:21-26 | after `Start`, moves-left is the budget, moves-used is 0, the objectives are as configured and neither panel is shown |
| `Game.GameManager.Score` | Assets/Scripts/GameManager.cs:41-50 | an index outside the objectives makes no change and ends with `IndexOutOfRange`; otherwise only entry `piece` changes, to `ScoredEntry` of its old value; the win flag becomes set exactly when the updated objectives are cleared and is never reset; the move counters and lose flag are unchanged |
| `Game.GameManager.LevelIsCleared` | Assets/Scripts/GameManager.cs:52-62 | the early-exit scan returns true iff every objective entry is `<= 0`, so true for no objectives; it changes nothing |
| `Game.GameManager.UseMove` | Assets/Scripts/GameManager.cs:64-73 | moves-used is incremented and moves-left decremented as C# `int`s; the lose flag is set iff it was set or moves-left is now negative, which is iff the move count has reached `FirstLoseTurn`; objectives and win flag unchanged |
| `Game.GameManager.MovesBalance` | Assets/Scripts/GameManager.cs:64-67 | in every reachable state moves-used plus moves-left equals the budget modulo 2^32, exactly while no counter has wrapped |
| `Game.ScoredEntry` | Assets/Scripts/GameManager.cs:43-44 | a scored entry always lies in [0, 1000]; entries in 1..1001 lose one, entries from `int.MinValue + 1` up to 1 become 0, entries above 1001 become 1000, and `int.MinValue` wraps to 1000 |
| `Game.ScoredTimesClosedForm` | Assets/Scripts/GameManager.cs:43-44 | after n >= 1 scorings an entry holds `max(0, start - n)`, where the start is capped at 1001 (and `int.MinValue` counts as 1001) |
| `Game.ScoringMeetsObjective` | Assets/Scripts/GameManager.cs:43-44 | for an objective configured in [0, 1000], the entry is met iff at least that many pieces were scored, and an entry at 0 stays 0 however often it is scored |
| `Game.ScoreKeepsCleared` | Assets/Scripts/GameManager.cs:41-50 | scoring a cleared level keeps it cleared iff the scored entry is not `int.MinValue` |
| `Game.UsedClosedForm` | Assets/Scripts/GameManager.cs:66 | after t moves, moves-used is t reduced modulo 2^32 |
| `Game.LeftClosedForm` | Assets/Scripts/GameManager.cs:67 | after t moves, moves-left is the budget minus t reduced modulo 2^32 |
| `Game.MovesLeftBeforeLoss` | Assets/Scripts/GameManager.cs:67-72 | up to the first losing move, moves-left is negative only on that move |
| `Game.LoseReachedIff` | Assets/Scripts/GameManager.cs:69-72 | the lose panel has been shown after t moves iff t >= `FirstLoseTurn(max)`; for a budget max >= 0 that is move max + 1, not move max, and the panel stays once shown |
| `Game.BudgetBalance` | Assets/Scripts/GameManager.cs:64-67 | after any number of moves the counters sum to the budget modulo 2^32, and exactly while neither has wrapped |
| `Numerics.StepsWrap` | Assets/Scripts/GameManager.cs:66-67 | C#'s `++` and `--` on an `int` equal adding 1 and -1 modulo 2^32 |
| `Numerics.Inc32` | Assets/Scripts/GameManager.cs:66 | C#'s `x++` on an `int`: x + 1, with `int.MaxValue` stepping to `int.MinValue` |
| `Numerics.Dec32` | Assets/Scripts/GameManager.cs:67 | C#'s `x--` on an `int` (also the decrement at line 43): x - 1, with `int.MinValue` stepping to `int.MaxValue` |
| `Numerics.Clamp` | Assets/Scripts/GameManager.cs:44 | for min <= max, the clamped value lies within [min, max], is the value itself when already inside, and is the nearer bound otherwise; for crossed bounds a value below min gives min and any other value gives max, since the lower bound is tested first |

## Left out

- The rules engine (`Board`, `Resolve`, `ResolveResult`, `IsWithinBounds`,
  `IteratePieces`, `OnRemovePiece`) lies outside `GameManager.cs`, in
  `Tactile.TactileMatch3Challenge.Model`, and is not modelled.
  `Board` is not part of this model.
- `Assets/Scripts/Views/BoardRenderer.cs` as a whole: animation coroutines,
  camera framing, screen-to-grid mapping, creating and destroying game
  objects, and mouse input are presentation code.
- The event wiring `boardRenderer.OnScore += Score` and
  `OnTurnFinish += UseMove` (GameManager.cs:23-25). `Score` and `UseMove` are
  called directly instead.
- UI text: `UpdateMovesText`, `UpdateScoreText` and the `Text` lookup in
  `Start`. They only format counters. One effect of theirs is also left out:
  `UpdateScoreText(piece)` runs after the clamp and before the win check, and
  it indexes `ScoreTexts`. With fewer score texts than objectives, it would
  raise there and the win panel would not be shown.
- Null references: an unset `LevelObjective`, unset panels and a missing
  renderer. Unity sets these fields up from the scene.
- The panels' appearance: only the fact that a panel has been shown is
  kept, as a ghost flag.
