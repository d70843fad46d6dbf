# Snake game engine — a Dafny model

This project models the state-transition engine of a grid snake game. The game
is played on a 15 × 15 grid. The snake is a list of cells with the head first.
The engine keeps the snake, the committed direction, the queued direction, the
food cell, the score, the game-over flag and the high score.

Each tick commits the queued direction and moves the head one cell. Leaving the
grid or entering any current segment ends the game. Otherwise the new head is
put in front of the body. On food, the score goes up by 10 and new food goes on
a random free cell. Without food, the tail cell is dropped. A direction request
is queued unless it reverses the committed direction. A reset starts a new
game. When a game is over, a larger score replaces the high score.

The project has four modules:

- `Grid` (grid.dfy): cells, directions, the grid size, and one-cell moves.
- `Occupancy` (occupancy.dfy): counting grid cells. It shows that a body
  shorter than the grid leaves a free cell. It also shows that a body of 225
  distinct grid cells covers the whole grid.
- `Rules` (rules.dfy): the rules as pure definitions over a `GameState` value.
  `GameState` is the game state of types.ts plus the queued direction.
  - `Inv` is the state invariant. Every segment is on the grid, no two segments
    share a cell, and consecutive segments are adjacent. The food is off the
    snake. The queued direction never reverses the committed one. While the
    game runs, the head is one step from the neck in the committed direction.
    The score is 10 × (length − 1).
  - `Ticked(g, g')` says that one tick can lead from `g` to `g'`. It is a
    relation because the food cell is a random choice.
  - `Steer` gives the queued direction after a request. `IsReset` describes a
    fresh game. `RecordHigh` is the high-score rule.
- `Engine` (engine.dfy): the class `Game`, whose fields are the component's
  mutable references. Its methods overwrite these fields in place. Each method
  is proved against `Rules`: `Update` ensures `Ticked(old(Snapshot()),
  Snapshot())`, and every method keeps `Inv`. `SampleFood` is the
  rejection-sampling loop of food placement, over a given stream of random
  draws. `GenerateFood` is its outcome: any free cell.

## Model

| member | source | states |
|---|---|---|
| `Grid.Opposite` | App.tsx:172-175 | the reversal of a direction is never the direction itself (UP/DOWN, LEFT/RIGHT) |
| `Grid.OppositeIsInvolution` | App.tsx:172-175 | reversing twice gives back the direction |
| `Grid.Move` | App.tsx:90-95 | the new head is a cell that shares an edge with the old head |
| `Grid.AdjacentIsOneMove` | App.tsx:90-95 | two cells are adjacent exactly when some direction moves one onto the other |
| `Grid.MoveBack` | App.tsx:90-95 | a second move returns to the start exactly when it is the reversal of the first |
| `Occupancy.FreeCellExists` | App.tsx:60-71 | a body shorter than the 225 grid cells leaves a free grid cell, so the rejection loop can stop |
| `Occupancy.SnakeFitsGrid` | App.tsx:97-98 | a body of distinct grid cells has at most 225 segments |
| `Occupancy.FullSnakeCoversGrid` | App.tsx:62-69 | a body of 225 distinct grid cells covers every cell, so every random draw is rejected |
| `Occupancy.FreeCellIff` | App.tsx:62-69 | for a body of distinct grid cells, a free cell exists if and only if it is shorter than the grid |
| `Rules.IsOnSnake` | App.tsx:98 | the segment-by-segment test is true exactly when the cell is in the body |
| `Rules.Slither` | App.tsx:104-111 | a move without food keeps the length: new head first, then each old segment one place back, with the old tail gone |
| `Rules.Initial` | App.tsx:24-27 | the first game starts with the snake at (7,8), facing right, food at (5,5), score 0, and satisfies the invariant |
| `Rules.Steer` | App.tsx:169-176 | the queue becomes the request, or stays as it was; it becomes the request exactly when the request is not the reversal of the committed direction (or is already queued) |
| `Rules.SteerKeepsQueueSafe` | App.tsx:169-176 | if the queued direction does not reverse the committed one, no request can make it do so |
| `Rules.RecordHigh` | App.tsx:162-167 | the high score never decreases; after a finished game it is at least the score; it changes only to the finished game's score |
| `Rules.RecordHighSettles` | App.tsx:162-167 | applying the rule again to its own result changes nothing, so the effect stops after one update |
| `Rules.ResetIsValid` | App.tsx:73-81 | a reset state satisfies the invariant, has one segment, and its food is not on the head |
| `Rules.ResetTotal` | App.tsx:73-81 | a reset is always possible, from any prior state |
| `Rules.GrowWellFormed` | App.tsx:104-109 | putting a free adjacent grid cell in front of a body gives a body (on the grid, distinct, contiguous) |
| `Rules.DropTailWellFormed` | App.tsx:111 | dropping the last segment of a body longer than one gives a body |
| `Rules.SlitherWellFormed` | App.tsx:104-114 | a move without food turns a body into a body |
| `Rules.TickPreservesInv` | App.tsx:83-115 | every tick keeps the invariant: segments on the grid, distinct, adjacent; food off the snake; score equal to 10 × (length − 1) |
| `Rules.TickTotal` | App.tsx:83-115 | every valid state has a next state, including an eat that fills the grid |
| `Rules.TickDeterminedUpToFood` | App.tsx:104-114 | two outcomes of one tick differ at most in the new food cell, and only when the snake ate |
| `Rules.TickCommitsDirection` | App.tsx:84-86 | a tick of a running game commits the queued direction; no tick changes the queue or the high score |
| `Rules.TickCollides` | App.tsx:97-102 | a move off the grid or onto any segment (the tail included) ends the game, with snake, food and score unchanged |
| `Rules.TickSlithers` | App.tsx:104-114 | a move without food keeps length, food and score; the head is the moved head; the tail cell changes |
| `Rules.TickEats` | App.tsx:106-109 | eating adds exactly 10 to the score and puts the food cell in front of the whole old body; the new food is on the grid and off the new body |
| `Rules.NeverReversesIntoNeck` | App.tsx:169-176 | because reversals are never queued, a running snake's next head is never its neck |
| `Rules.EatingLastCellFillsGrid` | App.tsx:104-109 | a 224-segment snake that eats fills the grid, so no random cell is free for food |
| `Engine.SampleFood` | App.tsx:60-71 | the result is the first draw that is off the snake; there is none exactly when every draw lands on the snake |
| `Engine.GenerateFood` | App.tsx:60-71 | the food is a grid cell that is not a segment of the given body |
| `Engine.Game.constructor` | App.tsx:16-27 | the first state is `Rules.Initial`, keeping the stored high score |
| `Engine.Game.HandleControl` | App.tsx:169-176 | it does nothing when the game is over; otherwise only the queue changes, to `Rules.Steer` of the committed direction, the old queue and the request |
| `Engine.Game.Update` | App.tsx:83-115 | the new state is a `Rules.Ticked` successor of the old one, and the invariant holds |
| `Engine.Game.ResetGame` | App.tsx:73-81 | from any state: snake [(7,8)], both directions right, score 0, game running, food on the grid and off the snake, high score kept |
| `Engine.Game.RecordHighScore` | App.tsx:162-167 | only the high score changes, to `Rules.RecordHigh` of the game-over flag, the score and the old high score |

## Left out

- Canvas drawing (App.tsx:117-154) is presentation only. It uses floating-point opacity and arcs.
- The `setInterval` tick loop and its cleanup (App.tsx:156-160) are timer plumbing. One tick is one call to `Game.Update`.
- Reading and writing the stored high score is not modelled (App.tsx:17, App.tsx:165). The stored value enters as the constructor's integer parameter.
- Engine.Game.constructor: does not model how `Number(...) || 0` parses the stored text. The parameter is the value after parsing.
- Vibration (App.tsx:30-34), clipboard copying (App.tsx:36-58) and all JSX, buttons and the help modal (App.tsx:178-273) are host effects and UI. They do not touch the game state.
- `CELL_SIZE`, `GAME_WIDTH`, `GAME_HEIGHT`, `FPS` and `COLORS` in constants.ts only matter for rendering and timing.
- `Math.random` is not modelled. `GenerateFood` picks any free cell nondeterministically, so the uniform distribution is not captured. `SampleFood` takes a finite prefix of the random draws as a parameter.
- React updates `score` and `isGameOver` asynchronously, and `update` sees `isGameOver` through its closure. The model treats both as fields that change at once, within the step.
- Coordinates and scores are JavaScript numbers. They stay small integers here, so the model uses unbounded integers.
- Engine.Game.Update: does not follow the source when an eat fills the grid. There the source never returns; the model ends the game instead (see Findings).

## Findings

| source | as written | input that shows it | evidently intended | confidence | as-written member | corrected member |
|---|---|---|---|---|---|---|
| App.tsx:104-109 | after eating, `generateFood(newSnake)` draws random cells until one is off the snake, even when the grown snake covers all 225 cells | a 224-segment snake whose head is next to the last free cell, with the food on that cell | the tick must return; since no cell is left for food, the game ends | not executed; every grid cell is then a segment, so the loop's exit test can never pass | `Rules.EatingLastCellFillsGrid` | `Rules.TickTotal` |

The as-written loop is `Engine.SampleFood`: its result is None exactly when every draw lands on the snake. `Rules.EatingLastCellFillsGrid` shows that every draw does so in this case. The corrected tick is `Rules.Ticked`, used by `Engine.Game.Update`: when the grown snake fills the grid, the game ends, keeping the grown snake and the extra 10 points. `Rules.TickTotal` proves that every valid state then has a next state, and `Rules.TickPreservesInv` proves that the corrected tick keeps the invariant. The invariant lets the food lie under the head only in that finished, full-grid state. Nothing in the code makes a 224-segment snake collide before it can eat the last free cell.
