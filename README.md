# Snake game core in Dafny

This project models the game logic of a browser snake game (`script.js`). The
board is a canvas of `gameWidth` by `gameHeight` pixels, cut into cells of
`unitSize = 25` pixels. The snake is a list of cells, head first. On every timer
tick it moves one cell along its velocity. It grows when its head reaches the
food, and the game stops when the head leaves the board or runs into the body.
Arrow keys steer the snake and start a new game. Restart and reset bring the
game back to its initial state.

Modules:

- `Grid` (grid.dfy): cells, the board, directions, and a pigeonhole argument.
  The argument shows that food can always be placed while the snake is shorter
  than the number of cells.
- `Food` (food.dfy): `getRandomCoordinate` and the rejection-sampling loop of
  `createFood`. `Math.random` is a parameter: `draws` is the sequence of
  numbers it returns, two per attempt, each in [0, 1). `PlaceFood` runs the
  source's `while (foodOverlap)` loop over these draws. It is proved to return
  the first drawn cell that is not under the snake.
- `Rules` (rules.dfy): the state as a datatype `State`. Every operation is a
  pure transition: `MoveSnake`, `ChangeDirection`, `CheckGameOver`,
  `CheckHighScore`, `RestartGame`, `ResetGame` and `Tick`. `Event`, `Step` and
  `Run` describe sequences of inputs and timer firings. `Inv` is the invariant
  that every reachable state keeps.
- `Properties` (properties.dfy): lemmas about these transitions.
- `SnakeGame` (game.dfy): class `Game`. Its fields are the script's global
  variables. Its methods update them in place the way the script does, with the
  same branches and loops. Each method except the helper `CreateFood` is
  proved to perform the matching `Rules` transition
  (`State() == Rules.X(old(State()), …)`) and to keep `Valid()`, which is
  `Rules.Inv`. `CreateFood` is proved against `Food.FirstFree` and keeps
  `Valid()`.

Behaviour of the script worth knowing:

- A new game is started by ArrowUp, ArrowDown or ArrowRight (script.js:141).
  ArrowRight is the direction the snake already has. ArrowLeft does not start
  a game.
- The reversal guard compares the key with the current velocity, not with the
  direction of the last move (script.js:146-163). Two key presses within one
  tick (up, then left, while moving right) therefore turn the snake onto its
  own second segment. That tick then ends the game.
  `Properties.TwoKeysReverse` shows this concrete run.
  `Properties.OneKeyCannotReverse` states what the guard does guarantee: one
  press right after a move cannot reverse the snake. `Properties.MoveSnakeHeading`
  proves that a move leaves the velocity pointing from the second segment to
  the head, which is that lemma's hypothesis.

## Model

| member | source | states |
|---|---|---|
| Food.RandomCoordinate | script.js:93-95 | the coordinate drawn for a canvas dimension `max` lies in [0, max) and is a multiple of the unit size |
| Food.CoordinateReachable | script.js:93-95 | every grid coordinate below `max` is produced by some random number in [0, 1), so no cell is excluded from the draw |
| Food.FirstFree | script.js:97-108 | the first drawn cell that is not under the snake is on the board, on the grid, and off the snake |
| Food.PlaceFood | script.js:97-108 | the sampling loop returns exactly the first drawn cell that no segment occupies, and that cell is a valid food cell |
| Food.PlacesIffFreeCell | script.js:97-108 | some sequence of draws ends the loop exactly when the board has a free grid cell; on a full board the loop never ends |
| Grid.FreeCellWhenRoom | script.js:97-108 | a free grid cell exists whenever the snake has fewer segments than the board has cells (pigeonhole) |
| Properties.MoveSnakeShape | script.js:117-128 | the new head is the old head plus the velocity; behind it is the whole old snake if the food was eaten, and the old snake without its tail otherwise |
| Properties.MoveSnakeGrowth | script.js:117-128 | eating grows the length and the score by exactly one and places the new food; otherwise length, score and food stay as they were; velocity, high score and flags never change |
| Properties.MoveSnakeKeepsFoodFree | script.js:117-128 | food that is on the board and off the snake is still on the board and off the snake after the move |
| Properties.MoveSnakeHeading | script.js:117-128 | after a move, the velocity equals the head minus the second segment, so the snake last moved along its velocity |
| Properties.MoveSnakeKeepsInv | script.js:117-128 | a move keeps the invariant: a chain of adjacent grid cells of length 5 + score, with food on the board and off the snake |
| Properties.TurnNeverReverses | script.js:146-163 | for a velocity of one cell along one axis, no key sets the exact negation of that velocity |
| Properties.TurnAcceptedOrKept | script.js:146-163 | a key that is not an arrow leaves both components unchanged; every velocity a key sets has exactly one nonzero component, of size `unitSize` |
| Properties.TurnMatchesHeading | script.js:146-163 | the guarded cases mean: take the velocity the arrow names unless it is the reverse of the current one, else keep the current one |
| Properties.ChangeDirectionStarts | script.js:140-144 | in a game not yet started, `started` and `running` become true exactly for ArrowUp, ArrowDown or ArrowRight; once started, keys leave both flags alone; keys never touch snake, food or scores |
| Properties.ChangeDirectionKeepsInv | script.js:140-164 | a key press keeps the invariant, including that an unstarted game still moves right |
| Properties.CheckGameOverIff | script.js:170-190 | `running` becomes false exactly when the head has x < 0, x >= width, y < 0, y >= height, or equals a segment at index 1 or more; otherwise it is unchanged and never set to true; nothing else changes |
| Properties.CheckGameOverKeepsInv | script.js:170-190 | the game-over check keeps the invariant |
| Properties.CheckHighScoreMax | script.js:84-91 | the high score becomes the maximum of the old high score and the score; the score and everything else are unchanged |
| Properties.RestartGameInitial | script.js:200-219 | restart does nothing while running; otherwise it gives the initial state (5-segment snake, velocity (25, 0), score 0, not started), keeping the high score and taking the new food |
| Properties.RestartGameTwice | script.js:200-219 | restarting twice gives the same state as restarting once, apart from the food cell |
| Properties.ResetGameInitial | script.js:221-226 | reset zeroes the high score; while not running it then gives the initial state with high score 0; while running only the high score changes |
| Properties.InitialKeepsInv | script.js:17-31 | the initial variables, with food placed off the snake, satisfy the invariant |
| Properties.RestartGameKeepsInv | script.js:200-226 | restart and reset keep the invariant |
| Properties.TickEnds | script.js:68-82 | a timer tick ends the game exactly when the moved snake is off the board or on itself; the high score then takes the final score into account |
| Properties.TickKeepsInv | script.js:74-81 | a tick of a running game keeps the invariant |
| Properties.TimerPossibleWhenRoom | script.js:97-108 | in a running game whose grown snake is shorter than the board has cells, some food cell makes the next tick possible; the tick's requirement only excludes the full-board hang of the sampling loop |
| Properties.StepKeepsInv | script.js:34-55 | every input or timer event that can happen keeps the invariant |
| Properties.RunKeepsInv | script.js:57-82 | every state reached by a sequence of possible events keeps the invariant: length 5 + score, a chain of grid cells, a one-cell velocity, food on the board and off the snake |
| Properties.OneKeyCannotReverse | script.js:146-163 | right after a move, a single key press cannot send the head back onto the second segment |
| Properties.TwoKeysReverse | script.js:146-163 | two presses before one tick (up, then left, while moving right) give the reverse velocity, and the next tick ends the game on the second segment |
| Properties.Scenarios | script.js:117-190 | on a 500 by 500 board: the first move without food shifts the snake to start at (150, 25); with food at (150, 25) the snake grows to 6 and keeps (25, 25); heads at (-25, 25), (500, 25) or on the third segment end the game, and a head at (475, 25) does not |
| SnakeGame.Game.constructor | script.js:13-31 | page load: the initial variables, the stored high score and the first food, satisfying the invariant |
| SnakeGame.Game.CreateFood | script.js:97-108 | the food fields become the first drawn cell that is not under the snake, and the invariant is kept |
| SnakeGame.Game.MoveSnake | script.js:117-128 | prepending the head and popping the tail in place performs `Rules.MoveSnake`; food eaten is re-placed by the sampling loop; the invariant is kept |
| SnakeGame.Game.ChangeDirection | script.js:140-164 | the start test and the first-match velocity switch perform `Rules.ChangeDirection` and keep the invariant |
| SnakeGame.Game.CheckGameOver | script.js:170-190 | the wall tests and the scan of segments 1 onwards clear `running` exactly as `Rules.CheckGameOver` says |
| SnakeGame.Game.CheckHighScore | script.js:84-91 | the high score is raised to the score when it is lower, as `Rules.CheckHighScore` says |
| SnakeGame.Game.RestartGame | script.js:200-219 | performs `Rules.RestartGame` with the first free drawn cell as food; nothing changes while running |
| SnakeGame.Game.ResetGame | script.js:221-226 | zeroes the high score and then restarts, as `Rules.ResetGame` says |
| SnakeGame.Game.Tick | script.js:74-81 | one timer callback (move, then game-over check, then the high-score update of the next scheduling step when the game ended) performs `Rules.Tick` and keeps the invariant |

## Left out

- Drawing (`clearBoard`, `drawFood`, `drawSnake`, `displayGameOver`) is rendering only. `displayGameOver` also sets `running` to false, which it already is at that point.
- DOM queries, text and class updates of the score displays, and the event-listener wiring are left out. Inputs are the `key` argument of `ChangeDirection` and the events of `Rules.Event`. The reset dialog's `if (!running)` only controls whether the dialog is shown, so it is not modelled.
- The `setTimeout` scheduling of `nextTick` is left out. One timer callback is `Tick`, which requires a running game because the callback is only scheduled then.
- `localStorage` (`saveHighScore`, `loadHighScore`) is foreign storage. The value that is loaded is the constructor's `storedHighScore`, and 0 stands for an empty store. The string type that `loadHighScore` stores, and the JavaScript coercion in the comparison that follows, are not modelled.
- `Math.random` is given as the `draws` parameter. Its distribution is not modelled. The sampling loop may never end, so every operation that places food requires draws in which some attempt lands on a free cell. `Food.PlacesIffFreeCell` and `Grid.FreeCellWhenRoom` state when such draws exist.
- `Food.RandomCoordinate` computes with exact reals, not with the floating-point numbers of the source.
