# Snake simulation model

This project models the simulation core of the browser Snake game in
`frontend/game.js`. The game keeps its state in module-level variables: the
snake as a list of cells with the head first, the food cell, the obstacle
cells, the committed `direction`, the buffered `nextDirection`, the score, the
food count, the elapsed seconds, and the pause and started flags. Here that
state is one object, `SnakeGame.Game`, whose methods update its fields in
place as the JavaScript functions do:

- `InitGame` is the session set-up. It builds the three-cell snake in the
  centre pointing right, resets the counters, places the food and then places
  the level's obstacles.
- `GameLoop` is one tick. It does nothing while paused. Otherwise it commits
  the buffered direction and computes the new head. A head outside the board,
  on any cell of the snake as it stands (tail included) or on an obstacle ends
  the game, checked in that order. Otherwise the head is pushed on the front:
  on food the snake grows, the score rises by 10 and new food is placed;
  elsewhere the tail is dropped.
- `KeyDown` is the keyboard handler. The first arrow key starts the game. An
  arrow key buffers its direction unless it reverses the committed direction.
  The space bar toggles pause once the game has started.
- `GenerateFood`, `GenerateObstacles` and `IsPositionOccupied` are the
  rejection-sampling placement routines and the occupancy query they use.

Random draws are an input. Each `Math.floor(Math.random() * gridSize)` pair
becomes the next cell of a sequence the caller supplies. Two pure functions in
module `Placement` say which draw each loop keeps: `FirstFreeFrom` gives the
first free one and `Place` gives the cells an obstacle loop keeps. A
placement method requires that its loop would stop within the given draws,
then proves that it keeps exactly those cells. The lemmas about `Place` show
what that means: the right number of cells, pairwise distinct, on the board,
and off everything already taken.

`Valid()` is the session invariant. It says the snake has at least three
cells, lies inside the board, has pairwise distinct cells and has each cell
adjacent to the next. The food is on the board and off the snake and the
obstacles. The obstacles are on the board, pairwise distinct and off the
snake. The buffered direction never reverses the committed one, and the score
is ten times the food count. Session set-up establishes it, and every tick,
key press and timer tick keeps it. `Aligned()` says the second segment lies
one step behind the head in the committed direction. With `Valid()`, it
implies that the next tick cannot turn the snake back onto itself.

On these points the model follows the code as written:

- The reversal check compares a key with the committed `direction`, not the
  buffered one. With RIGHT committed, UP then DOWN before the next tick leaves
  DOWN buffered (`Controls.UpThenDownWhileMovingRight`).
- The board is square (`grid_size` on both axes).
- The obstacle count is the level's raw `obstacles_count`.
- Self-collision includes the tail cell that the move is about to free.
- `initGame` places the food before `generateObstacles` clears the obstacle
  list. So the food also avoids the obstacles left over from the previous
  session (`SnakeGame.Game.InitGame` states this with `old(obstacles)`).

## Model

| member | source | states |
|---|---|---|
| Grid.Opposite | frontend/game.js:686-706 | the direction each arrow case refuses is never the key's own direction |
| Grid.Step | frontend/game.js:571-586 | the new head moves one unit along exactly one axis from the old head |
| Grid.StepBack | frontend/game.js:571-586 | moving one step and then one step in the opposite direction returns to the start cell |
| Grid.StepDeterminesDirection | frontend/game.js:571-586 | different directions give different new heads |
| Grid.NeverIntoNeck | frontend/game.js:569-586 | if the second segment is one step behind the head and the buffered direction is not the reverse, the new head is not the second segment |
| Grid.GrowKeepsShape | frontend/game.js:610 | pushing a free, in-bounds cell adjacent to the head keeps the snake in bounds, distinct and connected |
| Grid.DropLastKeepsShape | frontend/game.js:620 | dropping the tail keeps the snake in bounds, distinct and connected |
| Grid.SlideKeepsShape | frontend/game.js:610-621 | a move without eating (push a free adjacent head, drop the tail) keeps the snake in bounds, distinct and connected |
| Placement.FirstFreeFrom | frontend/game.js:489-496 | the draw a rejection loop keeps lies at or after the start and is not taken |
| Placement.FirstFreeIsFirst | frontend/game.js:489-496 | every draw before the kept one is taken; no draw is kept exactly when all remaining draws are taken |
| Placement.PlaceFromExtends | frontend/game.js:525-540 | each round appends exactly one new cell, so the earlier obstacles are kept as a prefix, every new cell is a free draw, and the list stays pairwise distinct |
| Placement.PlacedCellsAreFree | frontend/game.js:521-540 | a successful placement has exactly `count` pairwise distinct cells, each a draw and none taken |
| Placement.PlacedInBounds | frontend/game.js:530-533 | placed cells are on the board whenever every draw is |
| Placement.SaturatedNeverFree | frontend/game.js:489-496 | when every board cell is taken, no draw on the board is ever kept, so the rejection loop never stops |
| Placement.PlacementFitsBoard | frontend/game.js:525-537 | the obstacle loop completes only if the board has at least `count` free cells; with more obstacles requested it never stops |
| Placement.FoodCell | frontend/game.js:486-497 | corrected food placement: the first free draw whenever the draws hold one, otherwise some free cell; None exactly when the board is full, and any cell it gives is on the board and free |
| Controls.Steer | frontend/game.js:686-706 | a key press either keeps the buffered direction or buffers an arrow's heading that does not reverse the committed direction; other keys keep it |
| Controls.SteerNeverReverses | frontend/game.js:686-706 | however many keys arrive between two ticks, the buffered direction never reverses the committed one |
| Controls.LastAcceptedKeyWins | frontend/game.js:686-706 | input is buffered, not queued: the result is the heading of the last accepted key, or the old buffered direction when no key is accepted |
| Controls.UpThenDownWhileMovingRight | frontend/game.js:687-696 | with RIGHT committed, UP then DOWN leaves DOWN buffered |
| SnakeGame.InitialSnake | frontend/game.js:446-453 | three cells with the head at the centre, inside the board, distinct and connected, the second cell one step left of the head |
| SnakeGame.SlideKeepsBoard | frontend/game.js:610-621 | a move onto a free cell other than the food keeps the board invariant |
| SnakeGame.GrowKeepsBoard | frontend/game.js:610-618 | eating grows the snake by its new head, and the board invariant holds once the new food is off the grown snake and the obstacles |
| SnakeGame.FreshBoard | frontend/game.js:446-463 | the initial snake, food off it and obstacles placed off both make a valid board with exactly `count` obstacles |
| SnakeGame.Game.constructor | frontend/game.js:13-36 | the values before any session: empty snake, no food, no obstacles, RIGHT, zero counters, not paused, not started, grid size 20 |
| SnakeGame.Game.InitGame | frontend/game.js:431-472 | sets up a valid, aligned session: initial snake, RIGHT buffered and committed, zero counters, not started, not paused, food at the first draw off the snake and the old obstacles, then exactly `obstaclesCount` obstacles as placed by the draws |
| SnakeGame.Game.ResetSession | frontend/game.js:431-460 | sets the grid size, the initial snake, RIGHT, zero score, food count and time, and not started |
| SnakeGame.Game.IsPositionOccupied | frontend/game.js:502-516 | true exactly when the cell is a snake segment or an obstacle |
| SnakeGame.Game.GenerateFood | frontend/game.js:486-497 | food becomes the first draw that is not occupied, so it is on the board and off the snake and the obstacles |
| SnakeGame.Game.GenerateObstacles | frontend/game.js:521-541 | the obstacles become exactly the placement of the draws around the snake and the food |
| SnakeGame.Game.DrawObstacle | frontend/game.js:526-537 | one obstacle's retry loop keeps the first draw from the given index on that is off the snake, the obstacles so far and the food, and resumes after it |
| SnakeGame.Game.StartGame | frontend/game.js:547-550 | afterwards the game is started; a second call changes nothing |
| SnakeGame.Game.GameLoop | frontend/game.js:566-624 | paused: nothing changes; otherwise the direction is committed, and the outcome is a wall, self or obstacle hit exactly under the source's conditions, in its order, with the snake, food and score unchanged; eating gives `[head] + snake`, score +10, food count +1 and new food; any other move gives `[head] + snake` without its last cell; the invariant is kept and an advancing tick leaves the snake aligned |
| SnakeGame.Game.Advance | frontend/game.js:610-621 | after no collision: on food the snake grows by the head, the score and food count rise and new food is placed; otherwise the head is pushed and the tail dropped; the board invariant is kept |
| SnakeGame.Game.TogglePause | frontend/game.js:718-719 | flips the pause flag and nothing else |
| SnakeGame.Game.TimerTick | frontend/game.js:555-560 | counts one second unless paused and keeps the invariant |
| SnakeGame.Game.KeyDown | frontend/game.js:676-713 | the buffered direction becomes `Steer` of the key; the first arrow key starts the game; space toggles pause only once started; the committed direction is untouched; the invariant and alignment are kept |
| SnakeGame.TogglePauseTwice | frontend/game.js:718-719 | toggling pause twice restores the pause flag |
| SnakeGame.NoReversal | frontend/game.js:569-586 | in a valid, aligned session the next head is never the second segment |
| SnakeGame.FullBoardStallsTick | frontend/game.js:610-618 | when the snake eats the last free cell, no draw is ever free for the new food, so no draw sequence lets the tick finish |

## Left out

- The fetch wrappers for players, levels, games and the leaderboard (frontend/game.js:71-231) are network I/O.
- DOM wiring, screen switching, the level and leaderboard lists, the pause and resume buttons and the quit confirmation are UI.
- `draw` (frontend/game.js:629-668) only paints the canvas.
- `setInterval`/`clearInterval` in `startGame` and `gameOver` are timer plumbing. A tick is a call of `GameLoop` and a timer second a call of `TimerTick`.
- `gameOver` is not modelled. It stops the timers, reports the game to the server and shows a screen, so `GameLoop` returns the collision as a `TickOutcome` instead.
- The canvas and cell-size computation in `initGame` (frontend/game.js:433-444) is viewport floating-point arithmetic.
- The backend (database access, HTTP endpoints, seed data) is not part of this model.
- `Math.random` is not modelled. Each draw is a caller-supplied cell assumed to lie on the board, which is what `Math.floor(Math.random() * gridSize)` yields.
- SnakeGame.Game.GenerateFood: the retry loop is unbounded. It ends only when a draw lands on a free cell, and it never ends when the board has no free cell (see Findings). The model requires the given draws to contain a free cell and does not describe a run that never finds one.
- SnakeGame.Game.GenerateObstacles: likewise, it requires the given draws to complete the placement. The loop never ends when more obstacles are requested than there are free cells (`Placement.PlacementFitsBoard`). Nothing bounds `obstacles_count` from above.
- SnakeGame.Game.GameLoop: keeps the source's food loop, so it does not use the corrected `Placement.FoodCell` and has no outcome for a full board.
- SnakeGame.Game.InitGame: requires a grid size of at least 4 so that the initial snake fits. Levels have sizes of 15 to 40.
- The selected level appears only through the grid size and obstacle count that `InitGame` takes as parameters.

## Findings

| source | as written | input that shows it | evidently intended | confidence | as-written member | corrected member |
|---|---|---|---|---|---|---|
| frontend/game.js:489-496 | after eating (line 618), `generateFood` draws cells until one is unoccupied, with no exit when none is | a board where the snake and the obstacles fill every cell except the food, and the head steps onto the food: every draw is occupied, so the loop spins and the page hangs instead of reaching `gameOver` | food placement stops on a full board and reports that no cell is left | high (not executed) | SnakeGame.FullBoardStallsTick | Placement.FoodCell |
