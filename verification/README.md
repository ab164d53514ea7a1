# Snake game logic in Dafny

This project models the game logic of a small pygame Snake (`main.py`), with
everything it draws stripped away. The board has 20 × 20 cells. The snake is
a head-first list of cells plus a flag that says a growth is pending. The food
is one cell. Once per tick the main loop does four things in order:

1. It reads the key events of the tick. Arrow keys that would reverse the last
   move are ignored.
2. Space while the game is over restarts the game.
3. If the game is running, the snake moves, may eat, and new food is placed
   when it eats.
4. The game ends when the head leaves the board or lands on the snake's own
   body.

The modules follow the classes of `main.py`:

- `Geometry`: cells, the four move deltas, the board size, and shared facts
  about sequences.
- `GridModel`: the `Grid` class. `EnumerateCells` is its nested loop, and
  `Columns` is the list that loop builds.
- `FoodModel`: the `Food` class. `FoodGrid` is the loop that collects free
  cells, and `Without` is the list it builds.
- `SnakeModel`: the `Snake` class. `MoveBody` is the body after a move.
- `GameLoop`: the key events, the game-over test `HitsWallOrSelf` (main.py:180-184), `StepKey` and `ScanKeys` (the values one event and a whole tick's events give to `game_over`, `last_move` and `next_move`), and the `Game` class. `Game` holds the variables
  of `main` that persist across ticks. `Game.Valid` is the invariant every
  tick keeps:
  - `gameOver` is true exactly when the head is off the board or in
    `body[1:]`;
  - the food is on the board and not on the snake;
  - the body is a chain of cells that share a side;
  - while the game runs, the body stays on the board and has no repeated
    cell.

`random.choice` and `random.randint` are modelled as nondeterministic choice
(`:|`) over the same candidates, so every property holds for any choice. The
pygame event queue is modelled as a tick's sequence of `Key` values.

Two behaviours of `main.py` are easy to miss:

- **Full board.** When the snake fills the board, `random.choice` in
  `generate_food` raises on an empty list. The program then stops; it does
  not enter a defined "board full" state. `FoodModel.Food.GenerateFood`
  returns `ok == false` in that case, and `GameLoop.Game.Tick` returns
  `crashed == true`. `Tick` proves that this happens only when the body
  covers all 400 cells.
- **Reversal filter after a restart.** A Space restart in the middle of a
  tick's events sets `last_move` to `(0, 1)`. Arrow keys after it in the same
  tick are tested against `(0, 1)`, not against the previous tick's move.
  `ScanKeys` models this, and `ReadEvents`, `HandleEvents` and `Tick` are
  proved to follow it.

## Model

| member | source | states |
|---|---|---|
| GridModel.EnumerateCells | main.py:50-54 | The nested loops (x outer, y inner) build exactly `Columns(w, h)`: column 0 top to bottom, then column 1, and so on. |
| GridModel.ColumnsSound | main.py:50-54 | Every cell the loops list has 0 <= x < w and 0 <= y < h. |
| GridModel.ColumnsComplete | main.py:50-54 | Every cell with 0 <= x < w and 0 <= y < h is listed. |
| GridModel.ColumnsLength | main.py:50-54 | The loops append exactly w * h cells. |
| GridModel.ColumnsBeforeColumn | main.py:50-54 | No cell of the first w columns reappears when column w is appended. |
| GridModel.ColumnsDistinct | main.py:50-54 | No cell is appended twice. |
| GridModel.ColumnsBoard | main.py:50-54 | The list of a w × h board has w * h entries and holds each of its cells exactly once. |
| GridModel.ColumnMembership | main.py:51-54 | After n rounds of the inner loop for column x, the appended cells are exactly (x, y) with 0 <= y < n. |
| GridModel.ColumnShape | main.py:51-54 | One column has n entries, with no repeats. |
| GridModel.BoardCells | main.py:49-56 | The list `Grid.__init__` stores for a w × h board holds each of its cells exactly once. |
| GridModel.Grid.constructor | main.py:47-56 | `Grid()` leaves `gridTuples` holding each cell of the 20 × 20 board exactly once: 400 entries. |
| FoodModel.WithoutMembership | main.py:36-39 | A cell is in `food_grid` if and only if it is in the grid list and not in the snake's body. |
| FoodModel.WithoutDistinct | main.py:36-39 | `food_grid` has no repeats when the grid list has none. |
| FoodModel.WithoutCount | main.py:36-39 | If the occupied cells are distinct and all listed, `food_grid` has exactly `len(grid) - len(body)` entries. |
| FoodModel.FreeCellCount | main.py:36-41 | A snake of distinct on-board cells leaves exactly 400 - `len(body)` free cells. None are left exactly when the body has 400 cells, which is the only case where `random.choice` fails. |
| FoodModel.FullBodyCoversBoard | main.py:36-41 | A body of 400 distinct on-board cells contains every cell of the board, so when `random.choice` gets an empty list the snake really fills the board. |
| FoodModel.FoodGrid | main.py:36-39 | The loop of `generate_food` returns exactly the free cells, in grid order. |
| FoodModel.Food.constructor | main.py:24-26 | A new `Food` is at (0, 0). |
| FoodModel.Food.GenerateFood | main.py:35-43 | It succeeds if and only if a free cell exists. On success the food is on a grid cell outside the body, and if exactly one cell is free the food is on that cell. On failure (`random.choice` raises on the empty list) the food does not move. |
| SnakeModel.MoveBodyShape | main.py:75-82 | After `move(d)` the first body cell is the old head plus d. Without growth the length is unchanged and `body[1:]` is the old body minus its last cell. With growth the length is one more and `body[1:]` is the whole old body. |
| SnakeModel.MoveBodyTail | main.py:78-82 | Every cell behind the new head was already a body cell. |
| SnakeModel.MoveKeepsChain | main.py:75-82 | A move by one of the four unit deltas keeps every body cell side by side with the next one. |
| SnakeModel.Snake.constructor | main.py:65-70 | `Snake(x, y)` has head (x, y), body [(x, y), (x-1, y)], `head == body[0]` and no pending growth. |
| SnakeModel.Snake.Move | main.py:73-82 | The head becomes the old head plus d and is still `body[0]`. The body becomes `MoveBody` of the old body. Pending growth is consumed. |
| SnakeModel.Snake.EatFood | main.py:93-95 | `grow` becomes true when the food's cell equals the head. Otherwise nothing changes. |
| GameLoop.Steer | main.py:155-162 | An arrow key replaces the pending move with its own delta, unless that delta reverses `last_move`; Space leaves it alone. So the result is either the old pending move or a direction that does not reverse `last_move`. |
| GameLoop.ScanKeysRestart | main.py:163-169 | After a tick's events the game is still over exactly when it was over and no Space came. `last_move` reads (0, 1) after a restart and is otherwise untouched by the events. |
| GameLoop.ScanKeysNeverReverses | main.py:154-169 | However many events arrive, the pending move stays one of the four directions and never reverses `last_move`. |
| GameLoop.QuickTurnIsNoReversal | main.py:155-162 | Moving right, a lone Left is ignored. Up then Left in one tick turns up, because Left is still tested against the previous move, so two quick keys cannot reverse the snake. Space while running changes nothing. |
| GameLoop.MoveKeepsSimple | main.py:73-82 | A move that passes the game-over test (main.py:180-184) keeps a body with no repeats and with every cell on the board. |
| GameLoop.TailChase | main.py:79-82 | Because the tail is popped before the test at main.py:183, moving the head onto the cell the tail leaves (no growth) is not a self-collision. Only the board edge can end the game there. |
| GameLoop.TailChaseGrowing | main.py:79-82 | With growth pending the tail stays, so the same move is a self-collision (main.py:183). |
| GameLoop.SpawnFacts | main.py:137-138 | A fresh snake is on the board, has no repeats, is a chain, and does not trigger game over. |
| GameLoop.SpawnLeavesRoom | main.py:165-169 | A fresh snake always leaves a free cell, so the `generate_food` after a restart cannot fail. |
| GameLoop.SpawnSnake | main.py:137-138 | The snake is built with head x in [3, 17] and y in [3, 6], one cell to its left, with no pending growth. |
| GameLoop.Game.constructor | main.py:123-142 | The initial state keeps the invariant: not over, move DOWN, a fresh snake, and food off the snake. |
| GameLoop.Game.Restart | main.py:163-169 | Space while the game is over clears game over, builds a fresh snake, sets both moves to (0, 1) and places food off the new snake. |
| GameLoop.Game.ReadEvent | main.py:154-169 | One event updates `game_over`, `last_move` and `next_move` exactly as `StepKey` says. Only Space while the game is over replaces the snake, and then the food is on the board and off the new snake; otherwise the snake and the food stay. |
| GameLoop.Game.ReadEvents | main.py:148-169 | The loop leaves `game_over`, `last_move` and `next_move` exactly as `ScanKeys` computes them from the events. The pending move is therefore a direction that does not reverse `last_move`. A restart happens exactly when the game was over and Space is among the events, and it sets `last_move` to (0, 1). Otherwise `last_move`, the snake and the food are left alone. After a restart the food is off the new snake. |
| GameLoop.Game.HandleEvents | main.py:147-171 | The move to apply is exactly `ScanKeys` of the events, starting from the previous tick's move, and `last_move` ends equal to it. It never reverses the previous tick's move, or (0, 1) if a restart came. A restart happens exactly when the game was over and Space was pressed. The invariant holds afterwards. |
| GameLoop.Game.Advance | main.py:172-184 | While the game is over nothing changes. Otherwise the snake makes one `MoveBody` step and `grow` is set exactly when the head reached the food; without growth the food stays put. The invariant holds afterwards, including `gameOver == HitsWallOrSelf(body)`: the game is over exactly when the head is off the board or in `body[1:]`. A crash happens only when the body has 400 distinct on-board cells and so covers every cell of the board. |
| GameLoop.Game.Tick | main.py:144-184 | The direction applied is exactly `ScanKeys` of the tick's events. While the game runs, the head moves by that direction, the body makes one `MoveBody` step, its length grows by at most one and never shrinks, and the food stays put unless the head reached it. While the game is over and no Space comes, the snake and food are unchanged. A restart replaces the snake by a fresh two-cell snake, whatever its old length, starting in [3, 17] × [3, 6], which has already made this tick's move. On that restart tick the fresh snake's meal is handled like any other: the food the restart placed is on the board and not on the new snake's second cell, `grow` is set exactly when the head reached it, and the food only moves if it was eaten. A restart tick never crashes. A crash happens only when the body has 400 distinct cells and contains every cell of the board. |

## Left out

- Rendering is not modelled: `draw_food`, `draw_grid`, `draw_snake`, `draw_window`, surfaces, fonts, colours, `BLOCK_SIZE` pixel arithmetic and the float centring at main.py:111-115.
- The `grid_rect` list of `pygame.Rect` objects in `Grid.__init__` is not modelled; it is only used for drawing.
- Window set-up, `clock.tick(FPS)`, `pygame.event.get()` polling and quit handling (`pygame.quit`, `sys.exit`) are not modelled. A tick's input is a given sequence of `Key` events.
- Key-down events for keys other than the arrows and Space are not modelled; `main.py` ignores them.
- The pseudo-random generator is not modelled. The model uses nondeterministic choice over the same candidates, so properties hold for every choice, but uniformity of the choice is not stated.
- GridModel.Grid.constructor: states that `gridTuples` holds every on-board cell exactly once, not its order. The order is stated by `GridModel.EnumerateCells`, and nothing in the game depends on it.
- GameLoop.Game.constructor: sets `lastMove` to DOWN. In `main.py`, `last_move` is first assigned at main.py:147, before any use, so its initial value never matters.
- After a crash (the uncaught exception of a full board) the program stops. The model then promises only the board-full fact, not the invariant.
