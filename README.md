# Snake game state, modelled in Dafny

A model of the game-state logic of a terminal snake game written in C
(`snake.c`). The board is 32 columns by 16 rows. The snake is a `Snake`
record: head position, length, heading and a fixed array of
`WIDTH*HEIGHT` body cells, head first. Each tick the main loop reads at most
one key; `Q` quits, `W`/`A`/`S`/`D` (either case) arm the game and turn the
snake (never straight back), and once armed the snake moves one cell per tick
with wrap-around at the edges, grows when its head lands on the apple (which
is then placed anew) and ends the game when its head lands on its own body.

The project has two modules.

- `SnakeRules` (`snake_rules.dfy`) states the rules as values: `Turned`
  (updateDirection), `Advanced` (head step with wrap-around), `Shifted` and
  `Grown` (body shift and growSnake), `Move` (moveSnake), `TickStep` (one
  pass of main's loop) and `Play` (a finite run of ticks), each with a
  contract that says what the result means, plus lemmas about runs.
- `SnakeGame` (`snake_game.dfy`) is the program's own shape. Class `Snake`
  holds the record's fields and the body array and updates them in place. Its
  methods are proved equal to the `SnakeRules` functions on the abstract value
  `Model()`. The class keeps the invariant that the body is non-empty, that
  `body[0]` is the head, and that every used cell is on the board. Class `Game`
  holds the variables of `main` that outlive a tick: the snake, the apple and
  the `startInput` flag.

Growth on eating: one might expect the new segment to be added at the tail
cell the snake had before the move. The code instead appends a copy of the
segment that is last after the shift, which is the old second-to-last
segment; the model follows the code. `FirstStepEats` shows this on the
starting snake: the fourth segment is (15,8), not the old tail (14,8).

## Model

| member | source | states |
|---|---|---|
| `SnakeRules.Turned` | snake.c:95-102 | the new heading is never the reverse of the old one; a non-movement key leaves it unchanged; a movement key sets exactly the heading it names unless that is the reverse, in which case nothing changes |
| `SnakeGame.Snake.UpdateDirection` | snake.c:95-102 | the heading field becomes `Turned(old heading, key)`; nothing else changes and the snake invariant holds |
| `SnakeRules.Advanced` | snake.c:111-122 | from an on-board cell, the new head is on the board and is exactly one step in the heading, modulo WIDTH and HEIGHT |
| `SnakeGame.Snake.AdvanceHead` | snake.c:111-122 | the head fields become `Advanced(old head, heading)` |
| `SnakeRules.Shifted` | snake.c:124-130 | the shifted body has the same length, its first cell is the new head and cell i is the old cell i-1, so the old tail is dropped |
| `SnakeGame.Snake.ShiftBody` | snake.c:124-130 | the descending loop leaves `body[..length]` equal to `Shifted(old body, head)` and the spare slots untouched |
| `SnakeRules.Grown` | snake.c:104-108 | the grown body is one longer, keeps every old cell, and its new last cell equals the previous last cell |
| `SnakeGame.Snake.Grow` | snake.c:104-108 | length goes up by exactly one, the body becomes `Grown(old body)`, head and heading unchanged, later slots untouched; requires `length < WIDTH*HEIGHT` |
| `SnakeRules.Relocated` | snake.c:134-135 | the apple placed from two `rand()` draws lies on the board |
| `SnakeRules.InitialSnake` | snake.c:23-33 | the starting snake has head (16,8), heading right, body [(16,8),(15,8),(14,8)], and is well formed (head is body[0], all cells on the board) |
| `SnakeGame.Snake.constructor` | snake.c:23-33 | a fresh snake whose value is `InitialSnake()` and which satisfies the invariant |
| `SnakeRules.Move` | snake.c:110-143 | the new head is one step in the heading modulo the board; the snake stays well formed and keeps its heading; new cell i is old cell i-1; length grows by one iff the new head is the apple, the added cell copying the post-shift last cell; an eaten apple is moved on-board, an uneaten one stays; collision holds iff some non-head cell of the post-growth body equals the new head |
| `SnakeGame.Snake.HitsOwnBody` | snake.c:138-142 | the scan answers true iff some segment at index 1 or above, below length, lies on the head |
| `SnakeGame.Snake.MoveSnake` | snake.c:110-143 | the new snake, the new apple and the returned 0/1 are exactly those of `Move`; the invariant holds and slots past the length are untouched; requires a free slot only when the head will land on the apple |
| `SnakeRules.InitialGame` | snake.c:180-184 | the starting game is well formed, not armed, and holds the starting snake |
| `SnakeGame.Game.constructor` | snake.c:180-184 | a fresh game whose value is `InitialGame` of the two draws |
| `SnakeRules.TickStep` | snake.c:204-217 | a tick quits iff the key upper-cases to Q and then changes nothing; the game becomes armed iff it was or the key is a movement key; an unarmed game is unchanged; the heading is never reversed and is the turned heading for a movement key; an armed tick moves the head one step; an armed tick eats iff the new head is the apple, and length grows by one exactly when it eats; an apple not eaten stays where it was; game over iff armed and the head hits the body |
| `SnakeGame.Game.Tick` | snake.c:204-217 | the game's new value and the returned status are those of `TickStep`; requires a free slot only on a tick that eats |
| `SnakeGame.Game.MoveIfStarted` | snake.c:215-217 | once armed, the game becomes the result of `Move` and the status is GameOver exactly on a collision; unarmed, nothing changes and the status is Running |
| `SnakeRules.Play` | snake.c:201-220 | over a run of ticks the game stays well formed (head and every body cell on the board) and the final length is the initial length plus the number of apples eaten, at most one per tick |
| `SnakeGame.Game.Run` | snake.c:198-220 | the loop stops on quit or game over, or when the reads run out, with the game and status that `Play` gives; requires only that the starting length plus the apples eaten fit in the array |
| `SnakeRules.PlayStatus` | snake.c:204-217 | a run that ends Running read no quit key; a run that ends with Quit read one |
| `SnakeRules.IdleUntilArmed` | snake.c:199-215 | while no movement key and no quit key is read, an unarmed game does not change at all |
| `SnakeRules.ArmedStaysArmed` | snake.c:209-210 | once a movement key has armed the game it stays armed for the rest of the run |
| `SnakeRules.QuitFirst` | snake.c:204-207 | a run whose first read is `q` or `Q` stops at once with status Quit and the game unchanged |
| `SnakeRules.FirstStep` | snake.c:110-130 | from the start, a `d` with the apple elsewhere gives head (17,8), body [(17,8),(16,8),(15,8)] and no game over |
| `SnakeRules.FirstStepEats` | snake.c:124-136 | from the start with the apple at (17,8), the body becomes [(17,8),(16,8),(15,8),(15,8)], with no collision and the apple moved on-board |

## Left out

- Drawing the board and the game-over screen (`drawBoard`, `drawGameOver`): output only, no state change.
- Terminal size query, raw mode, non-blocking input setup and restore, the centring offsets: terminal I/O; `getTermSize`'s exit on failure is not modelled.
- `read`, `usleep`, `srand(time(NULL))`: the byte read is a parameter (`None` when nothing was read); time is not modelled.
- `rand()`: its draws are natural-number parameters, one pair per tick, used only when the apple is eaten (`Relocated` takes them modulo WIDTH and HEIGHT).
- `toupper` is modelled for ASCII letters only (the C locale); other characters are left as they are.
- The body is an array of `Cell` values rather than `int[WIDTH*HEIGHT][2]`; `body[i][0]` is `x` and `body[i][1]` is `y`.
- `SnakeGame.Snake.MoveSnake`: requires a free slot in the body array when the head will land on the apple. At full length such a move makes growSnake write one slot past the array; the model excludes that case and does not model the out-of-bounds write. `SnakeGame.Game.Tick` and `SnakeGame.Game.Run` carry the same condition, stated for the ticks that eat.
- `SnakeGame.Game.Run`: models main's endless loop over a finite run of reads.
- `SnakeRules.Advanced`: requires the head to start on the board, because the code's wrap-around only corrects a one-cell overshoot; the snake invariant guarantees this.
