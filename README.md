# Snake game engine in Dafny

This project models the game-state engine of a terminal Snake game written in C
(`snake_game.c`). The snake moves on a 40 x 20 board whose outer ring of cells is wall.
It grows by one segment and earns 10 points for each piece of food it eats. The game ends
when the head would enter a wall or any segment of the body.

The model has three modules:

- `Board` (`board.dfy`): cells (`Point`), the wall test, the interior, and the shape a
  snake body keeps. The shape is: every segment inside the walls, no two segments equal,
  and consecutive segments side by side. It also counts cells, to show that food can
  always be placed while the snake is shorter than the interior (38 * 18 = 684 cells).
- `Moves` (`moves.dfy`): the four directions, the keys that request them, the reversal
  rule of `update_direction`, and the one-cell step of the head.
- `SnakeGame` (`snake_game.dfy`): the class `Game`, which holds what the C program keeps
  in globals. The linked list from `head` to `tail` is the field `body`, a sequence from
  head to tail. `food_x`/`food_y` are the field `food`; `score` and `dir` keep their names.
  Its methods are `add_head`, `remove_tail`, `collision`, `place_food`, `update_direction`
  and `init_game`. `Tick` is one pass of the main loop's game logic, and `Run` is the loop
  over a sequence of key presses.
  The object invariant `Valid()` holds in every state the game reaches. It says the body is
  well formed and at least 3 long, the food is on a free interior cell, and the score is 10
  per segment grown. The constructor establishes it and every tick keeps it.

The source checks for self collision (line 75) before it removes the tail (line 88).
So moving into the cell the tail is about to leave ends the game. `Tick` models this as
written. `VacatedTailStaysDistinct` shows that when the tail lies beside the head, such a
move would otherwise leave a well-formed body (inside the walls, duplicate-free and
connected). It does not show the rest of `Valid()`.
`TailChaseScenario` shows a curled snake dying this way.

## Model

| member | source | states |
|---|---|---|
| `Board.HitsWall` | snake_game.c:70-72 | the wall test is true exactly when the cell is not strictly inside the walls (1 <= x <= WIDTH-2, 1 <= y <= HEIGHT-2) |
| `Board.PrependKeepsShape` | snake_game.c:124-134 | prepending a fresh interior cell next to the head keeps the body inside the walls, duplicate-free and connected |
| `Board.DropLastKeepsShape` | snake_game.c:137-150 | dropping the tail keeps the body inside the walls, duplicate-free and connected |
| `Board.Cells` | snake_game.c:153-161 | the set of cells the body occupies: exactly its segments, and no more of them than segments |
| `Board.FreeCellExists` | snake_game.c:164-169 | while the body is shorter than the 684 interior cells, some interior cell is off the body, so the retry loop of food placement can end |
| `Board.LengthBound` | snake_game.c:164-168 | a well-formed body never has more segments than the interior has cells |
| `Board.FullBodyLeavesNoFreeCell` | snake_game.c:164-168 | a well-formed body as long as the interior leaves no free cell, so the retry loop of food placement never ends |
| `Moves.Opposite` | snake_game.c:218-231 | the reverse of a direction is a different direction |
| `Moves.Turn` | snake_game.c:218-236 | the new direction is never the reverse of the old one; a non-reversing arrow sets its direction, a reversing arrow or any other key keeps the old one |
| `Moves.Step` | snake_game.c:59-67 | the candidate head lies one cell from the old head, sharing a side with it |
| `Moves.StepInverse` | snake_game.c:62-67 | stepping back against the direction returns to the old head, and distinct directions give distinct candidate cells |
| `Moves.AdjacentIsStep` | snake_game.c:62-67 | every side neighbour of the head is the candidate cell of some direction |
| `SnakeGame.VacatedTailStaysDistinct` | snake_game.c:74-89 | when the tail lies beside the head, moving into the tail cell and dropping the tail leaves a well-formed body (inside, duplicate-free, connected); `Tick` still reports that move as `HitSelf`, because the cell is in the body it tests |
| `SnakeGame.Game.constructor` | snake_game.c:50-52 | a new game has the 3-segment snake (22,10),(21,10),(20,10) from head to tail, direction RIGHT, score 0, food on a free interior cell, and the object invariant |
| `SnakeGame.Game.InitGame` | snake_game.c:102-110 | prepends (WIDTH/2+2, HEIGHT/2), (WIDTH/2+1, HEIGHT/2), (WIDTH/2, HEIGHT/2), head first, to whatever body there was |
| `SnakeGame.Game.AddHead` | snake_game.c:124-134 | the point becomes the first segment with the old body unchanged behind it, the length grows by one, and the tail changes only when the snake was empty |
| `SnakeGame.Game.RemoveTail` | snake_game.c:137-150 | removes exactly the last segment and keeps the others in order; a snake of at most one segment is unchanged |
| `SnakeGame.Game.Collision` | snake_game.c:153-161 | the result is true exactly when the point equals some segment of the snake |
| `SnakeGame.Game.PlaceFood` | snake_game.c:164-169 | when some free interior cell exists, the food lands strictly inside the walls and off every segment |
| `SnakeGame.Game.UpdateDirection` | snake_game.c:218-236 | the direction becomes `Turn(old dir, key)`; when the neck is directly behind the head, the next move never goes into the neck |
| `SnakeGame.Game.Tick` | snake_game.c:59-89 | a wall hit or a hit on any segment, tail included, ends the game and changes nothing; otherwise the head moves one cell along dir; on the food the length and score grow by 1 and 10, elsewhere the body slides by one cell with length, score and food unchanged; the object invariant is kept |
| `SnakeGame.Game.Run` | snake_game.c:55-93 | a ghost trace links the start state to the final one, one `Round` per tick: key i turns the direction as `Turn` does, then tick i collides, eats or slides exactly as `Tick` does; round i collides exactly when the loop stopped there, so the loop stops at the first collision and otherwise uses every key; the object invariant holds throughout, and the length never shrinks and grows by at most one per tick |
| `SnakeGame.WallScenario` | snake_game.c:70-72 | a snake at (1,10) heading LEFT hits the left wall |
| `SnakeGame.EatScenario` | snake_game.c:83-85 | with food just ahead, the head moves onto it and the snake grows to 4 segments while the score rises by 10 |
| `SnakeGame.MoveScenario` | snake_game.c:86-89 | without food ahead, the 3-segment snake moves one cell right and the food stays where it was |
| `SnakeGame.TailChaseScenario` | snake_game.c:74-77 | a snake curled into a square that moves into its tail cell is a self collision |

## Left out

- Terminal rendering and screen handling: `draw_game`, `end_game` and the ncurses set-up
  and tear-down. These are terminal I/O.
- Keyboard input: `getch` is replaced by the `keys` argument of `Run`. The `'q'` key,
  which ends the process, is not modelled. `Key.Other` stands for every other key,
  including "no key this tick".
- Timing and seeding: `usleep` and `srand(time(0))`.
- The values of `rand()`. `PlaceFood` chooses an arbitrary free interior cell instead of
  running the retry loop. The distribution of the chosen cell is not modelled.
- PlaceFood: requires that a free interior cell exists. The source loops forever when
  there is none.
- Tick: requires that a snake about to eat is shorter than 683 segments. Otherwise no free
  cell remains after it grows, and the source's food placement would never return. Under
  the object invariant this is exactly the condition for that loop to end
  (`FreeCellExists` and `FullBodyLeavesNoFreeCell`).
- Run: requires the body length plus the number of keys to stay below the interior area.
  This is sufficient for every tick's requirement, but stronger than what the source needs.
- `malloc`, `free` and `free_snake`: memory management has no observable game behaviour.
  The linked list is a sequence, so the model does not capture node identity or aliasing.
  `remove_tail` and `collision` keep their walk over the list as an index loop.
- Integer width: coordinates stay within the board, so C `int` overflow cannot occur and
  is not modelled.
- The game-over state is the `Outcome` of a tick (`HitWall`/`HitSelf`), and `Run` stops at
  it. The source has no alive flag; it leaves its main loop with `break`.
