# Snake: a Dafny model of the per-tick simulation

This project models the simulation core of a grid-based snake game. The game
is written in Python over pygame. The snake is a list of cells with its head
first. It moves one cell per tick in one of four directions and wraps around
the borders of an 80 × 60 area. It grows by one segment on the move after it
eats the cube, and the game ends when its head lands on another of its
segments.

Modules:

- `Grid` (grid.dfy): cells (`Pos`), the area (`Area`, `AREA_SIZE`), the
  `DIRECTIONS` table (`Dir`, `Vector`) and the wrap-around of one axis
  (`WrapAxis`) and of a cell (`WrapPos`).
- `Snake` (snake.dfy): the `Snake` class as an immutable `State`. It holds
  `area`, `body`, `dir` and `digesting`. Its methods are pure functions:
  `Init`, `SetDirection`, `Move`, `MoveOnItself`, `Eat`, and `Length` for
  `__len__`.
- `Cube` (cube.dfy): the `Cube` class, with its position and its
  `Init`/`Move`.
- `Game` (game.dfy): the main loop, lines 160-187 of the program.
  - `Start` creates the snake and the cube.
  - `Steer` applies one tick's direction keys in order.
  - `Tick` is one loop iteration.
  - `Play` runs a sequence of ticks.

The program draws some values at random. The model takes them as
parameters:

- the head cell of a new snake, bounded to the range `randrange` returns;
- its direction, any of the four (`choice` over the direction table);
- the cube's cell, bounded to the range `randrange` returns.

A tick's direction keys are a parameter too.

## Model

| member | source | states |
|---|---|---|
| `Grid.VectorIsUnitStep` | __main__.py:27-32 | each entry of the direction table is a step of one cell along exactly one axis |
| `Grid.VectorInjective` | __main__.py:27-32 | the four keys map to four different vectors |
| `Grid.OppositeInvolution` | __main__.py:51-57 | no direction is its own reversal, and reversing twice gives back the starting direction, as the refusal test of `set_direction` needs |
| `Grid.ReversalIff` | __main__.py:55-56 | the sum of the requested and current vectors is (0, 0) exactly when the request is the opposite direction |
| `Grid.WrapAxis` | __main__.py:73-77 | a wrapped coordinate is always in `[0, size)`; a coordinate already inside is unchanged; a coordinate one step outside is reduced modulo `size` |
| `Grid.WrapPos` | __main__.py:72-77 | a wrapped cell always lies inside the area, and a cell inside the area is unchanged |
| `Grid.WrapStepIsModulo` | __main__.py:70-77 | a head inside the area, stepped and wrapped, equals the stepped head reduced modulo the area size on each axis |
| `Snake.Init` | __main__.py:36-49 | a new snake has 20 segments and starts at the anchor; each segment is one step behind the previous one along the direction; it starts with the given direction and is not digesting |
| `Snake.InitInBounds` | __main__.py:42-49 | with the anchor in `[20, size - 20)` on each axis, every initial segment lies inside the area |
| `Snake.InitDistinct` | __main__.py:42-49 | the initial segments are pairwise distinct, so a new snake is not on itself |
| `Snake.SetDirection` | __main__.py:51-57 | a non-opposite request becomes the direction; an opposite request leaves the snake unchanged; the result is never the reversal of the old direction; body and digestion never change |
| `Snake.SetDirectionLastWins` | __main__.py:51-57 | after one call the direction is the requested one, or its opposite when the request was refused |
| `Snake.Move` | __main__.py:59-77 | the old body shifts one slot toward the tail; the old tail is dropped, or kept when digesting, so length grows by one then; digestion ends; the head is old head plus direction, modulo the area; a body inside the area stays inside |
| `Snake.MoveLength` | __main__.py:64-68 | a move never shortens the snake and adds a segment exactly when it was digesting |
| `Snake.MoveKeepsLine` | __main__.py:64-77 | a straight, non-digesting snake that steps without crossing a border stays straight and is not on itself |
| `Snake.Length` | __main__.py:95-98 | the length is zero exactly for an empty body, and otherwise counts the head plus the segments behind it that `move_on_itself` searches |
| `Snake.MoveOnItself` | __main__.py:79-82 | true exactly when some segment other than the head is on the head's cell |
| `Snake.HasSelfCollision` | __main__.py:79-82 | the same test as an explicit scan of the segments behind the head |
| `Snake.Eat` | __main__.py:84-93 | returns true exactly when the cube is on the head; then digestion is on; body and direction stay unchanged either way |
| `Snake.EatTwiceGrowsOnce` | __main__.py:64-66 | two successful eats before a move still add only one segment on that move |
| `Snake.DigestionCycle` | __main__.py:64-68 | after an eat, the next move adds one segment and ends digestion, and the move after it keeps the length |
| `Snake.BoxTurnCollides` | __main__.py:59-82 | a non-digesting snake of five or more heading right, with a free column to its right and a free row below, that turns down, left and up on successive ticks returns to its start cell; its fifth segment is there, so it is on itself |
| `Cube.Init` | __main__.py:119-124 | the cube starts on the drawn cell, which is inside the area |
| `Cube.Move` | __main__.py:132-135 | the cube jumps to the newly drawn cell, which is inside the area, whatever its old position |
| `Game.Start` | __main__.py:160-161 | the initial game is valid: a snake of 20 segments inside `AREA_SIZE`, starting at the anchor, laid out straight behind it along the given direction, heading that way and not digesting, not on itself; the cube is on the drawn cell |
| `Game.Steer` | __main__.py:175-180 | applying a tick's keys in order changes only the direction; the final direction is the old one or one of the keys; the last key takes effect, or the direction is its opposite when it was refused as a reversal |
| `Game.Tick` | __main__.py:173-187 | one loop iteration: the snake moves along the direction left by the tick's keys, its new head being the old head plus that step modulo the area; length grows by one only if digesting; the body shifts toward the tail, and a digesting snake keeps its whole old body behind the new head; the game ends exactly when the moved snake is on itself; otherwise digestion is on iff the head reached the cube, and only then is the cube redrawn; validity is kept |
| `Game.Play` | __main__.py:173-187 | over any sequence of ticks the area is kept; the snake never shrinks and gains at most one segment per tick |
| `Game.PlaySnoc` | __main__.py:173-184 | one more input runs one more `Tick` on the game the earlier inputs left, unless that game is over, so the loop applies the ticks in turn and stops only when the snake runs onto itself |
| `Game.PlayKeepsValid` | __main__.py:173-187 | over any sequence of ticks every segment stays inside the area; a running game stays valid; a game ends only with the head on another segment |
| `Game.StartThenPlay` | __main__.py:160-187 | from the start, the length reported by `__len__` stays between 20 and 20 plus the number of ticks, and every segment stays inside `AREA_SIZE` |
| `Game.SingleKeyNeverReverses` | __main__.py:175-180 | with at most one direction key in a tick the snake cannot turn around |
| `Game.TwoKeysReverse` | __main__.py:175-180 | a sideways key followed by the reversal in the same tick does turn the snake around |
| `Game.ReversalInOneTickEndsGame` | __main__.py:173-184 | such a turn-around ends the game on that tick for a snake of three or more segments whose second segment is one step behind the head inside the area, digesting or not |

`Snake.MoveLength` and `Game.StartThenPlay` state how `Snake.Length` evolves.

Some behaviour is modelled as written on purpose:

- Each `set_direction` call compares the request only with the direction left
  by the previous call. So two keys in one tick can turn the snake around
  (`Game.TwoKeysReverse`). When the second segment is one step behind the
  head and inside the area, as for a snake that has not just wrapped, that
  ends the game at once (`Game.ReversalInOneTickEndsGame`).
- The cube is redrawn anywhere in the area, including on the snake's body.

## Left out

- Window, icon, clock, event polling and drawing (`draw` methods, lines
  154-193 apart from the simulation calls): rendering and I/O glue over
  pygame. The `QUIT` event, which exits the process at once, is not
  modelled. A tick's input is the sequence of its direction keys.
- The score file block (lines 198-215): file I/O with exception handling.
- Console output, the start-up wait and the final `input` (lines 156-158,
  171, 193-196, 217): user interaction only.
- Random generation with `randrange`/`choice`: the chosen values are
  parameters, bounded by `requires` clauses to the ranges the calls return.
- `Snake.Init`: a grid too small for the anchor range, where `randrange`
  raises `ValueError`, is not modelled as an error value. No anchor meets
  the precondition then, so no snake can be built.
- `Snake.Move`, `Snake.MoveOnItself`, `Snake.Eat`: these require a non-empty
  body. The program would raise `IndexError` on `_body[0]` otherwise, and
  every snake it builds has 20 segments.
- `Game.Tick`: the cube is redrawn in the snake's area. The program passes
  `AREA_SIZE` to `Cube.move`, and the snake's area is that same constant.
- setup.py: packaging configuration, with no behaviour.
