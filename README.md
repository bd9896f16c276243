# Snake game simulation, modelled in Dafny

This project models the simulation behind the pygame snake game in
`the_snake.py`, with no drawing. The board is 640 x 480 pixels, split into
20-pixel cells (32 x 24 cells). Positions are pixel coordinates of a cell's
top-left corner, as in the source.

- `Grid` (`grid.dfy`) holds the constants, the `Pos` and `Direction` values,
  `Opposite`, and `WrapStep`. `WrapStep` is a reference definition of one
  step on the torus, written with modular arithmetic.
- `Apples` (`apples.dfy`) holds the free-cell list that `randomize_position`
  builds, as the functions `FreeColumn`, `FreeFrom` and `FreeCells`. It also
  holds the `Apple` class, whose random choice is a nondeterministic pick
  (`:|`) from that list.
- `Snakes` (`snakes.dfy`) holds the `Snake` class. Its fields are `positions`
  (a `seq` used as a deque, head first), `length`, `direction`,
  `nextDirection`, `last` and `isCrash`. `Valid()` is its object invariant:
  the body is non-empty, no longer than `length`, on the grid and
  duplicate-free. `Move` keeps the source's compare-and-reset branch chain and
  is proved to compute `WrapStep`. The function `Advance` describes the body
  after a move without a crash, and three lemmas state its shape.
- `Controls` (`controls.dfy`) holds the arrow-key gating (`Gate`), the effect
  of a tick's key presses in order (`AfterKeys`, `Heading`) and the loop
  `HandleKeys` that applies them to a snake.
- `Game` (`game.dfy`) holds the start of `main` and one iteration of its loop,
  without drawing (`Tick`). `Between` is the invariant that holds between
  ticks. It also holds two client scenarios.
- `Sequences` and `Wrappers` are helpers: duplicate-free lists and their
  cardinality, and `Option`.

Behaviours of the code worth knowing before reading the model:

- A head that lands on any body cell is a crash, the current tail included,
  although the tail would vacate that cell in the same step
  (the_snake.py:168). `Game.TailCollision` shows this.
- The wrap compares and resets (the_snake.py:151-166) instead of taking a
  modulus. `Snakes.Snake.Move` proves that the two agree on every grid-aligned
  head, and aligned heads are the only ones that occur.
- A crash does not relocate the apple. After a crash the reset snake may sit
  on the apple at the center, so `Between` allows exactly that case.
- The apple is chosen from a list of free cells, not by repeated sampling.
  When no cell is free the choice fails. `Tick` reports this as `ok == false`,
  with the apple left where it was. `Apples.FreeCellsEmpty` shows that the list
  is empty exactly when every one of the cells is excluded, and
  `Apples.FreeCellsEmptyNeedsFullBoard` shows that the exclusion list (the
  body) then has at least 768 entries.
- There is no win state, no speed control and no restart command.

## Model

| member | source | states |
|---|---|---|
| Grid.Direction.Vector | the_snake.py:15-18 | The direction constants: each is one cell along exactly one axis, with components in -1..1. |
| Grid.Opposite | the_snake.py:15-18 | The opposite direction is a different direction, and its vector is the negation of the given one. |
| Grid.WrapStepOnGrid | the_snake.py:149-166 | One step from a grid-aligned in-range cell lands on a grid-aligned in-range cell. |
| Grid.WrapStepAtEdges | the_snake.py:149-166 | On the grid, the modular step equals adding one cell. Leaving an edge resets to the opposite edge: RIGHT from x = 620 gives x = 0, LEFT from x = 0 gives x = 620, and the same holds for DOWN/UP on y with 460. |
| Grid.WrapStepMoves | the_snake.py:149-166 | A step always reaches a different cell from the one it started on. |
| Grid.WrapStepUndo | the_snake.py:149-166 | A step followed by a step in the opposite direction returns to the starting cell. |
| Apples.FreeColumn | the_snake.py:92-94 | The inner `for y` of the comprehension for one column. No contract of its own; see `FreeCellsMembers`. |
| Apples.FreeFrom | the_snake.py:91-94 | The outer `for x` of the comprehension, column by column. No contract of its own; see `FreeCellsMembers`. |
| Apples.FreeCells | the_snake.py:89-94 | The whole candidate list. No contract of its own; see `FreeCellsMembers`, `FreeCellsDistinct`, `FreeCellsCount` and `FreeCellsEmpty`. |
| Apples.FreeCellsMembers | the_snake.py:89-94 | A cell is in the candidate list exactly when it is grid-aligned, inside the screen and not excluded. |
| Apples.FreeCellsEmpty | the_snake.py:89-95 | The candidate list is empty exactly when every grid cell is excluded. |
| Apples.FreeCellsDistinct | the_snake.py:89-94 | The candidate list never holds a cell twice. |
| Apples.FreeCellsCount | the_snake.py:89-92 | With nothing excluded, the candidate list has 32 x 24 = 768 cells. |
| Apples.FreeCellsEmptyNeedsFullBoard | the_snake.py:89-95 | The candidate list can only be empty when the exclusion list has at least 768 entries. |
| Apples.Apple.RandomizePosition | the_snake.py:80-95 | The call succeeds exactly when a free cell exists. The new position is then a candidate: on the grid and not excluded. On failure the position is unchanged. |
| Apples.Apple.constructor | the_snake.py:67-72 | The first apple is on the grid and never at the screen center. |
| Snakes.Snake.Valid | the_snake.py:98-176 | The body invariant every method keeps: non-empty, no longer than `length`, on the grid, no cell twice. No contract of its own. |
| Snakes.Snake.constructor | the_snake.py:103-115 | A new snake is one cell at the center with length 1, heading RIGHT, nothing pending, no vacated cell and no crash. |
| Snakes.Snake.UpdateDirection | the_snake.py:137-141 | A pending direction becomes the direction and is cleared. With nothing pending, the direction is unchanged. |
| Snakes.Snake.Head | the_snake.py:182-187 | The head is the first body cell and lies on the grid. |
| Snakes.Advance | the_snake.py:172-176 | The body after a move without a crash: head inserted in front, last cell popped once the body exceeds `length`. No contract of its own; see `AdvanceShape`, `AdvanceValid` and `AdvanceAvoids`. |
| Snakes.AdvanceShape | the_snake.py:172-176 | After a move the new head comes first, followed by the old body in order, with its last cell dropped iff the body had reached `length`. The new size is min(old + 1, length). |
| Snakes.AdvanceValid | the_snake.py:168-176 | A move onto a cell outside the body keeps the body non-empty, within `length`, on the grid and duplicate-free. |
| Snakes.AdvanceAvoids | the_snake.py:172-176 | Behind the new head there is only what was already in the old body. |
| Snakes.Snake.Move | the_snake.py:143-176 | The new head is the wrapped step in the current direction. If it is in the body (tail included), the snake resets: body [center], length 1, no vacated cell, crash flag flipped. Otherwise the body becomes `Advance` of the old body (see the three lemmas above), `last` is the old tail, and length, direction and crash flag are unchanged. The body invariant is kept. |
| Snakes.Snake.Increase | the_snake.py:178-180 | The target length grows by exactly one, and the body invariant is kept. |
| Snakes.Snake.Reset | the_snake.py:189-199 | Body [center], length 1, no vacated cell, crash flag flipped. The body invariant holds afterwards. |
| Snakes.Snake.IsCrashToggle | the_snake.py:201-203 | The crash flag is negated. |
| Controls.Requested | the_snake.py:216-223 | The direction each arrow key names; exactly the four arrow keys name one. |
| Controls.Gate | the_snake.py:216-223 | An arrow press is accepted exactly when its direction is not the opposite of the current one, and then sets that direction. Other keys are ignored. The result is never the opposite direction. |
| Controls.AfterKeys | the_snake.py:211-223 | After a sequence of presses, the pending direction is never the opposite of the current direction, unless it already was. |
| Controls.AfterKeysSource | the_snake.py:211-223 | The pending direction after a sequence of presses is the old one or the one set by some accepted press. |
| Controls.AfterKeysLastAccepted | the_snake.py:211-223 | The last accepted press of a tick decides the pending direction. |
| Controls.AfterKeysNoneAccepted | the_snake.py:211-223 | If no press is accepted, the pending direction is unchanged. |
| Controls.Heading | the_snake.py:216-223 | The direction a tick moves in is never the reverse of the current one. |
| Controls.HeadingSource | the_snake.py:216-223 | The direction a tick moves in is the current one or the one some accepted press asked for. |
| Controls.HandleKeys | the_snake.py:206-223 | Processing the presses in order leaves the pending direction as `AfterKeys` describes. |
| Game.Between | the_snake.py:238-255 | The loop invariant of `main`: a valid snake with nothing pending and the crash flag down, and an apple on the grid that is off the snake except right after a crash, on the one-cell snake at the center. No contract of its own; `Start` establishes it and `Tick` keeps it. |
| Game.Start | the_snake.py:232-233 | The initial state satisfies the between-ticks invariant, and the apple is off the snake. |
| Game.Tick | the_snake.py:240-255 | The tick keeps the between-ticks invariant. On a crash the snake resets, the crash flag is back to false, the apple stays and nothing is eaten. On a non-crash move the direction is the `Heading` of the presses, never the reverse of the old one, and the body becomes `Advance` of the old body as in `Move`. When the new head is on the apple, the length grows by exactly one and the apple moves off the snake; this can only fail when no cell is free, and then the body has at least 768 cells and the apple stays where it was. Otherwise length and apple are unchanged. |
| Game.Resolve | the_snake.py:248-255 | After the move, a raised crash flag is lowered and nothing else changes. Otherwise a head on the apple grows the length by exactly one and moves the apple to a free cell off the body; this fails only when no cell is free, and then the body has at least 768 cells and the apple stays where it was. A head elsewhere changes nothing. The between-ticks invariant holds afterwards. |
| Game.OpeningMoves | the_snake.py:240-255 | From the start, ticks with RIGHT, DOWN and DOWN pressed put the head at (center.x + 20, center.y + 40), with no failure. |
| Game.TailCollision | the_snake.py:168-170 | A four-cell snake that steps onto its current tail crashes and is reset to [center]. |

## Left out

- Drawing: the `draw` methods, the display, caption and clock setup, the colour constants, `screen.fill` and `pygame.display.update`. They are output with no effect on the game state.
- `pygame.init`, event polling, the QUIT event with `pygame.quit` and `SystemExit`, and events other than key presses. These are I/O. `Tick` takes the tick's key presses as a sequence, and a non-arrow key is `OtherKey`.
- The `while True` loop and `clock.tick(SPEED)`. They are wall-clock pacing. `Tick` is one iteration, and `Between` is the loop invariant it keeps.
- The internals of `random.choice`. Both uses are nondeterministic picks from the given non-empty list, so uniformity is not modelled.
- Snakes.Snake.Reset: the contract says nothing about the new direction beyond its type (one of the four), because the source picks it at random.
- The `GameObject` base class, its `body_color` field, and the snake's `position` attribute, which is never read after construction. The colour and start-position parameters of the constructors are left out too, because `main` only uses the defaults.
- The exception raised when the apple has no free cell is modelled as `ok == false` and the state at that point. The program ending afterwards is not modelled.
