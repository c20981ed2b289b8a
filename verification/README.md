# Snake simulation model

A Dafny model of the game logic of `the_snake.py`, a pygame snake game, with pygame removed.
The model covers:

- the 640×480 screen with a 20-pixel grid;
- the snake's state: `positions` (head first), `length`, `direction`, `next_direction` and `last`;
- `update_direction`, `get_head_position`, `reset` and `move`, including the wrap-around
  arithmetic exactly as the code writes it;
- the arrow-key guard of `handle_keys`;
- the retry loop of `Apple.randomize_position`;
- one pass of the body of `main`'s loop, and any finite number of passes.

Modules, leaves first:

- `Wrappers`: `Option`.
- `Board`: the constants, `Cell`, `Direction`, `Opposite`, and `StepHead`. `StepHead` is the
  head step of `move`. `WrapTable` is an independent per-direction table that `StepHead` is
  proved to match on every reachable cell.
- `Food`: a `Draw` (one pair of `randint` results), `Accepts` (the loop's exit test) and
  `Randomize` (the first accepted draw).
- `SnakeState`: the `Snake` datatype, its `WellFormed` invariant (1 ≤ body size ≤ `length`,
  every cell on the board), and the snake operations.
- `Keys`: key events, the guard chain `HandleKey`, the event loop `HandleKeys`, and the
  reference rule `LastAccepted`.
- `GameLoop`: `Game`, the `ValidGame` invariant kept between ticks, `NewGame`, `Tick`
  and `Run`.

The wrap is asymmetric as written. `OnBoard` therefore admits x = 640 and y = 480:

- a head that reaches exactly x = 640 or y = 480 is not wrapped, so it sits off-screen for one tick;
- moving right from x = 640 gives 0, and moving left from 0 gives 620;
- moving up from y = 0 gives 480;
- moving down from 480 gives 20, so row 0 is skipped when wrapping downwards.

Randomness is supplied by the caller. `randint` results are a finite sequence of draws, and
`choice` in `reset` is a direction parameter. When no supplied draw is accepted, `Randomize`
returns `Exhausted`, and `NewGame`, `EatCheck`, `Tick` and `Run` then return `Stalled`: the
source would still be drawing.

Three consequences of the code as written:

- `move` does not wrap into [0, 640)×[0, 480) (see above).
- `reset` leaves `next_direction` as it is. In the loop it is empty at that point, because
  `update_direction` has just run, and `Tick` proves the pending slot is empty afterwards.
- From the centre, 17 rightward moves (not 16) bring the head to (0, 240), because the 16th
  lands on the unwrapped x = 640 (`RightwardLapFromCentre`).

## Model

| member | source | states |
|---|---|---|
| `Board.Opposite` | the_snake.py:15-18 | The opposite of a direction has the negated unit vector and differs from it; the guard of `handle_keys` pairs UP with DOWN and LEFT with RIGHT this way. |
| `Board.StepHead` | the_snake.py:148-166 | Right from x=640 gives x=0. Right onto x=640 is not wrapped. Left from 0 gives 620. Up from y=0 gives 480. Down onto 480 is not wrapped. Down from 480 gives 20. A horizontal step keeps y and a vertical step keeps x. From any reachable cell the result stays grid-aligned in [0,640]×[0,480] and equals the per-direction table `WrapTable`. |
| `SnakeState.RightwardFromCentre` | the_snake.py:148-171 | After k ≤ 16 moves right from the start, the one-cell body is at (320+20k, 240) and `last` is the cell just vacated (None when k = 0). |
| `SnakeState.RightwardLapFromCentre` | the_snake.py:148-158 | From the start heading right, 16 moves put the head at (640,240) and the 17th wraps it to (0,240). |
| `SnakeState.Init` | the_snake.py:99-110 | The initial snake is well-formed: body [(320,240)], length 1, heading right, nothing pending, no vacated cell. |
| `SnakeState.HeadPosition` | the_snake.py:130-132 | The head is the first body cell (`positions[0]`), and it is on the board when the snake is well-formed. |
| `SnakeState.UpdateDirection` | the_snake.py:112-116 | With a pending direction, that direction becomes the committed one. The pending slot is always empty afterwards. With nothing pending, the snake is unchanged. Body, length and `last` are never touched. |
| `SnakeState.Reset` | the_snake.py:134-140 | The snake becomes well-formed with body [(320,240)], length 1, `last` None and the chosen direction. The pending slot is left as it was. |
| `SnakeState.Move` | the_snake.py:142-171 | The new head is the stepped old head, at index 0. If the body was shorter than `length`, the old body follows whole, the size grows by one and `last` is None. Otherwise the old body minus its final cell follows, the size is unchanged and `last` is that final cell. Length and directions are unchanged. Well-formedness (1 ≤ size ≤ length, cells on board) is preserved. |
| `SnakeState.Collides` | the_snake.py:205 | Self-collision holds exactly when some cell at index ≥ 1 equals the head. A one-cell body never collides. |
| `Food.Accepts` | the_snake.py:83 | A candidate is accepted exactly when no occupied cell equals it. An empty collection accepts everything. |
| `Food.Randomize` | the_snake.py:78-85 | The result is the first accepted draw's cell: that draw is accepted and every earlier draw is refused. It fails only when every draw is refused. With in-range draws the cell is grid-aligned with x in [0,620] and y in [0,460]. With a non-empty occupied list the cell is not in it. |
| `Keys.Accepted` | the_snake.py:181-188 | An event yields a direction only if it is an arrow key-down, and then it is that key's direction. An arrow key is taken exactly when its direction is not the opposite of the committed direction. |
| `Keys.HandleKey` | the_snake.py:180-188 | The four guard branches change only the pending slot. They set it exactly when the reference rule `Accepted` accepts the event. |
| `Keys.LastAccepted` | the_snake.py:176-188 | Reference rule for a batch. It is None exactly when no event is accepted. Otherwise it is the direction of an accepted event with no accepted event after it, and never the opposite of the committed direction. |
| `Keys.HandleKeys` | the_snake.py:176-188 | Processing the events in order changes only the pending slot. The slot ends as the last accepted event's direction, or keeps its old value when none is accepted. |
| `Keys.CommitAfterKeys` | the_snake.py:202-203 | Starting with nothing pending, keys then `update_direction` commit the last accepted key's direction, or keep the old one. The result is never the reverse of the direction before, and the pending slot ends empty. |
| `GameLoop.NewGame` | the_snake.py:198-199 | The game starts with the initial snake. It stalls exactly when every draw lands on (320,240). With in-range draws the start state satisfies `ValidGame`. |
| `GameLoop.EatCheck` | the_snake.py:209-211 | If the head is not on the apple, nothing changes. If it is, the length grows by exactly one, the body is untouched, and the apple moves to an apple cell off the body. |
| `GameLoop.Tick` | the_snake.py:202-211 | On collision, the snake resets to [(320,240)], length 1, the chosen direction, nothing pending and no `last`. The apple then leaves the centre, so no growth happens on that tick. Without collision and with the apple eaten, the length grows by one and the apple leaves the body. Otherwise the tick is just the move. A tick stalls only when it has to relocate. A tick without collision never reverses the direction. `ValidGame` is preserved. |
| `GameLoop.Run` | the_snake.py:200-211 | After any finite number of ticks, the body is non-empty and `ValidGame` still holds when it held at the start. |

## Left out

- Drawing: `draw_cell`, the `draw` methods, `screen.fill` and `pg.display.update`. These are rendering only.
- Window and timing setup: `screen` and `clock`, `clock.tick(SPEED)` and `pg.init`. These are I/O.
- Event polling, the QUIT branch, `pg.quit()` and `SystemExit`. Key handling is a function over a list of events instead.
- `randint` and `choice`. They are caller-supplied draws and a direction parameter.
- Food.Randomize: termination of the retry loop is not modelled. A finite draw prefix with no accepted draw gives `Exhausted` (and `Stalled` in the game) instead of looping on.
- `body_color` and the colour constants. They have no effect on the simulation.
- The unbounded `while True`. `Run` covers any finite number of ticks.
- `occupied_cells=None` is modelled as the empty sequence. Both take the same `not occupied_cells` branch.
