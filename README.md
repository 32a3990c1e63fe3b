# Rusty-Snake: the simulation step, verified

Rusty-Snake is a terminal snake game. Each 120 ms tick it samples at most one key
event, steers the snake with the arrow keys, moves the head one cell, ends the game
when the head would land on column 0 or row 0, and then either eats the food (the
snake grows and new food is placed at random with x in [1,50) and y in [1,20)) or
drops its tail. There is no upper wall and no self-collision.

This project models that step and the loop around it:

- `geometry.dfy` (module `Geometry`): `Point`, `Direction`, and `NextHead`, the
  one-cell move of the head.
- `input.dfy` (module `Input`): key codes, terminal events, and `Sample`. A `Sample`
  is every outcome of the zero-timeout poll and the read that follows it: the poll
  fails, nothing is pending, the read fails, or one event arrives. `ReadDirection`
  is the "hold the previous heading unless an arrow key came in" rule.
- `rules.dfy` (module `Rules`): the game state as a value, `Tick` (one pass of the
  loop body) and `Play` (the loop over a finite supply of tick inputs), with the
  invariant `ValidState` and the lemmas about them. `ValidState` says the snake is
  non-empty, every segment is off both low edges, consecutive segments share a side,
  and the food is in the food range.
- `game.dfy` (module `Game`): class `Game`, which holds the loop's mutable state.
  Its `Step` updates `snake`, `dir` and `food` in place, as the Rust loop body does.
  It prepends the new head, then either replaces the food or drops the tail. `Run`
  is the loop. Both are proved equal to `Tick` and `Play`, and both keep `Valid()`.

The random food is a caller-supplied value per tick; its range is a precondition.
The sampled input is also a caller-supplied value.

## Model

| member | source | states |
|---|---|---|
| `Geometry.NextHead` | src/main.rs:102-121 | the new head shares a side with the old one; x is kept exactly for Up/Down; y falls iff Up, rises iff Down, x falls iff Left, rises iff Right; it is defined only when the decremented coordinate is non-zero (the `u16` subtraction would underflow) |
| `Geometry.BackStepUndoes` | src/main.rs:102-121 | moving the opposite way returns to the original cell, and the opposite of the opposite is the heading itself |
| `Geometry.Opposite` | src/main.rs:102-121 | the reverse heading differs from the heading and lies on the same axis (a helper for stating that moves undo each other; the code has no reverse heading of its own) |
| `Geometry.AdjacentIsOneMove` | src/main.rs:102-121 | every side-neighbour of a cell is the move of exactly one heading |
| `Input.PendingKey` | src/main.rs:30-37 | a key code comes out iff an event was read and it is a key event, and it is that event's code |
| `Input.ReadDirection` | src/main.rs:29-46 | the heading is held when the poll fails, nothing is pending, the read fails, the event is not a key, or the key is not an arrow; it changes only on an arrow key |
| `Input.ArrowSetsHeading` | src/main.rs:38-42 | each arrow key yields its own heading, whatever the current one |
| `Input.SteeringIgnoresCurrent` | src/main.rs:38-44 | for an arrow-key event the result does not depend on the current heading |
| `Input.EveryHeadingHasArrow` | src/main.rs:38-42 | every heading is selected by some arrow key |
| `Rules.Initial` | src/main.rs:60-63 | the start state (snake (10,10),(9,10), heading Right, food (15,10)) satisfies the invariant |
| `Rules.Tick` | src/main.rs:67-85 | heading is the decoded one; the game ends iff the candidate head has x = 0 or y = 0, and then snake and food are unchanged; otherwise the head is the candidate; the snake grows by one iff the candidate is the food, when the old snake is the new tail and the food is replaced; else the length is kept, the tail dropped and the food kept |
| `Rules.ValidCanTick` | src/main.rs:102-121 | in a valid state the head's move never underflows, whatever the input |
| `Rules.TickPreservesValid` | src/main.rs:60-85 | with food drawn from the food range, a tick keeps the snake non-empty, off both low edges, side-connected, and the food in range |
| `Rules.Play` | src/main.rs:66-96 | the loop keeps the invariant, consumes at most all inputs, and consumes all of them when it does not terminate (that it terminates only at a wall is `Rules.PlayStopsAtWall`) |
| `Rules.PlayStopsAtWall` | src/main.rs:66-85 | when the loop ends, it ends on the first tick whose candidate head has x = 0 or y = 0: every earlier tick ran on, and the final snake and food are those from before that tick |
| `Rules.PlayHoldsHeading` | src/main.rs:66-85 | if no tick brings an arrow key, the heading is the same after any number of ticks |
| `Rules.HoldingUpReachesWall` | src/main.rs:66-85 | holding Up from a head on row y ends the game on exactly tick y, heading Up, with the head left on row 1 of its column |
| `Game.Game.constructor` | src/main.rs:60-63 | the object starts in the initial state, which is valid |
| `Game.Game.Step` | src/main.rs:67-85 | the in-place update (prepend the head, then replace the food or drop the tail) leaves exactly the state `Tick` gives and reports whether the loop breaks; it keeps the invariant |
| `Game.Game.Run` | src/main.rs:66-96 | running the loop body until a wall is hit or the inputs end yields exactly `Play`'s final state, tick count and termination flag |

## Left out

- Terminal setup and teardown (raw mode, cursor hide/show, screen clear) and the propagation of their I/O errors: foreign terminal I/O (src/main.rs:57-58, 87, 97-98).
- The failing `?` after `draw_point` (src/main.rs:90, 93) and after the screen clear (src/main.rs:87): a second way out of the loop that returns the error from `main` without restoring the terminal; the model's loop leaves only at a wall or when its inputs end.
- Rendering (`draw_point` and the draw loop): output only (src/main.rs:48-52, 89-93).
- `event::poll` and `event::read`: their possible outcomes are the `Sample` parameter; the key event's kind (press, repeat, release) and modifiers are not modelled, because the code reads only the key code.
- The random generator: the value it would return is a per-tick parameter whose range is a precondition.
- `thread::sleep` and the 120 ms tick: timing has no logical content.
- Geometry.NextHead: coordinates are unbounded naturals, so the `u16` overflow of `x + 1` or `y + 1` at 65535 is not modelled; there is no upper wall and none is added.
- Game.Game.Run: the Rust loop is unbounded; the model runs it over a finite sequence of tick inputs and also stops when they run out.
