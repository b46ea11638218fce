# Flappy Bird game logic in Dafny

This project models the game state of a Pygame Flappy Bird clone, with the
rendering taken out. A bird flies in a fixed column. Each flap restarts a
kinematic arc, and the bird tilts with its motion. Pipe pairs with a randomly
placed 200-pixel gap scroll towards it. Two ground tiles form an endless belt.
Each tick, the main loop:

1. applies the jump;
2. moves the bird and the ground;
3. sweeps the pipes: collision, pass and score, move, retire;
4. spawns one new pipe when something was passed;
5. checks the ground and the ceiling.

A crash ends the game, and a fresh game starts.

Everything is immutable data and pure functions:

- `Sprites` holds the image sizes and the pixel-mask overlap test. The model takes both as parameters.
- `PyRound` is Python's `round` on floats. It rounds ties to the even integer.
- `BirdPhysics` covers `Bird.__init__`, `jump` and `move`, and the image selection inside `Bird.draw`.
- `Pipes` covers `Pipe.__init__`, `set_height`, `move` and `collide`.
- `GroundBelt` covers `Ground.__init__` and `Ground.move`.
- `GameLoop` covers the body of the `while running` loop of `main`, the restart, and multi-tick runs.

Positions, speeds and displacements are always multiples of one half, so
`real` holds them exactly. The bird's start `y` is an integer, the jump speed
is −10.5 and the gravity coefficient is 1.5. Angles, pipe and ground
coordinates are integers, as in the source.

Main results:

- **Step invariant.** `GameLoop.StepPreservesInvariant` shows that every tick keeps `GameLoop.Invariant`. Under it, the bird stays at x = 230. Its tilt is one of 25, 5, …, −95 or 0, −20, …, −100. The animation counter stays in [0, 20]. The ground tiles stay one tile width apart. The pipe list is never empty, and every pipe but the newest is already passed.
- **One pass per tick.** From the invariant, `GameLoop.OnlyNewestCanPass` shows that no tick passes two pipes.
- **Score rule.** `GameLoop.ScoreCountsPasses` shows that the single `add_pipe` flag gives the same score as counting every pass.
- **Idle game.** `GameLoop.IdleGameEnds` shows that a game with no input ends within 26 ticks. It ends on the ground, or on a pipe if one is hit first.

## Model

| member | source | states |
|---|---|---|
| `PyRound.RoundHalfEven` | src/flappy_bird.py:236-237 | `round(bird.y)` gives an integer within 1/2 of `y`, and an even one when `y` is exactly halfway |
| `PyRound.RoundingIsUnique` | src/flappy_bird.py:236-237 | any integer with those two properties is the rounding, so the characterisation is complete |
| `PyRound.RoundIntegral` | src/flappy_bird.py:236-237 | an integral `y`, such as the start height, rounds to itself |
| `BirdPhysics.NewBird` | src/flappy_bird.py:68-83 | a new bird is at the given (x, y), level (tilt 0), at rest with its flap height at y, with counter 0 showing image 0, and satisfies the bird invariant |
| `BirdPhysics.Jump` | src/flappy_bird.py:86-92 | a jump sets speed −10.5, time 0 and the reference height to the current y; x, y, tilt and animation are unchanged; the invariant is kept |
| `BirdPhysics.JumpIdempotent` | src/flappy_bird.py:396-399 | jumping twice equals jumping once, so several space presses in one tick act as one flap |
| `BirdPhysics.Adjust` | src/flappy_bird.py:101-106 | the applied displacement is at most 16 and at most the raw value, never in (−2, 0), negative exactly when the raw value is, exactly the raw value minus 2 when that is negative, equal to the raw value exactly when that lies in [0, 16], and 16 exactly when the raw value exceeds 16 |
| `BirdPhysics.AdjustMonotone` | src/flappy_bird.py:103-106 | a larger raw displacement never gives a smaller applied one |
| `BirdPhysics.Tilt` | src/flappy_bird.py:110-114 | the tilt stays in (−110, 25] and in the reachable set; rising or within 50 of the flap height snaps it to 25; otherwise it drops 20 while above −90; it only rises by snapping to 25 |
| `BirdPhysics.DiveSettles` | src/flappy_bird.py:113-114 | a diving bird at −90 or below keeps its tilt, and that tilt is −95 or −100 |
| `BirdPhysics.Move` | src/flappy_bird.py:95-114 | a move adds 1 to time, adds the adjusted displacement to y and updates the tilt; x, speed, reference height and animation are unchanged; the bird invariant is kept |
| `BirdPhysics.RestingBirdFalls` | src/flappy_bird.py:100-108 | a bird that never flapped falls every tick: 1.5, 6 and 13.5 in ticks 1 to 3, then exactly 16 |
| `BirdPhysics.FreeFall` | src/flappy_bird.py:100-108 | after n ticks of free fall from rest, the drop is 0, 1.5, 7.5, 21, then 16 more per tick |
| `BirdPhysics.FlapStep` | src/flappy_bird.py:100-108 | t ticks after a flap the displacement is −11, −17, −20, −20, −17, −11, 0, 12, then 16 |
| `BirdPhysics.FlapArc` | src/flappy_bird.py:86-108 | n ticks after a flap, the bird is `FlapOffset(n)` away from where it flapped |
| `BirdPhysics.FlapApex` | src/flappy_bird.py:100-108 | a flap lifts the bird at most 96, reached after six ticks, and the bird is below the flap height again from tick 14 on |
| `BirdPhysics.Animate` | src/flappy_bird.py:123-139 | after a draw the counter is in [0, 20]; counts 1–19 show the wing position [0,1,2,1][count/5]; count 20 keeps the previous image; count 21 restarts at image 0, count 0; a tilt of −80 or below forces image 1, count 10; only the counter and image change |
| `BirdPhysics.FlapPeriod` | src/flappy_bird.py:123-135 | outside a dive, starting from count 0, draw n shows `CycleFrame(n)` for n < 20; draw 20 shows image 1; draw 21 is back at image 0, count 0 |
| `GroundBelt.NewGround` | src/flappy_bird.py:268-277 | a new ground is at the given y, with the first tile at 0 and the second one tile width to its right, in belt shape |
| `GroundBelt.MoveGround` | src/flappy_bird.py:279-290 | if the tile width is at least the scroll speed, a move keeps the tiles one width apart with the leftmost in [−width, 0]; at most one tile wraps; a tile wraps exactly when its moved right edge is left of 0; a wrapped tile jumps exactly two widths forward |
| `GroundBelt.ScrollKeepsBelt` | src/flappy_bird.py:276-290 | the belt shape holds after any number of moves from the start |
| `GroundBelt.BeltCoversScreen` | src/flappy_bird.py:276-290 | with tiles at least as wide as the 500-pixel window, every column of the window lies on one of the two tiles |
| `Pipes.SetHeight` | src/flappy_bird.py:197-203 | for a height drawn from [50, 475), the top pipe ends at the gap height and the bottom pipe starts exactly 200 below it; x and `passed` are unchanged |
| `Pipes.NewPipe` | src/flappy_bird.py:181-195 | a new pipe is at the given x, not passed, with the drawn height and the shape above |
| `Pipes.MovePipe` | src/flappy_bird.py:205-209 | a move decreases x by exactly 5 and changes nothing else |
| `Pipes.ScrollPipeDistance` | src/flappy_bird.py:205-209 | n moves shift a pipe exactly 5n left, whatever its height; for example, 40 moves shift it 200 |
| `Pipes.Collide` | src/flappy_bird.py:221-245 | a collision happens exactly when the bird's current image mask overlaps the top or the bottom pipe mask, each at its offset from the bird's x and rounded y |
| `Pipes.GapIsClear` | src/flappy_bird.py:221-245 | if the mask test only reports overlap for images sharing a pixel row, a bird whose rounded top is at or below the gap height and whose bottom is at most 200 below it collides with neither pipe |
| `Pipes.CollideIgnoresTilt` | src/flappy_bird.py:146-153 | collision depends only on the bird's image, x and rounded y, and not on its tilt, speed or counter |
| `Pipes.TestRejectsLowestDraw` | tests/test_game.py:33-37 | a draw of 50 gives a correct pipe that the test's `height > 50` check rejects |
| `Pipes.TestAcceptsEveryDraw` | tests/test_game.py:33-37 | every height `randrange(50, 475)` can return passes the corrected check 50 ≤ height < 475 |
| `GameLoop.Start` | src/flappy_bird.py:379-383 | a game starts with bird (230, 350), ground 730, one pipe at 700 and score 0, and satisfies the invariant |
| `GameLoop.Advance` | src/flappy_bird.py:414-417 | a pipe's sweep turn sets `passed` once the bird is right of it and never clears it; it moves the pipe 5 left and keeps its height |
| `GameLoop.Retire` | src/flappy_bird.py:418-426 | the retired list is no longer than the input and holds no pipe whose right edge is left of the screen |
| `GameLoop.RetireMembers` | src/flappy_bird.py:418-426 | a pipe is removed exactly when its post-move `x + width < 0` |
| `GameLoop.RetireAppend` | src/flappy_bird.py:421-426 | retiring a concatenation retires each part, so appending the new pipe before the removals does not change which pipes survive |
| `GameLoop.SweepPipes` | src/flappy_bird.py:406-419 | the sweep crashes exactly when some pipe collides; otherwise the add flag is set exactly when some pipe is passed, and the survivors equal the two-pass result: advance all pipes, then retire the off-screen ones |
| `GameLoop.Step` | src/flappy_bird.py:387-434 | game over happens exactly on a pipe collision or when the moved bird leaves the screen, and the restart is the start state; the cause is a pipe exactly when some pipe collides, so a pipe wins over the ground; a ceiling crash happens only with the bird not below the ground; on a pipe crash the shown score is the score before the tick, and on a ground or ceiling crash it is one higher exactly when a pipe was passed; otherwise the score rises by 1 exactly when a pipe is passed, at most one pipe at 600 is appended at the end, the bird is flapped, moved and then drawn, and the ground moves once |
| `GameLoop.SweepAfterPass` | src/flappy_bird.py:414-424 | when the newest pipe is passed, all survivors are passed and the appended pipe becomes the only unpassed one |
| `GameLoop.SweepWithoutPass` | src/flappy_bird.py:414-426 | when nothing is passed, the newest pipe is still right of the bird, so it is not retired and stays the only unpassed one |
| `GameLoop.RunningKeepsInvariant` | src/flappy_bird.py:402-426 | a tick that does not crash keeps the game invariant |
| `GameLoop.StepPreservesInvariant` | src/flappy_bird.py:379-432 | every tick, whether it crashes or not, leads to a state satisfying the invariant |
| `GameLoop.PassCount` | src/flappy_bird.py:414-416 | the number of pipes passed this tick is zero exactly when no pipe is passed |
| `GameLoop.OnlyNewestCanPass` | src/flappy_bird.py:414-416 | when all pipes but the newest are passed, at most one pipe is passed in a tick |
| `GameLoop.ScoreCountsPasses` | src/flappy_bird.py:421-423 | in every reachable state, the score rises by exactly the number of pipes passed in the tick |
| `GameLoop.Play` | src/flappy_bird.py:386-434 | over any run of ticks the invariant holds at every step, and the score never falls and rises at most once per tick |
| `GameLoop.IdleTick` | src/flappy_bird.py:401-432 | a tick without a flap keeps a free-falling bird on its free-fall curve and above the ground; such a tick never ends the game through the ceiling |
| `GameLoop.IdleFall` | src/flappy_bird.py:386-432 | over a run without flaps, a running game's bird is exactly `FreeFallDrop` below the start; the game can end only on the ground or on a pipe, and only on the ground when no masks ever overlap |
| `GameLoop.IdleGameEnds` | src/flappy_bird.py:379-432 | a game with no input ends within 26 ticks, because the bird falls from 350 to 739, below the ground at 730 |

## Two copies

`flappy_bird.py` and `src/flappy_bird.py` hold the same game logic. The
`src/` copy adds docstrings and `logging` calls, and the unit tests import
that copy. With docstrings and logging calls removed, the two files are
identical statement for statement, so one model covers both. The `src/`
lines cited above correspond to these lines in `flappy_bird.py`:

- `Bird.__init__`, `jump`, `move`: 41-87.
- The image selection of `Bird.draw`: 91-108.
- `Pipe.__init__`, `set_height`, `move`, `collide`: 129-177.
- `Ground.__init__`, `move`: 184-196.
- `main`: 231-286.
- The tick sweep: 259-278.
- The ground and ceiling checks: 280-284.

## Behaviour that differs from the obvious reading

In each case below, the game's evident intent suggests one behaviour and the code does another. The model follows the code.

- **Score per tick.** One would expect several pipes passed in one tick to each add a point and spawn a pipe. The code folds them into one `add_pipe` flag, giving one point and one `Pipe(600)`. `GameLoop.ScoreCountsPasses` shows that the two rules agree in every reachable state, because no tick passes two pipes.
- **Animation cycle.** The constants suggest a 4-phase cycle of 5 draws each. In the code:
  - the first wing position shows for counts 1–4 only;
  - count 20 keeps the previous image;
  - count 21 resets to image 0 and count 0.

  One cycle is therefore 21 draws (`BirdPhysics.FlapPeriod`).
- **Dive tilt.** The constant −90 reads as the dive floor. The code keeps subtracting 20 while the tilt is above −90, so the tilt settles at −95 or −100 (`BirdPhysics.DiveSettles`).
- **Bird height in the ground check.** The check uses the height of the image chosen by the previous draw, because drawing happens after the checks. The same image supplies the collision mask.
- **End-of-game cause.** The code shows only the score on the game-over screen. The model also reports which condition ended the game.

## Findings

| source | as written | input that shows it | evidently intended | confidence | as-written member | corrected member |
|---|---|---|---|---|---|---|
| tests/test_game.py:36 | `assertGreater(self.pipe.height, 50)` after `set_height` | `randrange(50, 475)` returning 50, about one draw in 425 | `assertGreaterEqual(self.pipe.height, 50)`, matching the drawn range | high; not executed | `Pipes.TestRejectsLowestDraw` | `Pipes.TestAcceptsEveryDraw` |

## Left out

- Rendering is left out as presentation: asset loading, `blit`, `transform.rotate`, `scale2x`, `flip`, fonts, `draw_screen`, `Pipe.draw`, `Ground.draw`, the rotation part of `Bird.draw`, `display.update`, and `game_over_screen` with its 3-second delay.
- Logging is left out as output only.
- Event polling, `clock.tick(30)`, `pygame.quit()` and `quit()` are I/O. A space-key press arrives as the `jump` argument of `GameLoop.Step`. Quitting is not modelled.
- `pygame.mask` is a foreign library. Its overlap test is the `MaskOverlap` parameter. The model keeps only the offsets computed by `collide` and the image the mask comes from. The one fact assumed about the masks is in `Pipes.GapIsClear`: overlapping masks share a pixel row. That holds for any mask that fits inside its image.
- `random.randrange(50, 475)` is randomness. Its results are arguments constrained to [50, 475). Each tick takes one draw for a spawned pipe and one for the first pipe of a restarted game.
- Image widths and heights come from files the model does not read. They are the `Assets` parameter, with positive sizes. The ground belt results also need the ground tile to be at least 5 pixels wide (500 for `BeltCoversScreen`).
- `main()` calls itself again after a crash. The model instead returns the fresh start state from the tick, and the call-stack growth is not modelled. `GameLoop.Play` follows a game up to its first crash.
- The `birds` list only ever holds one bird, so the model has one bird. `birds.pop(i)` before a restart has no observable effect.
- Python floats are modelled as exact reals. Every value the bird takes is a multiple of 0.5 of moderate size, so the floats are exact too.
