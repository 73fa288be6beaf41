# Alien jumper: a verified model of the gameplay core

The game is a browser side-scroller. A green alien stands on the ground line
at the left of the canvas. Animals (dog, cat, rabbit, fox) enter from the
right edge at random intervals and walk left at `baseSpeed × currentSpeed`.

- **Jumping.** The player jumps with Space or ArrowUp. Gravity pulls the
  alien back, and a clamp puts it back on the ground.
- **Scoring.** An animal whose right edge gets left of the alien is counted
  as jumped: one more successful jump and 100 points.
- **Speed.** Every 15th jump raises the speed by 0.5, up to 4.
- **Win.** The game is won at 90 jumps.
- **Losing.** A touch between the alien's box and an animal's box (each box
  trimmed by 10 at its right edge and 5 at its bottom edge) ends the run.
- **Cleanup.** Animals that leave the screen are spliced out of the array.
- **Colour.** A small colour helper, `shadeColor`, darkens an animal's colour
  for its legs.

The model has five modules:

- `Palette`: `shadeColor` on natural numbers and digit strings. This covers
  `parseInt(_, 16)`, the shifts and masks, the clamp, and the
  `toString(16).slice(1)` printing with the leading-1 padding trick.
- `Physics`: the alien's per-tick state, `jump`, `updateAlien` and the leg
  animation counter of `drawAlien`. It also proves the closed form of a
  jump's flight.
- `Obstacles`: the animal catalog, `getRandomInterval` and `spawnAnimal`.
  It also holds the backward walk of `updateAnimals`, specified in two
  layers:
  - `MoveAll` is the walk without removals. It visits the last animal first
    and threads the counters.
  - `Survivors` is the stable compaction that the splices amount to.
- `Run`: the whole game state as a value. It has one specification function
  per entry point (`gameLoop` tick, `startGame`, `resetGame`, `winGame`,
  `gameOver`, `checkCollision`), the between-ticks invariant `Inv`, and the
  lemmas about them.
- `Engine`: the imperative program.
  - `Alien` is the `alien` object.
  - `Game` holds the globals as fields: `gameRunning`, `score`,
    `successfulJumps`, `currentSpeed`, the `animals` list,
    `nextAnimalTimer` and `animalSpawnInterval`.
  - Each JavaScript function is a method that updates those fields in
    place. Each method is proved to leave exactly the state that the
    matching `Run`/`Physics`/`Obstacles` function computes.
  - The backward `for` loop with `splice` is a `while` loop over the `seq`
    field. Its invariant ties the array to `Survivors(MoveAll(..))` of the
    part already walked.

Randomness comes in as parameters:
- `typeDraw < 4` is `Math.floor(Math.random() * 4)`.
- `intervalDraw < 90` and `resetDraw < 90` are `Math.floor(Math.random() * 90)`.

`canvas.width` is a positive parameter `canvasWidth`.

Where the code and a tidy description of it differ, the model follows the
code:
- `getRandomInterval` returns 60 to 149. The comment at game.js:39 says 150.
- Gravity is added to a grounded alien too (game.js:233). The clamp then
  puts it back, which `GroundedStays` states.
- `winGame` does not end the backward walk (game.js:284-286). Later animals
  in the same walk are still counted, as `WinDoesNotStopTheWalk` shows on a
  constructed input. In a run, spawns at least 60 frames apart keep any two
  animals far apart, so only one can pass in a tick and a run wins at
  exactly 90 jumps. This spacing is not part of the model's invariant.
- `checkCollision` still runs in the tick that has just won (game.js:327-328).
- `resetGame` ends by calling `startGame`, which runs one `gameLoop` tick
  at once (game.js:338, 366). After a reset the timer is therefore 1, not 0,
  and the leg frame may already be 1, because `animSpeed` is not reset. The
  values assigned before that tick are stated by `ResetValues`.
- `shadeColor` prints lower-case digits. With offset 0 it returns the same
  number, but spelt in lower case (`ShadeColorZero`).

## Model

| member | source | states |
|---|---|---|
| Palette.ParseHex | game.js:212 | `parseInt(_, 16)` of k hex digits is below 16^k |
| Palette.ToHex | game.js:217-219 | `toString(16)` of a non-negative number is a non-empty string of lower-case hex digits |
| Palette.Clamp | game.js:217-218 | the channel clamp lands in [0, 255], maps values at or below 0 to 0 and at or above 255 to 255, and keeps values inside the range |
| Palette.ShadeValue | game.js:212-218 | the re-packed value is below 2^24 and each of its red, green, blue channels is the clamp of the input channel plus the offset |
| Palette.ShadeColor | game.js:211-220 | the result is `#` followed by exactly six lower-case hex digits, and those digits read back as `ShadeValue` of the input colour's number |
| Palette.PrintSix | game.js:217-219 | `(0x1000000 + n).toString(16).slice(1)` for a 24-bit n is exactly six digits (zero-padded) that read back as n |
| Palette.UnpackPack | game.js:214-218 | splitting a packed value with `>> 16`, `>> 8 & 0xFF`, `& 0xFF` gives back the three channels |
| Palette.PackUnpack | game.js:212-216 | every 24-bit number is the packing of its three channels, each below 256 |
| Palette.ToHexOfLeadingOne | game.js:217-219 | `toString(16)` of 16^k + v (v < 16^k) is "1" followed by the k-digit zero-padded spelling of v |
| Palette.ParseFixedHex | game.js:212-219 | printing v with k digits and parsing it back gives v |
| Palette.FixedHexOfParse | game.js:212-219 | parsing k digits and printing the value back with k digits gives the input's digits in lower case |
| Palette.ReadPrint | game.js:212-219 | parsing the digits and printing with the leading-1 trick gives "1" followed by the same digits in lower case |
| Palette.ShadeValueZero | game.js:213-218 | with offset 0 the packed value is the input value |
| Palette.ShadeColorZero | game.js:211-220 | `shadeColor(c, 0)` is `#` followed by c's digits in lower case, and it reads back as the same number |
| Physics.JumpNext | game.js:223-229 | `jump` changes nothing unless the alien is grounded and the game runs; then velocity -13, jumping, not grounded; keeps the alien invariant |
| Physics.AlienNext | game.js:231-243 | after `updateAlien` y is at most 300; when the clamp fires the alien is on the ground line, stopped and grounded; otherwise velocity gains 0.6 and y gains the new velocity; the invariant is kept |
| Physics.GroundedStays | game.js:231-243 | a grounded alien stays at y = 300 with velocity 0 through `updateAlien` |
| Physics.AnimNext | game.js:129-136 | the leg counter only moves while grounded and running, the frame stays in 0..3 and moves by one (mod 4) only with `animSpeed` back to 0; position and flags are untouched |
| Physics.AnimCycle | game.js:129-135 | from a standing alien with `animSpeed` 0, four running frames add 0.2 each to `animSpeed` and leave the frame alone; the fifth moves the frame on by one (mod 4) and puts `animSpeed` back to 0 |
| Physics.JumpArc | game.js:223-243 | k ticks after a jump from the ground (k up to 42), velocity is -13 + 0.6k and y is 300 - 13k + 0.3k(k+1), still airborne |
| Physics.ArcStep | game.js:233-237 | one tick of gravity takes the closed form from tick j to tick j + 1, and for ticks up to 42 it stays above the ground line |
| Physics.JumpLands | game.js:223-243 | a jump keeps the alien in the air for ticks 1 to 42 and it lands (grounded at y = 300) on tick 43 |
| Obstacles.RandomInterval | game.js:38-41 | the spawn interval is the draw plus 60, so in [60, 149] |
| Obstacles.NewAnimal | game.js:245-255 | the new animal is at the canvas's right edge, standing on the ground line, with the chosen type's width, height and colour, not yet passed |
| Obstacles.Collides | game.js:298-301 | the four inequalities of the collision test, with each box trimmed by 10 at its right edge and 5 at its bottom; an animal that touches the alien is neither jumped nor off screen |
| Obstacles.GroundedCollision | game.js:296-301 | for a grounded alien and an animal on the ground, the collision test reduces to horizontal overlap of the inset boxes |
| Obstacles.SpeedFor | game.js:277-281 | the speed ladder lies in [1, 4], is 1 for fewer than 15 jumps and 4 from 90 jumps |
| Obstacles.SpeedForNext | game.js:277-281 | one more jump moves the ladder exactly as the code's step does: up by `min(4, speed + 0.5)` on a multiple of 15 below the cap, unchanged otherwise |
| Obstacles.SpeedForMonotone | game.js:277-281 | the speed ladder never goes down as jumps grow |
| Obstacles.StepAnimal | game.js:268-287 | one visit moves the animal left by 3 x speed; `passed` flips only from false and only when it is behind the alien; each flip adds 1 jump and 100 points; speed rises only on a flip to a multiple of 15 below 4, by `min(4, speed + 0.5)`; the game stops on a flip reaching 90; the ladder is kept |
| Obstacles.MoveAll | game.js:267-288 | over the whole walk, jumps grow by the number of newly passed animals, score by 100 per jump, speed never decreases and only changes when a multiple of 15 is crossed, stays on its ladder, and the game stops iff some pass reached 90 |
| Obstacles.MoveAllAnimals | game.js:267-272 | every animal of the walk is the same animal, moved left by 3 x a speed between the start and end speeds, and is passed iff it was passed or is now behind the alien |
| Obstacles.MoveAllAt | game.js:267-272 | the k-th animal of the walk is exactly one `StepAnimal` visit with the counters the later animals left, so it is moved by 3 x the speed current at its own visit |
| Obstacles.WalkOneMore | game.js:267-293 | walking from index i is visiting animal i after walking from i + 1, and the compaction keeps that animal in front iff it is still on screen |
| Obstacles.SpliceStep | game.js:268-292 | writing the visited animal back at index i and splicing it out when off screen turns the loop's array for i + 1 into the loop's array for i |
| Obstacles.Survivors | game.js:289-292 | the removal keeps at most as many animals, all of them still on the screen |
| Obstacles.SurvivorIndices | game.js:289-292 | the kept positions are in range and strictly increasing |
| Obstacles.SurvivorsAtIndices | game.js:289-292 | the j-th survivor is the animal at the j-th kept position |
| Obstacles.SurvivorIndicesExact | game.js:289-292 | a position is kept exactly when its animal is still on the screen |
| Obstacles.SurvivorsAreOnScreenInOrder | game.js:267-293 | the walk removes exactly the off-screen animals, each survivor once, in the original order |
| Obstacles.WinDoesNotStopTheWalk | game.js:277-286 | on a constructed input (89 jumps at the ladder's speed 3.5, two unpassed animals side by side that both get behind the alien in one walk): the first pass reaches 90, raises the speed to 4 and stops the game, yet the second is still moved at speed 4 and counted, ending at 91 jumps and 9100 points |
| Run.InitialState | game.js:5-36 | the script's start values satisfy the invariant, with the game stopped and no animals |
| Run.JumpGame | game.js:223-229 | on the whole state `jump` only touches the alien, and only when grounded and running; it keeps the invariant |
| Run.SpawnNext | game.js:257-264 | the timer rises by one; when due while running, exactly one new animal is appended, the timer is 0 and the interval is in [60, 149]; otherwise the animals and the interval stay and the counters and alien are untouched |
| Run.WalkNext | game.js:266-293 | after the walk every animal is on screen, score grows by 100 per jump, jumps and speed never decrease, the game stops exactly on a pass reaching 90, alien and timer untouched |
| Run.UpdateAnimalsNext | game.js:257-294 | the spawn test then the walk: alien untouched, timer 0 and a new interval in [60, 149] when due, otherwise timer + 1 and the same interval; every animal left is on screen; score grows by 100 per jump, jumps and speed never decrease, and the game stops exactly on a pass reaching 90 |
| Run.CollisionNext | game.js:296-305 | `checkCollision` stops the game exactly when some animal passes all four inset inequalities and changes nothing else |
| Run.Stop | game.js:369-381 | `winGame` and `gameOver` only clear `gameRunning` |
| Run.TickNext | game.js:313-314 | a tick of a stopped game changes nothing |
| Run.StartNext | game.js:334-339 | after `startGame` and its first tick the game runs unless that tick won or the alien touches an animal, and the invariant is kept |
| Run.ResetNext | game.js:341-367 | after `resetGame` the game runs with zero score and jumps, speed 1, no animals, timer 1, the drawn interval, the alien standing still on the ground at frame 0 or 1 |
| Run.ResetValues | game.js:341-357 | the reset assignments stop the game, zero score and jumps, speed 1, no animals, timer 0, interval in [60, 149], alien standing at frame 0, and they re-establish the invariant |
| Run.WalkKeepsAnimals | game.js:266-293 | with a non-negative speed, if every animal marked passed is already behind the alien, then every animal left after the walk is still on screen and marked passed exactly when it is behind the alien |
| Run.TickKeepsInv | game.js:313-332 | every tick keeps the invariant: alien invariant, score = 100 x jumps, speed on the ladder, timer below an interval in [60, 149], every animal on screen and marked passed exactly when it is behind the alien |
| Run.TickStopsExactly | game.js:283-305 | a running tick leaves the game running iff no pass reached 90 and the alien touches no animal afterwards |
| Run.TickProgress | game.js:268-281 | over a tick jumps, score and speed never go down, score grows by 100 per jump and speed stays on its ladder in [1, 4] |
| Run.WinScore | game.js:284-286 | a tick that wins stops the game with a score of at least 9000 |
| Run.ResetRestarts | game.js:341-367 | `resetGame` from any state between ticks leaves a state that satisfies the invariant |
| Engine.Alien.constructor | game.js:14-24 | the `alien` object starts at y = 300, still, grounded, at frame 0 |
| Engine.Game.constructor | game.js:5-36 | the globals start as the script sets them, satisfying the invariant |
| Engine.Game.Jump | game.js:223-229 | the method leaves the state of `JumpGame` |
| Engine.Game.UpdateAlien | game.js:231-243 | the method leaves the alien of `AlienNext` and changes nothing else |
| Engine.Game.AnimateAlien | game.js:129-136 | the method leaves the alien of `AnimNext` and changes nothing else |
| Engine.Game.SpawnAnimal | game.js:245-255 | the method appends `NewAnimal` to the `animals` field and changes nothing else |
| Engine.Game.WinGame | game.js:369-374 | the method only clears `gameRunning` |
| Engine.Game.GameOver | game.js:376-381 | the method only clears `gameRunning` |
| Engine.Game.VisitAnimal | game.js:268-287 | one turn of the backward loop before the removal test updates the counters and returns the animal exactly as `StepAnimal` says |
| Engine.Game.MoveAnimals | game.js:266-293 | the backward loop with `splice` leaves exactly `Survivors(MoveAll(..))` of the old array and the counters of `MoveAll` |
| Engine.Game.UpdateAnimals | game.js:257-294 | the method leaves the state of `WalkNext(SpawnNext(..))` |
| Engine.Game.CheckCollision | game.js:296-305 | the loop over every animal leaves the state of `CollisionNext` |
| Engine.Game.GameLoop | game.js:313-332 | one tick leaves the state of `TickNext` and keeps the invariant |
| Engine.Game.StartGame | game.js:334-339 | the method sets the game running and plays one tick, keeping the invariant |
| Engine.Game.ResetGame | game.js:341-367 | the method leaves the state of `ResetNext` (reset values, then `startGame`) and keeps the invariant |

## Left out

- Drawing is not modelled: `drawBackground`, `drawGround`, the rectangle geometry of `drawAlien` and `drawAnimal`, and the star field. These are canvas presentation calls. Only the leg counter at the top of `drawAlien` is modelled, and `shadeColor` on its own.
- The DOM is not modelled: element lookups, button and keydown listeners, `updateUI`'s text and `toFixed`, and hiding and showing the overlays. It is browser I/O. `Jump` carries the running-game test itself, so the listener's extra `gameRunning` test adds nothing.
- `requestAnimationFrame` and `cancelAnimationFrame` are not modelled. One frame is one call of `GameLoop`, and a stopped game's tick changes nothing (`Run.TickNext`).
- `Math.random` is not modelled. Its draws are parameters with the ranges that `Math.floor` gives.
- `Date.now()` only animates the animals' legs in `drawAnimal`, so it is not modelled.
- Floating-point rounding is not modelled: positions, velocities and speeds are exact `real`s. With IEEE-754 doubles, 0.6 and 0.2 are not exact, and nothing here proves that doubles take the same branches.
  - The jump and landing thresholds have margins of several units: `ArcY(42)` is 295.8 and `ArcY(43)` is 308.6, against 300.
  - The leg counter has no margin: on the fifth frame it compares 5 × 0.2 with 1. In doubles the running sum is 0.2, 0.4, 0.6000000000000001, 0.8, 1.0, and the `>= 1` branch agrees only because rounding lands exactly on 1.0.
- Run.WinScore: states a score of at least 9000 when a tick wins, not exactly 9000. Exactly 9000 needs at most one pass per tick, which follows from the spawn spacing: spawns at least 60 frames apart move animals at least 180 apart, and one tick moves an animal at most 12. The invariant `Inv` does not carry that spacing.
- `Math.round(2.55 * percent)` in `shadeColor` is not modelled. The integer offset `amt` is the parameter.
- `parseInt`'s lenient reading of malformed strings is not modelled. `ShadeColor` requires a well-formed `#rrggbb` colour, which is all the catalog holds.
- `canvas.width` comes from the page, so it is a positive parameter.
- The animals are values held in a sequence field. The loop writes the visited animal back at its index. In the script, animal objects are changed in place, but nothing else holds a reference to them, so no aliasing is lost.
