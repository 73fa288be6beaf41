/**
 * The state of one run as a value, and what each entry point of the game
 * does to it: the update half of one `gameLoop()` tick, `startGame()`,
 * `resetGame()`, `winGame()` and `gameOver()`. The class in module Engine
 * keeps this state in fields and is proved to change it exactly as these
 * functions say.
 *
 * Random draws come in as parameters: `typeDraw` for the animal type
 * (below 4) and `intervalDraw` for the next spawn interval (below 90). The
 * canvas width is a parameter `canvasWidth`, positive.
 */
module Run {
  import opened Physics
  import opened Obstacles

  datatype GameState = GameState(
    alien: AlienState,
    running: bool,
    score: int,
    jumps: int,
    speed: real,
    animals: seq<Animal>,
    timer: int,
    interval: int)

  function ProgressOf(g: GameState): Progress {
    Progress(g.jumps, g.score, g.speed, g.running)
  }

  /** An animal between ticks: still on the screen, and marked passed exactly when it is behind the alien. */
  predicate AnimalInv(a: Animal) {
    !OffScreen(a) && a.passed == Behind(a)
  }

  /**
   * What holds between ticks from the first start on: the alien invariant,
   * score = 100 x jumps, the speed on its ladder, the spawn timer below the
   * interval, the interval in [60, 149], and every animal on the screen and
   * marked passed exactly when it is behind the alien.
   */
  predicate Inv(g: GameState) {
    && AlienInv(g.alien)
    && g.jumps >= 0
    && g.score == PassAward * g.jumps
    && g.speed == SpeedFor(g.jumps)
    && 0 <= g.timer < g.interval
    && MinInterval <= g.interval <= 149
    && forall k :: 0 <= k < |g.animals| ==> AnimalInv(g.animals[k])
  }

  /** The state the script sets up before the first start. */
  function InitialState(intervalDraw: nat): (g: GameState)
    requires intervalDraw < IntervalDraws
    ensures Inv(g) && !g.running && g.animals == []
  {
    GameState(InitialAlien, false, 0, 0, 1.0, [], 0, RandomInterval(intervalDraw))
  }

  /** `jump()` on the whole state: only the alien can change. */
  function JumpGame(g: GameState): (r: GameState)
    ensures r == g.(alien := r.alien)
    ensures !(g.alien.grounded && g.running) ==> r == g
    ensures g.alien.grounded && g.running ==>
      r.alien.velocityY == JumpStrength && r.alien.jumping && !r.alien.grounded
    ensures Inv(g) ==> Inv(r)
  {
    g.(alien := JumpNext(g.alien, g.running))
  }

  /** Whether the spawn test at the top of `updateAnimals()` succeeds. */
  predicate SpawnDue(g: GameState) {
    g.timer + 1 >= g.interval && g.running
  }

  /**
   * The spawn half of `updateAnimals()`: the timer goes up by one; when it
   * reaches the interval while the game runs, exactly one new animal is
   * appended, the timer goes back to 0 and a new interval is drawn.
   */
  function SpawnNext(g: GameState, typeDraw: nat, intervalDraw: nat, canvasWidth: real): (r: GameState)
    requires typeDraw < |AnimalTypes| && intervalDraw < IntervalDraws
    ensures r.alien == g.alien && ProgressOf(r) == ProgressOf(g)
    ensures SpawnDue(g) ==>
      && r.animals == g.animals + [NewAnimal(typeDraw, canvasWidth)]
      && r.timer == 0 && MinInterval <= r.interval <= 149
    ensures !SpawnDue(g) ==>
      r.animals == g.animals && r.timer == g.timer + 1 && r.interval == g.interval
  {
    var timer := g.timer + 1;
    if timer >= g.interval && g.running then
      g.(animals := g.animals + [NewAnimal(typeDraw, canvasWidth)], timer := 0,
         interval := RandomInterval(intervalDraw))
    else
      g.(timer := timer)
  }

  /**
   * The walk half of `updateAnimals()`: every animal moved and checked, the
   * counters updated, then the off-screen animals taken out.
   */
  function WalkNext(g: GameState): (r: GameState)
    ensures r.alien == g.alien && r.timer == g.timer && r.interval == g.interval
    ensures forall k :: 0 <= k < |r.animals| ==> !OffScreen(r.animals[k])
    ensures r.score - g.score == PassAward * (r.jumps - g.jumps)
    ensures r.jumps >= g.jumps && r.speed >= g.speed
    ensures r.running == (g.running && !(r.jumps > g.jumps && r.jumps >= WinJumps))
  {
    var w := MoveAll(g.animals, ProgressOf(g));
    g.(animals := Survivors(w.moved), jumps := w.progress.jumps, score := w.progress.score,
       speed := w.progress.speed, running := w.progress.running)
  }

  /**
   * `updateAnimals()`: the spawn test and then the walk. The alien is left
   * alone, the timer and interval move as the spawn test says, every animal
   * left is on the screen, and the counters follow the walk.
   */
  function UpdateAnimalsNext(g: GameState, typeDraw: nat, intervalDraw: nat, canvasWidth: real): (r: GameState)
    requires typeDraw < |AnimalTypes| && intervalDraw < IntervalDraws
    ensures r.alien == g.alien
    ensures SpawnDue(g) ==> r.timer == 0 && MinInterval <= r.interval <= 149
    ensures !SpawnDue(g) ==> r.timer == g.timer + 1 && r.interval == g.interval
    ensures forall k :: 0 <= k < |r.animals| ==> !OffScreen(r.animals[k])
    ensures r.score - g.score == PassAward * (r.jumps - g.jumps)
    ensures r.jumps >= g.jumps && r.speed >= g.speed
    ensures r.running == (g.running && !(r.jumps > g.jumps && r.jumps >= WinJumps))
  {
    WalkNext(SpawnNext(g, typeDraw, intervalDraw, canvasWidth))
  }

  /**
   * `checkCollision()`: the game stops exactly when some animal's inset box
   * meets the alien's; nothing else changes.
   */
  function CollisionNext(g: GameState): (r: GameState)
    ensures r == g.(running := r.running)
    ensures r.running == (g.running && !AnyCollision(g.alien.y, g.animals))
  {
    if AnyCollision(g.alien.y, g.animals) then g.(running := false) else g
  }

  /** `winGame()` and `gameOver()` on the state: both only stop the game. */
  function Stop(g: GameState): (r: GameState)
    ensures !r.running && r.(running := g.running) == g
  {
    g.(running := false)
  }

  /**
   * The update half of one `gameLoop()` call: nothing when the game is
   * stopped; otherwise the leg counter of `drawAlien()`, `updateAlien()`,
   * `updateAnimals()` and `checkCollision()`, in this order. The collision
   * test runs even when the walk has just won the game.
   */
  function TickNext(g: GameState, typeDraw: nat, intervalDraw: nat, canvasWidth: real): (r: GameState)
    requires typeDraw < |AnimalTypes| && intervalDraw < IntervalDraws
    ensures !g.running ==> r == g
  {
    if !g.running then g
    else
      var alien := AlienNext(AnimNext(g.alien, g.running));
      CollisionNext(UpdateAnimalsNext(g.(alien := alien), typeDraw, intervalDraw, canvasWidth))
  }

  /**
   * `startGame()`: set the game running and run the first tick at once. The
   * game is still running afterwards unless that tick won or the alien now
   * touches an animal, and the invariant is kept.
   */
  function StartNext(g: GameState, typeDraw: nat, intervalDraw: nat, canvasWidth: real): (r: GameState)
    requires typeDraw < |AnimalTypes| && intervalDraw < IntervalDraws
    ensures r.running == !((r.jumps > g.jumps && r.jumps >= WinJumps) || AnyCollision(r.alien.y, r.animals))
    ensures Inv(g) && canvasWidth > 0.0 ==> Inv(r)
  {
    var g1 := g.(running := true);
    TickStopsExactly(g1, typeDraw, intervalDraw, canvasWidth);
    if Inv(g1) && canvasWidth > 0.0 then
      TickKeepsInv(g1, typeDraw, intervalDraw, canvasWidth);
      TickNext(g1, typeDraw, intervalDraw, canvasWidth)
    else
      TickNext(g1, typeDraw, intervalDraw, canvasWidth)
  }

  /**
   * The assignments of `resetGame()` before it calls `startGame()`: the game
   * stopped, every counter back to its start value, no animals, a new
   * interval, the alien standing on the ground at frame 0. `animSpeed` is
   * not reset.
   */
  function ResetValues(g: GameState, resetDraw: nat): (r: GameState)
    requires resetDraw < IntervalDraws
    ensures !r.running && r.score == 0 && r.jumps == 0 && r.speed == 1.0
    ensures r.animals == [] && r.timer == 0 && MinInterval <= r.interval <= 149
    ensures r.alien == InitialAlien.(animSpeed := g.alien.animSpeed)
    ensures 0.0 <= g.alien.animSpeed < 1.0 ==> Inv(r)
  {
    GameState(
      g.alien.(y := 300.0, velocityY := 0.0, jumping := false, grounded := true, animFrame := 0),
      false, 0, 0, 1.0, [], 0, RandomInterval(resetDraw))
  }

  /**
   * `resetGame()`: the reset assignments followed by `startGame()`. The game
   * runs again with every counter back at its start value and no animals;
   * the first tick has already run, so the timer is 1 and the leg frame may
   * have moved on to 1 (`animSpeed` is not reset).
   */
  function ResetNext(g: GameState, resetDraw: nat, typeDraw: nat, intervalDraw: nat, canvasWidth: real): (r: GameState)
    requires resetDraw < IntervalDraws && typeDraw < |AnimalTypes| && intervalDraw < IntervalDraws
    ensures r.running && r.score == 0 && r.jumps == 0 && r.speed == 1.0 && r.animals == []
    ensures r.timer == 1 && r.interval == RandomInterval(resetDraw)
    ensures r.alien.y == StandY && r.alien.velocityY == 0.0 && r.alien.grounded && !r.alien.jumping
    ensures r.alien.animFrame == 0 || r.alien.animFrame == 1
  {
    var r0 := ResetValues(g, resetDraw);
    var g1 := r0.(running := true);
    var g2 := g1.(alien := AlienNext(AnimNext(g1.alien, true)));
    assert !SpawnDue(g2);
    var g3 := SpawnNext(g2, typeDraw, intervalDraw, canvasWidth);
    assert g3.animals == [];
    assert MoveAll([], ProgressOf(g3)) == Walk([], ProgressOf(g3));
    assert !AnyCollision(g3.alien.y, []);
    StartNext(r0, typeDraw, intervalDraw, canvasWidth)
  }

  /**
   * The walk establishes the animal invariant, given that the speed is not
   * negative and that every animal marked passed is already behind the
   * alien (a freshly spawned animal may be behind it but not yet marked).
   */
  lemma WalkKeepsAnimals(s: seq<Animal>, p: Progress)
    requires p.speed >= 0.0
    requires forall k :: 0 <= k < |s| ==> (s[k].passed ==> Behind(s[k]))
    ensures forall k :: 0 <= k < |Survivors(MoveAll(s, p).moved)| ==>
      AnimalInv(Survivors(MoveAll(s, p).moved)[k])
  {
    var m := MoveAll(s, p).moved;
    MoveAllAnimals(s, p);
    assert forall k :: 0 <= k < |m| ==> m[k].passed == Behind(m[k]);
    SurvivorsAreOnScreenInOrder(m);
  }

  /** Every tick keeps the invariant. */
  lemma TickKeepsInv(g: GameState, typeDraw: nat, intervalDraw: nat, canvasWidth: real)
    requires Inv(g) && canvasWidth > 0.0
    requires typeDraw < |AnimalTypes| && intervalDraw < IntervalDraws
    ensures Inv(TickNext(g, typeDraw, intervalDraw, canvasWidth))
  {
    if g.running {
      var g1 := g.(alien := AlienNext(AnimNext(g.alien, g.running)));
      var g2 := SpawnNext(g1, typeDraw, intervalDraw, canvasWidth);
      assert forall k :: 0 <= k < |g2.animals| ==> (g2.animals[k].passed ==> Behind(g2.animals[k]));
      var w := MoveAll(g2.animals, ProgressOf(g2));
      WalkKeepsAnimals(g2.animals, ProgressOf(g2));
      assert w.progress.speed == SpeedFor(w.progress.jumps);
      var g3 := WalkNext(g2);
      assert g3.animals == Survivors(w.moved);
      assert Inv(g3);
    }
  }

  /**
   * A tick that runs stops the game exactly when the walk won it (a pass
   * left the count at 90 or more) or the alien now touches an animal.
   */
  lemma TickStopsExactly(g: GameState, typeDraw: nat, intervalDraw: nat, canvasWidth: real)
    requires g.running
    requires typeDraw < |AnimalTypes| && intervalDraw < IntervalDraws
    ensures
      var r := TickNext(g, typeDraw, intervalDraw, canvasWidth);
      var won := r.jumps > g.jumps && r.jumps >= WinJumps;
      r.running == !(won || AnyCollision(r.alien.y, r.animals))
  {
  }

  /**
   * The counters over one tick: jumps and score never go down, score grows by
   * 100 per jump, and the speed never goes down and stays on its ladder.
   */
  lemma TickProgress(g: GameState, typeDraw: nat, intervalDraw: nat, canvasWidth: real)
    requires Inv(g)
    requires typeDraw < |AnimalTypes| && intervalDraw < IntervalDraws
    ensures
      var r := TickNext(g, typeDraw, intervalDraw, canvasWidth);
      && r.jumps >= g.jumps && r.score >= g.score && r.speed >= g.speed
      && r.score - g.score == PassAward * (r.jumps - g.jumps)
      && r.speed == SpeedFor(r.jumps) && 1.0 <= r.speed <= MaxSpeed
  {
    if g.running {
      var g1 := g.(alien := AlienNext(AnimNext(g.alien, g.running)));
      var g2 := SpawnNext(g1, typeDraw, intervalDraw, canvasWidth);
      var w := MoveAll(g2.animals, ProgressOf(g2));
      assert w.progress.speed == SpeedFor(w.progress.jumps);
    }
  }

  /** When a win stops the game the score is at least 9000. */
  lemma WinScore(g: GameState, typeDraw: nat, intervalDraw: nat, canvasWidth: real)
    requires Inv(g)
    requires typeDraw < |AnimalTypes| && intervalDraw < IntervalDraws
    ensures
      var r := TickNext(g, typeDraw, intervalDraw, canvasWidth);
      r.jumps > g.jumps && r.jumps >= WinJumps ==> !r.running && r.score >= PassAward * WinJumps
  {
    TickProgress(g, typeDraw, intervalDraw, canvasWidth);
    if g.running {
      TickStopsExactly(g, typeDraw, intervalDraw, canvasWidth);
    }
  }

  /** `resetGame()` from any state between ticks leaves a state between ticks. */
  lemma ResetRestarts(g: GameState, resetDraw: nat, typeDraw: nat, intervalDraw: nat, canvasWidth: real)
    requires Inv(g) && canvasWidth > 0.0
    requires resetDraw < IntervalDraws && typeDraw < |AnimalTypes| && intervalDraw < IntervalDraws
    ensures Inv(ResetNext(g, resetDraw, typeDraw, intervalDraw, canvasWidth))
  {
    assert Inv(ResetValues(g, resetDraw));
  }
}
