/**
 * The game's mutable state as objects: the `alien` object with its fields,
 * and one game object holding the run's counters, the spawn timer and the
 * `animals` array. Every function of the game logic is a method here that
 * updates these fields in place, and each is proved to change the state
 * exactly as its specification function in Physics, Obstacles or Run says.
 */
module Engine {
  import opened Physics
  import opened Obstacles
  import opened Run

  /** The `alien` object. */
  class Alien {
    const x: real := AlienX
    const width: real := AlienWidth
    const height: real := AlienHeight
    var y: real
    var velocityY: real
    var jumping: bool
    var grounded: bool
    var animFrame: int
    var animSpeed: real

    ghost function State(): AlienState
      reads this
    {
      AlienState(y, velocityY, jumping, grounded, animFrame, animSpeed)
    }

    constructor ()
      ensures State() == InitialAlien
    {
      y := 300.0;
      velocityY := 0.0;
      jumping := false;
      grounded := true;
      animFrame := 0;
      animSpeed := 0.0;
    }
  }

  class Game {
    const alien: Alien
    /** `canvas.width`, which the script reads from the page. */
    const canvasWidth: real

    var gameRunning: bool
    var score: int
    var successfulJumps: int
    var currentSpeed: real
    var animals: seq<Animal>
    var nextAnimalTimer: int
    var animalSpawnInterval: int

    ghost function State(): GameState
      reads this, alien
    {
      GameState(alien.State(), gameRunning, score, successfulJumps, currentSpeed,
                animals, nextAnimalTimer, animalSpawnInterval)
    }

    ghost function CurrentProgress(): Progress
      reads this
    {
      Progress(successfulJumps, score, currentSpeed, gameRunning)
    }

    ghost predicate Valid()
      reads this, alien
    {
      canvasWidth > 0.0 && Inv(State())
    }

    /** The script's top level: the initial values, with the first interval drawn. */
    constructor (canvasWidth: real, intervalDraw: nat)
      requires canvasWidth > 0.0 && intervalDraw < IntervalDraws
      ensures Valid() && fresh(alien)
      ensures this.canvasWidth == canvasWidth
      ensures State() == InitialState(intervalDraw)
    {
      alien := new Alien();
      this.canvasWidth := canvasWidth;
      gameRunning := false;
      score := 0;
      successfulJumps := 0;
      currentSpeed := 1.0;
      animals := [];
      nextAnimalTimer := 0;
      animalSpawnInterval := RandomInterval(intervalDraw);
    }

    /** `jump()` */
    method Jump()
      modifies alien
      ensures State() == JumpGame(old(State()))
    {
      if alien.grounded && gameRunning {
        alien.velocityY := JumpStrength;
        alien.jumping := true;
        alien.grounded := false;
      }
    }

    /** `updateAlien()` */
    method UpdateAlien()
      modifies alien
      ensures State() == old(State()).(alien := AlienNext(old(alien.State())))
    {
      alien.velocityY := alien.velocityY + Gravity;
      alien.y := alien.y + alien.velocityY;
      if alien.y >= GroundY - alien.height {
        alien.y := GroundY - alien.height;
        alien.velocityY := 0.0;
        alien.jumping := false;
        alien.grounded := true;
      }
    }

    /** The frame counter at the top of `drawAlien()`. */
    method AnimateAlien()
      modifies alien
      ensures State() == old(State()).(alien := AnimNext(old(alien.State()), gameRunning))
    {
      if alien.grounded && gameRunning {
        alien.animSpeed := alien.animSpeed + 0.2;
        if alien.animSpeed >= 1.0 {
          alien.animFrame := (alien.animFrame + 1) % 4;
          alien.animSpeed := 0.0;
        }
      }
    }

    /** `spawnAnimal()`: push one new animal of type number `typeDraw`. */
    method SpawnAnimal(typeDraw: nat)
      requires typeDraw < |AnimalTypes|
      modifies this`animals
      ensures State() == old(State()).(animals := old(animals) + [NewAnimal(typeDraw, canvasWidth)])
    {
      var t := AnimalTypes[typeDraw];
      animals := animals + [Animal(canvasWidth, GroundY - t.height, t.width, t.height, t.color, false)];
    }

    /** `winGame()`, without the overlay and the frame cancellation. */
    method WinGame()
      modifies this`gameRunning
      ensures State() == Stop(old(State()))
    {
      gameRunning := false;
    }

    /** `gameOver()`, without the overlay and the frame cancellation. */
    method GameOver()
      modifies this`gameRunning
      ensures State() == Stop(old(State()))
    {
      gameRunning := false;
    }

    /**
     * `updateAnimals()`: the spawn test, then the backward walk that moves,
     * counts and splices the `animals` array in place. The walk is proved to
     * leave exactly the compaction `Survivors` of the moved animals, with the
     * counters of `MoveAll`.
     */
    method UpdateAnimals(typeDraw: nat, intervalDraw: nat)
      requires typeDraw < |AnimalTypes| && intervalDraw < IntervalDraws
      modifies this
      ensures State() == UpdateAnimalsNext(old(State()), typeDraw, intervalDraw, canvasWidth)
    {
      nextAnimalTimer := nextAnimalTimer + 1;
      if nextAnimalTimer >= animalSpawnInterval && gameRunning {
        SpawnAnimal(typeDraw);
        nextAnimalTimer := 0;
        animalSpawnInterval := RandomInterval(intervalDraw);
      }
      ghost var spawned := State();
      assert spawned == SpawnNext(old(State()), typeDraw, intervalDraw, canvasWidth);
      assert ProgressOf(spawned) == CurrentProgress();
      MoveAnimals();
      assert State() == WalkNext(spawned);
    }

    /**
     * The backward loop of `updateAnimals()`: from the last index down to 0,
     * move each animal, count it, and splice it out once it is off screen.
     */
    method MoveAnimals()
      modifies this`animals, this`successfulJumps, this`score, this`currentSpeed, this`gameRunning
      ensures animals == Survivors(MoveAll(old(animals), old(CurrentProgress())).moved)
      ensures CurrentProgress() == MoveAll(old(animals), old(CurrentProgress())).progress
    {
      ghost var start := animals;
      ghost var p0 := CurrentProgress();
      var i := |animals| - 1;
      while i >= 0
        invariant -1 <= i < |start|
        invariant animals == start[..i + 1] + Survivors(MoveAll(start[i + 1..], p0).moved)
        invariant CurrentProgress() == MoveAll(start[i + 1..], p0).progress
      {
        ghost var v := StepAnimal(start[i], CurrentProgress());
        SpliceStep(start, i, p0, animals);
        var a := VisitAnimal(animals[i]);
        assert a == v.animal;
        animals := animals[i := a];
        if a.x + a.width < 0.0 {
          animals := animals[..i] + animals[i + 1..];
        }
        i := i - 1;
      }
      assert start[0..] == start;
    }

    /**
     * The body of the backward loop of `updateAnimals()` up to the removal
     * test, for the animal at the current index: move it, and count it if it
     * is now behind the alien.
     */
    method VisitAnimal(animal: Animal) returns (a: Animal)
      modifies this`successfulJumps, this`score, this`currentSpeed, this`gameRunning
      ensures Visit(a, CurrentProgress()) == StepAnimal(animal, old(CurrentProgress()))
    {
      a := animal.(x := animal.x - BaseSpeed * currentSpeed);
      if !a.passed && a.x + a.width < alien.x {
        a := a.(passed := true);
        successfulJumps := successfulJumps + 1;
        score := score + PassAward;
        if successfulJumps % SpeedCadence == 0 && currentSpeed < MaxSpeed {
          currentSpeed := Min(MaxSpeed, currentSpeed + SpeedStep);
        }
        if successfulJumps >= WinJumps {
          WinGame();
        }
      }
    }

    /**
     * `checkCollision()`: every animal is tested, and each hit calls
     * `gameOver()`.
     */
    method CheckCollision()
      modifies this
      ensures State() == CollisionNext(old(State()))
    {
      var i := 0;
      while i < |animals|
        invariant 0 <= i <= |animals|
        invariant State() == old(State()).(running := State().running)
        invariant gameRunning ==
          (old(gameRunning) && !(exists k :: 0 <= k < i && Collides(alien.y, animals[k])))
      {
        var a := animals[i];
        if alien.x < a.x + a.width - 10.0 && alien.x + alien.width - 10.0 > a.x &&
           alien.y < a.y + a.height - 5.0 && alien.y + alien.height - 5.0 > a.y
        {
          GameOver();
        }
        i := i + 1;
      }
    }

    /** The update half of `gameLoop()`; the drawing and the next frame request are left out. */
    method GameLoop(typeDraw: nat, intervalDraw: nat)
      requires Valid()
      requires typeDraw < |AnimalTypes| && intervalDraw < IntervalDraws
      modifies this, alien
      ensures Valid()
      ensures State() == TickNext(old(State()), typeDraw, intervalDraw, canvasWidth)
    {
      TickKeepsInv(State(), typeDraw, intervalDraw, canvasWidth);
      if !gameRunning {
        return;
      }
      AnimateAlien();
      UpdateAlien();
      UpdateAnimals(typeDraw, intervalDraw);
      CheckCollision();
    }

    /** `startGame()`: run, and play the first tick at once. */
    method StartGame(typeDraw: nat, intervalDraw: nat)
      requires Valid()
      requires typeDraw < |AnimalTypes| && intervalDraw < IntervalDraws
      modifies this, alien
      ensures Valid()
      ensures State() == StartNext(old(State()), typeDraw, intervalDraw, canvasWidth)
    {
      gameRunning := true;
      GameLoop(typeDraw, intervalDraw);
    }

    /**
     * `resetGame()`: stop, put every value back (`resetDraw` draws the new
     * interval), and start again, which plays one tick.
     */
    method ResetGame(resetDraw: nat, typeDraw: nat, intervalDraw: nat)
      requires Valid()
      requires resetDraw < IntervalDraws && typeDraw < |AnimalTypes| && intervalDraw < IntervalDraws
      modifies this, alien
      ensures Valid()
      ensures State() == ResetNext(old(State()), resetDraw, typeDraw, intervalDraw, canvasWidth)
    {
      gameRunning := false;
      score := 0;
      successfulJumps := 0;
      currentSpeed := 1.0;
      animals := [];
      nextAnimalTimer := 0;
      animalSpawnInterval := RandomInterval(resetDraw);
      alien.y := 300.0;
      alien.velocityY := 0.0;
      alien.jumping := false;
      alien.grounded := true;
      alien.animFrame := 0;
      assert State() == ResetValues(old(State()), resetDraw);
      StartGame(typeDraw, intervalDraw);
    }
  }
}
