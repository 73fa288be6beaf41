/**
 * The animals the alien has to jump over: their catalog, how a new one is
 * made, and the backward walk of `updateAnimals` that moves every animal
 * left, counts the ones the alien has got past, raises the speed in steps,
 * signals the win, and takes the animals that left the screen out of the
 * array.
 *
 * The walk is specified in two layers: `MoveAll` is the walk without the
 * removals (it visits the last animal first, as the loop does), and
 * `Survivors` is the stable compaction that drops the animals that left the
 * screen. The split is exact because removing animal i never changes what
 * the loop later does with animals 0 .. i-1.
 */
module Obstacles {
  import opened Physics

  const BaseSpeed: real := 3.0
  const PassAward: int := 100
  const SpeedCadence: int := 15
  const SpeedStep: real := 0.5
  const MaxSpeed: real := 4.0
  const WinJumps: int := 90

  /** `getRandomInterval()` is `Math.floor(Math.random() * 90) + 60`. */
  const MinInterval: int := 60
  const IntervalDraws: nat := 90

  datatype AnimalType = AnimalType(name: string, width: real, height: real, color: string)

  const AnimalTypes: seq<AnimalType> := [
    AnimalType("dog", 50.0, 40.0, "#8B4513"),
    AnimalType("cat", 45.0, 35.0, "#FFA500"),
    AnimalType("rabbit", 40.0, 45.0, "#FFB6C1"),
    AnimalType("fox", 55.0, 42.0, "#FF4500")
  ]

  /** One element of the `animals` array. */
  datatype Animal = Animal(x: real, y: real, width: real, height: real, color: string, passed: bool)

  /**
   * `getRandomInterval()`, with `Math.floor(Math.random() * 90)` given as
   * `draw`: the spawn interval in frames.
   */
  function RandomInterval(draw: nat): (r: int)
    requires draw < IntervalDraws
    ensures MinInterval <= r <= 149
    ensures r - MinInterval == draw
  {
    draw + MinInterval
  }

  /**
   * The animal `spawnAnimal()` pushes: type number `typeDraw` (that is,
   * `Math.floor(Math.random() * animalTypes.length)`), standing on the
   * ground at the right edge of the canvas, not yet passed.
   */
  function NewAnimal(typeDraw: nat, canvasWidth: real): (a: Animal)
    requires typeDraw < |AnimalTypes|
    ensures a.x == canvasWidth && a.y + a.height == GroundY && !a.passed
    ensures
      var t := AnimalTypes[typeDraw];
      a.width == t.width && a.height == t.height && a.color == t.color
    ensures a.width > 0.0 && a.height > 5.0
  {
    var t := AnimalTypes[typeDraw];
    Animal(canvasWidth, GroundY - t.height, t.width, t.height, t.color, false)
  }

  /** The right edge of the animal is left of the canvas: it is removed. */
  predicate OffScreen(a: Animal) {
    a.x + a.width < 0.0
  }

  /** The right edge of the animal is left of the alien's left edge: it counts as jumped. */
  predicate Behind(a: Animal) {
    a.x + a.width < AlienX
  }

  /**
   * The inset box test of `checkCollision()`: the alien's box and the
   * animal's box overlap once each box has lost 10 at its right edge and 5
   * at its bottom edge. An animal that touches the alien has not been
   * jumped and is still on the screen.
   */
  function Collides(alienY: real, a: Animal): (b: bool)
    ensures b ==> !Behind(a) && !OffScreen(a)
  {
    && AlienX < a.x + a.width - 10.0
    && AlienX + AlienWidth - 10.0 > a.x
    && alienY < a.y + a.height - 5.0
    && alienY + AlienHeight - 5.0 > a.y
  }

  predicate AnyCollision(alienY: real, s: seq<Animal>) {
    exists k :: 0 <= k < |s| && Collides(alienY, s[k])
  }

  /**
   * A grounded alien collides with an animal standing on the ground exactly
   * when the two overlap horizontally (the jump is the only way past).
   */
  lemma GroundedCollision(a: Animal)
    requires a.y + a.height == GroundY && a.height > 5.0
    ensures Collides(StandY, a) <==>
      (AlienX < a.x + a.width - 10.0 && AlienX + AlienWidth - 10.0 > a.x)
  {
  }

  /** The counters that the walk updates: `successfulJumps`, `score`, `currentSpeed`, `gameRunning`. */
  datatype Progress = Progress(jumps: int, score: int, speed: real, running: bool)

  function Min(a: real, b: real): (m: real)
    ensures m <= a && m <= b && (m == a || m == b)
  {
    if a <= b then a else b
  }

  /**
   * The speed ladder: 1.0 at the start, 0.5 more at each multiple of 15
   * jumps, never more than 4.0.
   */
  function SpeedFor(jumps: int): (v: real)
    requires jumps >= 0
    ensures 1.0 <= v <= MaxSpeed
    ensures jumps < SpeedCadence ==> v == 1.0
    ensures jumps >= 6 * SpeedCadence ==> v == MaxSpeed
  {
    if jumps / SpeedCadence >= 6 then MaxSpeed else 1.0 + SpeedStep * (jumps / SpeedCadence) as real
  }

  /** One more jump moves the ladder exactly as the code's `Math.min(4, currentSpeed + 0.5)` step does. */
  lemma SpeedForNext(j: int)
    ensures j >= 0 && (j + 1) % SpeedCadence != 0 ==> SpeedFor(j + 1) == SpeedFor(j)
    ensures j >= 0 && (j + 1) % SpeedCadence == 0 && SpeedFor(j) < MaxSpeed ==>
      SpeedFor(j + 1) == Min(MaxSpeed, SpeedFor(j) + SpeedStep)
    ensures j >= 0 && (j + 1) % SpeedCadence == 0 && SpeedFor(j) >= MaxSpeed ==>
      SpeedFor(j + 1) == SpeedFor(j)
  {
    if (j + 1) % SpeedCadence == 0 {
      assert (j + 1) / SpeedCadence == j / SpeedCadence + 1;
    } else {
      assert (j + 1) / SpeedCadence == j / SpeedCadence;
    }
  }

  lemma SpeedForMonotone(i: int, j: int)
    requires 0 <= i <= j
    ensures SpeedFor(i) <= SpeedFor(j)
  {
    assert i / SpeedCadence <= j / SpeedCadence;
  }

  /** The result of visiting one animal: the animal as it is left and the counters after it. */
  datatype Visit = Visit(animal: Animal, progress: Progress)

  /** The animal is the same one, at another x and perhaps marked passed. */
  predicate SameAnimal(a: Animal, b: Animal) {
    a.y == b.y && a.width == b.width && a.height == b.height && a.color == b.color
  }

  /**
   * One turn of the loop of `updateAnimals` before the removal test: move the
   * animal by `baseSpeed * currentSpeed`; if it was not yet passed and is now
   * behind the alien, mark it, add one jump and 100 points, raise the speed
   * on a multiple of 15 below the cap, and stop the game (`winGame`) at 90
   * jumps or more.
   */
  function StepAnimal(a: Animal, p: Progress): (r: Visit)
    ensures SameAnimal(a, r.animal) && r.animal.x == a.x - BaseSpeed * p.speed
    ensures
      var flip := !a.passed && r.animal.passed;
      && r.animal.passed == (a.passed || Behind(r.animal))
      && r.progress.jumps == p.jumps + (if flip then 1 else 0)
      && r.progress.score == p.score + (if flip then PassAward else 0)
      && r.progress.speed >= p.speed
      && (r.progress.speed != p.speed ==>
            flip && r.progress.jumps % SpeedCadence == 0 && p.speed < MaxSpeed &&
            r.progress.speed == Min(MaxSpeed, p.speed + SpeedStep))
      && r.progress.running == (p.running && !(flip && r.progress.jumps >= WinJumps))
    ensures p.jumps >= 0 && p.speed == SpeedFor(p.jumps) ==> r.progress.speed == SpeedFor(r.progress.jumps)
  {
    var moved := a.(x := a.x - BaseSpeed * p.speed);
    if !moved.passed && Behind(moved) then
      var jumps := p.jumps + 1;
      var speed := if jumps % SpeedCadence == 0 && p.speed < MaxSpeed
                   then Min(MaxSpeed, p.speed + SpeedStep) else p.speed;
      var running := if jumps >= WinJumps then false else p.running;
      SpeedForNext(p.jumps);
      Visit(moved.(passed := true), Progress(jumps, p.score + PassAward, speed, running))
    else
      Visit(moved, p)
  }

  /** How many animals of s are marked passed. */
  function CountPassed(s: seq<Animal>): (n: nat)
    ensures n <= |s|
  {
    if s == [] then 0 else (if s[0].passed then 1 else 0) + CountPassed(s[1..])
  }

  /** The walk of `updateAnimals` without its removals. */
  datatype Walk = Walk(moved: seq<Animal>, progress: Progress)

  /**
   * The backward loop of `updateAnimals` with the removals left out: the
   * last animal is visited first, each with the counters its later
   * neighbours left behind. States what happens to every animal and to the
   * counters over the whole walk.
   */
  function MoveAll(s: seq<Animal>, p: Progress): (w: Walk)
    ensures |w.moved| == |s|
    ensures var q := w.progress;
      && q.jumps >= p.jumps
      && q.jumps == p.jumps + CountPassed(w.moved) - CountPassed(s)
      && q.score - p.score == PassAward * (q.jumps - p.jumps)
      && q.speed >= p.speed
      && (q.jumps == p.jumps ==> q.speed == p.speed)
      && (p.jumps >= 0 && q.jumps / SpeedCadence == p.jumps / SpeedCadence ==> q.speed == p.speed)
      && (p.jumps >= 0 && p.speed == SpeedFor(p.jumps) ==> q.speed == SpeedFor(q.jumps))
      && q.running == (p.running && !(q.jumps > p.jumps && q.jumps >= WinJumps))
  {
    if s == [] then Walk([], p)
    else
      var rest := MoveAll(s[1..], p);
      var v := StepAnimal(s[0], rest.progress);
      var moved := [v.animal] + rest.moved;
      assert moved[1..] == rest.moved;
      assert rest.progress.jumps >= p.jumps;
      assert p.jumps >= 0 && v.progress.jumps / SpeedCadence == p.jumps / SpeedCadence ==>
        rest.progress.jumps / SpeedCadence == p.jumps / SpeedCadence;
      Walk(moved, v.progress)
  }

  /**
   * What the walk does to each animal: it is the same animal, moved left by
   * 3 times a speed between the starting one and the final one, and marked
   * passed exactly when it was already or is now behind the alien.
   */
  lemma {:induction false} MoveAllAnimals(s: seq<Animal>, p: Progress)
    ensures var w := MoveAll(s, p);
      forall k :: 0 <= k < |s| ==>
        && SameAnimal(s[k], w.moved[k])
        && s[k].x - BaseSpeed * w.progress.speed <= w.moved[k].x <= s[k].x - BaseSpeed * p.speed
        && w.moved[k].passed == (s[k].passed || Behind(w.moved[k]))
  {
    if s != [] {
      var w := MoveAll(s, p);
      var rest := MoveAll(s[1..], p);
      MoveAllAnimals(s[1..], p);
      var v := StepAnimal(s[0], rest.progress);
      assert w.moved == [v.animal] + rest.moved;
      forall k | 1 <= k < |s|
        ensures
          && SameAnimal(s[k], w.moved[k])
          && s[k].x - BaseSpeed * w.progress.speed <= w.moved[k].x <= s[k].x - BaseSpeed * p.speed
          && w.moved[k].passed == (s[k].passed || Behind(w.moved[k]))
      {
        assert s[k] == s[1..][k - 1] && w.moved[k] == rest.moved[k - 1];
      }
    }
  }

  /**
   * Each animal of the walk is moved by exactly the speed current at its own
   * visit: the one left by the walk over the animals after it.
   */
  lemma {:induction false} MoveAllAt(s: seq<Animal>, p: Progress, k: nat)
    requires k < |s|
    ensures MoveAll(s, p).moved[k] == StepAnimal(s[k], MoveAll(s[k + 1..], p).progress).animal
    ensures MoveAll(s, p).moved[k].x == s[k].x - BaseSpeed * MoveAll(s[k + 1..], p).progress.speed
  {
    if k > 0 {
      MoveAllAt(s[1..], p, k - 1);
      assert s[1..][k - 1] == s[k];
      assert s[1..][k..] == s[k + 1..];
      assert MoveAll(s, p).moved[k] == MoveAll(s[1..], p).moved[k - 1];
    }
  }

  /**
   * One more turn of the backward loop: the walk over s[i..] is the walk over
   * s[i+1..] followed by the visit of s[i], and the compaction keeps s[i]'s
   * visited self in front of what it kept before, unless it left the screen.
   */
  lemma WalkOneMore(s: seq<Animal>, i: nat, p: Progress)
    requires i < |s|
    ensures
      var rest := MoveAll(s[i + 1..], p);
      var v := StepAnimal(s[i], rest.progress);
      && MoveAll(s[i..], p) == Walk([v.animal] + rest.moved, v.progress)
      && Survivors([v.animal] + rest.moved) ==
           (if OffScreen(v.animal) then [] else [v.animal]) + Survivors(rest.moved)
  {
    assert s[i..][1..] == s[i + 1..];
    var rest := MoveAll(s[i + 1..], p);
    var v := StepAnimal(s[i], rest.progress);
    assert ([v.animal] + rest.moved)[1..] == rest.moved;
  }

  /**
   * The splice of one loop turn keeps the loop's invariant: with the animals
   * below i untouched and the compaction of the walked tail after them,
   * writing the visited animal back at i, and cutting it out if it is off
   * screen, leaves the untouched animals below i and the compaction of the
   * walk from i.
   */
  lemma SpliceStep(s: seq<Animal>, i: nat, p: Progress, cur: seq<Animal>)
    requires i < |s|
    requires cur == s[..i + 1] + Survivors(MoveAll(s[i + 1..], p).moved)
    ensures
      var v := StepAnimal(s[i], MoveAll(s[i + 1..], p).progress);
      var after := s[..i] + Survivors(MoveAll(s[i..], p).moved);
      && i < |cur| && cur[i] == s[i]
      && v.progress == MoveAll(s[i..], p).progress
      && (OffScreen(v.animal) ==> cur[i := v.animal][..i] + cur[i := v.animal][i + 1..] == after)
      && (!OffScreen(v.animal) ==> cur[i := v.animal] == after)
  {
    WalkOneMore(s, i, p);
    var rest := MoveAll(s[i + 1..], p);
    var v := StepAnimal(s[i], rest.progress);
    assert s[..i + 1] == s[..i] + [s[i]];
    PutAt(s[..i], s[i], v.animal, Survivors(rest.moved), cur, OffScreen(v.animal));
  }

  /**
   * Writing y over the x that sits between pre and post, and dropping it
   * again when drop holds.
   */
  lemma PutAt<T>(pre: seq<T>, x: T, y: T, post: seq<T>, cur: seq<T>, drop: bool)
    requires cur == pre + [x] + post
    ensures |pre| < |cur| && cur[|pre|] == x
    ensures drop ==>
      cur[|pre| := y][..|pre|] + cur[|pre| := y][|pre| + 1..] == pre + ((if drop then [] else [y]) + post)
    ensures !drop ==> cur[|pre| := y] == pre + ((if drop then [] else [y]) + post)
  {
    var put := cur[|pre| := y];
    assert put == pre + [y] + post;
    if drop {
      assert put[..|pre|] == pre;
      assert put[|pre| + 1..] == post;
    }
  }

  /** The animals kept by the removal test `x + width < 0`, in their order. */
  function Survivors(s: seq<Animal>): (r: seq<Animal>)
    ensures |r| <= |s|
    ensures forall j :: 0 <= j < |r| ==> !OffScreen(r[j])
  {
    if s == [] then []
    else (if OffScreen(s[0]) then [] else [s[0]]) + Survivors(s[1..])
  }

  function Shift(t: seq<int>): (r: seq<int>)
    ensures |r| == |t| && forall j :: 0 <= j < |t| ==> r[j] == t[j] + 1
  {
    seq(|t|, j requires 0 <= j < |t| => t[j] + 1)
  }

  /** The positions of the animals that `Survivors` keeps, in increasing order. */
  function SurvivorIndices(s: seq<Animal>): (idx: seq<int>)
    ensures forall j :: 0 <= j < |idx| ==> 0 <= idx[j] < |s|
    ensures forall j1, j2 :: 0 <= j1 < j2 < |idx| ==> idx[j1] < idx[j2]
  {
    if s == [] then []
    else
      var t := SurvivorIndices(s[1..]);
      var head: seq<int> := if OffScreen(s[0]) then [] else [0];
      PrependShifted(head, t, |s| - 1);
      head + Shift(t)
  }

  /** Positions of a tail, moved up by one, with position 0 perhaps put in front. */
  lemma PrependShifted(head: seq<int>, t: seq<int>, n: nat)
    requires head == [] || head == [0]
    requires forall j :: 0 <= j < |t| ==> 0 <= t[j] < n
    requires forall j1, j2 :: 0 <= j1 < j2 < |t| ==> t[j1] < t[j2]
    ensures var r := head + Shift(t);
      && (forall j :: 0 <= j < |r| ==> 0 <= r[j] < n + 1)
      && (forall j1, j2 :: 0 <= j1 < j2 < |r| ==> r[j1] < r[j2])
  {
    var sh := Shift(t);
    var r := head + sh;
    forall j | 0 <= j < |r|
      ensures 0 <= r[j] < n + 1
    {
      if j >= |head| {
        assert r[j] == sh[j - |head|];
      }
    }
    forall j1, j2 | 0 <= j1 < j2 < |r|
      ensures r[j1] < r[j2]
    {
      if j1 >= |head| {
        assert r[j1] == sh[j1 - |head|] && r[j2] == sh[j2 - |head|];
      } else {
        assert r[j2] == sh[j2 - |head|];
      }
    }
  }

  /** The j-th survivor is the animal at the j-th kept position. */
  lemma {:induction false} SurvivorsAtIndices(s: seq<Animal>)
    ensures
      var idx := SurvivorIndices(s);
      && |idx| == |Survivors(s)|
      && (forall j :: 0 <= j < |idx| ==> Survivors(s)[j] == s[idx[j]])
  {
    if s != [] {
      var tail := s[1..];
      SurvivorsAtIndices(tail);
      var t := SurvivorIndices(tail);
      var head: seq<int> := if OffScreen(s[0]) then [] else [0];
      var idx := SurvivorIndices(s);
      var r := Survivors(s);
      assert idx == head + Shift(t);
      forall j | 0 <= j < |idx|
        ensures r[j] == s[idx[j]]
      {
        if j >= |head| {
          var j' := j - |head|;
          assert idx[j] == t[j'] + 1;
          assert r[j] == Survivors(tail)[j'];
        }
      }
    }
  }

  /** A position is kept exactly when its animal is still on the screen. */
  lemma {:induction false} SurvivorIndicesExact(s: seq<Animal>)
    ensures forall k :: 0 <= k < |s| ==> (k in SurvivorIndices(s) <==> !OffScreen(s[k]))
  {
    if s != [] {
      var tail := s[1..];
      SurvivorIndicesExact(tail);
      var t := SurvivorIndices(tail);
      var head: seq<int> := if OffScreen(s[0]) then [] else [0];
      assert SurvivorIndices(s) == head + Shift(t);
      forall k | 0 <= k < |s|
        ensures k in head + Shift(t) <==> !OffScreen(s[k])
      {
        ShiftedMember(s, t, head, k);
      }
    }
  }

  /** One position of the inductive step of `SurvivorIndicesExact`. */
  lemma ShiftedMember(s: seq<Animal>, t: seq<int>, head: seq<int>, k: int)
    requires s != [] && 0 <= k < |s|
    requires head == if OffScreen(s[0]) then [] else [0]
    requires forall j :: 0 <= j < |t| ==> 0 <= t[j]
    requires forall k' :: 0 <= k' < |s| - 1 ==> (k' in t <==> !OffScreen(s[1..][k']))
    ensures k in head + Shift(t) <==> !OffScreen(s[k])
  {
    var sh := Shift(t);
    if k == 0 {
      assert forall j :: 0 <= j < |sh| ==> sh[j] >= 1;
    } else {
      assert s[1..][k - 1] == s[k];
      if k - 1 in t {
        var j :| 0 <= j < |t| && t[j] == k - 1;
        assert sh[j] == k;
      }
      if k in sh {
        var j :| 0 <= j < |sh| && sh[j] == k;
        assert t[j] == k - 1;
      }
    }
  }

  /**
   * The removal keeps exactly the animals still on the screen, each once,
   * in their original order: the j-th survivor is the animal at the j-th
   * kept position, the positions strictly increase, and a position is kept
   * exactly when its animal is on the screen.
   */
  lemma SurvivorsAreOnScreenInOrder(s: seq<Animal>)
    ensures
      var idx := SurvivorIndices(s);
      && |idx| == |Survivors(s)|
      && (forall j :: 0 <= j < |idx| ==> 0 <= idx[j] < |s| && Survivors(s)[j] == s[idx[j]])
      && (forall j1, j2 :: 0 <= j1 < j2 < |idx| ==> idx[j1] < idx[j2])
      && (forall k :: 0 <= k < |s| ==> (k in idx <==> !OffScreen(s[k])))
  {
    SurvivorsAtIndices(s);
    SurvivorIndicesExact(s);
  }

  /**
   * A pass that leaves the count at 90 or more stops the game but not the
   * walk. The input is constructed to show that the loop does not break:
   * at 89 jumps and speed 3.5 (the ladder's speed at 89), two unpassed
   * animals side by side both get behind the alien in the same walk, so
   * both are counted and the count ends at 91. In a run, spawns at least 60
   * frames apart keep animals too far apart for two passes in one tick, so
   * a run wins at exactly 90.
   */
  lemma WinDoesNotStopTheWalk()
    ensures
      var a := Animal(45.0, 320.0, 50.0, 40.0, "#8B4513", false);
      var w := MoveAll([a, a], Progress(89, 8900, SpeedFor(89), true));
      && MoveAll([a], Progress(89, 8900, SpeedFor(89), true)).progress == Progress(90, 9000, MaxSpeed, false)
      && w.progress == Progress(91, 9100, MaxSpeed, false)
      && w.moved == [a.(x := 33.0, passed := true), a.(x := 34.5, passed := true)]
  {
    var a := Animal(45.0, 320.0, 50.0, 40.0, "#8B4513", false);
    assert SpeedFor(89) == 3.5;
    var p := Progress(89, 8900, 3.5, true);
    var w1 := MoveAll([a], p);
    assert [a, a][1..] == [a];
    assert [a][1..] == [];
    assert w1.progress == Progress(90, 9000, MaxSpeed, false);
  }
}
