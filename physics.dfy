/**
 * The player character (the alien): a jump impulse, gravity applied once
 * per tick, and a clamp that puts the alien back on the ground line.
 * Positions and velocities are real numbers (up is negative y, as on the
 * canvas): the ground line is at y = 360 and the alien is 60 high, so it
 * stands at y = 300.
 */
module Physics {

  const Gravity: real := 0.6
  const JumpStrength: real := -13.0

  const GroundY: real := 360.0
  const GroundHeight: real := 40.0

  const AlienX: real := 100.0
  const AlienWidth: real := 40.0
  const AlienHeight: real := 60.0

  /** The y of an alien standing on the ground: `ground.y - alien.height`. */
  const StandY: real := GroundY - AlienHeight

  /** The fields of the `alien` object that change during a run. */
  datatype AlienState = AlienState(
    y: real,
    velocityY: real,
    jumping: bool,
    grounded: bool,
    animFrame: int,
    animSpeed: real)

  /** The alien as it is before the first start, and as a reset leaves it (but for `animSpeed`). */
  const InitialAlien: AlienState := AlienState(300.0, 0.0, false, true, 0, 0.0)

  /**
   * What holds of the alien between ticks: never below the ground, a grounded
   * alien stands still on it, `jumping` is the opposite of `grounded`, and the
   * leg animation counters stay in range.
   */
  predicate AlienInv(a: AlienState) {
    && a.y <= StandY
    && (a.grounded ==> a.y == StandY && a.velocityY == 0.0)
    && a.jumping == !a.grounded
    && 0 <= a.animFrame < 4
    && 0.0 <= a.animSpeed < 1.0
  }

  /** `jump()`: acts only on a grounded alien while the game runs. */
  function JumpNext(a: AlienState, running: bool): (r: AlienState)
    ensures !(a.grounded && running) ==> r == a
    ensures a.grounded && running ==>
      r == a.(velocityY := JumpStrength, jumping := true, grounded := false)
    ensures AlienInv(a) ==> AlienInv(r)
  {
    if a.grounded && running then
      a.(velocityY := JumpStrength, jumping := true, grounded := false)
    else a
  }

  /** Whether the ground clamp of `updateAlien` fires for this alien. */
  predicate Lands(a: AlienState) {
    a.y + (a.velocityY + Gravity) >= StandY
  }

  /**
   * `updateAlien()`: gravity is added to the velocity on every tick, even
   * for a grounded alien, and the velocity to y; an alien that reaches or
   * passes the ground line is put back on it, stopped and grounded.
   */
  function AlienNext(a: AlienState): (r: AlienState)
    ensures r.y <= StandY
    ensures Lands(a) ==>
      r.y == StandY && r.velocityY == 0.0 && !r.jumping && r.grounded
    ensures !Lands(a) ==>
      && r.velocityY == a.velocityY + Gravity
      && r.y == a.y + r.velocityY
      && r.jumping == a.jumping && r.grounded == a.grounded
    ensures r.animFrame == a.animFrame && r.animSpeed == a.animSpeed
    ensures AlienInv(a) ==> AlienInv(r)
  {
    var v := a.velocityY + Gravity;
    var y := a.y + v;
    if y >= StandY then
      a.(y := StandY, velocityY := 0.0, jumping := false, grounded := true)
    else
      a.(y := y, velocityY := v)
  }

  /** A grounded alien that does not jump stays where it is, at y = 300 with velocity 0. */
  lemma GroundedStays(a: AlienState)
    requires AlienInv(a) && a.grounded
    ensures AlienNext(a) == a
    ensures AlienNext(a).y == 300.0 && AlienNext(a).velocityY == 0.0
  {
  }

  /**
   * The leg-animation counter at the top of `drawAlien()`: while grounded and
   * running, `animSpeed` grows by 0.2 and every time it reaches 1 the frame
   * moves on (modulo 4) and `animSpeed` starts again from 0.
   */
  function AnimNext(a: AlienState, running: bool): (r: AlienState)
    ensures r.y == a.y && r.velocityY == a.velocityY
    ensures r.jumping == a.jumping && r.grounded == a.grounded
    ensures !(a.grounded && running) ==> r == a
    ensures a.grounded && running && 0 <= a.animFrame < 4 ==>
      0 <= r.animFrame < 4 &&
      (r.animFrame == a.animFrame || r.animFrame == (a.animFrame + 1) % 4)
    ensures r.animFrame != a.animFrame ==> r.animSpeed == 0.0
    ensures AlienInv(a) ==> AlienInv(r)
  {
    if a.grounded && running then
      var s := a.animSpeed + 0.2;
      if s >= 1.0 then a.(animFrame := (a.animFrame + 1) % 4, animSpeed := 0.0)
      else a.(animSpeed := s)
    else a
  }

  /** The alien after n frames of the leg counter in a running game. */
  function Animate(a: AlienState, n: nat): AlienState {
    if n == 0 then a else AnimNext(Animate(a, n - 1), true)
  }

  /**
   * The leg cycle of a standing alien: starting from `animSpeed` 0, the
   * counter grows by 0.2 per frame with the frame unchanged for four
   * frames, and on the fifth the frame moves on and the counter is back at 0.
   */
  lemma AnimCycle(a: AlienState)
    requires a.grounded && a.animSpeed == 0.0
    ensures forall n :: 1 <= n <= 4 ==> Animate(a, n) == a.(animSpeed := 0.2 * n as real)
    ensures Animate(a, 5) == a.(animFrame := (a.animFrame + 1) % 4)
  {
    assert Animate(a, 1) == a.(animSpeed := 0.2);
    assert Animate(a, 2) == a.(animSpeed := 0.4);
    assert Animate(a, 3) == a.(animSpeed := 0.6);
    assert Animate(a, 4) == a.(animSpeed := 0.8);
  }

  /** The alien after n calls of `updateAlien()` with no jump in between. */
  function Fall(a: AlienState, n: nat): AlienState {
    if n == 0 then a else AlienNext(Fall(a, n - 1))
  }

  /** Height and velocity t ticks into a jump from the ground, in closed form. */
  function ArcY(t: real): real { StandY - 13.0 * t + 0.3 * t * (t + 1.0) }
  function ArcVelocity(t: real): real { JumpStrength + Gravity * t }

  /**
   * The flight of a jump from the ground: k ticks after the jump the alien
   * has velocity -13 + 0.6k and is 13k - 0.3k(k+1) above the ground, and it
   * is still in the air for every k up to 42.
   */
  lemma {:induction false} JumpArc(a: AlienState, k: nat)
    requires AlienInv(a) && a.grounded
    requires k <= 42
    ensures Fall(JumpNext(a, true), k) ==
      a.(y := ArcY(k as real), velocityY := ArcVelocity(k as real), jumping := true, grounded := false)
  {
    if k > 0 {
      JumpArc(a, k - 1);
      var prev := Fall(JumpNext(a, true), k - 1);
      ArcStep((k - 1) as real, k as real);
      assert !Lands(prev);
    }
  }

  /**
   * One tick of the flight in closed form: from tick j to tick j + 1, still
   * strictly above the ground while j + 1 <= 42.
   */
  lemma ArcStep(j: real, t: real)
    requires 0.0 <= j && t == j + 1.0 && t <= 42.0
    ensures ArcVelocity(j) + Gravity == ArcVelocity(t)
    ensures ArcY(j) + ArcVelocity(t) == ArcY(t)
    ensures ArcY(t) < StandY
  {
    assert 0.3 * t * (t + 1.0) == 0.3 * j * (j + 1.0) + 0.6 * t;
    var lift := 0.3 * (t + 1.0) - 13.0;
    assert lift < 0.0;
    assert ArcY(t) - StandY == t * lift;
    assert t * lift < 0.0;
  }

  /** A jump from the ground keeps the alien in the air for 42 ticks; it lands on the 43rd. */
  lemma JumpLands(a: AlienState)
    requires AlienInv(a) && a.grounded
    ensures forall k :: 1 <= k <= 42 ==> !Fall(JumpNext(a, true), k).grounded
    ensures Fall(JumpNext(a, true), 43).grounded
    ensures Fall(JumpNext(a, true), 43).y == StandY
  {
    forall k | 1 <= k <= 42
      ensures !Fall(JumpNext(a, true), k).grounded
    {
      JumpArc(a, k);
    }
    JumpArc(a, 42);
  }
}
