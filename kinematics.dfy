/** The player: pose, speeds, the two intents, and the per-frame motion step with
    axis-decoupled wall sliding. */
module Kinematics {
  import opened Grid

  /** `Math.PI`, as the decimal JavaScript prints for it. */
  const PI: real := 3.141592653589793

  /** The square of half-width r at (x, y) is inside the window and touches no wall tile at
      either sampled corner. */
  predicate Free(m: Map, x: real, y: real, r: real)
  {
    m.HasWallAt(x, y, r) == Ok(false)
  }

  /** Where a tentative move from (x, y) to (newX, newY) ends: the X component is kept only if
      the square at (newX, y) is clear, then the Y component only if the square at the X just
      chosen and newY is clear. */
  function Slide(m: Map, x: real, y: real, r: real, newX: real, newY: real): (p: (real, real))
    requires m.WellFormed() && 0.0 < r <= MAX_SAFE_RADIUS
    ensures p.0 == x || p.0 == newX
    ensures p.1 == y || p.1 == newY
    ensures Free(m, x, y, r) ==> Free(m, p.0, p.1, r)
  {
    NeverThrows(m, newX, y, r);
    var x' := if m.HasWallAt(newX, y, r).value then x else newX;
    NeverThrows(m, x', newY, r);
    var y' := if m.HasWallAt(x', newY, r).value then y else newY;
    (x', y')
  }

  /** `p + c * (walk * speed)`: a coordinate moved by one step of `walk * speed` along a
      heading whose cosine or sine is `c`; standing still (walk 0) leaves it where it is. */
  function Advance(p: real, c: real, walk: int, speed: real): (q: real)
    ensures walk == 0 ==> q == p
  {
    p + c * (walk as real * speed)
  }

  class Player {
    var x: real
    var y: real
    var radius: real
    /** -1 turning left, +1 turning right, 0 not turning */
    var turnDirection: int
    /** -1 walking back, +1 walking forward, 0 standing */
    var walkDirection: int
    var rotationAngle: real
    var moveSpeed: real
    var rotationSpeed: real

    /** The radius is a positive collision half-width of at most half a tile, and both
        intents are -1, 0 or +1. */
    ghost predicate Valid()
      reads this
    {
      && 0.0 < radius <= MAX_SAFE_RADIUS
      && -1 <= turnDirection <= 1
      && -1 <= walkDirection <= 1
    }

    /** Starts in the middle of the window, facing down the screen, standing still. */
    constructor ()
      ensures Valid()
      ensures x == WINDOW_WIDTH as real / 2.0 && y == WINDOW_HEIGHT as real / 2.0
      ensures radius == 4.0
      ensures turnDirection == 0 && walkDirection == 0
      ensures rotationAngle == PI / 2.0
      ensures moveSpeed == 2.0 && rotationSpeed == 2.0 * (PI / 180.0)
    {
      x := WINDOW_WIDTH as real / 2.0;
      y := WINDOW_HEIGHT as real / 2.0;
      radius := 4.0;
      turnDirection := 0;
      walkDirection := 0;
      rotationAngle := PI / 2.0;
      moveSpeed := 2.0;
      rotationSpeed := 2.0 * (PI / 180.0);
    }

    /** One frame of motion: turn, then step along the new heading, committing each axis
        only where the collision oracle reports no wall. `cos` and `sin` stand for
        `Math.cos` and `Math.sin`. */
    method Update(m: Map, cos: real -> real, sin: real -> real)
      requires Valid() && m.WellFormed()
      modifies this
      ensures Valid()
      ensures rotationAngle == old(rotationAngle) + old(turnDirection) as real * old(rotationSpeed)
      ensures radius == old(radius) && moveSpeed == old(moveSpeed) && rotationSpeed == old(rotationSpeed)
      ensures turnDirection == old(turnDirection) && walkDirection == old(walkDirection)
      ensures var newX := Advance(old(x), cos(rotationAngle), walkDirection, moveSpeed);
              var newY := Advance(old(y), sin(rotationAngle), walkDirection, moveSpeed);
              && x == (if m.HasWallAt(newX, old(y), radius) == Ok(false) then newX else old(x))
              && y == (if m.HasWallAt(x, newY, radius) == Ok(false) then newY else old(y))
              && (x, y) == Slide(m, old(x), old(y), radius, newX, newY)
      ensures old(Free(m, x, y, radius)) ==> Free(m, x, y, radius)
      ensures walkDirection == 0 ==> x == old(x) && y == old(y)
    {
      rotationAngle := rotationAngle + turnDirection as real * rotationSpeed;

      var newX := Advance(x, cos(rotationAngle), walkDirection, moveSpeed);
      var newY := Advance(y, sin(rotationAngle), walkDirection, moveSpeed);

      var blockedX := m.HasWallAt(newX, y, radius);
      NeverThrows(m, newX, y, radius);
      if !blockedX.value {
        x := newX;
      }

      var blockedY := m.HasWallAt(x, newY, radius);
      NeverThrows(m, x, newY, radius);
      if !blockedY.value {
        y := newY;
      }
    }
  }

  /** The position after a run of frames. Frame k proposes the displacement `steps[k]` (its
      step along that frame's heading) and commits it through `Slide`. A player that starts
      clear is clear after every frame. */
  function Frames(m: Map, x: real, y: real, r: real, steps: seq<(real, real)>): (p: (real, real))
    requires m.WellFormed() && 0.0 < r <= MAX_SAFE_RADIUS
    ensures Free(m, x, y, r) ==> Free(m, p.0, p.1, r)
    decreases |steps|
  {
    if steps == [] then (x, y)
    else
      var q := Slide(m, x, y, r, x + steps[0].0, y + steps[0].1);
      Frames(m, q.0, q.1, r, steps[1..])
  }

  /** Frames whose steps are all zero leave the player where it is, clear or not. */
  lemma {:induction false} FramesStandingStill(m: Map, x: real, y: real, r: real, steps: seq<(real, real)>)
    requires m.WellFormed() && 0.0 < r <= MAX_SAFE_RADIUS
    requires forall k :: 0 <= k < |steps| ==> steps[k] == (0.0, 0.0)
    ensures Frames(m, x, y, r, steps) == (x, y)
    decreases |steps|
  {
    if steps != [] {
      assert Slide(m, x, y, r, x + steps[0].0, y + steps[0].1) == (x, y);
      FramesStandingStill(m, x, y, r, steps[1..]);
    }
  }

  /** Sliding along a wall: with the X component blocked and the Y component clear, the
      move keeps the old X and takes the new Y. */
  lemma SlideAlongWall(m: Map, x: real, y: real, r: real, newX: real, newY: real)
    requires m.WellFormed() && 0.0 < r <= MAX_SAFE_RADIUS
    requires m.HasWallAt(newX, y, r) == Ok(true)
    requires Free(m, x, newY, r)
    ensures Slide(m, x, y, r, newX, newY) == (x, newY)
  {
  }

  /** A free player moves nowhere else than to free positions: each committed axis was tested
      at exactly the position it commits to. */
  lemma SlideEndsFree(m: Map, x: real, y: real, r: real, newX: real, newY: real)
    requires m.WellFormed() && 0.0 < r <= MAX_SAFE_RADIUS
    requires Free(m, x, y, r)
    ensures var p := Slide(m, x, y, r, newX, newY);
            && !m.WallCovers(p.0 - r, p.1 - r)
            && !m.WallCovers(p.0 + r, p.1 + r)
            && !OutsideWindow(p.0, p.1, r)
  {
    var p := Slide(m, x, y, r, newX, newY);
    CornersDecide(m, p.0, p.1, r);
  }

  /** The starting pose of the player is clear on the constructed map. */
  lemma StartIsFree()
    ensures Free(NewMap(), WINDOW_WIDTH as real / 2.0, WINDOW_HEIGHT as real / 2.0, 4.0)
  {
    var m := NewMap();
    assert CellIndex(476.0) == 7 && CellIndex(484.0) == 7;
    assert CellIndex(348.0) == 5 && CellIndex(356.0) == 5;
    assert m.Read(5, 7) == Ok(Number(0));
  }

  /** On the constructed map, a player at (500, 360) just left of the wall block of row 5 who
      steps (+10, +20) is stopped in X by that block and still slides down in Y. */
  lemma SlidesAlongBlockOnNewMap()
    ensures Slide(NewMap(), 500.0, 360.0, 4.0, 510.0, 380.0) == (500.0, 380.0)
  {
    var m := NewMap();
    assert CellIndex(506.0) == 7 && CellIndex(514.0) == 8;
    assert CellIndex(356.0) == 5 && CellIndex(364.0) == 5;
    assert m.Read(5, 7) == Ok(Number(0)) && m.Read(5, 8) == Ok(Number(1));
    assert m.HasWallAt(510.0, 360.0, 4.0) == Ok(true);
    assert CellIndex(496.0) == 7 && CellIndex(504.0) == 7;
    assert CellIndex(376.0) == 5 && CellIndex(384.0) == 6;
    assert m.Read(6, 7) == Ok(Number(0));
    assert m.HasWallAt(500.0, 380.0, 4.0) == Ok(false);
  }
}
