/**
  The fleeing agents, Steve and the pig: each frame an agent proposes a move
  along its flee direction, turns back on every axis where that move would
  leave the map, and then makes the move with the corrected direction.
 */
module Agents {
  import opened Vectors

  const MapMin: real := -50.0
  const MapMax: real := 50.0
  /** Flee speed in units per second. */
  const FleeSpeed: real := 1.0

  predicate OnMap(c: real) {
    MapMin <= c <= MapMax
  }

  function Abs(a: real): real {
    if a < 0.0 then -a else a
  }

  /**
    Wall bounce: an axis of the direction is reversed exactly when the proposed
    coordinate on that axis lies off the map; the direction's magnitude on every
    axis is kept and its vertical part never changes.
   */
  function Bounce(proposed: Vec3, dir: Vec3): (r: Vec3)
    ensures r.x == (if OnMap(proposed.x) then dir.x else -dir.x)
    ensures r.z == (if OnMap(proposed.z) then dir.z else -dir.z)
    ensures r.y == dir.y
    ensures Abs(r.x) == Abs(dir.x) && Abs(r.z) == Abs(dir.z)
  {
    Vec3(if proposed.x < MapMin || proposed.x > MapMax then -dir.x else dir.x,
         dir.y,
         if proposed.z < MapMin || proposed.z > MapMax then -dir.z else dir.z)
  }

  datatype Motion = Motion(position: Vec3, dir: Vec3)

  /** One flee step from `pos` along `dir` over a frame of `dt` seconds. */
  function Flee(pos: Vec3, dir: Vec3, dt: real): (r: Motion)
    ensures Abs(r.dir.x) == Abs(dir.x) && Abs(r.dir.z) == Abs(dir.z) && r.dir.y == dir.y
    ensures r.position.y == pos.y + dir.y * (dt * FleeSpeed)
  {
    var proposed := Add(pos, Scale(dir, dt * FleeSpeed));
    var d := Bounce(proposed, dir);
    Motion(Add(pos, Scale(d, dt * FleeSpeed)), d)
  }

  /** A unit direction along the x axis, the form both agents start with. */
  predicate AxisAligned(d: Vec3) {
    (d.x == 1.0 || d.x == -1.0) && d.y == 0.0 && d.z == 0.0
  }

  /** An x-axis flee direction stays one, and the agent keeps its height and depth. */
  lemma FleeKeepsAxis(pos: Vec3, dir: Vec3, dt: real)
    requires AxisAligned(dir)
    ensures var r := Flee(pos, dir, dt);
            AxisAligned(r.dir) && r.position.y == pos.y && r.position.z == pos.z
  {
  }

  /** On one axis: from a coordinate on the map, a bounced step of at most 50 stays on the map. */
  lemma BounceAxisStaysOnMap(c: real, step: real)
    requires OnMap(c) && -50.0 <= step <= 50.0
    ensures OnMap(c + (if OnMap(c + step) then step else -step))
  {
  }

  /** The step a flee makes on one axis is at most 50 long when the direction's component times the frame time is. */
  lemma AxisStep(v: real, dt: real)
    requires 0.0 <= dt && Abs(v) * dt <= 50.0
    ensures -50.0 <= v * (dt * FleeSpeed) <= 50.0
  {
    if v < 0.0 {
      assert Abs(v) * dt == -(v * dt);
    }
  }

  /** Across the map a flee moves by the proposed step, or by its reverse when that step leaves the map. */
  lemma FleeAxisX(pos: Vec3, dir: Vec3, dt: real)
    ensures var s := dir.x * (dt * FleeSpeed);
            Flee(pos, dir, dt).position.x == pos.x + (if OnMap(pos.x + s) then s else -s)
  {
    var k := dt * FleeSpeed;
    assert (-dir.x) * k == -(dir.x * k);
  }

  /** In depth a flee moves by the proposed step, or by its reverse when that step leaves the map. */
  lemma FleeAxisZ(pos: Vec3, dir: Vec3, dt: real)
    ensures var s := dir.z * (dt * FleeSpeed);
            Flee(pos, dir, dt).position.z == pos.z + (if OnMap(pos.z + s) then s else -s)
  {
    var k := dt * FleeSpeed;
    assert (-dir.z) * k == -(dir.z * k);
  }

  /**
    An agent on the map stays on the map after a step, provided the frame is
    short enough that one step covers at most 50 units on each axis (with a unit
    direction: a frame of at most 50 seconds).
   */
  lemma FleeStaysOnMap(pos: Vec3, dir: Vec3, dt: real)
    requires OnMap(pos.x) && OnMap(pos.z) && 0.0 <= dt
    requires Abs(dir.x) * dt <= 50.0 && Abs(dir.z) * dt <= 50.0
    ensures var r := Flee(pos, dir, dt); OnMap(r.position.x) && OnMap(r.position.z)
  {
    FleeStaysOnMapX(pos, dir, dt);
    FleeStaysOnMapZ(pos, dir, dt);
  }

  lemma FleeStaysOnMapX(pos: Vec3, dir: Vec3, dt: real)
    requires OnMap(pos.x) && 0.0 <= dt && Abs(dir.x) * dt <= 50.0
    ensures OnMap(Flee(pos, dir, dt).position.x)
  {
    FleeAxisX(pos, dir, dt);
    AxisStep(dir.x, dt);
    BounceAxisStaysOnMap(pos.x, dir.x * (dt * FleeSpeed));
  }

  lemma FleeStaysOnMapZ(pos: Vec3, dir: Vec3, dt: real)
    requires OnMap(pos.z) && 0.0 <= dt && Abs(dir.z) * dt <= 50.0
    ensures OnMap(Flee(pos, dir, dt).position.z)
  {
    FleeAxisZ(pos, dir, dt);
    AxisStep(dir.z, dt);
    BounceAxisStaysOnMap(pos.z, dir.z * (dt * FleeSpeed));
  }

  /** For a unit x direction the bound is simply a frame of at most 50 seconds. */
  lemma FleeAxisStaysOnMap(pos: Vec3, dir: Vec3, dt: real)
    requires AxisAligned(dir) && OnMap(pos.x) && OnMap(pos.z) && 0.0 <= dt <= 50.0
    ensures var r := Flee(pos, dir, dt); OnMap(r.position.x) && OnMap(r.position.z)
  {
    assert Abs(dir.x) == 1.0 && Abs(dir.z) == 0.0;
    FleeStaysOnMap(pos, dir, dt);
  }

  /**
    The bound is needed: after a 60-second stall an agent at the centre
    heading along +x proposes x = 60, bounces, and lands at x = -60, off the map.
   */
  lemma LongFrameLeavesMap()
    ensures Flee(Zero, Vec3(1.0, 0.0, 0.0), 60.0).position.x == -60.0
    ensures !OnMap(Flee(Zero, Vec3(1.0, 0.0, 0.0), 60.0).position.x)
  {
  }
}
