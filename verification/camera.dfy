/**
  The keyboard-driven camera: yaw and pitch turned at a fixed angular speed
  while keys are held, pitch held within 89 degrees of the horizon, the view
  direction derived from the two angles, and the follow camera placed behind
  and above the Creeper.
 */
module Camera {
  import opened Vectors
  import Agents

  /** Angular speed of the turn keys, in radians per second (180 degrees). */
  const Sensitivity: real := Radians(180.0)
  /** The pitch limit in radians (89 degrees). */
  const MaxPitch: real := Radians(89.0)

  /** Distance of the follow camera behind and height above its target. */
  const FollowBack: real := 5.0
  const FollowUp: real := 3.0

  datatype Look = Look(yaw: real, pitch: real)

  function Count(pressed: bool): real {
    if pressed then 1.0 else 0.0
  }

  /**
    One frame of turning. W raises the pitch and then stops it at the upper
    limit, S lowers it and then stops it at the lower limit, A and D turn the
    yaw left and right without any limit.
   */
  function Turn(l: Look, dt: real, w: bool, s: bool, a: bool, d: bool): (r: Look)
    ensures r.yaw == l.yaw + (Count(d) - Count(a)) * Sensitivity * dt
    ensures -MaxPitch <= l.pitch <= MaxPitch && 0.0 <= dt ==> -MaxPitch <= r.pitch <= MaxPitch
    ensures !w && !s ==> r.pitch == l.pitch
  {
    var p1 := if w then (if l.pitch + Sensitivity * dt > MaxPitch then MaxPitch else l.pitch + Sensitivity * dt)
              else l.pitch;
    var p2 := if s then (if p1 - Sensitivity * dt < -MaxPitch then -MaxPitch else p1 - Sensitivity * dt)
              else p1;
    var y1 := if a then l.yaw - Sensitivity * dt else l.yaw;
    var y2 := if d then y1 + Sensitivity * dt else y1;
    Look(y2, p2)
  }

  function Min(a: real, b: real): real {
    if a <= b then a else b
  }

  function Max(a: real, b: real): real {
    if a <= b then b else a
  }

  /**
    With a single pitch key held, the pitch moves by exactly the key's angular
    step unless that would pass the limit, in which case it stops on the limit.
   */
  lemma TurnPitchOneKey(l: Look, dt: real, w: bool, s: bool, a: bool, d: bool)
    requires w != s
    ensures w ==> Turn(l, dt, w, s, a, d).pitch == Min(l.pitch + Sensitivity * dt, MaxPitch)
    ensures s ==> Turn(l, dt, w, s, a, d).pitch == Max(l.pitch - Sensitivity * dt, -MaxPitch)
  {
  }

  /** The Pythagorean identity of the cosine and sine at one angle. */
  ghost predicate Unit(m: Math, a: real) {
    m.cos(a) * m.cos(a) + m.sin(a) * m.sin(a) == 1.0
  }

  /**
    The view direction for a yaw and pitch, before normalisation. Whenever the
    cosine and sine are a unit pair at both angles, its horizontal part has the
    pitch's cosine as length and the whole vector already has unit length.
   */
  function Direction(m: Math, yaw: real, pitch: real): (r: Vec3)
    ensures Unit(m, yaw) ==> SqLength(Flatten(r)) == m.cos(pitch) * m.cos(pitch)
    ensures Unit(m, yaw) && Unit(m, pitch) ==> SqLength(r) == 1.0
  {
    var r := Vec3(m.cos(yaw) * m.cos(pitch), m.sin(pitch), m.sin(yaw) * m.cos(pitch));
    DirectionLength(m.cos(yaw), m.sin(yaw), m.cos(pitch), m.sin(pitch));
    r
  }

  lemma DirectionLength(cy: real, sy: real, cp: real, sp: real)
    ensures (cy * cp) * (cy * cp) + (sy * cp) * (sy * cp) == (cy * cy + sy * sy) * (cp * cp)
  {
    calc {
      (cy * cp) * (cy * cp) + (sy * cp) * (sy * cp);
      (cy * cy) * (cp * cp) + (sy * sy) * (cp * cp);
      (cy * cy + sy * sy) * (cp * cp);
    }
  }

  /**
    The follow camera: behind the target along the view direction flattened
    onto the ground, and above it. Whatever the view direction, the camera sits
    exactly FollowUp above the target.
   */
  function FollowPosition(m: Math, target: Vec3, front: Vec3): (p: Vec3)
    ensures KeepsFlat(m) ==> p.y == target.y + FollowUp
  {
    var horizontalFront := m.normalize(Flatten(front));
    Add(target, Add(Scale(Neg(horizontalFront), FollowBack), Vec3(0.0, FollowUp, 0.0)))
  }

  // The initial heading.

  /** The yaw the program starts from, written in degrees but used as radians. */
  const InitialYawAsWritten: real := -90.0
  /** The intended start: a quarter turn, facing the -Z axis. */
  const InitialYaw: real := Radians(-90.0)

  /**
    Read as radians, the written start yaw stays at least 0.46 radians (about
    26 degrees) away from a quarter turn plus any number of full turns, so it
    misses the -Z axis by far more than any rounding of the angle could.
   */
  lemma AsWrittenYawNotQuarterTurn(k: int)
    ensures Agents.Abs(InitialYawAsWritten - (InitialYaw + k as real * Radians(360.0))) >= 0.46
  {
    var turn := Radians(360.0);
    assert 6.28 < turn < 6.29;
    if k >= -14 {
      assert k as real * turn >= -14.0 * turn by {
        assert (k as real + 14.0) * turn >= 0.0;
      }
    } else {
      assert k as real * turn <= -15.0 * turn by {
        assert (-15.0 - k as real) * turn >= 0.0;
      }
    }
  }

  /**
    Started from the intended yaw and a level pitch, the camera looks straight
    down the -Z axis for any cosine and sine that take the exact values of a
    quarter turn at the yaw and of zero at the pitch.
    This is an idealisation: `InitialYaw` is -90 times a rounded degree factor,
    so the true cosine there is close to 0 but not exactly 0.
   */
  lemma InitialYawFacesMinusZ(m: Math)
    requires m.cos(InitialYaw) == 0.0 && m.sin(InitialYaw) == -1.0
    requires m.cos(0.0) == 1.0 && m.sin(0.0) == 0.0
    ensures Direction(m, InitialYaw, 0.0) == Vec3(0.0, 0.0, -1.0)
  {
  }
}
