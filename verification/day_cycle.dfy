/**
  The day/night cycle: a time-of-day accumulator that wraps after three
  30-second phases, the ambient colour it drives, and the sun's sweep across
  the sky.
 */
module DayCycle {
  import opened Vectors

  const PhaseLength: real := 30.0
  const CycleLength: real := 90.0

  const White := Vec3(1.0, 1.0, 1.0)
  const Dusk := Vec3(1.0, 0.6, 0.2)
  const Night := Vec3(0.05, 0.05, 0.1)

  datatype DayState = DayState(time: real, ambient: Vec3)

  /**
    One frame of the cycle: the time advances by `dt`; inside a phase the
    ambient colour is blended from the phase's start colour to its end colour;
    once the time reaches the cycle's length it restarts at zero and the colour
    is left as it was.
   */
  function Advance(s: DayState, dt: real): (r: DayState)
    ensures r.time < CycleLength
    ensures 0.0 <= s.time + dt ==> 0.0 <= r.time
    ensures s.time + dt < CycleLength ==> r.time == s.time + dt
    ensures s.time + dt >= CycleLength ==> r == DayState(0.0, s.ambient)
  {
    var t := s.time + dt;
    if t < 30.0 then
      DayState(t, Mix(White, Dusk, t / 30.0))
    else if t < 60.0 then
      DayState(t, Mix(Dusk, Night, (t - 30.0) / 30.0))
    else if t < 90.0 then
      DayState(t, Mix(Night, White, (t - 60.0) / 30.0))
    else
      DayState(0.0, s.ambient)
  }

  /** The colours at the phase boundaries, in order; the cycle ends where it began. */
  function Keyframe(k: int): Vec3
    requires 0 <= k <= 3
  {
    [White, Dusk, Night, White][k]
  }

  /**
    Reference definition of the ambient colour at a time of day: the linear
    interpolation between the keyframes that bracket it.
   */
  function AmbientAt(t: real): Vec3
    requires 0.0 <= t < CycleLength
  {
    var phase := (t / PhaseLength).Floor;
    assert 0 <= phase <= 2 by {
      assert 0.0 <= t / PhaseLength < 3.0;
    }
    Mix(Keyframe(phase), Keyframe(phase + 1), t / PhaseLength - phase as real)
  }

  /** Whether each component of a colour lies between the darkest and brightest keyframe. */
  predicate InGamut(c: Vec3) {
    0.05 <= c.x <= 1.0 && 0.05 <= c.y <= 1.0 && 0.05 <= c.z <= 1.0
  }

  lemma MixInGamut(a: Vec3, b: Vec3, t: real)
    requires InGamut(a) && InGamut(b) && 0.0 <= t <= 1.0
    ensures InGamut(Mix(a, b, t))
  {
    MixBetween(a.x, b.x, t);
    MixBetween(a.y, b.y, t);
    MixBetween(a.z, b.z, t);
  }

  lemma MixBetween(a: real, b: real, t: real)
    requires 0.05 <= a <= 1.0 && 0.05 <= b <= 1.0 && 0.0 <= t <= 1.0
    ensures 0.05 <= Lerp(a, b, t) <= 1.0
  {
    assert Lerp(a, b, t) == a * (1.0 - t) + b * t;
    if a <= b {
      ScaleDown(b - a, t);
      var d := (b - a) * t;
      assert 0.0 <= d <= b - a;
      assert a * (1.0 - t) + b * t == a + d;
    } else {
      ScaleDown(a - b, t);
      var d := (a - b) * t;
      assert 0.0 <= d <= a - b;
      assert a * (1.0 - t) + b * t == a - d;
    }
  }

  lemma ScaleDown(c: real, t: real)
    requires 0.0 <= c && 0.0 <= t <= 1.0
    ensures 0.0 <= c * t <= c
  {
    assert c - c * t == c * (1.0 - t);
  }

  /**
    The colour the frame step computes is the keyframe interpolation at the
    new time of day, whenever the cycle did not wrap.
   */
  lemma AdvanceFollowsKeyframes(s: DayState, dt: real)
    requires 0.0 <= s.time + dt < CycleLength
    ensures Advance(s, dt).ambient == AmbientAt(s.time + dt)
  {
    var t := s.time + dt;
    if t < 30.0 {
      assert (t / PhaseLength).Floor == 0;
    } else if t < 60.0 {
      assert (t / PhaseLength).Floor == 1 by {
        assert 1.0 <= t / PhaseLength < 2.0;
      }
      assert t / PhaseLength - 1.0 == (t - 30.0) / 30.0;
    } else {
      assert (t / PhaseLength).Floor == 2 by {
        assert 2.0 <= t / PhaseLength < 3.0;
      }
      assert t / PhaseLength - 2.0 == (t - 60.0) / 30.0;
    }
  }

  /** The cycle starts white and passes exactly through dusk and night at the phase boundaries. */
  lemma AmbientAtBoundaries()
    ensures AmbientAt(0.0) == White
    ensures AmbientAt(30.0) == Dusk
    ensures AmbientAt(60.0) == Night
  {
    assert (0.0 / PhaseLength).Floor == 0;
    assert (30.0 / PhaseLength).Floor == 1;
    assert (60.0 / PhaseLength).Floor == 2;
  }

  /** Each phase is the straight blend from its start keyframe to the next one. */
  lemma AmbientAtIsLinear(k: int, u: real)
    requires 0 <= k <= 2 && 0.0 <= u < 1.0
    ensures AmbientAt(PhaseLength * (k as real + u)) == Mix(Keyframe(k), Keyframe(k + 1), u)
  {
    var t := PhaseLength * (k as real + u);
    assert t / PhaseLength == k as real + u;
    assert (t / PhaseLength).Floor == k;
  }

  /** Every colour of the cycle stays within the keyframes' gamut. */
  lemma AmbientAtInGamut(t: real)
    requires 0.0 <= t < CycleLength
    ensures InGamut(AmbientAt(t))
  {
    var phase := (t / PhaseLength).Floor;
    assert 0 <= phase <= 2 by {
      assert 0.0 <= t / PhaseLength < 3.0;
    }
    MixInGamut(Keyframe(phase), Keyframe(phase + 1), t / PhaseLength - phase as real);
  }

  /**
    The cycle's invariant: for a non-negative frame time, a time in [0, 90)
    and an in-gamut colour stay so.
   */
  lemma AdvanceKeepsCycle(s: DayState, dt: real)
    requires 0.0 <= s.time < CycleLength && InGamut(s.ambient) && 0.0 <= dt
    ensures var r := Advance(s, dt); 0.0 <= r.time < CycleLength && InGamut(r.ambient)
  {
    if s.time + dt < CycleLength {
      AdvanceFollowsKeyframes(s, dt);
      AmbientAtInGamut(s.time + dt);
    }
  }

  // The sun.

  const SunHeight: real := 40.0
  const SunDepth: real := -20.0
  const SunParkedX: real := 1000.0

  /**
    The sun's horizontal position: it starts at x = -30 and moves one unit per
    second until it passes x = 30, after which it is parked far away at 1000.
   */
  function SunX(t: real): (x: real)
    ensures t <= 60.0 ==> x == t - 30.0
    ensures t > 60.0 ==> x == SunParkedX
  {
    var x := -30.0 + (t / 60.0) * 60.0;
    if x > 30.0 then SunParkedX else x
  }

  function SunPosition(t: real): Vec3 {
    Vec3(SunX(t), SunHeight, SunDepth)
  }

  /** Over one cycle the sun is in the sky, between -30 and 30, exactly during the first 60 seconds. */
  lemma SunVisibleFirstTwoPhases(t: real)
    requires 0.0 <= t < CycleLength
    ensures -30.0 <= SunX(t) <= 30.0 <==> t <= 60.0
  {
  }
}
