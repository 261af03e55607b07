/**
 * The snap controller of the scroll widget as an explicit tick-driven state
 * machine. A snap session waits until the horizontal scroll speed is at most
 * the snap threshold, then stops the scroll's own motion and interpolates the
 * content's x-position from where it is towards the position that centres
 * the selected item, one step per frame, for a fixed duration.
 * Only the x component is modelled: the offset added to the content is
 * (difference, 0, 0).
 */
module Snapping {
  import opened Wrappers
  import opened Numeric

  /** The snap session: none, waiting on the speed, or running the timed loop. */
  datatype Session =
    | Idle
    | Waiting
    | Animating(start: real, target: real, timer: real, duration: real)

  /** What one tick asks of the host. */
  datatype HostEffect =
    | StopMovement        // the scroll's velocity is zeroed
    | MoveContent(x: real) // the content's x-position is overwritten
    | NullReference       // the target was computed from a missing selection: the session dies

  function Clamp01(t: real): (r: real)
    ensures 0.0 <= r <= 1.0
    ensures 0.0 <= t <= 1.0 ==> r == t
    ensures t < 0.0 ==> r == 0.0
    ensures t > 1.0 ==> r == 1.0
  {
    if t < 0.0 then 0.0 else if t > 1.0 then 1.0 else t
  }

  /** Linear interpolation whose parameter is clamped to [0, 1], as the engine's Lerp does. */
  function Lerp(a: real, b: real, t: real): real {
    a + (b - a) * Clamp01(t)
  }

  /** What every reachable session satisfies: a running loop has a non-negative timer and a positive duration. */
  ghost predicate SessionOk(s: Session) {
    s.Animating? ==> 0.0 <= s.timer && 0.0 < s.duration
  }

  /**
   * One pass of the animation loop: while the timer is below the duration,
   * write the interpolated position and advance the timer by this frame's dt;
   * otherwise the session ends without a write.
   */
  function Animate(s: Session, dt: real): (r: (Session, seq<HostEffect>))
    requires s.Animating? && 0.0 <= s.timer && dt >= 0.0
    ensures SessionOk(r.0)
    ensures r.1 == [] <==> s.timer >= s.duration
    ensures r.1 == [] ==> r.0 == Idle
    ensures r.1 != [] ==>
      r.0 == Animating(s.start, s.target, s.timer + dt, s.duration) &&
      |r.1| == 1 && r.1[0].MoveContent? &&
      exists t :: 0.0 <= t < 1.0 && r.1[0].x == Lerp(s.start, s.target, t) && t == s.timer / s.duration
  {
    if s.timer < s.duration then
      (s.(timer := s.timer + dt), [MoveContent(Lerp(s.start, s.target, s.timer / s.duration))])
    else
      (Idle, [])
  }

  /**
   * One frame of the snap session. velocityX is the scroll's horizontal speed
   * this frame, contentX the content's x-position, and difference the distance
   * from the selected item to the viewport centre (None when nothing is
   * selected). snapSpeed is read as the duration on entry to the animation.
   */
  function SnapTick(s: Session, dt: real, velocityX: real, minSpeedToSnap: real, snapSpeed: real,
                    contentX: real, difference: Option<real>): (r: (Session, seq<HostEffect>))
    requires SessionOk(s) && dt >= 0.0
    ensures SessionOk(r.0)
    ensures s.Idle? ==> r == (Idle, [])
    ensures s.Waiting? && Abs(velocityX) > minSpeedToSnap ==> r == (Waiting, [])
    ensures s.Waiting? && Abs(velocityX) <= minSpeedToSnap ==> |r.1| > 0 && r.1[0] == StopMovement
    ensures s.Waiting? && Abs(velocityX) <= minSpeedToSnap && difference.None? ==>
      r == (Idle, [StopMovement, NullReference])
    ensures s.Waiting? && Abs(velocityX) <= minSpeedToSnap && difference.Some? && snapSpeed <= 0.0 ==>
      r == (Idle, [StopMovement])
    ensures s.Waiting? && Abs(velocityX) <= minSpeedToSnap && difference.Some? && snapSpeed > 0.0 ==>
      r == (Animating(contentX, contentX + difference.value, dt, snapSpeed), [StopMovement, MoveContent(contentX)])
    ensures s.Animating? ==> r.0.Idle? || (r.0.Animating? && r.0.start == s.start && r.0.target == s.target && r.0.duration == s.duration)
    ensures forall i :: 0 <= i < |r.1| && r.1[i].MoveContent? ==>
      r.0.Animating? && exists t :: 0.0 <= t < 1.0 && r.1[i].x == Lerp(r.0.start, r.0.target, t)
  {
    match s
    case Idle => (Idle, [])
    case Waiting =>
      if Abs(velocityX) > minSpeedToSnap then (Waiting, [])
      else if difference.None? then (Idle, [StopMovement, NullReference])
      else
        var a := Animate(Animating(contentX, contentX + difference.value, 0.0, snapSpeed), dt);
        assert a.1 == [] ==> [StopMovement] + a.1 == [StopMovement];
        assert snapSpeed > 0.0 ==> Lerp(contentX, contentX + difference.value, 0.0 / snapSpeed) == contentX;
        assert snapSpeed > 0.0 ==> a.1 == [MoveContent(contentX)] && [StopMovement] + a.1 == [StopMovement, MoveContent(contentX)];
        (a.0, [StopMovement] + a.1)
    case Animating(_, _, _, _) => Animate(s, dt)
  }

  /** Multiplying by a non-negative factor keeps an order. */
  lemma MulMonotone(x: real, y: real, z: real)
    requires x >= 0.0 && y <= z
    ensures x * y <= x * z
  {
  }

  /** Multiplying by a positive factor keeps a strict order. */
  lemma MulStrict(x: real, y: real, z: real)
    requires x > 0.0 && y < z
    ensures x * y < x * z
  {
  }

  /**
   * A parameter below 1 stops short of the target: the written position lies
   * strictly between start and target, on the start side, unless the two agree.
   */
  lemma LerpBeforeTarget(a: real, b: real, t: real)
    requires 0.0 <= t < 1.0
    ensures a < b ==> Lerp(a, b, t) < b
    ensures b < a ==> Lerp(a, b, t) > b
  {
    var d := b - a;
    assert Lerp(a, b, t) == a + d * t;
    if d > 0.0 {
      MulStrict(d, t, 1.0);
      assert d * t < d;
    } else if d < 0.0 {
      MulStrict(-d, t, 1.0);
      assert (-d) * t < -d;
    }
  }

  /** The clamped interpolation sits at start for parameters up to 0 and at target from 1 on. */
  lemma LerpEndpoints(a: real, b: real, t: real)
    ensures t <= 0.0 ==> Lerp(a, b, t) == a
    ensures t >= 1.0 ==> Lerp(a, b, t) == b
  {
    if t >= 1.0 {
      assert Clamp01(t) == 1.0;
    }
  }

  /** A larger parameter moves the written position further from start, towards target, never past it. */
  lemma LerpMonotone(a: real, b: real, t1: real, t2: real)
    requires 0.0 <= t1 <= t2 <= 1.0
    ensures a <= b ==> a <= Lerp(a, b, t1) <= Lerp(a, b, t2) <= b
    ensures b <= a ==> b <= Lerp(a, b, t2) <= Lerp(a, b, t1) <= a
  {
    var d := b - a;
    var u1, u2 := Clamp01(t1), Clamp01(t2);
    assert u1 == t1 && u2 == t2;
    assert Lerp(a, b, t1) == a + d * t1;
    assert Lerp(a, b, t2) == a + d * t2;
    if d >= 0.0 {
      MulMonotone(d, 0.0, t1);
      MulMonotone(d, t1, t2);
      MulMonotone(d, t2, 1.0);
      assert 0.0 <= d * t1 <= d * t2 <= d;
    } else {
      MulMonotone(-d, 0.0, t1);
      MulMonotone(-d, t1, t2);
      MulMonotone(-d, t2, 1.0);
      assert 0.0 <= (-d) * t1 <= (-d) * t2 <= -d;
    }
  }

  /**
   * The positions written by a running session over n frames that all take
   * dt, and the session afterwards.
   */
  function Run(s: Session, dt: real, n: nat): (r: (Session, seq<real>))
    requires s.Animating? ==> 0.0 <= s.timer
    requires dt >= 0.0
    ensures |r.1| <= n
    decreases n
  {
    if n == 0 || !s.Animating? then (s, [])
    else
      var a := Animate(s, dt);
      var rest := Run(a.0, dt, n - 1);
      (rest.0, (if a.1 == [] then [] else [a.1[0].x]) + rest.1)
  }

  /**
   * With every frame taking the same positive dt, a running session whose
   * remaining time duration - timer is covered by n frames ends within n + 1
   * frames, after at most n writes.
   */
  lemma {:induction false} AnimationTerminates(s: Session, dt: real, n: nat)
    requires s.Animating? && 0.0 <= s.timer && dt > 0.0
    requires n as real * dt >= s.duration - s.timer
    ensures Run(s, dt, n + 1).0 == Idle
    ensures |Run(s, dt, n + 1).1| <= n
    decreases n
  {
    var a := Animate(s, dt);
    if s.timer >= s.duration {
      assert a.0 == Idle;
      assert Run(a.0, dt, n) == (Idle, []);
    } else {
      assert n > 0;
      assert (n - 1) as real * dt == n as real * dt - dt;
      AnimationTerminates(a.0, dt, n - 1);
    }
  }

  /** Every running session ends after finitely many frames of a fixed positive dt. */
  lemma AnimationEnds(s: Session, dt: real)
    requires s.Animating? && 0.0 <= s.timer && dt > 0.0
    ensures exists n: nat :: Run(s, dt, n).0 == Idle
  {
    var r := s.duration - s.timer;
    var n: nat := if r <= 0.0 then 0 else (r / dt).Floor + 1;
    if r > 0.0 {
      var q := r / dt;
      assert q * dt == r;
      assert n as real > q;
      MulStrict(dt, q, n as real);
    }
    AnimationTerminates(s, dt, n);
  }

  /** A timer below a positive duration gives an interpolation parameter in [0, 1). */
  lemma ParamInUnit(timer: real, duration: real)
    requires 0.0 <= timer < duration
    ensures 0.0 <= timer / duration < 1.0
  {
  }

  /** The timer of a session after k more frames of dt. */
  function Elapsed(timer: real, dt: real, k: nat): real {
    timer + k as real * dt
  }

  /** The timer after k frames of dt, seen from one frame later. */
  lemma ElapsedShift(timer: real, dt: real, k: nat)
    requires k > 0
    ensures Elapsed(timer + dt, dt, k - 1) == Elapsed(timer, dt, k)
  {
  }

  /** A running session with time left writes the current interpolation, then runs on. */
  lemma RunUnfold(s: Session, dt: real, n: nat)
    requires s.Animating? && 0.0 <= s.timer && s.timer < s.duration && dt >= 0.0 && n > 0
    ensures Run(s, dt, n).1 == [Lerp(s.start, s.target, s.timer / s.duration)] + Run(s.(timer := s.timer + dt), dt, n - 1).1
  {
  }

  /**
   * The k-th position a running session writes is the interpolation at the
   * timer after k frames, which is still below the duration: the parameter
   * lies in [0, 1), so positions are written in time order and the parameter
   * never reaches 1.
   */
  lemma {:induction false} RunInterpolates(s: Session, dt: real, n: nat)
    requires s.Animating? && 0.0 <= s.timer && dt >= 0.0
    ensures var w := Run(s, dt, n).1;
      forall k :: 0 <= k < |w| ==>
        0.0 <= Elapsed(s.timer, dt, k) < s.duration &&
        w[k] == Lerp(s.start, s.target, Elapsed(s.timer, dt, k) / s.duration)
    decreases n
  {
    var w := Run(s, dt, n).1;
    if n > 0 && s.timer < s.duration {
      var s' := s.(timer := s.timer + dt);
      RunInterpolates(s', dt, n - 1);
      var rest := Run(s', dt, n - 1).1;
      RunUnfold(s, dt, n);
      forall k | 0 <= k < |w|
        ensures 0.0 <= Elapsed(s.timer, dt, k) < s.duration
        ensures w[k] == Lerp(s.start, s.target, Elapsed(s.timer, dt, k) / s.duration)
      {
        if k == 0 {
          assert Elapsed(s.timer, dt, 0) == s.timer;
        } else {
          assert w[k] == rest[k - 1];
          ElapsedShift(s.timer, dt, k);
        }
      }
    } else if n > 0 {
      assert Animate(s, dt) == (Idle, []);
      assert Run(Idle, dt, n - 1) == (Idle, []);
    }
  }

  /** A later frame has a later timer. */
  lemma ElapsedMonotone(timer: real, dt: real, i: nat, j: nat)
    requires dt >= 0.0 && i <= j
    ensures Elapsed(timer, dt, i) <= Elapsed(timer, dt, j)
  {
    MulMonotone(dt, i as real, j as real);
  }

  /** Two timers below the duration, in order, give parameters in [0, 1) in the same order. */
  lemma ParamOrder(x: real, y: real, duration: real)
    requires 0.0 <= x <= y < duration
    ensures 0.0 <= x / duration <= y / duration < 1.0
  {
    ParamInUnit(x, duration);
    ParamInUnit(y, duration);
    assert x / duration <= y / duration by {
      MulMonotone(1.0 / duration, x, y);
    }
  }

  /**
   * The positions a running session writes move steadily from start towards
   * target: every later write is at least as far along as an earlier one and
   * none passes the target.
   */
  lemma RunMonotone(s: Session, dt: real, n: nat, i: nat, j: nat)
    requires s.Animating? && 0.0 <= s.timer && dt >= 0.0
    requires i <= j < |Run(s, dt, n).1|
    ensures var w := Run(s, dt, n).1;
      s.start <= s.target ==> s.start <= w[i] <= w[j] <= s.target
    ensures var w := Run(s, dt, n).1;
      s.target <= s.start ==> s.target <= w[j] <= w[i] <= s.start
  {
    var w := Run(s, dt, n).1;
    RunInterpolates(s, dt, n);
    var ei, ej := Elapsed(s.timer, dt, i), Elapsed(s.timer, dt, j);
    var pi, pj := ei / s.duration, ej / s.duration;
    assert 0.0 <= ei < s.duration && w[i] == Lerp(s.start, s.target, pi);
    assert 0.0 <= ej < s.duration && w[j] == Lerp(s.start, s.target, pj);
    ElapsedMonotone(s.timer, dt, i, j);
    ParamOrder(ei, ej, s.duration);
    LerpMonotone(s.start, s.target, pi, pj);
  }

  /**
   * Speeds 200, 150, 90 against a threshold of 100: the session waits for two
   * frames and enters the animation on the third (90 is already at most 100),
   * stopping the scroll and writing the start position.
   */
  lemma WaitScenario()
    ensures SnapTick(Waiting, 0.05, 200.0, 100.0, 0.1, 0.0, Some(30.0)) == (Waiting, [])
    ensures SnapTick(Waiting, 0.05, 150.0, 100.0, 0.1, 0.0, Some(30.0)) == (Waiting, [])
    ensures SnapTick(Waiting, 0.05, 90.0, 100.0, 0.1, 0.0, Some(30.0)) ==
      (Animating(0.0, 30.0, 0.05, 0.1), [StopMovement, MoveContent(0.0)])
  {
    assert Abs(200.0) > 100.0;
    assert Abs(150.0) > 100.0;
    assert Abs(90.0) <= 100.0;
  }

  /**
   * Snap duration 0.1 with frames of 0.05, from the state the entry frame
   * leaves: the next frame writes the halfway point and the one after ends
   * the session without a write.
   */
  lemma AnimateScenario()
    ensures var a := Animate(Animating(0.0, 30.0, 0.05, 0.1), 0.05);
      a == (Animating(0.0, 30.0, 0.1, 0.1), [MoveContent(15.0)]) &&
      Animate(a.0, 0.05) == (Idle, [])
  {
    assert Lerp(0.0, 30.0, 0.05 / 0.1) == 15.0;
  }
}
