/** The frames-per-second estimator: exponential smoothing with weight 0.1
    on the newest instantaneous rate 1 / dt. */
module Rate {

  /** One update of fps from the time dt since the previous frame. A
      non-positive dt leaves fps alone; a zero fps (falsy in Python) is
      replaced by 1 / dt outright; otherwise fps moves a tenth of the way
      toward 1 / dt. */
  function NextFps(fps: real, dt: real): (r: real)
    ensures dt <= 0.0 ==> r == fps
    ensures 0.0 < dt && fps == 0.0 ==> r * dt == 1.0
    ensures 0.0 < dt && fps != 0.0 ==> r - 1.0 / dt == 0.9 * (fps - 1.0 / dt)
  {
    if 0.0 < dt then
      if fps != 0.0 then 0.9 * fps + 0.1 * (1.0 / dt) else 1.0 / dt
    else fps
  }

  /** The rate of a steady stream of frames is a fixed point. */
  lemma NextFpsFixedPoint(dt: real)
    requires 0.0 < dt
    ensures NextFps(1.0 / dt, dt) == 1.0 / dt
  {
    assert 1.0 / dt != 0.0;
  }

  /** A positive estimate stays positive and between its old value and the
      newest instantaneous rate. */
  lemma NextFpsBetween(fps: real, dt: real)
    requires 0.0 < dt && 0.0 < fps
    ensures 0.0 < NextFps(fps, dt)
    ensures fps <= 1.0 / dt ==> fps <= NextFps(fps, dt) <= 1.0 / dt
    ensures 1.0 / dt <= fps ==> 1.0 / dt <= NextFps(fps, dt) <= fps
  {
    assert 0.0 < 1.0 / dt;
  }

  /** fps after k frames that are each dt apart. */
  function Iterate(fps: real, dt: real, k: nat): real
    decreases k
  {
    if k == 0 then fps else Iterate(NextFps(fps, dt), dt, k - 1)
  }

  function Pow(b: real, k: nat): real
  {
    if k == 0 then 1.0 else b * Pow(b, k - 1)
  }

  /** Starting from a positive estimate, the distance to the steady rate
      shrinks by a factor 0.9 per frame. */
  lemma {:induction false} IterateConverges(fps: real, dt: real, k: nat)
    requires 0.0 < dt && 0.0 < fps
    ensures Iterate(fps, dt, k) - 1.0 / dt == Pow(0.9, k) * (fps - 1.0 / dt)
    decreases k
  {
    if k > 0 {
      var next := NextFps(fps, dt);
      NextFpsBetween(fps, dt);
      IterateConverges(next, dt, k - 1);
      var e := fps - 1.0 / dt;
      assert Iterate(fps, dt, k) - 1.0 / dt == Pow(0.9, k - 1) * (0.9 * e);
      assert Pow(0.9, k - 1) * (0.9 * e) == (0.9 * Pow(0.9, k - 1)) * e;
    }
  }

  /** From the initial fps of 0, a steady stream of frames dt apart reads
      exactly 1 / dt after the first frame and stays there. */
  lemma {:induction false} IterateFromZero(dt: real, k: nat)
    requires 0.0 < dt && 1 <= k
    ensures Iterate(0.0, dt, k) == 1.0 / dt
  {
    assert NextFps(0.0, dt) == 1.0 / dt;
    IterateFixedPoint(dt, k - 1);
  }

  lemma {:induction false} IterateFixedPoint(dt: real, k: nat)
    requires 0.0 < dt
    ensures Iterate(1.0 / dt, dt, k) == 1.0 / dt
  {
    if k > 0 {
      NextFpsFixedPoint(dt);
      IterateFixedPoint(dt, k - 1);
    }
  }
}
