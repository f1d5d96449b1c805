/** The acquisition loop: read a frame (retrying on a transient read error),
    update the frame-rate estimate, render the frame and summarise it. */
module Acquisition {
  import opened Config
  import opened Palette
  import opened Render
  import opened FrameStats
  import opened Rate

  /** The outcome of one getFrame call: a ValueError, or a full frame of readings. */
  datatype Read = ReadError | ReadFrame(vals: seq<real>)

  /** One loop iteration's inputs: the monotonic clock at its start and the read. */
  datatype Event = Event(t0: real, read: Read)

  /** The estimator's state carried across iterations: fps and the previous t0. */
  datatype RateState = RateState(fps: real, last: real)

  /** What an iteration produces: nothing (it continued after a failed read),
      or the colour list handed to the image and the overlay statistics. */
  datatype Outcome = Skipped | Rendered(pixels: seq<Option<Rgb>>, stats: Stats)

  /** A failed read continues before dt is computed, so it changes nothing;
      a successful read smooths fps with dt = t0 - last and records t0. */
  function NextRate(s: RateState, e: Event): (n: RateState)
    ensures e.read.ReadError? ==> n == s
    ensures e.read.ReadFrame? ==> n.last == e.t0
    ensures e.read.ReadFrame? && e.t0 <= s.last ==> n.fps == s.fps
    ensures e.read.ReadFrame? && s.last < e.t0 && s.fps == 0.0 ==> n.fps * (e.t0 - s.last) == 1.0
    ensures e.read.ReadFrame? && s.last < e.t0 && s.fps != 0.0 ==>
      n.fps - 1.0 / (e.t0 - s.last) == 0.9 * (s.fps - 1.0 / (e.t0 - s.last))
  {
    match e.read
    case ReadError => s
    case ReadFrame(_) => RateState(NextFps(s.fps, e.t0 - s.last), e.t0)
  }

  /** The estimator state after a sequence of iterations. */
  function RunRate(s: RateState, events: seq<Event>): RateState
    decreases |events|
  {
    if events == [] then s else RunRate(NextRate(s, events[0]), events[1..])
  }

  /** The iterations whose read succeeded, in order: every kept iteration is
      a successful one from the trace, and every successful one is kept. */
  function Successful(events: seq<Event>): (ok: seq<Event>)
    ensures |ok| <= |events|
    ensures forall k :: 0 <= k < |ok| ==> ok[k].read.ReadFrame?
    ensures forall e :: e in ok ==> e in events
    ensures forall e :: e in events && e.read.ReadFrame? ==> e in ok
  {
    if events == [] then []
    else
      var rest := Successful(events[1..]);
      assert forall e :: e in events ==> e == events[0] || e in events[1..];
      if events[0].read.ReadFrame? then [events[0]] + rest else rest
  }

  /** Appending an iteration appends it to the successful ones exactly when
      its read succeeded, so Successful keeps the trace's order. */
  lemma {:induction false} SuccessfulAppend(events: seq<Event>, e: Event)
    ensures Successful(events + [e]) == Successful(events) + (if e.read.ReadFrame? then [e] else [])
    decreases |events|
  {
    if events == [] {
      assert [] + [e] == [e];
      assert [e][1..] == [];
    } else {
      assert (events + [e])[0] == events[0];
      assert (events + [e])[1..] == events[1..] + [e];
      SuccessfulAppend(events[1..], e);
    }
  }

  /** Every successful read in the trace carries a whole frame. Stated over
      membership so that it passes to any suffix of the trace. */
  predicate FullFrames(events: seq<Event>)
  {
    forall e :: e in events && e.read.ReadFrame? ==> |e.read.vals| == FrameSize
  }

  /** What the loop renders for one successful iteration. */
  function RenderOf(e: Event, cmap: seq<Rgb>): Outcome
    requires e.read.ReadFrame? && |e.read.vals| == FrameSize && |cmap| == ColorDepth
  {
    Rendered(RenderedFrame(e.read.vals, cmap), Summarise(e.read.vals))
  }

  /** Every iteration in the list read a whole frame successfully. Stated
      over indices, for the filtered list of successful iterations, so that
      RendersOf can index into it; SuccessfulAllRendered derives it from
      FullFrames. */
  predicate AllRendered(ok: seq<Event>)
  {
    forall k :: 0 <= k < |ok| ==> ok[k].read.ReadFrame? && |ok[k].read.vals| == FrameSize
  }

  /** The successful iterations of a trace whose frames are whole. */
  lemma SuccessfulAllRendered(events: seq<Event>)
    requires FullFrames(events)
    ensures AllRendered(Successful(events))
  {
    var ok := Successful(events);
    forall k | 0 <= k < |ok|
      ensures ok[k].read.ReadFrame? && |ok[k].read.vals| == FrameSize
    {
      assert ok[k] in ok;
    }
  }

  /** The outcomes rendered for a sequence of successful iterations, in order. */
  function RendersOf(ok: seq<Event>, cmap: seq<Rgb>): (out: seq<Outcome>)
    requires AllRendered(ok) && |cmap| == ColorDepth
    ensures |out| == |ok|
    ensures forall k :: 0 <= k < |ok| ==> out[k] == RenderOf(ok[k], cmap)
    decreases |ok|
  {
    if ok == [] then []
    else
      assert ok[0].read.ReadFrame? && |ok[0].read.vals| == FrameSize;
      [RenderOf(ok[0], cmap)] + RendersOf(ok[1..], cmap)
  }

  lemma FullFramesSuffix(events: seq<Event>, i: int)
    requires FullFrames(events) && 0 <= i <= |events|
    ensures FullFrames(events[i..])
  {
    assert forall e :: e in events[i..] ==> e in events;
  }

  /** The outcomes the loop yields over a trace: one render per successful
      read, in the order of the trace. */
  function RunOutcomes(events: seq<Event>, cmap: seq<Rgb>): seq<Outcome>
    requires FullFrames(events) && |cmap| == ColorDepth
    decreases |events|
  {
    if events == [] then []
    else
      FullFramesSuffix(events, 1);
      (if events[0].read.ReadFrame? then [RenderOf(events[0], cmap)] else [])
      + RunOutcomes(events[1..], cmap)
  }

  /** The loop's outcomes are exactly the renders of the successful reads. */
  lemma {:induction false} RunOutcomesAreRenders(events: seq<Event>, cmap: seq<Rgb>)
    requires FullFrames(events) && |cmap| == ColorDepth
    ensures AllRendered(Successful(events))
    ensures RunOutcomes(events, cmap) == RendersOf(Successful(events), cmap)
    decreases |events|
  {
    SuccessfulAllRendered(events);
    if events != [] {
      FullFramesSuffix(events, 1);
      RunOutcomesAreRenders(events[1..], cmap);
      var ok := Successful(events);
      if events[0].read.ReadFrame? {
        assert ok[1..] == Successful(events[1..]);
      } else {
        assert RunOutcomes(events, cmap) == [] + RunOutcomes(events[1..], cmap);
      }
    }
  }

  /** The frame buffer after a trace: each successful read overwrites it. */
  function LastFrame(buf: seq<real>, events: seq<Event>): seq<real>
    decreases |events|
  {
    if events == [] then buf
    else LastFrame(if events[0].read.ReadFrame? then events[0].read.vals else buf, events[1..])
  }

  /** The buffer ends holding the frame of the last successful read, or is
      untouched when no read succeeded. */
  lemma {:induction false} LastFrameIsLastSuccess(buf: seq<real>, events: seq<Event>)
    ensures var ok := Successful(events);
      LastFrame(buf, events) == if ok == [] then buf else ok[|ok| - 1].read.vals
    decreases |events|
  {
    if events != [] {
      var next := if events[0].read.ReadFrame? then events[0].read.vals else buf;
      LastFrameIsLastSuccess(next, events[1..]);
    }
  }

  /** Failed reads are invisible to the estimator: dropping them from the
      trace gives the same fps and last. */
  lemma {:induction false} FailedReadsInvisible(s: RateState, events: seq<Event>)
    ensures RunRate(s, events) == RunRate(s, Successful(events))
    decreases |events|
  {
    if events != [] {
      var ok := Successful(events);
      if events[0].read.ReadFrame? {
        assert ok[0] == events[0] && ok[1..] == Successful(events[1..]);
        FailedReadsInvisible(NextRate(s, events[0]), events[1..]);
      } else {
        FailedReadsInvisible(s, events[1..]);
      }
    }
  }

  /** A trace made only of failed reads leaves the estimator where it was. */
  lemma {:induction false} FailuresOnlyKeepState(s: RateState, events: seq<Event>)
    requires forall k :: 0 <= k < |events| ==> events[k].read.ReadError?
    ensures RunRate(s, events) == s
    decreases |events|
  {
    if events != [] {
      FailuresOnlyKeepState(s, events[1..]);
    }
  }

  /** n successful frames, the first dt after start and each dt after the last. */
  function SteadyTrace(start: real, dt: real, vals: seq<real>, n: nat): (trace: seq<Event>)
    ensures |trace| == n
    decreases n
  {
    if n == 0 then [] else [Event(start + dt, ReadFrame(vals))] + SteadyTrace(start + dt, dt, vals, n - 1)
  }

  /** Over a steady trace the loop's estimator follows the smoothing recurrence
      with a constant dt. */
  lemma {:induction false} SteadyTraceFps(fps: real, start: real, dt: real, vals: seq<real>, n: nat)
    ensures RunRate(RateState(fps, start), SteadyTrace(start, dt, vals, n)).fps == Iterate(fps, dt, n)
    decreases n
  {
    if n > 0 {
      var trace := SteadyTrace(start, dt, vals, n);
      assert trace[0] == Event(start + dt, ReadFrame(vals));
      assert trace[1..] == SteadyTrace(start + dt, dt, vals, n - 1);
      assert NextRate(RateState(fps, start), trace[0]) == RateState(NextFps(fps, dt), start + dt);
      SteadyTraceFps(NextFps(fps, dt), start + dt, dt, vals, n - 1);
    }
  }

  /** Starting from fps = 0, frames arriving every dt > 0 seconds read exactly
      1 / dt from the first frame on. */
  lemma SteadyTraceSettles(start: real, dt: real, vals: seq<real>, n: nat)
    requires 0.0 < dt && 1 <= n
    ensures RunRate(RateState(0.0, start), SteadyTrace(start, dt, vals, n)).fps == 1.0 / dt
  {
    SteadyTraceFps(0.0, start, dt, vals, n);
    IterateFromZero(dt, n);
  }

  /** The script's state: the estimator variables, the frame buffer that
      getFrame fills in place, and the palette built at start-up. */
  class ThermalLoop {
    var fps: real
    var last: real
    const frame: array<real>
    const colormap: seq<Rgb>

    ghost predicate Valid()
      reads this
    {
      frame.Length == FrameSize && IsPalette(colormap)
    }

    function Estimator(): RateState
      reads this
    {
      RateState(fps, last)
    }

    /** frame = [0] * 768, last = time.monotonic() (given as start), fps = 0.0,
        colormap built from the heat map. */
    constructor (start: real, exp: real -> real)
      ensures Valid() && fresh(frame)
      ensures Estimator() == RateState(0.0, start)
      ensures frame[..] == seq(FrameSize, _ => 0.0)
      ensures colormap == Colormap(exp)
    {
      fps := 0.0;
      last := start;
      frame := new real[FrameSize](_ => 0.0);
      colormap := Colormap(exp);
    }

    /** One iteration of the while loop that starts at clock reading t0. */
    method Step(t0: real, read: Read) returns (outcome: Outcome)
      requires Valid()
      requires read.ReadFrame? ==> |read.vals| == FrameSize
      modifies this, frame
      ensures Valid()
      ensures Estimator() == NextRate(old(Estimator()), Event(t0, read))
      ensures read.ReadError? ==> outcome == Skipped && frame[..] == old(frame[..])
      ensures read.ReadFrame? ==> frame[..] == read.vals
      ensures read.ReadFrame? ==>
        outcome == Rendered(RenderedFrame(read.vals, colormap), Summarise(read.vals))
    {
      if read.ReadError? {
        return Skipped;
      }
      forall i | 0 <= i < frame.Length {
        frame[i] := read.vals[i];
      }
      assert frame[..] == read.vals;

      var dt := t0 - last;
      if 0.0 < dt {
        fps := if fps != 0.0 then 0.9 * fps + 0.1 * (1.0 / dt) else 1.0 / dt;
      }
      last := t0;

      var pixels := FrameToRgbPixels(frame, colormap);
      outcome := Rendered(pixels[..], Summarise(frame[..]));
    }

    /** The loop run over a finite trace of iterations: it renders once per
        successful read, in order, with that read's frame; the buffer ends
        holding the last successful frame; and the estimator ends in the
        state of the trace. */
    method Run(events: seq<Event>) returns (outcomes: seq<Outcome>)
      requires Valid()
      requires FullFrames(events)
      modifies this, frame
      ensures Valid()
      ensures Estimator() == RunRate(old(Estimator()), events)
      ensures var ok := Successful(events);
        |outcomes| == |ok| &&
        forall k :: 0 <= k < |ok| ==>
          outcomes[k] == Rendered(RenderedFrame(ok[k].read.vals, colormap), Summarise(ok[k].read.vals))
      ensures var ok := Successful(events);
        frame[..] == if ok == [] then old(frame[..]) else ok[|ok| - 1].read.vals
    {
      outcomes := [];
      var i := 0;
      assert events[0..] == events;
      while i < |events|
        invariant 0 <= i <= |events|
        invariant Valid()
        invariant RunRate(Estimator(), events[i..]) == RunRate(old(Estimator()), events)
        invariant LastFrame(frame[..], events[i..]) == LastFrame(old(frame[..]), events)
        invariant FullFrames(events[i..])
        invariant outcomes + RunOutcomes(events[i..], colormap) == RunOutcomes(events, colormap)
      {
        var e := events[i];
        assert events[i..][0] == e && events[i..][1..] == events[i + 1..];
        FullFramesSuffix(events, i + 1);
        ghost var rest := RunOutcomes(events[i + 1..], colormap);
        var outcome := Step(e.t0, e.read);
        if e.read.ReadFrame? {
          assert outcome == RenderOf(e, colormap);
          assert (outcomes + [outcome]) + rest == outcomes + ([outcome] + rest);
          outcomes := outcomes + [outcome];
        } else {
          assert [] + rest == rest;
        }
        i := i + 1;
      }
      assert events[i..] == [];
      RunOutcomesAreRenders(events, colormap);
      LastFrameIsLastSuccess(old(frame[..]), events);
    }
  }
}
