/**
 * The run state of `Layout.ForceDirected` (src/springy3d.js, `start`, `stop`
 * and the `raf` step). A step callback is pending exactly while `started`
 * holds; `Frame` is that callback firing, after the tick it runs. The user's
 * callbacks become the events a transition emits.
 */
module Lifecycle {
  import opened Wrappers

  /** `_started` and `_stop`; both are unset (false) on a new layout. */
  datatype Run = Run(started: bool, stop: bool)

  const Idle: Run := Run(false, false)

  /** `onRenderStart`, `render` and `onRenderStop` being called. */
  datatype Event = RenderStart | Render | RenderStop

  /** The timestep every frame ticks with. */
  const FrameTimestep: real := 0.03

  /**
   * `minEnergyThreshold || 0.01`: an absent threshold or 0 (the falsy values a
   * real can take) gives 0.01, any other value is kept.
   */
  function Threshold(t: Option<real>): (r: real)
    ensures r != 0.0
    ensures r == 0.01 || t == Some(r)
    ensures t.Some? && t.value != 0.0 ==> r == t.value
  {
    if t.Some? && t.value != 0.0 then t.value else 0.01
  }

  /** `start`: ignored while running; otherwise marks the run started, clears `stop`, calls `onRenderStart`. */
  function Start(r: Run): (Run, seq<Event>)
  {
    if r.started then (r, []) else (Run(true, false), [RenderStart])
  }

  /** `stop`: only sets the flag; the pending frame sees it. */
  function Stop(r: Run): Run
  {
    r.(stop := true)
  }

  /**
   * The pending frame, after its tick: `render` is called, then the run ends
   * (calling `onRenderStop`) if `stop` is set or the energy is below the
   * threshold; otherwise the next frame is requested.
   */
  function Frame(r: Run, energy: real, threshold: real): (Run, seq<Event>)
    requires r.started
  {
    if r.stop || energy < threshold then (r.(started := false), [Render, RenderStop])
    else (r, [Render])
  }

  /**
   * After `start` the layout is running; it calls `onRenderStart` exactly when
   * it was not running before, and then `stop` is cleared; while running,
   * `start` changes nothing and calls nothing.
   */
  lemma StartSpec(r: Run)
    ensures Start(r).0.started
    ensures Start(r).1 != [] <==> !r.started
    ensures !r.started ==> !Start(r).0.stop && Start(r).1 == [RenderStart]
    ensures r.started ==> Start(r) == (r, [])
  {
  }

  /** `stop` changes only the `stop` flag and calls nothing. */
  lemma StopSpec(r: Run)
    ensures Stop(r).stop && Stop(r).started == r.started
    ensures Stop(Stop(r)) == Stop(r)
  {
  }

  /**
   * A frame always renders; the run goes on exactly when `stop` is clear and
   * the energy has not fallen below the threshold, and `onRenderStop` is
   * called exactly when it ends.
   */
  lemma FrameSpec(r: Run, energy: real, threshold: real)
    requires r.started
    ensures var (r', ev) := Frame(r, energy, threshold);
      && |ev| >= 1 && ev[0] == Render
      && (r'.started <==> !r.stop && threshold <= energy)
      && (RenderStop in ev <==> !r'.started)
      && r'.stop == r.stop
  {
  }

  /**
   * `stop` takes effect after at most one more tick: the frame that is pending
   * when it is called ends the run, whatever the energy.
   */
  lemma StopEndsNextFrame(r: Run, energy: real, threshold: real)
    requires r.started
    ensures !Frame(Stop(r), energy, threshold).0.started
    ensures RenderStop in Frame(Stop(r), energy, threshold).1
  {
  }

  /**
   * A `start` between `stop` and the pending frame is ignored, since the run
   * still counts as started; that frame then ends the run.
   */
  lemma RestartBeforeFrameIgnored(r: Run, energy: real, threshold: real)
    requires r.started
    ensures Start(Stop(r)) == (Stop(r), [])
    ensures !Frame(Start(Stop(r)).0, energy, threshold).0.started
  {
  }

  /** Once a run has ended, `start` begins a new one with `stop` cleared. */
  lemma RestartAfterEnd(r: Run, energy: real, threshold: real)
    requires r.started && (r.stop || energy < threshold)
    ensures var ended := Frame(r, energy, threshold).0;
      && !ended.started
      && Start(ended) == (Run(true, false), [RenderStart])
  {
  }
}
