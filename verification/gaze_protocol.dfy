/**
 * One frame of gaze interaction (VR/GazeInteraction.cs, PerformGazeRaycast
 * and its helpers OnTargetChanged, OnTargetLost and OnGazeComplete) as a
 * function on a value of the gazer's state. The engine's answers are
 * inputs: what the ray hit, whether the hit component reports itself
 * interactable, whether the mouse was clicked this frame and the frame time.
 * The IInteractable calls the frame makes (OnGazeEnter, OnGazeExit,
 * OnInteract) are returned, in order, as a trace. Targets are of any type
 * with equality, compared as the source compares references.
 */
module GazeProtocol {
  import opened Wrappers

  /** What the ray cast of one frame found. */
  datatype RayHit<T> =
    | Miss                                              // Physics.Raycast hit nothing
    | HitPlain                                          // a collider without an IInteractable
    | HitInteractable(target: T, isInteractable: bool)  // an IInteractable and its IsInteractable() answer

  /** A call the gazer makes on a target, through the IInteractable interface. */
  datatype TargetCall<T> = EnterCall(target: T) | ExitCall(target: T) | InteractCall(target: T)

  /** The fields currentTarget, previousTarget, currentGazeTime and isGazing. */
  datatype GazeState<T> = GazeState(currentTarget: Option<T>, previousTarget: Option<T>, currentGazeTime: real, isGazing: bool)

  datatype GazeResult<T> = GazeResult(state: GazeState<T>, calls: seq<TargetCall<T>>)

  /** The field initialisers. */
  function Initial<T>(): GazeState<T>
  {
    GazeState(None, None, 0.0, false)
  }

  /** A hit that the gazer accepts as a target: an IInteractable that reports itself interactable. */
  predicate ValidHit<T>(hit: RayHit<T>)
  {
    hit.HitInteractable? && hit.isInteractable
  }

  /** The gaze time on t after one more frame: the accumulated time continues only on the same target. */
  function DwellTime<T(==)>(s: GazeState<T>, t: T, dt: real): real
  {
    (if s.currentTarget == Some(t) then s.currentGazeTime else 0.0) + dt
  }

  /** The target activated by a frame: the valid hit, once its dwell reaches the duration or on a click. */
  function Activation<T(==)>(s: GazeState<T>, hit: RayHit<T>, clicked: bool, dt: real, gazeDuration: real): Option<T>
  {
    if ValidHit(hit) && (DwellTime(s, hit.target, dt) >= gazeDuration || clicked) then Some(hit.target) else None
  }

  /** The exit call OnTargetChanged makes on the previous target, if there is one. */
  function ExitPrevious<T>(s: GazeState<T>): seq<TargetCall<T>>
  {
    if s.previousTarget.Some? then [ExitCall(s.previousTarget.value)] else []
  }

  /** The exit call OnTargetLost makes on the current target, if there is one. */
  function ExitCurrent<T>(s: GazeState<T>): seq<TargetCall<T>>
  {
    if s.currentTarget.Some? then [ExitCall(s.currentTarget.value)] else []
  }

  /** OnTargetChanged: exit the previous target, enter the new one, restart the gaze time. */
  function TargetChanged<T>(s: GazeState<T>, t: T): GazeResult<T>
  {
    GazeResult(s.(previousTarget := Some(t), currentGazeTime := 0.0), ExitPrevious(s) + [EnterCall(t)])
  }

  /** OnTargetLost: exit the current target, remember it as previous, clear the gaze time. */
  function TargetLost<T>(s: GazeState<T>): GazeResult<T>
  {
    GazeResult(s.(previousTarget := s.currentTarget, currentGazeTime := 0.0), ExitCurrent(s))
  }

  /** OnGazeComplete: activate the current target, then reset as OnTargetLost does. */
  function GazeComplete<T>(s: GazeState<T>): GazeResult<T>
  {
    var interact := if s.currentTarget.Some? then [InteractCall(s.currentTarget.value)] else [];
    var lost := TargetLost(s.(currentGazeTime := 0.0));
    GazeResult(lost.state, interact + lost.calls)
  }

  /** PerformGazeRaycast: one frame of the gaze state machine. */
  function GazeFrame<T(==)>(s: GazeState<T>, hit: RayHit<T>, clicked: bool, dt: real, gazeDuration: real): (r: GazeResult<T>)
    ensures ValidHit(hit) ==> r.state.currentTarget == Some(hit.target) && r.state.isGazing
    ensures !ValidHit(hit) ==> r.state.currentTarget.None? && !r.state.isGazing
  {
    if ValidHit(hit) then
      var t := hit.target;
      var changed := if s.currentTarget != Some(t) then TargetChanged(s, t) else GazeResult(s, []);
      var gazing := changed.state.(currentTarget := Some(t), isGazing := true,
                                   currentGazeTime := changed.state.currentGazeTime + dt);
      if gazing.currentGazeTime >= gazeDuration || clicked then
        var done := GazeComplete(gazing);
        GazeResult(done.state, changed.calls + done.calls)
      else
        GazeResult(gazing, changed.calls)
    else
      var lost := if s.currentTarget.Some? then TargetLost(s) else GazeResult(s, []);
      GazeResult(lost.state.(isGazing := false, currentTarget := None), lost.calls)
  }

  /**
   * A valid hit on a target other than the current one: the previous
   * target (if any) is exited, the new one entered, and the gaze time
   * restarts, so that after the frame it is dt unless the target was activated.
   */
  lemma NewTargetProtocol<T>(s: GazeState<T>, hit: RayHit<T>, clicked: bool, dt: real, gazeDuration: real)
    requires ValidHit(hit) && s.currentTarget != Some(hit.target)
    ensures var r := GazeFrame(s, hit, clicked, dt, gazeDuration);
      && |r.calls| >= |ExitPrevious(s)| + 1
      && r.calls[..|ExitPrevious(s)| + 1] == ExitPrevious(s) + [EnterCall(hit.target)]
      && r.state.previousTarget == Some(hit.target)
      && (Activation(s, hit, clicked, dt, gazeDuration).None? ==>
            |r.calls| == |ExitPrevious(s)| + 1 && r.state.currentGazeTime == dt)
  {
    var t := hit.target;
    var changed := TargetChanged(s, t);
    var r := GazeFrame(s, hit, clicked, dt, gazeDuration);
    assert r.calls[..|changed.calls|] == changed.calls;
  }

  /**
   * A valid hit on the current target: no enter or exit call, and the
   * gaze time grows by exactly dt unless the target is activated.
   */
  lemma SameTargetAccumulates<T>(s: GazeState<T>, hit: RayHit<T>, clicked: bool, dt: real, gazeDuration: real)
    requires ValidHit(hit) && s.currentTarget == Some(hit.target)
    ensures var r := GazeFrame(s, hit, clicked, dt, gazeDuration);
      && (Activation(s, hit, clicked, dt, gazeDuration).None? ==>
            r.calls == [] && r.state == s.(isGazing := true, currentGazeTime := s.currentGazeTime + dt))
      && (Activation(s, hit, clicked, dt, gazeDuration).Some? ==>
            r.calls == [InteractCall(hit.target), ExitCall(hit.target)])
  {
  }

  /** The calls a valid hit on t makes before any activation: exit and enter when t is new, none otherwise. */
  function SwitchCalls<T(==)>(s: GazeState<T>, t: T): seq<TargetCall<T>>
  {
    if s.currentTarget != Some(t) then ExitPrevious(s) + [EnterCall(t)] else []
  }

  /**
   * The trace of one frame, case by case: a valid hit switches to its
   * target and, if activated, interacts with it and exits it, leaving it
   * current with time 0; any other frame at most exits the current target.
   */
  lemma FrameCalls<T>(s: GazeState<T>, hit: RayHit<T>, clicked: bool, dt: real, gazeDuration: real)
    ensures var r := GazeFrame(s, hit, clicked, dt, gazeDuration);
      var a := Activation(s, hit, clicked, dt, gazeDuration);
      && (ValidHit(hit) && a.None? ==> r.calls == SwitchCalls(s, hit.target))
      && (ValidHit(hit) && a.Some? ==>
            && r.calls == SwitchCalls(s, hit.target) + [InteractCall(hit.target), ExitCall(hit.target)]
            && r.state == GazeState(Some(hit.target), Some(hit.target), 0.0, true))
      && (!ValidHit(hit) ==> r.calls == ExitCurrent(s))
  {
  }

  /** In a trace that ends with an interact and an exit after calls without interact, the interact is the only one. */
  lemma InteractOnlyAfter<T>(pre: seq<TargetCall<T>>, t: T)
    requires forall i :: 0 <= i < |pre| ==> !pre[i].InteractCall?
    ensures var calls := pre + [InteractCall(t), ExitCall(t)];
      && calls[|calls| - 2..] == [InteractCall(t), ExitCall(t)]
      && forall i :: 0 <= i < |calls| && calls[i].InteractCall? ==> i == |pre|
  {
    var calls := pre + [InteractCall(t), ExitCall(t)];
    assert forall i :: 0 <= i < |pre| ==> calls[i] == pre[i];
  }

  /**
   * OnInteract is called in a frame on exactly the activated target (a
   * valid hit whose dwell reaches the duration, or a click), never twice,
   * and is followed by that target's exit. The target stays current with
   * its gaze time reset.
   */
  lemma ActivationProtocol<T>(s: GazeState<T>, hit: RayHit<T>, clicked: bool, dt: real, gazeDuration: real)
    ensures var r := GazeFrame(s, hit, clicked, dt, gazeDuration);
      var a := Activation(s, hit, clicked, dt, gazeDuration);
      && (forall i :: 0 <= i < |r.calls| && r.calls[i].InteractCall? ==> a == Some(r.calls[i].target))
      && (forall i, j :: 0 <= i < j < |r.calls| && r.calls[i].InteractCall? ==> !r.calls[j].InteractCall?)
      && (a.Some? ==>
            && |r.calls| >= 2
            && r.calls[|r.calls| - 2..] == [InteractCall(a.value), ExitCall(a.value)]
            && r.state == GazeState(Some(a.value), Some(a.value), 0.0, true))
  {
    FrameCalls(s, hit, clicked, dt, gazeDuration);
    var r := GazeFrame(s, hit, clicked, dt, gazeDuration);
    var a := Activation(s, hit, clicked, dt, gazeDuration);
    if ValidHit(hit) {
      var pre := SwitchCalls(s, hit.target);
      assert forall i :: 0 <= i < |pre| ==> !pre[i].InteractCall?;
      if a.Some? {
        InteractOnlyAfter(pre, hit.target);
      }
    }
  }

  /**
   * No hit, a hit without an IInteractable, or one that is not
   * interactable: the current target (if any) is exited and forgotten,
   * the gaze time cleared and gazing stops.
   */
  lemma NoTargetProtocol<T>(s: GazeState<T>, hit: RayHit<T>, clicked: bool, dt: real, gazeDuration: real)
    requires !ValidHit(hit)
    ensures var r := GazeFrame(s, hit, clicked, dt, gazeDuration);
      && r.calls == ExitCurrent(s)
      && r.state.currentTarget.None? && !r.state.isGazing
      && (s.currentTarget.Some? ==> r.state.currentGazeTime == 0.0 && r.state.previousTarget == s.currentTarget)
      && (s.currentTarget.None? ==> r.state == s.(isGazing := false))
  {
  }

  /**
   * After an activation on t the gazer is left in the state
   * ActivationProtocol names: t is current and also previous, although it
   * has already been exited. When the gaze then moves to another
   * interactable u, t is exited a second time before u is entered.
   */
  lemma SecondExitAfterActivation<T>(t: T, u: T, clicked: bool, dt: real, gazeDuration: real)
    requires u != t
    ensures var r := GazeFrame(GazeState(Some(t), Some(t), 0.0, true), HitInteractable(u, true), clicked, dt, gazeDuration);
      |r.calls| >= 2 && r.calls[..2] == [ExitCall(t), EnterCall(u)]
  {
    var s := GazeState(Some(t), Some(t), 0.0, true);
    NewTargetProtocol(s, HitInteractable(u, true), clicked, dt, gazeDuration);
  }

  /**
   * The states the gazer can be in between frames: it is gazing exactly
   * when it has a current target, which is then also the previous target;
   * gaze time is never negative, is zero without a target, and is below the
   * duration unless it has just been reset.
   */
  ghost predicate GazeInvariant<T>(s: GazeState<T>, gazeDuration: real)
  {
    && (s.isGazing <==> s.currentTarget.Some?)
    && (s.currentTarget.Some? ==> s.previousTarget == s.currentTarget)
    && (s.currentTarget.None? ==> s.currentGazeTime == 0.0)
    && 0.0 <= s.currentGazeTime
    && (s.currentGazeTime < gazeDuration || s.currentGazeTime == 0.0)
  }

  lemma FramePreservesInvariant<T>(s: GazeState<T>, hit: RayHit<T>, clicked: bool, dt: real, gazeDuration: real)
    requires GazeInvariant(s, gazeDuration) && dt >= 0.0
    ensures GazeInvariant(GazeFrame(s, hit, clicked, dt, gazeDuration).state, gazeDuration)
  {
  }

  function Clamp01(x: real): (r: real)
    ensures 0.0 <= r <= 1.0
    ensures 0.0 <= x <= 1.0 ==> r == x
    ensures x < 0.0 ==> r == 0.0
    ensures x > 1.0 ==> r == 1.0
  {
    if x < 0.0 then 0.0 else if x > 1.0 then 1.0 else x
  }

  /**
   * UpdateGazeProgress while gazing: the fill is the gaze time as a
   * fraction of the duration, clamped to [0, 1]; None when not gazing
   * (the decay branch is not modelled).
   */
  function GazingFill<T>(s: GazeState<T>, gazeDuration: real): (fill: Option<real>)
    requires gazeDuration > 0.0
    ensures fill.Some? <==> s.isGazing && s.currentTarget.Some?
    ensures fill.Some? ==> 0.0 <= fill.value <= 1.0
  {
    if s.isGazing && s.currentTarget.Some? then Some(Clamp01(s.currentGazeTime / gazeDuration)) else None
  }

  /**
   * Because an activation resets the gaze time within the same frame, the
   * fill seen after any frame is exactly the unclamped fraction and is
   * always below 1: the progress ring is never drawn full.
   */
  lemma FillNeverFull<T>(s: GazeState<T>, gazeDuration: real)
    requires gazeDuration > 0.0 && GazeInvariant(s, gazeDuration)
    requires s.isGazing
    ensures GazingFill(s, gazeDuration) == Some(s.currentGazeTime / gazeDuration)
    ensures s.currentGazeTime / gazeDuration < 1.0
  {
  }

  /** n frames of uninterrupted gaze at t, without clicking, each of length dt; the traces are concatenated. */
  function Dwelling<T(==)>(s: GazeState<T>, t: T, dt: real, gazeDuration: real, n: nat): GazeResult<T>
  {
    if n == 0 then GazeResult(s, [])
    else
      var before := Dwelling(s, t, dt, gazeDuration, n - 1);
      var r := GazeFrame(before.state, HitInteractable(t, true), false, dt, gazeDuration);
      GazeResult(r.state, before.calls + r.calls)
  }

  /**
   * Continued gaze on the current target makes no call at all while the
   * accumulated time stays below the duration: no fresh OnGazeEnter and
   * no activation.
   */
  lemma {:induction false} DwellBelowDuration<T>(s: GazeState<T>, t: T, dt: real, gazeDuration: real, n: nat)
    requires s.currentTarget == Some(t) && dt >= 0.0
    requires s.currentGazeTime + (n as real) * dt < gazeDuration
    ensures var r := Dwelling(s, t, dt, gazeDuration, n);
      && r.calls == []
      && r.state.currentTarget == Some(t)
      && r.state.previousTarget == s.previousTarget
      && r.state.currentGazeTime == s.currentGazeTime + (n as real) * dt
  {
    if n > 0 {
      assert s.currentGazeTime + ((n - 1) as real) * dt < gazeDuration;
      DwellBelowDuration(s, t, dt, gazeDuration, n - 1);
    }
  }

  /**
   * Continued gaze on the current target activates it on the first frame
   * at which the accumulated time reaches the duration, and on no earlier
   * frame; the target stays current, with its gaze time reset. After an
   * activation (gaze time 0) the next one therefore needs another full
   * gazeDuration.
   */
  lemma ActivatesAfterFullDwell<T>(s: GazeState<T>, t: T, dt: real, gazeDuration: real, n: nat)
    requires s.currentTarget == Some(t) && dt >= 0.0 && n >= 1
    requires s.currentGazeTime + ((n - 1) as real) * dt < gazeDuration <= s.currentGazeTime + (n as real) * dt
    ensures var r := Dwelling(s, t, dt, gazeDuration, n);
      && r.calls == [InteractCall(t), ExitCall(t)]
      && r.state == GazeState(Some(t), Some(t), 0.0, true)
  {
    DwellBelowDuration(s, t, dt, gazeDuration, n - 1);
  }

  /**
   * A dwell of 2 time units in frames of 0.5, starting with no target:
   * the first frame enters the target, the fourth activates it, the fifth
   * makes no call.
   */
  lemma DwellScenario<T>(t: T)
    ensures Dwelling(Initial(), t, 0.5, 2.0, 3).calls == [EnterCall(t)]
    ensures Dwelling(Initial(), t, 0.5, 2.0, 4).calls == [EnterCall(t), InteractCall(t), ExitCall(t)]
    ensures Dwelling(Initial(), t, 0.5, 2.0, 5).calls == [EnterCall(t), InteractCall(t), ExitCall(t)]
  {
    var first := Dwelling(Initial(), t, 0.5, 2.0, 1);
    assert first == GazeResult(GazeState(Some(t), Some(t), 0.5, true), [EnterCall(t)]);
    DwellBelowDuration(first.state, t, 0.5, 2.0, 2);
    assert Dwelling(Initial(), t, 0.5, 2.0, 3).calls == [EnterCall(t)];
    ActivatesAfterFullDwell(first.state, t, 0.5, 2.0, 3);
  }
}
