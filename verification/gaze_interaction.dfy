/**
 * The gazer itself (VR/GazeInteraction.cs): a class whose per-frame method
 * updates currentTarget, previousTarget, currentGazeTime and isGazing in
 * place and makes the IInteractable calls on the hotspots it looks at, in
 * the order the source makes them. Each method is proved to leave the
 * fields as GazeProtocol's functions say and to return the trace of calls
 * it made. Frames in which Camera.main is missing (Update returns early)
 * are simply not performed.
 */
module Gaze {
  import opened Wrappers
  import opened TourNavigation
  import opened Hotspots
  import opened GazeProtocol

  /** The raw outcome of Physics.Raycast: nothing, or a collider with (maybe) an IInteractable component. */
  datatype RaycastHit = NoHit | Hit(component: Option<Interactable>)

  ghost function TargetRepr(t: Option<Interactable>): set<object>
  {
    if t.Some? then t.value.Repr() else {}
  }

  ghost function HitRepr(hit: RaycastHit): set<object>
  {
    if hit.Hit? then TargetRepr(hit.component) else {}
  }

  /** The ray hit as the protocol sees it, with the component's own IsInteractable() answer. */
  function Observe(hit: RaycastHit): (r: RayHit<Interactable>)
    reads HitRepr(hit)
    ensures ValidHit(r) <==> hit.Hit? && hit.component.Some? && hit.component.value.IsInteractable()
    ensures ValidHit(r) ==> r.target == hit.component.value
    ensures r.Miss? <==> hit.NoHit?
  {
    match hit
    case NoHit => Miss
    case Hit(None) => HitPlain
    case Hit(Some(t)) => HitInteractable(t, t.IsInteractable())
  }

  /** The setup of the activated target, if a target is activated. */
  function SetupOf(a: Option<Interactable>): Option<Setup>
    reads TargetRepr(a)
  {
    if a.Some? then Some(a.value.Setup()) else None
  }

  /** The navigation requested by an activation, if any. */
  function RequestOf(a: Option<Setup>): Option<int>
  {
    if a.Some? then a.value.NavRequest() else None
  }

  /** The info panel requested by an activation, if any. */
  function PanelOf(a: Option<Setup>, uiAvailable: bool): Option<InfoPanelRequest>
  {
    if a.Some? then a.value.PanelRequest(uiAvailable) else None
  }

  class GazeInteraction {
    /** Serialized dwell time, in seconds, after which a gazed target is activated. */
    const gazeDuration: real

    var currentTarget: Option<Interactable>
    var previousTarget: Option<Interactable>
    var currentGazeTime: real
    var isGazing: bool

    function State(): GazeState<Interactable>
      reads this
    {
      GazeState(currentTarget, previousTarget, currentGazeTime, isGazing)
    }

    ghost predicate Valid()
      reads this
    {
      GazeInvariant(State(), gazeDuration)
    }

    constructor (gazeDuration: real)
      ensures this.gazeDuration == gazeDuration
      ensures State() == Initial() && Valid()
    {
      this.gazeDuration := gazeDuration;
      currentTarget := None;
      previousTarget := None;
      currentGazeTime := 0.0;
      isGazing := false;
    }

    method OnTargetChanged(newTarget: Interactable) returns (calls: seq<TargetCall<Interactable>>)
      modifies this, newTarget.Repr(), TargetRepr(previousTarget)
      ensures var r := TargetChanged(old(State()), newTarget);
        State() == r.state && calls == r.calls
      ensures newTarget.IsHovered() && newTarget.Setup() == old(newTarget.Setup())
      ensures old(previousTarget).Some? ==> old(previousTarget).value.Setup() == old(previousTarget.value.Setup())
      ensures old(previousTarget).Some? && old(previousTarget) != Some(newTarget) ==> !old(previousTarget).value.IsHovered()
    {
      calls := [];
      if previousTarget.Some? {
        GazeExit(previousTarget.value);
        calls := [ExitCall(previousTarget.value)];
      }
      GazeEnter(newTarget);
      calls := calls + [EnterCall(newTarget)];
      previousTarget := Some(newTarget);
      currentGazeTime := 0.0;
    }

    method OnTargetLost() returns (calls: seq<TargetCall<Interactable>>)
      modifies this, TargetRepr(currentTarget)
      ensures var r := TargetLost(old(State()));
        State() == r.state && calls == r.calls
      ensures old(currentTarget).Some? ==>
        !old(currentTarget).value.IsHovered() && old(currentTarget).value.Setup() == old(currentTarget.value.Setup())
    {
      calls := [];
      if currentTarget.Some? {
        GazeExit(currentTarget.value);
        calls := [ExitCall(currentTarget.value)];
      }
      previousTarget := currentTarget;
      currentGazeTime := 0.0;
    }

    method OnGazeComplete(game: GameManager?, uiAvailable: bool) returns (calls: seq<TargetCall<Interactable>>, panel: Option<InfoPanelRequest>)
      modifies this, game, TargetRepr(currentTarget)
      ensures var r := GazeComplete(old(State()));
        State() == r.state && calls == r.calls
      ensures panel == PanelOf(old(SetupOf(currentTarget)), uiAvailable)
      ensures game != null ==> Responded(game, old(game.State()), old(game.notifications), RequestOf(old(SetupOf(currentTarget))))
      ensures old(currentTarget).Some? ==>
        !old(currentTarget).value.IsHovered() && old(currentTarget).value.Setup() == old(currentTarget.value.Setup())
    {
      calls := [];
      panel := None;
      if currentTarget.Some? {
        panel := Interact(currentTarget.value, game, uiAvailable);
        calls := [InteractCall(currentTarget.value)];
      }
      currentGazeTime := 0.0;
      var lost := OnTargetLost();
      calls := calls + lost;
    }

    /**
     * The dwell part of a frame whose ray hits t, once t is the target: t
     * becomes current, the gaze time grows by dt, and t is activated when
     * that time reaches the duration or on a click.
     */
    method DwellOn(t: Interactable, clicked: bool, dt: real, game: GameManager?, uiAvailable: bool)
      returns (calls: seq<TargetCall<Interactable>>, panel: Option<InfoPanelRequest>)
      modifies this, game, t.Repr()
      ensures var g := old(State()).(currentTarget := Some(t), isGazing := true, currentGazeTime := old(currentGazeTime) + dt);
        var activated := g.currentGazeTime >= gazeDuration || clicked;
        && (if activated then State() == GazeComplete(g).state && calls == GazeComplete(g).calls
            else State() == g && calls == [])
        && panel == (if activated then old(t.Setup()).PanelRequest(uiAvailable) else None)
        && (game != null ==> Responded(game, old(game.State()), old(game.notifications),
                                       if activated then old(t.Setup()).NavRequest() else None))
        && t.Setup() == old(t.Setup())
        && t.IsHovered() == (if activated then false else old(t.IsHovered()))
    {
      calls := [];
      panel := None;
      currentTarget := Some(t);
      isGazing := true;
      currentGazeTime := currentGazeTime + dt;
      if currentGazeTime >= gazeDuration || clicked {
        calls, panel := OnGazeComplete(game, uiAvailable);
      }
    }

    /**
     * A frame whose ray hits a target t other than the current one: the
     * previous target is exited, t is entered, and its dwell starts from 0.
     */
    method SwitchTo(t: Interactable, clicked: bool, dt: real, game: GameManager?, uiAvailable: bool)
      returns (calls: seq<TargetCall<Interactable>>, panel: Option<InfoPanelRequest>)
      requires currentTarget != Some(t)
      modifies this, game, t.Repr(), TargetRepr(previousTarget)
      ensures var r := GazeFrame(old(State()), HitInteractable(t, true), clicked, dt, gazeDuration);
        State() == r.state && calls == r.calls
      ensures var activated := dt >= gazeDuration || clicked;
        && panel == (if activated then old(t.Setup()).PanelRequest(uiAvailable) else None)
        && (game != null ==> Responded(game, old(game.State()), old(game.notifications),
                                       if activated then old(t.Setup()).NavRequest() else None))
        && t.Setup() == old(t.Setup())
        && t.IsHovered() == !activated
      ensures var p := old(previousTarget);
        p.Some? && p != Some(t) ==> p.value.Setup() == old(p.value.Setup()) && !p.value.IsHovered()
    {
      var switched := OnTargetChanged(t);
      var dwelt;
      dwelt, panel := DwellOn(t, clicked, dt, game, uiAvailable);
      calls := switched + dwelt;
    }

    /**
     * The branch of a frame whose ray hits an interactable target t: switch
     * to t if needed, accumulate the dwell time and activate t once it
     * reaches the duration or on a click.
     */
    method GazeAt(t: Interactable, clicked: bool, dt: real, game: GameManager?, uiAvailable: bool)
      returns (calls: seq<TargetCall<Interactable>>, panel: Option<InfoPanelRequest>)
      modifies this, game, t.Repr(), TargetRepr(previousTarget)
      ensures var r := GazeFrame(old(State()), HitInteractable(t, true), clicked, dt, gazeDuration);
        State() == r.state && calls == r.calls
      ensures var activated := DwellTime(old(State()), t, dt) >= gazeDuration || clicked;
        && panel == (if activated then old(t.Setup()).PanelRequest(uiAvailable) else None)
        && (game != null ==> Responded(game, old(game.State()), old(game.notifications),
                                       if activated then old(t.Setup()).NavRequest() else None))
      ensures t.Setup() == old(t.Setup())
      // t is left hovered when it was entered and not activated, unhovered
      // after an activation, and as it was when neither call was made
      ensures var changed := old(currentTarget) != Some(t);
        var activated := DwellTime(old(State()), t, dt) >= gazeDuration || clicked;
        t.IsHovered() == (if activated then false else if changed then true else old(t.IsHovered()))
      // a distinct previous target keeps its setup, and is exited when t is new
      ensures var p := old(previousTarget);
        p.Some? && p != Some(t) ==>
          && p.value.Setup() == old(p.value.Setup())
          && p.value.IsHovered() == (if old(currentTarget) != Some(t) then false else old(p.value.IsHovered()))
    {
      if currentTarget != Some(t) {
        calls, panel := SwitchTo(t, clicked, dt, game, uiAvailable);
      } else {
        calls, panel := DwellOn(t, clicked, dt, game, uiAvailable);
      }
    }

    /**
     * A frame whose ray finds no interactable target: the current target
     * (if any) is lost, and the gazer forgets it and stops gazing.
     */
    method LoseTarget() returns (calls: seq<TargetCall<Interactable>>)
      modifies this, TargetRepr(currentTarget)
      ensures var r := GazeFrame(old(State()), Miss, false, 0.0, gazeDuration);
        State() == r.state && calls == r.calls
      ensures old(currentTarget).Some? ==>
        !old(currentTarget).value.IsHovered() && old(currentTarget).value.Setup() == old(currentTarget.value.Setup())
    {
      calls := [];
      if currentTarget.Some? {
        calls := OnTargetLost();
      }
      isGazing := false;
      currentTarget := None;
    }

    /**
     * One frame: the fields change as GazeFrame says, the calls made are
     * its trace, and an activation reaches the tour controller (or the UI)
     * exactly as that target's OnInteract does.
     */
    method PerformGazeRaycast(hit: RaycastHit, clicked: bool, dt: real, game: GameManager?, uiAvailable: bool)
      returns (calls: seq<TargetCall<Interactable>>, panel: Option<InfoPanelRequest>)
      modifies this, game, HitRepr(hit), TargetRepr(currentTarget), TargetRepr(previousTarget)
      ensures var r := GazeFrame(old(State()), old(Observe(hit)), clicked, dt, gazeDuration);
        State() == r.state && calls == r.calls
      ensures old(Valid()) && dt >= 0.0 ==> Valid()
      // a valid hit on t: t is activated when its dwell reaches the duration or on a click, and
      // then its setup's panel request is returned and its navigation request reaches the
      // controller. t is left hovered when entered and not activated, unhovered after an
      // activation, and unchanged otherwise; a distinct previous target is exited when t is new
      ensures ValidHit(old(Observe(hit))) ==>
        var t := hit.component.value;
        var changed := old(currentTarget) != Some(t);
        var activated := DwellTime(old(State()), t, dt) >= gazeDuration || clicked;
        && panel == (if activated then old(t.Setup()).PanelRequest(uiAvailable) else None)
        && (game != null ==> Responded(game, old(game.State()), old(game.notifications),
                                       if activated then old(t.Setup()).NavRequest() else None))
        && t.Setup() == old(t.Setup())
        && t.IsHovered() == (if activated then false else if changed then true else old(t.IsHovered()))
        && (old(previousTarget).Some? && old(previousTarget) != Some(t) ==>
              old(previousTarget).value.IsHovered() == (if changed then false else old(previousTarget.value.IsHovered())))
      // no valid hit: nothing is activated, the lost target is exited, and a previous
      // target distinct from it is untouched
      ensures !ValidHit(old(Observe(hit))) ==>
        && panel == None
        && (game != null ==> Responded(game, old(game.State()), old(game.notifications), None))
        && (old(currentTarget).Some? ==> !old(currentTarget).value.IsHovered())
        && (old(previousTarget).Some? && old(previousTarget) != old(currentTarget) ==>
              old(previousTarget).value.IsHovered() == old(previousTarget.value.IsHovered()))
      // no target touched by the frame changes its setup
      ensures old(currentTarget).Some? ==> old(currentTarget).value.Setup() == old(currentTarget.value.Setup())
      ensures old(previousTarget).Some? ==> old(previousTarget).value.Setup() == old(previousTarget.value.Setup())
    {
      ghost var s0 := State();
      ghost var observed := Observe(hit);
      if GazeInvariant(s0, gazeDuration) && dt >= 0.0 {
        FramePreservesInvariant(s0, observed, clicked, dt, gazeDuration);
      }
      if hit.Hit? && hit.component.Some? && hit.component.value.IsInteractable() {
        calls, panel := GazeAt(hit.component.value, clicked, dt, game, uiAvailable);
      } else {
        calls := LoseTarget();
        panel := None;
        assert GazeFrame(s0, observed, clicked, dt, gazeDuration) == GazeFrame(s0, Miss, false, 0.0, gazeDuration);
      }
    }
  }
}
