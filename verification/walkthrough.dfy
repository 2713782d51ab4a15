/**
 * Gaze activation driving the tour end to end: the objects are wired the way
 * the scene wires them (a tour controller, a navigation hotspot initialised
 * from the current location's navigation point, and the gazer), and the
 * frames are the ones the engine would deliver while the user keeps looking
 * at the hotspot.
 */
module Walkthrough {
  import opened Wrappers
  import opened Locations
  import opened TourNavigation
  import opened Hotspots
  import opened GazeProtocol
  import opened Gaze

  /**
   * One frame of the walkthrough: the ray hits the navigation hotspot, no
   * click, 0.5 seconds. The hotspot keeps its setup, the gazer moves as
   * GazeFrame says, and the controller navigates to the hotspot's
   * destination exactly when the frame activates it.
   */
  method Look(gaze: GazeInteraction, game: GameManager, hotspot: NavigationHotspot) returns (calls: seq<TargetCall<Interactable>>)
    requires hotspot.Setup().NavSetup? && hotspot.Setup().interactable && hotspot.Setup().navigationData.Some?
    requires gaze.currentTarget.Some? ==> gaze.currentTarget == Some(Nav(hotspot))
    requires gaze.previousTarget.Some? ==> gaze.previousTarget == Some(Nav(hotspot))
    modifies gaze, game, hotspot
    ensures hotspot.Setup() == old(hotspot.Setup())
    ensures var r := GazeFrame(old(gaze.State()), HitInteractable(Nav(hotspot), true), false, 0.5, gaze.gazeDuration);
      gaze.State() == r.state && calls == r.calls
    ensures var activated := DwellTime(old(gaze.State()), Nav(hotspot), 0.5) >= gaze.gazeDuration;
      Responded(game, old(game.State()), old(game.notifications),
                if activated then Some(hotspot.navigationData.value.destinationLocationIndex) else None)
  {
    var panel;
    calls, panel := gaze.PerformGazeRaycast(Hit(Some(Nav(hotspot))), false, 0.5, game, true);
  }

  /**
   * Three locations, starting at 0, a hotspot leading to location 2 and a
   * gaze duration of 2 seconds: four frames of 0.5 seconds on the hotspot
   * move the tour to location 2, mark location 0 visited and announce the
   * new location; the hotspot receives enter, interact and exit, in that
   * order, and stays the gazer's current target.
   */
  method GazeNavigates() returns (current: int, visited: seq<int>, events: seq<TourEvent>, calls: seq<TargetCall<Interactable>>, stillTargeted: bool)
    ensures current == 2 && visited == [0]
    ensures |events| == 1 && events[0].LocationChanged? && events[0].location.locationName == "Library"
    ensures |calls| == 3 && calls[0].EnterCall? && calls[1].InteractCall? && calls[2].ExitCall?
    ensures stillTargeted
  {
    var library := LocationData("Library", "Reading rooms", [], []);
    var db := LocationDatabase([LocationData("Gate", "Main entrance", [], [NavigationData("Library", 2)]),
                                LocationData("Hall", "Lecture hall", [], []),
                                library]);
    var game := new GameManager(Some(db), 0);
    game.InitializeGame();
    var hotspot := new NavigationHotspot();
    hotspot.Initialize(db.locations[0].navigationPoints[0]);
    var target := Nav(hotspot);
    var gaze := new GazeInteraction(2.0);

    var c1 := Look(gaze, game, hotspot);
    assert gaze.State() == GazeState(Some(target), Some(target), 0.5, true);
    var c2 := Look(gaze, game, hotspot);
    assert gaze.State() == GazeState(Some(target), Some(target), 1.0, true);
    var c3 := Look(gaze, game, hotspot);
    assert gaze.State() == GazeState(Some(target), Some(target), 1.5, true);
    assert game.State() == TourState(0, []) && game.notifications == [];
    var c4 := Look(gaze, game, hotspot);
    assert gaze.State() == GazeState(Some(target), Some(target), 0.0, true);

    current := game.currentLocationIndex;
    visited := game.visitedLocations;
    events := game.notifications;
    calls := c1 + c2 + c3 + c4;
    stillTargeted := gaze.currentTarget == Some(target);
  }
}
