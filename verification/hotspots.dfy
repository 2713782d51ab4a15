/**
 * The two concrete interactables of a location (Interaction/NavigationHotspot.cs,
 * Interaction/InfoHotspot.cs) and the IInteractable protocol they implement
 * (Interaction/IInteractable.cs): OnInteract, OnGazeEnter, OnGazeExit and
 * IsInteractable. The interface is modelled as the closed sum Interactable
 * of the two implementing classes, and each protocol call as a method that
 * dispatches on it.
 */
module Hotspots {
  import opened Wrappers
  import opened Locations
  import opened TourNavigation

  /** UIManager.ShowInfoPanel(title, content): the request an info hotspot makes. */
  datatype InfoPanelRequest = ShowInfoPanel(title: string, content: string)

  /**
   * The fields of a hotspot other than its hover flag: its interactable
   * flag and the data Initialize stored (None before Initialize).
   */
  datatype Setup =
    | NavSetup(interactable: bool, navigationData: Option<NavigationData>)
    | InfoSetup(interactable: bool, hotspotData: Option<HotspotData>)
  {
    /**
     * The navigation an activation requests: the destination of an
     * interactable, initialised navigation hotspot, and none otherwise.
     */
    function NavRequest(): (r: Option<int>)
      ensures r.Some? <==> NavSetup? && interactable && navigationData.Some?
      ensures r.Some? ==> r.value == navigationData.value.destinationLocationIndex
    {
      if NavSetup? && interactable && navigationData.Some? then Some(navigationData.value.destinationLocationIndex)
      else None
    }

    /**
     * The info panel an activation requests: the stored title and text of
     * an interactable, initialised info hotspot when a UI manager exists,
     * and none otherwise.
     */
    function PanelRequest(uiAvailable: bool): (r: Option<InfoPanelRequest>)
      ensures r.Some? <==> InfoSetup? && interactable && hotspotData.Some? && uiAvailable
      ensures r.Some? ==> r.value.title == hotspotData.value.title && r.value.content == hotspotData.value.information
    {
      if InfoSetup? && interactable && hotspotData.Some? && uiAvailable then
        Some(ShowInfoPanel(hotspotData.value.title, hotspotData.value.information))
      else None
    }
  }

  /** A hotspot that moves the tour to another location. */
  class NavigationHotspot {
    /** None until Initialize stores the authored data. */
    var navigationData: Option<NavigationData>
    var isInteractable: bool
    var isHovered: bool

    constructor ()
      ensures navigationData == None && isInteractable && !isHovered
    {
      navigationData := None;
      isInteractable := true;
      isHovered := false;
    }

    /** Stores the authored data; label, sprite, tag and layer are scene setup. */
    method Initialize(data: NavigationData)
      modifies this`navigationData
      ensures navigationData == Some(data)
    {
      navigationData := Some(data);
    }

    /** What decides this hotspot's answer to OnInteract. */
    function Setup(): Setup
      reads this
    {
      NavSetup(isInteractable, navigationData)
    }

    /**
     * Activation: asks the tour controller (when there is one) to navigate
     * to the destination; the controller's own range check then applies.
     */
    method OnInteract(game: GameManager?)
      modifies game
      ensures game != null ==> Responded(game, old(game.State()), old(game.notifications), Setup().NavRequest())
    {
      if !isInteractable || navigationData.None? {
        return;
      }
      if game != null {
        game.NavigateToLocation(navigationData.value.destinationLocationIndex);
      }
    }

    method OnGazeEnter()
      modifies this`isHovered
      ensures isHovered
    {
      isHovered := true;
    }

    method OnGazeExit()
      modifies this`isHovered
      ensures !isHovered
    {
      isHovered := false;
    }

    function IsInteractable(): (r: bool)
      reads this
      ensures r == isInteractable
    {
      isInteractable
    }
  }

  /** A hotspot that opens the info panel with its title and text. */
  class InfoHotspot {
    /** None until Initialize stores the authored data. */
    var hotspotData: Option<HotspotData>
    var isInteractable: bool
    var isHovered: bool

    constructor ()
      ensures hotspotData == None && isInteractable && !isHovered
    {
      hotspotData := None;
      isInteractable := true;
      isHovered := false;
    }

    /** Stores the authored data; icon, tag and layer are scene setup. */
    method Initialize(data: HotspotData)
      modifies this`hotspotData
      ensures hotspotData == Some(data)
    {
      hotspotData := Some(data);
    }

    /** What decides this hotspot's answer to OnInteract. */
    function Setup(): Setup
      reads this
    {
      InfoSetup(isInteractable, hotspotData)
    }

    /** Activation: asks the UI manager, when there is one, to show the info panel. */
    method OnInteract(uiAvailable: bool) returns (panel: Option<InfoPanelRequest>)
      ensures panel == Setup().PanelRequest(uiAvailable)
    {
      panel := None;
      if !isInteractable || hotspotData.None? {
        return;
      }
      if uiAvailable {
        panel := Some(ShowInfoPanel(hotspotData.value.title, hotspotData.value.information));
      }
    }

    method OnGazeEnter()
      modifies this`isHovered
      ensures isHovered
    {
      isHovered := true;
    }

    method OnGazeExit()
      modifies this`isHovered
      ensures !isHovered
    {
      isHovered := false;
    }

    function IsInteractable(): (r: bool)
      reads this
      ensures r == isInteractable
    {
      isInteractable
    }
  }

  /**
   * How the tour controller answered a navigation request (or the absence
   * of one): with no request nothing changes; with a request it moved as
   * Navigate says and raised Navigate's notifications.
   */
  ghost predicate Responded(game: GameManager, before: TourState, raised: seq<TourEvent>, request: Option<int>)
    reads game
  {
    match request
    case None => game.State() == before && game.notifications == raised
    case Some(index) =>
      var r := Navigate(game.locationDatabase, before, index);
      game.State() == r.state && game.notifications == raised + r.events
  }

  /** IInteractable: a reference to one of the two implementing hotspots. */
  datatype Interactable = Nav(nav: NavigationHotspot) | Info(info: InfoHotspot)
  {
    ghost function Repr(): set<object>
    {
      if Nav? then {nav} else {info}
    }

    /** IsInteractable through the interface: the flag the hotspot's setup carries. */
    function IsInteractable(): (r: bool)
      reads Repr()
      ensures r == Setup().interactable
    {
      if Nav? then nav.IsInteractable() else info.IsInteractable()
    }

    function IsHovered(): bool
      reads Repr()
    {
      if Nav? then nav.isHovered else info.isHovered
    }

    /** Everything but the hover flag: what the gaze protocol never changes. */
    function Setup(): Setup
      reads Repr()
    {
      if Nav? then nav.Setup() else info.Setup()
    }
  }

  method GazeEnter(t: Interactable)
    modifies t.Repr()
    ensures t.IsHovered() && t.Setup() == old(t.Setup())
  {
    match t
    case Nav(h) => h.OnGazeEnter();
    case Info(h) => h.OnGazeEnter();
  }

  method GazeExit(t: Interactable)
    modifies t.Repr()
    ensures !t.IsHovered() && t.Setup() == old(t.Setup())
  {
    match t
    case Nav(h) => h.OnGazeExit();
    case Info(h) => h.OnGazeExit();
  }

  /** OnInteract through the interface: a navigation or an info panel request, never both. */
  method Interact(t: Interactable, game: GameManager?, uiAvailable: bool) returns (panel: Option<InfoPanelRequest>)
    modifies game
    ensures panel == t.Setup().PanelRequest(uiAvailable)
    ensures game != null ==> Responded(game, old(game.State()), old(game.notifications), t.Setup().NavRequest())
  {
    match t
    case Nav(h) =>
      h.OnInteract(game);
      panel := None;
    case Info(h) =>
      panel := h.OnInteract(uiAvailable);
  }
}
