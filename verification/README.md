# VR campus tour: navigation, gaze activation, trigger and listener logic

A Dafny model of the decision logic in a Unity VR walkthrough of a campus.
The tour controller (`GameManager`) keeps the current location and the
locations already left behind, and raises a location-changed and a
tour-completed notification. The gazer (`GazeInteraction`) casts a ray each
frame, accumulates dwell time on the hotspot it hits, and activates that
hotspot after `gazeDuration` seconds or on a click. It drives the
`IInteractable` calls `OnGazeEnter`, `OnGazeExit` and `OnInteract`. The two
hotspots are `NavigationHotspot`, which asks the controller to navigate, and
`InfoHotspot`, which asks the UI to show a panel. Two smaller pieces complete
the model: the controller-trigger edge detector (`VRInputManager`) and the
rule that leaves a single `AudioListener` enabled (`AudioListenerManager`).

Each stateful source class is a Dafny `class` holding the fields its
decision logic reads and writes, and its methods update those fields in
place. Configuration, logging and visual fields are left out (for example
`debugMode`, `sessionStartTime`, `gazeDistance`, the layer mask, the camera,
colours, sounds and the hotspots' `originalScale`). One field is added:
`GameManager.notifications`, the log of raised notifications. Every method is proved against a pure
function on a value of the state (`Navigate`, `GazeFrame`, `NextFlags`,
`Dispatch`, `Enforced`). The properties the source promises are proved as
lemmas about those functions. Engine answers become inputs:

- the raycast hit and its `IInteractable` component;
- the mouse click and `Time.deltaTime`;
- the trigger reading and whether the XR device is valid;
- the listener array and the main camera's game object;
- whether `GameManager.Instance` and `UIManager.Instance` exist.

Events and calls become outputs:

- the controller's notifications are appended to a `notifications` log;
- the gazer returns the ordered trace of `IInteractable` calls it made;
- the info hotspot returns the panel request it would send to the UI;
- the input manager returns the event it dispatched.

Files:

- `wrappers.dfy`: `Option`.
- `locations.dfy`: the authored location records.
- `tour_navigation.dfy`: `TourNavigation`, the tour controller.
- `hotspots.dfy`: `Hotspots`, the two hotspots and `IInteractable`. The interface is the closed sum `Interactable` of its two implementations.
- `gaze_protocol.dfy`: `GazeProtocol`, one gaze frame as a function, with its lemmas.
- `gaze_interaction.dfy`: `Gaze`, the gazer class.
- `vr_input.dfy`: `VRInput`.
- `audio_listeners.dfy`: `AudioListeners`.
- `walkthrough.dfy`: `Walkthrough`, which wires a gazer, a navigation hotspot and the controller together.

Some behaviour of the code differs from what one might expect of a gaze
tour. The model keeps the code's behaviour:

- **After an activation the target is kept.** One might expect gaze to return to "no target" after an activation. In the code, `OnGazeComplete` exits the target and clears the gaze time, but `PerformGazeRaycast` returns before `currentTarget` is cleared. Continued gaze therefore needs a second full dwell, and no new `OnGazeEnter` is sent.
- **The activated target can be exited twice.** `OnTargetChanged` exits `previousTarget`, not `currentTarget`. After an activation, `previousTarget` is the target that was just exited, so moving to another hotspot exits it again (`SecondExitAfterActivation`).
- **The progress ring never reaches 1.** The activation resets the gaze time in the same frame, so between frames the fill is always below 1, and the reticle's "active" colour is never selected (`FillNeverFull`).
- **An invalid device repeats the last event.** With an invalid device, `UpdateInputStates` keeps all three flags, so a pressed event is dispatched again on the next frame (`InvalidFrameRepeatsPress`).
- **Tour completion is not one-shot.** `OnTourCompleted` fires on every navigation once the visited count has reached the number of locations.

C#'s 32-bit `currentLocationIndex ± 1` could wrap only at `int.MaxValue` or
`int.MinValue`. A wrapped value is outside `[0, TotalLocations)`, so
`NavigateToLocation` refuses it either way. The model uses unbounded
integers.

## Model

| member | source | states |
|---|---|---|
| TourNavigation.LocationCount | Assets/Scripts/Core/GameManager.cs:27 | the number of locations in the database, and 0 when no database is assigned |
| TourNavigation.GameManager.TotalLocations | Assets/Scripts/Core/GameManager.cs:27 | the controller's total is LocationCount of its configured database |
| TourNavigation.GetLocation | Assets/Scripts/Core/GameManager.cs:116-125 | None exactly when the database is missing or the index is outside the location list; otherwise the record at that index |
| TourNavigation.MarkVisited | Assets/Scripts/Core/GameManager.cs:68-71 | the marked index is in the result, the old list is a prefix of it, it grows by at most one, and no duplicate is added |
| TourNavigation.MarkVisitedMembers | Assets/Scripts/Core/GameManager.cs:68-71 | an index is in the marked list exactly when it was in the old list or is the marked index |
| TourNavigation.Navigate | Assets/Scripts/Core/GameManager.cs:59-88 | an out-of-range index changes nothing and raises nothing. A valid index becomes current, and the location left is marked visited. exactly one LocationChanged(locations[index]) is raised, followed by TourCompleted exactly when the visited count reaches the total |
| TourNavigation.NavigatePreserves | Assets/Scripts/Core/GameManager.cs:59-88 | a navigation keeps the old visited list as a prefix, adds no duplicate, and keeps the well-formedness invariant (current in range, visited in range and duplicate-free) |
| TourNavigation.VisitedOnlyGrows | Assets/Scripts/Core/GameManager.cs:68-71 | over any sequence of navigation requests the visited list only grows, never gets a duplicate, and the invariant holds throughout |
| TourNavigation.DestinationNotMarked | Assets/Scripts/Core/GameManager.cs:68-73 | after a valid navigation the destination is in the visited list only if it already was or is the location just left |
| TourNavigation.CompleteIffAllVisited | Assets/Scripts/Core/GameManager.cs:84 | in a well-formed state, visited count ≥ total holds exactly when every location index is in the visited list |
| TourNavigation.TourCompletedIffAllVisited | Assets/Scripts/Core/GameManager.cs:84-87 | a valid navigation raises TourCompleted exactly when every location has then been visited, and it raises it again on every navigation once the count has been reached |
| TourNavigation.ThreeLocationTour | Assets/Scripts/Core/GameManager.cs:59-88 | with 3 locations starting at 0, navigating to 2, 1, 0 gives visited [0,2,1] and the events LocationChanged ×3 followed by one TourCompleted |
| TourNavigation.EndsAreWhereWrappersRefuse | Assets/Scripts/Core/GameManager.cs:90-114 | in a well-formed state, IsLastLocation is exactly where next is refused and IsFirstLocation exactly where previous is refused |
| TourNavigation.GameManager.constructor | Assets/Scripts/Core/GameManager.cs:21-22 | starts at index 0 with nothing visited and nothing raised |
| TourNavigation.GameManager.InitializeGame | Assets/Scripts/Core/GameManager.cs:47-57 | current becomes the starting index and the visited list is emptied; a starting index in range gives a well-formed state |
| TourNavigation.GameManager.NavigateToLocation | Assets/Scripts/Core/GameManager.cs:59-88 | fields and raised notifications are exactly those of Navigate on the old state |
| TourNavigation.GameManager.NavigateToNextLocation | Assets/Scripts/Core/GameManager.cs:90-101 | no change when current+1 ≥ total; otherwise exactly NavigateToLocation(current+1) |
| TourNavigation.GameManager.NavigateToPreviousLocation | Assets/Scripts/Core/GameManager.cs:103-114 | no change when current−1 < 0; otherwise exactly NavigateToLocation(current−1) |
| TourNavigation.GameManager.HasVisitedLocation | Assets/Scripts/Core/GameManager.cs:127-130 | true iff the index occurs in the visited list |
| TourNavigation.GameManager.IsFirstLocation | Assets/Scripts/Core/GameManager.cs:28 | true iff the current index is 0 |
| TourNavigation.GameManager.IsLastLocation | Assets/Scripts/Core/GameManager.cs:29 | true iff the current index is total − 1 |
| Hotspots.Setup.NavRequest | Assets/Scripts/Interaction/NavigationHotspot.cs:78-95 | a navigation is requested iff the hotspot is a navigation hotspot, is interactable and has data; it goes to the stored destination index |
| Hotspots.Setup.PanelRequest | Assets/Scripts/Interaction/InfoHotspot.cs:70-87 | a panel is requested iff the hotspot is an info hotspot, is interactable, has data and a UI exists; it carries exactly the stored title and information |
| Hotspots.NavigationHotspot.constructor | Assets/Scripts/Interaction/NavigationHotspot.cs:30-33 | no data, interactable, not hovered. The interactable flag then stays true: it is part of the setup, which no hotspot or gazer method changes |
| Hotspots.NavigationHotspot.Initialize | Assets/Scripts/Interaction/NavigationHotspot.cs:49-51 | stores the data and changes no other field |
| Hotspots.NavigationHotspot.OnInteract | Assets/Scripts/Interaction/NavigationHotspot.cs:78-95 | without data or interactability the controller is untouched. Otherwise the controller changes exactly as Navigate to the destination says, so an out-of-range destination is a no-op |
| Hotspots.NavigationHotspot.OnGazeEnter | Assets/Scripts/Interaction/NavigationHotspot.cs:97-100 | sets hovered; changes nothing else |
| Hotspots.NavigationHotspot.OnGazeExit | Assets/Scripts/Interaction/NavigationHotspot.cs:102-105 | clears hovered; changes nothing else |
| Hotspots.NavigationHotspot.IsInteractable | Assets/Scripts/Interaction/NavigationHotspot.cs:107-110 | returns the stored flag |
| Hotspots.InfoHotspot.constructor | Assets/Scripts/Interaction/InfoHotspot.cs:28-31 | no data, interactable, not hovered. The interactable flag then stays true: it is part of the setup, which no hotspot or gazer method changes |
| Hotspots.InfoHotspot.Initialize | Assets/Scripts/Interaction/InfoHotspot.cs:47-49 | stores the data and changes no other field |
| Hotspots.InfoHotspot.OnInteract | Assets/Scripts/Interaction/InfoHotspot.cs:70-87 | returns the panel request PanelRequest defines, with the stored title and information; changes nothing |
| Hotspots.InfoHotspot.OnGazeEnter | Assets/Scripts/Interaction/InfoHotspot.cs:89-92 | sets hovered; changes nothing else |
| Hotspots.InfoHotspot.OnGazeExit | Assets/Scripts/Interaction/InfoHotspot.cs:94-97 | clears hovered; changes nothing else |
| Hotspots.InfoHotspot.IsInteractable | Assets/Scripts/Interaction/InfoHotspot.cs:99-102 | returns the stored flag |
| Hotspots.Interactable.IsInteractable | Assets/Scripts/Interaction/IInteractable.cs:26 | through the interface: the interactable flag the hotspot's setup carries |
| Hotspots.GazeEnter | Assets/Scripts/Interaction/IInteractable.cs:16 | through the interface: the target is hovered afterwards and its setup is unchanged |
| Hotspots.GazeExit | Assets/Scripts/Interaction/IInteractable.cs:21 | through the interface: the target is not hovered afterwards and its setup is unchanged |
| Hotspots.Interact | Assets/Scripts/Interaction/IInteractable.cs:11 | through the interface: the panel request and the controller's response are exactly those the target's setup requests; a hotspot never requests both |
| GazeProtocol.GazeFrame | Assets/Scripts/VR/GazeInteraction.cs:75-115 | after a valid hit the target is current and the gazer is gazing; otherwise there is no current target and it is not gazing |
| GazeProtocol.NewTargetProtocol | Assets/Scripts/VR/GazeInteraction.cs:145-164 | a valid hit on a new target starts with the previous target's exit (if any), then the new target's enter. The new target becomes previous, and without an activation the gaze time is exactly dt |
| GazeProtocol.SameTargetAccumulates | Assets/Scripts/VR/GazeInteraction.cs:86-94 | on the current target there is no enter or exit call, and without an activation the gaze time grows by exactly dt; an activation yields interact then exit |
| GazeProtocol.FrameCalls | Assets/Scripts/VR/GazeInteraction.cs:75-115 | the trace of a frame, case by case. A valid hit gives exit/enter when the target is new, then interact and exit when it is activated, leaving it current and previous with time 0. Otherwise the current target (if any) is exited |
| GazeProtocol.ActivationProtocol | Assets/Scripts/VR/GazeInteraction.cs:97-101 | OnInteract is called only on the activated target (valid hit and dwell ≥ duration or a click), at most once per frame, and is followed by its exit. The target stays current and previous, with gaze time 0 |
| GazeProtocol.SecondExitAfterActivation | Assets/Scripts/VR/GazeInteraction.cs:145-151 | from the state after an activation on t, looking at another hotspot u exits t again before entering u |
| GazeProtocol.NoTargetProtocol | Assets/Scripts/VR/GazeInteraction.cs:107-114 | no valid hit: the current target (if any) is exited and becomes previous with gaze time 0; the target is cleared and gazing stops |
| GazeProtocol.FramePreservesInvariant | Assets/Scripts/VR/GazeInteraction.cs:75-115 | for dt ≥ 0 every frame keeps the invariant: gazing iff a target exists; the current target is also previous; gaze time is non-negative and below the duration unless 0 |
| GazeProtocol.Clamp01 | Assets/Scripts/VR/GazeInteraction.cs:123 | the result is in [0,1], equals the input inside [0,1] and the nearer bound outside |
| GazeProtocol.GazingFill | Assets/Scripts/VR/GazeInteraction.cs:121-124 | there is a fill exactly while gazing at a target, and it lies in [0,1] |
| GazeProtocol.FillNeverFull | Assets/Scripts/VR/GazeInteraction.cs:137-140 | between frames, a gazing fill is the unclamped gaze fraction and is below 1, so the reticle's active colour is never chosen |
| GazeProtocol.DwellBelowDuration | Assets/Scripts/VR/GazeInteraction.cs:86-101 | continued gaze on the current target makes no call while the accumulated time stays below the duration; the time is the sum of the frame times |
| GazeProtocol.ActivatesAfterFullDwell | Assets/Scripts/VR/GazeInteraction.cs:92-103 | continued gaze activates on the first frame whose accumulated time reaches the duration, with exactly interact then exit, and keeps the target with time 0 |
| GazeProtocol.DwellScenario | Assets/Scripts/VR/GazeInteraction.cs:92-103 | duration 2 and frames of 0.5 from no target: enter only after 3 frames; enter, interact, exit after 4; nothing more after 5 |
| Gaze.Observe | Assets/Scripts/VR/GazeInteraction.cs:80-84 | a hit is a valid target exactly when the ray hit a collider with an IInteractable component that reports itself interactable, and the target is that component; no hit is a miss |
| Gaze.GazeInteraction.constructor | Assets/Scripts/VR/GazeInteraction.cs:32-36 | the initial state (no targets, time 0, not gazing), which satisfies the invariant |
| Gaze.GazeInteraction.OnTargetChanged | Assets/Scripts/VR/GazeInteraction.cs:145-164 | fields and call trace as TargetChanged. The new target is hovered, and a different previous target is no longer hovered. No hotspot's setup changes |
| Gaze.GazeInteraction.OnTargetLost | Assets/Scripts/VR/GazeInteraction.cs:166-175 | fields and call trace as TargetLost; the lost target is no longer hovered and its setup is unchanged |
| Gaze.GazeInteraction.OnGazeComplete | Assets/Scripts/VR/GazeInteraction.cs:177-193 | fields and trace as GazeComplete. The panel request and the controller's response are those of the current target's setup before the call |
| Gaze.GazeInteraction.DwellOn | Assets/Scripts/VR/GazeInteraction.cs:92-101 | t becomes current and gazing, the gaze time grows by dt, and when it reaches the duration or on a click the fields and trace are those of GazeComplete. Only then are t's panel and navigation requested, and t is left unhovered. Otherwise no call is made and t's hover flag is unchanged. t's setup is kept |
| Gaze.GazeInteraction.SwitchTo | Assets/Scripts/VR/GazeInteraction.cs:86-101 | a valid hit on a new target t: fields and trace as GazeFrame. t is activated iff dt ≥ duration or a click; t ends hovered iff not activated. A distinct previous target ends unhovered. No setup changes |
| Gaze.GazeInteraction.GazeAt | Assets/Scripts/VR/GazeInteraction.cs:84-104 | the valid-hit branch: fields and trace as GazeFrame. An activation (dwell ≥ duration or click) produces exactly the target's panel request and navigation. The target ends hovered when newly entered and not activated, unhovered after an activation, and unchanged when it was already current. A distinct previous target is exited only when the target is new. No setup changes |
| Gaze.GazeInteraction.LoseTarget | Assets/Scripts/VR/GazeInteraction.cs:107-114 | the no-valid-target branch: fields and trace as GazeFrame; the lost target ends unhovered with its setup unchanged |
| Gaze.GazeInteraction.PerformGazeRaycast | Assets/Scripts/VR/GazeInteraction.cs:75-115 | fields and trace exactly as GazeFrame, and the invariant is kept for dt ≥ 0. On a valid hit: the activated target's navigation reaches the controller and its panel request is returned; the target and a distinct previous target end hovered or not as GazeAt says. Without a valid hit: nothing is requested, the lost target ends unhovered and a distinct previous target is untouched. The current, previous and hit targets all keep their setups |
| Walkthrough.GazeNavigates | Assets/Scripts/Interaction/NavigationHotspot.cs:89-92 | 3 locations and a hotspot to location 2, gazed at for four 0.5 s frames with duration 2. The tour is then at 2 with visited [0], one LocationChanged for that location has been raised, and the calls were enter, interact, exit. The hotspot stays targeted |
| VRInput.ValidFrame | Assets/Scripts/VR/VRInputManager.cs:36-47 | a valid frame sets pressed to value ≥ threshold and never sets down and up together. The event is pressed on a rising edge, released on a falling edge, held while the trigger stays down, and none otherwise |
| VRInput.HeldOnlyWhilePressed | Assets/Scripts/VR/VRInputManager.cs:51-65 | held is dispatched only when pressed and neither down nor up is set; nothing is dispatched exactly when no flag is set |
| VRInput.PressesBalanceReleases | Assets/Scripts/VR/VRInputManager.cs:41-47 | over any run of valid frames, #pressed − #released events equals the change of the pressed flag, so presses and releases alternate |
| VRInput.InvalidFrameRepeatsPress | Assets/Scripts/VR/VRInputManager.cs:34-48 | a press followed by an invalid-device frame dispatches the pressed event twice |
| VRInput.VRInputManager.constructor | Assets/Scripts/VR/VRInputManager.cs:14-19 | all flags false, with the given threshold |
| VRInput.VRInputManager.UpdateInputStates | Assets/Scripts/VR/VRInputManager.cs:32-49 | the flags become NextFlags of the old flags and the reading |
| VRInput.VRInputManager.ProcessInput | Assets/Scripts/VR/VRInputManager.cs:51-65 | returns the single event Dispatch picks from the flags; changes nothing |
| VRInput.VRInputManager.Update | Assets/Scripts/VR/VRInputManager.cs:26-30 | one step of Run: the new flags and the dispatched event are those of the one-frame run |
| VRInput.VRInputManager.IsTriggerPressed | Assets/Scripts/VR/VRInputManager.cs:67 | the stored pressed flag |
| VRInput.VRInputManager.IsTriggerDown | Assets/Scripts/VR/VRInputManager.cs:68 | the stored down flag |
| VRInput.VRInputManager.IsTriggerUp | Assets/Scripts/VR/VRInputManager.cs:69 | the stored up flag |
| AudioListeners.FirstEligible | Assets/Scripts/Utils/AudioListenerManager.cs:27-40 | the index of the first listener on the main camera (the first of all without a camera); None exactly when no listener qualifies |
| AudioListeners.KeepFirstEligible | Assets/Scripts/Utils/AudioListenerManager.cs:25-46 | after the loop and the fix-up, exactly the kept listener is enabled: the first eligible one, or listener 0 when none is eligible |
| AudioListeners.EnforceSingleListener | Assets/Scripts/Utils/AudioListenerManager.cs:15-48 | the enabled flags become exactly Enforced of the old flags: unchanged with at most one listener, otherwise only the kept listener enabled |
| AudioListeners.ExactlyOneEnabled | Assets/Scripts/Utils/AudioListenerManager.cs:19-47 | with more than one listener exactly one is enabled afterwards |
| AudioListeners.FewListenersUntouched | Assets/Scripts/Utils/AudioListenerManager.cs:19 | with zero or one listener no flag changes |
| AudioListeners.NoCameraKeepsFirst | Assets/Scripts/Utils/AudioListenerManager.cs:29-33 | with no main camera, listener 0 is kept and every other is disabled |
| AudioListeners.CameraKeepsFirstOnCamera | Assets/Scripts/Utils/AudioListenerManager.cs:27-46 | with a main camera, the first listener on it is the only one enabled, so later ones on the camera are disabled. If none is on it, listener 0 is the only one enabled |

## Left out

- Rendering, audio and timing: reticle colours and the fill's decay, hotspot pulse and scale animation, sounds and debug logging. These are floating-point visuals or engine calls.
- Time: `Time.deltaTime` is the `dt` input. `Time.time` and the session duration are not modelled, and neither is `GetTourProgress`, which is a float division.
- Engine queries are inputs: `Physics.Raycast`, `GetComponent`, `Camera.main`, `Mouse.current`, `InputDevices` and `FindObjectsByType`. A frame without a main camera, where Update returns early, is simply not performed.
- The scene and UI side of hotspot `Initialize` (label, sprite, tag, layer) is not modelled. A null data argument is not modelled either: the model always stores the given data.
- VRInputManager's `GetPrimaryAxis` and `GetPrimaryButtonDown` are not modelled. They only relay device values.
- GameManager's `Awake`, `ValidateConfiguration`, `LogCurrentState` and the `CurrentLocation` property are not modelled. They only log or wrap `GetLocation`.
- Gaze.GazeInteraction.PerformGazeRaycast: hits are abstract, with no layer mask and no distance. The hotspots' identity stands in for C# interface reference equality. Each class's own `Update` is not modelled. Destroying a hotspot while it is targeted is not modelled.
- Gaze times are exact: `currentGazeTime`, `dt` and `gazeDuration` are `real`s, while the source uses 32-bit `float`. Float rounding of the accumulated gaze time is not modelled, and near the threshold it can move the frame on which `currentGazeTime >= gazeDuration` first holds. Rounding of the fill's division is not modelled either.
- GazeProtocol.GazingFill: requires a positive gaze duration. With a zero duration the C# float division gives NaN or infinity, and `Mathf.Clamp01` maps that to an engine-defined value.
- AudioListeners.EnforceSingleListener: requires the array to hold each listener once, which `FindObjectsByType` guarantees. Game objects are compared by an integer identity.
- Singletons: `GameManager.Instance` and `UIManager.Instance` are parameters, as `GameManager?` and a `uiAvailable` flag. The UI's reaction to `ShowInfoPanel` is returned as a request and not modelled further.
