/**
 * Single-listener enforcement (Utils/AudioListenerManager.cs): of the
 * AudioListeners in the scene, keep exactly one enabled — the first one on
 * the main camera's game object, or the first of all when there is no main
 * camera — and disable the others. The scene query is an input: the array
 * of listeners FindObjectsByType returns, each with the identity of its
 * game object, and the main camera's game object (None when Camera.main is
 * null).
 */
module AudioListeners {
  import opened Wrappers

  /** The identity of a scene object, compared as the engine compares gameObject references. */
  type GameObjectId = int

  class AudioListener {
    const gameObject: GameObjectId
    var enabled: bool

    constructor (gameObject: GameObjectId, enabled: bool)
      ensures this.gameObject == gameObject && this.enabled == enabled
    {
      this.gameObject := gameObject;
      this.enabled := enabled;
    }
  }

  /** The loop's test for keeping a listener, once none has been kept: no main camera, or on it. */
  predicate Eligible(mainCam: Option<GameObjectId>, gameObject: GameObjectId)
  {
    mainCam.None? || gameObject == mainCam.value
  }

  /** The game objects of the listeners, in array order. */
  function GameObjects(listeners: seq<AudioListener>): (r: seq<GameObjectId>)
    ensures |r| == |listeners|
    ensures forall i :: 0 <= i < |listeners| ==> r[i] == listeners[i].gameObject
  {
    if |listeners| == 0 then []
    else [listeners[0].gameObject] + GameObjects(listeners[1..])
  }

  /** The position of the first eligible listener, if any. */
  function FirstEligible(mainCam: Option<GameObjectId>, objects: seq<GameObjectId>): (r: Option<nat>)
    ensures r.Some? ==> r.value < |objects| && Eligible(mainCam, objects[r.value])
    ensures r.Some? ==> forall j :: 0 <= j < r.value ==> !Eligible(mainCam, objects[j])
    ensures r.None? ==> forall j :: 0 <= j < |objects| ==> !Eligible(mainCam, objects[j])
  {
    if |objects| == 0 then None
    else if Eligible(mainCam, objects[0]) then Some(0)
    else match FirstEligible(mainCam, objects[1..])
      case None => None
      case Some(k) => Some(k + 1)
  }

  /** The listener left enabled: the first eligible one, or index 0 when none is. */
  function Kept(mainCam: Option<GameObjectId>, objects: seq<GameObjectId>): nat
  {
    match FirstEligible(mainCam, objects)
    case Some(k) => k
    case None => 0
  }

  /**
   * The enabled flags after enforcement: unchanged with at most one
   * listener, otherwise only the kept listener enabled.
   */
  function Enforced(mainCam: Option<GameObjectId>, objects: seq<GameObjectId>, enabled: seq<bool>): seq<bool>
    requires |enabled| == |objects|
  {
    if |objects| <= 1 then enabled
    else seq(|objects|, j => j == Kept(mainCam, objects))
  }

  function EnabledCount(flags: seq<bool>): nat
  {
    if |flags| == 0 then 0
    else (if flags[0] then 1 else 0) + EnabledCount(flags[1..])
  }

  /** With more than one listener, exactly one is enabled afterwards. */
  lemma ExactlyOneEnabled(mainCam: Option<GameObjectId>, objects: seq<GameObjectId>, enabled: seq<bool>)
    requires |enabled| == |objects| > 1
    ensures EnabledCount(Enforced(mainCam, objects, enabled)) == 1
  {
    var k := Kept(mainCam, objects);
    OnlyOneSet(Enforced(mainCam, objects, enabled), k);
  }

  lemma {:induction false} OnlyOneSet(flags: seq<bool>, k: nat)
    requires k < |flags|
    requires forall j :: 0 <= j < |flags| ==> flags[j] == (j == k)
    ensures EnabledCount(flags) == 1
    decreases |flags|
  {
    if k == 0 {
      NoneSet(flags[1..]);
    } else {
      OnlyOneSet(flags[1..], k - 1);
    }
  }

  lemma {:induction false} NoneSet(flags: seq<bool>)
    requires forall j :: 0 <= j < |flags| ==> !flags[j]
    ensures EnabledCount(flags) == 0
    decreases |flags|
  {
    if |flags| > 0 {
      NoneSet(flags[1..]);
    }
  }

  /** With zero or one listener nothing changes. */
  lemma FewListenersUntouched(mainCam: Option<GameObjectId>, objects: seq<GameObjectId>, enabled: seq<bool>)
    requires |enabled| == |objects| <= 1
    ensures Enforced(mainCam, objects, enabled) == enabled
  {
  }

  /** Without a main camera the first listener is the one kept. */
  lemma NoCameraKeepsFirst(objects: seq<GameObjectId>, enabled: seq<bool>)
    requires |enabled| == |objects| > 1
    ensures var r := Enforced(None, objects, enabled);
      r[0] && forall j :: 0 < j < |r| ==> !r[j]
  {
  }

  /**
   * With a main camera, the first listener on it is kept and every other
   * one is disabled, later listeners on the camera included; when none is on
   * it, the listener at index 0 is kept.
   */
  lemma CameraKeepsFirstOnCamera(cam: GameObjectId, objects: seq<GameObjectId>, enabled: seq<bool>)
    requires |enabled| == |objects| > 1
    ensures var r := Enforced(Some(cam), objects, enabled);
      forall j :: 0 <= j < |r| ==> (r[j] <==>
        if cam in objects then objects[j] == cam && forall i :: 0 <= i < j ==> objects[i] != cam
        else j == 0)
  {
    var first := FirstEligible(Some(cam), objects);
    if first.Some? {
      assert cam in objects by {
        assert objects[first.value] == cam;
      }
    }
  }

  /** Flags where only the kept listener is set are the enforced flags of any listener set of that size. */
  lemma OnlyKeptIsEnforced(mainCam: Option<GameObjectId>, objects: seq<GameObjectId>, before: seq<bool>, after: seq<bool>)
    requires |before| == |objects| == |after| > 1
    requires forall j :: 0 <= j < |after| ==> after[j] == (j == Kept(mainCam, objects))
    ensures after == Enforced(mainCam, objects, before)
  {
  }

  /**
   * EnforceSingleListener: with more than one listener, the loop keeps the
   * first eligible one and the fix-up re-enables listener 0 when it kept
   * none; with at most one listener nothing is touched. The engine returns
   * each listener once.
   */
  method EnforceSingleListener(listeners: array<AudioListener>, mainCam: Option<GameObjectId>)
    requires forall i, j :: 0 <= i < j < listeners.Length ==> listeners[i] != listeners[j]
    modifies set i | 0 <= i < listeners.Length :: listeners[i]
    ensures EnabledFlags(listeners[..]) == Enforced(mainCam, GameObjects(listeners[..]), old(EnabledFlags(listeners[..])))
  {
    if listeners.Length > 1 {
      KeepFirstEligible(listeners, mainCam);
      OnlyKeptIsEnforced(mainCam, GameObjects(listeners[..]), old(EnabledFlags(listeners[..])), EnabledFlags(listeners[..]));
    }
  }

  /**
   * The loop over the listeners and the fix-up after it: afterwards exactly
   * the kept listener is enabled.
   */
  method KeepFirstEligible(listeners: array<AudioListener>, mainCam: Option<GameObjectId>)
    requires forall i, j :: 0 <= i < j < listeners.Length ==> listeners[i] != listeners[j]
    modifies set i | 0 <= i < listeners.Length :: listeners[i]
    ensures forall j :: 0 <= j < listeners.Length ==> listeners[j].enabled == (j == Kept(mainCam, GameObjects(listeners[..])))
  {
    ghost var objects := GameObjects(listeners[..]);
    ghost var first := FirstEligible(mainCam, objects);
    var keptOne := false;
    var i := 0;
    while i < listeners.Length
      invariant 0 <= i <= listeners.Length
      invariant keptOne <==> first.Some? && first.value < i
      invariant forall j :: 0 <= j < i ==> listeners[j].enabled == (first == Some(j))
    {
      var listener := listeners[i];
      assert listener.gameObject == objects[i];
      if !keptOne && (mainCam.None? || listener.gameObject == mainCam.value) {
        listener.enabled := true;
        keptOne := true;
      } else {
        listener.enabled := false;
      }
      i := i + 1;
    }
    if !keptOne && listeners.Length > 0 {
      listeners[0].enabled := true;
    }
  }

  function EnabledFlags(listeners: seq<AudioListener>): (r: seq<bool>)
    reads set i | 0 <= i < |listeners| :: listeners[i]
    ensures |r| == |listeners|
    ensures forall i :: 0 <= i < |listeners| ==> r[i] == listeners[i].enabled
  {
    if |listeners| == 0 then []
    else [listeners[0].enabled] + EnabledFlags(listeners[1..])
  }
}
