/**
 * The controller trigger (VR/VRInputManager.cs): each frame the trigger
 * reading of the dominant-hand device is turned into pressed/down/up flags,
 * and at most one of the pressed, released and held events is dispatched
 * from them. The device query is an input: a frame's reading is either an
 * invalid device or a valid one with its trigger value.
 */
module VRInput {
  import opened Wrappers

  datatype DeviceReading = InvalidDevice | ValidDevice(triggerValue: real)

  /** The three stored flags: held this frame, pressed this frame, released this frame. */
  datatype TriggerFlags = TriggerFlags(pressed: bool, down: bool, up: bool)

  /** OnTriggerPressed, OnTriggerReleased and OnTriggerHeld. */
  datatype TriggerEvent = TriggerPressed | TriggerReleased | TriggerHeld

  /**
   * UpdateInputStates: with an invalid device the flags stay as they were;
   * with a valid one the trigger counts as held at or above the threshold,
   * and down/up are the rising and falling edges against the stored flag.
   */
  function NextFlags(f: TriggerFlags, reading: DeviceReading, threshold: real): TriggerFlags
  {
    match reading
    case InvalidDevice => f
    case ValidDevice(value) =>
      var now := value >= threshold;
      TriggerFlags(now, now && !f.pressed, !now && f.pressed)
  }

  /** ProcessInput: the first of down, up and held that is set picks the one event of the frame. */
  function Dispatch(f: TriggerFlags): Option<TriggerEvent>
  {
    if f.down then Some(TriggerPressed)
    else if f.up then Some(TriggerReleased)
    else if f.pressed then Some(TriggerHeld)
    else None
  }

  /**
   * A frame with a valid device, in terms of the trigger alone: it sets
   * pressed to the threshold test, never sets down and up together, and its
   * event is pressed on a rising edge, released on a falling edge, held
   * while the trigger stays down and none while it stays up.
   */
  lemma ValidFrame(f: TriggerFlags, value: real, threshold: real)
    ensures var g := NextFlags(f, ValidDevice(value), threshold);
      && g.pressed == (value >= threshold)
      && !(g.down && g.up)
      && (Dispatch(g) == Some(TriggerPressed) <==> value >= threshold && !f.pressed)
      && (Dispatch(g) == Some(TriggerReleased) <==> value < threshold && f.pressed)
      && (Dispatch(g) == Some(TriggerHeld) <==> value >= threshold && f.pressed)
      && (Dispatch(g) == None <==> value < threshold && !f.pressed)
  {
  }

  /** Held is dispatched only while the trigger is held and was not pressed this frame. */
  lemma HeldOnlyWhilePressed(f: TriggerFlags)
    ensures Dispatch(f) == Some(TriggerHeld) ==> f.pressed && !f.down && !f.up
    ensures Dispatch(f) == None <==> !f.down && !f.up && !f.pressed
  {
  }

  /** The flags and the events of a run of frames, in order. */
  function Run(f: TriggerFlags, readings: seq<DeviceReading>, threshold: real): (TriggerFlags, seq<TriggerEvent>)
    decreases |readings|
  {
    if |readings| == 0 then (f, [])
    else
      var g := NextFlags(f, readings[0], threshold);
      var e := Dispatch(g);
      var (last, events) := Run(g, readings[1..], threshold);
      (last, (if e.Some? then [e.value] else []) + events)
  }

  function Count(events: seq<TriggerEvent>, e: TriggerEvent): nat
  {
    if |events| == 0 then 0
    else (if events[0] == e then 1 else 0) + Count(events[1..], e)
  }

  function Bit(b: bool): int
  {
    if b then 1 else 0
  }

  predicate AllValid(readings: seq<DeviceReading>)
  {
    forall k :: 0 <= k < |readings| ==> readings[k].ValidDevice?
  }

  /**
   * While the device stays valid, pressed and released events balance:
   * their difference over a run is exactly the change of the held flag, so
   * a press is never reported twice without a release between.
   */
  lemma {:induction false} PressesBalanceReleases(f: TriggerFlags, readings: seq<DeviceReading>, threshold: real)
    requires AllValid(readings)
    ensures var (last, events) := Run(f, readings, threshold);
      Count(events, TriggerPressed) - Count(events, TriggerReleased) == Bit(last.pressed) - Bit(f.pressed)
    decreases |readings|
  {
    if |readings| > 0 {
      var g := NextFlags(f, readings[0], threshold);
      assert AllValid(readings[1..]) by {
        forall k | 0 <= k < |readings[1..]|
          ensures readings[1..][k].ValidDevice?
        {
          assert readings[1..][k] == readings[k + 1];
        }
      }
      PressesBalanceReleases(g, readings[1..], threshold);
      var e := Dispatch(g);
      var (last, events) := Run(g, readings[1..], threshold);
      CountAppend(if e.Some? then [e.value] else [], events, TriggerPressed);
      CountAppend(if e.Some? then [e.value] else [], events, TriggerReleased);
    }
  }

  lemma {:induction false} CountAppend(a: seq<TriggerEvent>, b: seq<TriggerEvent>, e: TriggerEvent)
    ensures Count(a + b, e) == Count(a, e) + Count(b, e)
    decreases |a|
  {
    if |a| == 0 {
      assert a + b == b;
    } else {
      assert (a + b)[0] == a[0];
      assert (a + b)[1..] == a[1..] + b;
      CountAppend(a[1..], b, e);
    }
  }

  /**
   * An invalid-device frame keeps every flag, so the frame after a press
   * dispatches the pressed event a second time.
   */
  lemma InvalidFrameRepeatsPress(f: TriggerFlags, value: real, threshold: real)
    requires !f.pressed && value >= threshold
    ensures Run(f, [ValidDevice(value), InvalidDevice], threshold).1 == [TriggerPressed, TriggerPressed]
  {
    var g := NextFlags(f, ValidDevice(value), threshold);
    assert g.down;
    assert [ValidDevice(value), InvalidDevice][1..] == [InvalidDevice];
    assert [InvalidDevice][1..] == [];
  }

  class VRInputManager {
    /** Serialized trigger threshold (0.7 by default). */
    const triggerThreshold: real

    var triggerPressed: bool
    var triggerDown: bool
    var triggerUp: bool

    function Flags(): TriggerFlags
      reads this
    {
      TriggerFlags(triggerPressed, triggerDown, triggerUp)
    }

    constructor (triggerThreshold: real)
      ensures this.triggerThreshold == triggerThreshold
      ensures Flags() == TriggerFlags(false, false, false)
    {
      this.triggerThreshold := triggerThreshold;
      triggerPressed := false;
      triggerDown := false;
      triggerUp := false;
    }

    method UpdateInputStates(reading: DeviceReading)
      modifies this
      ensures Flags() == NextFlags(old(Flags()), reading, triggerThreshold)
    {
      if reading.ValidDevice? {
        var currentTriggerPressed := reading.triggerValue >= triggerThreshold;
        triggerDown := currentTriggerPressed && !triggerPressed;
        triggerUp := !currentTriggerPressed && triggerPressed;
        triggerPressed := currentTriggerPressed;
      }
    }

    /** The event invoked this frame, if any. */
    method ProcessInput() returns (event: Option<TriggerEvent>)
      ensures event == Dispatch(Flags())
    {
      if triggerDown {
        event := Some(TriggerPressed);
      } else if triggerUp {
        event := Some(TriggerReleased);
      } else if triggerPressed {
        event := Some(TriggerHeld);
      } else {
        event := None;
      }
    }

    /** Update: read the device, then dispatch; one step of Run. */
    method Update(reading: DeviceReading) returns (event: Option<TriggerEvent>)
      modifies this
      ensures Flags() == Run(old(Flags()), [reading], triggerThreshold).0
      ensures (if event.Some? then [event.value] else []) == Run(old(Flags()), [reading], triggerThreshold).1
    {
      UpdateInputStates(reading);
      event := ProcessInput();
      assert [reading][1..] == [];
    }

    function IsTriggerPressed(): (r: bool)
      reads this
      ensures r == Flags().pressed
    {
      triggerPressed
    }

    function IsTriggerDown(): (r: bool)
      reads this
      ensures r == Flags().down
    {
      triggerDown
    }

    function IsTriggerUp(): (r: bool)
      reads this
      ensures r == Flags().up
    {
      triggerUp
    }
  }
}
