/**
 * The pending-frame guard of the parallax effect (app.js, lines 143, 164-170
 * and 183-189): `requestTick` asks for an animation frame only when none is
 * pending, `applyParallax` clears the pending id, and `pagehide` removes the
 * input listeners and cancels a pending frame. The offsets themselves are not
 * modelled; `applied` counts the recomputations.
 */
module FrameGuard {

  /** The guard's closure state together with the browser's animation-frame callback list. */
  datatype Frames = Frames(
    rafId: nat,          // the closure variable rafId; 0 stands for null, since frame handles are positive
    lastHandle: nat,     // the browser's last animation-frame callback identifier
    callbacks: set<nat>, // handles of applyParallax callbacks requested and neither run nor cancelled
    applied: nat,        // how many times applyParallax has run
    listening: bool)     // the mousemove, scroll and resize listeners are attached

  /** At most one frame is pending, and it is the one `rafId` names. */
  predicate Valid(f: Frames)
  {
    && f.rafId <= f.lastHandle
    && (f.listening ==> f.callbacks == if f.rafId == 0 then {} else {f.rafId})
    && (!f.listening ==> f.callbacks == {})
  }

  /** The state when `setupParallax` has attached its listeners. */
  function Setup(lastHandle: nat): (f: Frames)
    ensures Valid(f) && f.listening && f.rafId == 0 && f.applied == 0
  {
    Frames(0, lastHandle, {}, 0, true)
  }

  /** `requestTick()`: nothing when a frame is pending, otherwise `rafId = requestAnimationFrame(applyParallax)`. */
  function AfterTick(f: Frames): (r: Frames)
    ensures f.rafId != 0 ==> r == f
    ensures Valid(f) && f.listening ==> Valid(r) && r.listening && r.rafId != 0 && r.applied == f.applied
  {
    if f.rafId != 0 then f
    else
      var handle := f.lastHandle + 1;
      f.(rafId := handle, lastHandle := handle, callbacks := f.callbacks + {handle})
  }

  /** One run of `applyParallax()`: the pending id is cleared and the offsets are recomputed. */
  function AfterApply(f: Frames): (r: Frames)
    ensures r.rafId == 0 && r.applied == f.applied + 1
  {
    f.(rafId := 0, applied := f.applied + 1)
  }

  /** The browser renders a frame: every requested callback runs once and the list empties. */
  function AfterFrame(f: Frames): (r: Frames)
    ensures r.callbacks == {}
    ensures Valid(f) ==> Valid(r) && r.listening == f.listening
    ensures Valid(f) ==> r.applied == f.applied + (if f.listening && f.rafId != 0 then 1 else 0)
    ensures Valid(f) && f.listening ==> r.rafId == 0
  {
    if f.callbacks == {} then f
    else f.(rafId := 0, applied := f.applied + |f.callbacks|, callbacks := {})
  }

  /** The `pagehide` listener: input listeners removed, a pending frame cancelled. */
  function AfterPageHide(f: Frames): (r: Frames)
    ensures !r.listening && r.applied == f.applied
    ensures Valid(f) ==> Valid(r) && r.callbacks == {}
  {
    f.(listening := false, callbacks := if f.rafId != 0 then f.callbacks - {f.rafId} else f.callbacks)
  }

  /** What reaches the guard: input events, rendered frames and page hiding. */
  datatype Event = MouseMove | Scroll | Resize | Frame | PageHide

  /** Pointer moves and scrolls request a tick while their listeners are attached; resizes never do. */
  predicate Schedules(e: Event)
  {
    e.MouseMove? || e.Scroll?
  }

  function Step(f: Frames, e: Event): Frames
  {
    match e
    case MouseMove | Scroll => if f.listening then AfterTick(f) else f
    case Resize => f
    case Frame => AfterFrame(f)
    case PageHide => AfterPageHide(f)
  }

  /** The state after a sequence of events, last event last. */
  function Run(f: Frames, events: seq<Event>): Frames
    decreases |events|
  {
    if events == [] then f else Step(Run(f, events[..|events| - 1]), events[|events| - 1])
  }

  /** Every event keeps the guard valid: there is never more than one pending frame. */
  lemma {:induction false} RunKeepsValid(f: Frames, events: seq<Event>)
    requires Valid(f)
    ensures Valid(Run(f, events)) && |Run(f, events).callbacks| <= 1
    decreases |events|
  {
    if events != [] {
      RunKeepsValid(f, events[..|events| - 1]);
    }
  }

  /**
   * Between two frames, input events recompute nothing; a frame is pending
   * afterwards exactly when one was pending before or some event asked for one.
   */
  lemma {:induction false} InputsBetweenFrames(f: Frames, inputs: seq<Event>)
    requires Valid(f) && f.listening
    requires forall i :: 0 <= i < |inputs| ==> Schedules(inputs[i]) || inputs[i].Resize?
    ensures var r := Run(f, inputs);
      && Valid(r) && r.listening && r.applied == f.applied
      && (r.rafId != 0 <==> f.rafId != 0 || exists i :: 0 <= i < |inputs| && Schedules(inputs[i]))
    decreases |inputs|
  {
    if inputs != [] {
      var front := inputs[..|inputs| - 1];
      InputsBetweenFrames(f, front);
      if exists i :: 0 <= i < |front| && Schedules(front[i]) {
        var i :| 0 <= i < |front| && Schedules(front[i]);
        assert inputs[i] == front[i];
      }
      if Schedules(inputs[|inputs| - 1]) {
        assert exists i :: 0 <= i < |inputs| && Schedules(inputs[i]);
      }
    }
  }

  /**
   * Any burst of pointer, scroll and resize events followed by one frame
   * recomputes exactly once if a tick was requested or pending, and not at all otherwise.
   */
  lemma OneRecomputationPerFrame(f: Frames, inputs: seq<Event>)
    requires Valid(f) && f.listening
    requires forall i :: 0 <= i < |inputs| ==> Schedules(inputs[i]) || inputs[i].Resize?
    ensures var r := Run(f, inputs + [Frame]);
      r.applied == f.applied + (if f.rafId != 0 || exists i :: 0 <= i < |inputs| && Schedules(inputs[i]) then 1 else 0)
      && r.rafId == 0 && r.callbacks == {}
  {
    InputsBetweenFrames(f, inputs);
    assert (inputs + [Frame])[..|inputs|] == inputs;
  }

  lemma {:induction false} HiddenStaysIdle(f: Frames, events: seq<Event>)
    requires !f.listening && f.callbacks == {}
    ensures var r := Run(f, events); !r.listening && r.callbacks == {} && r.applied == f.applied
    decreases |events|
  {
    if events != [] {
      HiddenStaysIdle(f, events[..|events| - 1]);
    }
  }

  /** Once the page is hidden, no event ever runs another recomputation. */
  lemma NothingAfterPageHide(f: Frames, events: seq<Event>)
    requires Valid(f)
    ensures Run(AfterPageHide(f), events).applied == f.applied
  {
    HiddenStaysIdle(AfterPageHide(f), events);
  }

  /** The guard's closure state and the browser's callback list, updated in place. */
  class ParallaxLoop {
    var rafId: nat
    var lastHandle: nat
    var callbacks: set<nat>
    var applied: nat
    var listening: bool

    function View(): Frames
      reads this
    {
      Frames(rafId, lastHandle, callbacks, applied, listening)
    }

    /** `let rafId = null` and the three input listeners attached. */
    constructor (lastHandle: nat)
      ensures View() == Setup(lastHandle)
    {
      rafId := 0;
      this.lastHandle := lastHandle;
      callbacks := {};
      applied := 0;
      listening := true;
    }

    /** The browser's `requestAnimationFrame(applyParallax)`. */
    method RequestAnimationFrame() returns (handle: nat)
      modifies this
      ensures handle == lastHandle && handle == old(lastHandle) + 1
      ensures callbacks == old(callbacks) + {handle}
      ensures rafId == old(rafId) && applied == old(applied) && listening == old(listening)
    {
      lastHandle := lastHandle + 1;
      handle := lastHandle;
      callbacks := callbacks + {handle};
    }

    method RequestTick()
      modifies this
      ensures View() == AfterTick(old(View()))
    {
      if rafId != 0 {
        return;
      }
      rafId := RequestAnimationFrame();
    }

    method ApplyParallax()
      modifies this
      ensures View() == AfterApply(old(View()))
    {
      rafId := 0;
      applied := applied + 1;
    }

    method OnMouseMove()
      requires listening
      modifies this
      ensures View() == Step(old(View()), MouseMove)
    {
      RequestTick();
    }

    method OnScroll()
      requires listening
      modifies this
      ensures View() == Step(old(View()), Scroll)
    {
      RequestTick();
    }

    /** `onResize` updates the viewport size only; it requests no frame. */
    method OnResize()
      requires listening
      ensures View() == Step(old(View()), Resize)
    {
    }

    /** The browser renders a frame and runs each requested callback once. */
    method RunAnimationFrame()
      modifies this
      ensures View() == AfterFrame(old(View()))
    {
      var pending := callbacks;
      callbacks := {};
      while pending != {}
        invariant pending <= old(callbacks)
        invariant rafId == if pending == old(callbacks) then old(rafId) else 0
        invariant applied + |pending| == old(applied) + |old(callbacks)|
        invariant callbacks == {} && listening == old(listening) && lastHandle == old(lastHandle)
        decreases pending
      {
        var handle :| handle in pending;
        pending := pending - {handle};
        ApplyParallax();
      }
    }

    method OnPageHide()
      modifies this
      ensures View() == AfterPageHide(old(View()))
    {
      listening := false;
      if rafId != 0 {
        callbacks := callbacks - {rafId};
      }
    }
  }
}
