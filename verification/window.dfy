/** The input and frame-timing layer of the demo's window (src/Window.cpp).

    The process-wide `App` record becomes an immutable value and every
    callback becomes a pure transition on it: two key tables give edge
    detection, the cursor callback keeps a consume-once mouse delta, and
    BeginFrame/EndFrame record clock readings passed in as parameters.
    The GLFW event poll is an ordered sequence of events applied in turn. */
module Window {

  // GLFW action codes delivered to the keyboard callback.
  const RELEASE: int := 0
  const PRESS: int := 1
  const REPEAT: int := 2

  // GLFW key codes of the tap keys the demo reads.
  const KEY_T: int := 84
  const KEY_Y: int := 89
  const KEY_ESCAPE: int := 256
  const KEY_TAB: int := 258

  /** Length of each key table: one slot per GLFW key code up to GLFW_KEY_LAST (348). */
  const KEY_COUNT: int := 349

  /** A key code that indexes the key tables. `KeyboardCallback` indexes them without checking this. */
  predicate IsKey(key: int) {
    0 <= key < KEY_COUNT
  }

  // ---------------------------------------------------------------------
  // Keyboard

  /** `keys_prev` and `keys_curr`: the last action stored for every key code,
      as of the last snapshot and as of now. */
  datatype Keyboard = Keyboard(prev: seq<int>, curr: seq<int>) {
    predicate Valid() {
      |prev| == KEY_COUNT && |curr| == KEY_COUNT
    }
  }

  /** Both tables zero-initialised, i.e. every key released. */
  function InitialKeyboard(): (kb: Keyboard)
    ensures kb.Valid()
    ensures forall k :: 0 <= k < KEY_COUNT ==> IsKeyUp(kb, k)
    ensures forall k :: 0 <= k < KEY_COUNT ==> !IsKeyPressed(kb, k)
  {
    Keyboard(seq(KEY_COUNT, _ => RELEASE), seq(KEY_COUNT, _ => RELEASE))
  }

  /** KeyboardCallback: a repeat event is dropped; any other action is
      stored as-is in the current table for that key and nowhere else. */
  function OnKey(kb: Keyboard, key: int, action: int): (r: Keyboard)
    requires kb.Valid() && IsKey(key)
    ensures r.Valid()
    ensures r.prev == kb.prev
    ensures action == REPEAT ==> r == kb
    ensures action != REPEAT ==> r.curr[key] == action
    ensures forall k :: 0 <= k < KEY_COUNT && k != key ==> r.curr[k] == kb.curr[k]
  {
    if action == REPEAT then kb else kb.(curr := kb.curr[key := action])
  }

  /** The key is currently held: a held key was neither released nor is
      its entry a repeat, which the keyboard callback never stores. */
  function IsKeyDown(kb: Keyboard, key: int): (down: bool)
    requires kb.Valid() && IsKey(key)
    ensures down ==> kb.curr[key] != RELEASE && kb.curr[key] != REPEAT
  {
    kb.curr[key] == PRESS
  }

  /** The key is currently released; never true together with IsKeyDown. */
  function IsKeyUp(kb: Keyboard, key: int): (up: bool)
    requires kb.Valid() && IsKey(key)
    ensures up ==> !IsKeyDown(kb, key)
  {
    kb.curr[key] == RELEASE
  }

  /** The demo's "tap" signal: held at the last snapshot and released now.
      This is a release edge, kept with the source's polarity. */
  function IsKeyPressed(kb: Keyboard, key: int): (edge: bool)
    requires kb.Valid() && IsKey(key)
    ensures edge ==> IsKeyUp(kb, key) && !IsKeyDown(kb, key)
    ensures edge <==> kb.prev[key] == PRESS && IsKeyUp(kb, key)
  {
    kb.prev[key] == PRESS && kb.curr[key] == RELEASE
  }

  /** The key-table part of Loop: copy the current table into the previous one. */
  function Snapshot(kb: Keyboard): (r: Keyboard)
    requires kb.Valid()
    ensures r.Valid()
    ensures r.prev == kb.curr && r.curr == kb.curr
    ensures forall k :: 0 <= k < KEY_COUNT ==> !IsKeyPressed(r, k)
  {
    Keyboard(kb.curr, kb.curr)
  }

  /** IsKeyDown and IsKeyUp look at nothing but the current entry of their key. */
  lemma KeyQueriesAreLocal(a: Keyboard, b: Keyboard, key: int)
    requires a.Valid() && b.Valid() && IsKey(key)
    requires a.curr[key] == b.curr[key]
    ensures IsKeyDown(a, key) == IsKeyDown(b, key)
    ensures IsKeyUp(a, key) == IsKeyUp(b, key)
  {
  }

  // ---------------------------------------------------------------------
  // Mouse

  datatype Vec2 = Vec2(x: real, y: real)

  const Zero: Vec2 := Vec2(0.0, 0.0)

  function Sub(a: Vec2, b: Vec2): Vec2 {
    Vec2(a.x - b.x, a.y - b.y)
  }

  /** Last cursor position, the unread delta, and the first-sample flag. */
  datatype Mouse = Mouse(prev: Vec2, delta: Vec2, first: bool)

  const InitialMouse: Mouse := Mouse(Zero, Zero, true)

  /** MousePosCallback: the first sample only sets the baseline (zero delta);
      every later sample replaces the delta with the step from the last
      position. The new position becomes the last position. */
  function OnCursor(m: Mouse, pos: Vec2): (r: Mouse)
    ensures r.prev == pos && !r.first
    ensures m.first ==> r.delta == Zero
    ensures !m.first ==> r.delta == Sub(pos, m.prev)
  {
    var base := if m.first then pos else m.prev;
    Mouse(pos, Sub(pos, base), false)
  }

  /** GetMouseDelta: hand out the stored delta and zero it; the position
      baseline and the first-sample flag stay as they were. */
  function GetMouseDelta(m: Mouse): (r: (Vec2, Mouse))
    ensures r.0 == m.delta
    ensures r.1.delta == Zero
    ensures r.1.prev == m.prev && r.1.first == m.first
  {
    (m.delta, m.(delta := Zero))
  }

  /** A second read with no cursor event in between yields a zero delta. */
  lemma MouseDeltaConsumedOnce(m: Mouse)
    ensures GetMouseDelta(GetMouseDelta(m).1).0 == Zero
  {
  }

  /** Two cursor events in a row: the delta is the step between them, whatever
      the state or unread delta before them. */
  lemma CursorDeltaOverwrites(m: Mouse, p: Vec2, q: Vec2)
    ensures OnCursor(OnCursor(m, p), q).delta == Sub(q, p)
  {
  }

  // ---------------------------------------------------------------------
  // Frame timing

  /** `frame_time_begin`, `frame_time_end`, `frame_time_delta`. */
  datatype Timing = Timing(begin: real, end: real, delta: real)

  const InitialTiming: Timing := Timing(0.0, 0.0, 0.0)

  function FrameTime(t: Timing): real {
    t.delta
  }

  /** BeginFrame records the clock and leaves FrameTime alone, so a read right
      after it sees the previous frame's duration. */
  function BeginFrame(t: Timing, now: real): (r: Timing)
    ensures r.begin == now
    ensures FrameTime(r) == FrameTime(t)
  {
    t.(begin := now)
  }

  /** EndFrame records the clock and makes FrameTime the time since BeginFrame. */
  function EndFrame(t: Timing, now: real): (r: Timing)
    ensures r.begin == t.begin && r.end == now
    ensures FrameTime(r) == now - t.begin
  {
    t.(end := now, delta := now - t.begin)
  }

  /** FrameTime is 0 until the first EndFrame, even after a BeginFrame. */
  lemma FrameTimeZeroBeforeEndFrame(now: real)
    ensures FrameTime(InitialTiming) == 0.0
    ensures FrameTime(BeginFrame(InitialTiming, now)) == 0.0
  {
  }

  /** FrameTime read in the middle of a frame is the duration of the last
      completed frame: the next BeginFrame does not disturb it. */
  lemma FrameTimeReadsLastFrame(t: Timing, b1: real, e1: real, b2: real)
    ensures FrameTime(BeginFrame(EndFrame(BeginFrame(t, b1), e1), b2)) == e1 - b1
  {
  }

  /** A BeginFrame/EndFrame pair measures the span between its two clock readings. */
  lemma FrameTimeMeasuresFrame(t: Timing, b: real, e: real)
    ensures FrameTime(EndFrame(BeginFrame(t, b), e)) == e - b
  {
  }

  // ---------------------------------------------------------------------
  // Whole input state and event polling

  /** One event delivered by the poll: a key callback, a cursor callback, or
      the platform asking the window to close. */
  datatype Event = KeyEvent(key: int, action: int) | CursorEvent(pos: Vec2) | CloseEvent

  predicate EventOk(e: Event) {
    e.KeyEvent? ==> IsKey(e.key)
  }

  predicate EventsOk(evs: seq<Event>) {
    forall i :: 0 <= i < |evs| ==> EventOk(evs[i])
  }

  /** The `App` record, with the window's close flag in place of the window handle. */
  datatype App = App(keys: Keyboard, mouse: Mouse, timing: Timing, shouldClose: bool) {
    predicate Valid() {
      keys.Valid()
    }
  }

  const InitialApp: App := App(InitialKeyboard(), InitialMouse, InitialTiming, false)

  /** Run the callback an event triggers. Each event touches only its own
      part of the state: key events the current key table, cursor events the
      mouse, and a close request the close flag. */
  function Deliver(app: App, e: Event): (r: App)
    requires app.Valid() && EventOk(e)
    ensures r.Valid()
    ensures r.keys.prev == app.keys.prev && r.timing == app.timing
    ensures r.shouldClose <==> app.shouldClose || e.CloseEvent?
    ensures !e.KeyEvent? ==> r.keys == app.keys
    ensures !e.CursorEvent? ==> r.mouse == app.mouse
    ensures e.KeyEvent? ==> r.keys == OnKey(app.keys, e.key, e.action)
    ensures e.CursorEvent? ==> r.mouse == OnCursor(app.mouse, e.pos)
  {
    match e
    case KeyEvent(key, action) => app.(keys := OnKey(app.keys, key, action))
    case CursorEvent(pos) => app.(mouse := OnCursor(app.mouse, pos))
    case CloseEvent => app.(shouldClose := true)
  }

  /** Some event of the poll is a close request. */
  predicate HasClose(evs: seq<Event>) {
    exists i :: 0 <= i < |evs| && evs[i].CloseEvent?
  }

  /** glfwPollEvents: deliver the pending events in order. The close flag
      ends up set exactly when it was set before or some event asked for it. */
  function Poll(app: App, evs: seq<Event>): (r: App)
    requires app.Valid() && EventsOk(evs)
    ensures r.Valid()
    ensures r.keys.prev == app.keys.prev && r.timing == app.timing
    ensures r.shouldClose <==> app.shouldClose || HasClose(evs)
    decreases |evs|
  {
    if |evs| == 0 then app
    else
      assert EventsOk(evs[1..]) by {
        forall i | 0 <= i < |evs[1..]|
          ensures EventOk(evs[1..][i])
        {
          assert evs[1..][i] == evs[i + 1];
        }
      }
      assert HasClose(evs) <==> evs[0].CloseEvent? || HasClose(evs[1..]) by {
        if HasClose(evs) && !evs[0].CloseEvent? {
          var i :| 0 <= i < |evs| && evs[i].CloseEvent?;
          assert evs[1..][i - 1] == evs[i];
        }
        if HasClose(evs[1..]) {
          var j :| 0 <= j < |evs[1..]| && evs[1..][j].CloseEvent?;
          assert evs[j + 1] == evs[1..][j];
        }
      }
      Poll(Deliver(app, evs[0]), evs[1..])
  }

  /** Loop: snapshot the key table, then poll (presenting the frame is left out). */
  function Loop(app: App, evs: seq<Event>): (r: App)
    requires app.Valid() && EventsOk(evs)
    ensures r.Valid()
    ensures r.keys.prev == app.keys.curr
    ensures r.timing == app.timing
    ensures r.shouldClose <==> app.shouldClose || HasClose(evs)
  {
    Poll(app.(keys := Snapshot(app.keys)), evs)
  }

  /** Reference definition: the action of the last non-repeat event for `key`,
      or `initial` when there is none. */
  function LastAction(evs: seq<Event>, key: int, initial: int): int
    decreases |evs|
  {
    if |evs| == 0 then initial
    else
      var e := evs[|evs| - 1];
      if e.KeyEvent? && e.key == key && e.action != REPEAT then e.action
      else LastAction(evs[..|evs| - 1], key, initial)
  }

  /** Reference definition: the cursor positions reported, in order. */
  function Positions(evs: seq<Event>): seq<Vec2>
    decreases |evs|
  {
    if |evs| == 0 then []
    else
      var e := evs[|evs| - 1];
      Positions(evs[..|evs| - 1]) + (if e.CursorEvent? then [e.pos] else [])
  }

  /** Polling a sequence with one more event at its end delivers that event last. */
  lemma {:induction false} PollSnoc(app: App, evs: seq<Event>, e: Event)
    requires app.Valid() && EventsOk(evs) && EventOk(e)
    ensures EventsOk(evs + [e])
    ensures Poll(app, evs + [e]) == Deliver(Poll(app, evs), e)
    decreases |evs|
  {
    var all := evs + [e];
    assert forall i :: 0 <= i < |all| ==> EventOk(all[i]) by {
      forall i | 0 <= i < |all|
        ensures EventOk(all[i])
      {
        if i < |evs| { assert all[i] == evs[i]; } else { assert all[i] == e; }
      }
    }
    if |evs| == 0 {
      assert all == [e];
    } else {
      assert all[0] == evs[0];
      assert all[1..] == evs[1..] + [e];
      assert EventsOk(evs[1..]) by {
        forall i | 0 <= i < |evs[1..]|
          ensures EventOk(evs[1..][i])
        {
          assert evs[1..][i] == evs[i + 1];
        }
      }
      PollSnoc(Deliver(app, evs[0]), evs[1..], e);
    }
  }

  lemma EventsOkPrefix(evs: seq<Event>, n: nat)
    requires EventsOk(evs) && n <= |evs|
    ensures EventsOk(evs[..n])
  {
    assert forall i :: 0 <= i < n ==> evs[..n][i] == evs[i];
  }

  /** After a poll, each key's current entry is the last non-repeat action
      reported for it, or what it was before when there was none. */
  lemma {:induction false} PollKeyState(app: App, evs: seq<Event>, key: int)
    requires app.Valid() && EventsOk(evs) && IsKey(key)
    ensures Poll(app, evs).keys.curr[key] == LastAction(evs, key, app.keys.curr[key])
    decreases |evs|
  {
    if |evs| > 0 {
      var n := |evs| - 1;
      var front, e := evs[..n], evs[n];
      assert evs == front + [e];
      EventsOkPrefix(evs, n);
      assert EventOk(e);
      PollSnoc(app, front, e);
      PollKeyState(app, front, key);
    }
  }

  /** After a poll the stored delta is the step between the last two reported
      positions; with one position it is measured from the stored baseline (or
      is zero on the very first sample); with none the mouse is untouched. */
  lemma {:induction false} PollMouseState(app: App, evs: seq<Event>)
    requires app.Valid() && EventsOk(evs)
    ensures var ps, m := Positions(evs), Poll(app, evs).mouse;
            && (|ps| == 0 ==> m == app.mouse)
            && (|ps| > 0 ==> m.prev == ps[|ps| - 1] && !m.first)
            && (|ps| >= 2 ==> m.delta == Sub(ps[|ps| - 1], ps[|ps| - 2]))
            && (|ps| == 1 && app.mouse.first ==> m.delta == Zero)
            && (|ps| == 1 && !app.mouse.first ==> m.delta == Sub(ps[0], app.mouse.prev))
    decreases |evs|
  {
    if |evs| > 0 {
      var n := |evs| - 1;
      var front, e := evs[..n], evs[n];
      assert evs == front + [e];
      EventsOkPrefix(evs, n);
      assert EventOk(e);
      PollSnoc(app, front, e);
      PollMouseState(app, front);
    }
  }

  /** The level queries after a poll: a key is down exactly when the last
      non-repeat action reported for it is a press, and up exactly when it is
      a release (with no such action, the state from before the poll holds). */
  lemma KeyLevelAfterPoll(app: App, evs: seq<Event>, key: int)
    requires app.Valid() && EventsOk(evs) && IsKey(key)
    ensures IsKeyDown(Poll(app, evs).keys, key) <==> LastAction(evs, key, app.keys.curr[key]) == PRESS
    ensures IsKeyUp(Poll(app, evs).keys, key) <==> LastAction(evs, key, app.keys.curr[key]) == RELEASE
  {
    PollKeyState(app, evs, key);
  }

  /** The reference list of positions is empty exactly when no cursor event
      was delivered. */
  lemma {:induction false} PositionsEmpty(evs: seq<Event>)
    ensures |Positions(evs)| == 0 <==> forall i :: 0 <= i < |evs| ==> !evs[i].CursorEvent?
    decreases |evs|
  {
    if |evs| > 0 {
      var front := evs[..|evs| - 1];
      assert forall i :: 0 <= i < |front| ==> front[i] == evs[i];
      PositionsEmpty(front);
    }
  }

  /** The snapshot in Loop leaves the mouse alone, so Loop moves it exactly as
      its poll does. */
  lemma LoopMouseState(app: App, evs: seq<Event>)
    requires app.Valid() && EventsOk(evs)
    ensures var ps, m := Positions(evs), Loop(app, evs).mouse;
            && (|ps| == 0 ==> m == app.mouse)
            && (|ps| > 0 ==> m.prev == ps[|ps| - 1] && !m.first)
            && (|ps| >= 2 ==> m.delta == Sub(ps[|ps| - 1], ps[|ps| - 2]))
            && (|ps| == 1 && app.mouse.first ==> m.delta == Zero)
            && (|ps| == 1 && !app.mouse.first ==> m.delta == Sub(ps[0], app.mouse.prev))
  {
    PollMouseState(app.(keys := Snapshot(app.keys)), evs);
  }

  /** Edge detection across one Loop: the tap fires for `key` exactly when the
      key was held before the snapshot and the last action the poll reported
      for it is a release. */
  lemma LoopEdge(app: App, evs: seq<Event>, key: int)
    requires app.Valid() && EventsOk(evs) && IsKey(key)
    ensures IsKeyPressed(Loop(app, evs).keys, key)
        <==> app.keys.curr[key] == PRESS && LastAction(evs, key, PRESS) == RELEASE
  {
    PollKeyState(app.(keys := Snapshot(app.keys)), evs, key);
  }

  /** With no non-repeat event for `key`, LastAction keeps the initial value. */
  lemma {:induction false} LastActionUntouched(evs: seq<Event>, key: int, initial: int)
    requires forall i :: 0 <= i < |evs| && evs[i].KeyEvent? && evs[i].key == key ==> evs[i].action == REPEAT
    ensures LastAction(evs, key, initial) == initial
    decreases |evs|
  {
    if |evs| > 0 {
      var front := evs[..|evs| - 1];
      assert forall i :: 0 <= i < |front| ==> front[i] == evs[i];
      LastActionUntouched(front, key, initial);
    }
  }

  /** After Loop no tap fires until a keyboard event for that key arrives. */
  lemma NoEdgeWithoutKeyEvent(app: App, evs: seq<Event>, key: int)
    requires app.Valid() && EventsOk(evs) && IsKey(key)
    requires forall i :: 0 <= i < |evs| && evs[i].KeyEvent? && evs[i].key == key ==> evs[i].action == REPEAT
    ensures !IsKeyPressed(Loop(app, evs).keys, key)
  {
    var snap := app.(keys := Snapshot(app.keys));
    PollKeyState(snap, evs, key);
    LastActionUntouched(evs, key, app.keys.curr[key]);
  }

  /** A tap seen in one frame cannot be seen again in the next: the snapshot
      makes the released state the previous one. */
  lemma NoRepeatedEdge(app: App, evs: seq<Event>, key: int)
    requires app.Valid() && EventsOk(evs) && IsKey(key)
    requires IsKeyPressed(app.keys, key)
    ensures !IsKeyPressed(Loop(app, evs).keys, key)
  {
  }
}
