/** One iteration of the demo's render loop (src/main.cpp) over the window
    layer: begin the frame, read the taps, consume the mouse delta, turn the
    camera, pick the draw path, snapshot and poll input, end the frame.
    The loop runs frames until the window's close flag is set. */
module MainLoop {
  import opened Assets
  import Window
  import opened Controls
  import Draw

  /** Everything the loop carries from one frame to the next. */
  datatype State = State(app: Window.App, sel: Selection, cam: Camera) {
    predicate Valid() {
      app.Valid() && sel.Valid() && InPitchRange(cam.pitch)
    }
  }

  /** The state after window creation and asset loading, before the first frame. */
  function InitialState(): (s: State)
    ensures s.Valid() && !s.app.shouldClose
    ensures s.sel == InitialSelection()
    ensures Window.FrameTime(s.app.timing) == 0.0
  {
    State(Window.InitialApp, InitialSelection(), InitialCamera)
  }

  /** What the outside world supplies to one frame: the clock at BeginFrame,
      the clock read by the custom draw mode, the events the poll in Loop
      delivers, and the clock at EndFrame. */
  datatype FrameInput = FrameInput(begin: real, clock: real, events: seq<Window.Event>, end: real)

  /** The state for the next frame, the `dt` this frame read, and the draw commands it issued. */
  datatype FrameOutput = FrameOutput(next: State, dt: real, commands: seq<Draw.Command>)

  /** The window state once the top of the frame has run: BeginFrame, the
      Escape request and the consumed mouse delta, before drawing and Loop. */
  function TopOfFrame(s: State, input: FrameInput): (app: Window.App)
    requires s.Valid()
    ensures app.Valid() && app.keys == s.app.keys
    ensures app.mouse == s.app.mouse.(delta := Window.Zero)
    ensures app.shouldClose <==> s.app.shouldClose || TapsOf(s.app.keys).escape
    ensures Window.FrameTime(app.timing) == Window.FrameTime(s.app.timing) && app.timing.begin == input.begin
  {
    var timing := Window.BeginFrame(s.app.timing, input.begin);
    var handled := HandleTaps(s.sel, TapsOf(s.app.keys));
    var read := Window.GetMouseDelta(s.app.mouse);
    s.app.(timing := timing, mouse := read.1, shouldClose := s.app.shouldClose || handled.1)
  }

  /** One pass of the `while (!WindowShouldClose())` body. */
  function Frame(s: State, input: FrameInput): (r: FrameOutput)
    requires s.Valid() && Window.EventsOk(input.events)
    ensures r.next.Valid()
    // dt is the previous frame's duration, as BeginFrame leaves FrameTime alone
    ensures r.dt == Window.FrameTime(s.app.timing)
    ensures Window.FrameTime(r.next.app.timing) == input.end - input.begin
    // the taps read at the top of the frame drive the selection and the close request
    ensures r.next.sel == HandleTaps(s.sel, TapsOf(s.app.keys)).0
    ensures r.next.app.shouldClose <==> s.app.shouldClose || TapsOf(s.app.keys).escape || Window.HasClose(input.events)
    // the whole stored delta, and only it, turns the camera
    ensures r.next.cam == Look(s.cam, s.app.mouse.delta)
    // snapshot rule: the previous table is the current one from the top of the frame
    ensures r.next.app.keys.prev == s.app.keys.curr
    // exactly one balanced draw path, chosen by the updated selection
    ensures Draw.Balanced(r.commands) && |Draw.Meshes(r.commands)| == 1
    ensures r.commands == Draw.DrawPath(r.next.sel.draw, r.next.sel.mesh, r.next.sel.texture, input.clock)
  {
    var app := TopOfFrame(s, input);
    var dt := Window.FrameTime(app.timing);
    var sel := HandleTaps(s.sel, TapsOf(s.app.keys)).0;
    var cam := Look(s.cam, Window.GetMouseDelta(s.app.mouse).0);
    var commands := Draw.DrawPath(sel.draw, sel.mesh, sel.texture, input.clock);
    var polled := Window.Loop(app, input.events);
    var next := polled.(timing := Window.EndFrame(polled.timing, input.end));
    FrameOutput(State(next, sel, cam), dt, commands)
  }

  /** After a frame each key's current entry is the last non-repeat action its
      poll reported, or what it was before. */
  lemma FrameKeyState(s: State, input: FrameInput, key: int)
    requires s.Valid() && Window.EventsOk(input.events) && Window.IsKey(key)
    ensures Frame(s, input).next.app.keys.curr[key] == Window.LastAction(input.events, key, s.app.keys.curr[key])
  {
    var app := TopOfFrame(s, input);
    Window.PollKeyState(app.(keys := Window.Snapshot(app.keys)), input.events, key);
  }

  /** The mouse after a frame: the delta read at the top of the frame is gone,
      and only cursor events of this frame's poll can put a new one in place. */
  lemma FrameMouseState(s: State, input: FrameInput)
    requires s.Valid() && Window.EventsOk(input.events)
    ensures var ps, m, m0 := Window.Positions(input.events), Frame(s, input).next.app.mouse, s.app.mouse;
            && (|ps| == 0 ==> m == m0.(delta := Window.Zero))
            && (|ps| > 0 ==> m.prev == ps[|ps| - 1] && !m.first)
            && (|ps| >= 2 ==> m.delta == Window.Sub(ps[|ps| - 1], ps[|ps| - 2]))
            && (|ps| == 1 && m0.first ==> m.delta == Window.Zero)
            && (|ps| == 1 && !m0.first ==> m.delta == Window.Sub(ps[0], m0.prev))
  {
    var app := TopOfFrame(s, input);
    assert Frame(s, input).next.app.mouse == Window.Loop(app, input.events).mouse;
    Window.LoopMouseState(app, input.events);
  }

  /** A mouse delta turns the camera in one frame only: after a frame with no
      cursor event, the next frame's turn is by a zero delta. */
  lemma StaleDeltaNotReused(s: State, a: FrameInput, b: FrameInput)
    requires s.Valid() && Window.EventsOk(a.events) && Window.EventsOk(b.events)
    requires forall i :: 0 <= i < |a.events| ==> !a.events[i].CursorEvent?
    ensures var n := Frame(s, a).next;
            Frame(n, b).next.cam == Look(n.cam, Window.Zero)
  {
    Window.PositionsEmpty(a.events);
    FrameMouseState(s, a);
  }

  /** The tap the next frame sees for `key`: held at the top of this frame and
      released by the last key event of this frame's poll. */
  lemma NextFrameTap(s: State, input: FrameInput, key: int)
    requires s.Valid() && Window.EventsOk(input.events) && Window.IsKey(key)
    ensures Window.IsKeyPressed(Frame(s, input).next.app.keys, key)
        <==> s.app.keys.curr[key] == Window.PRESS && Window.LastAction(input.events, key, Window.PRESS) == Window.RELEASE
  {
    FrameKeyState(s, input, key);
  }

  /** `dt` lags one frame: the value read in a frame is the duration of the
      frame before it, and 0 in the very first frame. */
  lemma DtIsPreviousFrameTime(s: State, a: FrameInput, b: FrameInput)
    requires s.Valid() && Window.EventsOk(a.events) && Window.EventsOk(b.events)
    ensures Frame(InitialState(), a).dt == 0.0
    ensures Frame(Frame(s, a).next, b).dt == a.end - a.begin
  {
  }

  predicate InputsOk(inputs: seq<FrameInput>) {
    forall i :: 0 <= i < |inputs| ==> Window.EventsOk(inputs[i].events)
  }

  lemma InputsOkTail(inputs: seq<FrameInput>)
    requires InputsOk(inputs) && |inputs| > 0
    ensures InputsOk(inputs[1..])
  {
    forall i | 0 <= i < |inputs[1..]|
      ensures Window.EventsOk(inputs[1..][i].events)
    {
      assert inputs[1..][i] == inputs[i + 1];
    }
  }

  /** Reference definition: the state after the first `k` frames, run one
      after another with no look at the close flag. */
  function After(s: State, inputs: seq<FrameInput>, k: nat): (r: State)
    requires s.Valid() && InputsOk(inputs) && k <= |inputs|
    ensures r.Valid()
    decreases k
  {
    if k == 0 then s
    else
      InputsOkTail(inputs);
      After(Frame(s, inputs[0]).next, inputs[1..], k - 1)
  }

  /** Reference definition: the draw commands of the first `k` frames, in order. */
  function Drawn(s: State, inputs: seq<FrameInput>, k: nat): seq<Draw.Command>
    requires s.Valid() && InputsOk(inputs) && k <= |inputs|
    decreases k
  {
    if k == 0 then []
    else
      InputsOkTail(inputs);
      var f := Frame(s, inputs[0]);
      f.commands + Drawn(f.next, inputs[1..], k - 1)
  }

  /** The final state, how many frames ran, and every draw command issued. */
  datatype LoopOutput = LoopOutput(last: State, frames: nat, commands: seq<Draw.Command>)

  /** `while (!WindowShouldClose()) { ... }` over a finite supply of frame inputs. */
  function RunLoop(s: State, inputs: seq<FrameInput>): (r: LoopOutput)
    requires s.Valid() && InputsOk(inputs)
    ensures r.last.Valid()
    ensures r.frames <= |inputs|
    ensures r.frames < |inputs| ==> r.last.app.shouldClose
    ensures s.app.shouldClose || |inputs| == 0 ==> r.frames == 0 && r.last == s && r.commands == []
    // an open window runs at least one frame
    ensures !s.app.shouldClose && |inputs| > 0 ==> r.frames >= 1
    // every frame run draws exactly one mesh
    ensures |Draw.Meshes(r.commands)| == r.frames
    ensures Draw.Balanced(r.commands)
    decreases |inputs|
  {
    if s.app.shouldClose || |inputs| == 0 then LoopOutput(s, 0, [])
    else
      var f := Frame(s, inputs[0]);
      InputsOkTail(inputs);
      var rest := RunLoop(f.next, inputs[1..]);
      Draw.BalancedConcat(f.commands, rest.commands);
      Draw.CollectAppend(f.commands, rest.commands, Draw.MeshOf);
      LoopOutput(rest.last, rest.frames + 1, f.commands + rest.commands)
  }

  /** One turn of the loop on an open window: run a frame, then the rest. */
  lemma RunLoopUnfold(s: State, inputs: seq<FrameInput>)
    requires s.Valid() && InputsOk(inputs) && |inputs| > 0 && !s.app.shouldClose
    ensures InputsOk(inputs[1..])
    ensures RunLoop(s, inputs).frames == RunLoop(Frame(s, inputs[0]).next, inputs[1..]).frames + 1
    ensures RunLoop(s, inputs).last == RunLoop(Frame(s, inputs[0]).next, inputs[1..]).last
    ensures RunLoop(s, inputs).commands == Frame(s, inputs[0]).commands + RunLoop(Frame(s, inputs[0]).next, inputs[1..]).commands
  {
    InputsOkTail(inputs);
  }

  /** One step of the reference iteration: the first frame, then the rest. */
  lemma AfterUnfold(s: State, inputs: seq<FrameInput>, k: nat)
    requires s.Valid() && InputsOk(inputs) && 0 < k <= |inputs|
    ensures InputsOk(inputs[1..])
    ensures After(s, inputs, k) == After(Frame(s, inputs[0]).next, inputs[1..], k - 1)
    ensures Drawn(s, inputs, k) == Frame(s, inputs[0]).commands + Drawn(Frame(s, inputs[0]).next, inputs[1..], k - 1)
  {
    InputsOkTail(inputs);
  }

  /** The loop against the reference iteration: every frame it runs starts
      with the close flag clear. */
  lemma {:induction false} RunLoopRunsWhileOpen(s: State, inputs: seq<FrameInput>)
    requires s.Valid() && InputsOk(inputs)
    ensures forall k :: 0 <= k < RunLoop(s, inputs).frames ==> !After(s, inputs, k).app.shouldClose
    decreases |inputs|
  {
    if !s.app.shouldClose && |inputs| > 0 {
      var n := Frame(s, inputs[0]).next;
      RunLoopUnfold(s, inputs);
      RunLoopRunsWhileOpen(n, inputs[1..]);
      forall k | 0 < k < RunLoop(s, inputs).frames
        ensures !After(s, inputs, k).app.shouldClose
      {
        AfterUnfold(s, inputs, k);
      }
    }
  }

  /** The loop ends in the state its frames reach one after another. */
  lemma {:induction false} RunLoopLast(s: State, inputs: seq<FrameInput>)
    requires s.Valid() && InputsOk(inputs)
    ensures RunLoop(s, inputs).last == After(s, inputs, RunLoop(s, inputs).frames)
    decreases |inputs|
  {
    if !s.app.shouldClose && |inputs| > 0 {
      var n := Frame(s, inputs[0]).next;
      RunLoopUnfold(s, inputs);
      RunLoopLast(n, inputs[1..]);
      var frames := RunLoop(n, inputs[1..]).frames;
      assert RunLoop(s, inputs).frames == frames + 1;
      AfterUnfold(s, inputs, frames + 1);
    }
  }

  /** The loop's command stream is that of the frames it ran, in order. */
  lemma {:induction false} RunLoopDraws(s: State, inputs: seq<FrameInput>)
    requires s.Valid() && InputsOk(inputs)
    ensures RunLoop(s, inputs).commands == Drawn(s, inputs, RunLoop(s, inputs).frames)
    decreases |inputs|
  {
    if !s.app.shouldClose && |inputs| > 0 {
      var n := Frame(s, inputs[0]).next;
      RunLoopUnfold(s, inputs);
      RunLoopDraws(n, inputs[1..]);
      var frames := RunLoop(n, inputs[1..]).frames;
      assert RunLoop(s, inputs).frames == frames + 1;
      AfterUnfold(s, inputs, frames + 1);
    }
  }

  /** On an open window the first frame's draw commands come first. */
  lemma FirstFrameDrawnFirst(s: State, inputs: seq<FrameInput>)
    requires s.Valid() && InputsOk(inputs) && |inputs| > 0 && !s.app.shouldClose
    ensures var f := Frame(s, inputs[0]).commands;
            |f| <= |RunLoop(s, inputs).commands| && RunLoop(s, inputs).commands[..|f|] == f
  {
    RunLoopUnfold(s, inputs);
    var f := Frame(s, inputs[0]).commands;
    assert RunLoop(s, inputs).commands[..|f|] == f;
  }

  /** A frame that sets the close flag, by any means, is the last one run. */
  lemma CloseFrameIsLast(s: State, inputs: seq<FrameInput>)
    requires s.Valid() && InputsOk(inputs) && |inputs| > 0
    requires !s.app.shouldClose && Frame(s, inputs[0]).next.app.shouldClose
    ensures RunLoop(s, inputs).frames == 1
  {
    RunLoopRunsWhileOpen(s, inputs);
    AfterUnfold(s, inputs, 1);
  }

  /** The frame in which Escape is tapped is still drawn in full, and it is the last one. */
  lemma EscapeEndsLoop(s: State, inputs: seq<FrameInput>)
    requires s.Valid() && InputsOk(inputs) && |inputs| > 0
    requires !s.app.shouldClose && TapsOf(s.app.keys).escape
    ensures RunLoop(s, inputs).frames == 1
  {
    CloseFrameIsLast(s, inputs);
  }

  /** The same holds for the window's own close request arriving in a poll. */
  lemma CloseRequestEndsLoop(s: State, inputs: seq<FrameInput>)
    requires s.Valid() && InputsOk(inputs) && |inputs| > 0
    requires !s.app.shouldClose && Window.HasClose(inputs[0].events)
    ensures RunLoop(s, inputs).frames == 1
  {
    CloseFrameIsLast(s, inputs);
  }

  /** A press and release delivered by the same poll never registers as a tap:
      the snapshot is taken before the poll, so the key is not held in it. */
  lemma TapWithinOnePollIsLost(s: State, input: FrameInput, key: int)
    requires s.Valid() && Window.IsKey(key)
    requires s.app.keys.curr[key] == Window.RELEASE
    requires input.events == [Window.KeyEvent(key, Window.PRESS), Window.KeyEvent(key, Window.RELEASE)]
    ensures Window.EventsOk(input.events)
    ensures !Window.IsKeyPressed(Frame(s, input).next.app.keys, key)
  {
    NextFrameTap(s, input, key);
  }

  /** A frame whose only events are one key action, with every clock at `t`. */
  function KeyFrame(t: real, key: int, action: int): FrameInput {
    FrameInput(t, t, [Window.KeyEvent(key, action)], t)
  }

  /** The key tables after a frame with a single non-repeat key event. */
  lemma KeyFrameTables(s: State, t: real, key: int, action: int)
    requires s.Valid() && Window.IsKey(key) && action != Window.REPEAT
    ensures Window.EventsOk(KeyFrame(t, key, action).events)
    ensures var keys := Frame(s, KeyFrame(t, key, action)).next.app.keys;
            keys.prev == s.app.keys.curr && keys.curr == s.app.keys.curr[key := action]
  {
    var input := KeyFrame(t, key, action);
    assert Window.EventOk(input.events[0]);
    var keys := Frame(s, input).next.app.keys;
    forall k | 0 <= k < Window.KEY_COUNT
      ensures keys.curr[k] == s.app.keys.curr[key := action][k]
    {
      FrameKeyState(s, input, k);
      assert input.events[..0] == [];
    }
  }

  /** From start-up: press and release Tab, then press and release Y. The Tab
      tap is seen at the top of the third frame, which already draws the
      sphere; the Y tap, at the top of the fifth, switches to the tcoord mode,
      which draws the head whatever the mesh index. */
  lemma TapScenario(t: real)
    ensures var f1 := Frame(InitialState(), KeyFrame(t, Window.KEY_TAB, Window.PRESS));
            var f2 := Frame(f1.next, KeyFrame(t, Window.KEY_TAB, Window.RELEASE));
            var f3 := Frame(f2.next, KeyFrame(t, Window.KEY_Y, Window.PRESS));
            var f4 := Frame(f3.next, KeyFrame(t, Window.KEY_Y, Window.RELEASE));
            var f5 := Frame(f4.next, FrameInput(t, t, [], t));
            && f2.next.sel == InitialSelection()
            && f3.next.sel.mesh == MESH_SPHERE
            && Draw.Meshes(f3.commands) == [Draw.Table(MESH_SPHERE)]
            && f4.next.sel.draw == A4_PAR_SHAPES_NORMAL_SHADER
            && f5.next.sel == Selection(A4_OBJ_FILE_TCOORDS_SHADER, MESH_SPHERE, TEXTURE_GRADIENT_COOL)
            && Draw.Meshes(f5.commands) == [Draw.Table(MESH_HEAD)]
  {
    var released := Window.InitialKeyboard().curr;
    var s0 := InitialState();
    var f1 := Frame(s0, KeyFrame(t, Window.KEY_TAB, Window.PRESS));
    KeyFrameTables(s0, t, Window.KEY_TAB, Window.PRESS);
    assert TapsOf(s0.app.keys) == Taps(false, false, false, false);
    assert f1.next.sel == InitialSelection();

    var f2 := Frame(f1.next, KeyFrame(t, Window.KEY_TAB, Window.RELEASE));
    KeyFrameTables(f1.next, t, Window.KEY_TAB, Window.RELEASE);
    assert TapsOf(f1.next.app.keys) == Taps(false, false, false, false);
    assert f2.next.sel == InitialSelection();
    assert f2.next.app.keys == Window.Keyboard(released[Window.KEY_TAB := Window.PRESS], released);

    var f3 := Frame(f2.next, KeyFrame(t, Window.KEY_Y, Window.PRESS));
    KeyFrameTables(f2.next, t, Window.KEY_Y, Window.PRESS);
    assert TapsOf(f2.next.app.keys) == Taps(false, true, false, false);
    assert f3.next.sel == Selection(A4_PAR_SHAPES_NORMAL_SHADER, MESH_SPHERE, TEXTURE_GRADIENT_COOL);

    var f4 := Frame(f3.next, KeyFrame(t, Window.KEY_Y, Window.RELEASE));
    KeyFrameTables(f3.next, t, Window.KEY_Y, Window.RELEASE);
    assert TapsOf(f3.next.app.keys) == Taps(false, false, false, false);
    assert f4.next.app.keys == Window.Keyboard(released[Window.KEY_Y := Window.PRESS], released);

    var f5 := Frame(f4.next, FrameInput(t, t, [], t));
    assert TapsOf(f4.next.app.keys) == Taps(false, false, false, true);
  }
}
