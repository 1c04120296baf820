# Input handling and draw dispatch of a small OpenGL demo, in Dafny

The demo opens a window, loads a few meshes, textures and shader programs, and
renders a mouse-look camera scene in one of five switchable draw modes. Apart
from calls into GLFW, OpenGL and ImGui, its logic is two pieces, and this
project models both as pure functions over immutable values:

- **The window layer** (`src/Window.cpp`). It keeps two key tables,
  `keys_prev` and `keys_curr`, for edge detection. The keyboard callback drops
  repeats. `Loop` snapshots the current table into the previous one and then
  polls events. The cursor callback keeps a first-sample flag and a delta that
  `GetMouseDelta` hands out once. `BeginFrame`, `EndFrame` and `FrameTime`
  measure frames.
- **The main loop** (`src/main.cpp`). Tab, T and Y cycle the mesh, texture and
  draw-mode indices modulo their enumeration sizes. Escape requests close. The
  mouse turns the camera, and its pitch is clamped to ±89°. A five-way
  `switch` picks the shader, an optional texture and the mesh to draw.

Modules:

| module | file | models |
|---|---|---|
| `Window` | window.dfy | key tables, `KeyboardCallback`, `IsKeyDown/Up/Pressed`, `MousePosCallback`, `GetMouseDelta`, frame timing, `Loop` as snapshot + ordered event poll |
| `Assets` | assets.dfy | the four enumerations of main.cpp, as table indices |
| `Controls` | controls.dfy | truncating `%`, cycle steps, selection state, tap handling, pitch clamp, mouse look |
| `Draw` | draw.dfy | draw commands, a GL binding simulator that checks strict bracket nesting, the `switch (draw_index)` as a command trace |
| `MainLoop` | main_loop.dfy | one frame of the render loop, the loop until the close flag is set, end-to-end scenarios |

Clock readings, the events that `glfwPollEvents` delivers and the time the
custom mode reads through `Time()` all become parameters. The poll is an
ordered sequence of `KeyEvent`, `CursorEvent` and `CloseEvent`. `CloseEvent`
is the platform's own close request (the window's close button), and it sets
the same flag as `SetWindowShouldClose(true)`.

Constants:

- GLFW actions are RELEASE 0, PRESS 1 and REPEAT 2. The zero-initialised key
  tables therefore start with every key released.
- Key codes are GLFW's: Escape 256, Tab 258, T 84, Y 89.
- `KEY_COUNT` is defined in `Window.h`, which is not part of this model. It is
  taken here as 349, one slot per GLFW key code up to `GLFW_KEY_LAST` (348).

The mouse delta is not accumulated. `MousePosCallback` overwrites it with the
latest step (src/Window.cpp:85-86), so movement reported by an earlier callback
in the same poll is lost. `Window.PollMouseState` and
`Window.CursorDeltaOverwrites` state this behaviour.

## Model

| member | source | states |
|---|---|---|
| `Window.InitialKeyboard` | src/Window.cpp:17-18 | both zero-initialised tables have KEY_COUNT entries; every key is up and no tap is pending |
| `Window.OnKey` | src/Window.cpp:30-34 | a repeat leaves both tables unchanged; any other action is stored as-is at `curr[key]`; every other current entry and the whole previous table are unchanged |
| `Window.IsKeyDown` | src/Window.cpp:189-192 | a key that is down holds neither a release nor a repeat in its current entry |
| `Window.IsKeyUp` | src/Window.cpp:194-197 | a key that is up is never also down |
| `Window.KeyQueriesAreLocal` | src/Window.cpp:189-197 | IsKeyDown and IsKeyUp depend only on the key's own current entry |
| `Window.IsKeyPressed` | src/Window.cpp:199-204 | the tap is a release edge: previous entry PRESS and the key up now; it implies the key is up and not down |
| `Window.Snapshot` | src/Window.cpp:157-159 | after the snapshot both tables equal the current table from before it, so no tap fires for any key |
| `Window.Loop` | src/Window.cpp:157-163 | after Loop the previous table is exactly the current table as it was before the call; the timing is untouched; the close flag is set exactly when it was before or the poll held a close request |
| `Window.Deliver` | src/Window.cpp:162 | each delivered event runs its own callback and touches nothing else: a key event changes only the current key table (as `OnKey`), a cursor event only the mouse (as `OnCursor`), and a close request only sets the close flag |
| `Window.Poll` | src/Window.cpp:157-163 | polling keeps the table sizes and leaves the previous table and the timing alone; the close flag ends up set exactly when it was set before or some delivered event is a close request |
| `Window.PollKeyState` | src/Window.cpp:30-34 | after a poll each key's current entry is the last non-repeat action delivered for it, or its old value if there was none |
| `Window.KeyLevelAfterPoll` | src/Window.cpp:189-197 | after a poll a key is down exactly when the last non-repeat action reported for it is a press, and up exactly when it is a release |
| `Window.PositionsEmpty` | src/Window.cpp:76-90 | no cursor position is recorded exactly when the poll delivered no cursor event |
| `Window.LoopMouseState` | src/Window.cpp:157-163 | the snapshot leaves the mouse alone: after Loop with no cursor event the mouse is unchanged; otherwise the baseline is the last reported position and the delta the step between the last two positions, or from the old baseline for a single one (zero on the first sample) |
| `Window.LoopEdge` | src/Window.cpp:199-204 | after Loop a key taps exactly when it was held before the snapshot and the last action the poll delivered for it is a release |
| `Window.NoEdgeWithoutKeyEvent` | src/Window.cpp:157-159 | after Loop no tap fires for a key that gets no non-repeat keyboard event |
| `Window.NoRepeatedEdge` | src/Window.cpp:157-159 | a tap seen in one frame cannot be seen again after the next Loop, whatever that poll delivers |
| `Window.OnCursor` | src/Window.cpp:76-90 | the first sample stores a zero delta at any coordinates and clears the flag; a later one sets the delta to the new position minus the last; the new position becomes the last |
| `Window.CursorDeltaOverwrites` | src/Window.cpp:85-89 | after two cursor events the delta is the step between them, whatever delta was unread before: it replaces, never adds |
| `Window.PollMouseState` | src/Window.cpp:76-90 | after a poll the delta is the step between the last two reported positions; with one position it is measured from the stored baseline (zero on the first sample); with none the mouse state is unchanged |
| `Window.GetMouseDelta` | src/Window.cpp:228-236 | returns the stored delta and leaves zero behind, keeping the baseline and the first-sample flag |
| `Window.MouseDeltaConsumedOnce` | src/Window.cpp:228-235 | a second read with no cursor event in between returns (0, 0) |
| `Window.BeginFrame` | src/Window.cpp:165-168 | records the start time and leaves FrameTime unchanged |
| `Window.EndFrame` | src/Window.cpp:170-174 | records the end time; FrameTime becomes end minus the recorded start |
| `Window.FrameTimeZeroBeforeEndFrame` | src/Window.cpp:19-21 | FrameTime is 0 initially and still 0 after a BeginFrame that no EndFrame has followed |
| `Window.FrameTimeReadsLastFrame` | src/Window.cpp:147-150 | FrameTime read after the next BeginFrame is the duration of the last completed frame |
| `Window.FrameTimeMeasuresFrame` | src/Window.cpp:165-174 | a BeginFrame/EndFrame pair makes FrameTime the span between its two clock readings |
| `Controls.Cycle` | src/main.cpp:122-124 | from any index of at least -1 the step lands in [0, N); inside the range it is the successor, with the last index wrapping to 0 |
| `Controls.CRem` | src/main.cpp:122 | C++ `%`: the remainder lies strictly between -N and N, has the dividend's sign, differs from the dividend by a multiple of N (which fixes it as the truncating remainder), and agrees with the mathematical remainder for non-negative dividends |
| `Controls.CRemOdd` | src/main.cpp:122 | negating the dividend negates the remainder, as truncation toward zero requires |
| `Controls.CycleTimes` | src/main.cpp:122-124 | any number of cycle steps from an in-range index stays in range |
| `Controls.CycleTimesWrapsOnce` | src/main.cpp:122-124 | up to N steps add the step count and wrap at most once |
| `Controls.CycleFullLap` | src/main.cpp:122-124 | N steps over N entries return the index to its starting value |
| `Controls.InitialSelection` | src/main.cpp:112-114 | the start is draw mode A4_PAR_SHAPES_NORMAL_SHADER, mesh MESH_PLANE and texture TEXTURE_GRADIENT_COOL, all in range |
| `Controls.TapsOf` | src/main.cpp:121-124 | each of the four tap flags is the release edge of its own key: Escape, Tab, T, Y |
| `Controls.HandleTaps` | src/main.cpp:121-124 | close is requested exactly on Escape; an index changes only if its own key tapped, and then by one cycle step; valid indices stay valid |
| `Controls.EscapeOnlyRequestsClose` | src/main.cpp:121 | Escape alone changes no index and requests close |
| `Controls.RepeatTapsCycles` | src/main.cpp:122-124 | after k tapped frames each tapped index has taken k cycle steps and every untapped index is where it was |
| `Controls.CycleKeysFullLap` | src/main.cpp:122-124 | 5 Tab taps, 2 T taps or 5 Y taps bring the whole selection back to its start |
| `Controls.ClampPitch` | src/main.cpp:132-134 | the result lies in [-89·DEG2RAD, 89·DEG2RAD]; a pitch already inside is unchanged; one beyond a bound becomes that bound |
| `Controls.ClampPitchMonotone` | src/main.cpp:132-134 | the clamp preserves the order of two pitches |
| `Controls.Look` | src/main.cpp:126-134 | yaw turns by minus dx·0.0025 and is never clamped; pitch turns by minus dy·0.0025 and is then clamped, so a turn past a bound stops at that bound |
| `Controls.LookAll` | src/main.cpp:126-134 | over any sequence of mouse deltas the pitch stays in range, and yaw is the start minus 0.0025 times the total horizontal movement |
| `Draw.BalancedConcat` | src/main.cpp:160-206 | two balanced traces in a row are balanced: no binding carries over from one draw path to the next |
| `Draw.UploadAndDraw` | src/main.cpp:165-166 | the upload and draw bind nothing, draw exactly the given mesh and send exactly the given matrix |
| `Draw.UploadAndDrawCalls` | src/main.cpp:165-166 | the matrix is sent before the draw: the one draw call sees the given matrix under whatever is bound, and that matrix stays in force afterwards |
| `Draw.UploadAndDrawKeepsBinding` | src/main.cpp:165-166 | uploading and drawing is legal whenever a shader is bound and leaves the binding as it was |
| `Draw.Textured` | src/main.cpp:181-184 | the texture bracket adds exactly its texture to what the body binds and changes nothing else the body uses |
| `Draw.TexturedCalls` | src/main.cpp:181-184 | every draw call inside a texture bracket sees that texture bound, with the program and matrix it would have seen anyway |
| `Draw.TexturedKeepsBinding` | src/main.cpp:181-184 | inside a bound shader, a texture bracket around a neutral body is legal and leaves the binding as it was |
| `Draw.Shaded` | src/main.cpp:164-167 | the shader bracket starts with BeginShader, ends with EndShader and adds exactly its program to what the body binds |
| `Draw.ShadedCalls` | src/main.cpp:164-167 | every draw call inside a shader bracket sees that program bound, and the bracket starts with no matrix sent |
| `Draw.ShadedIsBalanced` | src/main.cpp:164-167 | a shader bracket around a body that leaves its binding unchanged is balanced |
| `Draw.PlainPath` | src/main.cpp:188-194 | a path without a texture is balanced and binds one program, no texture, one mesh and one matrix; its single draw call runs with the program bound, no texture bound, and the matrix already sent |
| `Draw.TexturedPath` | src/main.cpp:178-186 | a textured path is balanced, with the texture bracket strictly inside the shader bracket; it binds one program, one texture, one mesh and one matrix; its single draw call runs with both the program and the texture bound and the matrix already sent |
| `Draw.DrawPath` | src/main.cpp:160-206 | every mode's trace is balanced with one shader bracket, one mesh and one matrix. Normal mode draws `meshes[mesh_index]`; tcoord draws HEAD; CT4 draws CT4 with `textures[texture_index]`; custom draws HEMISPHERE with the warm gradient and the spin matrix. Only CT4 and custom bind a texture. In each mode the one draw call sees exactly that mode's program, texture (or none) and matrix bound, the camera matrix in every mode but custom. An out-of-range index issues nothing and draws nothing |
| `Draw.OnlyNormalModeFollowsMeshIndex` | src/main.cpp:170-205 | in every mode but the normal-shader one the drawn mesh does not depend on the mesh index |
| `Draw.TexturedModes` | src/main.cpp:178-205 | a texture is bound exactly in the CT4 and custom modes |
| `MainLoop.InitialState` | src/main.cpp:109-114 | the loop starts valid, not closing, with the initial selection and FrameTime 0 |
| `MainLoop.TopOfFrame` | src/main.cpp:118-130 | before drawing and Loop, the frame keeps the key tables, zeroes the stored mouse delta, sets the close flag exactly when it was set or Escape tapped, and records the begin time without changing FrameTime |
| `MainLoop.Frame` | src/main.cpp:116-213 | one frame reads dt as the previous frame's duration. The top-of-frame taps drive the selection, and the whole stored mouse delta turns the camera. The close flag is set afterwards exactly when it was already set, Escape tapped, or the poll held a close request. The next frame's previous key table is this frame's top-of-frame current table. The frame issues one balanced draw path chosen by the updated selection, and FrameTime becomes end minus begin |
| `MainLoop.FrameMouseState` | src/main.cpp:126-211 | after a frame the delta read at its top is gone: with no cursor event in the poll the mouse keeps its baseline and flag with a zero delta; otherwise the delta is the step between the last two reported positions, or from the baseline for a single one |
| `MainLoop.StaleDeltaNotReused` | src/main.cpp:126-130 | after a frame with no cursor event the next frame turns the camera by a zero delta |
| `MainLoop.FrameKeyState` | src/main.cpp:211 | after a frame each key's current entry is the last non-repeat action its poll delivered, or its old value |
| `MainLoop.NextFrameTap` | src/main.cpp:121-124 | the next frame sees a tap on a key exactly when the key was held at the top of this frame and this frame's poll ends with its release |
| `MainLoop.DtIsPreviousFrameTime` | src/main.cpp:118-119 | the dt read in the first frame is 0; in every later frame it is the duration of the frame before |
| `MainLoop.RunLoop` | src/main.cpp:116-213 | the loop stops early only once the close flag is set, and runs no frame and draws nothing when it is already set. An open window runs at least one frame. Each frame run draws exactly one mesh, and the command stream of all frames together is balanced |
| `MainLoop.RunLoopRunsWhileOpen` | src/main.cpp:116 | measured against running the frames one after another, every frame the loop runs starts with the close flag clear |
| `MainLoop.RunLoopLast` | src/main.cpp:116-213 | the loop ends in exactly the state that its frames, run one after another on the inputs, reach |
| `MainLoop.RunLoopDraws` | src/main.cpp:160-206 | the loop's command stream is the concatenation of its frames' draw paths, in frame order |
| `MainLoop.FirstFrameDrawnFirst` | src/main.cpp:116-206 | on an open window the first frame's draw commands open the loop's command stream |
| `MainLoop.CloseFrameIsLast` | src/main.cpp:116-213 | a frame that sets the close flag, by any means, is the last one run |
| `MainLoop.CloseRequestEndsLoop` | src/main.cpp:116 | a close request in the first frame's poll makes that frame the last one run |
| `MainLoop.EscapeEndsLoop` | src/main.cpp:121 | the frame in which Escape is tapped is drawn in full and is the last frame run |
| `MainLoop.TapWithinOnePollIsLost` | src/main.cpp:211 | a press and release delivered by the same poll never registers as a tap |
| `MainLoop.TapScenario` | src/main.cpp:112-176 | from start-up, pressing and releasing Tab switches to the sphere, which the third frame already draws. Pressing and releasing Y then switches to the tcoord mode, which draws the head |

## Left out

- GLFW, glad, OpenGL and ImGui calls. This covers window and context creation,
  `glfwSwapBuffers`, clear colour and depth/cull state, `WindowWidth` and
  `WindowHeight`, `BeginGui`/`EndGui` and `DestroyWindow`. They are foreign
  library I/O; `Loop` is modelled as the key snapshot followed by the delivered
  events.
- `DebugCallback`: it only writes diagnostics to stdout (after a fixed ID filter) and never affects control flow.
- Matrix construction: `MatrixRotateX`/`Y`, `MatrixPerspective`,
  `MatrixInvert`, the MVP products and basis-vector extraction. This is
  floating-point linear algebra in a math library that is not part of this
  model. The command trace names the matrix only as the camera's or the spin
  by a clock value.
- Camera position and movement along the basis vectors. They depend on the
  matrices above and on float `dt`. The camera is modelled as pitch and yaw
  only.
- Loading and unloading meshes, textures and shader programs (`LoadMesh*`, `LoadImageGradient`, `CreateShader`/`CreateProgram`, `Unload*`, `DestroyProgram`): file I/O and GPU resources behind headers that are not part of this model; draw commands refer to table indices.
- Floating point: positions, deltas, angles and times are reals. The `double`
  to `float` casts in `GetMouseDelta`, the float storage of `glfwGetTime()`
  readings, and the rounding of `89.0f * DEG2RAD` and `0.0025f` are not
  modelled.
- 32-bit overflow of `mesh_index + 1` and the other index increments is not modelled, since the indices never leave their small ranges.
- `Window.OnKey`: it requires `0 <= key < KEY_COUNT`, because the callback
  indexes the table without a bounds check. GLFW delivers -1
  (`GLFW_KEY_UNKNOWN`) for keys that have no key token. The source would then
  write outside the table, and the model does not describe that case.
