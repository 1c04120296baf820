/** The per-frame draw dispatch of src/main.cpp as a trace of GPU commands.

    Each of the five draw modes binds a shader program, optionally binds a
    texture, sends the model-view-projection matrix, draws one mesh and then
    releases its bindings. `Run` replays a trace against the GL binding state
    and refuses any command issued out of bracket order; a trace is balanced
    when it starts and ends with nothing bound and is never refused. */
module Draw {
  import opened Assets

  datatype Option<T> = None | Some(value: T)

  /** The mesh a draw call uses: an entry of the mesh table, or the
      hand-built three-vertex triangle. */
  datatype MeshRef = Table(index: int) | ManualTriangle

  /** The matrix sent as `u_mvp`: the camera's, or the custom mode's spin by
      the angle read from the clock. */
  datatype Mvp = CameraMvp | SpinMvp(angle: real)

  /** Shader and texture commands carry their table index. */
  datatype Command =
    | BeginShader(shader: int)
    | BeginTexture(texture: int)
    | SendMvp(mvp: Mvp)
    | DrawMesh(mesh: MeshRef)
    | EndTexture
    | EndShader

  // ---------------------------------------------------------------------
  // Binding discipline

  /** The bound shader program and the bound texture. */
  datatype Binding = Binding(shader: Option<int>, texture: Option<int>)

  const Unbound: Binding := Binding(None, None)

  /** One command against the binding state; None when it breaks strict
      nesting (a shader inside a shader, a texture outside a shader or inside
      another texture, a draw or upload with no shader, an end with nothing to
      end, or ending the shader while a texture is still bound). */
  function Step(b: Binding, c: Command): Option<Binding> {
    match c
    case BeginShader(s) => if b == Unbound then Some(Binding(Some(s), None)) else None
    case BeginTexture(t) => if b.shader.Some? && b.texture.None? then Some(b.(texture := Some(t))) else None
    case SendMvp(_) => if b.shader.Some? then Some(b) else None
    case DrawMesh(_) => if b.shader.Some? then Some(b) else None
    case EndTexture => if b.texture.Some? then Some(b.(texture := None)) else None
    case EndShader => if b.shader.Some? && b.texture.None? then Some(Unbound) else None
  }

  /** Replay a trace from binding state `b`. */
  function Run(b: Binding, cs: seq<Command>): Option<Binding>
    decreases |cs|
  {
    if |cs| == 0 then Some(b)
    else
      match Step(b, cs[0])
      case None => None
      case Some(b') => Run(b', cs[1..])
  }

  /** Every bracket closed, strictly nested, nothing left bound. */
  predicate Balanced(cs: seq<Command>) {
    Run(Unbound, cs) == Some(Unbound)
  }

  /** Replaying two traces back to back is replaying the first, then the second. */
  lemma {:induction false} RunAppend(b: Binding, xs: seq<Command>, ys: seq<Command>)
    ensures Run(b, xs + ys) == match Run(b, xs) case None => None case Some(b') => Run(b', ys)
    decreases |xs|
  {
    if |xs| > 0 {
      assert (xs + ys)[0] == xs[0];
      assert (xs + ys)[1..] == xs[1..] + ys;
      match Step(b, xs[0])
      case None =>
      case Some(b') => RunAppend(b', xs[1..], ys);
    } else {
      assert xs + ys == ys;
    }
  }

  /** No binding leaks from one balanced trace into the next. */
  lemma BalancedConcat(xs: seq<Command>, ys: seq<Command>)
    requires Balanced(xs) && Balanced(ys)
    ensures Balanced(xs + ys)
  {
    RunAppend(Unbound, xs, ys);
  }

  // ---------------------------------------------------------------------
  // What a trace uses

  /** Concatenate what `pick` extracts from each command, in order. */
  function Collect<T>(cs: seq<Command>, pick: Command -> seq<T>): seq<T>
    decreases |cs|
  {
    if |cs| == 0 then [] else pick(cs[0]) + Collect(cs[1..], pick)
  }

  lemma {:induction false} CollectAppend<T>(xs: seq<Command>, ys: seq<Command>, pick: Command -> seq<T>)
    ensures Collect(xs + ys, pick) == Collect(xs, pick) + Collect(ys, pick)
    decreases |xs|
  {
    if |xs| > 0 {
      assert (xs + ys)[0] == xs[0];
      assert (xs + ys)[1..] == xs[1..] + ys;
      CollectAppend(xs[1..], ys, pick);
    } else {
      assert xs + ys == ys;
    }
  }

  function ShaderOf(c: Command): seq<int> {
    if c.BeginShader? then [c.shader] else []
  }

  function TextureOf(c: Command): seq<int> {
    if c.BeginTexture? then [c.texture] else []
  }

  function MeshOf(c: Command): seq<MeshRef> {
    if c.DrawMesh? then [c.mesh] else []
  }

  function MvpOf(c: Command): seq<Mvp> {
    if c.SendMvp? then [c.mvp] else []
  }

  /** The shader programs a trace binds, in order. */
  function Shaders(cs: seq<Command>): seq<int> {
    Collect(cs, ShaderOf)
  }

  /** The textures a trace binds, in order. */
  function Textures(cs: seq<Command>): seq<int> {
    Collect(cs, TextureOf)
  }

  /** The meshes a trace draws, in order. */
  function Meshes(cs: seq<Command>): seq<MeshRef> {
    Collect(cs, MeshOf)
  }

  /** The matrices a trace sends, in order. */
  function Mvps(cs: seq<Command>): seq<Mvp> {
    Collect(cs, MvpOf)
  }

  lemma CollectSingle<T>(c: Command, pick: Command -> seq<T>)
    ensures Collect([c], pick) == pick(c)
  {
    assert [c][1..] == [];
  }

  /** Collecting over a trace with one command added at each end. */
  lemma CollectWrapped<T>(first: Command, body: seq<Command>, last: Command, pick: Command -> seq<T>)
    ensures Collect([first] + body + [last], pick) == pick(first) + Collect(body, pick) + pick(last)
  {
    CollectAppend([first] + body, [last], pick);
    CollectAppend([first], body, pick);
    CollectSingle(first, pick);
    CollectSingle(last, pick);
  }

  /** What the four views make of a trace with one command added at each end. */
  lemma UsesOfWrapped(first: Command, body: seq<Command>, last: Command)
    ensures var cs := [first] + body + [last];
            && Shaders(cs) == ShaderOf(first) + Shaders(body) + ShaderOf(last)
            && Textures(cs) == TextureOf(first) + Textures(body) + TextureOf(last)
            && Meshes(cs) == MeshOf(first) + Meshes(body) + MeshOf(last)
            && Mvps(cs) == MvpOf(first) + Mvps(body) + MvpOf(last)
  {
    CollectWrapped(first, body, last, ShaderOf);
    CollectWrapped(first, body, last, TextureOf);
    CollectWrapped(first, body, last, MeshOf);
    CollectWrapped(first, body, last, MvpOf);
  }

  // ---------------------------------------------------------------------
  // What each draw call sees

  /** The GL state a draw call depends on: the bindings, and the matrix sent
      to the bound program since it was bound (None before any upload). */
  datatype Gl = Gl(binding: Binding, mvp: Option<Mvp>)

  /** One draw call with the bindings and the matrix in force when it was issued. */
  datatype Call = Call(binding: Binding, mvp: Option<Mvp>, mesh: MeshRef)

  /** The effect of one command on the GL state. Binding a program starts it
      with no matrix; a command that breaks nesting (which `Run` refuses)
      leaves the bindings as they were. */
  function Effect(g: Gl, c: Command): Gl {
    var binding := match Step(g.binding, c) case None => g.binding case Some(b) => b;
    var mvp := if c.BeginShader? then None else if c.SendMvp? then Some(c.mvp) else g.mvp;
    Gl(binding, mvp)
  }

  /** The GL state after replaying a trace from `g`. */
  function Replayed(g: Gl, cs: seq<Command>): Gl
    decreases |cs|
  {
    if |cs| == 0 then g else Replayed(Effect(g, cs[0]), cs[1..])
  }

  /** The draw calls of a trace replayed from `g`, in order, each with the state it sees. */
  function Calls(g: Gl, cs: seq<Command>): seq<Call>
    decreases |cs|
  {
    if |cs| == 0 then []
    else
      (if cs[0].DrawMesh? then [Call(g.binding, g.mvp, cs[0].mesh)] else []) + Calls(Effect(g, cs[0]), cs[1..])
  }

  /** The draw calls of a trace issued from the idle state of a frame. */
  function DrawCalls(cs: seq<Command>): seq<Call> {
    Calls(Gl(Unbound, None), cs)
  }

  /** Replaying two traces back to back: the second starts where the first ended. */
  lemma {:induction false} CallsAppend(g: Gl, xs: seq<Command>, ys: seq<Command>)
    ensures Calls(g, xs + ys) == Calls(g, xs) + Calls(Replayed(g, xs), ys)
    ensures Replayed(g, xs + ys) == Replayed(Replayed(g, xs), ys)
    decreases |xs|
  {
    if |xs| > 0 {
      assert (xs + ys)[0] == xs[0];
      assert (xs + ys)[1..] == xs[1..] + ys;
      CallsAppend(Effect(g, xs[0]), xs[1..], ys);
    } else {
      assert xs + ys == ys;
    }
  }

  /** A command that is not a draw issues no call. */
  lemma CallsSingle(g: Gl, c: Command)
    requires !c.DrawMesh?
    ensures Calls(g, [c]) == [] && Replayed(g, [c]) == Effect(g, c)
  {
    assert [c][1..] == [];
  }

  /** The calls of `[first] + body + [last]` are the body's, replayed after `first`. */
  lemma CallsWrapped(g: Gl, first: Command, body: seq<Command>, last: Command)
    requires !first.DrawMesh? && !last.DrawMesh?
    ensures Calls(g, [first] + body + [last]) == Calls(Effect(g, first), body)
  {
    CallsAppend(g, [first] + body, [last]);
    CallsAppend(g, [first], body);
    CallsSingle(g, first);
    CallsSingle(Replayed(g, [first] + body), last);
  }

  // ---------------------------------------------------------------------
  // Building blocks of a draw path

  /** `SendMat4(mvp, "u_mvp"); DrawMesh(mesh);` */
  function UploadAndDraw(mvp: Mvp, mesh: MeshRef): (r: seq<Command>)
    ensures Shaders(r) == [] && Textures(r) == [] && Meshes(r) == [mesh] && Mvps(r) == [mvp]
  {
    var r := [SendMvp(mvp), DrawMesh(mesh)];
    assert r[1..] == [DrawMesh(mesh)];
    assert Collect(r[1..], ShaderOf) == [] && Collect(r[1..], TextureOf) == [];
    assert Collect(r[1..], MeshOf) == [mesh] && Collect(r[1..], MvpOf) == [];
    r
  }

  /** `BeginTexture(t); body; EndTexture();` */
  function Textured(t: int, body: seq<Command>): (r: seq<Command>)
    ensures Shaders(r) == Shaders(body) && Textures(r) == [t] + Textures(body)
    ensures Meshes(r) == Meshes(body) && Mvps(r) == Mvps(body)
  {
    UsesOfWrapped(BeginTexture(t), body, EndTexture);
    [BeginTexture(t)] + body + [EndTexture]
  }

  /** `BeginShader(s); body; EndShader();` */
  function Shaded(s: int, body: seq<Command>): (r: seq<Command>)
    ensures |r| > 0 && r[0] == BeginShader(s) && r[|r| - 1] == EndShader
    ensures Shaders(r) == [s] + Shaders(body) && Textures(r) == Textures(body)
    ensures Meshes(r) == Meshes(body) && Mvps(r) == Mvps(body)
  {
    UsesOfWrapped(BeginShader(s), body, EndShader);
    [BeginShader(s)] + body + [EndShader]
  }

  /** Replaying `[first] + body + [last]`: open, replay the body, close. */
  lemma WrappedRun(b: Binding, first: Command, inner: Binding, body: seq<Command>, last: Command)
    requires Step(b, first) == Some(inner)
    requires Run(inner, body) == Some(inner)
    requires Step(inner, last) == Some(b)
    ensures Run(b, [first] + body + [last]) == Some(b)
  {
    RunAppend(b, [first] + body, [last]);
    RunAppend(b, [first], body);
    assert [last][1..] == [];
  }

  /** Uploading and drawing is legal under any bound shader and changes no binding. */
  lemma UploadAndDrawKeepsBinding(b: Binding, mvp: Mvp, mesh: MeshRef)
    requires b.shader.Some?
    ensures Run(b, UploadAndDraw(mvp, mesh)) == Some(b)
  {
    var r := UploadAndDraw(mvp, mesh);
    assert r[1..] == [DrawMesh(mesh)];
    assert Run(b, r[1..]) == Some(b);
  }

  /** The upload comes first: the mesh is drawn with the given matrix in
      force, under whatever is bound, and the matrix stays sent afterwards. */
  lemma UploadAndDrawCalls(g: Gl, mvp: Mvp, mesh: MeshRef)
    ensures Calls(g, UploadAndDraw(mvp, mesh)) == [Call(g.binding, Some(mvp), mesh)]
    ensures Replayed(g, UploadAndDraw(mvp, mesh)).mvp == Some(mvp)
  {
    var r := UploadAndDraw(mvp, mesh);
    var g' := Effect(g, r[0]);
    assert g'.binding == g.binding && g'.mvp == Some(mvp);
    assert r[1..] == [DrawMesh(mesh)];
    assert r[1..][1..] == [];
    assert Calls(g', r[1..]) == [Call(g.binding, Some(mvp), mesh)];
    assert Replayed(g', r[1..]) == Effect(g', DrawMesh(mesh));
  }

  /** Every call inside a texture bracket sees the texture bound. */
  lemma TexturedCalls(g: Gl, t: int, body: seq<Command>)
    requires g.binding.shader.Some? && g.binding.texture.None?
    ensures Calls(g, Textured(t, body)) == Calls(Gl(g.binding.(texture := Some(t)), g.mvp), body)
  {
    CallsWrapped(g, BeginTexture(t), body, EndTexture);
  }

  /** Every call inside a shader bracket sees the program bound, starting with no matrix sent. */
  lemma ShadedCalls(s: int, body: seq<Command>)
    ensures DrawCalls(Shaded(s, body)) == Calls(Gl(Binding(Some(s), None), None), body)
  {
    CallsWrapped(Gl(Unbound, None), BeginShader(s), body, EndShader);
  }

  /** A texture bracket whose body keeps the binding is itself neutral under a bound shader. */
  lemma TexturedKeepsBinding(s: int, t: int, body: seq<Command>)
    requires Run(Binding(Some(s), Some(t)), body) == Some(Binding(Some(s), Some(t)))
    ensures Run(Binding(Some(s), None), Textured(t, body)) == Some(Binding(Some(s), None))
  {
    WrappedRun(Binding(Some(s), None), BeginTexture(t), Binding(Some(s), Some(t)), body, EndTexture);
  }

  /** A shader bracket whose body keeps the binding is balanced. */
  lemma ShadedIsBalanced(s: int, body: seq<Command>)
    requires Run(Binding(Some(s), None), body) == Some(Binding(Some(s), None))
    ensures Balanced(Shaded(s, body))
  {
    WrappedRun(Unbound, BeginShader(s), Binding(Some(s), None), body, EndShader);
  }

  /** A draw path without a texture: shader, matrix, mesh, release. */
  function PlainPath(s: int, mvp: Mvp, mesh: MeshRef): (r: seq<Command>)
    ensures Balanced(r)
    ensures |r| > 0 && r[0] == BeginShader(s) && r[|r| - 1] == EndShader
    ensures Shaders(r) == [s] && Textures(r) == [] && Meshes(r) == [mesh] && Mvps(r) == [mvp]
    // the one draw call runs with the program bound, no texture, and the matrix already sent
    ensures DrawCalls(r) == [Call(Binding(Some(s), None), Some(mvp), mesh)]
  {
    UploadAndDrawKeepsBinding(Binding(Some(s), None), mvp, mesh);
    ShadedIsBalanced(s, UploadAndDraw(mvp, mesh));
    ShadedCalls(s, UploadAndDraw(mvp, mesh));
    UploadAndDrawCalls(Gl(Binding(Some(s), None), None), mvp, mesh);
    Shaded(s, UploadAndDraw(mvp, mesh))
  }

  /** A textured draw path: shader, texture, matrix, mesh, release both in reverse order. */
  function TexturedPath(s: int, t: int, mvp: Mvp, mesh: MeshRef): (r: seq<Command>)
    ensures Balanced(r)
    ensures |r| > 0 && r[0] == BeginShader(s) && r[|r| - 1] == EndShader
    ensures Shaders(r) == [s] && Textures(r) == [t] && Meshes(r) == [mesh] && Mvps(r) == [mvp]
    // the one draw call runs with program and texture bound and the matrix already sent
    ensures DrawCalls(r) == [Call(Binding(Some(s), Some(t)), Some(mvp), mesh)]
  {
    UploadAndDrawKeepsBinding(Binding(Some(s), Some(t)), mvp, mesh);
    TexturedKeepsBinding(s, t, UploadAndDraw(mvp, mesh));
    ShadedIsBalanced(s, Textured(t, UploadAndDraw(mvp, mesh)));
    ShadedCalls(s, Textured(t, UploadAndDraw(mvp, mesh)));
    TexturedCalls(Gl(Binding(Some(s), None), None), t, UploadAndDraw(mvp, mesh));
    UploadAndDrawCalls(Gl(Binding(Some(s), Some(t)), None), mvp, mesh);
    Shaded(s, Textured(t, UploadAndDraw(mvp, mesh)))
  }

  // ---------------------------------------------------------------------
  // The draw switch

  /** The `switch (draw_index)` of the main loop, `clock` being the time read
      by the custom mode. The mesh table is indexed by `mesh` only in the
      normal-shader mode and the texture table by `texture` only in the CT4
      mode; a draw index outside the enumeration matches no case. */
  function DrawPath(draw: int, mesh: int, texture: int, clock: real): (r: seq<Command>)
    requires draw == A4_PAR_SHAPES_NORMAL_SHADER ==> InRange(mesh, MESH_TYPE_COUNT)
    requires draw == A4_CT4_TEXTURE_SHADER ==> InRange(texture, TEXTURE_TYPE_COUNT)
    ensures !InRange(draw, A4_TYPE_COUNT) ==> r == []
    ensures InRange(draw, A4_TYPE_COUNT) ==>
              && Balanced(r)
              && |r| > 0 && r[0].BeginShader? && r[|r| - 1] == EndShader
              && |Shaders(r)| == 1 && |Meshes(r)| == 1 && |Mvps(r)| == 1
    ensures draw == A4_PAR_SHAPES_NORMAL_SHADER ==>
              Shaders(r) == [SHADER_NORMAL_COLOR] && Meshes(r) == [Table(mesh)] && Textures(r) == []
    ensures draw == A4_OBJ_FILE_TCOORDS_SHADER ==>
              Shaders(r) == [SHADER_TCOORD_COLOR] && Meshes(r) == [Table(MESH_HEAD)] && Textures(r) == []
    ensures draw == A4_CT4_TEXTURE_SHADER ==>
              Shaders(r) == [SHADER_SAMPLE_TEXTURE] && Meshes(r) == [Table(MESH_CT4)] && Textures(r) == [texture]
    ensures draw == A4_MANUAL_MESH ==>
              Shaders(r) == [SHADER_POSITION_COLOR] && Meshes(r) == [ManualTriangle] && Textures(r) == []
    ensures draw == A4_CUSTOM_DRAW ==>
              Shaders(r) == [SHADER_SAMPLE_TEXTURE] && Meshes(r) == [Table(MESH_HEMISPHERE)]
              && Textures(r) == [TEXTURE_GRADIENT_WARM] && Mvps(r) == [SpinMvp(clock)]
    ensures draw != A4_CUSTOM_DRAW ==> Mvps(r) == [] || Mvps(r) == [CameraMvp]
    // per mode, the single draw call and the bindings and matrix in force at it
    ensures draw == A4_PAR_SHAPES_NORMAL_SHADER ==>
              DrawCalls(r) == [Call(Binding(Some(SHADER_NORMAL_COLOR), None), Some(CameraMvp), Table(mesh))]
    ensures draw == A4_OBJ_FILE_TCOORDS_SHADER ==>
              DrawCalls(r) == [Call(Binding(Some(SHADER_TCOORD_COLOR), None), Some(CameraMvp), Table(MESH_HEAD))]
    ensures draw == A4_CT4_TEXTURE_SHADER ==>
              DrawCalls(r) == [Call(Binding(Some(SHADER_SAMPLE_TEXTURE), Some(texture)), Some(CameraMvp), Table(MESH_CT4))]
    ensures draw == A4_MANUAL_MESH ==>
              DrawCalls(r) == [Call(Binding(Some(SHADER_POSITION_COLOR), None), Some(CameraMvp), ManualTriangle)]
    ensures draw == A4_CUSTOM_DRAW ==>
              DrawCalls(r) == [Call(Binding(Some(SHADER_SAMPLE_TEXTURE), Some(TEXTURE_GRADIENT_WARM)), Some(SpinMvp(clock)), Table(MESH_HEMISPHERE))]
    ensures !InRange(draw, A4_TYPE_COUNT) ==> DrawCalls(r) == []
  {
    if draw == A4_PAR_SHAPES_NORMAL_SHADER then
      PlainPath(SHADER_NORMAL_COLOR, CameraMvp, Table(mesh))
    else if draw == A4_OBJ_FILE_TCOORDS_SHADER then
      PlainPath(SHADER_TCOORD_COLOR, CameraMvp, Table(MESH_HEAD))
    else if draw == A4_CT4_TEXTURE_SHADER then
      TexturedPath(SHADER_SAMPLE_TEXTURE, texture, CameraMvp, Table(MESH_CT4))
    else if draw == A4_MANUAL_MESH then
      PlainPath(SHADER_POSITION_COLOR, CameraMvp, ManualTriangle)
    else if draw == A4_CUSTOM_DRAW then
      TexturedPath(SHADER_SAMPLE_TEXTURE, TEXTURE_GRADIENT_WARM, SpinMvp(clock), Table(MESH_HEMISPHERE))
    else
      []
  }

  /** Whatever the mesh index, only the normal-shader mode draws the selected
      mesh: every other mode draws a fixed one. */
  lemma OnlyNormalModeFollowsMeshIndex(draw: int, mesh1: int, mesh2: int, texture: int, clock: real)
    requires InRange(mesh1, MESH_TYPE_COUNT) && InRange(mesh2, MESH_TYPE_COUNT)
    requires draw == A4_CT4_TEXTURE_SHADER ==> InRange(texture, TEXTURE_TYPE_COUNT)
    requires draw != A4_PAR_SHAPES_NORMAL_SHADER
    ensures Meshes(DrawPath(draw, mesh1, texture, clock)) == Meshes(DrawPath(draw, mesh2, texture, clock))
  {
  }

  /** Only the CT4 and custom modes bind a texture. */
  lemma TexturedModes(draw: int, mesh: int, texture: int, clock: real)
    requires draw == A4_PAR_SHAPES_NORMAL_SHADER ==> InRange(mesh, MESH_TYPE_COUNT)
    requires draw == A4_CT4_TEXTURE_SHADER ==> InRange(texture, TEXTURE_TYPE_COUNT)
    ensures Textures(DrawPath(draw, mesh, texture, clock)) != [] <==> draw == A4_CT4_TEXTURE_SHADER || draw == A4_CUSTOM_DRAW
  {
  }
}
