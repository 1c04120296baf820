/** The discrete and continuous controls of the demo's main loop
    (src/main.cpp): tap-to-cycle selection of mesh, texture and draw mode,
    the escape key, and the mouse-look camera with its pitch clamp. */
module Controls {
  import opened Assets
  import Window

  // ---------------------------------------------------------------------
  // Index cycling

  /** C++ `%` on int: truncates toward zero, so the remainder takes the sign
      of the dividend (Dafny's own `%` is Euclidean). */
  function CRem(a: int, n: int): (r: int)
    requires n > 0
    ensures -n < r < n
    ensures a >= 0 ==> r >= 0 && r == a % n
    ensures a <= 0 ==> r <= 0
    // together with the bound and the sign, this fixes r as the truncating remainder
    ensures (a - r) % n == 0
  {
    var r := if a >= 0 then a % n else -((-a) % n);
    RemainderLeavesMultiple(a, n, r);
    r
  }

  /** The difference between the dividend and either remainder is a multiple of `n`. */
  lemma RemainderLeavesMultiple(a: int, n: int, r: int)
    requires n > 0
    requires r == if a >= 0 then a % n else -((-a) % n)
    ensures (a - r) % n == 0
  {
    if a >= 0 {
      assert a == (a / n) * n + a % n;
      MultipleMod(a / n, n);
    } else {
      var b := -a;
      assert b == (b / n) * n + b % n;
      assert a - r == (-(b / n)) * n;
      MultipleMod(-(b / n), n);
    }
  }

  /** A multiple of `n` leaves no remainder. */
  lemma {:induction false} MultipleMod(q: int, n: int)
    requires n > 0
    ensures (q * n) % n == 0
  {
    var m := q * n;
    var d := m / n;
    assert m == d * n + m % n;
    assert (q - d) * n == m % n;
    MultipleBounds(q - d, n);
  }

  /** A non-zero multiple of `n` is at least `n` away from zero. */
  lemma MultipleBounds(k: int, n: int)
    requires n > 0
    ensures k >= 1 ==> k * n >= n
    ensures k <= -1 ==> k * n <= -n
  {
  }

  /** C++ `%` is odd in its dividend: negating the dividend negates the remainder. */
  lemma CRemOdd(a: int, n: int)
    requires n > 0
    ensures CRem(-a, n) == -CRem(a, n)
  {
  }

  /** `(i + 1) % N`: the next index, wrapping from the last back to the first. */
  function Cycle(i: int, n: int): (r: int)
    requires n > 0
    ensures i >= -1 ==> InRange(r, n)
    ensures InRange(i, n) && i + 1 < n ==> r == i + 1
    ensures InRange(i, n) && i + 1 == n ==> r == 0
  {
    if 0 <= i + 1 <= n then ModOfSmall(i + 1, n); CRem(i + 1, n)
    else CRem(i + 1, n)
  }

  /** The remainder of a number no larger than the divisor. */
  lemma ModOfSmall(a: int, n: int)
    requires 0 <= a <= n && n > 0
    ensures a % n == if a == n then 0 else a
  {
    var q := a / n;
    assert a == q * n + a % n;
    MultipleBounds(q, n);
    assert (q - 1) * n == q * n - n;
    MultipleBounds(q - 1, n);
  }

  /** `k` cycle steps from `i`. */
  function CycleTimes(i: int, n: int, k: nat): (r: int)
    requires InRange(i, n)
    ensures InRange(r, n)
    decreases k
  {
    if k == 0 then i else Cycle(CycleTimes(i, n, k - 1), n)
  }

  /** Up to one full lap, `k` steps add `k` and wrap at most once. */
  lemma {:induction false} CycleTimesWrapsOnce(i: int, n: int, k: nat)
    requires InRange(i, n) && k <= n
    ensures CycleTimes(i, n, k) == if i + k < n then i + k else i + k - n
    decreases k
  {
    if k > 0 {
      CycleTimesWrapsOnce(i, n, k - 1);
    }
  }

  /** N steps of a cycle over N entries return to the start. */
  lemma CycleFullLap(i: int, n: int)
    requires InRange(i, n)
    ensures CycleTimes(i, n, n) == i
  {
    CycleTimesWrapsOnce(i, n, n);
  }

  // ---------------------------------------------------------------------
  // Selection

  /** `draw_index`, `mesh_index`, `texture_index`. */
  datatype Selection = Selection(draw: int, mesh: int, texture: int) {
    predicate Valid() {
      InRange(draw, A4_TYPE_COUNT) && InRange(mesh, MESH_TYPE_COUNT) && InRange(texture, TEXTURE_TYPE_COUNT)
    }
  }

  /** The selection the demo starts with: normal-shader mode, the plane, the cool gradient. */
  function InitialSelection(): (s: Selection)
    ensures s.Valid()
    ensures s.draw == A4_PAR_SHAPES_NORMAL_SHADER && s.mesh == MESH_PLANE && s.texture == TEXTURE_GRADIENT_COOL
  {
    Selection(A4_PAR_SHAPES_NORMAL_SHADER, MESH_PLANE, TEXTURE_GRADIENT_COOL)
  }

  /** Which of the four tap keys fired this frame (Escape, Tab, T, Y). */
  datatype Taps = Taps(escape: bool, tab: bool, t: bool, y: bool)

  /** The taps read from the key tables at the top of a frame. */
  function TapsOf(kb: Window.Keyboard): (taps: Taps)
    requires kb.Valid()
    ensures taps.escape <==> kb.prev[Window.KEY_ESCAPE] == Window.PRESS && kb.curr[Window.KEY_ESCAPE] == Window.RELEASE
    ensures taps.tab <==> kb.prev[Window.KEY_TAB] == Window.PRESS && kb.curr[Window.KEY_TAB] == Window.RELEASE
    ensures taps.t <==> kb.prev[Window.KEY_T] == Window.PRESS && kb.curr[Window.KEY_T] == Window.RELEASE
    ensures taps.y <==> kb.prev[Window.KEY_Y] == Window.PRESS && kb.curr[Window.KEY_Y] == Window.RELEASE
  {
    Taps(Window.IsKeyPressed(kb, Window.KEY_ESCAPE), Window.IsKeyPressed(kb, Window.KEY_TAB),
         Window.IsKeyPressed(kb, Window.KEY_T), Window.IsKeyPressed(kb, Window.KEY_Y))
  }

  /** The four tap handlers: each cycle key advances only its own index, and
      Escape touches no index but requests close (the second component). */
  function HandleTaps(sel: Selection, taps: Taps): (r: (Selection, bool))
    ensures r.1 == taps.escape
    ensures r.0.mesh != sel.mesh ==> taps.tab
    ensures r.0.texture != sel.texture ==> taps.t
    ensures r.0.draw != sel.draw ==> taps.y
    ensures taps.tab ==> r.0.mesh == Cycle(sel.mesh, MESH_TYPE_COUNT)
    ensures taps.t ==> r.0.texture == Cycle(sel.texture, TEXTURE_TYPE_COUNT)
    ensures taps.y ==> r.0.draw == Cycle(sel.draw, A4_TYPE_COUNT)
    ensures sel.Valid() ==> r.0.Valid()
  {
    var mesh := if taps.tab then Cycle(sel.mesh, MESH_TYPE_COUNT) else sel.mesh;
    var texture := if taps.t then Cycle(sel.texture, TEXTURE_TYPE_COUNT) else sel.texture;
    var draw := if taps.y then Cycle(sel.draw, A4_TYPE_COUNT) else sel.draw;
    (Selection(draw, mesh, texture), taps.escape)
  }

  /** Escape alone leaves the selection as it is. */
  lemma EscapeOnlyRequestsClose(sel: Selection)
    ensures HandleTaps(sel, Taps(true, false, false, false)) == (sel, true)
  {
  }

  /** The selection after `k` tapped frames, each seeing the same taps. Frames
      without a tap leave the selection alone, so they need not be counted. */
  function RepeatTaps(sel: Selection, taps: Taps, k: nat): Selection
    decreases k
  {
    if k == 0 then sel else HandleTaps(RepeatTaps(sel, taps, k - 1), taps).0
  }

  /** Over `k` tapped frames each tapped index takes `k` cycle steps and every
      other index stays put. */
  lemma {:induction false} RepeatTapsCycles(sel: Selection, taps: Taps, k: nat)
    requires sel.Valid()
    ensures var s := RepeatTaps(sel, taps, k);
            && s.Valid()
            && s.mesh == (if taps.tab then CycleTimes(sel.mesh, MESH_TYPE_COUNT, k) else sel.mesh)
            && s.texture == (if taps.t then CycleTimes(sel.texture, TEXTURE_TYPE_COUNT, k) else sel.texture)
            && s.draw == (if taps.y then CycleTimes(sel.draw, A4_TYPE_COUNT, k) else sel.draw)
    decreases k
  {
    if k > 0 {
      RepeatTapsCycles(sel, taps, k - 1);
    }
  }

  /** Tapping a cycle key as many times as its enumeration has entries brings
      the whole selection back to where it started. */
  lemma CycleKeysFullLap(sel: Selection)
    requires sel.Valid()
    ensures RepeatTaps(sel, Taps(false, true, false, false), MESH_TYPE_COUNT) == sel
    ensures RepeatTaps(sel, Taps(false, false, true, false), TEXTURE_TYPE_COUNT) == sel
    ensures RepeatTaps(sel, Taps(false, false, false, true), A4_TYPE_COUNT) == sel
  {
    RepeatTapsCycles(sel, Taps(false, true, false, false), MESH_TYPE_COUNT);
    CycleFullLap(sel.mesh, MESH_TYPE_COUNT);
    RepeatTapsCycles(sel, Taps(false, false, true, false), TEXTURE_TYPE_COUNT);
    CycleFullLap(sel.texture, TEXTURE_TYPE_COUNT);
    RepeatTapsCycles(sel, Taps(false, false, false, true), A4_TYPE_COUNT);
    CycleFullLap(sel.draw, A4_TYPE_COUNT);
  }

  // ---------------------------------------------------------------------
  // Camera look

  /** PI, and DEG2RAD taken as PI/180 (the math header that defines them is
      not part of this model). */
  const PI: real := 3.14159265358979323846
  const DEG2RAD: real := PI / 180.0

  /** `limit = 89 * DEG2RAD`: the pitch bound, just short of straight up or down. */
  const PITCH_LIMIT: real := 89.0 * DEG2RAD

  /** Radians of turn per unit of mouse movement. */
  const SENSITIVITY: real := 0.0025

  predicate InPitchRange(p: real) {
    -PITCH_LIMIT <= p <= PITCH_LIMIT
  }

  /** The two-sided pitch clamp. */
  function ClampPitch(p: real): (r: real)
    ensures InPitchRange(r)
    ensures InPitchRange(p) ==> r == p
    ensures p > PITCH_LIMIT ==> r == PITCH_LIMIT
    ensures p < -PITCH_LIMIT ==> r == -PITCH_LIMIT
  {
    var upper := if p > PITCH_LIMIT then PITCH_LIMIT else p;
    if upper < -PITCH_LIMIT then -PITCH_LIMIT else upper
  }

  /** The clamp never reverses the order of two pitches. */
  lemma ClampPitchMonotone(p: real, q: real)
    requires p <= q
    ensures ClampPitch(p) <= ClampPitch(q)
  {
  }

  /** The camera's orientation; its position is not modelled. */
  datatype Camera = Camera(pitch: real, yaw: real)

  const InitialCamera: Camera := Camera(0.0, 0.0)

  /** One frame of mouse look: both angles turn against the mouse delta and
      the pitch is clamped; the yaw is never clamped. */
  function Look(cam: Camera, md: Window.Vec2): (r: Camera)
    ensures r.yaw == cam.yaw - md.x * SENSITIVITY
    ensures InPitchRange(r.pitch)
    ensures r.pitch == ClampPitch(cam.pitch - md.y * SENSITIVITY)
  {
    Camera(ClampPitch(cam.pitch - md.y * SENSITIVITY), cam.yaw - md.x * SENSITIVITY)
  }

  /** Sum of the horizontal components of a sequence of deltas. */
  function SumX(mds: seq<Window.Vec2>): real
    decreases |mds|
  {
    if |mds| == 0 then 0.0 else mds[0].x + SumX(mds[1..])
  }

  /** Mouse look over many frames: the pitch stays within the bound once it has
      started there (as it does, at zero) and after any non-empty sequence, and
      the yaw is the start minus the scaled total of horizontal movement. */
  function LookAll(cam: Camera, mds: seq<Window.Vec2>): (r: Camera)
    ensures InPitchRange(cam.pitch) ==> InPitchRange(r.pitch)
    ensures |mds| > 0 ==> InPitchRange(r.pitch)
    ensures r.yaw == cam.yaw - SENSITIVITY * SumX(mds)
    decreases |mds|
  {
    if |mds| == 0 then cam else LookAll(Look(cam, mds[0]), mds[1..])
  }
}
