/** KMS/EGL context bookkeeping (gfx/context/drm_egl_ctx.c): the
    current/next GBM buffer-object pair, the `waiting_for_flip` flag driven by
    page-flip events, the missed-vblank count, teardown ordering, connector
    mode selection, the EGL context-attribute encoder and API binding. Buffer
    objects are opaque numbers, `NULL` is `None`; the kernel's replies to
    `poll`/`drmModePageFlip`, GBM's free-buffer answer and EGL results are
    parameters. */
module DrmEgl {
  import opened Wrappers
  import opened Machine

  /** Driver state that survives between calls. `released` lists the buffer
      objects handed back to GBM, oldest first. */
  datatype Kms = Kms(
    bo: Option<nat>, nextBo: Option<nat>, waiting: bool,
    firstFlip: nat, lastFlip: nat, released: seq<nat>,
    crtcId: nat, connectorId: nat, fbWidth: nat, fbHeight: nat)

  /** Result of `page_flip_handler`: new state and the missed-vblank count
      that is logged, if any. */
  datatype FlipResult = FlipResult(state: Kms, missed: Option<nat>)

  /** `page_flip_handler` for a flip completing at DRM frame `frame`. */
  function PageFlip(s: Kms, frame: nat): (r: FlipResult)
    requires frame < U32_LIMIT
    ensures r.state.firstFlip == (if s.firstFlip == 0 then frame else s.firstFlip)
    ensures r.state.lastFlip == frame && !r.state.waiting
    ensures r.state == s.(firstFlip := r.state.firstFlip, lastFlip := frame, waiting := false)
    ensures r.missed.Some? <==> s.lastFlip != 0 && U32(frame - s.lastFlip - 1) != 0
    ensures r.missed.Some? ==> r.missed.value < U32_LIMIT && U32(s.lastFlip + r.missed.value + 1) == frame
  {
    var first := if s.firstFlip == 0 then frame else s.firstFlip;
    var missed := U32(frame - s.lastFlip - 1);
    var report := if s.lastFlip != 0 && missed != 0 then Some(missed) else None;
    assert report.Some? ==> (s.lastFlip + missed + 1) % U32_LIMIT == frame;
    FlipResult(s.(firstFlip := first, lastFlip := frame, waiting := false), report)
  }

  /** Without 32-bit wrap-around between two flips, the logged count is the
      number of frames strictly between them, and back-to-back flips log
      nothing. */
  lemma MissedCountsGap(s: Kms, frame: nat)
    requires 0 < s.lastFlip < frame < U32_LIMIT
    ensures var r := PageFlip(s, frame);
            (frame == s.lastFlip + 1 ==> r.missed == None) &&
            (frame > s.lastFlip + 1 ==> r.missed == Some(frame - s.lastFlip - 1))
  {
  }

  /** What one `poll` on the DRM descriptor reports. */
  datatype PollEvent =
    | PollFailed            // poll() < 0
    | HangUp                // POLLHUP or POLLERR
    | FlipReady(frame: nat) // POLLIN, and drmHandleEvent delivers a flip at this frame
    | NothingReady          // poll returned without POLLIN (timeout in non-blocking mode)

  predicate ValidEvents(events: seq<PollEvent>)
  {
    forall i :: 0 <= i < |events| ==> events[i].FlipReady? ==> events[i].frame < U32_LIMIT
  }

  /** The poll loop of `wait_flip` as a function: the state once the loop
      stops, and how many poll results it consumed. The loop runs while a flip
      is outstanding; an exhausted event list means nothing more arrives. */
  function PollLoop(s: Kms, events: seq<PollEvent>): (r: (Kms, nat))
    requires ValidEvents(events)
    ensures r.1 <= |events|
    ensures r.0.bo == s.bo && r.0.nextBo == s.nextBo && r.0.released == s.released
    ensures !s.waiting ==> r == (s, 0)
    decreases |events|
  {
    if !s.waiting || |events| == 0 then (s, 0)
    else match events[0]
      case FlipReady(frame) =>
        var (t, n) := PollLoop(PageFlip(s, frame).state, events[1..]);
        (t, n + 1)
      case _ => (s, 1)
  }

  /** Tail of `wait_flip`: once no flip is outstanding, the buffer that was on
      screen goes back to GBM and the next buffer is the one shown. */
  function Promote(s: Kms): (r: Kms)
    ensures s.waiting ==> r == s
    ensures !s.waiting ==> r.bo == s.nextBo && r.nextBo == s.nextBo
    ensures !s.waiting ==> r.released == s.released + (if s.bo.Some? then [s.bo.value] else [])
  {
    if s.waiting then s
    else s.(released := s.released + (if s.bo.Some? then [s.bo.value] else []), bo := s.nextBo)
  }

  /** `wait_flip` as the driver runs it. `block` only selects the poll timeout,
      which is already reflected in the events the kernel delivers. */
  method WaitFlip(s: Kms, events: seq<PollEvent>, block: bool) returns (r: Kms, used: nat)
    requires ValidEvents(events)
    ensures (r, used) == (Promote(PollLoop(s, events).0), PollLoop(s, events).1)
    ensures r.waiting ==> r.bo == s.bo && r.nextBo == s.nextBo && r.released == s.released
    ensures !r.waiting ==> r.bo == s.nextBo
  {
    var t := s;
    used := 0;
    while t.waiting && used < |events|
      invariant used <= |events|
      invariant t.bo == s.bo && t.nextBo == s.nextBo && t.released == s.released
      invariant PollLoop(t, events[used..]).0 == PollLoop(s, events).0
      invariant PollLoop(t, events[used..]).1 + used == PollLoop(s, events).1
      decreases |events| - used
    {
      match events[used] {
        case FlipReady(frame) =>
          t := PageFlip(t, frame).state;
          used := used + 1;
        case _ =>
          used := used + 1;
          break;
      }
    }
    r := Promote(t);
  }

  /** A flip event that arrives before any failure ends the wait. */
  lemma FlipEndsWait(s: Kms, events: seq<PollEvent>)
    requires ValidEvents(events) && |events| > 0 && events[0].FlipReady?
    ensures !PollLoop(s, events).0.waiting
  {
  }

  /** `queue_flip`: lock the front buffer as the next buffer and ask for a
      flip; only an accepted request leaves a flip outstanding. */
  function QueueFlip(s: Kms, front: nat, accepted: bool): (r: Kms)
    ensures r.nextBo == Some(front) && r.bo == s.bo && r.released == s.released
    ensures r.waiting <==> accepted || s.waiting
  {
    if accepted then s.(nextBo := Some(front), waiting := true)
    else s.(nextBo := Some(front))
  }

  /** Environment answers for one `gfx_ctx_drm_egl_swap_buffers` call: poll
      results for the wait before queueing and for the wait after it, the
      locked front buffer, whether the kernel accepted the flip, and whether
      GBM still has a free buffer. */
  datatype SwapEnv = SwapEnv(
    before: seq<PollEvent>, after: seq<PollEvent>,
    front: nat, accepted: bool, hasFree: bool)

  predicate ValidSwapEnv(e: SwapEnv)
  {
    ValidEvents(e.before) && ValidEvents(e.after)
  }

  datatype SwapResult = SwapResult(state: Kms, dropped: bool)

  /** Wait, queue and optional second wait of a swap, on functions. */
  function WaitF(s: Kms, events: seq<PollEvent>): Kms
    requires ValidEvents(events)
  {
    Promote(PollLoop(s, events).0)
  }

  /** `gfx_ctx_drm_egl_swap_buffers` as written. */
  function SwapBuffers(s: Kms, e: SwapEnv): (r: SwapResult)
    requires ValidSwapEnv(e)
    ensures r.dropped <==> s.waiting && WaitF(s, e.before).waiting
    ensures r.dropped ==> r.state == WaitF(s, e.before) && r.state.nextBo == s.nextBo
    ensures !r.dropped && e.hasFree ==> r.state.nextBo == Some(e.front) && (r.state.waiting <==> e.accepted)
    ensures !r.dropped && !e.hasFree ==>
              r.state == WaitF(QueueFlip(BeforeQueue(s, e), e.front, e.accepted), e.after)
    ensures !r.dropped && !e.hasFree && !e.accepted ==>
              !r.state.waiting && r.state.bo == Some(e.front) &&
              r.state.released == BeforeQueue(s, e).released + Shown(BeforeQueue(s, e))
  {
    var s1 := if s.waiting then WaitF(s, e.before) else s;
    if s.waiting && s1.waiting then SwapResult(s1, true)
    else
      var s2 := QueueFlip(s1, e.front, e.accepted);
      if !e.hasFree then SwapResult(WaitF(s2, e.after), false)
      else SwapResult(s2, false)
  }

  /** In non-blocking mode an outstanding flip that has not completed drops
      the frame: nothing new is locked or queued. */
  lemma NonblockingDropsFrame(s: Kms, e: SwapEnv)
    requires ValidSwapEnv(e) && s.waiting
    requires |e.before| > 0 && e.before[0] == NothingReady
    ensures SwapBuffers(s, e).dropped && SwapBuffers(s, e).state == s
  {
  }

  /** When the kernel refuses the flip and GBM has no free buffer, the
      as-written swap still runs the post-queue wait: with no flip
      outstanding it releases the buffer that is on screen and promotes the
      buffer whose flip was refused. */
  lemma RefusedFlipReleasesShownBuffer(s: Kms, e: SwapEnv)
    requires ValidSwapEnv(e) && !s.waiting && s.bo.Some?
    requires !e.accepted && !e.hasFree
    ensures var r := SwapBuffers(s, e).state;
            r.released == s.released + [s.bo.value] && r.bo == Some(e.front) && !r.waiting
  {
  }

  /** The buffer on screen, as a list of at most one element. */
  function Shown(s: Kms): seq<nat>
  {
    if s.bo.Some? then [s.bo.value] else []
  }

  /** The state a swap queues its flip from: the current state, after the
      pre-queue wait when a flip was outstanding. */
  function BeforeQueue(s: Kms, e: SwapEnv): Kms
    requires ValidSwapEnv(e)
  {
    if s.waiting then WaitF(s, e.before) else s
  }

  /** The swap with the post-queue wait guarded by an outstanding flip. */
  function SwapBuffersGuarded(s: Kms, e: SwapEnv): (r: SwapResult)
    requires ValidSwapEnv(e)
    ensures r.dropped <==> s.waiting && WaitF(s, e.before).waiting
    ensures r.dropped ==> r.state == WaitF(s, e.before)
    ensures !r.dropped && !e.accepted ==> r.state.bo == BeforeQueue(s, e).bo
    ensures !r.dropped && !e.accepted ==> r.state.released == BeforeQueue(s, e).released
    ensures !r.dropped ==> r.state.nextBo == Some(e.front)
    ensures !r.dropped && e.hasFree ==> (r.state.waiting <==> e.accepted)
  {
    var s1 := if s.waiting then WaitF(s, e.before) else s;
    if s.waiting && s1.waiting then SwapResult(s1, true)
    else
      var s2 := QueueFlip(s1, e.front, e.accepted);
      if !e.hasFree && s2.waiting then SwapResult(WaitF(s2, e.after), false)
      else SwapResult(s2, false)
  }

  /** With the guard, a buffer leaves the screen only after a flip event, so
      a refused flip never releases the buffer on screen. Where a flip is
      outstanding both versions agree. */
  lemma {:induction false} GuardedSwapAgrees(s: Kms, e: SwapEnv)
    requires ValidSwapEnv(e)
    requires e.accepted || e.hasFree
    ensures SwapBuffersGuarded(s, e) == SwapBuffers(s, e)
  {
  }

  /** Teardown steps in the order `gfx_ctx_drm_egl_destroy_resources` takes
      them. */
  datatype TeardownStep = DrainFlips | DestroyEgl | RestoreCrtc | FreeDrmResources

  /** `gfx_ctx_drm_egl_destroy_resources`: acknowledge an outstanding flip
      (blocking), then tear down EGL, restore the original CRTC, free the DRM
      objects and forget every id, size and buffer object. */
  function DestroyResources(s: Kms, events: seq<PollEvent>): (r: (Kms, seq<TeardownStep>))
    requires ValidEvents(events)
    ensures r.1 == (if s.waiting then [DrainFlips] else []) + [DestroyEgl, RestoreCrtc, FreeDrmResources]
    ensures r.0.bo == None && r.0.nextBo == None
    ensures r.0.crtcId == 0 && r.0.connectorId == 0 && r.0.fbWidth == 0 && r.0.fbHeight == 0
    ensures r.0.released == (if s.waiting then WaitF(s, events).released else s.released)
  {
    var s1 := if s.waiting then WaitF(s, events) else s;
    var steps := (if s.waiting then [DrainFlips] else []) + [DestroyEgl, RestoreCrtc, FreeDrmResources];
    (s1.(crtcId := 0, connectorId := 0, fbWidth := 0, fbHeight := 0, bo := None, nextBo := None), steps)
  }

  /** A teardown whose drain sees the flip complete releases the buffer that
      was on screen before the buffer pointers are cleared. */
  lemma TeardownAcknowledgesFlip(s: Kms, events: seq<PollEvent>)
    requires ValidEvents(events) && s.waiting && s.bo.Some?
    requires |events| > 0 && events[0].FlipReady?
    ensures DestroyResources(s, events).0.released == s.released + [s.bo.value]
  {
  }

  // ------------------------------------------------------------ mode choice

  datatype ModeInfo = ModeInfo(hdisplay: nat, vdisplay: nat)

  predicate Matches(m: ModeInfo, width: nat, height: nat)
  {
    m.hdisplay == width && m.vdisplay == height
  }

  /** Mode choice of `gfx_ctx_drm_egl_set_video_mode`. `dist[i]` is how far
      mode `i`'s refresh rate is from the configured one (the driver computes
      it in floating point). The connector has at least one mode, since
      initialisation only accepts such connectors. */
  method ChooseMode(modes: seq<ModeInfo>, dist: seq<int>, width: nat, height: nat, fullscreen: bool)
    returns (r: Option<nat>)
    requires |modes| > 0 && |dist| == |modes|
    ensures (width == 0 && height == 0) || !fullscreen ==> r == Some(0)
    ensures !((width == 0 && height == 0) || !fullscreen) ==>
              (r.None? <==> forall i :: 0 <= i < |modes| ==> !Matches(modes[i], width, height))
    ensures !((width == 0 && height == 0) || !fullscreen) && r.Some? ==>
              r.value < |modes| && Matches(modes[r.value], width, height) &&
              (forall i :: 0 <= i < |modes| && Matches(modes[i], width, height) ==> dist[r.value] <= dist[i]) &&
              (forall i :: 0 <= i < r.value && Matches(modes[i], width, height) ==> dist[r.value] < dist[i])
  {
    if (width == 0 && height == 0) || !fullscreen {
      return Some(0);
    }
    r := None;
    var best := 0;
    var i := 0;
    while i < |modes|
      invariant 0 <= i <= |modes|
      invariant r.None? <==> forall j :: 0 <= j < i ==> !Matches(modes[j], width, height)
      invariant r.Some? ==> r.value < i && Matches(modes[r.value], width, height) && best == dist[r.value]
      invariant r.Some? ==> forall j :: 0 <= j < i && Matches(modes[j], width, height) ==> dist[r.value] <= dist[j]
      invariant r.Some? ==> forall j :: 0 <= j < r.value && Matches(modes[j], width, height) ==> dist[r.value] < dist[j]
    {
      if Matches(modes[i], width, height) {
        if r.None? || dist[i] < best {
          r := Some(i);
          best := dist[i];
        }
      }
      i := i + 1;
    }
  }

  // ------------------------------------------------------------ EGL context

  datatype Api = OpenGl | OpenGlEs | OpenVg | NoApi

  /** EGL enumerants (EGL/egl.h and EGL/eglext.h, not part of this model). */
  const EGL_NONE: int := 0x3038
  const EGL_CONTEXT_CLIENT_VERSION: int := 0x3098
  const EGL_CONTEXT_MAJOR_VERSION_KHR: int := 0x3098
  const EGL_CONTEXT_MINOR_VERSION_KHR: int := 0x30FB
  const EGL_CONTEXT_FLAGS_KHR: int := 0x30FC
  const EGL_CONTEXT_OPENGL_PROFILE_MASK_KHR: int := 0x30FD
  const EGL_CONTEXT_OPENGL_CORE_PROFILE_BIT_KHR: int := 0x1
  const EGL_CONTEXT_OPENGL_DEBUG_BIT_KHR: int := 0x1

  /** `g_major * 1000 + g_minor` in unsigned arithmetic. */
  function GlVersion(major: nat, minor: nat): nat
  {
    U32(major * 1000 + minor)
  }

  /** The attribute list `egl_fill_attribs` writes into its 16-entry buffer,
      and the index of the terminator it returns a pointer to. `khr` says
      whether EGL_KHR_create_context was available at build time. */
  function FillAttribs(api: Api, major: nat, minor: nat, debug: bool, khr: bool): (r: (seq<int>, nat))
    ensures |r.0| <= 16 && r.1 == |r.0| - 1 && r.0[r.1] == EGL_NONE
    ensures |r.0| % 2 == 1
    ensures forall i :: 0 <= i < r.1 && i % 2 == 0 ==> r.0[i] != EGL_NONE
  {
    var body :=
      match api
      case OpenGl =>
        if !khr then []
        else
          var v := GlVersion(major, minor);
          (if v >= 3001 then [EGL_CONTEXT_MAJOR_VERSION_KHR, major, EGL_CONTEXT_MINOR_VERSION_KHR, minor] else []) +
          (if v >= 3001 && v >= 3002 then [EGL_CONTEXT_OPENGL_PROFILE_MASK_KHR, EGL_CONTEXT_OPENGL_CORE_PROFILE_BIT_KHR] else []) +
          (if debug then [EGL_CONTEXT_FLAGS_KHR, EGL_CONTEXT_OPENGL_DEBUG_BIT_KHR] else [])
      case OpenGlEs =>
        [EGL_CONTEXT_CLIENT_VERSION, if major != 0 then major else 2] +
        (if khr && minor > 0 then [EGL_CONTEXT_MINOR_VERSION_KHR, minor] else [])
      case _ => [];
    (body + [EGL_NONE], |body|)
  }

  /** Reading an attribute list back: key/value pairs up to the terminator. */
  function Decode(attrs: seq<int>): map<int, int>
    decreases |attrs|
  {
    if |attrs| < 2 || attrs[0] == EGL_NONE then map[]
    else Decode(attrs[2..])[attrs[0] := attrs[1]]
  }

  /** What a desktop-GL context is asked for: an explicit version from 3.1 on,
      the core profile from 3.2 on, and the debug flag when requested. */
  lemma {:induction false} GlAttribsDecode(major: nat, minor: nat, debug: bool)
    ensures var v := GlVersion(major, minor);
            Decode(FillAttribs(OpenGl, major, minor, debug, true).0) ==
              (if debug then map[EGL_CONTEXT_FLAGS_KHR := EGL_CONTEXT_OPENGL_DEBUG_BIT_KHR] else map[]) +
              (if v >= 3002 then map[EGL_CONTEXT_OPENGL_PROFILE_MASK_KHR := EGL_CONTEXT_OPENGL_CORE_PROFILE_BIT_KHR] else map[]) +
              (if v >= 3001 then map[EGL_CONTEXT_MAJOR_VERSION_KHR := major, EGL_CONTEXT_MINOR_VERSION_KHR := minor] else map[])
  {
    var a := FillAttribs(OpenGl, major, minor, debug, true).0;
    var v := GlVersion(major, minor);
    var p := if v >= 3001 && v >= 3002 then [EGL_CONTEXT_OPENGL_PROFILE_MASK_KHR, EGL_CONTEXT_OPENGL_CORE_PROFILE_BIT_KHR] else [];
    var c := if v >= 3001 then [EGL_CONTEXT_MAJOR_VERSION_KHR, major, EGL_CONTEXT_MINOR_VERSION_KHR, minor] else [];
    var d := if debug then [EGL_CONTEXT_FLAGS_KHR, EGL_CONTEXT_OPENGL_DEBUG_BIT_KHR] else [];
    var rest := p + (d + [EGL_NONE]);
    assert a == c + rest;
    ProfileAndFlagsDecode(v, debug);
    if v >= 3001 {
      DecodeTail(c);
      assert Decode(a) == Decode(rest)[EGL_CONTEXT_MINOR_VERSION_KHR := minor][EGL_CONTEXT_MAJOR_VERSION_KHR := major];
    }
  }

  /** What a GLES context is asked for: the client version (2 when no major
      version was requested), and the minor version when EGL_KHR_create_context
      is available and a minor version was requested. */
  lemma GlesAttribsDecode(major: nat, minor: nat, debug: bool, khr: bool)
    ensures Decode(FillAttribs(OpenGlEs, major, minor, debug, khr).0) ==
              map[EGL_CONTEXT_CLIENT_VERSION := if major != 0 then major else 2] +
              (if khr && minor > 0 then map[EGL_CONTEXT_MINOR_VERSION_KHR := minor] else map[])
  {
    var a := FillAttribs(OpenGlEs, major, minor, debug, khr).0;
    var c := [EGL_CONTEXT_CLIENT_VERSION, if major != 0 then major else 2];
    var m := if khr && minor > 0 then [EGL_CONTEXT_MINOR_VERSION_KHR, minor] else [];
    assert a == c + (m + [EGL_NONE]);
    DecodeTail(c);
    DecodeTail(m);
    assert Decode([EGL_NONE]) == map[];
  }

  /** The profile and debug entries of a desktop-GL list, read back. */
  lemma ProfileAndFlagsDecode(v: nat, debug: bool)
    ensures var p := if v >= 3001 && v >= 3002 then [EGL_CONTEXT_OPENGL_PROFILE_MASK_KHR, EGL_CONTEXT_OPENGL_CORE_PROFILE_BIT_KHR] else [];
            var d := if debug then [EGL_CONTEXT_FLAGS_KHR, EGL_CONTEXT_OPENGL_DEBUG_BIT_KHR] else [];
            Decode(p + (d + [EGL_NONE])) ==
              (if debug then map[EGL_CONTEXT_FLAGS_KHR := EGL_CONTEXT_OPENGL_DEBUG_BIT_KHR] else map[]) +
              (if v >= 3002 then map[EGL_CONTEXT_OPENGL_PROFILE_MASK_KHR := EGL_CONTEXT_OPENGL_CORE_PROFILE_BIT_KHR] else map[])
  {
    var p := if v >= 3001 && v >= 3002 then [EGL_CONTEXT_OPENGL_PROFILE_MASK_KHR, EGL_CONTEXT_OPENGL_CORE_PROFILE_BIT_KHR] else [];
    var d := if debug then [EGL_CONTEXT_FLAGS_KHR, EGL_CONTEXT_OPENGL_DEBUG_BIT_KHR] else [];
    DecodeTail(d);
    DecodeTail(p);
  }

  /** Decoding a short list of pairs in front of the rest. */
  lemma DecodeTail(pairs: seq<int>)
    requires |pairs| in {0, 2, 4}
    requires forall i :: 0 <= i < |pairs| && i % 2 == 0 ==> pairs[i] != EGL_NONE
    ensures forall rest :: |pairs| == 0 ==> Decode(pairs + rest) == Decode(rest)
    ensures forall rest :: |pairs| == 2 ==> Decode(pairs + rest) == Decode(rest)[pairs[0] := pairs[1]]
    ensures forall rest :: |pairs| == 4 ==>
              Decode(pairs + rest) == Decode(rest)[pairs[2] := pairs[3]][pairs[0] := pairs[1]]
  {
    forall rest | |pairs| == 0
      ensures Decode(pairs + rest) == Decode(rest)
    {
      assert pairs + rest == rest;
    }
    forall rest | |pairs| == 2
      ensures Decode(pairs + rest) == Decode(rest)[pairs[0] := pairs[1]]
    {
      assert (pairs + rest)[2..] == rest;
    }
    forall rest | |pairs| == 4
      ensures Decode(pairs + rest) == Decode(rest)[pairs[2] := pairs[3]][pairs[0] := pairs[1]]
    {
      assert (pairs + rest)[2..] == pairs[2..] + rest;
      assert (pairs[2..] + rest)[2..] == rest;
    }
  }

  /** Result of `gfx_ctx_drm_egl_bind_api`: the stored api/version and
      whether binding succeeded. `eglOk` is what `eglBindAPI` answers. */
  datatype Binding = Binding(api: Api, major: nat, minor: nat, ok: bool)

  /** The request is not one of the two that need EGL_KHR_create_context
      when it is missing: desktop GL from 3.1 on and GLES from 3 on. */
  predicate KhrAllows(api: Api, major: nat, minor: nat, khr: bool)
  {
    api != NoApi &&
    !(!khr && api == OpenGl && GlVersion(major, minor) >= 3001) &&
    !(!khr && api == OpenGlEs && major >= 3)
  }

  function BindApi(api: Api, major: nat, minor: nat, khr: bool, eglOk: bool): (b: Binding)
    ensures b.api == api && b.major == major && b.minor == minor
    ensures b.ok ==> eglOk && api != NoApi
    ensures !khr && api == OpenGl && GlVersion(major, minor) >= 3001 ==> !b.ok
    ensures !khr && api == OpenGlEs && major >= 3 ==> !b.ok
    ensures KhrAllows(api, major, minor, khr) ==> (b.ok <==> eglOk)
  {
    var ok :=
      match api
      case OpenGl => if !khr && GlVersion(major, minor) >= 3001 then false else eglOk
      case OpenGlEs => if !khr && major >= 3 then false else eglOk
      case OpenVg => eglOk
      case NoApi => false;
    Binding(api, major, minor, ok)
  }

  /** Without EGL_KHR_create_context, a binding that succeeds only ever leads
      to attribute lists that use the core EGL client-version key. */
  lemma BoundWithoutKhrUsesCoreKeys(api: Api, major: nat, minor: nat, debug: bool, eglOk: bool)
    requires BindApi(api, major, minor, false, eglOk).ok
    ensures var a := FillAttribs(api, major, minor, debug, false).0;
            forall k :: k in Decode(a) ==> k == EGL_CONTEXT_CLIENT_VERSION
  {
    var a := FillAttribs(api, major, minor, debug, false).0;
    if api == OpenGlEs {
      assert a[2..] == [EGL_NONE];
    }
  }
}
