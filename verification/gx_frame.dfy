/** Per-frame presentation state of the GX driver (gfx/gx/gx_gfx.c): the
    fade-in / fade-out ramp on the copy filter, the double-buffered external
    framebuffer index, the unblanking counter after a mode switch, the vsync
    flag handshake with the pre-retrace callback, and the texture-coordinate
    quad. The driver keeps these as globals; the model passes them around as
    immutable records and makes the retrace callback an explicit event. */
module GxFrame {
  import opened Wrappers
  import opened Machine
  import GxVideo

  /** The fade globals (`fade`, `fade_boot`, `start_resetfade`,
      `end_resetfade`, `start_exitfade`, `exit_safe`). */
  datatype FadeState = FadeState(
    fade: int, fadeBoot: bool, startResetFade: bool, endResetFade: bool,
    startExitFade: bool, exitSafe: bool)

  /** `g_settings.fadein`, `g_settings.reset_fade`, `g_settings.exit_fade`,
      and what `update_deflicker` reads: whether the current mode is double
      strike (`modetype == VI_NON_INTERLACE`), `g_settings.video.vfilter` and
      `g_settings.video.vbright`. */
  datatype FadeSettings = FadeSettings(
    fadeIn: bool, resetFade: int, exitFade: bool,
    nonInterlace: bool, vfilter: bool, vbright: int)

  /** A `rarch_main_command` issued from the fade-out ramp. */
  datatype Command = Quit | Reset

  /** Result of one ramp step: the new globals, the copy-filter taps the ramp
      programmed, the mode's own deflicker table when `update_deflicker` then
      reinstalled it, the command issued (if any) and whether the screen was
      blanked. */
  datatype Step = Step(
    state: FadeState, taps: seq<nat>, restored: Option<seq<nat>>, cmd: seq<Command>, black: bool)

  /** The copy filter in force once the step is over. */
  function Installed(r: Step): seq<nat>
  {
    if r.restored.Some? then r.restored.value else r.taps
  }

  /** Power-on values of the fade globals. */
  const Boot := FadeState(0, true, false, false, false, false)

  /** `fadein_copyfilter`: program taps proportional to the current level, then
      raise the level; at the top (or on an instant reset fade-in) restore the
      normal deflicker table and finish. */
  function FadeInStep(s: FadeState, cfg: FadeSettings): (r: Step)
    ensures |r.taps| == 7 && r.cmd == [] && !r.black
    ensures 0 <= s.fade ==> r.taps[2] <= 21 && r.taps[3] <= 22 && r.taps[4] <= 21
    ensures 0 <= s.fade <= 21 ==> r.taps == [0, 0, s.fade, s.fade, s.fade, 0, 0]
    ensures r.state.fade == 22 || r.state.fade == s.fade + 1
    ensures r.state.fade == 22 ==> !r.state.endResetFade
    ensures r.state.fade > 21 && !r.state.fadeBoot ==> !s.fadeBoot || s.fade + 1 > 21 || !cfg.fadeIn
    ensures !cfg.fadeIn && s.fadeBoot ==> r.state.fade == 22 && !r.state.fadeBoot
    ensures s.fade + 1 > 21 ==> r.state.fade == 22 && !r.state.fadeBoot
    ensures r.state.fade != 22 ==> r.state == s.(fade := s.fade + 1)
    ensures r.state.startResetFade == s.startResetFade && r.state.startExitFade == s.startExitFade
    ensures r.state.exitSafe == s.exitSafe
    ensures r.restored.Some? <==> r.state.fade == 22
    ensures r.restored.Some? ==> r.restored.value == GxVideo.Deflicker(cfg.nonInterlace, cfg.vfilter, cfg.vbright)
  {
    var taps := [0, 0, U8(Min(s.fade, 21)), U8(Min(s.fade, 22)), U8(Min(s.fade, 21)), 0, 0];
    var f := if !cfg.fadeIn && s.fadeBoot then 22 else s.fade + 1;
    var st :=
      if f > 21 then s.(fade := 22, fadeBoot := false, endResetFade := false)
      else if s.endResetFade && cfg.resetFade == 1 then s.(fade := 22, endResetFade := false)
      else s.(fade := f);
    var restored :=
      if st.fade == 22 then Some(GxVideo.Deflicker(cfg.nonInterlace, cfg.vfilter, cfg.vbright)) else None;
    Step(st, taps, restored, [], false)
  }

  /** `fadeout_copyfilter`: program taps for the current level, then lower it;
      on reaching zero, either finish the exit (blank and quit) or reset the
      content and arm the fade back in. */
  function FadeOutStep(s: FadeState): (r: Step)
    ensures |r.taps| == 7 && r.restored == None
    ensures 1 <= s.fade <= 0x100 ==> r.taps == [0, 0, s.fade - 1, U8(s.fade), s.fade - 1, 0, 0]
    ensures r.state.fade == s.fade - 1
    ensures r.state.fade != 0 ==> r.state == s.(fade := s.fade - 1) && r.cmd == [] && !r.black
    ensures r.state.fade == 0 && s.startExitFade ==> r.state.exitSafe && r.black && r.cmd == [Quit]
    ensures r.state.fade == 0 && !s.startExitFade ==>
              !r.state.startResetFade && r.state.endResetFade && r.cmd == [Reset] && !r.black
    ensures r.state.fadeBoot == s.fadeBoot
  {
    var taps := [0, 0, U8(s.fade - 1), U8(s.fade), U8(s.fade - 1), 0, 0];
    var f := s.fade - 1;
    if f == 0 && s.startExitFade then
      Step(s.(fade := f, exitSafe := true), taps, None, [Quit], true)
    else if f == 0 then
      Step(s.(fade := f, startResetFade := false, endResetFade := true), taps, None, [Reset], false)
    else
      Step(s.(fade := f), taps, None, [], false)
  }

  predicate WantsFadeIn(s: FadeState, cfg: FadeSettings)
  {
    s.fadeBoot || (s.endResetFade && cfg.resetFade != 0)
  }

  predicate WantsFadeOut(s: FadeState, cfg: FadeSettings)
  {
    (s.startExitFade && cfg.exitFade) || s.startResetFade
  }

  /** The fade dispatch of `gx_frame`: at most one ramp step per frame, and
      fade-in wins when both ramps are armed. */
  function FrameFade(s: FadeState, cfg: FadeSettings): (r: Step)
    ensures WantsFadeIn(s, cfg) ==> r == FadeInStep(s, cfg)
    ensures !WantsFadeIn(s, cfg) && WantsFadeOut(s, cfg) ==> r == FadeOutStep(s)
    ensures !WantsFadeIn(s, cfg) && !WantsFadeOut(s, cfg) ==> r.state == s && r.cmd == [] && r.taps == [] && r.restored == None
    ensures r.state.fade - s.fade in {-1, 0, 1} || r.state.fade == 22
  {
    if WantsFadeIn(s, cfg) then FadeInStep(s, cfg)
    else if WantsFadeOut(s, cfg) then FadeOutStep(s)
    else Step(s, [], None, [], false)
  }

  /** State and issued commands after `n` frames. */
  function RunFrames(s: FadeState, cfg: FadeSettings, n: nat): (r: (FadeState, seq<Command>))
    decreases n
  {
    if n == 0 then (s, [])
    else
      var st := FrameFade(s, cfg);
      var run := RunFrames(st.state, cfg, n - 1); var t, cmds := run.0, run.1;
      (t, st.cmd + cmds)
  }

  /** The boot fade-in with the fade-in setting on: `fade` counts the frames
      up to 21 and the ramp ends, with `fade_boot` and `end_resetfade` clear,
      on exactly the 22nd frame. */
  lemma {:induction false} BootFadeInCounts(cfg: FadeSettings, n: nat)
    requires cfg.fadeIn
    requires n <= 22
    ensures var run := RunFrames(Boot, cfg, n); var t, cmds := run.0, run.1;
            cmds == [] &&
            (n < 22 ==> t == Boot.(fade := n)) &&
            (n == 22 ==> t.fade == 22 && !t.fadeBoot && !t.endResetFade)
  {
    if n > 0 {
      BootFadeInCounts(cfg, n - 1);
      var run := RunFrames(Boot, cfg, n - 1); var t0, c0 := run.0, run.1;
      RunFramesSnoc(Boot, cfg, n - 1);
      assert t0 == Boot.(fade := n - 1) && c0 == [];
      assert FrameFade(t0, cfg) == FadeInStep(t0, cfg);
    }
  }

  /** Running `n + 1` frames is running `n`, then one more. */
  lemma {:induction false} RunFramesSnoc(s: FadeState, cfg: FadeSettings, n: nat)
    ensures var run := RunFrames(s, cfg, n); var t, cmds := run.0, run.1;
            var st := FrameFade(t, cfg);
            RunFrames(s, cfg, n + 1) == (st.state, cmds + st.cmd)
    decreases n
  {
    if n == 0 {
      var st := FrameFade(s, cfg);
      assert st.cmd + [] == [] + st.cmd;
    } else {
      RunFramesSnoc(FrameFade(s, cfg).state, cfg, n - 1);
      var st := FrameFade(s, cfg);
      var run := RunFrames(st.state, cfg, n - 1); var t, cmds := run.0, run.1;
      assert st.cmd + (cmds + FrameFade(t, cfg).cmd) == (st.cmd + cmds) + FrameFade(t, cfg).cmd;
    }
  }

  /** With the fade-in setting off, the boot frame jumps straight to the top. */
  lemma BootFadeInDisabled(cfg: FadeSettings)
    requires !cfg.fadeIn
    ensures var st := FrameFade(Boot, cfg).state;
            st.fade == 22 && !st.fadeBoot
  {
  }

  /** A settled screen (level 22, no fade-in pending) on which a reset fade is
      armed. */
  predicate ResetArmed(s: FadeState)
  {
    s.fade == 22 && !s.fadeBoot && !s.endResetFade && s.startResetFade && !s.startExitFade
  }

  /** The reset fade-out lowers the level by one per frame, issues exactly one
      reset on the 22nd frame and leaves the fade-in armed. */
  lemma {:induction false} ResetFadeOutCounts(s: FadeState, cfg: FadeSettings, n: nat)
    requires ResetArmed(s)
    requires n <= 22
    ensures var run := RunFrames(s, cfg, n); var t, cmds := run.0, run.1;
            (n < 22 ==> t == s.(fade := 22 - n) && cmds == []) &&
            (n == 22 ==> t.fade == 0 && !t.startResetFade && t.endResetFade && cmds == [Reset])
  {
    if n < 22 {
      FadeOutRamp(s, cfg, n);
    } else {
      FadeOutEnds(s, cfg);
    }
  }

  /** While the level stays above zero, an armed fade-out lowers it by one per
      frame and changes nothing else. */
  lemma {:induction false} FadeOutRamp(s: FadeState, cfg: FadeSettings, n: nat)
    requires !WantsFadeIn(s, cfg) && WantsFadeOut(s, cfg) && n < s.fade
    ensures RunFrames(s, cfg, n) == (s.(fade := s.fade - n), [])
    decreases n
  {
    if n > 0 {
      FadeOutFrame(s, cfg);
      var s1 := s.(fade := s.fade - 1);
      assert WantsFadeIn(s1, cfg) == WantsFadeIn(s, cfg) && WantsFadeOut(s1, cfg) == WantsFadeOut(s, cfg);
      FadeOutRamp(s1, cfg, n - 1);
      assert FrameFade(s, cfg).state == s1;
      assert RunFrames(s, cfg, n) == (RunFrames(s1, cfg, n - 1).0, [] + RunFrames(s1, cfg, n - 1).1);
      assert s1.(fade := s1.fade - (n - 1)) == s.(fade := s.fade - n);
      var rest: seq<Command> := RunFrames(s1, cfg, n - 1).1;
      assert rest == [] && [] + rest == [];
    } else {
      assert s.(fade := s.fade - 0) == s;
    }
  }

  /** An armed fade-out runs for as many frames as its level and ends with
      the step from level 1. */
  lemma FadeOutEnds(s: FadeState, cfg: FadeSettings)
    requires !WantsFadeIn(s, cfg) && WantsFadeOut(s, cfg) && s.fade >= 1
    ensures var last := FadeOutStep(s.(fade := 1));
            RunFrames(s, cfg, s.fade) == (last.state, last.cmd)
  {
    var n := s.fade - 1;
    FadeOutRamp(s, cfg, n);
    RunFramesSnoc(s, cfg, n);
    var t0 := s.(fade := 1);
    assert RunFrames(s, cfg, n) == (t0, []);
    assert FrameFade(t0, cfg) == FadeOutStep(t0);
    assert [] + FadeOutStep(t0).cmd == FadeOutStep(t0).cmd;
  }

  /** A frame of fade-out above the last step only lowers the counter. */
  lemma FadeOutFrame(t: FadeState, cfg: FadeSettings)
    requires !WantsFadeIn(t, cfg) && WantsFadeOut(t, cfg) && t.fade > 1
    ensures FrameFade(t, cfg).state == t.(fade := t.fade - 1) && FrameFade(t, cfg).cmd == []
  {
    assert FrameFade(t, cfg) == FadeOutStep(t);
  }

  /** The exit fade-out reaches zero after exactly 22 frames and then marks the
      exit as safe, blanks the screen and quits. */
  lemma {:induction false} ExitFadeOutCounts(s: FadeState, cfg: FadeSettings, n: nat)
    requires s.fade == 22 && !s.fadeBoot && !s.endResetFade && s.startExitFade && cfg.exitFade
    requires n <= 22
    ensures var run := RunFrames(s, cfg, n); var t, cmds := run.0, run.1;
            (n < 22 ==> t == s.(fade := 22 - n) && cmds == []) &&
            (n == 22 ==> t.fade == 0 && t.exitSafe && cmds == [Quit])
  {
    if n < 22 {
      FadeOutRamp(s, cfg, n);
    } else {
      FadeOutEnds(s, cfg);
    }
  }

  /** At full level the ramp's own taps are the unfiltered deflicker table at
      neutral brightness. That is not necessarily what stays on screen:
      `update_deflicker` reinstalls the mode's table right after (see
      `FadeInEndsOnModeTable`). */
  lemma FadeInTopIsDeflicker(s: FadeState, cfg: FadeSettings)
    requires s.fade >= 22
    ensures FadeInStep(s, cfg).taps == GxVideo.Deflicker(true, false, 0)
  {
  }

  /** The last fade-in step leaves the mode's own deflicker table installed.
      It differs from the ramp's final taps unless the vertical filter is off
      (or the mode is double strike) and the brightened centre tap equals the
      ramp's, so ending the ramp can visibly change the picture. */
  lemma FadeInEndsOnModeTable(s: FadeState, cfg: FadeSettings)
    requires s.fade >= 21
    ensures var r := FadeInStep(s, cfg);
            r.state.fade == 22 && !r.state.fadeBoot && !r.state.endResetFade &&
            Installed(r) == GxVideo.Deflicker(cfg.nonInterlace, cfg.vfilter, cfg.vbright) &&
            (Installed(r) == r.taps <==>
               (cfg.nonInterlace || !cfg.vfilter) && U8(22 + cfg.vbright) == Min(s.fade, 22))
  {
    var r := FadeInStep(s, cfg);
    if Installed(r) == r.taps {
      assert r.taps[0] == 0 && r.taps[3] == U8(Min(s.fade, 22));
    }
  }

  /** With `reset_fade == 1` the fade back in after a reset is instant: one
      frame jumps to full level, ends the reset fade and reinstalls the mode's
      deflicker table. */
  lemma ResetFadeInIsInstant(s: FadeState, cfg: FadeSettings)
    requires s.endResetFade && !s.fadeBoot && cfg.resetFade == 1
    ensures var r := FrameFade(s, cfg);
            r.state == s.(fade := 22, endResetFade := false) && r.cmd == [] &&
            Installed(r) == GxVideo.Deflicker(cfg.nonInterlace, cfg.vfilter, cfg.vbright)
  {
  }

  /** Double-buffer and unblanking globals: `g_current_framebuf`,
      `skip_frames`, `should_skip`, and whether the VI output is blanked. */
  datatype Present = Present(fb: nat, skipFrames: int, shouldSkip: bool, blanked: bool)

  predicate ValidPresent(p: Present) { p.fb < 2 }

  /** `gx_set_video_mode`'s blanking: the output is blanked at the start
      unless `hide_black` is set (only the switch into a game sets it), and
      at the end buffer 0 is drawn into again and the output unblanked
      unless a skip is pending. */
  function ModeSet(p: Present, hideBlack: bool): (r: Present)
    ensures r.fb == 0 && ValidPresent(r)
    ensures r.blanked <==> p.shouldSkip && (!hideBlack || p.blanked)
    ensures r.skipFrames == p.skipFrames && r.shouldSkip == p.shouldSkip
  {
    var start := if hideBlack then p else p.(blanked := true);
    start.(fb := 0, blanked := start.blanked && start.shouldSkip)
  }

  /** The automatic resolution switch arms the skip counter (with 1 when
      switching into a game, with -5 when switching back to the menu). */
  function ArmSkip(p: Present, start: int): (r: Present)
    ensures r.shouldSkip && r.skipFrames == start && r.fb == p.fb && r.blanked == p.blanked
  {
    p.(shouldSkip := true, skipFrames := start)
  }

  /** One presented frame: flip to the other buffer, count the frame, and once
      more than two frames have been counted while skipping, unblank. */
  function PresentFrame(p: Present): (r: Present)
    requires ValidPresent(p)
    ensures ValidPresent(r) && r.fb == 1 - p.fb
    ensures r.skipFrames == p.skipFrames + 1
    ensures r.shouldSkip <==> p.shouldSkip && p.skipFrames + 1 <= 2
    ensures p.shouldSkip ==> (r.blanked <==> p.blanked && r.shouldSkip)
    ensures !p.shouldSkip ==> r.blanked == p.blanked
  {
    var k := p.skipFrames + 1;
    if p.shouldSkip && k > 2 then Present(1 - p.fb, k, false, false)
    else p.(fb := 1 - p.fb, skipFrames := k)
  }

  function PresentFrames(p: Present, n: nat): (r: Present)
    requires ValidPresent(p)
    ensures ValidPresent(r)
    decreases n
  {
    if n == 0 then p else PresentFrames(PresentFrame(p), n - 1)
  }

  /** After a mode set, the buffer drawn into alternates: after `n` frames it
      is `n mod 2`. */
  lemma {:induction false} BufferAlternates(p: Present, n: nat)
    ensures forall hideBlack: bool :: PresentFrames(ModeSet(p, hideBlack), n).fb == n % 2
  {
    forall hideBlack: bool {
      BufferAlternatesFrom(ModeSet(p, hideBlack), n);
    }
  }

  lemma {:induction false} BufferAlternatesFrom(p: Present, n: nat)
    requires ValidPresent(p)
    ensures PresentFrames(p, n).fb == (p.fb + n) % 2
    decreases n
  {
    if n > 0 {
      BufferAlternatesFrom(PresentFrame(p), n - 1);
    }
  }

  /** A skip armed at `start` (at most 2) before the mode set keeps the
      output blanked for exactly `3 - start` frames: it is still skipping
      after fewer frames and unblanked after that many. The mode set blanks
      by itself unless `hide_black` is set; with it set, the output must
      already have been blank. */
  lemma {:induction false} SkipUnblanksAfter(p: Present, start: int, hideBlack: bool, n: nat)
    requires !hideBlack || p.blanked
    requires start <= 2 && n <= 3 - start
    ensures var r := PresentFrames(ModeSet(ArmSkip(p, start), hideBlack), n);
            (n < 3 - start ==> r.shouldSkip && r.blanked && r.skipFrames == start + n) &&
            (n == 3 - start ==> !r.shouldSkip && !r.blanked)
  {
    if n > 0 {
      SkipUnblanksAfter(p, start, hideBlack, n - 1);
      PresentFramesSnoc(ModeSet(ArmSkip(p, start), hideBlack), n - 1);
    }
  }

  /** The switch back to the menu resolution (`skip_frames = -5`, no
      `hide_black`) leaves the output blank for the first seven frames and
      shows the eighth. */
  lemma BackToMenuBlanksSevenFrames(p: Present)
    ensures PresentFrames(ModeSet(ArmSkip(p, -5), false), 7).blanked
    ensures !PresentFrames(ModeSet(ArmSkip(p, -5), false), 8).blanked
  {
    SkipUnblanksAfter(p, -5, false, 7);
    SkipUnblanksAfter(p, -5, false, 8);
  }

  lemma {:induction false} PresentFramesSnoc(p: Present, n: nat)
    requires ValidPresent(p)
    ensures PresentFrames(p, n + 1) == PresentFrame(PresentFrames(p, n))
    decreases n
  {
    if n > 0 {
      PresentFramesSnoc(PresentFrame(p), n - 1);
    }
  }

  /** The vsync handshake: `g_vsync` is cleared by the pre-retrace callback
      and re-armed after each frame from `g_vsync_state`, which is the negated
      non-blocking flag. */
  datatype Vsync = Vsync(vsync: bool, vsyncState: bool)

  /** `gx_set_nonblock_state`. */
  function SetNonblock(v: Vsync, nonblock: bool): (r: Vsync)
    ensures r.vsyncState == !nonblock && r.vsync == v.vsync
  {
    v.(vsyncState := !nonblock)
  }

  /** `vblank_cb`, the pre-retrace interrupt. */
  function VBlank(v: Vsync): (r: Vsync)
    ensures !r.vsync && r.vsyncState == v.vsyncState
  {
    v.(vsync := false)
  }

  /** Whether the end of `gx_frame` would spin: only without `forcesync`, and
      only while no retrace has cleared the flag. */
  predicate MustSpin(v: Vsync, forceSync: bool)
  {
    !forceSync && v.vsync
  }

  /** End of `gx_frame` once the wait is over. With `forcesync` the driver
      waits on the VI instead and leaves the flag alone. */
  function FrameSync(v: Vsync, forceSync: bool): (r: Vsync)
    requires !MustSpin(v, forceSync)
    ensures forceSync ==> r == v
    ensures !forceSync ==> r.vsync == v.vsyncState && r.vsyncState == v.vsyncState
  {
    if forceSync then v else v.(vsync := v.vsyncState)
  }

  /** The menu branch of `gx_frame`: while the menu texture is shown, the
      frame requests the retrace wait whatever the non-blocking flag says. */
  function MenuVsync(v: Vsync, menu: bool): (r: Vsync)
    ensures r.vsyncState == v.vsyncState
    ensures r.vsync <==> menu || v.vsync
  {
    if menu then v.(vsync := true) else v
  }

  /** The end of `gx_frame`, from the menu's request to the re-arm: without
      `forcesync` the frame spins until the retrace callback clears the flag,
      with it the driver waits on the VI. `r.1` says whether the frame waited
      for a retrace. */
  function EndFrame(v: Vsync, menu: bool, forceSync: bool): (r: (Vsync, bool))
    ensures r.1 <==> forceSync || menu || v.vsync
    ensures !forceSync ==> r.0 == Vsync(v.vsyncState, v.vsyncState)
    ensures forceSync ==> r.0 == MenuVsync(v, menu)
  {
    var w := MenuVsync(v, menu);
    if MustSpin(w, forceSync) then (FrameSync(VBlank(w), forceSync), true)
    else (FrameSync(w, forceSync), forceSync)
  }

  /** Once a frame has passed since `gx_set_nonblock_state`, a frame waits
      for the retrace exactly when blocking mode is on or the menu is shown;
      the first frame waits when the flag was still armed or the menu is
      shown. */
  lemma VsyncPacing(v: Vsync, nonblock: bool, menu1: bool, menu2: bool)
    ensures var f1 := EndFrame(SetNonblock(v, nonblock), menu1, false);
            var f2 := EndFrame(f1.0, menu2, false);
            (f1.1 <==> menu1 || v.vsync) && (f2.1 <==> menu2 || !nonblock)
  {
  }

  /** Texture coordinates of the drawn triangle strip: (0,0), (w,0), (0,h),
      (w,h) as a flat array of eight values. */
  predicate IsStripQuad(v: seq<int>, w: int, h: int)
  {
    |v| == 8 && v == [0, 0, w, 0, 0, h, w, h]
  }

  /** Start-up contents of `vertex_ptr`. */
  const InitialCoords: seq<int> := [0, 0, 320, 0, 0, 240, 320, 240]

  /** `update_game_coord`: overwrite the width and height entries of the
      texture-coordinate array. */
  function UpdateGameCoord(v: seq<int>, width: nat, height: nat): (r: seq<int>)
    requires |v| == 8
    ensures |r| == 8
    ensures r[2] == width && r[6] == width && r[5] == height && r[7] == height
    ensures forall i :: 0 <= i < 8 && i !in {2, 5, 6, 7} ==> r[i] == v[i]
  {
    v[2 := width][6 := width][5 := height][7 := height]
  }

  /** The array starts as the 320x240 strip, and every update turns a strip
      into the strip of the new size; so the coordinates always describe a
      full-texture rectangle. */
  lemma {:induction false} CoordsStayStrip(v: seq<int>, w: int, h: int, width: nat, height: nat)
    requires IsStripQuad(v, w, h)
    ensures IsStripQuad(UpdateGameCoord(v, width, height), width, height)
    ensures IsStripQuad(InitialCoords, 320, 240)
  {
    var r := UpdateGameCoord(v, width, height);
    assert r[0] == 0 && r[1] == 0 && r[3] == 0 && r[4] == 0;
  }
}
