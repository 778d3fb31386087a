/** Video-mode geometry of the GX presentation driver (gfx/gx/gx_gfx.c,
    `gx_set_video_mode`, `update_deflicker`). The model is the pure part of the
    computation: from the console configuration, the user settings and the
    requested framebuffer size to the `GXRModeObj` fields that are handed to the
    VI hardware. The VI maxima are the libogc values (video_types.h, not part of
    this model): 720 wide everywhere, 574 lines in PAL, 480 otherwise. */
module GxVideo {
  import opened Machine

  datatype TvMode = Ntsc | Pal | Mpal | EuRgb60

  datatype ModeType = NonInterlace | Interlace | Progressive | PalProgressive

  /** What `CONF_GetVideo` reports; everything else than PAL and MPAL is NTSC. */
  datatype ConfVideo = ConfPal | ConfMpal | ConfOther

  /** Console state read through CONF_* and VIDEO_HaveComponentCable.
      `progressive` is "progressive scan enabled and component cable present". */
  datatype Console = Console(video: ConfVideo, euRgb60: bool, progressive: bool, wide: bool)

  /** The `g_settings.video` fields the mode computation reads. */
  datatype VideoSettings = VideoSettings(
    viWidth: nat, wideViWidth: nat, correctAmount: nat, wideCorrection: bool,
    force288p: bool, vfilter: bool, vbright: int)

  /** The fields of the resulting `GXRModeObj`, plus the clamped line count and
      the driver's `double_strike` flag. */
  datatype Mode = Mode(
    tv: TvMode, modeType: ModeType, lines: nat,
    fbWidth: nat, efbHeight: nat, xfbHeight: nat,
    viWidth: nat, viHeight: nat, viXOrigin: nat, viYOrigin: nat,
    doubleField: bool, vfilter: seq<nat>, doubleStrike: bool)

  function MaxWidth(tv: TvMode): nat { 720 }

  function MaxHeight(tv: TvMode): nat
  {
    match tv
    case Pal => 574
    case _ => 480
  }

  /** TV mode chosen from the console configuration (HW_RVL build): only
      a PAL console without EURGB60 gets the 574-line mode, and any other
      video setting than PAL or MPAL falls back to NTSC. */
  function SelectTvMode(c: Console): (tv: TvMode)
    ensures MaxHeight(tv) == 574 <==> c.video == ConfPal && !c.euRgb60
    ensures tv == Ntsc <==> c.video == ConfOther
    ensures tv == EuRgb60 ==> c.euRgb60
  {
    match c.video
    case ConfPal => if c.euRgb60 then EuRgb60 else Pal
    case ConfMpal => Mpal
    case ConfOther => Ntsc
  }

  /** Width the VI should scan out before it is widened to the framebuffer. */
  function RequestedViWidth(s: VideoSettings, c: Console, backRes: bool): (w: nat)
    ensures s.wideCorrection && backRes ==> w == s.correctAmount
    ensures !(s.wideCorrection && backRes) ==> w == (if c.wide then s.wideViWidth else s.viWidth)
  {
    var find := if c.wide then s.wideViWidth else s.viWidth;
    if s.wideCorrection && backRes then s.correctAmount else find
  }

  /** Request after the preferred-mode substitution: a zero width or a zero
      line count means "use the console's preferred mode". */
  function EffectiveRequest(fbWidth: nat, lines: nat, prefWidth: nat, prefLines: nat): (r: (nat, nat))
    ensures fbWidth == 0 || lines == 0 ==> r == (prefWidth, prefLines)
    ensures fbWidth != 0 && lines != 0 ==> r == (fbWidth, lines)
  {
    if lines == 0 || fbWidth == 0 then (prefWidth, prefLines) else (fbWidth, lines)
  }

  /** The seven vertical copy-filter taps. The filtered table is used in every
      mode but double strike (interlaced and progressive alike) when the
      deflicker setting is on; each tap is stored in a `u8`. */
  function Deflicker(nonInterlace: bool, vfilterOn: bool, vbright: int): (taps: seq<nat>)
    ensures |taps| == 7
    ensures forall i :: 0 <= i < 7 ==> taps[i] < 0x100 && taps[i] == taps[6 - i]
    ensures !nonInterlace && vfilterOn ==> taps[0] == 8 && taps[2] == 10
    ensures nonInterlace || !vfilterOn ==> taps[0] == 0 && taps[1] == 0 && taps[2] == 21
  {
    if !nonInterlace && vfilterOn then [8, 8, 10, U8(12 + vbright), 10, 8, 8]
    else [0, 0, 21, U8(22 + vbright), 21, 0, 0]
  }

  function Sum7(t: seq<nat>): int
    requires |t| == 7
  {
    t[0] + t[1] + t[2] + t[3] + t[4] + t[5] + t[6]
  }

  /** The taps always weigh 64 + vbright in total (64 is unit gain for the GX
      copy filter) as long as the middle tap does not wrap around its byte. */
  lemma DeflickerUnitGain(nonInterlace: bool, vfilterOn: bool, vbright: int)
    requires -12 <= vbright < 0x100 - 22
    ensures Sum7(Deflicker(nonInterlace, vfilterOn, vbright)) == 64 + vbright
  {
  }

  /** Offset that centres `size` units in `max` when each offset unit covers
      `2 * k` units (`(max - size) / (2 * k)`). */
  function Centre(max: nat, size: nat, k: nat): (o: nat)
    requires k == 1 || k == 2
    requires size <= max
    ensures size + 2 * k * o <= max < size + 2 * k * (o + 1)
  {
    (max - size) / (2 * k)
  }

  /** The first half of `gx_set_video_mode`: TV mode after 288p forcing,
      interlace choice, clamped width and line count, and XFB height. */
  datatype Layout = Layout(tv: TvMode, nonInterlace: bool, width: nat, lines: nat, xfb: nat)

  /** 288p forcing applies to a double-strike request on any non-NTSC console. */
  predicate Forced288p(s: VideoSettings, c: Console, nonInterlace: bool)
  {
    nonInterlace && s.force288p && SelectTvMode(c) != Ntsc
  }

  function ChooseLayout(s: VideoSettings, c: Console, w0: nat, l0: nat): (y: Layout)
    ensures y.nonInterlace <==> l0 <= MaxHeight(SelectTvMode(c)) / 2
    ensures y.width == Min(w0, MaxWidth(y.tv)) && y.lines <= MaxHeight(y.tv)
    ensures y.nonInterlace ==> y.xfb <= MaxHeight(y.tv) / 2
    ensures !y.nonInterlace ==> y.xfb == y.lines
    ensures y.xfb <= y.lines
    ensures Forced288p(s, c, y.nonInterlace) ==> y.tv == Pal && y.lines == 288
    ensures !Forced288p(s, c, y.nonInterlace) ==> y.tv == SelectTvMode(c) && y.lines == Min(l0, MaxHeight(y.tv))
  {
    var tv0 := SelectTvMode(c);
    var nonInterlace := l0 <= MaxHeight(tv0) / 2;
    var forced := Forced288p(s, c, nonInterlace);
    var tv := if forced then Pal else tv0;
    var l := Min(if forced then 288 else l0, MaxHeight(tv));
    var xfb :=
      if nonInterlace && l > MaxHeight(tv) / 2 then MaxHeight(tv) / 2
      else if !nonInterlace && l > MaxHeight(tv) then MaxHeight(tv)
      else l;
    Layout(tv, nonInterlace, Min(w0, MaxWidth(tv)), l, xfb)
  }

  /** `gx_set_video_mode`: from the request and the configuration to the mode
      that is programmed. `prefWidth`/`prefLines` are the preferred mode's
      `fbWidth`/`xfbHeight`, `backRes` the wide-correction switch-back flag. */
  function SetVideoMode(s: VideoSettings, c: Console, backRes: bool,
                        prefWidth: nat, prefLines: nat, fbWidth: nat, lines: nat): (m: Mode)
    ensures var (w, l) := EffectiveRequest(fbWidth, lines, prefWidth, prefLines);
            m.doubleStrike <==> l <= MaxHeight(SelectTvMode(c)) / 2
    ensures m.doubleStrike <==> m.modeType == NonInterlace
    ensures m.doubleField <==> m.modeType == Interlace
    ensures m.fbWidth <= MaxWidth(m.tv) && m.lines <= MaxHeight(m.tv)
    ensures m.efbHeight == Min(m.lines, 480)
    ensures m.doubleStrike ==> m.xfbHeight <= MaxHeight(m.tv) / 2
    ensures !m.doubleStrike ==> m.xfbHeight <= MaxHeight(m.tv)
    ensures m.viHeight == (if m.doubleStrike then 2 * m.xfbHeight else m.xfbHeight)
    ensures m.viHeight <= MaxHeight(m.tv)
    ensures RequestedViWidth(s, c, backRes) < U16_LIMIT ==>
              m.viWidth == Max(RequestedViWidth(s, c, backRes), m.fbWidth) && m.viWidth >= m.fbWidth
    ensures m.viWidth <= MaxWidth(m.tv) ==> m.viWidth + 2 * m.viXOrigin <= MaxWidth(m.tv) < m.viWidth + 2 * m.viXOrigin + 2
    ensures m.doubleStrike ==> m.viHeight + 4 * m.viYOrigin <= MaxHeight(m.tv) < m.viHeight + 4 * m.viYOrigin + 4
    ensures !m.doubleStrike ==> m.viHeight + 2 * m.viYOrigin <= MaxHeight(m.tv) < m.viHeight + 2 * m.viYOrigin + 2
    ensures Forced288p(s, c, m.doubleStrike) ==> m.tv == Pal && m.lines == 288
    ensures !Forced288p(s, c, m.doubleStrike) ==> m.tv == SelectTvMode(c)
    ensures m.vfilter == Deflicker(m.doubleStrike, s.vfilter, s.vbright)
  {
    var (w0, l0) := EffectiveRequest(fbWidth, lines, prefWidth, prefLines);
    var y := ChooseLayout(s, c, w0, l0);
    var modeType :=
      if y.nonInterlace then NonInterlace
      else if c.progressive then (if y.tv == Pal then PalProgressive else Progressive)
      else Interlace;
    var vi := Scanout(y, RequestedViWidth(s, c, backRes));
    Mode(y.tv, modeType, y.lines, y.width, Min(y.lines, 480), y.xfb, vi.width, vi.height,
         vi.xOrigin, vi.yOrigin,
         modeType == Interlace, Deflicker(y.nonInterlace, s.vfilter, s.vbright), y.nonInterlace)
  }

  /** The VI scan-out rectangle of a layout: at least as wide as the
      framebuffer (in a `u16`), twice the XFB height in double-strike, and
      centred in the TV frame (vertical offsets count two lines in
      double-strike). */
  datatype Vi = Vi(width: nat, height: nat, xOrigin: nat, yOrigin: nat)

  function Scanout(y: Layout, requested: nat): (vi: Vi)
    requires y.width <= MaxWidth(y.tv) && y.xfb <= y.lines <= MaxHeight(y.tv)
    requires y.nonInterlace ==> y.xfb <= MaxHeight(y.tv) / 2
    ensures vi.height == (if y.nonInterlace then 2 * y.xfb else y.xfb) && vi.height <= MaxHeight(y.tv)
    ensures requested < U16_LIMIT ==> vi.width == Max(requested, y.width) && vi.width >= y.width
    ensures vi.width <= MaxWidth(y.tv) ==> vi.width + 2 * vi.xOrigin <= MaxWidth(y.tv) < vi.width + 2 * vi.xOrigin + 2
    ensures y.nonInterlace ==> vi.height + 4 * vi.yOrigin <= MaxHeight(y.tv) < vi.height + 4 * vi.yOrigin + 4
    ensures !y.nonInterlace ==> vi.height + 2 * vi.yOrigin <= MaxHeight(y.tv) < vi.height + 2 * vi.yOrigin + 2
  {
    var mult := if y.nonInterlace then 2 else 1;
    var viW := U16(Max(requested, y.width));
    var viH := if y.nonInterlace then 2 * y.xfb else y.xfb;
    var xOrigin := if viW <= MaxWidth(y.tv) then Centre(MaxWidth(y.tv), viW, 1)
                   else U16(U32(MaxWidth(y.tv) - viW) / 2);
    Vi(viW, viH, xOrigin, Centre(MaxHeight(y.tv), viH, mult))
  }

  /** Reprogramming with the mode's own framebuffer size and XFB height gives the
      same mode back, except when 288p forcing turned an MPAL or EURGB60
      configuration into PAL (see `ForcedPalNotStable`). */
  lemma ReapplyStable(s: VideoSettings, c: Console, backRes: bool,
                      prefWidth: nat, prefLines: nat, fbWidth: nat, lines: nat)
    requires !(s.force288p && SelectTvMode(c) in {Mpal, EuRgb60})
    requires prefWidth > 0 && prefLines > 0
    ensures var m := SetVideoMode(s, c, backRes, prefWidth, prefLines, fbWidth, lines);
            SetVideoMode(s, c, backRes, prefWidth, prefLines, m.fbWidth, m.xfbHeight) == m
  {
  }

  /** With 288p forcing on an EURGB60 console, a 240-line request yields a
      double-strike PAL mode with 287 XFB lines, and feeding those 287 lines back
      (as the automatic resolution switch does) yields an interlaced mode. */
  lemma ForcedPalNotStable(s: VideoSettings, c: Console)
    requires s.force288p && c.video == ConfPal && c.euRgb60
    ensures var m := SetVideoMode(s, c, false, 640, 480, 640, 240);
            m.doubleStrike && m.tv == Pal && m.xfbHeight == 287 &&
            !SetVideoMode(s, c, false, 640, 480, m.fbWidth, m.xfbHeight).doubleStrike
  {
  }

  /** The menu framebuffer size derived from a mode (when a menu exists and the
      screen is not being hidden): half the EFB height unless double-strike, half
      the framebuffer width when it is 400 or wider, rounded down to a multiple of
      4 and capped at 240 x 400. */
  function MenuSize(m: Mode): (r: (nat, nat))
    ensures r.0 % 4 == 0 && r.0 <= 400 && r.1 % 4 == 0 && r.1 <= 240
    ensures var q := if m.fbWidth < 400 then m.fbWidth else m.fbWidth / 2;
            r.0 <= q && Min(q, 400) < r.0 + 4
    ensures var q := if m.doubleStrike then m.efbHeight else m.efbHeight / 2;
            r.1 <= q && Min(q, 240) < r.1 + 4
  {
    var h := AlignDown4(m.efbHeight / (if m.doubleStrike then 1 else 2));
    var w := AlignDown4(m.fbWidth / (if m.fbWidth < 400 then 1 else 2));
    (Min(w, 400), Min(h, 240))
  }
}
