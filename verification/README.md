# RA-GCN core, modelled in Dafny

RA-GCN is a RetroArch fork for the Nintendo GameCube and Wii. This project models its platform
core: the GX video driver's mode geometry, fade filters, frame pacing and texture tiling; the
KMS/EGL context's page-flip state machine; the libretro core-option manager; the RGUI menu's
drawing and message-box layout; the configuration file's joypad serialisers and defaults; the
GameCube/Wii, SDL and IOKit HID joypad drivers and the GX mouse/keyboard input; and the Wii
helpers that rebuild `argv`, patch IOS in memory and read installed titles.

Every operation is a pure function (or a method with a loop) over immutable datatypes. I/O,
hardware registers, clocks and foreign calls become parameters. Fixed-width C arithmetic is
written out: `U8`, `U16`, `U32` and `I16` in module `Machine` (file `common.dfy`) wrap values
modulo 2^8, 2^16 and 2^32. `text.dfy` holds the string helpers the core relies on. Examples are
`string_split`, `strstr`, `strtol` on decimals and the config file's `Join`. `binds.dfy` holds
the bind encodings of `input_common.h`.

Paths in the table below are relative to the repository root.

## Model

| member | source | states |
|---|---|---|
| DrmEgl.PageFlip | gfx/context/drm_egl_ctx.c:135-155 | The flip handler records the first flip's frame once, always records the last, clears the wait, and reports missed frames exactly when the 32-bit gap between consecutive flips exceeds one; the count added to the last frame gives the new frame modulo 2^32 |
| DrmEgl.MissedCountsGap | gfx/context/drm_egl_ctx.c:145-152 | Without wrap-around, consecutive frames report no miss, and a larger gap reports `frame - last - 1` missed frames |
| DrmEgl.PollLoop | gfx/context/drm_egl_ctx.c:171-185 | Polling for the flip event never touches the buffers, consumes at most the events offered, and does nothing when no flip is pending |
| DrmEgl.Promote | gfx/context/drm_egl_ctx.c:187-193 | Once the flip has completed, the queued buffer becomes the shown one and the previously shown buffer is released; while waiting nothing changes |
| DrmEgl.WaitFlip | gfx/context/drm_egl_ctx.c:157-194 | Waiting is polling followed by promotion; a flip still pending leaves all buffers as they were, a completed one shows the queued buffer |
| DrmEgl.FlipEndsWait | gfx/context/drm_egl_ctx.c:179-184 | A flip-ready event first in the queue ends the wait |
| DrmEgl.QueueFlip | gfx/context/drm_egl_ctx.c:196-217 | Queueing a flip records the front buffer as next; the driver is waiting iff the kernel accepted the flip or it was already waiting |
| DrmEgl.SwapBuffers | gfx/context/drm_egl_ctx.c:219-250 | A swap drops the frame exactly when a flip is pending and a non-blocking wait does not end it; otherwise the front buffer is queued and the wait flag follows the kernel's answer; with no free buffer the swap ends in the blocking wait, which after a refused flip shows the new buffer and releases the one that was shown |
| DrmEgl.NonblockingDropsFrame | gfx/context/drm_egl_ctx.c:229-241 | With a flip pending and no event ready, the frame is dropped and the state is unchanged |
| DrmEgl.RefusedFlipReleasesShownBuffer | gfx/context/drm_egl_ctx.c:243-249 | As written, for every state with no flip pending, a refused flip with no free buffer makes the blocking wait promote the new buffer and release the one still on screen (see Findings) |
| DrmEgl.SwapBuffersGuarded | gfx/context/drm_egl_ctx.c:219-250 | The corrected swap: a refused flip keeps the shown buffer and the released list as they were before queueing |
| DrmEgl.GuardedSwapAgrees | gfx/context/drm_egl_ctx.c:243-249 | The corrected swap and the swap as written agree whenever the flip is accepted or a free buffer remains |
| DrmEgl.DestroyResources | gfx/context/drm_egl_ctx.c:318-377 | Teardown drains a pending flip first, then destroys EGL, restores the CRTC and frees DRM resources; buffers, ids and sizes end cleared |
| DrmEgl.TeardownAcknowledgesFlip | gfx/context/drm_egl_ctx.c:325-326 | A pending flip that completes during teardown releases the buffer that was on screen |
| DrmEgl.ChooseMode | gfx/context/drm_egl_ctx.c:720-751 | Windowed or 0x0 requests take the first mode; otherwise the result is a mode of the requested size with the least refresh distance, the first such one, and none exactly when no mode has that size |
| DrmEgl.FillAttribs | gfx/context/drm_egl_ctx.c:578-638 | The attribute list fits the 16-entry array, is key/value pairs ended by `EGL_NONE`, and no key is `EGL_NONE` |
| DrmEgl.GlAttribsDecode | gfx/context/drm_egl_ctx.c:582-618 | With the KHR extension, desktop GL lists the version from 3.1, the core profile from 3.2, and the debug flag when asked, and nothing else |
| DrmEgl.GlesAttribsDecode | gfx/context/drm_egl_ctx.c:620-630 | A GLES list asks for the requested major version, 2 when none was requested, and for the minor version exactly when the KHR extension is available and the minor version is not 0 |
| DrmEgl.ProfileAndFlagsDecode | gfx/context/drm_egl_ctx.c:600-616 | The profile and debug pairs decode to exactly the profile and flag keys |
| DrmEgl.DecodeTail | gfx/context/drm_egl_ctx.c:578-638 | Prepending zero, one or two key/value pairs to an attribute list adds exactly those keys when decoded |
| DrmEgl.BindApi | gfx/context/drm_egl_ctx.c:882-908 | Binding records the requested API and version; it fails for no API, for GL 3.1 or later without the KHR extension, and for GLES 3 without it; every other request binds exactly when `eglBindAPI` succeeds |
| DrmEgl.BoundWithoutKhrUsesCoreKeys | gfx/context/drm_egl_ctx.c:620-630 | When binding succeeded without the KHR extension, the attribute list holds only the client-version key |
| GxVideo.RequestedViWidth | gfx/gx/gx_gfx.c:393-406 | The requested scan-out width is the correction amount when wide correction is on and a back-resolution switch is active, else the 16:9 or 4:3 setting chosen by the console's aspect ratio |
| GxVideo.SelectTvMode | gfx/gx/gx_gfx.c:411-425 | Only a PAL console without EURGB60 gets the 574-line PAL mode; EURGB60 needs the console flag, and every setting other than PAL or MPAL falls back to NTSC |
| GxVideo.EffectiveRequest | gfx/gx/gx_gfx.c:454-460 | A zero width or line count from the core falls back to the preferred resolution; otherwise the core's request stands |
| GxVideo.Deflicker | gfx/gx/gx_gfx.c:518-537 | The seven vertical filter taps are symmetric bytes; with the filter on, every mode but double strike (interlaced or progressive) blurs (8, 8, 10, ...), otherwise only the centre three taps are used |
| GxVideo.DeflickerUnitGain | gfx/gx/gx_gfx.c:518-537 | The taps sum to 64 plus the brightness offset, so a zero offset leaves brightness unchanged |
| GxVideo.Centre | gfx/gx/gx_gfx.c:507-511 | The origin centres the picture: the picture plus both margins fits the maximum and one more step of margin would not |
| GxVideo.ChooseLayout | gfx/gx/gx_gfx.c:409-498 | Non-interlaced output is chosen iff the requested lines fit half the TV height; width and lines are clamped to the TV mode; forced 288p selects PAL at 288 lines, else the console's TV mode is kept |
| GxVideo.Scanout | gfx/gx/gx_gfx.c:500-511 | Scan-out height doubles the framebuffer in non-interlaced mode; scan-out width is at least the framebuffer width; both origins centre the picture on the TV |
| GxVideo.SetVideoMode | gfx/gx/gx_gfx.c:357-556 | The whole mode computation: double strike iff the effective request fits half the TV height, EFB height capped at 480, every dimension within the TV mode's maxima, centred origins, and the deflicker taps of the chosen mode |
| GxVideo.ReapplyStable | gfx/gx/gx_gfx.c:454-511 | Feeding a mode's own framebuffer width and height back in reproduces the same mode, unless 288p is forced on an MPAL or EURGB60 console |
| GxVideo.ForcedPalNotStable | gfx/gx/gx_gfx.c:462-476 | With 288p forced on a EURGB60 console, a 240-line request gives a 287-line double-strike PAL mode whose re-application is interlaced |
| GxVideo.MenuSize | gfx/gx/gx_gfx.c:545-556 | The menu framebuffer is the largest multiple of 4 up to 400x240 within the game framebuffer (its width halved at 400 or wider, its height halved outside double strike) |
| GxFrame.FadeInStep | gfx/gx/gx_gfx.c:676-734 | Fading in sets the centre taps to the fade level capped at 21/22/21 and raises the level by one; reaching the top (or a disabled boot fade) pins it at 22 and ends the boot and reset fades; exactly the steps that end at 22 then reinstall the mode's own deflicker table (`update_deflicker`), chosen by double strike, the filter setting and the brightness |
| GxFrame.FadeOutStep | gfx/gx/gx_gfx.c:736-764 | Fading out lowers the level by one with taps level-1/level/level-1; at zero an exit fade marks exit safe, blanks and quits, while a reset fade clears its start flag, sets its end flag and resets |
| GxFrame.FrameFade | gfx/gx/gx_gfx.c:1868-1871 | Each frame runs the fade-in when a boot or finished reset fade is active, else the fade-out when an exit or reset fade has started, else nothing; the level moves by at most one or jumps to 22 |
| GxFrame.BootFadeInCounts | gfx/gx/gx_gfx.c:185-192 | From boot with fade-in on, frame n shows level n, and frame 22 ends the boot fade at level 22, with no command issued |
| GxFrame.RunFramesSnoc | gfx/gx/gx_gfx.c:1868-1871 | Running n+1 frames is running n frames then one more frame's fade |
| GxFrame.BootFadeInDisabled | gfx/gx/gx_gfx.c:720-721 | With fade-in off, the first frame jumps to full level and ends the boot fade |
| GxFrame.ResetFadeOutCounts | gfx/gx/gx_gfx.c:736-764 | A started reset fade counts 22 frames down, and only the 22nd issues the reset |
| GxFrame.FadeOutRamp | gfx/gx/gx_gfx.c:1870-1871 | While fading out and before the level reaches one, n frames lower the level by n and issue nothing |
| GxFrame.FadeOutEnds | gfx/gx/gx_gfx.c:751-762 | A fade-out ends after exactly as many frames as its level, with the step taken from level one |
| GxFrame.FadeOutFrame | gfx/gx/gx_gfx.c:740-751 | One fade-out frame above level one lowers the level and issues no command |
| GxFrame.ExitFadeOutCounts | gfx/gx/gx_gfx.c:752-756 | An exit fade from full level counts 22 frames down and the 22nd marks exit safe and quits |
| GxFrame.FadeInTopIsDeflicker | gfx/gx/gx_gfx.c:709-711 | At full level the ramp's own taps equal the unfiltered deflicker taps at neutral brightness |
| GxFrame.FadeInEndsOnModeTable | gfx/gx/gx_gfx.c:676-729 | The last fade-in step ends the boot and reset fades and leaves the mode's deflicker table installed, which equals the ramp's final taps only with the filter off (or double strike) and a centre tap matching the ramp's |
| GxFrame.ResetFadeInIsInstant | gfx/gx/gx_gfx.c:730-733 | With `reset_fade == 1` the fade-in after a reset takes one frame: full level, reset fade ended, the mode's deflicker table installed |
| GxFrame.ModeSet | gfx/gx/gx_gfx.c:388-617 | Setting a mode draws into buffer 0 next; the output ends up blanked exactly when a skip is pending and either `hide_black` is clear (the mode set blanks it) or it was already blank |
| GxFrame.ArmSkip | gfx/gx/gx_gfx.c:1734-1752 | Arming a skip sets the skip flag and counter and leaves buffers and blanking alone |
| GxFrame.PresentFrame | gfx/gx/gx_gfx.c:2055-2060 | Each frame flips (the toggle at line 1779) the framebuffer and counts a skipped frame; past two skipped frames the skip ends and the screen unblanks |
| GxFrame.PresentFrames | gfx/gx/gx_gfx.c:2055-2060 | Any number of frames keeps the buffer index valid |
| GxFrame.BufferAlternates | gfx/gx/gx_gfx.c:610 | After a mode set, frame n draws into buffer n mod 2, the toggle at line 1779 alternating buffers |
| GxFrame.BufferAlternatesFrom | gfx/gx/gx_gfx.c:1779 | From any buffer, n frames advance the buffer index by n mod 2 |
| GxFrame.SkipUnblanksAfter | gfx/gx/gx_gfx.c:2055-2060 | A skip armed at `start` before a mode set keeps the screen blank for 3-start frames and unblanks at the last, whenever the mode set blanks (no `hide_black`) or the screen was blank already |
| GxFrame.BackToMenuBlanksSevenFrames | gfx/gx/gx_gfx.c:1745-1770 | The switch back to the menu resolution blanks the output for seven frames and shows the eighth |
| GxFrame.PresentFramesSnoc | gfx/gx/gx_gfx.c:2055-2060 | n+1 frames are n frames followed by one |
| GxFrame.SetNonblock | gfx/gx/gx_gfx.c:2067-2072 | Non-blocking mode clears the vsync request and leaves the current wait flag |
| GxFrame.VBlank | gfx/gx/gx_gfx.c:317-321 | The retrace callback ends the wait and keeps the requested mode |
| GxFrame.FrameSync | gfx/gx/gx_gfx.c:1875-1881 | Outside forced sync, a frame re-arms the wait from the requested vsync mode; forced sync leaves it |
| GxFrame.MenuVsync | gfx/gx/gx_gfx.c:1835-1839 | While the menu is shown the frame requests the retrace wait, whatever the non-blocking flag |
| GxFrame.EndFrame | gfx/gx/gx_gfx.c:1875-1881 | A frame waits for a retrace under forced sync, with the menu shown, or while the flag is armed; outside forced sync it leaves the flag re-armed from the requested mode |
| GxFrame.VsyncPacing | gfx/gx/gx_gfx.c:1839-1881 | From the second frame after set_nonblock_state (lines 2067-2072) on, a frame waits exactly when blocking mode is on or the menu is shown |
| GxFrame.UpdateGameCoord | gfx/gx/gx_gfx.c:766-793 | Only the right edge and bottom coordinates of the quad change, to the new width and height |
| GxFrame.CoordsStayStrip | gfx/gx/gx_gfx.c:766-793 | The vertex array stays a triangle-strip quad of the new size, and the initial array (lines 290-295) is a 320x240 strip quad |
| GxTexture.Src16Block | gfx/gx/gx_gfx.c:1318-1330 | Word w of 16 bpp tile (ty, tx) comes from source line 4ty + w/2, word 2tx + w mod 2: each tile holds two words of four consecutive lines |
| GxTexture.Src16InBounds | gfx/gx/gx_gfx.c:1301-1340 | When the frame covers the cropped rows and the pitch covers the cropped width, every word the tiler reads lies inside the source |
| GxTexture.Tile16 | gfx/gx/gx_gfx.c:1301-1340 | The tiled texture holds eight words per 4x4 tile, one tile per four pixels of width and four lines of height |
| GxTexture.Crop16 | gfx/gx/gx_gfx.c:1304-1305 | The frame cropped to a multiple of four in both dimensions, in row-major words |
| GxTexture.Untile16 | gfx/gx/gx_gfx.c:1318-1330 | Reading the tiles back in row-major order gives an image of the cropped size |
| GxTexture.Tile16RoundTrip | gfx/gx/gx_gfx.c:1301-1340 | Untiling the 16 bpp texture gives back exactly the cropped frame |
| GxTexture.Block16 | gfx/gx/gx_gfx.c:1321-1328 | One tile's eight words are the source words the tile layout names |
| GxTexture.ConvertTexture16 | gfx/gx/gx_gfx.c:1301-1340 | `convert_texture16` writes nothing for frames narrower than four pixels and otherwise exactly the tiled texture |
| GxTexture.TileLoop16 | gfx/gx/gx_gfx.c:1316-1337 | The nested tile loops write, at every destination word, the source word the tile layout names |
| GxTexture.TileRow16 | gfx/gx/gx_gfx.c:1319-1334 | One row of tiles appends eight words per tile and keeps every written word equal to its source word |
| GxTexture.AppendBlock16 | gfx/gx/gx_gfx.c:1321-1331 | Appending the next tile's block keeps every written word equal to its source word |
| GxTexture.ConvWord | gfx/gx/gx_gfx.c:1355 | The conversion macro on a 32-bit word converts its two 16-bit pixels independently |
| GxTexture.Rgb5a3Channels | gfx/gx/gx_gfx.c:1355 | Each converted pixel is opaque, keeps red and blue, and keeps the top five of green's six bits |
| GxTexture.TileConv16 | gfx/gx/gx_gfx.c:1342-1362 | The converting tiler produces eight words per tile |
| GxTexture.TileConv16RoundTrip | gfx/gx/gx_gfx.c:1342-1362 | Untiling the converted texture gives the cropped frame with every word converted, in the same places |
| GxTexture.Src32Block | gfx/gx/gx_gfx.c:1282-1298 | Halfword w of a 32 bpp tile comes from line 4ty + (w mod 16)/4, pixel 4tx + w mod 4, its alpha/red half for w < 16 and its green/blue half otherwise |
| GxTexture.Src32InBounds | gfx/gx/gx_gfx.c:1364-1384 | Every halfword the 32 bpp tiler reads lies inside the source |
| GxTexture.Tile32 | gfx/gx/gx_gfx.c:1364-1384 | The 32 bpp texture holds 32 halfwords per 4x4 tile |
| GxTexture.Dst32Source | gfx/gx/gx_gfx.c:1282-1298 | Each pixel half of the cropped frame is stored at a tile position whose source is that half; alpha/red halves land in the first 16 halfwords of a tile |
| GxTexture.Untile32 | gfx/gx/gx_gfx.c:1282-1298 | Reading the 32 bpp tiles back gives an image of the cropped size |
| GxTexture.CropOpaque32 | gfx/gx/gx_gfx.c:1288-1295 | The cropped frame with every alpha byte forced to 0xFF |
| GxTexture.Tile32RoundTrip | gfx/gx/gx_gfx.c:1364-1384 | Untiling the 32 bpp texture gives back the cropped frame with only the alpha bytes set opaque |
| Rgui.LoopSpan | frontend/menu/disp/rgui.c:171-172 | The unsigned fill loop visits the full length when start plus length fits in 32 bits, and nothing when that sum wraps |
| Rgui.FillRect | frontend/menu/disp/rgui.c:165-174 | Filling a rectangle writes the filler's colour at every pixel inside it and leaves every other pixel and the frame's shape unchanged |
| Rgui.Clip | frontend/menu/disp/rgui.c:309-323 | The clipped bounds lie inside the framebuffer and cover exactly the pixels of the particle that are on screen |
| Rgui.DrawParticle | frontend/menu/disp/rgui.c:299-329 | A particle paints exactly its on-screen pixels, and the result says whether any pixel was on screen |
| Rgui.GrayFiller | frontend/menu/disp/rgui.c:122-132 | The grey background colour is the GX form with shade 1 or 2 in each of the three channels |
| Rgui.GreenFiller | frontend/menu/disp/rgui.c:134-144 | The green border colour is the GX form with the shade doubled in the blue channel |
| Rgui.Shade | frontend/menu/disp/rgui.c:124-126 | The checker shade is 1 or 2 |
| Rgui.Checkerboard | frontend/menu/disp/rgui.c:122-144 | The background is a checkerboard of 2x2 cells: constant within a cell and different in the next cell across or down |
| Rgui.ThemeColors | frontend/menu/disp/rgui.c:185-221 | Preset 0 uses the configured hover and text colours; presets above 8 fall back to the defaults |
| Rgui.PresetsAreFixed | frontend/menu/disp/rgui.c:189-220 | Presets 1 to 8 give their fixed colour pairs whatever is configured, and presets 5 and 7 equal the default pair |
| Rgui.TermWidth | frontend/menu/disp/rgui.c:96-98 | The text columns plus both side margins fit the menu width |
| Rgui.TermHeight | frontend/menu/disp/rgui.c:96-99 | When the menu is tall enough, the text rows plus one and the margins fit the menu height |
| Rgui.ScrollWindow | frontend/menu/disp/rgui.c:848-860 | The list starts at the top when everything fits or the selection is in the first half screen, and otherwise half a screen above the selection; the end is computed in 32-bit `size_t` |
| Rgui.SelectionVisible | frontend/menu/disp/rgui.c:848-860 | When the selection plus the terminal height fits in 32 bits, the drawn window contains the selection, stays within the list and holds at most one screen of rows; a short list is drawn whole |
| Rgui.WrappedRowsHideSelection | frontend/menu/disp/rgui.c:96-99 | A menu too short for one row wraps the terminal height to 2^32-1, and the wrapped sum at line 850 then ends the window before the selection |
| Rgui.MaxOf | frontend/menu/disp/rgui.c:788-806 | The running maximum is at least every element and is one of them |
| Rgui.CutAsWritten | frontend/menu/disp/rgui.c:794-801 | As written, an overlong line becomes term+1 characters ending in three dots; a short line is kept |
| Rgui.CountedAll | frontend/menu/disp/rgui.c:788-806 | The glyph count of every line, in order |
| Rgui.MessageBoxAsWritten | frontend/menu/disp/rgui.c:772-836 | The message box as written: nothing for an empty message, otherwise one cut line and one offset per split line |
| Rgui.OverlongLineOffset | frontend/menu/disp/rgui.c:794-831 | A line one character too long is cut to four characters while counted as three, so its centring offset wraps to 2147483645 (see Findings) |
| Rgui.NewlineOnlyMessage | frontend/menu/disp/rgui.c:780-816 | A message of only a newline splits into no lines and passes the empty-list check; the body fill is asked for 2^32-10 pixels, and with the wrapped loop bound the body and the top and bottom borders paint nothing, leaving only the two 5x11 side strips (see Findings) |
| Rgui.Cut | frontend/menu/disp/rgui.c:794-801 | The corrected cut: an overlong line keeps its first term-3 characters followed by three dots, term characters in all, the length it is counted with |
| Rgui.MessageBoxLayout | frontend/menu/disp/rgui.c:772-836 | The corrected box: no box exactly when the message has no lines; otherwise the box is at least 21x27 and every line fits the terminal width and lies inside the box |
| Rgui.LayoutFits | frontend/menu/disp/rgui.c:803-831 | With every line cut and counted, each line's text starts inside the box and ends inside it |
| Rgui.LineOffset | frontend/menu/disp/rgui.c:828-829 | When no line is longer than the widest, the centring offset is three pixels per missing glyph |
| Rgui.FillsTileBox | frontend/menu/disp/rgui.c:815-826 | The background and four border strips cover exactly the box, with no pixel painted twice |
| CoreOptions.ParseVariable | core_options.c:76-121 | A declaration parses iff it contains "; "; the description is the text before the first "; ", the values are the rest split at each vertical bar, and the selection is the first value equal to the configured one, else 0 |
| CoreOptions.ParseDeclared | core_options.c:76-121 | A declaration built from a description without "; " and non-empty values parses back to that description and those values, with nothing configured |
| CoreOptions.DescriptionEnds | core_options.c:84 | The separator search finds the "; " right after a description that has none |
| CoreOptions.FindFirst | core_options.c:84 | The first position where the pattern occurs is what the search returns |
| CoreOptions.Count | core_options.c:142-143 | The option count stops at the first entry with a missing key or value |
| CoreOptions.ParseAll | core_options.c:150-155 | Parsing every declaration succeeds iff each one parses, and then gives each parsed option in order |
| CoreOptions.AllParseFinds | core_options.c:150-155 | Every declaration parses exactly when every value holds a "; " |
| CoreOptions.New | core_options.c:124-166 | The manager is created iff every declared value holds a "; "; it then has one option per declaration, in order, each the parse of its declaration, keeps the configuration, is not marked updated, and every selection indexes its values when no option has an empty value list |
| CoreOptions.NewThenGet | core_options.c:104-116 | Right after creation, a lookup answers the configured value when it is one of the option's values, and the first value otherwise |
| CoreOptions.Get | core_options.c:60-74 | A lookup clears the updated flag and answers the selected value of the first option with the key, or nothing when no option has it |
| CoreOptions.Lookup | core_options.c:64-73 | The key search answers nothing iff no option has the key, else the first such option's selected value |
| CoreOptions.Select | core_options.c:230-272 | Changing one option's selection marks the manager updated and leaves every other option alone |
| CoreOptions.Next | core_options.c:242-251 | Next moves the selection forward by one, cyclically over the values, and marks the manager updated |
| CoreOptions.Prev | core_options.c:253-263 | Prev moves the selection back by one, cyclically, and marks the manager updated |
| CoreOptions.SetVal | core_options.c:230-240 | Setting a value index stores it modulo the number of values, so a valid index is stored as is |
| CoreOptions.SetDefault | core_options.c:265-272 | The default selects the first value and marks the manager updated |
| CoreOptions.PrevUndoesNext | core_options.c:242-263 | Prev undoes Next and Next undoes Prev, apart from the updated flag |
| CoreOptions.NextCycles | core_options.c:242-251 | n steps of Next advance the selection by n modulo the number of values |
| CoreOptions.GetSeesNext | core_options.c:60-74 | After Next, looking the option up answers the following value |
| CoreOptions.Flush | core_options.c:176-198 | Flushing stores every option's key in the configuration, keeps existing keys and leaves every entry that names no option unchanged; with `USE_TITLE` the file is written only when something changed |
| CoreOptions.Store | core_options.c:180-185 | Storing the options adds exactly their keys to the configuration, the last option's value winning, and leaves every entry that names no option unchanged |
| CoreOptions.FlushStoresSelection | core_options.c:176-198 | After a flush, an option not shadowed by a later one with the same key is stored with its selected value |
| CoreOptions.StoreLast | core_options.c:180-185 | The same, for storing any list of options |
| Settings.Snprintf | settings.c:1824 | A bounded print keeps a prefix of at most size-1 characters, the whole text when it fits |
| Settings.SaveJoykey | settings.c:1862-1874 | A button bind is written under `<prefix>_<base>_btn` as `nul` when unbound, as its decimal number when plain, and as `h<hat><direction>` for a hat; a hat with no valid direction aborts |
| Settings.MaskOfName | settings.c:1829-1859 | Each direction name maps back to its hat mask |
| Settings.PlainButtonRoundTrip | settings.c:1862-1874 | Reading back a written plain button gives the same button |
| Settings.HatRoundTrip | settings.c:1829-1874 | Reading back a written hat bind gives the same hat and direction |
| Settings.SaveHat | settings.c:1829-1859 | A hat bind below hat 4096 is written as `h`, the hat number and the direction name, untruncated |
| Settings.HatMapParts | settings.c:1833-1836 | A hat code built from a hat and a direction gives back both and is never the unbound code |
| Settings.HatParses | settings.c:1857 | The hat text parses to the hat code it was written from |
| Settings.SaveAxis | settings.c:1876-1904 | An axis bind is written under `<prefix>_<base>_axis` as `nul`, `-N` for a negative half or `+N` for a positive half; an axis code with neither half writes nothing |
| Settings.AxisRoundTrip | settings.c:1876-1904 | Reading back a written axis half gives the same axis code |
| Settings.AxisParts | settings.c:1887-1896 | An axis code built for one half decodes to that half and axis |
| Settings.AxisParses | settings.c:1898-1902 | `-N` and `+N` parse to the negative and positive codes of axis N |
| Settings.SaveKeybind | settings.c:1906-1915 | An invalid bind writes nothing; a valid one writes its key name, its button entry and its axis entry, in that order |
| Settings.SaveDir | settings.c:2157-2159 | An empty directory is written as `default`; any other is written as is |
| Settings.LoadDir | settings.c:1349-1355 | The entry replaces the setting when present; then a setting reading `default`, from the file or already there, becomes empty, and any other is kept |
| Settings.DirRoundTrip | settings.c:1349-1355 | Loading what was saved gives back the directory, except one literally named `default`, which comes back empty; a missing key keeps any setting but `default` |
| Settings.LoadScreenshotDir | settings.c:1471-1481 | After the entry replaces the setting when present, the setting is kept exactly when it is non-empty, not `default` and an existing directory, and is emptied otherwise |
| Settings.ScreenshotDirRechecked | settings.c:1471-1481 | With the key missing, the checks still run: a setting that is no longer a directory is dropped and an existing one kept |
| Settings.LoadFrameDelay | settings.c:1198-1200 | The frame delay is at most 15: a missing entry keeps the setting, 0-15 is taken, and anything else, negatives included, becomes 15 |
| Settings.ConfigTypeAfterLoad | settings.c:1968-1978 | The configuration is per-game iff content is loaded and its per-game file loads |
| Settings.TextBytes | settings.c:646-647 | A banner text keeps at most 31 characters |
| Settings.Field | settings.c:646-663 | The bytes a banner text loop writes are the text followed by one terminating zero, at most 32 in all |
| Settings.WriteField | settings.c:650-663 | The interleaving loop puts field byte j at base+1+2j and changes no other byte |
| Settings.WrittenNext | settings.c:650-663 | Writing one more field byte adds exactly the next odd offset to the written set |
| Settings.BannerHeader | settings.c:639-663 | The header begins `WIBN`, sets the no-animation flag at byte 9, keeps every other even or leading byte zero, and reads back title and subtitle at 0x20 and 0x60 |
| Settings.BannerStart | settings.c:639-643 | The fresh header is zero apart from the magic and the flag byte |
| Settings.FieldsReadBack | settings.c:650-663 | Writing the subtitle after the title leaves both readable at their offsets |
| Settings.HeaderFixedBytes | settings.c:639-663 | Both text loops leave the magic, the flag byte and every even byte as they were |
| Settings.TitleSurvives | settings.c:658-663 | The subtitle loop does not touch the title's bytes |
| Settings.ReadBack | settings.c:650-655 | Reading the odd bytes from the field's base up to the zero gives the text that was written |
| Settings.ViScale | settings.c:765-776 | The NEMO VI scale is requested exactly when the title's `core.cfg` exists and its byte at offset 0x19 (the second byte of the big-endian word read from 0x18) is 'N'; a missing or shorter file leaves it off |
| Settings.DefaultViewport | settings.c:779-831 | Double-strike output gets a 640x224 viewport at (0, 8) with the 640x240 mode; otherwise 448 lines at y=16, 480 wide at x=80 on 16:9 and 640 wide at x=0 with the resolution kept on 4:3; the NEMO VI scale narrows the viewport to 384 with the 384x240 mode (double strike) or the 384x480 mode (4:3 only) |
| Settings.NemoScaleFromFile | settings.c:765-831 | In the NEMO build the default viewport is 384 wide exactly when `core.cfg` byte 0x19 is 'N' and the output is double strike or 4:3 |
| Settings.ViewportCentred | settings.c:779-831 | Outside the NEMO VI scale, the default viewport is centred on a 640x240 or 640x480 screen |
| GxJoypad.Button | input/gx_input_joypad.c:311-316 | For a code that fits `uint16_t`, a button reads pressed iff the pad exists, the bit is below 64 and the pad's state word has it; a wider code is truncated first and a shift of 64 or more reads as no bit |
| GxJoypad.ButtonTruncates | input/gx_input_joypad.c:311 | The code is taken as a `uint16_t`: a code and its value modulo 65536 read the same |
| GxJoypad.Axis | input/gx_input_joypad.c:318-358 | An axis reads 0 for no axis or a missing pad; a negative half reads a value in [-0x8000, 0] and a positive half one in [0, 0x7fff] |
| GxJoypad.AxisReadsHalf | input/gx_input_joypad.c:318-358 | The axis codes of the input layer read the matching half of the stored stick value |
| GxJoypad.QueryPad | input/gx_input_joypad.c:1399-1402 | A pad is reported present only below the player count, and only when some button bit is set |
| GxJoypad.QueryPadSeesButton | input/gx_input_joypad.c:1399-1402 | A pad with a pressed button is reported present |
| GxJoypad.Target | input/gx_input_joypad.c:1207-1237 | Every GameCube button maps to a bit below 64 that is never Home; the d-pad, Start and Z map under every profile and are all that maps under a profile other than 0-2; profile 1 never sets the L or R trigger bits |
| GxJoypad.TargetProfiles | input/gx_input_joypad.c:1207-1237 | The d-pad, Start and Z map alike under every profile; the SNES profiles 0 and 2 give each button its own bit, while the default profile 1 folds X onto A and Y onto B |
| GxJoypad.ProfileBits | input/gx_input_joypad.c:1207-1237 | The state word holds exactly the targets, under the key profile, of the GameCube buttons that are down (L and R also by analogue threshold) |
| GxJoypad.Combo | input/gx_input_joypad.c:1292-1300 | Both combos hold Plus and never Home; combo 1 and only combo 1 holds both trigger bits |
| GxJoypad.WithCombo | input/gx_input_joypad.c:1292-1303 | The menu combo can only add the Home bit, and adds it exactly when every button of the selected combo is held |
| GxJoypad.ComboOneReachable | input/gx_input_joypad.c:1292-1303 | With the direct SNES profile, Start+Z+L+R opens the menu |
| GxJoypad.ComboOneNeedsTriggerBits | input/gx_input_joypad.c:1207-1213 | With the default profile, which never sets the L/R trigger bits, combo 1 can never fire |
| GxJoypad.StickAsWritten | input/gx_input_joypad.c:1282-1285 | The 8-bit stick scaled by 256 (negated for Y) as an `int16_t` |
| GxJoypad.Normalise | input/gx_input_joypad.c:1349-1352 | -0x8000 becomes -0x7fff and every other value is kept |
| GxJoypad.StickFullDownReadsUp | input/gx_input_joypad.c:1282-1285 | As written, a Y stick held fully down (-128) wraps to a full-up reading, while 127 reads -0x7f00 (see Findings) |
| GxJoypad.Stick | input/gx_input_joypad.c:1282-1285 | The corrected stick value lies in [-0x7fff, 0x7fff], is 0 exactly at rest, and keeps the stick's direction, inverted for Y |
| GxJoypad.StickAgreesAsWritten | input/gx_input_joypad.c:1282-1352 | The corrected value equals the written scaling and normalisation for every input but the full-down Y |
| GxJoypad.Sticks | input/gx_input_joypad.c:1282-1290 | The four stick values of one pad are 16-bit |
| GxJoypad.NormaliseAll | input/gx_input_joypad.c:1349-1352 | After normalisation no stick value is -0x8000 |
| GxJoypad.PortSticks | input/gx_input_joypad.c:1282-1290 | A pad with no sample keeps its stick values |
| GxJoypad.GcOf | input/gx_input_joypad.c:586-1179 | A port's GameCube reading is used exactly when its Wii Remote (or 3DS pad) did not answer and a GameCube pad did |
| GxJoypad.Ports | input/gx_input_joypad.c:580-1353 | The per-port pass keeps the pad count and lifecycle requests |
| GxJoypad.Lifecycle | input/gx_input_joypad.c:1355-1396 | The lifecycle pass consumes the pending reset, quit and menu requests; reset, quit and menu toggle are set exactly when pad 0 or a pending request asks for them, Home choosing quit or menu by setting; other bits are kept |
| GxJoypad.PollAsWritten | input/gx_input_joypad.c:559-1397 | The poll as written, clearing only the first four state words |
| GxJoypad.FifthPortButtonSticks | input/gx_input_joypad.c:564-567 | As written, in a five-player build a button held on the fifth Wii Remote still reads pressed after it is released (see Findings) |
| GxJoypad.FifthOnly | input/gx_input_joypad.c:571 | A five-port GameCube sample list with no controller on any channel |
| GxJoypad.FifthWpad | input/gx_input_joypad.c:586 | A Wii-side word for the fifth port alone, which together with FifthOnly is a valid reading: no GameCube sample outside the four channels |
| GxJoypad.AsWrittenAccumulates | input/gx_input_joypad.c:564-567 | As written, ports from the fifth on keep their word across polls and add the Wii side's bits to it instead of starting empty |
| GxJoypad.Poll | input/gx_input_joypad.c:559-1397 | The corrected poll starts every port empty: each port past the first holds exactly its current reading's bits (the Wii side's word, else the GameCube sample's) and every port read from a GameCube pad its current sticks, and all requests are consumed |
| GxJoypad.PollReportsCurrentSample | input/gx_input_joypad.c:559-1397 | After the corrected poll, a button of any port past the first reads pressed iff the port's current Wii-side word holds it or, when the Wii side did not answer, its GameCube sample presses it (or completes a combo) |
| GxJoypad.PollNormalises | input/gx_input_joypad.c:1349-1352 | After either poll, every stick value lies in [-0x7fff, 0x7fff] |
| GxJoypad.ResetButton | input/gx_input_joypad.c:145-152 | The reset button requests the menu when `rgui_reset` is set and a reset otherwise, changing nothing else |
| GxJoypad.PowerButton | input/gx_input_joypad.c:155-158 | The power button requests quitting and changes nothing else |
| GxJoypad.ResetButtonReachesLifecycle | input/gx_input_joypad.c:1355-1396 | After the reset button, the next poll sets reset, or with `rgui_reset` the Home action (quit or menu toggle) |
| GxJoypad.PowerButtonQuits | input/gx_input_joypad.c:1370-1380 | After the power button, the next poll sets the quit bit |
| SdlJoypad.Button | input/sdl_joypad.c:269-307 | The code is taken as a `uint16_t`; a button is never pressed for the unbound code or a closed slot; a pressed hat code names an existing hat and a pressed plain code an existing button |
| SdlJoypad.ButtonReadsDevice | input/sdl_joypad.c:269-307 | A hat code reads the direction SDL reports for that hat; a plain code reads the button |
| SdlJoypad.Axis | input/sdl_joypad.c:309-337 | An axis reads 0 for no axis or a closed slot; a negative half reads [-0x7fff, 0] and a positive half [0, 0x7fff] |
| SdlJoypad.AxisReadsHalf | input/sdl_joypad.c:309-337 | The axis codes read the matching half of SDL's axis, -0x8000 read as -0x7fff |
| SdlJoypad.QueryPad | input/sdl_joypad.c:411-414 | A pad is present iff its slot holds an open joystick |
| SdlJoypad.Disconnect | input/sdl_joypad.c:185-207 | Disconnecting empties the slot and its name and keeps every other slot |
| SdlJoypad.DisconnectedSlotIsSilent | input/sdl_joypad.c:185-207 | A disconnected slot is absent and reads no button and no axis |
| SdlJoypad.Connect | input/sdl_joypad.c:87-183 | Connecting records what SDL opened, a null handle on failure, and keeps every other slot |
| SdlJoypad.ConnectedButtonsRead | input/sdl_joypad.c:171-304 | A connected joystick is present, and a plain button code reads pressed iff it is below the button count SDL reported and SDL reports it held |
| SdlJoypad.Init | input/sdl_joypad.c:219-267 | Start-up connects the first min(count, players) joysticks and succeeds iff at least one opened |
| SdlJoypad.SlotOf | input/sdl_joypad.c:170-172 | A connected slot records the device's axis, button and hat counts, the button count being SDL's and not the number held |
| SdlJoypad.InitConnects | input/sdl_joypad.c:240-257 | After start-up a pad is present iff its joystick was counted and opened |
| AppleHid.Button | input/apple_joypad_hid.c:284-300 | The code is taken as a `uint16_t`; for a code that fits, a button reads pressed iff the driver is up, the code is a plain button below 32 and either the HID element or the connection layer has it; hats and the unbound code never read |
| AppleHid.Axis | input/apple_joypad_hid.c:302-324 | An axis reads a 16-bit value of the requested sign: nothing when the driver is down, the code is unbound or names neither half |
| AppleHid.AxisReadsHalf | input/apple_joypad_hid.c:302-324 | An axis code reads the matching half of the HID axis plus the connection layer's axis, wrapped to `int16_t`; with a silent connection layer, the matching half of the HID axis |
| AppleHid.QueryPad | input/apple_joypad_hid.c:259-262 | Every slot below the player count is reported present |
| AppleHid.AbsentPadIsSilent | input/apple_joypad_hid.c:259-300 | A pad the query reports absent reads no button |
| AppleHid.Name | input/apple_joypad_hid.c:336-343 | No pad has a name |
| AppleHid.UsageBit | input/apple_joypad_hid.c:104-111 | The bit a button element touches is its usage minus one, within 0-31 |
| AppleHid.InputCallback | input/apple_joypad_hid.c:47-118 | A report changes only its own slot: a button element sets or clears exactly its bit by value, and an axis element updates only its slot's axes |
| AppleHid.ButtonElementReadsBack | input/apple_joypad_hid.c:102-113 | A button element with usage 1 to 32 reads back pressed iff its last value was nonzero |
| AppleHid.RemoveAsWritten | input/apple_joypad_hid.c:120-141 | As written, removal zeroes every axis cell from the slot's row onwards and writes past the array for any slot but the first |
| AppleHid.RemoveClearsNeighbour | input/apple_joypad_hid.c:134 | With two players, unplugging the first pad also zeroes the second's axes, and unplugging the second overruns the array (see Findings) |
| AppleHid.Remove | input/apple_joypad_hid.c:120-141 | The corrected removal zeroes exactly the slot's buttons and axis row and keeps every other slot |
| AppleHid.RowOfCell | input/apple_joypad_hid.c:134 | Cell i of slot s's row lies in row s |
| AppleHid.RemovedSlotIsIdle | input/apple_joypad_hid.c:120-141 | After removal the slot reads no button and no axis, and every other slot reads as before |
| Binds.AxisCodes | input/input_common.h:34-55 | The code of negative axis n names n in its negative half and nothing in its positive half, and the positive code the other way round; neither is the unbound code |
| Binds.HatDir | input/sdl_joypad.c:279-286 | A code's hat direction is a multiple of 0x1000 below 0x10000, no larger than the code |
| Binds.Hat | settings.c:1833-1836 | The hat number has no direction bits, and adding the direction back gives the code |
| Binds.HatMap | input/sdl_joypad.c:279-286 | A code built from a hat and one of the direction masks gives back the direction and the hat's low twelve bits |
| Binds.AxisNegGet | input/gx_input_joypad.c:325-327 | The negative half of an axis code is at most 0xFFFF |
| Binds.AxisPosGet | input/gx_input_joypad.c:330-332 | The positive half is at most 0xFFFF, and the two halves reassemble any 32-bit code |
| Binds.AxisNeg | input/gx_input_joypad.c:325-332 | The code for a negative axis is 32-bit, names the axis in its negative half and nothing in its positive half |
| Binds.AxisPos | input/gx_input_joypad.c:325-332 | The code for a positive axis is 32-bit, names nothing in its negative half and the axis in its positive half |
| Binds.ConvAnalogId | input/input_common.h:31-56 | An analogue index and axis map to a minus/plus bind pair iff the combined selector is below 4 |
| Binds.ConvMatchesTable | input/input_common.h:34-55 | Left/right stick and X/Y axis map to their own minus and plus binds |
| Binds.ConvOtherUnchanged | input/input_common.h:31-56 | Any other selector leaves the output binds untouched |
| Binds.ConvAliases | input/input_common.h:34 | The selector is computed in 32 bits without checking the parts, so index 0 with axis 2 selects the right stick, and index 2^31 wraps to the left stick |
| GxInput.Masked | input/gx_input.c:144-147 | A mouse button reads either 0 or its own bit |
| GxInput.MouseState | input/gx_input.c:127-151 | Mouse X and Y read the movement since the previous poll as a 16-bit value; left and right read their button bits; other ids read 0 |
| GxInput.State | input/gx_input.c:153-175 | Ports beyond the pad count and a missing driver read 0; joypad reads the bind, mouse reads the mouse of the given index, unknown devices read 0 |
| GxInput.CountMouse | input/gx_input.c:193-213 | Four mice are counted whenever the driver exists |
| GxInput.Resize | input/gx_input.c:237-254 | Resizing the mouse array keeps positions and zeroes every previous position |
| GxInput.PollMouse | input/gx_input.c:230-264 | Each poll records the new position and buttons of each of the four mice |
| GxInput.MouseDeltaBetweenPolls | input/gx_input.c:256-263 | After two polls, mouse X and Y read the difference between the two samples |
| GxInput.FirstPollDelta | input/gx_input.c:237-263 | On the poll that resizes the array, the delta of an existing mouse is taken from its stored position, the reset to zero being overwritten |
| GxInput.KeyPressed | input/gx_input.c:280-285 | A key is pressed iff its lifecycle bit is set or its pad-0 bind is pressed |
| GxInput.Capabilities | input/gx_input.c:287-295 | The capability word is the joypad, analogue, mouse and light gun bits |
| GxInput.CapabilitiesAreQueried | input/gx_input.c:287-295 | Among the first eight device ids, exactly those four report as supported |
| Text.Split | core_options.c:96 | Splitting yields fields that are non-empty and free of the separator, at most one per character |
| Text.SplitKeepsText | core_options.c:96 | The fields concatenated are the text with its separators removed |
| Text.SplitJoin | core_options.c:96 | Splitting a join of non-empty separator-free fields gives back the fields |
| Text.Find | core_options.c:84 | The search returns the first position where the pattern occurs, or none when it occurs nowhere |
| Text.Decimal | settings.c:1873 | The decimal text of a number is non-empty digits, one digit exactly below 10 |
| Text.DecimalRoundTrip | settings.c:1873 | Reading back the decimal text of a number gives the number |
| GxPlatform.Positions | frontend/platform/platform_gx.c:438-442 | The scan starts at every address of the MEM2 window below its end less the patch size |
| GxPlatform.WriteReads | frontend/platform/platform_gx.c:445-450 | Writing a patch at an address changes exactly the bytes it covers, to the patch bytes, and keeps every other byte |
| GxPlatform.ForwardThenScan | frontend/platform/platform_gx.c:442-454 | The loop's first k steps followed by the rest of the scan give the whole scan: counts add up and the memory is the final one |
| GxPlatform.ApplyPatch | frontend/platform/platform_gx.c:438-456 | The patcher's result is the scan over the whole window; a count of zero leaves memory untouched |
| GxPlatform.ScanLoop | frontend/platform/platform_gx.c:442-454 | The byte-at-a-time loop computes the same count and memory as the recursive scan |
| GxPlatform.ScanWithoutMatchKeeps | frontend/platform/platform_gx.c:443-452 | When no position matches, memory is unchanged |
| GxPlatform.ScanStep | frontend/platform/platform_gx.c:443-453 | One step counts a match at the current address and patches it, then continues on the patched memory |
| GxPlatform.WritePatch | frontend/platform/platform_gx.c:446-450 | The byte copy loop writes exactly the patch at the location |
| GxPlatform.ScanWritesOnlyWindows | frontend/platform/platform_gx.c:443-452 | Every byte the scan changes lies in the patch window of some scanned address |
| GxPlatform.CountFrom | frontend/platform/platform_gx.c:442-444 | The number of matching addresses is at most the number of addresses scanned |
| GxPlatform.WriteKeepsLaterMatches | frontend/platform/platform_gx.c:445-450 | When patch and pattern agree on their first byte, patching one match neither creates nor destroys a match further on |
| GxPlatform.CountAgrees | frontend/platform/platform_gx.c:442-444 | Two memories with the same matching addresses give the same count |
| GxPlatform.ScanCountsOccurrences | frontend/platform/platform_gx.c:438-456 | For a patch at offset 0 with the pattern's first byte, the returned count is the number of occurrences of the pattern in the original memory |
| GxPlatform.ScanLeavesNoMatch | frontend/platform/platform_gx.c:438-456 | After the scan with such a patch no address of the window still holds the old pattern |
| GxPlatform.StepClearsBehind | frontend/platform/platform_gx.c:443-450 | Patching the first match leaves no match at or before it |
| GxPlatform.IsfsAnchored | frontend/platform/platform_gx.c:458-459 | The ISFS permission patch differs from the pattern but keeps its first byte |
| GxPlatform.IosPatchApply | frontend/platform/platform_gx.c:464-476 | Without AHBPROT access nothing changes and the count is 0; with it the MEM2 protection register keeps only its low 16 bits, the count is the number of ISFS permission checks found and none is left unpatched |
| GxPlatform.IsfsPatchIdempotent | frontend/platform/platform_gx.c:464-476 | Applying the ISFS patch to memory it has already patched finds nothing and changes nothing |
| GxPlatform.NoMatchCountsZero | frontend/platform/platform_gx.c:442-444 | Memory with no match counts zero |
| GxPlatform.SetFork | frontend/platform/platform_gx.c:635-639 | The fork records both flags as given |
| GxPlatform.PathJoin | frontend/platform/platform_gx.c:607-608 | The joined path is the directory, a slash unless the directory already ends in one, then the name |
| GxPlatform.ExitSpawn | frontend/platform/platform_gx.c:590-611 | Without exit spawn nothing is executed; with it the core is executed, then boot.dol in the core directory, both with the start-game flag |
| GxPlatform.ForkDecidesSpawn | frontend/platform/platform_gx.c:596-639 | After set_fork, whether anything is spawned and with which start-game flag is exactly what set_fork was given |
| GxPlatform.Rating | frontend/platform/platform_gx.c:641-648 | The Wii rates 8 and the GameCube 6 |
| WiiArgv.LastIndex | frontend/platform/platform_wii.c:86 | The last occurrence of the character, none exactly when the string lacks it |
| WiiArgv.BaseDir | frontend/platform/platform_wii.c:89 | The directory part of a path ends in a slash and is a prefix of the path with no slash after it; a path without a slash gives "./" |
| WiiArgv.ParentDir | frontend/platform/platform_wii.c:73 | The parent directory is no longer than the path, or is "./" |
| WiiArgv.Basename | frontend/platform/platform_wii.c:96 | The name after the last slash is a slash-free suffix of the path |
| WiiArgv.ParentThenBasename | frontend/platform/platform_wii.c:88-99 | The directory entry followed by the file name entry spell the argument path |
| WiiArgv.Prefix | frontend/platform/platform_wii.c:61-77 | A device-less full path gets the device of argv[0] up to its colon; a path naming sd, usb, carda or cardb gets nothing; any other path gets the directory of argv[0] |
| WiiArgv.Entries | frontend/platform/platform_wii.c:79-101 | The argument list is the DOL path with its prefix, followed by the directory and file name of the argument path exactly when that path has a slash |
| WiiArgv.CommandLine | frontend/platform/platform_wii.c:79-104 | The command line is longer than the prefixed DOL path and ends in two NULs: the last entry's terminator and the extra one |
| WiiArgv.UnterminateTerminate | frontend/platform/platform_wii.c:82-103 | Splitting NUL-terminated strings back at their NULs gives the strings |
| WiiArgv.ArgvBlock | frontend/platform/platform_wii.c:50-106 | The argv header has the magic, points at the command line just after itself, records its length and zero counts |
| WiiArgv.CommandLineFields | frontend/platform/platform_wii.c:59-103 | The command line reads back as the entries and an empty string; the first is the prefixed DOL path and the next two spell the argument path |
| WiiArgv.CommandLineReads | frontend/platform/platform_wii.c:59-103 | The command line read back at its NULs is the entries followed by the empty string of the final NUL |
| WiiArgv.EntriesAreCStrings | frontend/platform/platform_wii.c:61-101 | No entry holds a NUL when the paths do not |
| WiiArgv.CStringParent | frontend/platform/platform_wii.c:73 | The parent of a NUL-free path is NUL-free |
| WiiArgv.TerminateSnoc | frontend/platform/platform_wii.c:103 | The final NUL is the terminator of an extra empty string |
| WiiTitle.TitleIsInstalled | wii/title.c:69-82 | A failed content count means not installed; otherwise installed exactly when some content remains |
| WiiTitle.IsVwii | wii/title.c:84-88 | The console is a vWii exactly when title 1-512 is installed with content |
| WiiTitle.IsVwiiAsksOneTitle | wii/title.c:86-88 | The answer depends only on what the system reports for title 1-512 |
| WiiTitle.MsId | wii/title.c:26-36 | A failed certificate read keeps the previous id; otherwise the id is the certificate byte at 0x99 less '0', wrapped to 32 bits |
| WiiTitle.Kind | wii/title.c:38-44 | The console is on dpki exactly at ms-id 3 and on retail exactly at ms-id 2 |
| WiiTitle.KindOfDigit | wii/title.c:36-44 | The console is on dpki exactly when that byte is '3', on retail exactly when it is '2'; a digit byte gives its value |
| WiiTitle.ByteAt | wii/title.c:106-110 | Bytes inside the file read as the file |
| WiiTitle.Read | wii/title.c:110-112 | A read of n bytes inside the file is that slice |
| WiiTitle.Tids | wii/title.c:109-111 | One title id per 12-byte record, a trailing partial record included |
| WiiTitle.GetUid | wii/title.c:93-119 | A missing uid.sys keeps the owner id; otherwise the owner is the uid of the first record with the running title's id, or unchanged when there is none |
| WiiTitle.FirstIndex | wii/title.c:109-115 | The search stops at the first record with the title id |
| WiiTitle.ToBytes | wii/title.c:110 | An n-byte big-endian encoding has n bytes |
| WiiTitle.FromToBytes | wii/title.c:110-112 | Reading back an n-byte big-endian encoding gives the value |
| WiiTitle.Encode | wii/title.c:109 | A table of entries encodes to 12 bytes per entry |
| WiiTitle.EncodeFrom | wii/title.c:109 | The encoding from record k on is the encoding of the entries from k on |
| WiiTitle.EncodeHead | wii/title.c:110-112 | The first record is the title id in 8 bytes then the uid in 4 |
| WiiTitle.RecordBytes | wii/title.c:110-112 | Record k is entry k's title id then its uid |
| WiiTitle.EncodedRecord | wii/title.c:110-112 | The driver reads back entry k's title id and uid from record k |
| WiiTitle.TitleIds | wii/title.c:109-111 | The table's title ids in order |
| WiiTitle.FindOwnerInTable | wii/title.c:108-116 | On an encoded table the owner found is the uid of the first entry with the title id, none when no entry has it |

The fade-out that runs at exit is modelled as the code has it. A fade-in that is still running
takes precedence over it (`gfx/gx/gx_gfx.c` lines 1868-1871). It does not abort the fade-in.

Constants that come from headers outside this model are written with their usual values. These
headers are libogc's video and pad headers, EGL's, SDL's hat masks, `driver.h`'s axis and hat
macros, and the bitmap font's size. The `RARCH_*` lifecycle bind numbers are parameters.

## Left out

- Logging, `printf` and `RARCH_LOG` output, cache flushes (`DCFlushRange`) and the config file write: these have no effect on the modelled state.
- Threads and mutexes: the GX device thread and the vsync callback are single steps of the model.
- The busy-wait in the GX frame sync is one step of GxFrame.EndFrame: the retrace callback that ends it is taken to arrive.
- Floating point: the GX `y_scale`, the aspect ratio, monitor refresh rates and the HID axis scaling are not modelled. AppleHid.InputCallback takes the scaled axis value as the report's `scaled` field. The DRM refresh-rate distance is the `dist` parameter of DrmEgl.ChooseMode.
- The particle and snow effects of the GX driver, and `audio/filters/iir.c`: they lie outside the video, input and platform core.
- The `SA3_MOD` and `USE_SAILORMOON` builds: the default build is modelled.
- The save-banner image copy and file I/O: Settings.BannerHeader models only the text header. Its title and subtitle are parameters, because the build fixes them with `snprintf`.
- The GameCube/Wii joypad driver models the GameCube pad branch of the poll. The Wii Remote, Classic Controller, Nunchuk and 3DS branches read WPAD and 3DS data that is not part of this model; they enter only as each port's finished button word (`wpad`), taken when the Wii side answers.
- GxJoypad.Poll: the stick values the Wii-side branch writes are not modelled; a port the Wii side took keeps its previous (normalised) stick values.
- GxJoypad.QueryPad: `MAX_PLAYERS` is a parameter, because it comes from a header that is not part of this model. The query requires the pad state to cover every pad below it, because the source reads `pad_state[pad]` without a check against `MAX_PADS`. Its contract states only that a present pad is below the limit; QueryPadSeesButton states the rest.
- GxJoypad.Button: the three button queries take the code as a `uint16_t`, truncating it; in GX a truncated code of 64 or more would shift `1ULL` past its width, which C leaves undefined, and the model reads it as no bit.
- Settings.DefaultViewport: the `prescale` and `smooth` video flags that the NEMO VI scale clears are not modelled, nor the `#if 0` original-scale branches.
- AppleHid.Axis: the connection layer's axis is summed into an `int16_t` exactly as written, with no saturation.
- The SDL 2 code paths of `input/sdl_joypad.c` (haptics, game controllers): the SDL 1.2 build is modelled.
- Light gun state and `input_joypad_analog`'s analog device reads are not modelled.
- A failed `realloc` when the mouse list grows is not modelled: GxInput.Resize always succeeds.
- Settings.ParseJoykey and Settings.ParseAxis are reference readers used to state round trips. The config reader of `input/input_common.c` is not part of this model.
- `fill_pathname_parent_dir` and `fill_pathname_join` follow libretro-common's `file/file_path.c`, which is not part of this model. Its `rarch_assert` on `PATH_MAX` becomes a requires of WiiArgv.ParentDir.
- WiiArgv.Prefix requires a colon in `argv[0]` for a device-less path, because the source subtracts from `strchr`'s result without a check.
- WiiTitle.Read: bytes past the end of `uid.sys` (a record cut short) come from the `beyond` parameter, because the source reads them from whatever follows the buffer. A failed `ISFS_Read` is not checked by the source and is not modelled.
- GxPlatform.ApplyPatch requires that the patch window fit in memory (Fits), because the source writes past the scanned region without a check when the offset is large.
- The patches commented out in `IOSPATCH_Apply` (di_readlimit, es_setuid, es_identify, hash checks) are not modelled.
- The `disable_memory_protection` register is a value: GxPlatform.IosPatchApply returns the new MEM2 protection word instead of writing hardware.
- Only the Wii (non-Salamander) exit spawn is modelled; the Salamander `gx_rom_path` branch of `frontend_gx_exitspawn` is not.
- `title_init`'s device id and data path reads only print or store values that nothing in this model reads.
- Rgui.FillRect: requires a rectangle inside the buffer whose bounds do not wrap in 32 bits; for a wrapping bound only the number of columns or rows the loop visits is modelled, by Rgui.LoopSpan.
- Rgui.SelectionVisible: promises a visible selection only when the selection plus the terminal height fits in 32 bits. A menu too short for one row wraps the height, and the source then hides the selection (Rgui.WrappedRowsHideSelection).
- `string_split` drops empty fields, as `strtok` does.

## Findings

| source | as written | input that shows it | evidently intended | confidence | as-written member | corrected member |
|---|---|---|---|---|---|---|
| gfx/context/drm_egl_ctx.c:243-249 | After a refused page flip with no free buffer, the blocking wait promotes the next buffer and releases the one still on screen | a flip the kernel refuses while both buffers are in use | keep the shown buffer until a flip has completed | not executed | DrmEgl.RefusedFlipReleasesShownBuffer | DrmEgl.SwapBuffersGuarded |
| frontend/menu/disp/rgui.c:794-831 | An overlong line is cut to term+1 characters but counted as term, so the unsigned centring offset wraps | message "abcd" with room for 3 characters | cut to the room and count what was kept | not executed | Rgui.OverlongLineOffset | Rgui.MessageBoxLayout |
| frontend/menu/disp/rgui.c:780-816 | A message that is only a newline splits into no lines, passes the empty-list check, and the width less 10 wraps, so the fills paint only two side strips of an empty box | message "\n" | treat an empty line list as no message | not executed | Rgui.NewlineOnlyMessage | Rgui.MessageBoxLayout |
| input/gx_input_joypad.c:1282-1285 | The Y stick is negated by multiplying by -256 after an `int16_t` cast, and -128 * -256 = 32768 wraps to -32768 | stick Y at -128 (full down) | full down reads the full positive value | not executed | GxJoypad.StickFullDownReadsUp | GxJoypad.Stick |
| input/gx_input_joypad.c:564-567 | Only the first four pads' button words are cleared before the poll ORs in new samples | a five-player Wii build, a button held on the fifth Wii Remote and then released | every port reports its current reading | not executed | GxJoypad.FifthPortButtonSticks | GxJoypad.Poll |
| input/apple_joypad_hid.c:134 | The memset of a slot's axis row uses the size of the whole axis array | two players, pad 1 unplugged | clear only the slot's four axes | not executed | AppleHid.RemoveClearsNeighbour | AppleHid.Remove |
