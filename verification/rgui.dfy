/** RGUI menu drawing (frontend/menu/disp/rgui.c) on a 16-bit frame buffer.
    The buffer is a sequence of rows: pixel `(i, j)` of the driver's flat
    buffer, at index `j * (pitch / 2) + i`, is `buf[j][i]` here. Sizes that
    the driver keeps in `unsigned`/`size_t` (32 bits on the console) wrap
    through `U32`. */
module Rgui {
  import opened Wrappers
  import opened Machine
  import opened Text

  /** Glyph metrics (gfx/fonts/bitmap.h, not part of this model). */
  const FONT_WIDTH: nat := 5
  const FONT_HEIGHT: nat := 10
  const FONT_WIDTH_STRIDE: nat := 6
  const FONT_HEIGHT_STRIDE: nat := 11

  type Frame = seq<seq<int>>

  /** Every row of `buf` is at least `width` pixels wide. */
  predicate Rows(buf: Frame, width: nat)
  {
    forall j :: 0 <= j < |buf| ==> width <= |buf[j]|
  }

  predicate SameShape(a: Frame, b: Frame)
  {
    |a| == |b| && forall j :: 0 <= j < |a| ==> |a[j]| == |b[j]|
  }

  predicate InRect(i: int, j: int, x: int, y: int, width: int, height: int)
  {
    x <= i < x + width && y <= j < y + height
  }

  /** `fill_rect`: paints every pixel of the rectangle with the filler's
      colour for that pixel. The driver does not clip, so its callers keep
      the rectangle inside the buffer. */
  method FillRect(buf: Frame, x: nat, y: nat, width: nat, height: nat, col: (nat, nat) -> int)
    returns (out: Frame)
    requires y + height <= |buf| && Rows(buf, x + width)
    ensures SameShape(out, buf)
    ensures forall j, i :: 0 <= j < |buf| && 0 <= i < |buf[j]| ==>
              out[j][i] == (if InRect(i, j, x, y, width, height) then col(i, j) else buf[j][i])
  {
    out := buf;
    var j := y;
    while j < y + height
      invariant y <= j <= y + height
      invariant SameShape(out, buf)
      invariant forall r, i :: 0 <= r < |buf| && 0 <= i < |buf[r]| ==>
                  out[r][i] == (if InRect(i, r, x, y, width, j - y) then col(i, r) else buf[r][i])
    {
      var row := buf[j];
      var i := x;
      while i < x + width
        invariant x <= i <= x + width
        invariant |row| == |buf[j]|
        invariant forall k :: 0 <= k < |row| ==> row[k] == (if x <= k < i then col(k, j) else buf[j][k])
      {
        row := row[i := col(i, j)];
        i := i + 1;
      }
      out := out[j := row];
      j := j + 1;
    }
  }

  /** How many values `for (i = start; i < start + length; i++)` visits in
      `fill_rect`'s 32-bit unsigned arithmetic: the bound wraps too, so a
      loop asked for more than fits past `start` visits nothing. */
  function LoopSpan(start: int, length: nat): (n: nat)
    ensures n <= length
    ensures 0 <= start && start + length < U32_LIMIT ==> n == length
    ensures U32(start) + length >= U32_LIMIT && length < U32_LIMIT ==> n == 0
  {
    var s := U32(start);
    var e := U32(s + length);
    if e > s then e - s else 0
  }

  /** A particle's rectangle after clipping to the frame buffer:
      (x_start, y_start, x_end, y_end). */
  function Clip(fbWidth: nat, fbHeight: nat, x: int, y: int, width: nat, height: nat): (r: (nat, nat, nat, nat))
    ensures r.0 <= fbWidth && r.2 <= fbWidth && r.1 <= fbHeight && r.3 <= fbHeight
    ensures forall j, i :: InRect(i, j, r.0, r.1, r.2 - r.0, r.3 - r.1) <==>
              Covered(fbWidth, fbHeight, x, y, width, height, i, j)
  {
    var xs := Min(Max(x, 0), fbWidth);
    var ys := Min(Max(y, 0), fbHeight);
    var xe := Min(Max(x + width, 0), fbWidth);
    var ye := Min(Max(y + height, 0), fbHeight);
    (xs, ys, xe, ye)
  }

  /** Pixel `(i, j)` is on screen and inside the particle. */
  predicate Covered(fbWidth: nat, fbHeight: nat, x: int, y: int, width: nat, height: nat, i: int, j: int)
  {
    0 <= i < fbWidth && 0 <= j < fbHeight && InRect(i, j, x, y, width, height)
  }

  /** `rgui_draw_particle`: paints the on-screen part of the particle and
      reports whether any of it is on screen. The corner and size are C
      `int`/`unsigned` values whose sums do not overflow. */
  method DrawParticle(buf: Frame, fbWidth: nat, fbHeight: nat, x: int, y: int,
                      width: nat, height: nat, color: int)
    returns (out: Frame, visible: bool)
    requires |buf| == fbHeight && Rows(buf, fbWidth)
    requires -0x8000_0000 <= x && x + width < 0x8000_0000
    requires -0x8000_0000 <= y && y + height < 0x8000_0000
    ensures SameShape(out, buf)
    ensures forall j, i :: 0 <= j < |buf| && 0 <= i < |buf[j]| ==>
              out[j][i] == (if Covered(fbWidth, fbHeight, x, y, width, height, i, j) then color else buf[j][i])
    ensures visible <==> exists j, i :: Covered(fbWidth, fbHeight, x, y, width, height, i, j)
  {
    var c := Clip(fbWidth, fbHeight, x, y, width, height);
    var w := if c.2 > c.0 then c.2 - c.0 else 0;
    var h := if c.3 > c.1 then c.3 - c.1 else 0;
    out := FillRect(buf, c.0, c.1, w, h, (_, _) => color);
    visible := c.2 > c.0 && c.3 > c.1;
    if visible {
      assert Covered(fbWidth, fbHeight, x, y, width, height, c.0, c.1);
    }
  }

  /** `gray_filler` (GEKKO build): a checkerboard of 2x2 blocks in two shades
      of an RGB4A3 grey. */
  function GrayFiller(x: nat, y: nat): (c: nat)
    ensures c == 0x6000 + 0x111 * Shade(x, y)
  {
    var col := ((x / 2 + y / 2) % 2) + 1;
    (6 * 0x1000) + col * 0x100 + col * 0x10 + col
  }

  /** `green_filler` (GEKKO build). */
  function GreenFiller(x: nat, y: nat): (c: nat)
    ensures c == 0x6000 + 0x112 * Shade(x, y)
  {
    var col := ((x / 2 + y / 2) % 2) + 1;
    (6 * 0x1000) + col * 0x100 + col * 0x10 + col * 2
  }

  /** The checkerboard shade of a pixel: 1 or 2, by its 2x2 block. */
  function Shade(x: nat, y: nat): (s: nat)
    ensures s == 1 || s == 2
  {
    ((x / 2 + y / 2) % 2) + 1
  }

  /** The four pixels of a 2x2 block share a shade, and horizontally or
      vertically adjacent blocks differ. */
  lemma Checkerboard(x: nat, y: nat)
    ensures GrayFiller(x, y) == GrayFiller(2 * (x / 2), 2 * (y / 2))
    ensures GrayFiller(x + 2, y) != GrayFiller(x, y)
    ensures GrayFiller(x, y + 2) != GrayFiller(x, y)
    ensures GreenFiller(x + 2, y) != GreenFiller(x, y)
  {
    assert (x + 2) / 2 == x / 2 + 1;
    assert (y + 2) / 2 == y / 2 + 1;
    assert 2 * (x / 2) / 2 == x / 2;
    assert 2 * (y / 2) / 2 == y / 2;
  }

  /** Hover and text colours of `blit_line`: preset 0 uses the configured
      pair, presets 1 to 8 fixed pairs, anything else the defaults. */
  function ThemeColors(preset: nat, hover: nat, text: nat): (r: (nat, nat))
    ensures preset == 0 ==> r == (hover, text)
    ensures preset > 8 ==> r == (32767, 54965)
  {
    if preset == 0 then (hover, text)
    else if preset == 1 then (46060, 32767)
    else if preset == 2 then (60647, 32767)
    else if preset == 3 then (64450, 32767)
    else if preset == 4 then (64927, 32767)
    else if preset == 5 then (32767, 54965)
    else if preset == 6 then (46046, 35351)
    else if preset == 7 then (32767, 54965)
    else if preset == 8 then (64512, 60071)
    else (32767, 54965)
  }

  /** The preset table as data: (hover, text) of presets 1 to 8. */
  const PRESETS: seq<(nat, nat)> := [
    (46060, 32767), (60647, 32767), (64450, 32767), (64927, 32767),
    (32767, 54965), (46046, 35351), (32767, 54965), (64512, 60071)]

  /** A fixed preset ignores the configured colours and follows the table;
      the white/grey preset, the ZSNES preset and the fallback agree. */
  lemma PresetsAreFixed(preset: nat, hover: nat, text: nat)
    requires 1 <= preset <= 8
    ensures ThemeColors(preset, hover, text) == PRESETS[preset - 1]
    ensures ThemeColors(preset, hover, text) == ThemeColors(preset, 0, 0)
    ensures preset in {5, 7} ==> ThemeColors(preset, hover, text) == ThemeColors(9, 0, 0)
  {
  }

  // ---------------------------------------------------------------- layout

  /** RGUI_TERM_WIDTH and RGUI_TERM_HEIGHT for a menu of the given size. */
  function TermWidth(menuWidth: nat): (w: nat)
    ensures FONT_WIDTH_STRIDE * w + 2 * (menuWidth / 21) <= menuWidth
  {
    (menuWidth - 2 * (menuWidth / 21)) / FONT_WIDTH_STRIDE
  }

  function TermHeight(menuWidth: nat, menuHeight: nat): (h: nat)
    requires menuHeight < U32_LIMIT
    ensures menuHeight / 9 + menuWidth / 21 + FONT_HEIGHT_STRIDE <= menuHeight ==>
              FONT_HEIGHT_STRIDE * (h + 1) + menuHeight / 9 + menuWidth / 21 <= menuHeight
  {
    var free := U32(menuHeight - menuHeight / 9 - menuWidth / 21);
    U32(free / FONT_HEIGHT_STRIDE - 1)
  }

  /** The visible slice [begin, end) of a menu list in `rgui_render`, for a
      terminal of `rows` lines. */
  function ScrollWindow(selection: nat, size: nat, rows: nat): (r: (nat, nat))
    requires selection < U32_LIMIT && size < U32_LIMIT && rows < U32_LIMIT
    ensures size <= rows ==> r.0 == 0
    ensures size > rows && selection >= rows / 2 ==> r.0 == selection - rows / 2
    ensures size > rows && selection < rows / 2 ==> r.0 == 0
  {
    var begin := if size <= rows then 0 else if selection >= rows / 2 then selection - rows / 2 else 0;
    var end0 := if U32(selection + rows) <= size then U32(selection + rows) else size;
    var end := if U32(end0 - begin) > rows then U32(begin + rows) else end0;
    (begin, end)
  }

  /** For a selection inside the list the window never exceeds the terminal,
      stays inside the list and always shows the selection; a list that fits
      is shown whole. */
  lemma SelectionVisible(selection: nat, size: nat, rows: nat)
    requires selection < size < U32_LIMIT && 0 < rows && selection + rows < U32_LIMIT
    ensures var (b, e) := ScrollWindow(selection, size, rows);
            b <= selection < e <= size && e - b <= rows
    ensures size <= rows ==> ScrollWindow(selection, size, rows) == (0, size)
  {
    var (b, e) := ScrollWindow(selection, size, rows);
    var end0 := if selection + rows <= size then selection + rows else size;
    assert U32(selection + rows) == selection + rows;
    assert b <= selection < end0;
    assert U32(end0 - b) == end0 - b;
  }

  /** The `size_t` sum `selection + RGUI_TERM_HEIGHT` wraps when the terminal
      height has itself wrapped (a menu too short for one row): the window
      then ends before the selection. */
  lemma WrappedRowsHideSelection()
    ensures TermHeight(0, 10) == 0xFFFF_FFFF
    ensures ScrollWindow(5, 10, TermHeight(0, 10)) == (0, 4)
  {
  }

  // ------------------------------------------------------------ message box

  /** A rectangle handed to `fill_rect`: corner and size. */
  datatype Rect = Rect(x: int, y: int, width: nat, height: nat)

  /** Geometry of `rgui_render_messagebox`: the lines drawn, the box, the
      five rectangles that paint it (body, then top, right, bottom and left
      borders) and the x offset of each line inside it. */
  datatype MessageBox = MessageBox(
    lines: seq<string>, width: nat, height: nat, x: int, y: int,
    rects: seq<Rect>, offsets: seq<int>)

  /** The five fills of a box at (x, y) of the given size. */
  function Fills(x: int, y: int, width: nat, height: nat): (r: seq<Rect>)
    ensures |r| == 5
  {
    [Rect(x + 5, y + 5, U32(width - 10), U32(height - 10)),
     Rect(x, y, U32(width - 5), 5),
     Rect(x + width - 5, y, 5, U32(height - 5)),
     Rect(x + 5, y + height - 5, U32(width - 5), 5),
     Rect(x, y + 5, 5, U32(height - 5))]
  }

  /** Widest of the counted line lengths. */
  function MaxOf(xs: seq<nat>): (m: nat)
    ensures forall i :: 0 <= i < |xs| ==> xs[i] <= m
    ensures |xs| > 0 ==> m in xs
    ensures |xs| == 0 ==> m == 0
  {
    if |xs| == 0 then 0 else Max(xs[0], MaxOf(xs[1..]))
  }

  /** A line cut to the terminal as the driver writes it: the dots go at
      `term - 2`, `term - 1` and `term`, and the terminator at `term + 1`. */
  function CutAsWritten(line: string, term: nat): (r: string)
    requires term >= 2
    ensures |line| > term ==> |r| == term + 1 && r[term - 2..] == "..."
    ensures |line| <= term ==> r == line
  {
    if |line| > term then line[..term - 2] + "..." else line
  }

  /** How many glyphs a line is counted as: the terminal width once cut. */
  function Counted(line: string, term: nat): nat
  {
    if |line| > term then term else |line|
  }

  function CountedAll(lines: seq<string>, term: nat): (r: seq<nat>)
    ensures |r| == |lines| && forall i :: 0 <= i < |lines| ==> r[i] == Counted(lines[i], term)
  {
    seq(|lines|, i requires 0 <= i < |lines| => Counted(lines[i], term))
  }

  /** Box geometry shared by both versions, from the counted glyph width
      and the number of lines. */
  function Box(lines: seq<string>, glyphs: nat, menuWidth: nat, menuHeight: nat, offsets: seq<int>): MessageBox
  {
    var width := if glyphs == 0 then 0 else U32(glyphs * FONT_WIDTH_STRIDE - 1 + 16);
    var height := U32(FONT_HEIGHT_STRIDE * |lines| + 16);
    var x := U32(menuWidth - width) / 2;
    var y := U32(menuHeight - height) / 2;
    MessageBox(lines, width, height, x, y, Fills(x, y, width, height), offsets)
  }

  /** `rgui_render_messagebox` as written. Lines are the `'\n'`-separated
      fields (empty ones vanish); `term` is RGUI_TERM_WIDTH. */
  function MessageBoxAsWritten(message: string, term: nat, menuWidth: nat, menuHeight: nat): (r: Option<MessageBox>)
    requires 2 <= term < 0x1000_0000 && menuWidth < U32_LIMIT && menuHeight < U32_LIMIT
    requires |message| < 0x1000_0000
    ensures r.None? <==> |message| == 0
    ensures r.Some? ==> |r.value.lines| == |Split(message, '\n')| == |r.value.offsets|
  {
    if |message| == 0 then None
    else
      var fields := Split(message, '\n');
      var lines := seq(|fields|, i requires 0 <= i < |fields| => CutAsWritten(fields[i], term));
      var glyphs := MaxOf(CountedAll(fields, term));
      var offsets := seq(|lines|, i requires 0 <= i < |lines| =>
                       U32(FONT_WIDTH_STRIDE * U32(glyphs - |lines[i]|)) / 2);
      Some(Box(lines, glyphs, menuWidth, menuHeight, offsets))
  }

  /** A single line one character longer than the terminal: four glyphs are
      cut into a box sized for three, and the line's centring offset wraps
      to 2147483645, because the unsigned subtraction of the real length
      from the counted width wraps around. Where `blit_line` then draws is
      left to the signed `int` overflow of `x + 8 + offset_x`, which C does
      not define. */
  lemma OverlongLineOffset()
    ensures var r := MessageBoxAsWritten("abcd", 3, 400, 240);
            r.Some? && r.value.lines == ["a..."] && r.value.width == 33 &&
            r.value.offsets == [2147483645]
  {
    SplitJoin(["abcd"], '\n');
    var fields := Split("abcd", '\n');
    assert fields == ["abcd"];
    assert CountedAll(fields, 3) == [3];
    assert MaxOf([3]) == 3;
    var lines := seq(1, i requires 0 <= i < 1 => CutAsWritten(fields[i], 3));
    assert lines == ["a..."] by {
      assert CutAsWritten("abcd", 3) == "a...";
    }
    assert U32(FONT_WIDTH_STRIDE * U32(3 - 4)) / 2 == 2147483645;
    assert U32(3 * FONT_WIDTH_STRIDE - 1 + 16) == 33;
  }

  /** A message made only of line breaks is not empty, but has no lines: the
      as-written box is zero glyphs wide and its body fill is asked for a
      width of 2^32 - 10. Since the fill loop's bound wraps as well, the
      body and the top and bottom borders paint no column, and only the two
      5-pixel side strips, 11 rows high, are drawn. */
  lemma NewlineOnlyMessage()
    ensures var r := MessageBoxAsWritten("\n", 3, 400, 240);
            r.Some? && r.value.lines == [] && r.value.width == 0 &&
            r.value.rects[0].width == 0x1_0000_0000 - 10 &&
            LoopSpan(r.value.rects[0].x, r.value.rects[0].width) == 0 &&
            LoopSpan(r.value.rects[1].x, r.value.rects[1].width) == 0 &&
            LoopSpan(r.value.rects[3].x, r.value.rects[3].width) == 0 &&
            LoopSpan(r.value.rects[2].x, r.value.rects[2].width) == 5 &&
            LoopSpan(r.value.rects[4].x, r.value.rects[4].width) == 5 &&
            LoopSpan(r.value.rects[2].y, r.value.rects[2].height) == 11 &&
            LoopSpan(r.value.rects[4].y, r.value.rects[4].height) == 11
  {
    assert Split("\n", '\n') == [] by {
      assert "\n"[1..] == [];
    }
  }

  /** The cut the box geometry evidently assumes: the line keeps exactly
      `term` characters, the last three of them dots. */
  function Cut(line: string, term: nat): (r: string)
    requires term >= 3
    ensures |line| > term ==> |r| == term && r[term - 3..] == "..." && r[..term - 3] == line[..term - 3]
    ensures |line| <= term ==> r == line
    ensures |r| == Counted(line, term)
  {
    if |line| > term then line[..term - 3] + "..." else line
  }

  /** The message box with the cut above and with the empty field list
      treated like an empty message. */
  function MessageBoxLayout(message: string, term: nat, menuWidth: nat, menuHeight: nat): (r: Option<MessageBox>)
    requires 3 <= term < 0x1000_0000 && menuWidth < U32_LIMIT && menuHeight < U32_LIMIT
    requires |message| < 0x1000_0000
    ensures r.None? <==> |Split(message, '\n')| == 0
    ensures r.Some? ==> |r.value.lines| == |Split(message, '\n')| == |r.value.offsets|
    ensures r.Some? ==> r.value.width >= 21 && r.value.height >= 27
    ensures r.Some? ==> forall i :: 0 <= i < |r.value.lines| ==>
              |r.value.lines[i]| <= term && TextInside(r.value, i)
  {
    var fields := Split(message, '\n');
    if |fields| == 0 then None
    else
      var lines := seq(|fields|, i requires 0 <= i < |fields| => Cut(fields[i], term));
      var counted := CountedAll(fields, term);
      var glyphs := MaxOf(counted);
      var offsets := seq(|lines|, i requires 0 <= i < |lines| =>
                       U32(FONT_WIDTH_STRIDE * U32(glyphs - |lines[i]|)) / 2);
      var b := Box(lines, glyphs, menuWidth, menuHeight, offsets);
      LayoutFits(fields, term, lines, counted, glyphs, offsets, b);
      Some(b)
  }

  /** The arithmetic behind `MessageBoxLayout`'s promises. */
  lemma LayoutFits(fields: seq<string>, term: nat, lines: seq<string>, counted: seq<nat>, glyphs: nat,
                   offsets: seq<int>, b: MessageBox)
    requires 3 <= term < 0x1000_0000 && 0 < |fields| < 0x1000_0000
    requires forall i :: 0 <= i < |fields| ==> |fields[i]| > 0
    requires lines == seq(|fields|, i requires 0 <= i < |fields| => Cut(fields[i], term))
    requires counted == CountedAll(fields, term) && glyphs == MaxOf(counted)
    requires offsets == seq(|lines|, i requires 0 <= i < |lines| =>
                          U32(FONT_WIDTH_STRIDE * U32(glyphs - |lines[i]|)) / 2)
    requires b.lines == lines && b.offsets == offsets
    requires b.width == (if glyphs == 0 then 0 else U32(glyphs * FONT_WIDTH_STRIDE - 1 + 16))
    requires b.height == U32(FONT_HEIGHT_STRIDE * |lines| + 16)
    ensures b.width >= 21 && b.height >= 27
    ensures forall i :: 0 <= i < |lines| ==> |lines[i]| <= term && TextInside(b, i)
  {
    assert 0 < counted[0] <= glyphs <= term;
    assert b.width == 6 * glyphs + 15;
    forall i | 0 <= i < |lines| ensures |lines[i]| <= term && TextInside(b, i) {
      assert 0 < |lines[i]| == counted[i] <= glyphs;
      LineOffset(glyphs, |lines[i]|);
    }
  }

  lemma LineOffset(glyphs: nat, len: nat)
    requires 0 < len <= glyphs < 0x1000_0000
    ensures U32(FONT_WIDTH_STRIDE * U32(glyphs - len)) / 2 == 3 * (glyphs - len)
  {
  }

  /** Line `i` starts inside the box body and its last glyph column ends
      before the right border. */
  predicate TextInside(b: MessageBox, i: nat)
  {
    i < |b.lines| && i < |b.offsets| &&
    5 <= 8 + b.offsets[i] &&
    8 + b.offsets[i] + FONT_WIDTH_STRIDE * |b.lines[i]| - 1 <= b.width - 5
  }

  /** The five fills of a laid-out box tile it: every pixel of the box lies in
      exactly one of them, and none lies outside. */
  lemma FillsTileBox(b: MessageBox, i: int, j: int)
    requires 10 <= b.width < U32_LIMIT && 10 <= b.height < U32_LIMIT
    requires b.rects == Fills(b.x, b.y, b.width, b.height)
    ensures InRect(i, j, b.x, b.y, b.width, b.height) <==>
              exists k :: 0 <= k < 5 && InRect(i, j, b.rects[k].x, b.rects[k].y, b.rects[k].width, b.rects[k].height)
    ensures forall k, l :: 0 <= k < l < 5 ==>
              !(InRect(i, j, b.rects[k].x, b.rects[k].y, b.rects[k].width, b.rects[k].height) &&
                InRect(i, j, b.rects[l].x, b.rects[l].y, b.rects[l].width, b.rects[l].height))
  {
    var r := b.rects;
    assert r[0].width == b.width - 10 && r[0].height == b.height - 10;
    assert r[1].width == b.width - 5 && r[2].height == b.height - 5;
    assert r[3].width == b.width - 5 && r[4].height == b.height - 5;
    if InRect(i, j, b.x, b.y, b.width, b.height) {
      if InRect(i, j, r[0].x, r[0].y, r[0].width, r[0].height) {
      } else if InRect(i, j, r[1].x, r[1].y, r[1].width, r[1].height) {
      } else if InRect(i, j, r[2].x, r[2].y, r[2].width, r[2].height) {
      } else if InRect(i, j, r[3].x, r[3].y, r[3].width, r[3].height) {
      } else {
        assert InRect(i, j, r[4].x, r[4].y, r[4].width, r[4].height);
      }
    }
  }
}
