/** Configuration (settings.c): keybind serialisers, the `"default"`
    spelling of empty directories, load-time clamps, the save-banner header
    and the console viewport defaults. The configuration file is a list of
    key/value entries in the order written. */
module Settings {
  import opened Wrappers
  import opened Machine
  import opened Text
  import opened Binds

  /** `snprintf(buf, size, ...)` keeps at most `size - 1` characters. */
  function Snprintf(s: string, size: nat): (r: string)
    requires size > 0
    ensures |r| <= size - 1 && r <= s
    ensures |s| < size ==> r == s
  {
    if |s| < size then s else s[..size - 1]
  }

  // ------------------------------------------------------------ keybinds

  /** What one serialiser leaves in the configuration. `Abort` is the
      driver's `rarch_assert(0)` on an unknown hat direction. */
  datatype Entry = Nothing | Set(key: string, value: string) | Abort

  function DirName(dir: nat): Option<string>
  {
    if dir == HAT_UP_MASK then Some("up")
    else if dir == HAT_DOWN_MASK then Some("down")
    else if dir == HAT_LEFT_MASK then Some("left")
    else if dir == HAT_RIGHT_MASK then Some("right")
    else None
  }

  /** `save_keybind_joykey`, including `save_keybind_hat`. */
  function SaveJoykey(prefix: string, base: string, joykey: nat): (e: Entry)
    requires joykey < U64_LIMIT
    ensures e.Set? ==> e.key == Snprintf(prefix + "_" + base + "_btn", 64)
    ensures joykey == NO_BTN ==> e.Set? && e.value == "nul"
    ensures joykey != NO_BTN && HatDir(joykey) == 0 ==> e.Set? && e.value == Decimal(joykey)
    ensures joykey != NO_BTN && HatDir(joykey) != 0 ==>
              (e.Abort? <==> DirName(HatDir(joykey)).None?)
    ensures e.Set? && joykey != NO_BTN && HatDir(joykey) != 0 ==>
              e.value == Snprintf("h" + Decimal(Hat(joykey) % U32_LIMIT) + DirName(HatDir(joykey)).value, 16)
    ensures !e.Nothing?
  {
    var key := Snprintf(prefix + "_" + base + "_btn", 64);
    if joykey == NO_BTN then Set(key, "nul")
    else if HatDir(joykey) != 0 then
      match DirName(HatDir(joykey))
      case None => Abort
      case Some(dir) => Set(key, Snprintf("h" + Decimal(Hat(joykey) % U32_LIMIT) + dir, 16))
    else Set(key, Decimal(joykey))
  }

  /** Reading a button value back, as the format is meant to be read:
      `nul`, `h<hat><direction>`, or a decimal button number. */
  function ParseJoykey(v: string): Option<nat>
  {
    if v == "nul" then Some(NO_BTN)
    else if |v| > 0 && v[0] == 'h' then
      var n := RunDigits(v[1..]);
      if n == 0 || n > 10 then None
      else
        var hat := ParseDecimal(v[1..][..n]);
        var dir := v[1..][n..];
        var mask := MaskOf(dir);
        if mask == 0 || hat >= 0x1000 then None else Some(HatMap(hat, mask))
    else if 0 < |v| && RunDigits(v) == |v| then
      var n := ParseDecimal(v);
      if n < U64_LIMIT then Some(n) else None
    else None
  }

  /** The hat direction a name stands for, 0 for none. */
  function MaskOf(name: string): nat
  {
    if name == "up" then HAT_UP_MASK else if name == "down" then HAT_DOWN_MASK
    else if name == "left" then HAT_LEFT_MASK else if name == "right" then HAT_RIGHT_MASK else 0
  }

  /** Direction names read back as their direction. */
  lemma MaskOfName(dir: nat, name: string)
    requires DirName(dir) == Some(name)
    ensures MaskOf(name) == dir && dir != 0
  {
  }

  /** Length of the leading run of decimal digits. */
  function RunDigits(s: string): (n: nat)
    ensures n <= |s| && forall i :: 0 <= i < n ==> '0' <= s[i] <= '9'
    ensures n < |s| ==> !('0' <= s[n] <= '9')
  {
    if |s| == 0 || !('0' <= s[0] <= '9') then 0 else 1 + RunDigits(s[1..])
  }

  lemma {:induction false} DigitsRun(s: string, rest: string)
    requires forall i :: 0 <= i < |s| ==> '0' <= s[i] <= '9'
    requires |rest| == 0 || !('0' <= rest[0] <= '9')
    ensures RunDigits(s + rest) == |s|
    decreases |s|
  {
    if |s| > 0 {
      assert (s + rest)[1..] == s[1..] + rest;
      DigitsRun(s[1..], rest);
    } else {
      assert s + rest == rest;
    }
  }

  /** Decimal strings of numbers below 10^k have at most k digits. */
  lemma {:induction false} DecimalLength(n: nat, k: nat)
    requires n < Pow10(k)
    ensures |Decimal(n)| <= Max(k, 1)
    decreases k
  {
    if n >= 10 {
      Pow10Small(k);
      DecimalLength(n / 10, k - 1);
    }
  }

  lemma Pow10Small(k: nat)
    ensures k == 0 ==> Pow10(k) == 1
    ensures k == 1 ==> Pow10(k) == 10
  {
  }

  function Pow10(k: nat): nat
  {
    if k == 0 then 1 else 10 * Pow10(k - 1)
  }

  /** A plain button number is written in decimal and reads back. */
  lemma {:induction false} PlainButtonRoundTrip(prefix: string, base: string, joykey: nat)
    requires joykey < U64_LIMIT && joykey != NO_BTN && HatDir(joykey) == 0
    ensures var e := SaveJoykey(prefix, base, joykey);
            e.Set? && ParseJoykey(e.value) == Some(joykey)
  {
    var d := Decimal(joykey);
    assert SaveJoykey(prefix, base, joykey).value == d;
    DecimalRoundTrip(joykey);
    DigitsRun(d, "");
    assert d + "" == d;
    assert d != "nul" by { assert d[0] != 'n'; }
  }

  /** A hat pushed in one direction is written as `h<hat><direction>` and
      reads back as the same code. */
  lemma {:induction false} HatRoundTrip(prefix: string, base: string, hat: nat, dir: nat)
    requires hat < 0x1000 && DirName(dir).Some?
    ensures var e := SaveJoykey(prefix, base, HatMap(hat, dir));
            e.Set? && ParseJoykey(e.value) == Some(HatMap(hat, dir))
  {
    var name := DirName(dir).value;
    SaveHat(prefix, base, hat, dir, name);
    HatParses(hat, dir, name);
  }

  lemma {:induction false} SaveHat(prefix: string, base: string, hat: nat, dir: nat, name: string)
    requires hat < 0x1000 && DirName(dir) == Some(name)
    ensures SaveJoykey(prefix, base, HatMap(hat, dir)) ==
              Set(Snprintf(prefix + "_" + base + "_btn", 64), "h" + Decimal(hat) + name)
  {
    var joykey := HatMap(hat, dir);
    HatMapParts(hat, dir);
    assert Hat(joykey) % U32_LIMIT == hat;
    assert Pow10(4) == 10000;
    DecimalLength(hat, 4);
    var v := "h" + Decimal(hat) + name;
    assert Snprintf(v, 16) == v;
  }

  lemma {:induction false} HatMapParts(hat: nat, dir: nat)
    requires hat < 0x1000 && DirName(dir).Some?
    ensures HatDir(HatMap(hat, dir)) == dir && Hat(HatMap(hat, dir)) == hat
    ensures HatMap(hat, dir) != NO_BTN && HatMap(hat, dir) < U64_LIMIT
  {
    assert hat % 0x1000 == hat;
    var k := dir / 0x1000;
    assert dir == k * 0x1000 && 1 <= k <= 8;
    assert (hat + k * 0x1000) / 0x1000 == k;
    assert k % 16 == k;
  }

  lemma {:induction false} HatParses(hat: nat, dir: nat, name: string)
    requires hat < 0x1000 && DirName(dir) == Some(name)
    ensures ParseJoykey("h" + Decimal(hat) + name) == Some(HatMap(hat, dir))
  {
    var d := Decimal(hat);
    var v := "h" + d + name;
    assert v[1..] == d + name;
    assert |name| > 0 && !('0' <= name[0] <= '9');
    DigitsRun(d, name);
    assert (d + name)[..|d|] == d;
    assert (d + name)[|d|..] == name;
    DecimalRoundTrip(hat);
    assert Pow10(4) == 10000;
    DecimalLength(hat, 4);
    assert v != "nul" by { assert v[0] != "nul"[0]; }
    assert RunDigits(v[1..]) == |d| && 0 < |d| <= 10;
    assert ParseDecimal(v[1..][..|d|]) == hat;
    assert v[1..][|d|..] == name;
    MaskOfName(dir, name);
  }

  /** `save_keybind_axis`. */
  function SaveAxis(prefix: string, base: string, joyaxis: nat): (e: Entry)
    ensures e.Set? ==> e.key == Snprintf(prefix + "_" + base + "_axis", 64)
    ensures joyaxis == AXIS_NONE ==> e.Set? && e.value == "nul"
    ensures joyaxis != AXIS_NONE && AxisNegGet(joyaxis) != AXIS_DIR_NONE ==>
              e.Set? && e.value == "-" + Decimal(AxisNegGet(joyaxis))
    ensures joyaxis != AXIS_NONE && AxisNegGet(joyaxis) == AXIS_DIR_NONE && AxisPosGet(joyaxis) != AXIS_DIR_NONE ==>
              e.Set? && e.value == "+" + Decimal(AxisPosGet(joyaxis))
    ensures e.Nothing? <==> joyaxis != AXIS_NONE && AxisNegGet(joyaxis) == AXIS_DIR_NONE && AxisPosGet(joyaxis) == AXIS_DIR_NONE
    ensures !e.Abort?
  {
    var key := Snprintf(prefix + "_" + base + "_axis", 64);
    if joyaxis == AXIS_NONE then Set(key, "nul")
    else if AxisNegGet(joyaxis) != AXIS_DIR_NONE then Set(key, "-" + Decimal(AxisNegGet(joyaxis)))
    else if AxisPosGet(joyaxis) != AXIS_DIR_NONE then Set(key, "+" + Decimal(AxisPosGet(joyaxis)))
    else Nothing
  }

  /** Reading an axis value back: `nul`, `-N` or `+N`. */
  function ParseAxis(v: string): Option<nat>
  {
    if v == "nul" then Some(AXIS_NONE)
    else if 1 < |v| <= 6 && (v[0] == '-' || v[0] == '+') && RunDigits(v[1..]) == |v| - 1 then
      var n := ParseDecimal(v[1..]);
      if n >= 0xFFFF then None
      else if v[0] == '-' then Some(AxisNeg(n)) else Some(AxisPos(n))
    else None
  }

  /** Axis bindings made by the input layer read back unchanged. */
  lemma {:induction false} AxisRoundTrip(prefix: string, base: string, n: nat, negative: bool)
    requires n < 0xFFFF
    ensures var joyaxis := if negative then AxisNeg(n) else AxisPos(n);
            var e := SaveAxis(prefix, base, joyaxis);
            e.Set? && ParseAxis(e.value) == Some(joyaxis)
  {
    var c := if negative then '-' else '+';
    AxisParts(n);
    AxisParses(n, c);
  }

  lemma AxisParts(n: nat)
    requires n < 0xFFFF
    ensures AxisNeg(n) != AXIS_NONE && AxisNegGet(AxisNeg(n)) == n
    ensures AxisPos(n) != AXIS_NONE && AxisNegGet(AxisPos(n)) == AXIS_DIR_NONE && AxisPosGet(AxisPos(n)) == n
  {
  }

  lemma {:induction false} AxisParses(n: nat, c: char)
    requires n < 0xFFFF && (c == '-' || c == '+')
    ensures ParseAxis([c] + Decimal(n)) == Some(if c == '-' then AxisNeg(n) else AxisPos(n))
  {
    var d := Decimal(n);
    var v := [c] + d;
    assert Pow10(5) == 100000;
    DecimalLength(n, 5);
    DecimalRoundTrip(n);
    DigitsRun(d, "");
    assert d + "" == d;
    assert v[1..] == d;
    assert v != "nul" by { assert v[0] != "nul"[0]; }
    assert 1 < |v| <= 6 && v[0] == c && RunDigits(v[1..]) == |v| - 1;
    assert ParseDecimal(v[1..]) == n;
  }

  /** A keybind as `save_keybind` sees it; `keyName` is what
      `input_translate_rk_to_str` makes of its keyboard key. */
  datatype Keybind = Keybind(valid: bool, keyName: string, joykey: nat, joyaxis: nat)

  /** `save_keybind`: nothing for an invalid bind, otherwise the keyboard,
      button and axis entries in that order. */
  function SaveKeybind(prefix: string, base: string, b: Keybind): (r: seq<Entry>)
    requires b.joykey < U64_LIMIT
    ensures !b.valid <==> r == []
    ensures b.valid ==> |r| == 3 && r[0] == Set(Snprintf(prefix + "_" + base, 64), b.keyName)
    ensures b.valid ==> r[1].Set? || r[1].Abort?
  {
    if !b.valid then []
    else [Set(Snprintf(prefix + "_" + base, 64), b.keyName),
          SaveJoykey(prefix, base, b.joykey),
          SaveAxis(prefix, base, b.joyaxis)]
  }

  // --------------------------------------------------- directories, clamps

  /** How an empty directory setting is written. */
  function SaveDir(dir: string): (v: string)
    ensures |v| > 0
    ensures dir != "" ==> v == dir
  {
    if dir == "" then "default" else dir
  }

  /** `CONFIG_GET_PATH`: the entry when the key is present, the current
      setting otherwise. */
  function GetPath(current: string, entry: Option<string>): (v: string)
    ensures entry.Some? ==> v == entry.value
    ensures entry.None? ==> v == current
  {
    match entry
    case None => current
    case Some(e) => e
  }

  /** Loading a directory setting: the entry replaces the setting when the
      key is present, and then a setting reading `"default"` is emptied,
      whether it came from the file or was already there. */
  function LoadDir(current: string, entry: Option<string>): (dir: string)
    ensures GetPath(current, entry) == "default" ==> dir == ""
    ensures GetPath(current, entry) != "default" ==> dir == GetPath(current, entry)
    ensures dir != "default"
  {
    var v := GetPath(current, entry);
    if v == "default" then "" else v
  }

  /** A directory survives a save and reload, unless it is literally called
      `default`, which comes back empty; with the key missing, only a setting
      reading `default` changes. */
  lemma DirRoundTrip(current: string, dir: string)
    ensures dir != "default" ==> LoadDir(current, Some(SaveDir(dir))) == dir
    ensures dir == "default" ==> LoadDir(current, Some(SaveDir(dir))) == ""
    ensures current != "default" ==> LoadDir(current, None) == current
    ensures LoadDir("default", None) == ""
  {
  }

  /** The screenshot directory after `CONFIG_GET_PATH`: a non-empty setting
      reading `"default"` or not naming an existing directory
      (`isDirectory`, the answer of `path_is_directory` for it) is emptied;
      the checks run whether or not the key was present. */
  function LoadScreenshotDir(current: string, entry: Option<string>, isDirectory: bool): (dir: string)
    ensures dir == "" || dir == GetPath(current, entry)
    ensures dir != "" <==> GetPath(current, entry) != "" && GetPath(current, entry) != "default" && isDirectory
  {
    var v := GetPath(current, entry);
    if v == "" then ""
    else if v == "default" then ""
    else if !isDirectory then ""
    else v
  }

  /** A missing key does not protect a stale setting: one that is no longer
      a directory is dropped. */
  lemma ScreenshotDirRechecked(current: string)
    requires current != ""
    ensures LoadScreenshotDir(current, None, false) == ""
    ensures current != "default" ==> LoadScreenshotDir(current, None, true) == current
  {
  }

  /** `video_frame_delay`: read as an `int` into an `unsigned` setting and
      capped at 15, so a negative entry also ends at 15. */
  function LoadFrameDelay(current: nat, entry: Option<int>): (d: nat)
    requires current <= 15
    requires entry.Some? ==> -0x8000_0000 <= entry.value < 0x8000_0000
    ensures d <= 15
    ensures entry.None? ==> d == current
    ensures entry.Some? && 0 <= entry.value <= 15 ==> d == entry.value
    ensures entry.Some? && (entry.value < 0 || entry.value > 15) ==> d == 15
  {
    var v := match entry case None => current case Some(x) => U32(x);
    if v > 15 then 15 else v
  }

  datatype ConfigType = PerCore | PerGame

  /** `config_load`: the per-game file is tried only when content is loaded,
      and only a successful load makes the configuration per-game. */
  function ConfigTypeAfterLoad(haveBasename: bool, perGameLoads: bool): (t: ConfigType)
    ensures t == PerGame <==> haveBasename && perGameLoads
  {
    if haveBasename && perGameLoads then PerGame else PerCore
  }

  // ------------------------------------------------------------ save banner

  /** Start of the banner header up to the image data (0xA0 bytes). */
  const BANNER_TEXT_END: nat := 0xA0

  /** The bytes of a banner text: at most 31 characters, as the `snprintf`
      into 0x20 bytes leaves them. */
  function TextBytes(text: string): (b: seq<nat>)
    ensures |b| <= 31
  {
    var t := Snprintf(text, 0x20);
    seq(|t|, i requires 0 <= i < |t| => U8(t[i] as int))
  }

  /** The driver writes the text and then its terminating NUL. */
  function Field(text: string): (f: seq<nat>)
    ensures 1 <= |f| <= 32 && f[|f| - 1] == 0 && f[..|f| - 1] == TextBytes(text)
  {
    TextBytes(text) + [0]
  }

  /** Offset `k` is one of the first `n` odd offsets after `base`. */
  predicate Written(k: nat, base: nat, n: nat)
  {
    base < k < base + 2 * n && (k - base) % 2 == 1
  }

  /** Writes `f` at `base + 1`, `base + 3`, ... as the driver's loop does:
      one byte per odd offset, stopping after the NUL. The loop's own bound
      of 0x40 offsets is never reached, since a field has at most 32 bytes. */
  method WriteField(h: seq<nat>, base: nat, f: seq<nat>) returns (out: seq<nat>)
    requires 1 <= |f| <= 32 && base + 0x40 <= |h|
    ensures |out| == |h|
    ensures forall j :: 0 <= j < |f| ==> out[base + 1 + 2 * j] == f[j]
    ensures forall k :: 0 <= k < |h| && !Written(k, base, |f|) ==> out[k] == h[k]
  {
    out := h;
    var pos := 0;
    while pos < |f|
      invariant pos <= |f|
      invariant |out| == |h|
      invariant forall j :: 0 <= j < pos ==> out[base + 1 + 2 * j] == f[j]
      invariant forall k :: 0 <= k < |h| && !Written(k, base, pos) ==> out[k] == h[k]
    {
      WrittenNext(base, pos);
      out := out[base + 1 + 2 * pos := f[pos]];
      pos := pos + 1;
    }
  }

  /** The offsets written after one more byte. */
  lemma WrittenNext(base: nat, n: nat)
    ensures forall k :: Written(k, base, n + 1) <==> Written(k, base, n) || k == base + 1 + 2 * n
  {
  }

  /** The text part of the save banner (`config_set_defaults`): magic
      `WIBN`, the "no animation" flag in byte 9, then the title and the
      subtitle as UTF-16BE, each NUL-terminated. */
  method BannerHeader(title: string, subtitle: string) returns (h: seq<nat>)
    ensures |h| == BANNER_TEXT_END
    ensures h[..4] == [0x57, 0x49, 0x42, 0x4E] && h[9] == 2
    ensures forall k :: 4 <= k < |h| && k != 9 && (k < 0x21 || k % 2 == 0) ==> h[k] == 0
    ensures 0 !in TextBytes(title) ==> ReadField(h, 0x20) == TextBytes(title)
    ensures 0 !in TextBytes(subtitle) ==> ReadField(h, 0x60) == TextBytes(subtitle)
  {
    var h0 := BannerStart();
    var t := Field(title);
    var st := Field(subtitle);
    var h1 := WriteField(h0, 0x20, t);
    h := WriteField(h1, 0x60, st);
    HeaderFixedBytes(h0, h1, h, |t|, |st|);
    assert h[..4] == h0[..4];
    FieldsReadBack(h1, h, title, subtitle);
  }

  /** The header before the texts: magic, flag, zeroes. */
  function BannerStart(): (h: seq<nat>)
    ensures |h| == BANNER_TEXT_END && h[..4] == [0x57, 0x49, 0x42, 0x4E] && h[9] == 2
    ensures forall k :: 4 <= k < |h| && k != 9 ==> h[k] == 0
  {
    seq(BANNER_TEXT_END, k requires 0 <= k < BANNER_TEXT_END =>
      if k < 4 then [0x57, 0x49, 0x42, 0x4E][k] else if k == 9 then 2 else 0)
  }

  /** The title and subtitle written at 0x21 and 0x61 read back. */
  lemma FieldsReadBack(h1: seq<nat>, h: seq<nat>, title: string, subtitle: string)
    requires |h1| == |h| == BANNER_TEXT_END
    requires forall j :: 0 <= j < |Field(title)| ==> h1[0x20 + 1 + 2 * j] == Field(title)[j]
    requires forall j :: 0 <= j < |Field(subtitle)| ==> h[0x60 + 1 + 2 * j] == Field(subtitle)[j]
    requires forall k :: 0 <= k < |h1| && !Written(k, 0x60, |Field(subtitle)|) ==> h[k] == h1[k]
    ensures 0 !in TextBytes(title) ==> ReadField(h, 0x20) == TextBytes(title)
    ensures 0 !in TextBytes(subtitle) ==> ReadField(h, 0x60) == TextBytes(subtitle)
  {
    var t := Field(title);
    var st := Field(subtitle);
    if 0 !in TextBytes(title) {
      TitleSurvives(h1, h, t, |st|);
      ReadBack(h, 0x20, t, 0);
      assert t[0..|t| - 1] == TextBytes(title);
    }
    if 0 !in TextBytes(subtitle) {
      ReadBack(h, 0x60, st, 0);
      assert st[0..|st| - 1] == TextBytes(subtitle);
    }
  }

  /** Bytes outside both fields' odd offsets keep their initial value. */
  lemma HeaderFixedBytes(h0: seq<nat>, h1: seq<nat>, h: seq<nat>, n1: nat, n2: nat)
    requires |h0| == |h1| == |h|
    requires forall k :: 0 <= k < |h0| && !Written(k, 0x20, n1) ==> h1[k] == h0[k]
    requires forall k :: 0 <= k < |h1| && !Written(k, 0x60, n2) ==> h[k] == h1[k]
    ensures forall k :: 0 <= k < |h| && (k < 0x21 || k % 2 == 0) ==> h[k] == h0[k]
  {
    forall k | 0 <= k < |h| && (k < 0x21 || k % 2 == 0) ensures h[k] == h0[k] {
      assert !Written(k, 0x20, n1) && !Written(k, 0x60, n2);
    }
  }

  /** The subtitle, written at 0x61 onwards, leaves the title's bytes
      alone. */
  lemma TitleSurvives(h1: seq<nat>, h: seq<nat>, t: seq<nat>, n2: nat)
    requires |t| <= 32 && |h1| == |h| && 0x60 <= |h|
    requires forall j :: 0 <= j < |t| ==> h1[0x20 + 1 + 2 * j] == t[j]
    requires forall k :: 0 <= k < |h1| && !Written(k, 0x60, n2) ==> h[k] == h1[k]
    ensures forall j :: 0 <= j < |t| ==> h[0x20 + 1 + 2 * j] == t[j]
  {
    forall j | 0 <= j < |t| ensures h[0x20 + 1 + 2 * j] == t[j] {
      assert !Written(0x20 + 1 + 2 * j, 0x60, n2);
    }
  }

  /** Reading a text field back: the odd bytes after `base` up to the NUL,
      at most 32 of them. */
  function ReadField(h: seq<nat>, base: nat): seq<nat>
  {
    ReadFrom(h, base, 0)
  }

  function ReadFrom(h: seq<nat>, base: nat, i: nat): seq<nat>
    decreases 32 - i
  {
    if i >= 32 || base + 1 + 2 * i >= |h| || h[base + 1 + 2 * i] == 0 then []
    else [h[base + 1 + 2 * i]] + ReadFrom(h, base, i + 1)
  }

  lemma {:induction false} ReadBack(h: seq<nat>, base: nat, f: seq<nat>, i: nat)
    requires 1 <= |f| <= 32 && base + 0x40 <= |h| && i < |f|
    requires f[|f| - 1] == 0 && forall j :: 0 <= j < |f| - 1 ==> f[j] != 0
    requires forall j :: 0 <= j < |f| ==> h[base + 1 + 2 * j] == f[j]
    ensures ReadFrom(h, base, i) == f[i..|f| - 1]
    decreases |f| - i
  {
    if i < |f| - 1 {
      ReadBack(h, base, f, i + 1);
      assert f[i..|f| - 1] == [f[i]] + f[i + 1..|f| - 1];
    }
  }

  // ------------------------------------------------------------ viewport

  datatype Viewport = Viewport(x: nat, y: nat, width: nat, height: nat)

  datatype Resolution = Keep | Res640x240 | Res384x240 | Res384x480

  /** Byte `i` of a file, or 0 past its end. */
  function ByteOr0(f: seq<bv8>, i: nat): bv8
  {
    if i < |f| then f[i] else 0
  }

  /** The word the NEMO build reads from the title's `core.cfg`: `fread` of
      four bytes at offset 0x18 into a zeroed `unsigned` on the big-endian
      CPU. Bytes past the end of the file, or a missing file, stay zero. */
  function StoredWord(file: Option<seq<bv8>>): bv32
  {
    if file.None? then 0
    else
      var f := file.value;
      (ByteOr0(f, 0x18) as bv32 << 24) | (ByteOr0(f, 0x19) as bv32 << 16) |
      (ByteOr0(f, 0x1A) as bv32 << 8) | ByteOr0(f, 0x1B) as bv32
  }

  /** Whether the title's configuration asks for the 384-pixel VI scale: the
      stored word masked with 0xFF0000 must equal 0x4E0000, which is the file
      byte at offset 0x19 reading 'N'. */
  function ViScale(file: Option<seq<bv8>>): (r: bool)
    ensures r <==> file.Some? && |file.value| > 0x19 && file.value[0x19] == 0x4E
  {
    StoredWord(file) & 0xFF_0000 == 0x4E_0000
  }

  /** Viewport and resolution defaults of `config_set_defaults` (HW_RVL
      build; `nemo` is the USE_NEMO build flag). */
  function DefaultViewport(doubleStrike: bool, wide: bool, nemo: bool, viScale: bool): (r: (Viewport, Resolution))
    ensures doubleStrike ==> r.0.height == 224 && r.0.y == 8 && r.0.x == 0
    ensures doubleStrike && !(nemo && viScale) ==> r == (Viewport(0, 8, 640, 224), Res640x240)
    ensures !doubleStrike ==> r.0.height == 448 && r.0.y == 16
    ensures !doubleStrike && wide ==> r.0 == Viewport(80, 16, 480, 448) && r.1 == Keep
    ensures !doubleStrike && !wide && !(nemo && viScale) ==> r == (Viewport(0, 16, 640, 448), Keep)
    ensures nemo && viScale && (doubleStrike || !wide) ==>
              r.0.width == 384 && r.1 == (if doubleStrike then Res384x240 else Res384x480)
  {
    if doubleStrike then
      if nemo && viScale then (Viewport(0, 8, 384, 224), Res384x240)
      else (Viewport(0, 8, 640, 224), Res640x240)
    else
      var vp := Viewport(if wide then (640 - 480) / 2 else 0, 16, if wide then (640 * 3) / 4 else 640, 448);
      if nemo && viScale && !wide then (vp.(width := 384), Res384x480) else (vp, Keep)
  }

  /** In the NEMO build the title's `core.cfg` decides the scale: the default
      viewport is 384 wide exactly when byte 0x19 reads 'N' and the output is
      double strike or 4:3. */
  lemma NemoScaleFromFile(doubleStrike: bool, wide: bool, file: Option<seq<bv8>>)
    ensures DefaultViewport(doubleStrike, wide, true, ViScale(file)).0.width == 384 <==>
              (doubleStrike || !wide) && file.Some? && |file.value| > 0x19 && file.value[0x19] == 0x4E
  {
  }

  /** Unless the VI scale narrows it, the default viewport is centred in the
      640-pixel frame and vertically in the 240- or 480-line field. */
  lemma ViewportCentred(doubleStrike: bool, wide: bool, nemo: bool, viScale: bool)
    requires !(nemo && viScale)
    ensures var vp := DefaultViewport(doubleStrike, wide, nemo, viScale).0;
            2 * vp.x + vp.width == 640 &&
            2 * vp.y + vp.height == (if doubleStrike then 240 else 480)
  {
  }
}
