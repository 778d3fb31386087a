/** The argument block the Wii loader hands to the next program
    (`dol_copy_argv_path` in frontend/platform/platform_wii.c): a libogc
    `struct __argv` header at `ARGS_ADDR` followed by a command line of
    NUL-terminated strings. The path helpers follow libretro-common's
    `fill_pathname_parent_dir`; file/file_path.c is not part of this model. */
module WiiArgv {
  import opened Wrappers
  import opened Text

  const NUL: char := '\0'
  const PATH_MAX: nat := 4096

  /** libogc's argument block: `ARGV_MAGIC` (`"_arg"`), its address, and the
      size of `struct __argv` (six 32-bit words). */
  const ARGV_MAGIC: nat := 0x5f61_7267
  const ARGS_ADDR: nat := 0x9320_0000
  const ARGV_HEADER_SIZE: nat := 24

  /** A C string holds no NUL. */
  predicate CString(s: string) { NUL !in s }

  /** Position of the last `c` in `s` (`strrchr`). */
  function LastIndex(s: string, c: char): (r: Option<nat>)
    ensures r.Some? ==> r.value < |s| && s[r.value] == c
    ensures r.Some? ==> forall j :: r.value < j < |s| ==> s[j] != c
    ensures r.None? <==> c !in s
  {
    if |s| == 0 then None
    else if s[|s| - 1] == c then Some(|s| - 1)
    else LastIndex(s[..|s| - 1], c)
  }

  /** `path_basedir`: a path of fewer than two characters is kept; otherwise
      everything up to and including the last slash, or "./" without one. */
  function BaseDir(p: string): (r: string)
    ensures |p| < 2 ==> r == p
    ensures |p| >= 2 && '/' in p ==> |r| > 0 && r[|r| - 1] == '/' && r <= p && '/' !in p[|r|..]
    ensures |p| >= 2 && '/' !in p ==> r == "./"
  {
    if |p| < 2 then p
    else match LastIndex(p, '/')
      case Some(k) => p[..k + 1]
      case None => "./"
  }

  /** `fill_pathname_parent_dir`: one trailing slash is dropped, then the
      base directory is taken. The copy into a `PATH_MAX` buffer is asserted
      not to truncate. */
  function ParentDir(path: string): (r: string)
    requires |path| < PATH_MAX
    ensures |r| <= |path| || r == "./"
  {
    var p := if |path| > 0 && path[|path| - 1] == '/' then path[..|path| - 1] else path;
    BaseDir(p)
  }

  /** The text after the last slash (`strrchr(argpath, '/') + 1`). */
  function Basename(path: string): (r: string)
    requires '/' in path
    ensures '/' !in r && |r| < |path| && r == path[|path| - |r|..]
  {
    var k := LastIndex(path, '/').value;
    path[k + 1..]
  }

  /** A path that does not end in a slash is its parent directory followed by
      its basename: the loader can rebuild the game path from the two
      fields. */
  lemma ParentThenBasename(path: string)
    requires |path| < PATH_MAX && '/' in path && path[|path| - 1] != '/'
    ensures ParentDir(path) + Basename(path) == path
  {
    var k := LastIndex(path, '/').value;
    assert ParentDir(path) == path[..k + 1];
  }

  predicate StartsWith(s: string, pre: string) { pre <= s }

  /** A DOL path naming its device explicitly. */
  predicate HasDevice(dolpath: string)
  {
    StartsWith(dolpath, "sd:/") || StartsWith(dolpath, "usb:/") ||
    StartsWith(dolpath, "carda:/") || StartsWith(dolpath, "cardb:/")
  }

  predicate DeviceLess(dolpath: string) { |dolpath| > 0 && dolpath[0] == '/' }

  /** The text put before the DOL path: the device of `argv[0]` (up to and
      including its first colon) for a device-less full path, the directory
      of `argv[0]` for a relative path, and nothing for a path that names its
      device. */
  function Prefix(dolpath: string, argv0: string): (r: string)
    requires DeviceLess(dolpath) ==> ':' in argv0
    requires !DeviceLess(dolpath) && !HasDevice(dolpath) ==> |argv0| < PATH_MAX
    ensures DeviceLess(dolpath) ==>
              r <= argv0 && |r| > 0 && r[|r| - 1] == ':' && ':' !in r[..|r| - 1]
    ensures !DeviceLess(dolpath) && HasDevice(dolpath) ==> r == ""
    ensures !DeviceLess(dolpath) && !HasDevice(dolpath) ==> r == ParentDir(argv0)
  {
    if DeviceLess(dolpath) then
      var i := IndexOf(argv0, ':').value;
      assert argv0[..i + 1][..i] == argv0[..i];
      argv0[..i + 1]
    else if !HasDevice(dolpath) then ParentDir(argv0)
    else ""
  }

  /** The strings of the command line, in order: the prefixed DOL path, then
      (for a game path with a slash) its directory and its file name. */
  function Entries(dolpath: string, argpath: Option<string>, argv0: string): (r: seq<string>)
    requires DeviceLess(dolpath) ==> ':' in argv0
    requires !DeviceLess(dolpath) && !HasDevice(dolpath) ==> |argv0| < PATH_MAX
    requires argpath.Some? && '/' in argpath.value ==> |argpath.value| < PATH_MAX
    ensures |r| == 1 || |r| == 3
    ensures r[0] == Prefix(dolpath, argv0) + dolpath
    ensures |r| == 3 <==> argpath.Some? && '/' in argpath.value
  {
    var first := [Prefix(dolpath, argv0) + dolpath];
    if argpath.Some? && '/' in argpath.value then
      first + [ParentDir(argpath.value), Basename(argpath.value)]
    else first
  }

  /** Each string followed by its NUL. */
  function Terminate(fs: seq<string>): (r: string)
    ensures |fs| > 0 ==> |r| > 0 && r[|r| - 1] == NUL
  {
    if |fs| == 0 then "" else fs[0] + [NUL] + Terminate(fs[1..])
  }

  /** How a loader reads the command line back: NUL-terminated strings, the
      last one possibly unterminated. */
  function Unterminate(s: string): (r: seq<string>)
    ensures forall i :: 0 <= i < |r| ==> CString(r[i])
    decreases |s|
  {
    if |s| == 0 then []
    else
      var n := RunLength(s, NUL);
      [s[..n]] + (if n < |s| then Unterminate(s[n + 1..]) else [])
  }

  /** The first string of a command line ends at its NUL. */
  lemma FirstString(f: string, rest: string)
    requires CString(f)
    ensures var s := f + [NUL] + rest;
            RunLength(s, NUL) == |f| && s[..|f|] == f && s[|f| + 1..] == rest
  {
    var s := f + [NUL] + rest;
    assert s == f + ([NUL] + rest);
    if |f| > 0 {
      RunOfToken(f, NUL, [NUL] + rest);
    }
    assert s[..|f|] == f;
    assert s[|f| + 1..] == rest;
  }

  /** Reading back NUL-terminated C strings gives the strings written. */
  lemma {:induction false} UnterminateTerminate(fs: seq<string>)
    requires forall i :: 0 <= i < |fs| ==> CString(fs[i])
    ensures Unterminate(Terminate(fs)) == fs
  {
    if |fs| > 0 {
      var rest := Terminate(fs[1..]);
      FirstString(fs[0], rest);
      UnterminateTerminate(fs[1..]);
      assert Unterminate(Terminate(fs)) == [fs[0]] + Unterminate(rest);
    }
  }

  /** The bytes `dol_copy_argv_path` writes after the header: every entry
      NUL-terminated, then one more NUL. */
  function CommandLine(dolpath: string, argpath: Option<string>, argv0: string): (r: string)
    requires DeviceLess(dolpath) ==> ':' in argv0
    requires !DeviceLess(dolpath) && !HasDevice(dolpath) ==> |argv0| < PATH_MAX
    requires argpath.Some? && '/' in argpath.value ==> |argpath.value| < PATH_MAX
    ensures |r| >= 2 && r[|r| - 2] == NUL && r[|r| - 1] == NUL
    ensures |r| > |Prefix(dolpath, argv0) + dolpath|
  {
    Terminate(Entries(dolpath, argpath, argv0)) + [NUL]
  }

  /** `struct __argv`: the fields `dol_copy_argv_path` sets, the others as
      its `memset` leaves them. */
  datatype Header = Header(argvMagic: nat, commandLine: nat, length: nat,
                           argc: nat, argv: nat, endArgv: nat)

  /** The whole argument block: the header and the command line after it. */
  function ArgvBlock(dolpath: string, argpath: Option<string>, argv0: string): (r: (Header, string))
    requires DeviceLess(dolpath) ==> ':' in argv0
    requires !DeviceLess(dolpath) && !HasDevice(dolpath) ==> |argv0| < PATH_MAX
    requires argpath.Some? && '/' in argpath.value ==> |argpath.value| < PATH_MAX
    ensures r.0.argvMagic == ARGV_MAGIC && r.0.commandLine == ARGS_ADDR + ARGV_HEADER_SIZE
    ensures r.0.length == |r.1| && r.0.argc == 0 && r.0.argv == 0 && r.0.endArgv == 0
    ensures r.1 == CommandLine(dolpath, argpath, argv0)
  {
    var cmd := CommandLine(dolpath, argpath, argv0);
    (Header(ARGV_MAGIC, ARGS_ADDR + ARGV_HEADER_SIZE, |cmd|, 0, 0, 0), cmd)
  }

  /** A loader reading the command line finds the prefixed DOL path, then the
      game's directory and file name (which together give back a game path
      not ending in a slash), then the empty string of the final NUL. */
  lemma CommandLineFields(dolpath: string, argpath: Option<string>, argv0: string)
    requires CString(dolpath) && CString(argv0) && (argpath.Some? ==> CString(argpath.value))
    requires DeviceLess(dolpath) ==> ':' in argv0
    requires !DeviceLess(dolpath) && !HasDevice(dolpath) ==> |argv0| < PATH_MAX
    requires argpath.Some? && '/' in argpath.value ==> |argpath.value| < PATH_MAX
    ensures var f := Unterminate(CommandLine(dolpath, argpath, argv0));
            var e := Entries(dolpath, argpath, argv0);
            f == e + [""] &&
            f[0] == Prefix(dolpath, argv0) + dolpath &&
            (|e| == 3 && argpath.value[|argpath.value| - 1] != '/' ==> f[1] + f[2] == argpath.value)
  {
    var e := Entries(dolpath, argpath, argv0);
    CommandLineReads(dolpath, argpath, argv0);
    if |e| == 3 && argpath.value[|argpath.value| - 1] != '/' {
      ParentThenBasename(argpath.value);
    }
  }

  /** Reading the command line back gives its entries and one empty
      string. */
  lemma CommandLineReads(dolpath: string, argpath: Option<string>, argv0: string)
    requires CString(dolpath) && CString(argv0) && (argpath.Some? ==> CString(argpath.value))
    requires DeviceLess(dolpath) ==> ':' in argv0
    requires !DeviceLess(dolpath) && !HasDevice(dolpath) ==> |argv0| < PATH_MAX
    requires argpath.Some? && '/' in argpath.value ==> |argpath.value| < PATH_MAX
    ensures Unterminate(CommandLine(dolpath, argpath, argv0)) == Entries(dolpath, argpath, argv0) + [""]
  {
    var e := Entries(dolpath, argpath, argv0);
    EntriesAreCStrings(dolpath, argpath, argv0);
    calc {
      Unterminate(CommandLine(dolpath, argpath, argv0));
      Unterminate(Terminate(e) + [NUL]);
      { TerminateSnoc(e); }
      Unterminate(Terminate(e + [""]));
      { UnterminateTerminate(e + [""]); }
      e + [""];
    }
  }

  /** No entry of the command line holds a NUL of its own. */
  lemma EntriesAreCStrings(dolpath: string, argpath: Option<string>, argv0: string)
    requires CString(dolpath) && CString(argv0) && (argpath.Some? ==> CString(argpath.value))
    requires DeviceLess(dolpath) ==> ':' in argv0
    requires !DeviceLess(dolpath) && !HasDevice(dolpath) ==> |argv0| < PATH_MAX
    requires argpath.Some? && '/' in argpath.value ==> |argpath.value| < PATH_MAX
    ensures var e := Entries(dolpath, argpath, argv0) + [""];
            forall i :: 0 <= i < |e| ==> CString(e[i])
  {
    var e := Entries(dolpath, argpath, argv0);
    assert CString(Prefix(dolpath, argv0)) by {
      if !DeviceLess(dolpath) && !HasDevice(dolpath) {
        CStringParent(argv0);
      }
    }
    if |e| == 3 {
      CStringParent(argpath.value);
    }
  }

  /** The parent directory of a C string is a C string. */
  lemma CStringParent(path: string)
    requires |path| < PATH_MAX && CString(path)
    ensures CString(ParentDir(path))
  {
    var p := if |path| > 0 && path[|path| - 1] == '/' then path[..|path| - 1] else path;
    assert CString(p);
  }

  /** The final NUL reads as one more, empty, string. */
  lemma {:induction false} TerminateSnoc(fs: seq<string>)
    ensures Terminate(fs) + [NUL] == Terminate(fs + [""])
  {
    if |fs| > 0 {
      assert (fs + [""])[1..] == fs[1..] + [""];
      TerminateSnoc(fs[1..]);
    }
  }
}
