/** The GameCube/Wii joypad driver (input/gx_input_joypad.c): the button and
    half-axis queries, the GameCube-controller branch of the poll with its
    key profiles, menu combos and stick scaling, the lifecycle bits derived
    from port 0 and the reset and power buttons. A 64-bit state word is
    modelled as the set of its set bits; `analog[port][2 * stick + axis]`
    holds `analog_state[port][stick][axis]`. */
module GxJoypad {
  import opened Wrappers
  import opened Machine
  import opened Binds

  /** Button bit numbers of the driver's enum, as built without HW_RVL. */
  const GC_L_TRIGGER: nat := 6
  const GC_R_TRIGGER: nat := 7
  const CLASSIC_HOME: nat := 26
  const WIIMOTE_A: nat := 43
  const WIIMOTE_B: nat := 44
  const WIIMOTE_1: nat := 45
  const WIIMOTE_2: nat := 46
  const WIIMOTE_PLUS: nat := 47
  const WIIMOTE_MINUS: nat := 48
  const WIIMOTE_HOME: nat := 49
  const WIIMOTE_UP: nat := 50
  const WIIMOTE_DOWN: nat := 51
  const WIIMOTE_LEFT: nat := 52
  const WIIMOTE_RIGHT: nat := 53
  const QUIT_KEY: nat := 60

  type Word = set<nat>

  /** The driver state: per-port button words and analog values, the
      frontend's lifecycle word, and the three requests the reset and power
      callbacks leave for the next poll. */
  datatype Joy = Joy(pads: seq<Word>, analog: seq<seq<int>>, lifecycle: Word,
                     menuReq: bool, resetReq: bool, quitReq: bool)

  predicate Int16(v: int) { -0x8000 <= v < 0x8000 }

  predicate PortAnalog(a: seq<int>)
  {
    |a| == 4 && Int16(a[0]) && Int16(a[1]) && Int16(a[2]) && Int16(a[3])
  }

  predicate Valid(j: Joy)
  {
    |j.pads| == |j.analog| && forall p :: 0 <= p < |j.analog| ==> PortAnalog(j.analog[p])
  }

  /** The frontend's meta-key bit numbers (input/driver.h). */
  datatype MetaKeys = MetaKeys(reset: nat, quit: nat, menuToggle: nat)

  /** The three lifecycle bits are different, and the reset bit is none of
      the pad bits the poll tests on port 0. */
  predicate Distinct(k: MetaKeys)
  {
    k.reset != k.quit && k.reset != k.menuToggle && k.quit != k.menuToggle &&
    k.reset != QUIT_KEY && k.reset != WIIMOTE_HOME && k.reset != CLASSIC_HOME
  }

  datatype Config = Config(keyProfile: int, menuCombos: nat, triggerThreshold: int,
                           homeShouldExit: bool, rguiReset: bool, rvl: bool)

  // ------------------------------------------------------------- queries

  /** `gx_joypad_button`: the code arrives as a `uint16_t`, and the answer is
      that bit of the port's word. A shift by 64 or more is undefined in C
      and is taken as reading no bit. */
  function Button(j: Joy, port: nat, joykey: nat): (r: bool)
    ensures joykey < U16_LIMIT ==> (r <==> port < |j.pads| && joykey < 64 && joykey in j.pads[port])
    ensures r ==> port < |j.pads| && joykey % U16_LIMIT < 64
  {
    var k := U16(joykey);
    port < |j.pads| && k < 64 && k in j.pads[port]
  }

  /** Codes that agree in their low 16 bits read the same bit. */
  lemma ButtonTruncates(j: Joy, port: nat, joykey: nat)
    ensures Button(j, port, joykey) == Button(j, port, joykey % U16_LIMIT)
  {
  }

  /** `gx_joypad_axis`. */
  function Axis(j: Joy, port: nat, joyaxis: nat): (r: int)
    requires Valid(j)
    ensures joyaxis == AXIS_NONE || port >= |j.pads| ==> r == 0
    ensures AxisNegGet(joyaxis) < 4 ==> -0x8000 <= r <= 0
    ensures AxisNegGet(joyaxis) >= 4 ==> 0 <= r < 0x8000
  {
    if joyaxis == AXIS_NONE || port >= |j.pads| then 0
    else if AxisNegGet(joyaxis) < 4 then
      var val := j.analog[port][AxisNegGet(joyaxis)];
      if val > 0 then 0 else val
    else if AxisPosGet(joyaxis) < 4 then
      var val := j.analog[port][AxisPosGet(joyaxis)];
      if val < 0 then 0 else val
    else 0
  }

  /** Axis ids 0 to 3 read the matching analog cell, clipped to the half
      the code names. */
  lemma AxisReadsHalf(j: Joy, port: nat, n: nat)
    requires Valid(j) && port < |j.pads| && n < 4
    ensures Axis(j, port, AxisNeg(n)) == Min(j.analog[port][n], 0)
    ensures Axis(j, port, AxisPos(n)) == Max(j.analog[port][n], 0)
  {
    AxisCodes(n);
  }

  /** `gx_joypad_query_pad`. The read of `pad_state[pad]` is in bounds only
      for pads below the pad count. */
  function QueryPad(j: Joy, maxPlayers: nat, pad: nat): (r: bool)
    requires pad < maxPlayers ==> pad < |j.pads|
    ensures r ==> pad < maxPlayers
  {
    pad < maxPlayers && j.pads[pad] != {}
  }

  /** A pad that reports any button is present. */
  lemma QueryPadSeesButton(j: Joy, maxPlayers: nat, pad: nat, joykey: nat)
    requires pad < maxPlayers && pad < |j.pads|
    ensures Button(j, pad, joykey) ==> QueryPad(j, maxPlayers, pad)
  {
  }

  // ------------------------------------------------- GameCube controller read

  datatype GcButton = A | B | X | Y | L | R | Up | Down | Left | Right | Start | Z

  /** One GameCube controller sample: the button word (held or newly
      pressed, by configuration), the analog trigger depths and the signed
      8-bit stick positions. */
  datatype GcRead = GcRead(down: set<GcButton>, triggerL: int, triggerR: int,
                           stickX: int, stickY: int, substickX: int, substickY: int)

  predicate S8(v: int) { -128 <= v < 128 }

  predicate ValidRead(r: Option<GcRead>)
  {
    r.Some? ==> S8(r.value.stickX) && S8(r.value.stickY) &&
                S8(r.value.substickX) && S8(r.value.substickY)
  }

  function Bit(c: bool, b: nat): Word { if c then {b} else {} }

  const ALL_BUTTONS: set<GcButton> := {A, B, X, Y, L, R, Up, Down, Left, Right, Start, Z}

  lemma AllButtonsListed()
    ensures forall k: GcButton :: k in ALL_BUTTONS
  {
    forall k: GcButton ensures k in ALL_BUTTONS {
      match k
      case A => case B => case X => case Y => case L => case R =>
      case Up => case Down => case Left => case Right => case Start => case Z =>
    }
  }

  /** Whether a sample presses a button. A trigger also counts as pressed
      when its analog depth exceeds the threshold. */
  predicate Pressed(cfg: Config, r: GcRead, k: GcButton)
  {
    k in r.down ||
    (k == L && r.triggerL > cfg.triggerThreshold) ||
    (k == R && r.triggerR > cfg.triggerThreshold)
  }

  /** The bit a GameCube button sets under a key profile. Profiles other
      than 0, 1 and 2 map no face button or trigger; the d-pad, Start and Z
      map the same way under all of them. */
  function Target(profile: int, k: GcButton): (r: Option<nat>)
    ensures r.Some? ==> r.value < 64 && r.value != WIIMOTE_HOME
    ensures k in {Up, Down, Left, Right, Start, Z} ==> r.Some?
    ensures !(0 <= profile <= 2) ==> (r.Some? <==> k in {Up, Down, Left, Right, Start, Z})
    ensures profile == 1 ==> r != Some(GC_L_TRIGGER) && r != Some(GC_R_TRIGGER)
  {
    match k
    case Up => Some(WIIMOTE_UP)
    case Down => Some(WIIMOTE_DOWN)
    case Left => Some(WIIMOTE_LEFT)
    case Right => Some(WIIMOTE_RIGHT)
    case Start => Some(WIIMOTE_PLUS)
    case Z => Some(WIIMOTE_MINUS)
    case A => if 0 <= profile <= 2 then Some(WIIMOTE_2) else None
    case B => if 0 <= profile <= 2 then Some(WIIMOTE_1) else None
    case X =>
      if profile == 1 then Some(WIIMOTE_2) else if profile == 0 then Some(WIIMOTE_B)
      else if profile == 2 then Some(WIIMOTE_A) else None
    case Y =>
      if profile == 1 then Some(WIIMOTE_1) else if profile == 0 then Some(WIIMOTE_A)
      else if profile == 2 then Some(WIIMOTE_B) else None
    case L =>
      if profile == 1 then Some(WIIMOTE_B) else if profile == 0 || profile == 2 then Some(GC_L_TRIGGER)
      else None
    case R =>
      if profile == 1 then Some(WIIMOTE_A) else if profile == 0 || profile == 2 then Some(GC_R_TRIGGER)
      else None
  }

  /** The d-pad, Start and Z map the same under every profile; the SNES
      profiles 0 and 2 give every button its own bit, while the default
      profile 1 folds X onto A and Y onto B. */
  lemma TargetProfiles(profile: int, k: GcButton, k2: GcButton)
    ensures k in {Up, Down, Left, Right, Start, Z} ==> Target(profile, k) == Target(0, k)
    ensures (profile == 0 || profile == 2) && Target(profile, k) == Target(profile, k2) ==> k == k2
    ensures Target(1, X) == Target(1, A) && Target(1, Y) == Target(1, B)
  {
  }

  /** The bits one sample sets under the configured key profile: the
      targets of the pressed buttons, and nothing else. */
  function ProfileBits(cfg: Config, r: GcRead): (w: Word)
    ensures forall k :: Pressed(cfg, r, k) && Target(cfg.keyProfile, k).Some? ==>
                          Target(cfg.keyProfile, k).value in w
    ensures forall b :: b in w ==> exists k :: Pressed(cfg, r, k) && Target(cfg.keyProfile, k) == Some(b)
  {
    AllButtonsListed();
    set k | k in ALL_BUTTONS && Pressed(cfg, r, k) && Target(cfg.keyProfile, k).Some? ::
      Target(cfg.keyProfile, k).value
  }

  /** The button set a menu-combo setting asks for: 1 is Plus, Minus and both
      triggers; any other nonzero value is Plus, B and 1. */
  function Combo(mode: nat): (w: Word)
    requires mode != 0
    ensures WIIMOTE_PLUS in w && WIIMOTE_HOME !in w
    ensures forall b :: b in w ==> b < 64
    ensures GC_L_TRIGGER in w && GC_R_TRIGGER in w <==> mode == 1
  {
    if mode == 1 then {WIIMOTE_PLUS, WIIMOTE_MINUS, GC_L_TRIGGER, GC_R_TRIGGER}
    else {WIIMOTE_PLUS, WIIMOTE_B, WIIMOTE_1}
  }

  /** Holding every button of the selected combo adds the HOME bit. */
  function WithCombo(w: Word, mode: nat): (r: Word)
    ensures w <= r && r - w <= {WIIMOTE_HOME}
    ensures WIIMOTE_HOME in r <==> WIIMOTE_HOME in w || (mode != 0 && Combo(mode) <= w)
  {
    if mode != 0 && Combo(mode) <= w then w + {WIIMOTE_HOME} else w
  }

  /** Under profile 0, Start, Z and both triggers open the menu with combo
      setting 1. */
  lemma ComboOneReachable(cfg: Config, r: GcRead)
    requires cfg.keyProfile == 0 && cfg.menuCombos == 1
    requires {Start, Z, L, R} <= r.down
    ensures WIIMOTE_HOME in WithCombo(ProfileBits(cfg, r), cfg.menuCombos)
  {
    var w := ProfileBits(cfg, r);
    assert Pressed(cfg, r, Start) && Pressed(cfg, r, Z) && Pressed(cfg, r, L) && Pressed(cfg, r, R);
    assert Combo(1) <= w;
  }

  /** Profile 1 maps the triggers to Wii Remote buttons, so combo setting 1
      can never fire from a GameCube controller under it. */
  lemma ComboOneNeedsTriggerBits(cfg: Config, r: GcRead)
    requires cfg.keyProfile == 1 && cfg.menuCombos == 1
    ensures WithCombo(ProfileBits(cfg, r), 1) == ProfileBits(cfg, r)
  {
    var w := ProfileBits(cfg, r);
    assert GC_L_TRIGGER !in w;
  }

  /** The stored stick value as written: the 8-bit position times 256
      (negated for the Y axes) is kept in an `int16_t`, so the product
      32768 wraps round. */
  function StickAsWritten(raw: int, negate: bool): (v: int)
    requires S8(raw)
    ensures Int16(v)
  {
    I16(if negate then raw * -256 else raw * 256)
  }

  /** The end-of-poll replacement of -0x8000 by -0x7fff. */
  function Normalise(v: int): (r: int)
    ensures r != -0x8000
    ensures v != -0x8000 ==> r == v
    ensures Int16(v) ==> Int16(r)
  {
    if v == -0x8000 then -0x7fff else v
  }

  /** Pushing the stick all the way down (raw -128) stores -0x8000, which
      the normalisation turns into -0x7fff: a full deflection upwards. */
  lemma StickFullDownReadsUp()
    ensures Normalise(StickAsWritten(-128, true)) == -0x7fff
    ensures Normalise(StickAsWritten(127, true)) == -0x7f00
  {
  }

  /** The scaled stick value clamped to [-0x7fff, 0x7fff]. */
  function Stick(raw: int, negate: bool): (v: int)
    requires S8(raw)
    ensures -0x7fff <= v <= 0x7fff
    ensures raw == 0 <==> v == 0
    ensures (raw > 0) == negate ==> v <= 0
    ensures (raw < 0) == negate ==> v >= 0
  {
    var p := if negate then raw * -256 else raw * 256;
    Min(Max(p, -0x7fff), 0x7fff)
  }

  /** The clamp agrees with the stored value at every position except the
      one whose product does not fit. */
  lemma StickAgreesAsWritten(raw: int, negate: bool)
    requires S8(raw) && !(negate && raw == -128)
    ensures Stick(raw, negate) == Normalise(StickAsWritten(raw, negate))
  {
  }

  function Sticks(r: GcRead, clamp: bool): (a: seq<int>)
    requires ValidRead(Some(r))
    ensures PortAnalog(a)
  {
    if clamp then [Stick(r.stickX, false), Stick(r.stickY, true),
                   Stick(r.substickX, false), Stick(r.substickY, true)]
    else [Normalise(StickAsWritten(r.stickX, false)), Normalise(StickAsWritten(r.stickY, true)),
          Normalise(StickAsWritten(r.substickX, false)), Normalise(StickAsWritten(r.substickY, true))]
  }

  function NormaliseAll(a: seq<int>): (r: seq<int>)
    requires PortAnalog(a)
    ensures PortAnalog(r)
    ensures forall i :: 0 <= i < 4 ==> r[i] != -0x8000
  {
    [Normalise(a[0]), Normalise(a[1]), Normalise(a[2]), Normalise(a[3])]
  }

  // -------------------------------------------------------------------- poll

  /** One port of the poll. On the Wii a port whose Wii Remote (or the 3DS
      pad) answers takes the Wii-side branch, whose finished button word
      `wpad` is ORed in; how that word is derived from WPAD data is not
      modelled. Otherwise a connected GameCube controller ORs its bits into
      the port's word; an absent one leaves the word. */
  function PortBits(w: Word, read: Option<GcRead>, wpad: Option<Word>, cfg: Config): Word
  {
    if wpad.Some? then w + wpad.value
    else if read.None? then w
    else WithCombo(w + ProfileBits(cfg, read.value), cfg.menuCombos)
  }

  /** A GameCube reading replaces the analog values; otherwise they stay.
      The analog values are normalised either way. */
  function PortSticks(a: seq<int>, read: Option<GcRead>, clamp: bool): (r: seq<int>)
    requires PortAnalog(a) && ValidRead(read)
    ensures PortAnalog(r)
  {
    if read.None? then NormaliseAll(a) else NormaliseAll(Sticks(read.value, clamp))
  }

  /** The readings of one poll: a GameCube sample per port, present only on
      the four channels `PAD_ScanPads` reports, and the Wii-side word of each
      port whose Wii Remote or 3DS pad answered. */
  predicate ValidSamples(samples: seq<Option<GcRead>>, wpad: seq<Option<Word>>, n: nat)
  {
    |samples| == |wpad| == n &&
    forall p :: 0 <= p < |samples| ==> ValidRead(samples[p]) && (4 <= p ==> samples[p].None?)
  }

  /** The GameCube reading a port's branch uses: none when the Wii side took
      the port. */
  function GcOf(samples: seq<Option<GcRead>>, wpad: seq<Option<Word>>, p: nat): (r: Option<GcRead>)
    requires p < |samples| == |wpad| && ValidRead(samples[p])
    ensures ValidRead(r)
    ensures r.Some? <==> wpad[p].None? && samples[p].Some?
  {
    if wpad[p].Some? then None else samples[p]
  }

  /** The port loop, starting from the words in `cleared`. */
  function Ports(j: Joy, cleared: seq<Word>, samples: seq<Option<GcRead>>, wpad: seq<Option<Word>>,
                 cfg: Config, clamp: bool): (r: Joy)
    requires Valid(j) && |cleared| == |j.pads| && ValidSamples(samples, wpad, |j.pads|)
    ensures Valid(r) && |r.pads| == |j.pads|
    ensures r.lifecycle == j.lifecycle && r.menuReq == j.menuReq
    ensures r.resetReq == j.resetReq && r.quitReq == j.quitReq
  {
    j.(pads := seq(|cleared|, p requires 0 <= p < |cleared| => PortBits(cleared[p], samples[p], wpad[p], cfg)),
       analog := seq(|j.analog|, p requires 0 <= p < |j.analog| =>
                       PortSticks(j.analog[p], GcOf(samples, wpad, p), clamp)))
  }

  /** True when the home button on port 0, or a pending menu request, is
      pressed (the Classic Controller's home counts only on the Wii). */
  predicate HomeHeld(j: Joy, cfg: Config)
    requires |j.pads| > 0
  {
    j.menuReq || WIIMOTE_HOME in j.pads[0] || (cfg.rvl && CLASSIC_HOME in j.pads[0])
  }

  /** The lifecycle tail of the poll: pending requests are written into port
      0 and consumed, and the reset, quit and menu-toggle lifecycle bits are
      recomputed from port 0. */
  function Lifecycle(j: Joy, cfg: Config, keys: MetaKeys): (r: Joy)
    requires |j.pads| > 0
    ensures |r.pads| == |j.pads| && r.analog == j.analog
    ensures !r.menuReq && !r.resetReq && !r.quitReq
    ensures forall p :: 1 <= p < |j.pads| ==> r.pads[p] == j.pads[p]
    ensures j.pads[0] <= r.pads[0]
    ensures forall b :: b !in {keys.reset, keys.quit, keys.menuToggle} ==>
                        (b in r.lifecycle <==> b in j.lifecycle)
    ensures Distinct(keys) ==>
              (keys.reset in r.lifecycle <==> j.resetReq || keys.reset in j.pads[0])
    ensures Distinct(keys) ==>
              (keys.quit in r.lifecycle <==>
                 j.quitReq || QUIT_KEY in j.pads[0] || (cfg.homeShouldExit && HomeHeld(j, cfg)))
    ensures Distinct(keys) ==>
              (keys.menuToggle in r.lifecycle <==> !cfg.homeShouldExit && HomeHeld(j, cfg))
  {
    var p0 := j.pads[0] + Bit(j.resetReq, keys.reset);
    var lc1 := j.lifecycle - {keys.reset};
    var lc2 := if keys.reset in p0 then lc1 + {keys.reset} else lc1;
    var p1 := p0 + Bit(j.quitReq, QUIT_KEY);
    var lc3 := lc2 - {keys.quit};
    var lc4 := if QUIT_KEY in p1 then lc3 + {keys.quit} else lc3;
    var lc5 := lc4 - {keys.menuToggle};
    var p2 := p1 + Bit(j.menuReq, WIIMOTE_HOME);
    var home := WIIMOTE_HOME in p2 || (cfg.rvl && CLASSIC_HOME in p2);
    var lc6 := if home then lc5 + {if cfg.homeShouldExit then keys.quit else keys.menuToggle} else lc5;
    j.(pads := j.pads[0 := p2], lifecycle := lc6,
       menuReq := false, resetReq := false, quitReq := false)
  }

  /** `gx_joypad_poll` as written: only the first four words are cleared,
      whatever the pad count, and stick products are wrapped to 16 bits. */
  function PollAsWritten(j: Joy, samples: seq<Option<GcRead>>, wpad: seq<Option<Word>>,
                         cfg: Config, keys: MetaKeys): (r: Joy)
    requires Valid(j) && |j.pads| >= 4 && ValidSamples(samples, wpad, |j.pads|)
    ensures Valid(r) && |r.pads| == |j.pads|
  {
    var cleared := seq(|j.pads|, p requires 0 <= p < |j.pads| => if p < 4 then {} else j.pads[p]);
    Lifecycle(Ports(j, cleared, samples, wpad, cfg, false), cfg, keys)
  }

  /** A five-player build on the Wii: a button held on the fifth Wii Remote
      stays reported after it is released. Only the Wii side reaches the
      fifth port, since `PAD_ScanPads` reports four GameCube channels. */
  lemma FifthPortButtonSticks(cfg: Config, keys: MetaKeys, b: nat)
    requires b < 64
    ensures var empty := Joy([{}, {}, {}, {}, {}], seq(5, _ => [0, 0, 0, 0]), {}, false, false, false);
            var first := PollAsWritten(empty, FifthOnly(), FifthWpad({b}), cfg, keys);
            var second := PollAsWritten(first, FifthOnly(), FifthWpad({}), cfg, keys);
            Button(second, 4, b)
  {
    var empty := Joy([{}, {}, {}, {}, {}], seq(5, _ => [0, 0, 0, 0]), {}, false, false, false);
    assert Valid(empty);
    var first := PollAsWritten(empty, FifthOnly(), FifthWpad({b}), cfg, keys);
    AsWrittenAccumulates(empty, FifthOnly(), FifthWpad({b}), cfg, keys, 4);
    assert b in first.pads[4];
    var second := PollAsWritten(first, FifthOnly(), FifthWpad({}), cfg, keys);
    AsWrittenAccumulates(first, FifthOnly(), FifthWpad({}), cfg, keys, 4);
    assert second.pads[4] == first.pads[4];
  }

  /** No GameCube controller on any of the five ports. */
  function FifthOnly(): (s: seq<Option<GcRead>>)
    ensures |s| == 5 && forall q :: 0 <= q < |s| ==> s[q].None?
  {
    [None, None, None, None, None]
  }

  /** A Wii-side word for the fifth port alone. */
  function FifthWpad(w: Word): (s: seq<Option<Word>>)
    ensures |s| == 5 && s[4] == Some(w) && forall q :: 0 <= q < 4 ==> s[q].None?
    ensures ValidSamples(FifthOnly(), s, 5)
  {
    [None, None, None, None, Some(w)]
  }

  /** As written, a port from the fifth on starts from the word it kept
      since the previous poll, so the Wii side's bits are added to it. */
  lemma AsWrittenAccumulates(j: Joy, samples: seq<Option<GcRead>>, wpad: seq<Option<Word>>,
                             cfg: Config, keys: MetaKeys, p: nat)
    requires Valid(j) && |j.pads| >= 4 && ValidSamples(samples, wpad, |j.pads|)
    requires 4 <= p < |j.pads|
    ensures wpad[p].Some? ==> PollAsWritten(j, samples, wpad, cfg, keys).pads[p] == j.pads[p] + wpad[p].value
    ensures wpad[p].None? ==> PollAsWritten(j, samples, wpad, cfg, keys).pads[p] == j.pads[p]
  {
    var cleared := seq(|j.pads|, q requires 0 <= q < |j.pads| => if q < 4 then {} else j.pads[q]);
    var ports := Ports(j, cleared, samples, wpad, cfg, false);
    assert ports.pads[p] == PortBits(j.pads[p], samples[p], wpad[p], cfg);
  }

  /** `gx_joypad_poll` with every port's word cleared and the stick values
      clamped. */
  function Poll(j: Joy, samples: seq<Option<GcRead>>, wpad: seq<Option<Word>>,
                cfg: Config, keys: MetaKeys): (r: Joy)
    requires Valid(j) && |j.pads| >= 4 && ValidSamples(samples, wpad, |j.pads|)
    ensures Valid(r) && |r.pads| == |j.pads|
    ensures !r.menuReq && !r.resetReq && !r.quitReq
    ensures forall p :: 1 <= p < |r.pads| ==> r.pads[p] == PortBits({}, samples[p], wpad[p], cfg)
    ensures forall p :: 0 <= p < |r.pads| && wpad[p].None? && samples[p].Some? ==>
                          r.analog[p] == Sticks(samples[p].value, true)
  {
    var cleared := seq(|j.pads|, p requires 0 <= p < |j.pads| => {});
    Lifecycle(Ports(j, cleared, samples, wpad, cfg, true), cfg, keys)
  }

  /** After a poll, a button on ports 1 and up is reported exactly when the
      current reading presses it (or completes a combo): earlier readings are
      forgotten. */
  lemma PollReportsCurrentSample(j: Joy, samples: seq<Option<GcRead>>, wpad: seq<Option<Word>>,
                                 cfg: Config, keys: MetaKeys, port: nat, joykey: nat)
    requires Valid(j) && |j.pads| >= 4 && ValidSamples(samples, wpad, |j.pads|)
    requires 1 <= port < |j.pads| && joykey < 64
    ensures Button(Poll(j, samples, wpad, cfg, keys), port, joykey) <==>
              if wpad[port].Some? then joykey in wpad[port].value
              else samples[port].Some? &&
                   joykey in WithCombo(ProfileBits(cfg, samples[port].value), cfg.menuCombos)
  {
  }

  /** After a poll no stored analog value is -0x8000, and every stored
      value lies in [-0x7fff, 0x7fff]. */
  lemma PollNormalises(j: Joy, samples: seq<Option<GcRead>>, wpad: seq<Option<Word>>,
                       cfg: Config, keys: MetaKeys, port: nat, i: nat)
    requires Valid(j) && |j.pads| >= 4 && ValidSamples(samples, wpad, |j.pads|)
    requires port < |j.pads| && i < 4
    ensures -0x7fff <= Poll(j, samples, wpad, cfg, keys).analog[port][i] <= 0x7fff
    ensures -0x7fff <= PollAsWritten(j, samples, wpad, cfg, keys).analog[port][i] <= 0x7fff
  {
  }

  // --------------------------------------------------------------- callbacks

  /** `reset_cb`: the console's reset button asks for the menu when RGUI
      reset is configured, and for a core reset otherwise. */
  function ResetButton(j: Joy, cfg: Config): (r: Joy)
    ensures r.pads == j.pads && r.analog == j.analog && r.lifecycle == j.lifecycle
    ensures r.quitReq == j.quitReq
    ensures cfg.rguiReset ==> r.menuReq && r.resetReq == j.resetReq
    ensures !cfg.rguiReset ==> r.resetReq && r.menuReq == j.menuReq
  {
    if cfg.rguiReset then j.(menuReq := true) else j.(resetReq := true)
  }

  /** `power_callback`: the power button asks to quit. */
  function PowerButton(j: Joy): (r: Joy)
    ensures r.quitReq
    ensures r == j.(quitReq := true)
  {
    j.(quitReq := true)
  }

  /** A reset press reaches the lifecycle word at the next poll: as the menu
      toggle (or quit, when home exits) under RGUI reset, else as a reset. */
  lemma ResetButtonReachesLifecycle(j: Joy, samples: seq<Option<GcRead>>, wpad: seq<Option<Word>>,
                                    cfg: Config, keys: MetaKeys)
    requires Valid(j) && |j.pads| >= 4 && ValidSamples(samples, wpad, |j.pads|)
    requires Distinct(keys)
    ensures var r := Poll(ResetButton(j, cfg), samples, wpad, cfg, keys);
            if cfg.rguiReset then
              (if cfg.homeShouldExit then keys.quit else keys.menuToggle) in r.lifecycle
            else keys.reset in r.lifecycle
  {
    var cleared := seq(|j.pads|, p requires 0 <= p < |j.pads| => {});
    var k := ResetButton(j, cfg);
    var m := Ports(k, cleared, samples, wpad, cfg, true);
    assert m.menuReq == k.menuReq && m.resetReq == k.resetReq;
  }

  /** A power press makes the next poll set the quit bit. */
  lemma PowerButtonQuits(j: Joy, samples: seq<Option<GcRead>>, wpad: seq<Option<Word>>,
                         cfg: Config, keys: MetaKeys)
    requires Valid(j) && |j.pads| >= 4 && ValidSamples(samples, wpad, |j.pads|)
    requires Distinct(keys)
    ensures keys.quit in Poll(PowerButton(j), samples, wpad, cfg, keys).lifecycle
  {
    var cleared := seq(|j.pads|, p requires 0 <= p < |j.pads| => {});
    var m := Ports(PowerButton(j), cleared, samples, wpad, cfg, true);
    assert m.quitReq;
  }
}
