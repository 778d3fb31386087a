/** The SDL joypad driver (input/sdl_joypad.c), as built against SDL 1.2:
    the button, hat and half-axis queries, pad presence, disconnection and
    the connection count at start-up. The device state SDL reports is part
    of each slot. */
module SdlJoypad {
  import opened Wrappers
  import opened Machine
  import opened Binds

  datatype Direction = DirUp | DirDown | DirLeft | DirRight

  /** What SDL reports for one open joystick: its button count
      (`SDL_JoystickNumButtons`), the buttons currently held, and each hat's
      and axis's position. */
  datatype Device = Device(numButtons: nat, buttons: set<nat>, hats: seq<set<Direction>>, axes: seq<int>)

  /** One slot of `g_pads`: `None` for a null joystick handle, else the
      counts read at connection and the live device. */
  datatype Slot = Slot(joypad: Option<Device>, numAxes: nat, numButtons: nat, numHats: nat)

  const EMPTY: Slot := Slot(None, 0, 0, 0)

  /** The driver: the slot array (length `MAX_PLAYERS`) and the device name
      of every slot. */
  datatype Pads = Pads(slots: seq<Slot>, names: seq<string>)

  predicate Valid(p: Pads)
  {
    |p.slots| == |p.names| &&
    forall i :: 0 <= i < |p.slots| ==> SlotValid(p.slots[i])
  }

  /** The counts read at connection match the device. */
  predicate SlotValid(s: Slot)
  {
    s.joypad.Some? ==>
      |s.joypad.value.hats| == s.numHats && |s.joypad.value.axes| == s.numAxes &&
      s.joypad.value.numButtons == s.numButtons && DeviceOk(s.joypad.value)
  }

  /** SDL reports axis positions as 16-bit values. */
  predicate DeviceOk(d: Device)
  {
    forall a :: 0 <= a < |d.axes| ==> -0x8000 <= d.axes[a] < 0x8000
  }

  function DirOf(mask: nat): Option<Direction>
  {
    if mask == HAT_UP_MASK then Some(DirUp)
    else if mask == HAT_DOWN_MASK then Some(DirDown)
    else if mask == HAT_LEFT_MASK then Some(DirLeft)
    else if mask == HAT_RIGHT_MASK then Some(DirRight)
    else None
  }

  /** `sdl_joypad_button`. The code arrives as a `uint16_t`; the slot array
      is indexed without a bound check, so the port must name a slot. */
  function Button(p: Pads, port: nat, joykey: nat): (r: bool)
    requires Valid(p) && port < |p.slots|
    ensures joykey % U16_LIMIT == NO_BTN || p.slots[port].joypad.None? ==> !r
    ensures r && HatDir(joykey % U16_LIMIT) != 0 ==> Hat(joykey % U16_LIMIT) < p.slots[port].numHats
    ensures r && HatDir(joykey % U16_LIMIT) == 0 ==> joykey % U16_LIMIT < p.slots[port].numButtons
  {
    var k := U16(joykey);
    var s := p.slots[port];
    if k == NO_BTN || s.joypad.None? then false
    else if HatDir(k) != 0 then
      var hat := Hat(k);
      if hat >= s.numHats then false
      else match DirOf(HatDir(k))
        case Some(d) => d in s.joypad.value.hats[hat]
        case None => false
    else k < s.numButtons && k in s.joypad.value.buttons
  }

  /** A hat code built with `HAT_MAP` reads the direction SDL reports for
      that hat; a plain button code reads the button. */
  lemma ButtonReadsDevice(p: Pads, port: nat, hat: nat, mask: nat, button: nat)
    requires Valid(p) && port < |p.slots| && p.slots[port].joypad.Some?
    requires hat < p.slots[port].numHats && hat < 0x1000
    requires DirOf(mask).Some?
    requires button < 0x1000
    ensures Button(p, port, HatMap(hat, mask)) <==> DirOf(mask).value in p.slots[port].joypad.value.hats[hat]
    ensures Button(p, port, button) <==>
              button < p.slots[port].numButtons && button in p.slots[port].joypad.value.buttons
  {
    var k := HatMap(hat, mask);
    assert k / 0x1000 == mask / 0x1000;
    assert HatDir(k) == mask;
    assert Hat(k) == hat;
    assert button / 0x1000 == 0;
  }

  /** `sdl_joypad_axis`: a negative half reads [-0x7fff, 0], since -0x8000
      cannot be negated; a positive half reads [0, 0x7fff]. */
  function Axis(p: Pads, port: nat, joyaxis: nat): (r: int)
    requires Valid(p) && port < |p.slots|
    ensures joyaxis == AXIS_NONE || p.slots[port].joypad.None? ==> r == 0
    ensures AxisNegGet(joyaxis) < p.slots[port].numAxes ==> -0x7fff <= r <= 0
    ensures AxisNegGet(joyaxis) >= p.slots[port].numAxes ==> 0 <= r < 0x8000
  {
    var s := p.slots[port];
    if joyaxis == AXIS_NONE || s.joypad.None? then 0
    else if AxisNegGet(joyaxis) < s.numAxes then
      var val := s.joypad.value.axes[AxisNegGet(joyaxis)];
      if val > 0 then 0 else if val < -0x7fff then -0x7fff else val
    else if AxisPosGet(joyaxis) < s.numAxes then
      var val := s.joypad.value.axes[AxisPosGet(joyaxis)];
      if val < 0 then 0 else val
    else 0
  }

  /** The axis codes of the input layer read the matching half of the axis
      SDL reports. */
  lemma AxisReadsHalf(p: Pads, port: nat, n: nat)
    requires Valid(p) && port < |p.slots| && p.slots[port].joypad.Some?
    requires n < p.slots[port].numAxes && n < AXIS_DIR_NONE
    requires p.slots[port].numAxes <= AXIS_DIR_NONE
    ensures Axis(p, port, AxisNeg(n)) == Max(Min(p.slots[port].joypad.value.axes[n], 0), -0x7fff)
    ensures Axis(p, port, AxisPos(n)) == Max(p.slots[port].joypad.value.axes[n], 0)
  {
    AxisCodes(n);
  }

  /** `sdl_joypad_query_pad`. */
  function QueryPad(p: Pads, pad: nat): (r: bool)
    requires |p.slots| > 0
    ensures r <==> pad < |p.slots| && p.slots[pad].joypad.Some?
  {
    pad < |p.slots| && p.slots[pad].joypad.Some?
  }

  /** `pad_disconnect`: the slot's name is emptied and the slot zeroed. */
  function Disconnect(p: Pads, id: nat): (r: Pads)
    requires Valid(p) && id < |p.slots|
    ensures Valid(r) && |r.slots| == |p.slots|
    ensures r.names[id] == [] && r.slots[id] == EMPTY
    ensures forall i :: 0 <= i < |p.slots| && i != id ==>
                          r.slots[i] == p.slots[i] && r.names[i] == p.names[i]
  {
    Pads(p.slots[id := EMPTY], p.names[id := []])
  }

  /** A disconnected slot answers nothing. */
  lemma DisconnectedSlotIsSilent(p: Pads, id: nat, joykey: nat, joyaxis: nat)
    requires Valid(p) && id < |p.slots|
    ensures !QueryPad(Disconnect(p, id), id)
    ensures !Button(Disconnect(p, id), id, joykey)
    ensures Axis(Disconnect(p, id), id, joyaxis) == 0
  {
  }

  /** `pad_connect` for SDL's joystick `id`: an open failure leaves a null
      slot; otherwise the name and the device's counts are recorded. */
  function Connect(p: Pads, id: nat, device: Option<Device>, name: string): (r: Pads)
    requires Valid(p) && id < |p.slots| && (device.Some? ==> DeviceOk(device.value))
    ensures Valid(r) && |r.slots| == |p.slots|
    ensures r.slots[id].joypad == device
    ensures forall i :: 0 <= i < |p.slots| && i != id ==> r.slots[i] == p.slots[i]
  {
    match device
    case None => p.(slots := p.slots[id := p.slots[id].(joypad := None)])
    case Some(d) => Pads(p.slots[id := SlotOf(device)], p.names[id := name])
  }

  /** A connected joystick's buttons read through the slot, bounded by the
      button count SDL reported. */
  lemma ConnectedButtonsRead(p: Pads, id: nat, d: Device, name: string, joykey: nat)
    requires Valid(p) && id < |p.slots| && DeviceOk(d)
    requires joykey < 0x1000
    ensures QueryPad(Connect(p, id, Some(d), name), id)
    ensures Button(Connect(p, id, Some(d), name), id, joykey) <==> joykey < d.numButtons && joykey in d.buttons
  {
    assert joykey / 0x1000 == 0;
  }

  /** `sdl_joypad_init` after the subsystem starts: every slot is zeroed,
      the first `min(SDL_NumJoysticks(), MAX_PLAYERS)` joysticks are
      connected (the count, an `int`, is read as unsigned), and with no
      joystick open the driver is torn down and fails. */
  function Init(maxPlayers: nat, numSticks: int, open: nat -> Option<Device>,
                nameOf: nat -> string): (r: Option<Pads>)
    requires maxPlayers > 0
    requires forall i :: open(i).Some? ==> DeviceOk(open(i).value)
    ensures r.Some? ==> Valid(r.value) && |r.value.slots| == maxPlayers
    ensures r.Some? <==> exists i :: 0 <= i < Min(U32(numSticks), maxPlayers) && open(i).Some?
    ensures r.Some? ==> forall i :: 0 <= i < maxPlayers ==>
              (r.value.slots[i].joypad.Some? <==> i < U32(numSticks) && open(i).Some?)
  {
    var n := Min(U32(numSticks), maxPlayers);
    var slots := seq(maxPlayers, i requires 0 <= i < maxPlayers =>
      if i < n then SlotOf(open(i)) else EMPTY);
    var names := seq(maxPlayers, i requires 0 <= i < maxPlayers =>
      if i < n && open(i).Some? then nameOf(i) else []);
    if exists i :: 0 <= i < n && open(i).Some? then Some(Pads(slots, names)) else None
  }

  function SlotOf(d: Option<Device>): (s: Slot)
    requires d.Some? ==> DeviceOk(d.value)
    ensures SlotValid(s) && s.joypad == d
  {
    match d
    case None => EMPTY
    case Some(dev) => Slot(Some(dev), |dev.axes|, dev.numButtons, |dev.hats|)
  }

  /** Init answers through the slots exactly what SDL reports for the
      joysticks it connected. */
  lemma InitConnects(maxPlayers: nat, numSticks: int, open: nat -> Option<Device>,
                     nameOf: nat -> string, pad: nat)
    requires maxPlayers > 0 && pad < maxPlayers
    requires forall i :: open(i).Some? ==> DeviceOk(open(i).value)
    requires Init(maxPlayers, numSticks, open, nameOf).Some?
    ensures QueryPad(Init(maxPlayers, numSticks, open, nameOf).value, pad) <==>
              pad < U32(numSticks) && open(pad).Some?
  {
  }
}
