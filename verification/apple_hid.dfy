/** The IOKit HID joypad driver (input/apple_joypad_hid.c): the button and
    half-axis queries, the per-element input callback, device removal, pad
    presence and names. The driver's shared state (apple_input.h, not part
    of this model) is taken as a 32-bit button word per player and an
    `int16_t axes[MAX_PLAYERS][4]` array, stored row by row. What the HID
    connection layer reports for a slot is a parameter. */
module AppleHid {
  import opened Wrappers
  import opened Machine
  import opened Binds

  /** The shared state: whether it exists, the button bits of each player
      and the flattened axis array (`axes[4 * slot + i]` is
      `axes[slot][i]`). */
  datatype Hid = Hid(present: bool, buttons: seq<set<nat>>, axes: seq<int>)

  predicate Valid(h: Hid)
  {
    |h.buttons| > 0 && |h.axes| == 4 * |h.buttons| &&
    forall i :: 0 <= i < |h.axes| ==> -0x8000 <= h.axes[i] < 0x8000
  }

  function MaxPlayers(h: Hid): nat { |h.buttons| }

  // ------------------------------------------------------------- queries

  /** `apple_joypad_button`: the code arrives as a `uint16_t`; hats are not
      supported; a button below 32 is pressed when either the HID element
      bits or the connection layer's bits have it. */
  function Button(h: Hid, port: nat, joykey: nat, connButtons: set<nat>): (r: bool)
    ensures !h.present || joykey % U16_LIMIT == NO_BTN || HatDir(joykey % U16_LIMIT) != 0 ==> !r
    ensures joykey < U16_LIMIT ==>
              (r <==> h.present && port < MaxPlayers(h) && joykey < 32 &&
                      (joykey in h.buttons[port] || joykey in connButtons))
  {
    var k := U16(joykey);
    if !h.present || k == NO_BTN then false
    else if HatDir(k) != 0 then false
    else if port < MaxPlayers(h) && k < 32 then
      k in h.buttons[port] || k in connButtons
    else false
  }

  /** `apple_joypad_axis`: the HID axis plus the connection layer's axis,
      summed into an `int16_t`, clipped to the requested half. The axis
      array is indexed without a bound check on the port. */
  function Axis(h: Hid, port: nat, joyaxis: nat, connAxis: seq<int>): (r: int)
    requires Valid(h) && port < MaxPlayers(h) && |connAxis| == 4
    ensures !h.present || joyaxis == AXIS_NONE ==> r == 0
    ensures -0x8000 <= r < 0x8000
    ensures AxisNegGet(joyaxis) < 4 ==> r <= 0
    ensures AxisNegGet(joyaxis) >= 4 ==> r >= 0
    ensures AxisNegGet(joyaxis) >= 4 && AxisPosGet(joyaxis) >= 4 ==> r == 0
  {
    if !h.present || joyaxis == AXIS_NONE then 0
    else if AxisNegGet(joyaxis) < 4 then
      var i := AxisNegGet(joyaxis);
      var val := I16(h.axes[4 * port + i] + connAxis[i]);
      if val < 0 then val else 0
    else if AxisPosGet(joyaxis) < 4 then
      var i := AxisPosGet(joyaxis);
      var val := I16(h.axes[4 * port + i] + connAxis[i]);
      if val > 0 then val else 0
    else 0
  }

  /** An axis code reads the matching half of the `int16_t` sum of the HID
      axis and the connection layer's axis; with a silent connection layer,
      the matching half of the HID axis. */
  lemma AxisReadsHalf(h: Hid, port: nat, n: nat, connAxis: seq<int>)
    requires Valid(h) && h.present && port < MaxPlayers(h) && n < 4 && |connAxis| == 4
    ensures Axis(h, port, AxisNeg(n), connAxis) == Min(I16(h.axes[4 * port + n] + connAxis[n]), 0)
    ensures Axis(h, port, AxisPos(n), connAxis) == Max(I16(h.axes[4 * port + n] + connAxis[n]), 0)
    ensures Axis(h, port, AxisNeg(n), [0, 0, 0, 0]) == Min(h.axes[4 * port + n], 0)
    ensures Axis(h, port, AxisPos(n), [0, 0, 0, 0]) == Max(h.axes[4 * port + n], 0)
  {
    AxisCodes(n);
  }

  /** `apple_joypad_query_pad`: every slot below the player count. */
  function QueryPad(h: Hid, pad: nat): (r: bool)
    ensures r <==> pad < MaxPlayers(h)
  {
    pad < MaxPlayers(h)
  }

  /** A pad the query reports absent reads no button. */
  lemma AbsentPadIsSilent(h: Hid, pad: nat, joykey: nat, connButtons: set<nat>)
    requires !QueryPad(h, pad)
    ensures !Button(h, pad, joykey, connButtons)
  {
  }

  /** `apple_joypad_name`: no pad has a name. */
  function Name(h: Hid, pad: nat): (r: Option<string>)
    ensures r == None
  {
    None
  }

  // -------------------------------------------------------- input callback

  datatype ElementType = Misc | ButtonElement | AxisElement | OtherType
  datatype Page = GenericDesktop | ButtonPage | OtherPage

  /** One HID value report: the element's type, usage page and usage, its
      integer value, and the axis position the driver computes from it in
      floating point (not modelled). */
  datatype Report = Report(kind: ElementType, page: Page, usage: nat, value: int, scaled: int)

  const HATSWITCH: nat := 0x39
  const AXIS_USAGES: seq<nat> := [48, 49, 50, 53]

  /** The bit `BIT32_SET`/`BIT32_CLEAR` touch for usage `u`: `u - 1` as an
      unsigned value, masked to 0..31. */
  function UsageBit(u: nat): (b: nat)
    ensures b < 32
    ensures 1 <= u <= 32 ==> b == u - 1
  {
    U32(u - 1) % 32
  }

  /** `hid_device_input_callback` for the device in `slot`. */
  function InputCallback(h: Hid, slot: nat, rep: Report): (r: Hid)
    requires Valid(h) && slot < MaxPlayers(h) && -0x8000 <= rep.scaled < 0x8000
    ensures Valid(r) && r.present == h.present && MaxPlayers(r) == MaxPlayers(h)
    ensures forall s :: 0 <= s < MaxPlayers(h) && s != slot ==> r.buttons[s] == h.buttons[s]
    ensures forall i :: 0 <= i < |h.axes| && i / 4 != slot ==> r.axes[i] == h.axes[i]
    ensures rep.page == ButtonPage && rep.kind == ButtonElement ==>
              r.axes == h.axes &&
              r.buttons[slot] - {UsageBit(rep.usage)} == h.buttons[slot] - {UsageBit(rep.usage)} &&
              (UsageBit(rep.usage) in r.buttons[slot] <==> rep.value != 0)
    ensures rep.page != ButtonPage ==> r.buttons == h.buttons
  {
    if rep.kind !in {Misc, ButtonElement, AxisElement} then h
    else if rep.page == GenericDesktop && rep.kind == Misc && rep.usage != HATSWITCH then
      h.(axes := seq(|h.axes|, i requires 0 <= i < |h.axes| =>
           if i / 4 == slot && rep.usage == AXIS_USAGES[i % 4] then rep.scaled else h.axes[i]))
    else if rep.page == ButtonPage && rep.kind == ButtonElement then
      var b := UsageBit(rep.usage);
      var w := h.buttons[slot];
      h.(buttons := h.buttons[slot := if rep.value != 0 then w + {b} else w - {b}])
    else h
  }

  /** A button element with usage 1 to 32 is read back by the button query
      as pressed exactly when its last value was nonzero. */
  lemma ButtonElementReadsBack(h: Hid, slot: nat, rep: Report)
    requires Valid(h) && h.present && slot < MaxPlayers(h) && -0x8000 <= rep.scaled < 0x8000
    requires rep.page == ButtonPage && rep.kind == ButtonElement && 1 <= rep.usage <= 32
    ensures Button(InputCallback(h, slot, rep), slot, rep.usage - 1, {}) <==> rep.value != 0
  {
    assert (rep.usage - 1) / 0x1000 == 0;
  }

  // --------------------------------------------------------------- removal

  /** `remove_device` as written: the slot's buttons are cleared, and the
      `memset` of the slot's axis row runs for the size of the whole axis
      array, so it zeroes every cell from the row onwards and, for any slot
      past the first, writes beyond the array's end (`overflow`). */
  function RemoveAsWritten(h: Hid, slot: nat): (r: (Hid, bool))
    requires Valid(h)
    ensures Valid(r.0) && |r.0.axes| == |h.axes|
    ensures r.1 <==> 0 < slot < MaxPlayers(h)
    ensures slot < MaxPlayers(h) ==> forall i :: 4 * slot <= i < |h.axes| ==> r.0.axes[i] == 0
  {
    if slot < MaxPlayers(h) then
      var n := |h.axes|;
      var axes := seq(n, i requires 0 <= i < n => if 4 * slot <= i < 4 * slot + n then 0 else h.axes[i]);
      (h.(buttons := h.buttons[slot := {}], axes := axes), 4 * slot + n > n)
    else (h, false)
  }

  /** With two players, unplugging the first pad also zeroes the second
      pad's axes, and unplugging the second writes past the array. */
  lemma RemoveClearsNeighbour(h: Hid)
    requires Valid(h) && MaxPlayers(h) == 2
    ensures RemoveAsWritten(h, 0).0.axes[4..8] == [0, 0, 0, 0]
    ensures RemoveAsWritten(h, 1).1
  {
  }

  /** `remove_device` with the `memset` limited to the slot's own row: the
      slot's buttons and axes are zeroed and every other slot is kept. */
  function Remove(h: Hid, slot: nat): (r: Hid)
    requires Valid(h)
    ensures Valid(r) && MaxPlayers(r) == MaxPlayers(h) && r.present == h.present
    ensures slot < MaxPlayers(h) ==> r.buttons[slot] == {}
    ensures forall i :: 0 <= i < |h.axes| ==>
              r.axes[i] == (if i / 4 == slot then 0 else h.axes[i])
    ensures forall s :: 0 <= s < MaxPlayers(h) && s != slot ==> r.buttons[s] == h.buttons[s]
  {
    if slot < MaxPlayers(h) then
      h.(buttons := h.buttons[slot := {}],
         axes := seq(|h.axes|, i requires 0 <= i < |h.axes| => if i / 4 == slot then 0 else h.axes[i]))
    else h
  }

  function Row(slot: nat, i: nat): nat { (4 * slot + i) / 4 }

  lemma RowOfCell(slot: nat, i: nat)
    requires i < 4
    ensures Row(slot, i) == slot
  {
  }

  /** After a removal the slot reads as idle and the other slots read as
      before. */
  lemma RemovedSlotIsIdle(h: Hid, slot: nat, port: nat, joykey: nat, joyaxis: nat)
    requires Valid(h) && slot < MaxPlayers(h) && port < MaxPlayers(h)
    ensures !Button(Remove(h, slot), slot, joykey, {})
    ensures Axis(Remove(h, slot), slot, joyaxis, [0, 0, 0, 0]) == 0
    ensures port != slot ==> Axis(Remove(h, slot), port, joyaxis, [0, 0, 0, 0]) ==
                             Axis(h, port, joyaxis, [0, 0, 0, 0])
  {
    forall i | 0 <= i < 4 ensures Row(slot, i) == slot && Row(port, i) == port {
      RowOfCell(slot, i);
      RowOfCell(port, i);
    }
  }
}
