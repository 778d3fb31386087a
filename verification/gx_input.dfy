/** The GameCube/Wii input driver (input/gx_input.c): the per-device state
    query, the mouse deltas and the mouse poll that feeds them, the mouse
    count, the key-pressed test and the capability word. The joypad answer
    comes from the joypad driver and is a parameter; the light gun
    (`gx_lightgun_state`) is left out and its answer is a parameter too. */
module GxInput {
  import opened Machine

  /** libretro's device numbers and mouse ids. */
  const DEVICE_JOYPAD: nat := 1
  const DEVICE_MOUSE: nat := 2
  const DEVICE_LIGHTGUN: nat := 4
  const DEVICE_ANALOG: nat := 5
  const MOUSE_X: nat := 0
  const MOUSE_Y: nat := 1
  const MOUSE_LEFT: nat := 2
  const MOUSE_RIGHT: nat := 3

  /** The number of pad ports of the default build. */
  const MAX_PADS: nat := 4

  /** One pointer: its position this poll and last poll, and its 32-bit
      button word. */
  datatype Mouse = Mouse(xAbs: int, yAbs: int, xLast: int, yLast: int, button: nat)

  /** The driver: whether it exists (a null pointer otherwise) and its
      pointer array, whose length is `mouse_max`. */
  datatype Input = Input(present: bool, mice: seq<Mouse>)

  /** The value of the button bit `id` of a 32-bit word: `button & (1 << id)`. */
  function Masked(button: nat, id: nat): (r: nat)
    requires id < 16
    ensures r == 0 || r == Pow2(id)
  {
    (button / Pow2(id)) % 2 * Pow2(id)
  }

  function Pow2(n: nat): (r: nat)
    ensures r >= 1
  {
    if n == 0 then 1 else 2 * Pow2(n - 1)
  }

  /** `gx_mouse_state`: the motion since the previous poll, or one masked
      button bit, truncated to the 16-bit result. */
  function MouseState(m: Mouse, id: nat): (r: int)
    ensures -0x8000 <= r < 0x8000
    ensures id == MOUSE_X ==> r == I16(m.xAbs - m.xLast)
    ensures id == MOUSE_Y ==> r == I16(m.yAbs - m.yLast)
    ensures id == MOUSE_LEFT ==> (r != 0 <==> (m.button / 4) % 2 == 1)
    ensures id == MOUSE_RIGHT ==> (r != 0 <==> (m.button / 8) % 2 == 1)
    ensures id > MOUSE_RIGHT ==> r == 0
  {
    if id == MOUSE_X then I16(m.xAbs - m.xLast)
    else if id == MOUSE_Y then I16(m.yAbs - m.yLast)
    else if id == MOUSE_LEFT || id == MOUSE_RIGHT then Masked(m.button, id)
    else 0
  }

  /** The answers of the code outside this file for one query. */
  datatype Outside = Outside(joypadPressed: bool, joypadAnalog: int, lightgun: int)

  /** `gx_input_state`. The pointer array is indexed without a bound check,
      so a mouse query needs an index below the pointer count. */
  function State(g: Input, port: nat, device: nat, idx: nat, id: nat, o: Outside): (r: int)
    requires g.present && device == DEVICE_MOUSE && port < MAX_PADS ==> idx < |g.mice|
    ensures port >= MAX_PADS || !g.present ==> r == 0
    ensures device !in {DEVICE_JOYPAD, DEVICE_MOUSE, DEVICE_LIGHTGUN, DEVICE_ANALOG} ==> r == 0
    ensures port < MAX_PADS && g.present && device == DEVICE_JOYPAD ==> (r == 1 <==> o.joypadPressed)
    ensures port < MAX_PADS && g.present && device == DEVICE_MOUSE ==>
              r == MouseState(g.mice[idx], id)
  {
    if port >= MAX_PADS || !g.present then 0
    else if device == DEVICE_JOYPAD then (if o.joypadPressed then 1 else 0)
    else if device == DEVICE_ANALOG then o.joypadAnalog
    else if device == DEVICE_MOUSE then MouseState(g.mice[idx], id)
    else if device == DEVICE_LIGHTGUN then o.lightgun
    else 0
  }

  /** `gx_count_mouse`: four pointers for a live driver, none otherwise. */
  function CountMouse(g: Input): (n: nat)
    ensures g.present <==> n == 4
    ensures !g.present <==> n == 0
  {
    if g.present then 4 else 0
  }

  /** One pointer sample (`gx_joypad_read_mouse`). */
  datatype Sample = Sample(x: int, y: int, button: nat)

  /** Resizing the pointer array keeps the existing pointers and sets the
      last position of every pointer to 0; the new pointers' current
      positions are whatever the reallocation left, given as `junk`. The
      allocation is taken to succeed. */
  function Resize(mice: seq<Mouse>, count: nat, junk: Mouse): (r: seq<Mouse>)
    ensures |r| == count
    ensures forall i :: 0 <= i < count ==> r[i].xLast == 0 && r[i].yLast == 0
    ensures forall i :: 0 <= i < count && i < |mice| ==>
                          r[i].xAbs == mice[i].xAbs && r[i].yAbs == mice[i].yAbs
  {
    seq(count, i requires 0 <= i < count =>
      var m := if i < |mice| then mice[i] else junk;
      m.(xLast := 0, yLast := 0))
  }

  /** `gx_input_poll_mouse`: after an optional resize to the pointer count,
      each pointer's current position becomes its last position and the new
      sample becomes its current position. */
  function PollMouse(g: Input, samples: seq<Sample>, junk: Mouse): (r: Input)
    requires |samples| == CountMouse(g)
    ensures r.present == g.present
    ensures !g.present ==> r == g
    ensures g.present ==> |r.mice| == 4
    ensures g.present ==> forall i :: 0 <= i < 4 ==>
              r.mice[i].xAbs == samples[i].x && r.mice[i].yAbs == samples[i].y &&
              r.mice[i].button == samples[i].button
  {
    var count := CountMouse(g);
    if !g.present || count == 0 then g
    else
      var mice := if count != |g.mice| then Resize(g.mice, count, junk) else g.mice;
      g.(mice := seq(count, i requires 0 <= i < count =>
                   Mouse(samples[i].x, samples[i].y, mice[i].xAbs, mice[i].yAbs, samples[i].button)))
  }

  /** The reported motion is the difference of two consecutive samples,
      once the pointer array has its final size. */
  lemma MouseDeltaBetweenPolls(g: Input, s1: seq<Sample>, s2: seq<Sample>, junk: Mouse, i: nat)
    requires g.present && |s1| == 4 && |s2| == 4 && i < 4
    ensures var g2 := PollMouse(PollMouse(g, s1, junk), s2, junk);
            MouseState(g2.mice[i], MOUSE_X) == I16(s2[i].x - s1[i].x) &&
            MouseState(g2.mice[i], MOUSE_Y) == I16(s2[i].y - s1[i].y)
  {
  }

  /** The first poll after the array grows reports a motion relative to the
      position the pointer had before the poll (zero motion for a pointer
      that stays put). */
  lemma FirstPollDelta(g: Input, s: seq<Sample>, junk: Mouse, i: nat)
    requires g.present && |s| == 4 && i < 4 && i < |g.mice|
    ensures MouseState(PollMouse(g, s, junk).mice[i], MOUSE_X) == I16(s[i].x - g.mice[i].xAbs)
  {
  }

  /** `gx_input_key_pressed`: the lifecycle bit or the port-0 bind. */
  function KeyPressed(lifecycle: set<nat>, key: nat, bindPressed: bool): (r: bool)
    requires key < 64
    ensures r <==> key in lifecycle || bindPressed
  {
    key in lifecycle || bindPressed
  }

  /** `gx_input_get_capabilities`: the joypad, analog, mouse and light-gun
      device bits. */
  function Capabilities(): (c: nat)
    ensures c == Pow2(DEVICE_JOYPAD) + Pow2(DEVICE_ANALOG) + Pow2(DEVICE_MOUSE) + Pow2(DEVICE_LIGHTGUN)
  {
    54
  }

  /** The capability word names exactly the devices the state query
      answers. */
  lemma CapabilitiesAreQueried(d: nat)
    requires d < 8
    ensures (Capabilities() / Pow2(d)) % 2 == 1 <==> d in {DEVICE_JOYPAD, DEVICE_MOUSE, DEVICE_LIGHTGUN, DEVICE_ANALOG}
  {
    assert Pow2(0) == 1 && Pow2(1) == 2 && Pow2(2) == 4 && Pow2(3) == 8;
    assert Pow2(4) == 16 && Pow2(5) == 32 && Pow2(6) == 64 && Pow2(7) == 128;
  }
}
