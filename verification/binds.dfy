/** The input layer's binding codes (input/driver.h, not part of this
    model) and the analog-id conversion of input/input_common.h. A joypad
    button code is a 64-bit value whose bits 12 to 15 flag a hat direction;
    an axis code is a 32-bit value whose high half names a negative axis and
    whose low half a positive one. Bit fields are written with division and
    remainder by powers of two. */
module Binds {
  const NO_BTN: nat := 0xFFFF
  const HAT_UP_MASK: nat := 0x8000
  const HAT_DOWN_MASK: nat := 0x4000
  const HAT_LEFT_MASK: nat := 0x2000
  const HAT_RIGHT_MASK: nat := 0x1000
  const U64_LIMIT: nat := 0x1_0000_0000_0000_0000

  /** `GET_HAT_DIR`: the code's bits 12 to 15, one of the sixteen
      multiples of 0x1000 below 0x10000. */
  function HatDir(joykey: nat): (d: nat)
    ensures d % 0x1000 == 0 && d < 0x1_0000 && d <= joykey
  {
    (joykey / 0x1000) % 16 * 0x1000
  }

  /** `GET_HAT`: the code with bits 12 to 15 cleared; it has no direction
      bits left, and putting the direction back gives the code. */
  function Hat(joykey: nat): (h: nat)
    ensures HatDir(h) == 0 && h + HatDir(joykey) == joykey
  {
    var q := joykey / 0x1000;
    assert joykey == q * 0x1000 + joykey % 0x1000;
    assert joykey - HatDir(joykey) == (q - q % 16) * 0x1000 + joykey % 0x1000;
    assert (joykey - HatDir(joykey)) / 0x1000 == q - q % 16;
    joykey - HatDir(joykey)
  }

  /** `HAT_MAP(hat, dir)`: the code the input layer stores for hat `hat`
      pushed in direction `dir`; a direction that is one of the masks and
      the hat's low twelve bits read back from it. */
  function HatMap(hat: nat, dir: nat): (joykey: nat)
    ensures dir % 0x1000 == 0 && dir < 0x1_0000 ==> HatDir(joykey) == dir && Hat(joykey) == hat % 0x1000
  {
    var k := dir / 0x1000;
    assert dir % 0x1000 == 0 ==> dir == k * 0x1000;
    assert dir % 0x1000 == 0 ==> (hat % 0x1000 + k * 0x1000) / 0x1000 == k;
    hat % 0x1000 + dir
  }

  /** 0xFFFF in either half of an axis code marks that half unused. */
  const AXIS_NONE: nat := 0xFFFF_FFFF
  const AXIS_DIR_NONE: nat := 0xFFFF

  /** `AXIS_NEG_GET`: the high half of a 32-bit axis code. */
  function AxisNegGet(x: nat): (n: nat)
    ensures n <= AXIS_DIR_NONE
  {
    (x / 0x1_0000) % 0x1_0000
  }

  /** `AXIS_POS_GET`: the low half; the two halves reassemble a 32-bit code. */
  function AxisPosGet(x: nat): (n: nat)
    ensures n <= AXIS_DIR_NONE
    ensures x < 0x1_0000_0000 ==> x == AxisNegGet(x) * 0x1_0000 + n
  {
    x % 0x1_0000
  }

  /** `AXIS_NEG(n)`: a 32-bit code naming axis `n` in its negative half only. */
  function AxisNeg(n: nat): (x: nat)
    ensures x < 0x1_0000_0000
    ensures AxisNegGet(x) == n % 0x1_0000 && AxisPosGet(x) == AXIS_DIR_NONE
  {
    (n % 0x1_0000) * 0x1_0000 + 0xFFFF
  }

  /** `AXIS_POS(n)`: a 32-bit code naming axis `n` in its positive half only. */
  function AxisPos(n: nat): (x: nat)
    ensures x < 0x1_0000_0000
    ensures AxisNegGet(x) == AXIS_DIR_NONE && AxisPosGet(x) == n % 0x1_0000
  {
    n % 0x1_0000 + 0xFFFF_0000
  }

  /** The code of negative axis `n` names `n` in its negative half and
      nothing in its positive half; the positive code the other way round. */
  lemma AxisCodes(n: nat)
    requires n < AXIS_DIR_NONE
    ensures AxisNegGet(AxisNeg(n)) == n && AxisPosGet(AxisNeg(n)) == AXIS_DIR_NONE
    ensures AxisNegGet(AxisPos(n)) == AXIS_DIR_NONE && AxisPosGet(AxisPos(n)) == n
    ensures AxisNeg(n) != AXIS_NONE && AxisPos(n) != AXIS_NONE
  {
  }

  // ------------------------------------------- input_conv_analog_id_to_bind_id

  /** The analog half-axis binds a stick axis is read through. */
  datatype AnalogBind =
    | LeftXMinus | LeftXPlus | LeftYMinus | LeftYPlus
    | RightXMinus | RightXPlus | RightYMinus | RightYPlus

  /** libretro's stick and axis indices. */
  const ANALOG_LEFT: bv32 := 0
  const ANALOG_RIGHT: bv32 := 1
  const ANALOG_X: bv32 := 0
  const ANALOG_Y: bv32 := 1

  /** The bind pair for stick `stick` and axis `axis`, as a table. */
  function StickBinds(stick: bv32, axis: bv32): (AnalogBind, AnalogBind)
    requires stick < 2 && axis < 2
  {
    if stick == ANALOG_LEFT && axis == ANALOG_X then (LeftXMinus, LeftXPlus)
    else if stick == ANALOG_LEFT then (LeftYMinus, LeftYPlus)
    else if axis == ANALOG_X then (RightXMinus, RightXPlus)
    else (RightYMinus, RightYPlus)
  }

  /** The conversion switches on the 32-bit key `(idx << 1) | ident` and
      writes the (minus, plus) pair for the four stick cases; `None` means
      both output variables are left as they were. */
  function ConvAnalogId(idx: bv32, ident: bv32): (r: Conversion)
    ensures r.Pair? <==> ((idx << 1) | ident) < 4
  {
    var key := (idx << 1) | ident;
    if key == (ANALOG_LEFT << 1) | ANALOG_X then Pair(LeftXMinus, LeftXPlus)
    else if key == (ANALOG_LEFT << 1) | ANALOG_Y then Pair(LeftYMinus, LeftYPlus)
    else if key == (ANALOG_RIGHT << 1) | ANALOG_X then Pair(RightXMinus, RightXPlus)
    else if key == (ANALOG_RIGHT << 1) | ANALOG_Y then Pair(RightYMinus, RightYPlus)
    else Unchanged
  }

  datatype Conversion = Unchanged | Pair(minus: AnalogBind, plus: AnalogBind)

  /** Every stick and axis libretro names maps to its own pair of binds. */
  lemma ConvMatchesTable(idx: bv32, ident: bv32)
    requires idx < 2 && ident < 2
    ensures ConvAnalogId(idx, ident) == Pair(StickBinds(idx, ident).0, StickBinds(idx, ident).1)
  {
  }

  /** Any other stick index, and any axis index of 4 or more, leaves the
      outputs unchanged. */
  lemma ConvOtherUnchanged(idx: bv32, ident: bv32)
    requires (2 <= idx < 0x8000_0000) || ident >= 4
    ensures ConvAnalogId(idx, ident) == Unchanged
  {
  }

  /** The key is a bitwise or, so out-of-range indices alias stick cases:
      axis index 2 of the left stick reads as the right stick's X axis, and
      a stick index whose top bit is shifted out reads as the left stick. */
  lemma ConvAliases()
    ensures ConvAnalogId(0, 2) == Pair(RightXMinus, RightXPlus)
    ensures ConvAnalogId(0x8000_0000, 0) == Pair(LeftXMinus, LeftXPlus)
  {
  }
}
