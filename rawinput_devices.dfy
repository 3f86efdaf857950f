/**
 * The state the RawInput provider keeps per device: the Windows handle a
 * device is attached through, the keyboard's key table, the mouse and
 * lightgun button bytes and axis accumulators, the hat-switch decoding of
 * a joystick report and the rule that decides whether a HID device has
 * enough buttons to be a joystick. Flag and usage constants are those of
 * the Windows RawInput and HID headers.
 */
module RawInputDevices {
  import opened Pixels
  import opened Wrappers

  /** flags & mask != 0, for a mask of one bit. */
  predicate Has(flags: u16, mask: nat)
    requires mask > 0
  {
    (flags / mask) % 2 == 1
  }

  /** RI_KEY_BREAK and RI_KEY_E0 of RAWKEYBOARD.Flags. */
  const KeyBreak: nat := 0x01
  const KeyE0: nat := 0x02

  /** MAX_KEYS: the size of the keyboard state table. */
  const MaxKeys: nat := 256

  /** The scancode RawInput sends for the fake shift around extended keys. */
  const FakeShift: nat := 0xaa

  /** The key state byte for a pressed and a released key. */
  const Pressed: u8 := 0x80
  const Released: u8 := 0x00

  /** MOUSE_MOVE_RELATIVE and MOUSE_MOVE_ABSOLUTE of RAWMOUSE.usFlags. */
  const MoveRelative: u16 := 0x00
  const MoveAbsolute: nat := 0x01

  /** RI_MOUSE_WHEEL of RAWMOUSE.usButtonFlags. */
  const Wheel: nat := 0x0400

  /** input_device::RELATIVE_PER_PIXEL: relative axis units per mickey or wheel step. */
  const RelativePerPixel: int := 512

  /** The number of buttons of a mouse or lightgun. */
  const MouseButtons: nat := 5

  /** RI_MOUSE_BUTTON_k_DOWN for button k (from 0). */
  function DownFlag(k: nat): nat
    requires k < MouseButtons
  {
    match k
    case 0 => 0x0001
    case 1 => 0x0004
    case 2 => 0x0010
    case 3 => 0x0040
    case _ => 0x0100
  }

  /** RI_MOUSE_BUTTON_k_UP for button k (from 0). */
  function UpFlag(k: nat): nat
    requires k < MouseButtons
  {
    match k
    case 0 => 0x0002
    case 1 => 0x0008
    case 2 => 0x0020
    case 3 => 0x0080
    case _ => 0x0200
  }

  // ---------------------------------------------------------------- devices

  /**
   * rawinput_device: a device known by its id, attached through a Windows
   * handle, or detached (no handle) after the device was unplugged.
   */
  class Device {
    const id: string
    var handle: Option<nat>

    constructor (id: string, handle: nat)
      ensures this.id == id && this.handle == Some(handle)
    {
      this.id := id;
      this.handle := Some(handle);
    }

    /** reconnect_candidate: a detached device whose id is the one that just arrived. */
    predicate ReconnectCandidate(i: string)
      reads this
    {
      handle.None? && id == i
    }

    /** detach_device: the handle goes away; the device now waits to be reconnected under its id. */
    method Detach()
      requires handle.Some?
      modifies this
      ensures handle.None? && ReconnectCandidate(id)
    {
      handle := None;
    }

    /** attach_device: a detached device takes the new handle and is no longer a candidate. */
    method Attach(h: nat)
      requires handle.None?
      modifies this
      ensures handle == Some(h) && forall i :: !ReconnectCandidate(i)
    {
      handle := Some(h);
    }
  }

  /**
   * The DIK-compatible scancode of a keyboard report: the low seven bits
   * of the make code, with bit 7 set for an E0-prefixed (extended) key.
   */
  function Scancode(makeCode: u16, flags: u16): (r: nat)
    ensures r < MaxKeys
    ensures r % 0x80 == makeCode % 0x80
    ensures r >= 0x80 <==> Has(flags, KeyE0)
  {
    // the two parts have no bit in common, so their OR is their sum
    makeCode % 0x80 + if Has(flags, KeyE0) then 0x80 else 0x00
  }

  /** Distinct keys get distinct scancodes: the code determines the low bits and the E0 flag. */
  lemma ScancodeInjective(make1: u16, flags1: u16, make2: u16, flags2: u16)
    ensures Scancode(make1, flags1) == Scancode(make2, flags2) <==>
      make1 % 0x80 == make2 % 0x80 && (Has(flags1, KeyE0) <==> Has(flags2, KeyE0))
  {
    var s1, s2 := Scancode(make1, flags1), Scancode(make2, flags2);
    DivModUnique(s1, 0x80, s1 / 0x80, s1 % 0x80);
    DivModUnique(s2, 0x80, s2 / 0x80, s2 % 0x80);
  }

  /** Every key of the table is either pressed or released. */
  predicate KeysBinary(state: seq<u8>)
  {
    forall k :: 0 <= k < |state| ==> state[k] == Pressed || state[k] == Released
  }

  /** rawinput_keyboard_device: one state byte per scancode. */
  class Keyboard {
    const device: Device
    const state: array<u8>

    constructor (id: string, handle: nat)
      ensures fresh(device) && device.id == id && device.handle == Some(handle)
      ensures state.Length == MaxKeys && forall k :: 0 <= k < MaxKeys ==> state[k] == Released
    {
      device := new Device(id, handle);
      state := new u8[MaxKeys](_ => Released);
    }

    /** reset: every key released. */
    method Reset()
      modifies state
      ensures forall k :: 0 <= k < state.Length ==> state[k] == Released
      ensures KeysBinary(state[..])
    {
      var k := 0;
      while k < state.Length
        invariant k <= state.Length
        invariant forall j :: 0 <= j < k ==> state[j] == Released
      {
        state[k] := Released;
        k := k + 1;
      }
    }

    /**
     * process_event: a make sets the key's byte to pressed and a break
     * clears it; the fake shift is ignored, and no other key changes.
     */
    method ProcessEvent(makeCode: u16, flags: u16)
      requires state.Length == MaxKeys
      modifies state
      ensures var sc := Scancode(makeCode, flags);
        state[..] == if sc == FakeShift then old(state[..])
                     else old(state[..])[sc := if Has(flags, KeyBreak) then Released else Pressed]
      ensures old(KeysBinary(state[..])) ==> KeysBinary(state[..])
    {
      var scancode := Scancode(makeCode, flags);
      if scancode == FakeShift {
        return;
      }
      state[scancode] := if Has(flags, KeyBreak) then Released else Pressed;
    }
  }

  /**
   * The five button updates of a mouse or lightgun report: DOWN presses
   * the button, UP releases it and wins when both are set, and a button
   * named by neither keeps its state.
   */
  method UpdateButtons(buttons: array<u8>, flags: u16)
    requires buttons.Length == MouseButtons
    modifies buttons
    ensures forall k :: 0 <= k < MouseButtons ==>
      buttons[k] == (if Has(flags, UpFlag(k)) then Released
                     else if Has(flags, DownFlag(k)) then Pressed
                     else old(buttons[k]))
  {
    UpdateButton(buttons, 0, flags);
    UpdateButton(buttons, 1, flags);
    UpdateButton(buttons, 2, flags);
    UpdateButton(buttons, 3, flags);
    UpdateButton(buttons, 4, flags);
  }

  /** The two updates of button k: the DOWN flag first, then the UP flag. */
  method UpdateButton(buttons: array<u8>, k: nat, flags: u16)
    requires k < MouseButtons == buttons.Length
    modifies buttons
    ensures buttons[k] == (if Has(flags, UpFlag(k)) then Released
                           else if Has(flags, DownFlag(k)) then Pressed
                           else old(buttons[k]))
    ensures forall j :: 0 <= j < buttons.Length && j != k ==> buttons[j] == old(buttons[j])
  {
    if Has(flags, DownFlag(k)) {
      buttons[k] := Pressed;
    }
    if Has(flags, UpFlag(k)) {
      buttons[k] := Released;
    }
  }

  /** int16_t(d): the two's complement reading of a 16-bit word. */
  function Signed16(d: u16): (r: int)
    ensures -0x8000 <= r < 0x8000
    ensures (r - d) % 0x1_0000 == 0
  {
    if d < 0x8000 then d else d - 0x1_0000
  }

  /** The wheel movement of a report, in relative axis units. */
  function WheelDelta(buttonFlags: u16, buttonData: u16): int
  {
    if Has(buttonFlags, Wheel) then Signed16(buttonData) * RelativePerPixel else 0
  }

  /**
   * rawinput_mouse_device: relative movement is accumulated in x, y and z
   * between polls; lX, lY and lZ are what the input system reads.
   */
  class Mouse {
    const device: Device
    const buttons: array<u8>
    var lX: int
    var lY: int
    var lZ: int
    var x: int
    var y: int
    var z: int

    constructor (id: string, handle: nat)
      ensures fresh(device) && device.id == id && device.handle == Some(handle)
      ensures buttons.Length == MouseButtons && forall k :: 0 <= k < MouseButtons ==> buttons[k] == Released
      ensures lX == lY == lZ == 0 && x == y == z == 0
    {
      device := new Device(id, handle);
      buttons := new u8[MouseButtons](_ => Released);
      lX, lY, lZ := 0, 0, 0;
      x, y, z := 0, 0, 0;
    }

    /** poll: with relative_reset, the accumulated movement is published and the accumulators restart. */
    method Poll(relativeReset: bool)
      modifies this
      ensures relativeReset ==> lX == old(x) && lY == old(y) && lZ == old(z) && x == y == z == 0
      ensures !relativeReset ==> lX == old(lX) && lY == old(lY) && lZ == old(lZ) && x == old(x) && y == old(y) && z == old(z)
    {
      if relativeReset {
        lX, x := x, 0;
        lY, y := y, 0;
        lZ, z := z, 0;
      }
    }

    /** reset: buttons released, axes and accumulators zero. */
    method Reset()
      modifies this, buttons
      ensures forall k :: 0 <= k < buttons.Length ==> buttons[k] == Released
      ensures lX == lY == lZ == 0 && x == y == z == 0
    {
      var k := 0;
      while k < buttons.Length
        invariant k <= buttons.Length
        invariant forall j :: 0 <= j < k ==> buttons[j] == Released
      {
        buttons[k] := Released;
        k := k + 1;
      }
      lX, lY, lZ := 0, 0, 0;
      x, y, z := 0, 0, 0;
    }

    /**
     * process_event: only a relative-movement report counts; it adds the
     * movement to the accumulators and updates the buttons. The published
     * axes do not move until the next poll.
     */
    method ProcessEvent(usFlags: u16, lastX: int, lastY: int, buttonFlags: u16, buttonData: u16)
      requires buttons.Length == MouseButtons
      modifies this`x, this`y, this`z, buttons
      ensures usFlags != MoveRelative ==>
        x == old(x) && y == old(y) && z == old(z) && buttons[..] == old(buttons[..])
      ensures usFlags == MoveRelative ==>
        x == old(x) + lastX * RelativePerPixel && y == old(y) + lastY * RelativePerPixel &&
        z == old(z) + WheelDelta(buttonFlags, buttonData) &&
        forall k :: 0 <= k < MouseButtons ==>
          buttons[k] == (if Has(buttonFlags, UpFlag(k)) then Released
                         else if Has(buttonFlags, DownFlag(k)) then Pressed
                         else old(buttons[k]))
    {
      if usFlags == MoveRelative {
        x := x + lastX * RelativePerPixel;
        y := y + lastY * RelativePerPixel;
        if Has(buttonFlags, Wheel) {
          z := z + Signed16(buttonData) * RelativePerPixel;
        }
        UpdateButtons(buttons, buttonFlags);
      }
    }
  }

  /**
   * rawinput_lightgun_device: absolute X/Y positions, a relative wheel
   * accumulated between polls, and five buttons. normalize is
   * normalize_absolute_axis(·, 0, ABSOLUTE_MAX).
   */
  class Lightgun {
    const device: Device
    const buttons: array<u8>
    var lX: int
    var lY: int
    var lZ: int
    var z: int

    constructor (id: string, handle: nat)
      ensures fresh(device) && device.id == id && device.handle == Some(handle)
      ensures buttons.Length == MouseButtons && forall k :: 0 <= k < MouseButtons ==> buttons[k] == Released
      ensures lX == lY == lZ == 0 && z == 0
    {
      device := new Device(id, handle);
      buttons := new u8[MouseButtons](_ => Released);
      lX, lY, lZ := 0, 0, 0;
      z := 0;
    }

    /** poll: with relative_reset, the accumulated wheel is published and restarts; X and Y are absolute. */
    method Poll(relativeReset: bool)
      modifies this`lZ, this`z
      ensures relativeReset ==> lZ == old(z) && z == 0
      ensures !relativeReset ==> lZ == old(lZ) && z == old(z)
    {
      if relativeReset {
        lZ, z := z, 0;
      }
    }

    /** reset: buttons released, axes and the wheel accumulator zero. */
    method Reset()
      modifies this, buttons
      ensures forall k :: 0 <= k < buttons.Length ==> buttons[k] == Released
      ensures lX == lY == lZ == 0 && z == 0
    {
      var k := 0;
      while k < buttons.Length
        invariant k <= buttons.Length
        invariant forall j :: 0 <= j < k ==> buttons[j] == Released
      {
        buttons[k] := Released;
        k := k + 1;
      }
      lX, lY, lZ := 0, 0, 0;
      z := 0;
    }

    /**
     * process_event: only a report with the absolute flag counts; it sets
     * the position, accumulates the wheel and updates the buttons.
     */
    method ProcessEvent(usFlags: u16, lastX: int, lastY: int, buttonFlags: u16, buttonData: u16,
                        normalize: int -> int)
      requires buttons.Length == MouseButtons
      modifies this`lX, this`lY, this`z, buttons
      ensures !Has(usFlags, MoveAbsolute) ==>
        lX == old(lX) && lY == old(lY) && z == old(z) && buttons[..] == old(buttons[..])
      ensures Has(usFlags, MoveAbsolute) ==>
        lX == normalize(lastX) && lY == normalize(lastY) &&
        z == old(z) + WheelDelta(buttonFlags, buttonData) &&
        forall k :: 0 <= k < MouseButtons ==>
          buttons[k] == (if Has(buttonFlags, UpFlag(k)) then Released
                         else if Has(buttonFlags, DownFlag(k)) then Pressed
                         else old(buttons[k]))
    {
      if Has(usFlags, MoveAbsolute) {
        lX := normalize(lastX);
        lY := normalize(lastY);
        if Has(buttonFlags, Wheel) {
          z := z + Signed16(buttonData) * RelativePerPixel;
        }
        UpdateButtons(buttons, buttonFlags);
      }
    }
  }

  /** No report is taken both as mouse movement and as a lightgun position. */
  lemma MouseOrLightgun(usFlags: u16)
    ensures !(usFlags == MoveRelative && Has(usFlags, MoveAbsolute))
  {
  }

  // ------------------------------------------------------------- joysticks

  /** How many of the four hat directions a decoded hat switch presses. */
  function PressedCount(hats: seq<int>): nat
    requires |hats| == 4
  {
    (if hats[0] == Pressed then 1 else 0) + (if hats[1] == Pressed then 1 else 0) +
    (if hats[2] == Pressed then 1 else 0) + (if hats[3] == Pressed then 1 else 0)
  }

  /**
   * The hat-switch branch of set_value_caps: hat_value (the usage value
   * less the logical minimum) 0 to 7 is up, up-right, right, down-right,
   * down, down-left, left, up-left; the four outputs are up, down, left
   * and right. Opposite directions are never pressed together, a
   * diagonal presses two directions and a straight position one, and
   * any other value (the centred position) presses none.
   */
  function HatSwitch(hatValue: int): (hats: seq<int>)
    ensures |hats| == 4 && forall k :: 0 <= k < 4 ==> hats[k] == Pressed || hats[k] == Released
    ensures !(hats[0] == Pressed && hats[1] == Pressed) && !(hats[2] == Pressed && hats[3] == Pressed)
    ensures PressedCount(hats) == if 0 <= hatValue < 8 then (if hatValue % 2 == 0 then 1 else 2) else 0
  {
    [ if hatValue == 0 || hatValue == 1 || hatValue == 7 then Pressed else Released,
      if hatValue == 3 || hatValue == 4 || hatValue == 5 then Pressed else Released,
      if hatValue == 5 || hatValue == 6 || hatValue == 7 then Pressed else Released,
      if hatValue == 1 || hatValue == 2 || hatValue == 3 then Pressed else Released ]
  }

  /** A diagonal presses exactly the directions of its two neighbouring straight positions. */
  lemma HatDiagonals(v: int)
    requires 0 <= v < 8 && v % 2 == 1
    ensures forall k :: 0 <= k < 4 ==>
      (HatSwitch(v)[k] == Pressed <==> HatSwitch(v - 1)[k] == Pressed || HatSwitch((v + 1) % 8)[k] == Pressed)
  {
  }

  /** HID_USAGE_PAGE_BUTTON, and buttons_length_cap of is_valid_joystick. */
  const ButtonPage: nat := 0x09
  const ButtonsCap: nat := 32

  /** HID_USAGE_GENERIC_JOYSTICK and HID_USAGE_GENERIC_GAMEPAD. */
  const UsageJoystick: nat := 0x04
  const UsageGamepad: nat := 0x05

  /** The part of a HIDP_BUTTON_CAPS the button count looks at. */
  datatype ButtonCaps = ButtonCaps(usagePage: nat, usageMin: nat, usageMax: nat)

  /** A button range the count uses: both usages nonzero, on the button page, starting within the cap. */
  predicate Counted(c: ButtonCaps)
  {
    c.usageMin != 0 && c.usageMax != 0 && c.usagePage == ButtonPage && c.usageMin - 1 < ButtonsCap
  }

  /** The number of buttons a counted range implies: its last index, capped, plus one. */
  function RangeButtons(c: ButtonCaps): nat
    requires Counted(c)
  {
    (if c.usageMax - 1 < ButtonsCap - 1 then c.usageMax - 1 else ButtonsCap - 1) + 1
  }

  /**
   * The button-count loop of is_valid_joystick: the largest number of
   * buttons any counted range implies, never more than 32, and zero
   * exactly when no range is counted.
   */
  method ButtonCount(caps: seq<ButtonCaps>) returns (count: nat)
    ensures count <= ButtonsCap
    ensures forall c :: c in caps && Counted(c) ==> RangeButtons(c) <= count
    ensures count == 0 || exists c :: c in caps && Counted(c) && RangeButtons(c) == count
    ensures count == 0 <==> forall c :: c in caps ==> !Counted(c)
  {
    count := 0;
    for i := 0 to |caps|
      invariant count <= ButtonsCap
      invariant forall j :: 0 <= j < i && Counted(caps[j]) ==> RangeButtons(caps[j]) <= count
      invariant count == 0 || exists j :: 0 <= j < i && Counted(caps[j]) && RangeButtons(caps[j]) == count
      invariant count == 0 <==> forall j :: 0 <= j < i ==> !Counted(caps[j])
    {
      var usageMin, usageMax := caps[i].usageMin, caps[i].usageMax;
      if usageMin == 0 || usageMax == 0 {
        continue;
      }
      var indexMin, indexMax := usageMin - 1, usageMax - 1;
      if caps[i].usagePage == ButtonPage && indexMin < ButtonsCap {
        indexMax := if ButtonsCap - 1 < indexMax then ButtonsCap - 1 else indexMax;
        count := if count < indexMax + 1 then indexMax + 1 else count;
      }
    }
  }

  /**
   * The decision of is_valid_joystick once the HID queries have answered:
   * a joystick or gamepad usage, at least one button or value capability,
   * and at least one counted button range.
   */
  method IsValidJoystick(usage: nat, valueCaps: nat, caps: seq<ButtonCaps>) returns (ok: bool)
    ensures ok <==> (usage == UsageJoystick || usage == UsageGamepad) && exists c :: c in caps && Counted(c)
  {
    if usage != UsageJoystick && usage != UsageGamepad {
      return false;
    }
    if |caps| < 1 && valueCaps < 1 {
      return false;
    }
    var count := ButtonCount(caps);
    ok := count >= 1;
  }
}
