/**
  The Linux evdev constants the daemon uses (linux/input-event-codes.h) and
  the kernel's event record (struct input_event of linux/input.h), with the
  C integer widths written out as subset types.
 */
module Evdev {

  type u16 = x: int | 0 <= x < 0x1_0000
  type u32 = x: int | 0 <= x < 0x1_0000_0000
  type s32 = x: int | -0x8000_0000 <= x < 0x8000_0000

  // Event types
  const EV_KEY := 0x01
  const EV_SW := 0x05
  const EV_CNT := 0x20

  // Switch and key codes
  const SW_LID := 0x00
  const KEY_MUTE := 113
  const KEY_VOLUMEDOWN := 114
  const KEY_VOLUMEUP := 115
  const KEY_POWER := 116
  const KEY_CONFIG := 171
  const KEY_BRIGHTNESSDOWN := 224
  const KEY_BRIGHTNESSUP := 225
  const KEY_MAX := 0x2ff

  /** An event type the kernel can report: one bit of the device's type bitmap. */
  type EvType = t: int | 0 <= t < EV_CNT

  /** A code within a type; KEY_MAX is the largest code of any type. */
  type EvCode = c: int | 0 <= c <= KEY_MAX

  /** One record read from a device; the timestamp is not interpreted and is left out. */
  datatype InputEvent = InputEvent(etype: u16, code: u16, value: s32)

  /**
    C's conversion of a signed 32-bit value to `unsigned`, which takes place
    when an event's value is compared with a table entry's unsigned value.
   */
  function AsUnsigned(v: s32): (u: u32)
    ensures v >= 0 ==> u == v
    ensures v < 0 ==> u == v + 0x1_0000_0000
  {
    v % 0x1_0000_0000
  }
}
