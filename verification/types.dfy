/**
  Fixed-width integers, GPIO pins and touch-channel identifiers as the
  TouchSlider library uses them on the ESP32, plus the pin-to-channel mapping
  the hardware profile supplies.
 */
module Types {

  /** Number of touch channels of the ESP32 (TOUCH_PAD_MAX). The pin-to-channel
      mapping also returns this value for a pin that is not a touch pin. */
  const TouchPadMax: nat := 10

  /** The constructors clamp the number of slider pins to this bound. */
  const MaxSliderPins: nat := 10

  type uint8 = x: int | 0 <= x < 0x100
  type uint16 = x: int | 0 <= x < 0x1_0000
  type int8 = x: int | -0x80 <= x < 0x80
  type int16 = x: int | -0x8000 <= x < 0x8000

  /** A GPIO number (gpio_num_t). */
  type Pin = int

  /** GPIO_NUM_NC: "no pin". */
  const GpioNC: Pin := -1

  /** A touch channel (touch_pad_t), or the sentinel TouchPadMax meaning
      "this pin is not a touch pin". */
  type PadId = p: nat | p <= TouchPadMax

  /** The hardware profile's pin-to-channel lookup; unmapped pins yield TouchPadMax. */
  type PadMapping = Pin -> PadId

  datatype Option<T> = None | Some(value: T)

  /** Conversion of an int to int8 as the compiler performs it: x moved
      by whole multiples of 256 into -128..127 (see WrapInt8Offset). */
  function WrapInt8(x: int): (r: int8)
    ensures -0x80 <= x < 0x80 ==> r == x
    decreases if x >= 0x80 then x else if x < -0x80 then -x else 0
  {
    if x >= 0x80 then WrapInt8(x - 0x100)
    else if x < -0x80 then WrapInt8(x + 0x100)
    else x
  }

  /** Conversion of a non-negative int to uint16: the unique uint16 congruent
      to x modulo 65536. */
  function TruncUint16(x: nat): (r: uint16)
    ensures (r - x) % 0x1_0000 == 0
    ensures x < 0x1_0000 ==> r == x
  {
    x % 0x1_0000
  }

  /** The conversion only moves x by a multiple of 256. */
  lemma {:induction false} WrapInt8Offset(x: int)
    ensures (WrapInt8(x) - x) % 0x100 == 0
    decreases if x >= 0x80 then x else if x < -0x80 then -x else 0
  {
    if x >= 0x80 {
      WrapInt8Offset(x - 0x100);
    } else if x < -0x80 {
      WrapInt8Offset(x + 0x100);
    }
  }

  /** Two ints congruent modulo 256 convert to the same int8, so WrapInt8 is
      the unique int8 congruent to its argument. */
  lemma WrapInt8Congruent(x: int, y: int)
    requires (x - y) % 0x100 == 0
    ensures WrapInt8(x) == WrapInt8(y)
  {
    WrapInt8Offset(x);
    WrapInt8Offset(y);
    var a, b := WrapInt8(x), WrapInt8(y);
    var qa, qb, q := (a - x) / 0x100, (b - y) / 0x100, (x - y) / 0x100;
    assert a - b == 0x100 * (qa - qb + q);
  }

  /** Wrapping an intermediate sum does not change the final int8. */
  lemma WrapInt8Add(x: int, k: int)
    ensures WrapInt8(WrapInt8(x) + k) == WrapInt8(x + k)
  {
    WrapInt8Offset(x);
    WrapInt8Congruent(WrapInt8(x) + k, x + k);
  }

  /** The int8 difference of two wrapped counters is the wrapped difference
      of the unwrapped ones. */
  lemma WrapInt8Sub(a: int, b: int)
    ensures WrapInt8(WrapInt8(a) - WrapInt8(b)) == WrapInt8(a - b)
  {
    WrapInt8Offset(a);
    WrapInt8Offset(b);
    var qa, qb := (WrapInt8(a) - a) / 0x100, (WrapInt8(b) - b) / 0x100;
    assert (WrapInt8(a) - WrapInt8(b)) - (a - b) == 0x100 * (qa - qb);
    WrapInt8Congruent(WrapInt8(a) - WrapInt8(b), a - b);
  }
}

/** The ESP32 branch of the library's pin-to-channel table: one injective
    instance of Types.PadMapping. */
module Esp32Pins {
  import opened Types

  function PadOf(pin: Pin): (pad: PadId)
    ensures pad < TouchPadMax <==> pin in {4, 0, 2, 15, 13, 12, 14, 27, 33, 32}
  {
    if pin == 4 then 0
    else if pin == 0 then 1
    else if pin == 2 then 2
    else if pin == 15 then 3
    else if pin == 13 then 4
    else if pin == 12 then 5
    else if pin == 14 then 6
    else if pin == 27 then 7
    else if pin == 33 then 8
    else if pin == 32 then 9
    else TouchPadMax
  }

  /** No two touch pins share a channel. */
  lemma PadOfInjective(a: Pin, b: Pin)
    requires PadOf(a) < TouchPadMax && PadOf(a) == PadOf(b)
    ensures a == b
  {
  }
}
