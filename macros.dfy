/** The pin-bit macros: a 16-bit snapshot holds one pin level per bit. The C
    expressions are evaluated on a 32-bit `int`, so the masks are `bv32`. */
module GpioExpanderMacros {
  import opened GpioExpanderTypes

  /** Bit `pos` of a 16-bit snapshot, read by shifting right (the reference
      the masking macros are checked against). */
  function Bit(pins: bv16, pos: nat): (b: bv16)
    ensures b == 0 || b == 1
  {
    if pos < 16 then (pins >> pos) & 1 else 0
  }

  /** Bit `j` of a 32-bit C `int`. */
  function Bit32(word: bv32, j: nat): bv32
    requires j < 32
  {
    (word >> j) & 1
  }

  /** GPIOEXPANDERBUTTONS_PIN(i): the mask `1 << i`. A shift by 32 or more is
      undefined in C, hence the precondition. */
  function PinMask(i: nat): (m: bv32)
    requires i < 32
    ensures forall j: nat :: j < 32 ==> (Bit32(m, j) == 1 <==> j == i)
  {
    1 << i
  }

  /** True when `pins & (1 << pos)` is non-zero. */
  predicate MaskHit(pins: bv16, pos: nat)
  {
    pos < 32 && (pins as bv32) & PinMask(pos) != 0
  }

  /** GPIOEXPANDERBUTTONS_PIN_PRESSED(var, pos): the pin reads 0
      (a pulled-up button is pressed when it reads LOW). */
  predicate PinPressed(pins: bv16, pos: nat): (pressed: bool)
    ensures pressed <==> Bit(pins, pos) == 0
    ensures pressed <==> PinState(pins, pos) == LOW
  {
    // naming PIN_STATE brings in its contract, which reads the same bit
    var level := PinState(pins, pos);
    !MaskHit(pins, pos)
  }

  /** GPIOEXPANDERBUTTONS_PIN_STATE(var, pos): HIGH when the bit is set,
      LOW otherwise. */
  function PinState(pins: bv16, pos: nat): (level: uint8)
    ensures level == HIGH || level == LOW
    ensures level == HIGH <==> Bit(pins, pos) == 1
  {
    if MaskHit(pins, pos) then HIGH else LOW
  }

  /** PIN_STATE reads bit `pos` only: snapshots that agree on that bit give
      the same level, whatever their other bits are. */
  lemma PinStateReadsOneBit(a: bv16, b: bv16, pos: nat)
    requires Bit(a, pos) == Bit(b, pos)
    ensures PinState(a, pos) == PinState(b, pos)
    ensures PinPressed(a, pos) == PinPressed(b, pos)
  {
  }
}
