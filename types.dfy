/** Machine integer widths, the Arduino level/mode constants and the slot
    records shared by the expander, its button handler and its rotary
    encoder handler. */
module GpioExpanderTypes {

  newtype uint8 = x: int | 0 <= x < 0x100
  newtype uint16 = x: int | 0 <= x < 0x1_0000
  newtype uint32 = x: int | 0 <= x < 0x1_0000_0000

  /** Pin levels and interrupt modes as the ESP32 Arduino core numbers them. */
  const LOW: uint8 := 0
  const HIGH: uint8 := 1
  const CHANGE: uint8 := 3

  datatype Option<T> = None | Some(value: T)

  /** One button slot (GpioExpanderButton). `lastState` and
      `lastStateChange` are declared by the source but never read or written. */
  datatype Button = Button(
    isUsed: bool,
    pin: uint8,
    mode: uint8,
    lastState: uint8,
    lastStateChange: uint32)

  /** The field initialisers of GpioExpanderButton; fields without an
      initialiser are given 0. */
  const DefaultButton := Button(false, 0, LOW, 0, 0)

  /** Direction recorded by the rotary decoder (GpioExpanderRotaryEncoderEventEnum). */
  datatype Direction = Still | Clockwise | CounterClockwise

  /** One rotary encoder slot (GpioExpanderRotaryEncoder). */
  datatype RotaryEncoder = RotaryEncoder(
    isUsed: bool,
    pin1: uint8,
    pin2: uint8,
    fullCycleBetweenDetents: bool,
    debounceMs: uint32,
    lastMovementMs: uint32,
    pin1State: uint8,
    pin2State: uint8,
    index: uint8,
    lastMovement: Direction)

  /** The field initialisers of GpioExpanderRotaryEncoder: both pin numbers
      and both stored pin states start at the 255 sentinel. */
  const DefaultRotaryEncoder := RotaryEncoder(false, 255, 255, false, 0, 0, 255, 255, 255, Still)
}
