/** The button handler: decides from a button's trigger mode and the pin
    level whether one Pressed/Released event is sent. It keeps no state of
    its own and never writes the button slot, so there is no debounce. */
module GpioExpanderButtonHandler {
  import opened GpioExpanderTypes

  datatype ButtonEventKind = Pressed | Released

  /** GpioExpanderButtonEvent, queued by value; `E` is the expander's identity.
      Its `pin` field is 8 bits wide although the handler takes a 16-bit pin. */
  datatype ButtonEvent<E> = ButtonEvent(pin: uint8, event: ButtonEventKind, expander: E)

  /** Storing a 16-bit pin number in the 8-bit event field keeps its low byte. */
  function LowByte(pin: uint16): (b: uint8)
    ensures b as int == pin as int % 0x100
    ensures pin < 0x100 ==> b as int == pin as int
  {
    (pin as int % 0x100) as uint8
  }

  /** Whether a button in `mode` cares about a pin that reads `level`. */
  predicate Tracks(mode: uint8, level: uint16)
  {
    || ((mode == LOW || mode == CHANGE) && level == LOW as uint16)
    || ((mode == HIGH || mode == CHANGE) && level == HIGH as uint16)
  }

  /** GpioExpanderButtonHandler: the event it sends to the button queue, if
      any. Only the slot's `mode` is read. */
  function ButtonHandler<E>(expander: E, pin: uint16, device: Button, state: uint16): (r: Option<ButtonEvent<E>>)
    ensures r.Some? <==> Tracks(device.mode, state)
    ensures r.Some? ==> r.value.pin as int == pin as int % 0x100 && r.value.expander == expander
    ensures r.Some? ==> (r.value.event == Pressed <==> state == LOW as uint16)
  {
    var track :=
      if (device.mode == LOW || device.mode == CHANGE) && state == LOW as uint16 then true
      else if (device.mode == HIGH || device.mode == CHANGE) && state == HIGH as uint16 then true
      else false;
    if track then
      Some(ButtonEvent(LowByte(pin), if state == LOW as uint16 then Pressed else Released, expander))
    else
      None
  }

  /** A LOW-mode button reports presses only, and every LOW reading is one. */
  lemma LowModeOnlyPresses<E>(expander: E, pin: uint16, device: Button, state: uint16)
    requires device.mode == LOW
    ensures ButtonHandler(expander, pin, device, state) ==
            if state == LOW as uint16 then Some(ButtonEvent(LowByte(pin), Pressed, expander)) else None
  {
  }

  /** A HIGH-mode button reports releases only, and every HIGH reading is one. */
  lemma HighModeOnlyReleases<E>(expander: E, pin: uint16, device: Button, state: uint16)
    requires device.mode == HIGH
    ensures ButtonHandler(expander, pin, device, state) ==
            if state == HIGH as uint16 then Some(ButtonEvent(LowByte(pin), Released, expander)) else None
  {
  }

  /** A CHANGE-mode button reports exactly one event for each LOW or HIGH
      reading: Pressed for LOW, Released for HIGH, and nothing otherwise. */
  lemma ChangeModeReportsBoth<E>(expander: E, pin: uint16, device: Button, state: uint16)
    requires device.mode == CHANGE
    ensures ButtonHandler(expander, pin, device, state) ==
            if state == LOW as uint16 then Some(ButtonEvent(LowByte(pin), Pressed, expander))
            else if state == HIGH as uint16 then Some(ButtonEvent(LowByte(pin), Released, expander))
            else None
  {
  }

  /** The result does not depend on the slot's pin, `isUsed` bit or the
      unused `lastState`/`lastStateChange` fields: the handler reads `mode` only. */
  lemma HandlerReadsModeOnly<E>(expander: E, pin: uint16, a: Button, b: Button, state: uint16)
    requires a.mode == b.mode
    ensures ButtonHandler(expander, pin, a, state) == ButtonHandler(expander, pin, b, state)
  {
  }

  /** The events a button sends for a run of readings, in order: at most one
      per reading, each for the same pin and expander; nothing exactly when no
      reading is one the mode tracks, and one per reading exactly when every
      reading is. */
  function HandleAll<E>(expander: E, pin: uint16, device: Button, levels: seq<uint16>): (events: seq<ButtonEvent<E>>)
    ensures |events| <= |levels|
    ensures forall k :: 0 <= k < |events| ==> events[k].pin as int == pin as int % 0x100 && events[k].expander == expander
    ensures events == [] <==> forall k :: 0 <= k < |levels| ==> !Tracks(device.mode, levels[k])
    ensures |events| == |levels| <==> forall k :: 0 <= k < |levels| ==> Tracks(device.mode, levels[k])
  {
    if levels == [] then []
    else
      var rest := HandleAll(expander, pin, device, levels[1..]);
      match ButtonHandler(expander, pin, device, levels[0])
      case Some(e) => [e] + rest
      case None => rest
  }

  /** In CHANGE mode, readings that are all LOW or HIGH yield exactly one
      event each, in order, Pressed for LOW and Released for HIGH. */
  lemma {:induction false} ChangeModeOneEventPerReading<E>(expander: E, pin: uint16, device: Button, levels: seq<uint16>)
    requires device.mode == CHANGE
    requires forall k :: 0 <= k < |levels| ==> levels[k] == LOW as uint16 || levels[k] == HIGH as uint16
    ensures var events := HandleAll(expander, pin, device, levels);
      && |events| == |levels|
      && forall k :: 0 <= k < |levels| ==>
           events[k] == ButtonEvent(LowByte(pin), if levels[k] == LOW as uint16 then Pressed else Released, expander)
  {
    if levels != [] {
      ChangeModeOneEventPerReading(expander, pin, device, levels[1..]);
      ChangeModeReportsBoth(expander, pin, device, levels[0]);
      var rest := HandleAll(expander, pin, device, levels[1..]);
      var events := HandleAll(expander, pin, device, levels);
      assert events == [ButtonEvent(LowByte(pin), if levels[0] == LOW as uint16 then Pressed else Released, expander)] + rest;
      forall k | 0 < k < |levels|
        ensures events[k] == ButtonEvent(LowByte(pin), if levels[k] == LOW as uint16 then Pressed else Released, expander)
      {
        assert events[k] == rest[k - 1];
        assert levels[k] == levels[1..][k - 1];
      }
    }
  }
}
