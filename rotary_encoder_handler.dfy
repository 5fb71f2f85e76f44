/** The Gray-code quadrature decoder. The two pin levels form a position
    value (pin2 * 2 + pin1, truncated to 8 bits); the table
    GpioExpanderRotaryMovement orders the four values around one cycle; the
    difference of two table indices, masked with `& 3`, gives the step. A
    movement is latched on steps 1 and 3 and reported at the detent values
    0 and 3. */
module GpioExpanderRotaryEncoderHandler {
  import opened GpioExpanderTypes

  /** GpioExpanderRotaryMovement: position values in rotation order. The
      detent values 0 and 3 sit at indices 1 and 3. */
  const RotaryMovement: seq<uint8> := [2, 0, 1, 3]

  /** The inverse of RotaryMovement written out case by case; 255 for a
      value that is not in the table. */
  function PositionIndex(positionValue: uint8): (index: uint8)
    ensures index == 255 || index < 4
  {
    match positionValue
    case 2 => 0
    case 0 => 1
    case 1 => 2
    case 3 => 3
    case _ => 255
  }

  /** PositionIndex inverts the table: it finds every table value at its own
      index, and only table values have an index. */
  lemma {:induction false} PositionIndexInvertsTable(positionValue: uint8, i: nat)
    requires i < |RotaryMovement|
    ensures PositionIndex(RotaryMovement[i]) as nat == i
    ensures PositionIndex(positionValue) < 4 <==> positionValue in RotaryMovement
    ensures PositionIndex(positionValue) < 4 ==> RotaryMovement[PositionIndex(positionValue)] == positionValue
  {
    assert RotaryMovement[0] == 2 && RotaryMovement[1] == 0 && RotaryMovement[2] == 1 && RotaryMovement[3] == 3;
  }

  /** GpioExpanderRotaryEncoderFindPositionIndex: a linear search of the
      table with an early return, 255 when nothing matches. */
  method FindPositionIndex(positionValue: uint8) returns (index: uint8)
    ensures index == PositionIndex(positionValue)
    ensures index < 4 ==> RotaryMovement[index] == positionValue
    ensures index == 255 <==> positionValue !in RotaryMovement
  {
    var i := 0;
    while i < 4
      invariant 0 <= i <= 4
      invariant forall j :: 0 <= j < i ==> RotaryMovement[j] != positionValue
    {
      if positionValue == RotaryMovement[i] {
        return i as uint8;
      }
      i := i + 1;
    }
    assert RotaryMovement[0] != positionValue && RotaryMovement[1] != positionValue;
    assert RotaryMovement[2] != positionValue && RotaryMovement[3] != positionValue;
    return 255;
  }

  /** `pin2State * 2 + pin1State`, computed in `int` and stored in a uint8. */
  function PositionValue(pin1State: uint8, pin2State: uint8): (v: uint8)
    ensures pin1State <= 1 && pin2State <= 1 ==> v as int == 2 * pin2State as int + pin1State as int
  {
    ((pin2State as int * 2 + pin1State as int) % 0x100) as uint8
  }

  /** `(positionIndex - lastPositionIndex) & 3`: the operands are promoted
      to `int`, and `& 3` keeps the two low bits of the two's-complement
      difference, which is Dafny's Euclidean `% 4`. */
  function Delta(positionIndex: uint8, lastPositionIndex: uint8): (delta: uint8)
    ensures delta < 4
  {
    ((positionIndex as int - lastPositionIndex as int) % 4) as uint8
  }

  /** Detent values: the positions at which a latched movement is reported. */
  predicate IsDetent(positionValue: uint8)
  {
    positionValue == 0 || positionValue == 3
  }

  /** The movement latched for a position change: step 1 is Clockwise,
      step 3 CounterClockwise, and any other step ("jumped") keeps the
      previous movement. */
  function Movement(previous: Direction, delta: uint8): (m: Direction)
    ensures delta == 1 ==> m == Clockwise
    ensures delta == 3 ==> m == CounterClockwise
    ensures delta != 1 && delta != 3 ==> m == previous
  {
    if delta == 1 then Clockwise
    else if delta == 3 then CounterClockwise
    else previous
  }

  /** GpioExpanderRotaryEncoderEvent as the handler stages it (the `pin`
      field is never set by the handler and is left out). */
  datatype RotaryEvent<E> = RotaryEvent(event: Direction, expander: E, device: nat, eventMillis: uint32)

  /** The decoder's effect on one slot: the updated slot and whether an
      event is raised (its direction is the updated `lastMovement`). */
  datatype Decoded = Decoded(device: RotaryEncoder, isEvent: bool)

  /** The state update and event decision of GpioExpanderRotaryEncoderHandler
      for the levels `pin1State`, `pin2State` read at time `now`. */
  function RotaryStep(d: RotaryEncoder, pin1State: uint8, pin2State: uint8, now: uint32): (r: Decoded)
    // an unchanged position touches nothing and raises nothing
    ensures PositionValue(pin1State, pin2State) == PositionValue(d.pin1State, d.pin2State) ==> r == Decoded(d, false)
    // on a change only the movement, the time stamp and the stored levels are written
    ensures PositionValue(pin1State, pin2State) != PositionValue(d.pin1State, d.pin2State) ==>
      r.device == d.(lastMovement := r.device.lastMovement, lastMovementMs := now,
                     pin1State := pin1State, pin2State := pin2State)
    // a change latches the movement its step gives (step 1, step 3, or the old one)
    ensures PositionValue(pin1State, pin2State) != PositionValue(d.pin1State, d.pin2State) ==>
      r.device.lastMovement ==
        Movement(d.lastMovement, Delta(PositionIndex(PositionValue(pin1State, pin2State)),
                                       PositionIndex(PositionValue(d.pin1State, d.pin2State))))
    // an event is raised exactly on a change that lands on a detent
    ensures r.isEvent <==>
      PositionValue(pin1State, pin2State) != PositionValue(d.pin1State, d.pin2State) &&
      IsDetent(PositionValue(pin1State, pin2State))
  {
    var positionValue := PositionValue(pin1State, pin2State);
    var lastPositionValue := PositionValue(d.pin1State, d.pin2State);
    var delta := Delta(PositionIndex(positionValue), PositionIndex(lastPositionValue));
    if positionValue != lastPositionValue then
      var moved := d.(lastMovement := Movement(d.lastMovement, delta));
      Decoded(moved.(lastMovementMs := now, pin1State := pin1State, pin2State := pin2State),
              positionValue == 0 || positionValue == 3)
    else
      Decoded(d, false)
  }

  /** GpioExpanderRotaryEncoderHandler on slot `slot` of `devices`: updates
      the slot in place and returns the staged event when `isEvent` is set
      (the queue send is disabled in the source, so the event is only returned). */
  method RotaryEncoderHandler<E>(expander: E, devices: array<RotaryEncoder>, slot: nat,
                                 pin1State: uint8, pin2State: uint8, now: uint32)
    returns (event: Option<RotaryEvent<E>>)
    requires slot < devices.Length
    modifies devices
    ensures devices[..] == old(devices[..])[slot := RotaryStep(old(devices[slot]), pin1State, pin2State, now).device]
    ensures event.Some? == RotaryStep(old(devices[slot]), pin1State, pin2State, now).isEvent
    ensures event.Some? ==> event.value == RotaryEvent(devices[slot].lastMovement, expander, slot, now)
  {
    var isEvent := false;
    var direction := Still;

    var positionValue := PositionValue(pin1State, pin2State);
    var positionIndex := FindPositionIndex(positionValue);

    var lastPositionValue := PositionValue(devices[slot].pin1State, devices[slot].pin2State);
    var lastPositionIndex := FindPositionIndex(lastPositionValue);

    var delta := Delta(positionIndex, lastPositionIndex);

    if positionValue != lastPositionValue {
      if delta == 1 {
        devices[slot] := devices[slot].(lastMovement := Clockwise);
      } else if delta == 3 {
        devices[slot] := devices[slot].(lastMovement := CounterClockwise);
      }

      if positionValue == 0 || positionValue == 3 {
        isEvent := true;
        direction := devices[slot].lastMovement;
      }

      devices[slot] := devices[slot].(lastMovementMs := now);
      devices[slot] := devices[slot].(pin1State := pin1State);
      devices[slot] := devices[slot].(pin2State := pin2State);
    }

    event := if isEvent then Some(RotaryEvent(direction, expander, slot, now)) else None;
  }

  /** Read in table order, step 1 goes to the next table entry, step 3 to
      the previous one, step 0 stays, and step 2 jumps to the opposite entry. */
  lemma StepFollowsTableOrder(lastValue: uint8, value: uint8)
    requires lastValue in RotaryMovement && value in RotaryMovement
    ensures var i := PositionIndex(lastValue) as int;
      && i < 4
      && (Delta(PositionIndex(value), PositionIndex(lastValue)) == 1 <==> value == RotaryMovement[(i + 1) % 4])
      && (Delta(PositionIndex(value), PositionIndex(lastValue)) == 3 <==> value == RotaryMovement[(i + 3) % 4])
      && (Delta(PositionIndex(value), PositionIndex(lastValue)) == 2 <==> value == RotaryMovement[(i + 2) % 4])
      && (Delta(PositionIndex(value), PositionIndex(lastValue)) == 0 <==> value == lastValue)
  {
    assert RotaryMovement[0] == 2 && RotaryMovement[1] == 0 && RotaryMovement[2] == 1 && RotaryMovement[3] == 3;
  }

  /** Levels that a pin can actually read back from the snapshot. */
  predicate IsLevel(x: uint8)
  {
    x == LOW || x == HIGH
  }

  /** Real levels always form one of the four table values. */
  lemma LevelsInTable(pin1State: uint8, pin2State: uint8)
    requires IsLevel(pin1State) && IsLevel(pin2State)
    ensures PositionValue(pin1State, pin2State) in RotaryMovement
    ensures PositionIndex(PositionValue(pin1State, pin2State)) < 4
  {
    assert RotaryMovement[0] == 2 && RotaryMovement[1] == 0 && RotaryMovement[2] == 1 && RotaryMovement[3] == 3;
  }

  /** A change of position latches the movement its step gives. */
  lemma ChangeLatchesMovement(d: RotaryEncoder, pin1State: uint8, pin2State: uint8, now: uint32)
    requires PositionValue(pin1State, pin2State) != PositionValue(d.pin1State, d.pin2State)
    ensures RotaryStep(d, pin1State, pin2State, now).device.lastMovement ==
      Movement(d.lastMovement, Delta(PositionIndex(PositionValue(pin1State, pin2State)),
                                     PositionIndex(PositionValue(d.pin1State, d.pin2State))))
  {
  }

  /** When the stored and the new position are table values (as for any real
      levels, by LevelsInTable), a quarter turn forward in table order
      latches Clockwise. */
  lemma QuarterTurnForward(d: RotaryEncoder, pin1State: uint8, pin2State: uint8, now: uint32)
    requires PositionValue(d.pin1State, d.pin2State) in RotaryMovement && PositionValue(pin1State, pin2State) in RotaryMovement
    ensures var i := PositionIndex(PositionValue(d.pin1State, d.pin2State)) as int;
      && i < 4
      && (PositionValue(pin1State, pin2State) == RotaryMovement[(i + 1) % 4] ==>
            RotaryStep(d, pin1State, pin2State, now).device.lastMovement == Clockwise)
  {
    var lastValue := PositionValue(d.pin1State, d.pin2State);
    var value := PositionValue(pin1State, pin2State);
    StepFollowsTableOrder(lastValue, value);
    if value == RotaryMovement[(PositionIndex(lastValue) as int + 1) % 4] {
      ChangeLatchesMovement(d, pin1State, pin2State, now);
    }
  }

  /** On table values, a quarter turn back in table order latches
      CounterClockwise. */
  lemma QuarterTurnBack(d: RotaryEncoder, pin1State: uint8, pin2State: uint8, now: uint32)
    requires PositionValue(d.pin1State, d.pin2State) in RotaryMovement && PositionValue(pin1State, pin2State) in RotaryMovement
    ensures var i := PositionIndex(PositionValue(d.pin1State, d.pin2State)) as int;
      && i < 4
      && (PositionValue(pin1State, pin2State) == RotaryMovement[(i + 3) % 4] ==>
            RotaryStep(d, pin1State, pin2State, now).device.lastMovement == CounterClockwise)
  {
    var lastValue := PositionValue(d.pin1State, d.pin2State);
    var value := PositionValue(pin1State, pin2State);
    StepFollowsTableOrder(lastValue, value);
    if value == RotaryMovement[(PositionIndex(lastValue) as int + 3) % 4] {
      ChangeLatchesMovement(d, pin1State, pin2State, now);
    }
  }

  /** On table values, a half turn ("jumped") keeps the movement latched
      before. */
  lemma HalfTurnKeepsMovement(d: RotaryEncoder, pin1State: uint8, pin2State: uint8, now: uint32)
    requires PositionValue(d.pin1State, d.pin2State) in RotaryMovement && PositionValue(pin1State, pin2State) in RotaryMovement
    ensures var i := PositionIndex(PositionValue(d.pin1State, d.pin2State)) as int;
      && i < 4
      && (PositionValue(pin1State, pin2State) == RotaryMovement[(i + 2) % 4] ==>
            RotaryStep(d, pin1State, pin2State, now).device.lastMovement == d.lastMovement)
  {
    var lastValue := PositionValue(d.pin1State, d.pin2State);
    var value := PositionValue(pin1State, pin2State);
    StepFollowsTableOrder(lastValue, value);
    if value == RotaryMovement[(PositionIndex(lastValue) as int + 2) % 4] {
      ChangeLatchesMovement(d, pin1State, pin2State, now);
    }
  }

  /** The decoder never reads `debounceMs` or `fullCycleBetweenDetents`: two
      slots that differ only there decode alike and keep their difference. */
  lemma DecoderIgnoresConfiguration(d: RotaryEncoder, debounceMs: uint32, fullCycle: bool,
                                    pin1State: uint8, pin2State: uint8, now: uint32)
    ensures var r := RotaryStep(d, pin1State, pin2State, now);
      RotaryStep(d.(debounceMs := debounceMs, fullCycleBetweenDetents := fullCycle), pin1State, pin2State, now)
        == Decoded(r.device.(debounceMs := debounceMs, fullCycleBetweenDetents := fullCycle), r.isEvent)
  {
  }

  /** The directions of the events raised by feeding `readings` (pairs of
      pin1/pin2 levels) to one slot in turn. */
  function RotaryRun(d: RotaryEncoder, readings: seq<(uint8, uint8)>, now: uint32): (r: (RotaryEncoder, seq<Direction>))
    ensures |r.1| <= |readings|
    decreases |readings|
  {
    if readings == [] then (d, [])
    else
      var step := RotaryStep(d, readings[0].0, readings[0].1, now);
      var rest := RotaryRun(step.device, readings[1..], now);
      (rest.0, if step.isEvent then [step.device.lastMovement] + rest.1 else rest.1)
  }

  /** Feeding the position already stored, any number of times, changes
      nothing and raises nothing. */
  lemma {:induction false} RepeatedPositionIsIdle(d: RotaryEncoder, readings: seq<(uint8, uint8)>, now: uint32)
    requires forall k :: 0 <= k < |readings| ==>
      PositionValue(readings[k].0, readings[k].1) == PositionValue(d.pin1State, d.pin2State)
    ensures RotaryRun(d, readings, now) == (d, [])
  {
    if readings != [] {
      assert RotaryStep(d, readings[0].0, readings[0].1, now) == Decoded(d, false);
      RepeatedPositionIsIdle(d, readings[1..], now);
    }
  }

  /** One full forward cycle (0,0) -> (1,0) -> (1,1) -> (0,1) -> (0,0),
      written as (pin1, pin2), from a slot resting at (0,0): Clockwise is
      reported at both detents it passes, (1,1) and (0,0). */
  lemma FullCycleForward(d: RotaryEncoder, now: uint32)
    requires d.pin1State == 0 && d.pin2State == 0
    ensures var r := RotaryRun(d, [(0, 0), (1, 0), (1, 1), (0, 1), (0, 0)], now);
      r.1 == [Clockwise, Clockwise] && r.0.pin1State == 0 && r.0.pin2State == 0 && r.0.lastMovement == Clockwise
  {
    var d1 := RotaryStep(d, 1, 0, now).device;
    var d2 := RotaryStep(d1, 1, 1, now).device;
    var d3 := RotaryStep(d2, 0, 1, now).device;
    var d4 := RotaryStep(d3, 0, 0, now).device;
    // the first reading repeats the resting position; each later one is a quarter turn forward
    assert d1.pin1State == 1 && d1.pin2State == 0 && d1.lastMovement == Clockwise;
    assert d2.pin1State == 1 && d2.pin2State == 1 && d2.lastMovement == Clockwise;
    assert d3.pin1State == 0 && d3.pin2State == 1 && d3.lastMovement == Clockwise;
    assert d4.pin1State == 0 && d4.pin2State == 0 && d4.lastMovement == Clockwise;
  }

  /** The same cycle backwards, (0,0) -> (0,1) -> (1,1) -> (1,0) -> (0,0):
      CounterClockwise at both detents. */
  lemma FullCycleBackward(d: RotaryEncoder, now: uint32)
    requires d.pin1State == 0 && d.pin2State == 0
    ensures var r := RotaryRun(d, [(0, 0), (0, 1), (1, 1), (1, 0), (0, 0)], now);
      r.1 == [CounterClockwise, CounterClockwise] && r.0.lastMovement == CounterClockwise
  {
    var d1 := RotaryStep(d, 0, 1, now).device;
    var d2 := RotaryStep(d1, 1, 1, now).device;
    var d3 := RotaryStep(d2, 1, 0, now).device;
    var d4 := RotaryStep(d3, 0, 0, now).device;
    // the first reading repeats the resting position; each later one is a quarter turn back
    assert d1.pin1State == 0 && d1.pin2State == 1 && d1.lastMovement == CounterClockwise;
    assert d2.pin1State == 1 && d2.pin2State == 1 && d2.lastMovement == CounterClockwise;
    assert d3.pin1State == 1 && d3.pin2State == 0 && d3.lastMovement == CounterClockwise;
    assert d4.pin1State == 0 && d4.pin2State == 0 && d4.lastMovement == CounterClockwise;
  }

  /** The 255/255 sentinel of a fresh slot has position value 253 (wrapped
      in a uint8), which is not in the table. A first reading at either
      detent is a change with step 2 or 0, so it raises an event whose
      direction is still `Still`. */
  lemma SentinelFirstDetentIsStill(now: uint32)
    ensures PositionValue(255, 255) == 253 && PositionIndex(253) == 255
    ensures RotaryStep(DefaultRotaryEncoder, 0, 0, now).isEvent
    ensures RotaryStep(DefaultRotaryEncoder, 0, 0, now).device.lastMovement == Still
    ensures RotaryStep(DefaultRotaryEncoder, 1, 1, now).isEvent
    ensures RotaryStep(DefaultRotaryEncoder, 1, 1, now).device.lastMovement == Still
  {
  }

  /** From the same sentinel, a first reading between detents latches a
      direction without reporting it: (0,1) is step 1 and latches Clockwise,
      (1,0) is step 3 and latches CounterClockwise. */
  lemma SentinelTransitionalLatches(now: uint32)
    ensures !RotaryStep(DefaultRotaryEncoder, 0, 1, now).isEvent
    ensures RotaryStep(DefaultRotaryEncoder, 0, 1, now).device.lastMovement == Clockwise
    ensures !RotaryStep(DefaultRotaryEncoder, 1, 0, now).isEvent
    ensures RotaryStep(DefaultRotaryEncoder, 1, 0, now).device.lastMovement == CounterClockwise
  {
  }
}
