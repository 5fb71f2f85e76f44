# GpioExpanderLib in Dafny

GpioExpanderLib drives MCP23X17 16-pin I/O expanders from an ESP32. The
expanders hold buttons and quadrature rotary encoders. Each expander owns two
fixed-size slot tables, one of buttons and one of rotary encoders. All
expanders are registered in one process-wide table of eight entries.

One interrupt routine wakes one service task. On each pass the task does three
things:

- It finds the first registered expander whose interrupt-pin read returns
  LOW. That read is the expander's own `digitalRead(GetInterruptPin())`
  (src/GpioExpanderLib.h:165). The wrapper forwards it to the chip driver
  (src/GpioExpanderLib.h:348-351). So it reads the expander chip's pin that
  has the same number as the MCU interrupt pin, and not the MCU pin wired up
  by `attachInterrupt` (src/GpioExpanderLib.h:307-308).
- It drains that expander: it reads the last interrupt pin and, when that pin
  is not 255, reads the captured 16-bit pin snapshot and clears the latch.
- It routes the snapshot. The first used button bound to the interrupt pin
  gets one call. Every used rotary encoder gets one call.

The button handler turns a trigger mode (LOW, HIGH or CHANGE) and a pin level
into at most one Pressed or Released event. The rotary-encoder handler is a
Gray-code decoder:

- The two pin levels form a position value `pin2 * 2 + pin1`.
- The table {2, 0, 1, 3} orders the four values around one cycle.
- The masked difference of two table indices gives the step.
- Steps 1 and 3 latch Clockwise and CounterClockwise.
- A movement is reported when the position lands on one of the detent values
  0 and 3.

The project has these modules:

- `GpioExpanderTypes` (`types.dfy`): machine integer widths, the ESP32 Arduino
  constants LOW = 0, HIGH = 1 and CHANGE = 3, and the two slot records with
  their field initialisers.
- `GpioExpanderMacros` (`macros.dfy`): the pin-bit macros, on `bv16`/`bv32`.
- `GpioExpanderButtonHandler` (`button_handler.dfy`): the button trigger
  filter, as a pure function.
- `GpioExpanderRotaryEncoderHandler` (`rotary_encoder_handler.dfy`):
  - the position table and its linear search;
  - the decoder step, as the function `RotaryStep`;
  - the handler, as a method that updates one slot of an array in place.
- `GpioExpanderSlots` (`slots.dfy`): what AddButton and AddRotaryEncoder do to a
  slot table, stated on values, and the table invariants they keep.
- `GpioExpanderLib` (`expander.dfy`):
  - class `GpioExpander`, whose slot arrays are updated in place by
    `AddButton`, `AddRotaryEncoder` and the rotary loop of a pass;
  - class `ExpanderRegistry`, the eight-entry expander table;
  - one service pass: `FindActive`, then `Service`, which uses `RouteButton`,
    `RouteEncoders` and `RouteEncoder`.
  - Every method is tied to a specification function: `ServiceCalls`,
    `ButtonEventsOf`, `DecodeAll`, `RegisterIn` and `FirstActive`. The lemmas
    are stated about those functions.

A slot address (`&_buttons[i]`) is modelled as the slot index. `nullptr` is
modelled as `None`.

The chip driver's answers come into a pass as parameters:

- `lineLow[i]`: entry i's chip-driver read `digitalRead(GetInterruptPin())`
  returns LOW. Whatever pin that read touches, the model takes its answer as
  given;
- the last interrupt pin;
- the captured snapshot;
- `heldAllPins`: the value the task's `allPins` variable still holds when no
  pin is reported.

A pass returns the driver and handler calls it makes, in order, as a list of
`ServiceCall`. It also returns the button events it queues. The clock reading
`millis()` is the parameter `now`.

Facts about the code that the lemmas make explicit:

- The decoder raises an event at every change that lands on detent value 0 or
  3 (src/GpioExpanderRotaryEncoderHandler.h:108-119). So a full forward cycle
  from rest reports Clockwise twice, once at each detent it passes
  (`FullCycleForward`).
- The slot records carry `debounceMs`, `fullCycleBetweenDetents` (src/GpioExpanderLib.h:50-51)
  and `lastState`, `lastStateChange` (src/GpioExpanderLib.h:39-40), but no
  handler reads them. There is no debounce anywhere
  (`DecoderIgnoresConfiguration`, `HandlerReadsModeOnly`).
- A change that jumps two steps onto a detent still raises an event, with the
  previously latched direction (src/GpioExpanderRotaryEncoderHandler.h:92-115).
- A fresh slot stores the levels 255/255 (src/GpioExpanderLib.h:57-58). They
  wrap to position value 253, which is not in the table. So the first detent
  read from a fresh slot raises an event whose direction is `Still`
  (`SentinelFirstDetentIsStill`). A first read of a transitional position
  latches a direction without an event (`SentinelTransitionalLatches`).

## Model

| member | source | states |
|---|---|---|
| `GpioExpanderMacros.PinMask` | src/GpioExpanderMacros.h:5 | `1 << i` has bit i set and every other bit of the 32-bit word clear |
| `GpioExpanderMacros.PinPressed` | src/GpioExpanderMacros.h:6 | PIN_PRESSED holds exactly when bit `pos` of the snapshot is 0, which is exactly when PIN_STATE reads LOW |
| `GpioExpanderMacros.PinState` | src/GpioExpanderMacros.h:7 | the level is HIGH or LOW, and it is HIGH exactly when bit `pos` of the snapshot is 1 |
| `GpioExpanderMacros.PinStateReadsOneBit` | src/GpioExpanderMacros.h:7 | two snapshots that agree on bit `pos` give the same PIN_STATE and PIN_PRESSED, whatever their other bits |
| `GpioExpanderButtonHandler.LowByte` | src/GpioExpanderButtonHandler.h:39 | storing the `uint16_t` pin into the event's `uint8_t` field (line 10) keeps the pin modulo 256, so pins below 256 are kept unchanged |
| `GpioExpanderButtonHandler.ButtonHandler` | src/GpioExpanderButtonHandler.h:15-49 | an event is produced exactly when the button tracks the level (LOW or CHANGE mode at LOW, HIGH or CHANGE mode at HIGH). The event carries the pin modulo 256 and the given expander, and it is Pressed exactly when the state is LOW |
| `GpioExpanderButtonHandler.LowModeOnlyPresses` | src/GpioExpanderButtonHandler.h:26-40 | a LOW-mode button yields Pressed for every LOW reading and nothing otherwise |
| `GpioExpanderButtonHandler.HighModeOnlyReleases` | src/GpioExpanderButtonHandler.h:30-40 | a HIGH-mode button yields Released for every HIGH reading and nothing otherwise |
| `GpioExpanderButtonHandler.ChangeModeReportsBoth` | src/GpioExpanderButtonHandler.h:26-40 | a CHANGE-mode button yields Pressed for LOW, Released for HIGH, and nothing for any other value |
| `GpioExpanderButtonHandler.HandlerReadsModeOnly` | src/GpioExpanderButtonHandler.h:15-49 | the result depends on the slot's mode only, not on its pin, `isUsed`, `lastState` or `lastStateChange` (no debounce) |
| `GpioExpanderButtonHandler.HandleAll` | src/GpioExpanderButtonHandler.h:15-49 | over a run of readings, at most one event per reading, each for the pin modulo 256 and the expander; no event exactly when the mode tracks none of the readings, and one per reading exactly when it tracks all of them |
| `GpioExpanderButtonHandler.ChangeModeOneEventPerReading` | src/GpioExpanderButtonHandler.h:23-44 | in CHANGE mode a run of LOW/HIGH readings yields exactly one event per reading, in order, of the matching kind |
| `GpioExpanderRotaryEncoderHandler.PositionIndex` | src/GpioExpanderRotaryEncoderHandler.h:11-23 | the index is a table index (below 4) or the 255 marker |
| `GpioExpanderRotaryEncoderHandler.PositionIndexInvertsTable` | src/GpioExpanderRotaryEncoderHandler.h:4-23 | every table value is found at its own index; a value has an index exactly when it is in the table, and the table holds it there |
| `GpioExpanderRotaryEncoderHandler.FindPositionIndex` | src/GpioExpanderRotaryEncoderHandler.h:11-23 | the linear search with early return yields PositionIndex: a table hit holding the value, 255 exactly when the value is not in the table |
| `GpioExpanderRotaryEncoderHandler.PositionValue` | src/GpioExpanderRotaryEncoderHandler.h:49 | for real levels the value is `2 * pin2State + pin1State` (the uint8 truncation only shows for the 255 sentinel) |
| `GpioExpanderRotaryEncoderHandler.Delta` | src/GpioExpanderRotaryEncoderHandler.h:55 | the masked index difference lies in 0..3 |
| `GpioExpanderRotaryEncoderHandler.Movement` | src/GpioExpanderRotaryEncoderHandler.h:92-106 | step 1 latches Clockwise, step 3 CounterClockwise, any other step keeps the previous movement |
| `GpioExpanderRotaryEncoderHandler.RotaryStep` | src/GpioExpanderRotaryEncoderHandler.h:49-129 | an unchanged position leaves the slot untouched and raises nothing; a change writes only `lastMovement`, `lastMovementMs := now` and the two stored levels; a change latches `Movement` of its step (Clockwise for step 1, CounterClockwise for step 3, the old movement otherwise); an event is raised exactly on a change that lands on detent value 0 or 3 |
| `GpioExpanderRotaryEncoderHandler.RotaryEncoderHandler` | src/GpioExpanderRotaryEncoderHandler.h:34-158 | the in-place handler leaves the array as RotaryStep says (only its own slot changes) and returns the staged event (updated direction, expander, slot, `now`) exactly when RotaryStep raises one |
| `GpioExpanderRotaryEncoderHandler.StepFollowsTableOrder` | src/GpioExpanderRotaryEncoderHandler.h:49-55 | between table values, step 1 means the next entry of the table, step 3 the previous, step 2 the opposite and step 0 the same value |
| `GpioExpanderRotaryEncoderHandler.LevelsInTable` | src/GpioExpanderRotaryEncoderHandler.h:49 | two real levels, LOW or HIGH, always form one of the four table values |
| `GpioExpanderRotaryEncoderHandler.QuarterTurnForward` | src/GpioExpanderRotaryEncoderHandler.h:49-106 | between table positions, a quarter turn forward in table order latches Clockwise |
| `GpioExpanderRotaryEncoderHandler.QuarterTurnBack` | src/GpioExpanderRotaryEncoderHandler.h:49-106 | between table positions, a quarter turn back in table order latches CounterClockwise |
| `GpioExpanderRotaryEncoderHandler.HalfTurnKeepsMovement` | src/GpioExpanderRotaryEncoderHandler.h:49-106 | between table positions, a half turn ("jumped") keeps the movement latched before |
| `GpioExpanderRotaryEncoderHandler.DecoderIgnoresConfiguration` | src/GpioExpanderRotaryEncoderHandler.h:34-158 | slots that differ only in `debounceMs` and `fullCycleBetweenDetents` decode alike and keep that difference |
| `GpioExpanderRotaryEncoderHandler.RepeatedPositionIsIdle` | src/GpioExpanderRotaryEncoderHandler.h:88-129 | feeding the stored position any number of times changes nothing and raises nothing |
| `GpioExpanderRotaryEncoderHandler.FullCycleForward` | src/GpioExpanderRotaryEncoderHandler.h:85-124 | one forward cycle from rest at (0,0) reports Clockwise at both detents and ends at rest with Clockwise latched |
| `GpioExpanderRotaryEncoderHandler.FullCycleBackward` | src/GpioExpanderRotaryEncoderHandler.h:85-124 | one backward cycle from rest at (0,0) reports CounterClockwise at both detents |
| `GpioExpanderRotaryEncoderHandler.SentinelFirstDetentIsStill` | src/GpioExpanderRotaryEncoderHandler.h:49-115 | the fresh 255/255 slot has position value 253 with no index; a first reading at either detent raises an event whose direction is Still |
| `GpioExpanderRotaryEncoderHandler.SentinelTransitionalLatches` | src/GpioExpanderRotaryEncoderHandler.h:49-119 | from the fresh slot, a first reading of (0,1) latches Clockwise and a first reading of (1,0) latches CounterClockwise, and neither raises an event |
| `GpioExpanderSlots.AddButtonTo` | src/GpioExpanderLib.h:353-377 | an invalid mode is refused with no slot changed; otherwise binding succeeds exactly when a slot is free and no used slot before it holds the pin; the first unused slot gets pin, mode and `isUsed` and no other slot changes |
| `GpioExpanderSlots.AddButtonKeepsTable` | src/GpioExpanderLib.h:361-376 | used button slots stay a prefix with pairwise distinct pins; on such a table AddButton succeeds exactly when the mode is valid, a slot is free and no used slot anywhere holds the pin, and afterwards the pin is bound |
| `GpioExpanderSlots.AddRotaryEncoderTo` | src/GpioExpanderLib.h:379-403 | binding succeeds exactly when a slot is free and no used slot before it shares either pin; the first unused slot gets both pins, the options, `isUsed` and its own index, and no other slot changes |
| `GpioExpanderSlots.AddRotaryEncoderKeepsTable` | src/GpioExpanderLib.h:381-402 | used encoder slots stay a prefix with pairwise disjoint pin pairs and `index` equal to the slot; on such a table AddRotaryEncoder succeeds exactly when a slot is free and no used encoder shares a pin |
| `GpioExpanderSlots.EqualPinsAccepted` | src/GpioExpanderLib.h:383-396 | a pair with `pin1 == pin2` is accepted into an empty table, because the duplicate check looks only at used slots |
| `GpioExpanderLib.FirstActiveFrom` | src/GpioExpanderLib.h:159-172 | the result is the lowest index at or after `from` that is registered and whose line reads LOW, or 255 exactly when there is none |
| `GpioExpanderLib.SimultaneousInterruptsServedInOrder` | src/GpioExpanderLib.h:159-175 | of two interrupting expanders the lower index is serviced first, and once its line goes HIGH the next pass finds the other |
| `GpioExpanderLib.RegisterIn` | src/GpioExpanderLib.h:257-272 | the expander goes into the first empty entry and no other entry changes; a full table is left unchanged |
| `GpioExpanderLib.RegisterKeepsPrefix` | src/GpioExpanderLib.h:257-272 | registered entries stay a prefix, and the expander is in the table afterwards exactly when it already was or there was room |
| `GpioExpanderLib.InitTwiceRegistersTwice` | src/GpioExpanderLib.h:257-272 | with no duplicate check, registering the same expander twice fills two entries with it |
| `GpioExpanderLib.AllPins` | src/GpioExpanderLib.h:178-187 | the snapshot a pass routes is the captured one exactly when the drain reads it, and otherwise the value the uninitialised `allPins` (line 136) still holds |
| `GpioExpanderLib.DrainCalls` | src/GpioExpanderLib.h:178-187 | the pin is read first; the snapshot read and the latch clear follow, in that order, exactly when the pin is not 255 |
| `GpioExpanderLib.MatchingButtonFrom` | src/GpioExpanderLib.h:191-200 | the result is the first used slot at or after `from` bound to the pin, or none exactly when no used slot there is bound to it |
| `GpioExpanderLib.ButtonCalls` | src/GpioExpanderLib.h:191-200 | the button loop makes at most one call, and only button handler calls; it makes none exactly when no used slot is bound to the interrupt pin, and a call it makes is for a used slot bound to that pin, fed PIN_STATE of the pin |
| `GpioExpanderLib.EncoderCalls` | src/GpioExpanderLib.h:203-234 | every call of the rotary loop is an encoder handler call for a used slot, fed PIN_STATE of that slot's two pins |
| `GpioExpanderLib.EncoderCallsInSlotOrder` | src/GpioExpanderLib.h:203-234 | the rotary loop's calls are in strictly increasing slot order, so no slot is handled twice |
| `GpioExpanderLib.EncoderCallsCoverUsedSlots` | src/GpioExpanderLib.h:203-234 | every used encoder's handler is called, whichever pin fired, with the levels of its own pins |
| `GpioExpanderLib.DrainComesFirst` | src/GpioExpanderLib.h:178-187 | a pass starts with the pin read; when a pin was reported, the snapshot read and the latch clear come next |
| `GpioExpanderLib.NoPinNoDrain` | src/GpioExpanderLib.h:180-187 | with no pin reported the snapshot is never read and the latch never cleared |
| `GpioExpanderLib.AtMostOneButtonCall` | src/GpioExpanderLib.h:189-234 | a button handler call can sit only at the position right after the drain, so there is at most one per pass and it comes before every encoder call |
| `GpioExpanderLib.ButtonCallIsFirstMatch` | src/GpioExpanderLib.h:191-199 | when some used slot is bound to the interrupt pin, the pass makes exactly one button handler call: for the first such slot, fed PIN_STATE of that pin |
| `GpioExpanderLib.ButtonEventsOf` | src/GpioExpanderLib.h:191-200 | the events of a pass are no more than its button handler calls; there is one exactly when a used slot is bound to the interrupt pin and the first such slot's mode tracks PIN_STATE of the pin; it carries that pin and the serviced expander, and is Pressed exactly when the pin reads LOW |
| `GpioExpanderLib.DecodeAll` | src/GpioExpanderLib.h:203-231 | after the rotary loop every slot has been decoded with the levels of its own pins |
| `GpioExpanderLib.DecodeAllKeepsTable` | src/GpioExpanderLib.h:203-234 | decoding keeps every slot's `isUsed`, pins and index, so the encoder table invariant survives a pass |
| `GpioExpanderLib.GpioExpander.constructor` | src/GpioExpanderLib.h:96-109 | fresh slot arrays of the requested sizes holding default records, which form well-formed tables |
| `GpioExpanderLib.GpioExpander.GetButton` | src/GpioExpanderLib.h:88 | slot `index` exactly when `index < maxButtons`, null otherwise |
| `GpioExpanderLib.GpioExpander.GetRotaryEncoder` | src/GpioExpanderLib.h:89 | slot `index` exactly when `index < maxRotaryEncoders`, null otherwise |
| `GpioExpanderLib.GpioExpander.AddButton` | src/GpioExpanderLib.h:353-377 | the in-place loop returns the slot and leaves the array exactly as AddButtonTo says, and the table invariant is kept |
| `GpioExpanderLib.GpioExpander.AddRotaryEncoder` | src/GpioExpanderLib.h:379-403 | the in-place loop returns the slot and leaves the array exactly as AddRotaryEncoderTo says, and the table invariant is kept |
| `GpioExpanderLib.GpioExpander.Init` | src/GpioExpanderLib.h:246-272 | stores the interrupt pin and leaves the registry exactly as RegisterIn says; `isFirstOne` holds exactly when entry 0 was empty, which is when the task and queues are created |
| `GpioExpanderLib.GpioExpander.Service` | src/GpioExpanderLib.h:175-234 | the calls made are ServiceCalls of the slot tables, the events queued are ButtonEventsOf, the encoder array becomes DecodeAll, and the table invariants are kept |
| `GpioExpanderLib.GpioExpander.RouteButton` | src/GpioExpanderLib.h:191-200 | the button loop's calls are ButtonCalls and its events are ButtonEventsOf |
| `GpioExpanderLib.GpioExpander.RouteEncoders` | src/GpioExpanderLib.h:203-234 | the rotary loop's calls are EncoderCalls over all slots and the array becomes DecodeAll of the old one |
| `GpioExpanderLib.GpioExpander.RouteEncoder` | src/GpioExpanderLib.h:205-231 | one turn of the rotary loop calls slot n's handler exactly when that slot is used, and only slot n changes |
| `GpioExpanderLib.ExpanderRegistry.constructor` | src/GpioExpanderLib.h:93 | a fresh table of eight empty entries |
| `GpioExpanderLib.ExpanderRegistry.FindActive` | src/GpioExpanderLib.h:154-172 | the `bDone` loop yields FirstActive: 255, or a registered entry whose line reads LOW |
| `GpioExpanderLib.ExpanderRegistry.ServicePass` | src/GpioExpanderLib.h:153-237 | the expander found is FirstActive; when there is none nothing is called and nothing queued; otherwise that expander's calls, events and encoder array are as Service says. Every other expander keeps its encoder slots, and when none is found no encoder slot changes |

## Left out

- The interrupt routine, the task notification wait, `xTaskCreate`, queue
  creation, the button queue send and `attachInterrupt`. These are RTOS
  concurrency primitives. A pass is modelled as one sequential step. The button
  events are returned instead of being queued, and Init returns `isFirstOne`
  instead of creating the task and queues.
- The rotary event queue send is commented out in the source, so nothing is
  queued. The handler returns the staged event.
- `RotaryEvent`: the `pin` field of the staged rotary event is never set by
  the handler and is not modelled. Its `device` field is the slot index.
- The MCP23X17 driver calls. The configuration calls in Init (lines 274-308)
  are not modelled; they configure hardware and decide nothing. The reads
  (`digitalRead`, `getLastInterruptPin`, `getCapturedInterrupt`) are
  parameters of a pass. `clearInterrupts` is recorded as a call.
- The uninitialised `allPins` local of the service task. When no pin is
  reported it is the parameter `heldAllPins`, an arbitrary value.
- `millis()` is read once per encoder call in the source. It is modelled as one
  `now` per pass.
- The 32-bit wrap of `millis()`: the clock value is only stored and passed on,
  never computed with.
- Serial printing, `print_binary` and the debug LED. These are output only.
- The constructor's heap allocation with `new[]`. When a maximum is 0 the
  source leaves that array unallocated; the model allocates an empty array.
  Button fields without an initialiser (`pin`, `lastState`,
  `lastStateChange`) start at 0.
- `GpioExpanderMacros.PinState`: a shift by 32 or more is undefined behaviour
  in C. For such a `pos` the model reads LOW.
- `GpioExpanderMacros.PinMask`: the precondition `i < 32` excludes the same
  undefined shifts.
- `GpioExpanderLib.GpioExpander.AddRotaryEncoder` and
  `GpioExpanderSlots.AddRotaryEncoderTo` require a table of fewer than 256
  slots. The slot count is a `uint8` in the source, so this always holds.
- `GpioExpanderLib.ExpanderRegistry.ServicePass`: requires distinct
  registered expanders to own distinct encoder arrays. Each constructor
  allocates its own, so this always holds. An expander registered twice
  has the same arrays in both entries, and the pass services its first entry.
- src/GpioExpanderButtons.h is a superseded single-expander variant. It is not
  part of this model; its one decision reuses PIN_PRESSED, which is modelled.
- src/GpioExpanderRotaryEncoders.h declares a class with no bodies.
- src/GpioExpanderButtonTypes.h and src/GpioExpanderRotaryEncoderTypes.h
  duplicate the struct declarations modelled in `GpioExpanderTypes`.
- dev/GpioLibDevProject is application code (queue draining, a dial counter)
  and is not part of this model.
- The public getters `GetMaxButtons`, `GetInterruptPin` and
  `GetMaxRotaryEncoders` are modelled by the class fields they return.
  `GetMaxPins` returns the constant 16 (src/GpioExpanderLib.h:80) and reads no
  field. The model carries it only as the 16-bit width of the pin snapshots.
- The Arduino constants LOW, HIGH and CHANGE are taken as defined by the ESP32
  Arduino core, which is not part of this model.
