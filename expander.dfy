/** The expander object (class GpioExpander), the process-wide registry of
    expanders (GlobalGpioExpanders) and one pass of the service task that
    resolves which expander interrupted, drains its snapshot and routes it
    to the button and rotary-encoder handlers. Driver reads come in as
    parameters; the driver calls a pass makes are returned in order. */
module GpioExpanderLib {
  import opened GpioExpanderTypes
  import opened GpioExpanderMacros
  import opened GpioExpanderSlots
  import opened GpioExpanderButtonHandler
  import opened GpioExpanderRotaryEncoderHandler

  /** GPIOEXPANDER_MAX_EXPANDERS */
  const MaxExpanders: nat := 8

  /** A driver call or handler call made by one service pass. */
  datatype ServiceCall =
    | GetLastInterruptPin
    | GetCapturedInterrupt
    | ClearInterrupts
    | ButtonHandlerCall(slot: nat, pin: uint8, state: uint8)
    | RotaryEncoderHandlerCall(slot: nat, pin1State: uint8, pin2State: uint8)

  // -------------------------------------------------------------- resolution

  /** Lowest registry index at or after `from` whose entry is registered and
      whose interrupt-pin read returns LOW (`lineLow`); 255 when there is none. */
  function FirstActiveFrom(s: seq<GpioExpander?>, lineLow: seq<bool>, from: nat): (r: uint8)
    requires |s| <= |lineLow| && |s| < 255 && from <= |s|
    ensures r == 255 || from <= r as int < |s|
    ensures r == 255 <==> forall i :: from <= i < |s| ==> s[i] == null || !lineLow[i]
    ensures r != 255 ==> s[r] != null && lineLow[r] && forall j :: from <= j < r as int ==> s[j] == null || !lineLow[j]
    decreases |s| - from
  {
    if from == |s| then 255
    else if s[from] != null && lineLow[from] then from as uint8
    else FirstActiveFrom(s, lineLow, from + 1)
  }

  /** The expander a pass services: the first registered one, in table
      order, whose interrupt-pin read returns LOW (255 when none does). */
  function FirstActive(s: seq<GpioExpander?>, lineLow: seq<bool>): (r: uint8)
    requires |s| <= |lineLow| && |s| < 255
  {
    FirstActiveFrom(s, lineLow, 0)
  }

  /** Two expanders interrupt at once: the lower index is serviced first;
      once its read returns HIGH again (its latch cleared), while the other
      still reads LOW, the next pass finds the other. */
  lemma {:induction false} SimultaneousInterruptsServedInOrder(s: seq<GpioExpander?>, lineLow: seq<bool>, i: nat, j: nat)
    requires |s| == MaxExpanders && |lineLow| == MaxExpanders
    requires i < j < |s| && s[i] != null && s[j] != null && lineLow[i] && lineLow[j]
    requires forall k :: 0 <= k < |s| && k != i && k != j ==> !lineLow[k]
    ensures FirstActive(s, lineLow) as int == i
    ensures FirstActive(s, lineLow[i := false]) as int == j
  {
    var r := FirstActive(s, lineLow[i := false]);
    assert lineLow[i := false][j];
    assert r != 255;
  }

  // -------------------------------------------------------------- registration

  /** Index of the first empty registry entry; |s| when the table is full. */
  function FirstNull(s: seq<GpioExpander?>): (k: nat)
    ensures k <= |s|
    ensures forall j :: 0 <= j < k ==> s[j] != null
    ensures k < |s| ==> s[k] == null
  {
    if s == [] || s[0] == null then 0 else 1 + FirstNull(s[1..])
  }

  /** The registration loop of Init: `e` goes into the first empty entry;
      a full table is left as it is, with no error. There is no check that
      `e` is already registered. */
  function RegisterIn(s: seq<GpioExpander?>, e: GpioExpander): (r: seq<GpioExpander?>)
    ensures |r| == |s|
    ensures FirstNull(s) < |s| ==> r == s[FirstNull(s) := e]
    ensures FirstNull(s) == |s| ==> r == s
  {
    var k := FirstNull(s);
    if k < |s| then s[k := e] else s
  }

  /** Registered entries form a prefix of the table. */
  predicate RegisteredPrefix(s: seq<GpioExpander?>)
  {
    forall i, j :: 0 <= i < j < |s| && s[j] != null ==> s[i] != null
  }

  /** Registration keeps the registered entries a prefix and adds `e` exactly
      when the table had room. */
  lemma RegisterKeepsPrefix(s: seq<GpioExpander?>, e: GpioExpander)
    requires RegisteredPrefix(s)
    ensures RegisteredPrefix(RegisterIn(s, e))
    ensures e in RegisterIn(s, e) <==> e in s || null in s
  {
    var k := FirstNull(s);
    if null in s {
      var j :| 0 <= j < |s| && s[j] == null;
      assert k <= j;
    }
  }

  /** Calling Init twice on one expander registers it twice. */
  lemma {:induction false} InitTwiceRegistersTwice(s: seq<GpioExpander?>, e: GpioExpander)
    requires RegisteredPrefix(s) && |s| >= 2 && s[|s| - 2] == null
    ensures var twice := RegisterIn(RegisterIn(s, e), e);
      exists i, j :: 0 <= i < j < |twice| && twice[i] == e && twice[j] == e
  {
    var k := FirstNull(s);
    assert k <= |s| - 2;
    var once := RegisterIn(s, e);
    assert once[k] == e;
    var k2 := FirstNull(once);
    assert once[k + 1] == s[k + 1] == null by {
      assert s[k + 1] == null;
    }
    assert k2 == k + 1;
    var twice := RegisterIn(once, e);
    assert twice[k] == e && twice[k + 1] == e;
  }

  // ------------------------------------------------------ servicing and routing

  /** The snapshot the handlers are fed: the captured pins when a last
      interrupt pin was reported, otherwise whatever value the task's
      `allPins` variable still holds from before. */
  function AllPins(lastInterruptPin: uint8, capturedPins: bv16, heldAllPins: bv16): (allPins: bv16)
    ensures GetCapturedInterrupt in DrainCalls(lastInterruptPin) ==> allPins == capturedPins
    ensures GetCapturedInterrupt !in DrainCalls(lastInterruptPin) ==> allPins == heldAllPins
  {
    if lastInterruptPin != 255 then capturedPins else heldAllPins
  }

  /** The driver calls that drain the expander, in the order made. */
  function DrainCalls(lastInterruptPin: uint8): (calls: seq<ServiceCall>)
    ensures |calls| > 0 && calls[0] == GetLastInterruptPin
    ensures lastInterruptPin != 255 ==> calls == [GetLastInterruptPin, GetCapturedInterrupt, ClearInterrupts]
    ensures lastInterruptPin == 255 ==> calls == [GetLastInterruptPin]
  {
    [GetLastInterruptPin] + if lastInterruptPin != 255 then [GetCapturedInterrupt, ClearInterrupts] else []
  }

  /** The first used button slot at or after `from` bound to `pin`. */
  function MatchingButtonFrom(s: seq<Button>, pin: uint8, from: nat): (k: Option<nat>)
    requires from <= |s|
    ensures k.Some? ==> from <= k.value < |s| && s[k.value].isUsed && s[k.value].pin == pin
    ensures k.Some? ==> forall j :: from <= j < k.value ==> !(s[j].isUsed && s[j].pin == pin)
    ensures k.None? <==> forall j :: from <= j < |s| ==> !(s[j].isUsed && s[j].pin == pin)
    decreases |s| - from
  {
    if from == |s| then None
    else if s[from].isUsed && s[from].pin == pin then Some(from)
    else MatchingButtonFrom(s, pin, from + 1)
  }

  /** The button loop of the service task: the handler of the first used
      slot bound to the interrupt pin, fed the level of that pin. */
  function ButtonCalls(s: seq<Button>, pin: uint8, allPins: bv16): (calls: seq<ServiceCall>)
    ensures |calls| <= 1
    ensures forall p :: 0 <= p < |calls| ==> calls[p].ButtonHandlerCall?
    // no call exactly when no used slot is bound to the pin
    ensures calls == [] <==> forall j :: 0 <= j < |s| ==> !(s[j].isUsed && s[j].pin == pin)
    // a call is for a used slot bound to the pin, fed that pin's level
    ensures calls != [] ==>
      && calls[0].slot < |s| && s[calls[0].slot].isUsed && s[calls[0].slot].pin == pin
      && calls[0].state == PinState(allPins, pin as nat)
  {
    match MatchingButtonFrom(s, pin, 0)
    case Some(k) => [ButtonHandlerCall(k, pin, PinState(allPins, pin as nat))]
    case None => []
  }

  /** The rotary loop of the service task over slots 0..n-1: the handler of
      every used slot, with the levels of its two pins. */
  function EncoderCalls(s: seq<RotaryEncoder>, allPins: bv16, n: nat): (calls: seq<ServiceCall>)
    requires n <= |s|
    ensures |calls| <= n
    ensures forall p :: 0 <= p < |calls| ==>
      && calls[p].RotaryEncoderHandlerCall?
      && calls[p].slot < n
      && s[calls[p].slot].isUsed
      && calls[p].pin1State == PinState(allPins, s[calls[p].slot].pin1 as nat)
      && calls[p].pin2State == PinState(allPins, s[calls[p].slot].pin2 as nat)
  {
    if n == 0 then []
    else
      var i := n - 1;
      EncoderCalls(s, allPins, i) +
        if s[i].isUsed then [RotaryEncoderHandlerCall(i, PinState(allPins, s[i].pin1 as nat), PinState(allPins, s[i].pin2 as nat))]
        else []
  }

  /** Encoder handler calls in strictly increasing slot order. */
  predicate InSlotOrder(calls: seq<ServiceCall>)
  {
    forall p, q :: 0 <= p < q < |calls| && calls[p].RotaryEncoderHandlerCall? && calls[q].RotaryEncoderHandlerCall? ==>
      calls[p].slot < calls[q].slot
  }

  /** The rotary loop visits the slots in increasing order, so each slot's
      handler runs at most once per pass. */
  lemma {:induction false} EncoderCallsInSlotOrder(s: seq<RotaryEncoder>, allPins: bv16, n: nat)
    requires n <= |s|
    ensures InSlotOrder(EncoderCalls(s, allPins, n))
  {
    if n > 0 {
      EncoderCallsInSlotOrder(s, allPins, n - 1);
      var prefix := EncoderCalls(s, allPins, n - 1);
      var calls := EncoderCalls(s, allPins, n);
      if s[n - 1].isUsed {
        var last := RotaryEncoderHandlerCall(n - 1, PinState(allPins, s[n - 1].pin1 as nat),
                                             PinState(allPins, s[n - 1].pin2 as nat));
        assert calls == prefix + [last];
        forall p, q | 0 <= p < q < |calls| ensures calls[p].slot < calls[q].slot {
          assert calls[p] == prefix[p] && prefix[p].slot < n - 1;
          if q < |prefix| {
            assert calls[q] == prefix[q];
          }
        }
      }
    }
  }

  /** Every used slot's handler runs, fed the levels of that slot's pins. */
  lemma {:induction false} EncoderCallsCoverUsedSlots(s: seq<RotaryEncoder>, allPins: bv16, n: nat)
    requires n <= |s|
    ensures forall i :: 0 <= i < n && s[i].isUsed ==>
      RotaryEncoderHandlerCall(i, PinState(allPins, s[i].pin1 as nat), PinState(allPins, s[i].pin2 as nat))
        in EncoderCalls(s, allPins, n)
  {
    if n > 0 {
      EncoderCallsCoverUsedSlots(s, allPins, n - 1);
    }
  }

  /** One more slot of the rotary loop: its call, when the slot is used,
      goes after those of the earlier slots. */
  lemma EncoderCallsStep(s: seq<RotaryEncoder>, allPins: bv16, n: nat)
    requires n < |s|
    ensures EncoderCalls(s, allPins, n + 1) ==
      EncoderCalls(s, allPins, n) +
        if s[n].isUsed then [RotaryEncoderHandlerCall(n, PinState(allPins, s[n].pin1 as nat), PinState(allPins, s[n].pin2 as nat))]
        else []
  {
  }

  /** Every call a pass makes on the expander it services, in order. */
  function ServiceCalls(buttons: seq<Button>, encoders: seq<RotaryEncoder>, lastInterruptPin: uint8, allPins: bv16): seq<ServiceCall>
  {
    DrainCalls(lastInterruptPin) + ButtonCalls(buttons, lastInterruptPin, allPins) + EncoderCalls(encoders, allPins, |encoders|)
  }

  /** The pin number is read first, and the snapshot is read and then the
      latch cleared only when a pin was reported. */
  lemma DrainComesFirst(buttons: seq<Button>, encoders: seq<RotaryEncoder>, lastInterruptPin: uint8, allPins: bv16)
    ensures var calls := ServiceCalls(buttons, encoders, lastInterruptPin, allPins);
      && calls[0] == GetLastInterruptPin
      && (lastInterruptPin != 255 ==> calls[1] == GetCapturedInterrupt && calls[2] == ClearInterrupts)
  {
  }

  /** With no interrupt pin reported the snapshot is never read and the
      latch never cleared. */
  lemma {:induction false} NoPinNoDrain(buttons: seq<Button>, encoders: seq<RotaryEncoder>, allPins: bv16)
    ensures var calls := ServiceCalls(buttons, encoders, 255, allPins);
      GetCapturedInterrupt !in calls && ClearInterrupts !in calls
  {
    var b := ButtonCalls(buttons, 255, allPins);
    var e := EncoderCalls(encoders, allPins, |encoders|);
    var calls := ServiceCalls(buttons, encoders, 255, allPins);
    assert calls == [GetLastInterruptPin] + b + e;
    forall p | 0 < p < |calls| ensures calls[p] != GetCapturedInterrupt && calls[p] != ClearInterrupts {
      if p < 1 + |b| { assert calls[p] == b[p - 1]; } else { assert calls[p] == e[p - 1 - |b|]; }
    }
  }

  /** At most one button handler runs in a pass, right after the drain and
      before every encoder handler. */
  lemma {:induction false} AtMostOneButtonCall(buttons: seq<Button>, encoders: seq<RotaryEncoder>, lastInterruptPin: uint8, allPins: bv16)
    ensures var calls := ServiceCalls(buttons, encoders, lastInterruptPin, allPins);
      forall p :: 0 <= p < |calls| && calls[p].ButtonHandlerCall? ==> p == |DrainCalls(lastInterruptPin)|
  {
    var drain := DrainCalls(lastInterruptPin);
    var b := ButtonCalls(buttons, lastInterruptPin, allPins);
    var e := EncoderCalls(encoders, allPins, |encoders|);
    var calls := ServiceCalls(buttons, encoders, lastInterruptPin, allPins);
    assert calls == drain + b + e;
    forall p | 0 <= p < |calls| && p != |drain| ensures !calls[p].ButtonHandlerCall? {
      if p < |drain| {
        assert calls[p] == drain[p];
      } else {
        assert calls[p] == e[p - |drain| - |b|];
      }
    }
  }

  /** When some used slot is bound to the interrupt pin, the pass makes
      exactly one button handler call: for the first such slot, fed
      PIN_STATE of that pin. */
  lemma ButtonCallIsFirstMatch(buttons: seq<Button>, pin: uint8, allPins: bv16, k: nat)
    requires k < |buttons| && buttons[k].isUsed && buttons[k].pin == pin
    ensures var c := ButtonCalls(buttons, pin, allPins);
      |c| == 1 && c[0].slot <= k && buttons[c[0].slot].isUsed && buttons[c[0].slot].pin == pin
      && c[0].state == PinState(allPins, pin as nat)
  {
  }

  /** The encoders after a pass: each used slot decoded with the levels of
      its own two pins; unused slots untouched. */
  function DecodeAll(encoders: seq<RotaryEncoder>, allPins: bv16, now: uint32): (r: seq<RotaryEncoder>)
    ensures |r| == |encoders|
    ensures forall i :: 0 <= i < |encoders| ==> r[i] == DecodeSlot(encoders[i], allPins, now)
  {
    seq(|encoders|, i requires 0 <= i < |encoders| => DecodeSlot(encoders[i], allPins, now))
  }

  /** The encoder table part-way through the rotary loop: slots before `n`
      decoded, the rest as they were. */
  ghost function DecodedUpTo(encoders: seq<RotaryEncoder>, allPins: bv16, now: uint32, n: nat): (r: seq<RotaryEncoder>)
    requires n <= |encoders|
    ensures |r| == |encoders|
    ensures n == |encoders| ==> r == DecodeAll(encoders, allPins, now)
  {
    seq(|encoders|, i requires 0 <= i < |encoders| => if i < n then DecodeSlot(encoders[i], allPins, now) else encoders[i])
  }

  /** One turn of the rotary loop decodes one more slot, and the slot it
      decodes is still as it was before the pass. */
  lemma DecodedUpToStep(encoders: seq<RotaryEncoder>, allPins: bv16, now: uint32, n: nat)
    requires n < |encoders|
    ensures DecodedUpTo(encoders, allPins, now, n)[n] == encoders[n]
    ensures DecodedUpTo(encoders, allPins, now, n)[n := DecodeSlot(encoders[n], allPins, now)]
            == DecodedUpTo(encoders, allPins, now, n + 1)
  {
  }

  /** One slot after a pass: decoded with the levels of its own two pins
      when used, untouched otherwise. */
  function DecodeSlot(e: RotaryEncoder, allPins: bv16, now: uint32): RotaryEncoder
  {
    if e.isUsed then RotaryStep(e, PinState(allPins, e.pin1 as nat), PinState(allPins, e.pin2 as nat), now).device
    else e
  }

  /** Decoding leaves every slot's configuration alone, so the encoder
      table invariant survives a pass. */
  lemma DecodeAllKeepsTable(encoders: seq<RotaryEncoder>, allPins: bv16, now: uint32)
    requires EncoderTable(encoders)
    ensures EncoderTable(DecodeAll(encoders, allPins, now))
  {
    var r := DecodeAll(encoders, allPins, now);
    forall i | 0 <= i < |encoders|
      ensures r[i].isUsed == encoders[i].isUsed && r[i].pin1 == encoders[i].pin1
      ensures r[i].pin2 == encoders[i].pin2 && r[i].index == encoders[i].index
    {
    }
  }

  /** The events the button loop sends: the handler's event for the first
      matching slot, if it tracks the level. */
  function ButtonEventsOf(expander: GpioExpander, buttons: seq<Button>, pin: uint8, allPins: bv16): (events: seq<ButtonEvent<GpioExpander>>)
    ensures |events| <= |ButtonCalls(buttons, pin, allPins)|
    ensures forall k :: 0 <= k < |events| ==> events[k].pin == pin && events[k].expander == expander
    // one event exactly when a used slot is bound to the pin and its mode tracks the level
    ensures |events| == 1 <==>
      var m := MatchingButtonFrom(buttons, pin, 0);
      m.Some? && Tracks(buttons[m.value].mode, PinState(allPins, pin as nat) as uint16)
    // the event is Pressed exactly when the pin reads LOW
    ensures forall k :: 0 <= k < |events| ==> (events[k].event == Pressed <==> PinState(allPins, pin as nat) == LOW)
  {
    match MatchingButtonFrom(buttons, pin, 0)
    case Some(k) =>
      (match ButtonHandler(expander, pin as uint16, buttons[k], PinState(allPins, pin as nat) as uint16)
       case Some(ev) => [ev]
       case None => [])
    case None => []
  }

  // ------------------------------------------------------------ the expander

  class GpioExpander {
    var interruptPin: uint8
    const maxButtons: uint8
    const maxRotaryEncoders: uint8
    const buttons: array<Button>
    const rotaryEncoders: array<RotaryEncoder>

    /** The slot arrays have their configured sizes and hold well-formed tables. */
    ghost predicate Valid()
      reads this, buttons, rotaryEncoders
    {
      && buttons.Length == maxButtons as int
      && rotaryEncoders.Length == maxRotaryEncoders as int
      && ButtonTable(buttons[..])
      && EncoderTable(rotaryEncoders[..])
    }

    /** GpioExpander(maxButtons, maxRotaryEncoders): slot arrays of
        default-initialised records (the source's defaults are 16 and 8). */
    constructor (maxButtons: uint8, maxRotaryEncoders: uint8)
      ensures Valid() && fresh(buttons) && fresh(rotaryEncoders)
      ensures this.maxButtons == maxButtons && this.maxRotaryEncoders == maxRotaryEncoders
      ensures forall i :: 0 <= i < buttons.Length ==> buttons[i] == DefaultButton
      ensures forall i :: 0 <= i < rotaryEncoders.Length ==> rotaryEncoders[i] == DefaultRotaryEncoder
    {
      this.maxButtons := maxButtons;
      this.maxRotaryEncoders := maxRotaryEncoders;
      buttons := new Button[maxButtons as int](_ => DefaultButton);
      rotaryEncoders := new RotaryEncoder[maxRotaryEncoders as int](_ => DefaultRotaryEncoder);
    }

    /** GetButton: the slot with that index, or null past the end. */
    function GetButton(index: uint8): (slot: Option<nat>)
      reads this
      ensures slot.Some? <==> index < maxButtons
      ensures slot.Some? ==> slot.value == index as nat
    {
      if index < maxButtons then Some(index as nat) else None
    }

    /** GetRotaryEncoder: the slot with that index, or null past the end. */
    function GetRotaryEncoder(index: uint8): (slot: Option<nat>)
      reads this
      ensures slot.Some? <==> index < maxRotaryEncoders
      ensures slot.Some? ==> slot.value == index as nat
    {
      if index < maxRotaryEncoders then Some(index as nat) else None
    }

    /** AddButton: binds a button slot in place, as AddButtonTo describes. */
    method AddButton(pin: uint8, mode: uint8) returns (slot: Option<nat>)
      requires Valid()
      modifies buttons
      ensures Valid()
      ensures Added(slot, buttons[..]) == AddButtonTo(old(buttons[..]), pin, mode)
    {
      AddButtonKeepsTable(buttons[..], pin, mode);
      if mode != CHANGE && mode != LOW && mode != HIGH {
        return None;
      }
      var i: uint8 := 0;
      while i < maxButtons
        invariant i <= maxButtons
        invariant buttons[..] == old(buttons[..])
        invariant forall j :: 0 <= j < i ==> buttons[j].isUsed && buttons[j].pin != pin
      {
        if buttons[i].isUsed == false {
          var device := buttons[i];
          device := device.(pin := pin);
          device := device.(isUsed := true);
          device := device.(mode := mode);
          buttons[i] := device;
          assert !ButtonPinIn(old(buttons[..])[..i], pin);
          return Some(i as nat);
        } else if buttons[i].pin == pin {
          assert old(buttons[..])[..FirstUnusedButton(old(buttons[..]))][i] == buttons[i];
          return None;
        }
        i := i + 1;
      }
      return None;
    }

    /** AddRotaryEncoder: binds an encoder slot in place, as
        AddRotaryEncoderTo describes (the source's defaults are
        fullCycleBetweenDetents = false and debounceMs = 200). */
    method AddRotaryEncoder(pin1: uint8, pin2: uint8, fullCycleBetweenDetents: bool, debounceMs: uint32)
      returns (slot: Option<nat>)
      requires Valid()
      modifies rotaryEncoders
      ensures Valid()
      ensures Added(slot, rotaryEncoders[..]) ==
              AddRotaryEncoderTo(old(rotaryEncoders[..]), pin1, pin2, fullCycleBetweenDetents, debounceMs)
    {
      AddRotaryEncoderKeepsTable(rotaryEncoders[..], pin1, pin2, fullCycleBetweenDetents, debounceMs);
      var i: uint8 := 0;
      while i < maxRotaryEncoders
        invariant i <= maxRotaryEncoders
        invariant rotaryEncoders[..] == old(rotaryEncoders[..])
        invariant forall j :: 0 <= j < i ==> rotaryEncoders[j].isUsed && !SharesPin(rotaryEncoders[j], pin1, pin2)
      {
        if rotaryEncoders[i].isUsed == false {
          var device := rotaryEncoders[i];
          device := device.(pin1 := pin1);
          device := device.(pin2 := pin2);
          device := device.(isUsed := true);
          device := device.(fullCycleBetweenDetents := fullCycleBetweenDetents);
          device := device.(debounceMs := debounceMs);
          device := device.(index := i);
          rotaryEncoders[i] := device;
          assert !EncoderPinIn(old(rotaryEncoders[..])[..i], pin1, pin2);
          return Some(i as nat);
        } else if rotaryEncoders[i].pin1 == pin1 || rotaryEncoders[i].pin2 == pin1
               || rotaryEncoders[i].pin1 == pin2 || rotaryEncoders[i].pin2 == pin2 {
          assert old(rotaryEncoders[..])[..FirstUnusedEncoder(old(rotaryEncoders[..]))][i] == rotaryEncoders[i];
          return None;
        }
        i := i + 1;
      }
      return None;
    }

    /** The registration part of Init: stores this expander in the first
        empty registry entry. `isFirstOne` holds exactly when that entry was
        index 0, which is when the source creates the service task and the
        two event queues. */
    method Init(registry: ExpanderRegistry, interruptPin: uint8) returns (isFirstOne: bool)
      requires registry.Valid()
      modifies this, registry.entries
      ensures registry.Valid() && this.interruptPin == interruptPin
      ensures registry.entries[..] == RegisterIn(old(registry.entries[..]), this)
      ensures isFirstOne <==> old(registry.entries[0]) == null
    {
      this.interruptPin := interruptPin;
      var bDone := false;
      isFirstOne := false;
      var i := 0;
      while i < MaxExpanders && !bDone
        modifies registry.entries
        invariant 0 <= i <= MaxExpanders
        invariant forall j :: 0 <= j < (if bDone then i - 1 else i) ==> registry.entries[j] != null
        invariant !bDone ==> registry.entries[..] == old(registry.entries[..])
        invariant bDone ==> 0 < i && FirstNull(old(registry.entries[..])) == i - 1
                            && registry.entries[..] == old(registry.entries[..])[i - 1 := this]
        invariant isFirstOne <==> bDone && i == 1
      {
        if registry.entries[i] == null {
          if i == 0 {
            isFirstOne := true;
          }
          registry.entries[i] := this;
          bDone := true;
        }
        i := i + 1;
      }
    }

    /** The servicing and routing part of one service-task pass on this
        expander: reads the last interrupt pin, reads the snapshot and clears
        the latch when a pin was reported, runs the handler of the first
        matching button and of every used encoder. */
    method Service(lastInterruptPin: uint8, capturedPins: bv16, heldAllPins: bv16, now: uint32)
      returns (calls: seq<ServiceCall>, buttonEvents: seq<ButtonEvent<GpioExpander>>)
      requires Valid()
      modifies rotaryEncoders
      ensures Valid()
      ensures calls == ServiceCalls(buttons[..], old(rotaryEncoders[..]), lastInterruptPin,
                                    AllPins(lastInterruptPin, capturedPins, heldAllPins))
      ensures buttonEvents == ButtonEventsOf(this, buttons[..], lastInterruptPin,
                                             AllPins(lastInterruptPin, capturedPins, heldAllPins))
      ensures rotaryEncoders[..] == DecodeAll(old(rotaryEncoders[..]), AllPins(lastInterruptPin, capturedPins, heldAllPins), now)
    {
      var allPins := heldAllPins;
      calls := [GetLastInterruptPin];
      var pin := lastInterruptPin;
      if pin != 255 {
        allPins := capturedPins;
        calls := calls + [GetCapturedInterrupt];
        calls := calls + [ClearInterrupts];
      }
      assert calls == DrainCalls(lastInterruptPin);

      var routed := RouteButton(pin, allPins);
      calls := calls + routed.0;
      buttonEvents := routed.1;
      ghost var before := rotaryEncoders[..];
      var encoderCalls := RouteEncoders(allPins, now);
      calls := calls + encoderCalls;
      DecodeAllKeepsTable(before, allPins, now);
    }

    /** The button loop of a pass: the handler of the first used slot bound
        to `pin`, fed the level of that pin; the event it sends, if any. */
    method RouteButton(pin: uint8, allPins: bv16)
      returns (routed: (seq<ServiceCall>, seq<ButtonEvent<GpioExpander>>))
      requires Valid()
      ensures routed.0 == ButtonCalls(buttons[..], pin, allPins)
      ensures routed.1 == ButtonEventsOf(this, buttons[..], pin, allPins)
    {
      var calls: seq<ServiceCall> := [];
      var buttonEvents: seq<ButtonEvent<GpioExpander>> := [];
      var i: uint8 := 0;
      while i < maxButtons
        invariant i <= maxButtons
        invariant MatchingButtonFrom(buttons[..], pin, 0) == MatchingButtonFrom(buttons[..], pin, i as nat)
        invariant calls == [] && buttonEvents == []
      {
        var device := GetButton(i);
        if device.Some? && buttons[device.value].isUsed && buttons[device.value].pin == pin {
          var state := PinState(allPins, buttons[device.value].pin as nat);
          calls := calls + [ButtonHandlerCall(device.value, pin, state)];
          var event := ButtonHandler(this, pin as uint16, buttons[device.value], state as uint16);
          if event.Some? {
            buttonEvents := buttonEvents + [event.value];
          }
          return (calls, buttonEvents);
        }
        i := i + 1;
      }
      return (calls, buttonEvents);
    }

    /** The rotary loop of a pass: the handler of every used encoder slot,
        in slot order, each fed the levels of its own two pins. */
    method RouteEncoders(allPins: bv16, now: uint32) returns (calls: seq<ServiceCall>)
      requires rotaryEncoders.Length == maxRotaryEncoders as int
      modifies rotaryEncoders
      ensures calls == EncoderCalls(old(rotaryEncoders[..]), allPins, rotaryEncoders.Length)
      ensures rotaryEncoders[..] == DecodeAll(old(rotaryEncoders[..]), allPins, now)
    {
      ghost var before := rotaryEncoders[..];
      calls := [];
      var n: uint8 := 0;
      while n < maxRotaryEncoders
        invariant n <= maxRotaryEncoders
        invariant calls == EncoderCalls(before, allPins, n as nat)
        invariant rotaryEncoders[..] == DecodedUpTo(before, allPins, now, n as nat)
      {
        EncoderCallsStep(before, allPins, n as nat);
        DecodedUpToStep(before, allPins, now, n as nat);
        var call := RouteEncoder(n, allPins, now);
        calls := calls + call;
        n := n + 1;
      }
    }

    /** One turn of the rotary loop: slot `n`'s handler runs when the slot
        is used, and only that slot can change. */
    method RouteEncoder(n: uint8, allPins: bv16, now: uint32) returns (call: seq<ServiceCall>)
      requires n < maxRotaryEncoders && rotaryEncoders.Length == maxRotaryEncoders as int
      modifies rotaryEncoders
      ensures var e := old(rotaryEncoders[n]);
        call == if e.isUsed then [RotaryEncoderHandlerCall(n as nat, PinState(allPins, e.pin1 as nat), PinState(allPins, e.pin2 as nat))] else []
      ensures rotaryEncoders[..] == old(rotaryEncoders[..])[n := DecodeSlot(old(rotaryEncoders[n]), allPins, now)]
    {
      call := [];
      var device := GetRotaryEncoder(n);
      if device.Some? && rotaryEncoders[device.value].isUsed {
        var pin1State := PinState(allPins, rotaryEncoders[device.value].pin1 as nat);
        var pin2State := PinState(allPins, rotaryEncoders[device.value].pin2 as nat);
        call := [RotaryEncoderHandlerCall(device.value, pin1State, pin2State)];
        var _ := RotaryEncoderHandler(this, rotaryEncoders, device.value, pin1State, pin2State, now);
      }
    }
  }

  // ------------------------------------------------------------ the registry

  /** GlobalGpioExpanders: the fixed table of registered expanders that the
      single interrupt routine and service task share. */
  class ExpanderRegistry {
    const entries: array<GpioExpander?>

    ghost predicate Valid()
      reads this
    {
      entries.Length == MaxExpanders
    }

    /** The zero-initialised table. */
    constructor ()
      ensures Valid() && fresh(entries)
      ensures forall i :: 0 <= i < entries.Length ==> entries[i] == null
    {
      entries := new GpioExpander?[MaxExpanders](_ => null);
    }

    /** The resolution loop of the service task: scans the table in order
        and stops at the first registered expander whose interrupt-pin read
        returns LOW. `lineLow[i]` is that read for entry i: the expander's own
        `digitalRead` of the pin numbered `GetInterruptPin()`. 255 when none. */
    method FindActive(lineLow: seq<bool>) returns (expanderNumber: uint8)
      requires Valid() && |lineLow| == MaxExpanders
      ensures expanderNumber == FirstActive(entries[..], lineLow)
      ensures expanderNumber == 255 || (expanderNumber as int < MaxExpanders && entries[expanderNumber] != null)
    {
      var bDone := false;
      expanderNumber := 255;
      var i := 0;
      while i < MaxExpanders && !bDone
        invariant 0 <= i <= MaxExpanders
        invariant !bDone ==> expanderNumber == 255
        invariant bDone ==> 0 < i && expanderNumber as int == i - 1 && entries[i - 1] != null && lineLow[i - 1]
        invariant forall j :: 0 <= j < (if bDone then i - 1 else i) ==> entries[j] == null || !lineLow[j]
      {
        var expander := entries[i];
        if expander != null {
          if lineLow[i] {
            bDone := true;
            expanderNumber := i as uint8;
          }
        }
        i := i + 1;
      }
    }

    /** One pass of GpioExpanderServiceTask after a wake: resolve, then
        service and route on the expander found; nothing when none is found. */
    method ServicePass(lineLow: seq<bool>, lastInterruptPin: uint8, capturedPins: bv16, heldAllPins: bv16, now: uint32)
      returns (expanderNumber: uint8, calls: seq<ServiceCall>, buttonEvents: seq<ButtonEvent<GpioExpander>>)
      requires Valid() && |lineLow| == MaxExpanders
      requires forall i :: 0 <= i < MaxExpanders && entries[i] != null ==> entries[i].Valid()
      // distinct expanders own distinct encoder arrays (each constructor allocates its own)
      requires forall i, j ::
        (0 <= i < MaxExpanders && 0 <= j < MaxExpanders && entries[i] != null && entries[j] != null && entries[i] != entries[j])
        ==> entries[i].rotaryEncoders != entries[j].rotaryEncoders
      modifies set i | 0 <= i < entries.Length && entries[i] != null :: entries[i].rotaryEncoders
      ensures expanderNumber == FirstActive(entries[..], lineLow)
      ensures expanderNumber == 255 ==> calls == [] && buttonEvents == []
      ensures expanderNumber == 255 ==>
        forall i :: 0 <= i < MaxExpanders && entries[i] != null ==>
          entries[i].rotaryEncoders[..] == old(entries[i].rotaryEncoders[..])
      // an expander that is not the one serviced keeps its encoder slots
      ensures forall i ::
        (0 <= i < MaxExpanders && entries[i] != null && (expanderNumber == 255 || entries[i] != entries[expanderNumber]))
        ==> entries[i].rotaryEncoders[..] == old(entries[i].rotaryEncoders[..])
      ensures expanderNumber != 255 ==>
        var e := entries[expanderNumber];
        var allPins := AllPins(lastInterruptPin, capturedPins, heldAllPins);
        && e.Valid()
        && calls == ServiceCalls(e.buttons[..], old(e.rotaryEncoders[..]), lastInterruptPin, allPins)
        && buttonEvents == ButtonEventsOf(e, e.buttons[..], lastInterruptPin, allPins)
        && e.rotaryEncoders[..] == DecodeAll(old(e.rotaryEncoders[..]), allPins, now)
    {
      expanderNumber := FindActive(lineLow);
      if expanderNumber != 255 {
        var expander := entries[expanderNumber];
        calls, buttonEvents := expander.Service(lastInterruptPin, capturedPins, heldAllPins, now);
      } else {
        calls, buttonEvents := [], [];
      }
    }
  }
}
