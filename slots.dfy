/** The button and rotary-encoder slot tables of one expander, as values:
    what AddButton and AddRotaryEncoder do to a table, and the table
    invariants those operations keep (used slots form a prefix, button pins
    are distinct, encoder pin sets are disjoint, each encoder knows its slot). */
module GpioExpanderSlots {
  import opened GpioExpanderTypes

  /** The trigger modes AddButton accepts. */
  predicate ValidMode(mode: uint8)
  {
    mode == CHANGE || mode == LOW || mode == HIGH
  }

  /** Result of binding a slot: the slot taken (None is nullptr)
      and the table afterwards. */
  datatype Added<T> = Added(slot: Option<nat>, slots: seq<T>)

  // ---------------------------------------------------------------- buttons

  /** Index of the first unused button slot; |s| when every slot is used. */
  function FirstUnusedButton(s: seq<Button>): (k: nat)
    ensures k <= |s|
    ensures forall j :: 0 <= j < k ==> s[j].isUsed
    ensures k < |s| ==> !s[k].isUsed
  {
    if s == [] || !s[0].isUsed then 0 else 1 + FirstUnusedButton(s[1..])
  }

  /** Some used slot of `s` is bound to `pin`. */
  predicate ButtonPinIn(s: seq<Button>, pin: uint8)
  {
    exists j :: 0 <= j < |s| && s[j].isUsed && s[j].pin == pin
  }

  /** AddButton on the table `s`: an invalid mode is refused; otherwise the
      scan stops at the first unused slot and binds it, unless a used slot
      before it already has `pin`; a full table is refused. */
  function AddButtonTo(s: seq<Button>, pin: uint8, mode: uint8): (r: Added<Button>)
    ensures |r.slots| == |s|
    ensures !ValidMode(mode) ==> r == Added(None, s)
    ensures r.slot.Some? <==>
      ValidMode(mode) && FirstUnusedButton(s) < |s| && !ButtonPinIn(s[..FirstUnusedButton(s)], pin)
    ensures r.slot.None? ==> r.slots == s
    // the first unused slot gets pin, mode and isUsed; no other slot changes
    ensures r.slot.Some? ==>
      && r.slot.value == FirstUnusedButton(s)
      && r.slots == s[r.slot.value := s[r.slot.value].(pin := pin, isUsed := true, mode := mode)]
  {
    if !ValidMode(mode) then Added(None, s)
    else
      var k := FirstUnusedButton(s);
      if k < |s| && !ButtonPinIn(s[..k], pin) then
        Added(Some(k), s[k := s[k].(pin := pin, isUsed := true, mode := mode)])
      else
        Added(None, s)
  }

  /** Used button slots form a prefix of the table. */
  predicate ButtonsUsedPrefix(s: seq<Button>)
  {
    forall i, j :: 0 <= i < j < |s| && s[j].isUsed ==> s[i].isUsed
  }

  /** The button table invariant: a used prefix with pairwise distinct pins. */
  predicate ButtonTable(s: seq<Button>)
  {
    && ButtonsUsedPrefix(s)
    && forall i, j :: 0 <= i < j < |s| && s[i].isUsed && s[j].isUsed ==> s[i].pin != s[j].pin
  }

  /** In a well-formed table the used slots are exactly those before the
      first unused one. */
  lemma ButtonsUsedBeforeFirstUnused(s: seq<Button>, j: nat)
    requires ButtonsUsedPrefix(s) && j < |s|
    ensures s[j].isUsed <==> j < FirstUnusedButton(s)
  {
  }

  /** AddButton keeps the table invariant, and on a well-formed table it
      succeeds exactly when the mode is valid, a slot is free and no used
      slot anywhere holds `pin`; afterwards `pin` is bound. */
  lemma AddButtonKeepsTable(s: seq<Button>, pin: uint8, mode: uint8)
    requires ButtonTable(s)
    ensures ButtonTable(AddButtonTo(s, pin, mode).slots)
    ensures AddButtonTo(s, pin, mode).slot.Some? <==>
      ValidMode(mode) && (exists j :: 0 <= j < |s| && !s[j].isUsed) && !ButtonPinIn(s, pin)
    ensures AddButtonTo(s, pin, mode).slot.Some? ==> ButtonPinIn(AddButtonTo(s, pin, mode).slots, pin)
  {
    var k := FirstUnusedButton(s);
    if exists j :: 0 <= j < |s| && !s[j].isUsed {
      var j :| 0 <= j < |s| && !s[j].isUsed;
      ButtonsUsedBeforeFirstUnused(s, j);
    }
    if ButtonPinIn(s, pin) {
      var j :| 0 <= j < |s| && s[j].isUsed && s[j].pin == pin;
      ButtonsUsedBeforeFirstUnused(s, j);
      assert s[..k][j] == s[j];
    }
    var r := AddButtonTo(s, pin, mode);
    if r.slot.Some? {
      assert r.slots[k].isUsed && r.slots[k].pin == pin;
      forall j | 0 <= j < |s| && s[j].isUsed ensures s[j].pin != pin {
        ButtonsUsedBeforeFirstUnused(s, j);
        assert s[..k][j] == s[j];
      }
    }
  }

  // ---------------------------------------------------------- rotary encoders

  /** Index of the first unused encoder slot; |s| when every slot is used. */
  function FirstUnusedEncoder(s: seq<RotaryEncoder>): (k: nat)
    ensures k <= |s|
    ensures forall j :: 0 <= j < k ==> s[j].isUsed
    ensures k < |s| ==> !s[k].isUsed
  {
    if s == [] || !s[0].isUsed then 0 else 1 + FirstUnusedEncoder(s[1..])
  }

  /** Encoder `e` uses `pin1` or `pin2` for either of its own pins. */
  predicate SharesPin(e: RotaryEncoder, pin1: uint8, pin2: uint8)
  {
    e.pin1 == pin1 || e.pin2 == pin1 || e.pin1 == pin2 || e.pin2 == pin2
  }

  /** Some used slot of `s` shares a pin with the pair (`pin1`, `pin2`). */
  predicate EncoderPinIn(s: seq<RotaryEncoder>, pin1: uint8, pin2: uint8)
  {
    exists j :: 0 <= j < |s| && s[j].isUsed && SharesPin(s[j], pin1, pin2)
  }

  /** AddRotaryEncoder on the table `s`: binds the first unused slot unless a
      used slot before it shares either pin; a full table is refused. Neither
      `pin1 == pin2` nor a clash with a button pin is checked. */
  function AddRotaryEncoderTo(s: seq<RotaryEncoder>, pin1: uint8, pin2: uint8,
                              fullCycleBetweenDetents: bool, debounceMs: uint32): (r: Added<RotaryEncoder>)
    requires |s| < 0x100
    ensures |r.slots| == |s|
    ensures r.slot.Some? <==>
      FirstUnusedEncoder(s) < |s| && !EncoderPinIn(s[..FirstUnusedEncoder(s)], pin1, pin2)
    ensures r.slot.None? ==> r.slots == s
    // the first unused slot is configured and learns its own index; no other slot changes
    ensures r.slot.Some? ==>
      && r.slot.value == FirstUnusedEncoder(s)
      && r.slots == s[r.slot.value := s[r.slot.value].(
           pin1 := pin1, pin2 := pin2, isUsed := true, fullCycleBetweenDetents := fullCycleBetweenDetents,
           debounceMs := debounceMs, index := r.slot.value as uint8)]
  {
    var k := FirstUnusedEncoder(s);
    if k < |s| && !EncoderPinIn(s[..k], pin1, pin2) then
      Added(Some(k), s[k := s[k].(pin1 := pin1, pin2 := pin2, isUsed := true,
                                   fullCycleBetweenDetents := fullCycleBetweenDetents,
                                   debounceMs := debounceMs, index := k as uint8)])
    else
      Added(None, s)
  }

  /** Used encoder slots form a prefix of the table. */
  predicate EncodersUsedPrefix(s: seq<RotaryEncoder>)
  {
    forall i, j :: 0 <= i < j < |s| && s[j].isUsed ==> s[i].isUsed
  }

  /** The encoder table invariant: a used prefix, pin sets of used encoders
      pairwise disjoint, and every used encoder's `index` is its slot. */
  predicate EncoderTable(s: seq<RotaryEncoder>)
  {
    && EncodersUsedPrefix(s)
    && (forall i, j :: 0 <= i < j < |s| && s[i].isUsed && s[j].isUsed ==> !SharesPin(s[i], s[j].pin1, s[j].pin2))
    && (forall i :: 0 <= i < |s| && s[i].isUsed ==> s[i].index as int == i)
  }

  /** In a well-formed table the used slots are exactly those before the
      first unused one. */
  lemma EncodersUsedBeforeFirstUnused(s: seq<RotaryEncoder>, j: nat)
    requires EncodersUsedPrefix(s) && j < |s|
    ensures s[j].isUsed <==> j < FirstUnusedEncoder(s)
  {
  }

  /** AddRotaryEncoder keeps the table invariant, and on a well-formed table
      it succeeds exactly when a slot is free and no used encoder shares
      either pin. */
  lemma AddRotaryEncoderKeepsTable(s: seq<RotaryEncoder>, pin1: uint8, pin2: uint8,
                                   fullCycleBetweenDetents: bool, debounceMs: uint32)
    requires |s| < 0x100 && EncoderTable(s)
    ensures EncoderTable(AddRotaryEncoderTo(s, pin1, pin2, fullCycleBetweenDetents, debounceMs).slots)
    ensures AddRotaryEncoderTo(s, pin1, pin2, fullCycleBetweenDetents, debounceMs).slot.Some? <==>
      (exists j :: 0 <= j < |s| && !s[j].isUsed) && !EncoderPinIn(s, pin1, pin2)
  {
    var k := FirstUnusedEncoder(s);
    if exists j :: 0 <= j < |s| && !s[j].isUsed {
      var j :| 0 <= j < |s| && !s[j].isUsed;
      EncodersUsedBeforeFirstUnused(s, j);
    }
    if EncoderPinIn(s, pin1, pin2) {
      var j :| 0 <= j < |s| && s[j].isUsed && SharesPin(s[j], pin1, pin2);
      EncodersUsedBeforeFirstUnused(s, j);
      assert s[..k][j] == s[j];
    }
    var r := AddRotaryEncoderTo(s, pin1, pin2, fullCycleBetweenDetents, debounceMs);
    if r.slot.Some? {
      forall j | 0 <= j < |s| && s[j].isUsed ensures !SharesPin(s[j], pin1, pin2) {
        EncodersUsedBeforeFirstUnused(s, j);
        assert s[..k][j] == s[j];
      }
    }
  }

  /** The duplicate checks guard only against used slots: a pair with
      `pin1 == pin2` is accepted into an empty table. */
  lemma EqualPinsAccepted(s: seq<RotaryEncoder>, pin: uint8)
    requires 0 < |s| < 0x100 && !s[0].isUsed
    ensures AddRotaryEncoderTo(s, pin, pin, false, 200).slot == Some(0)
  {
  }
}
