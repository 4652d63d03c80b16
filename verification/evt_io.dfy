/** Digital inputs and outputs (`EvtIO`): a fixed table of ten interrupt
    slots filled by interrupt handlers and drained by a polling task, and a
    list of configured output pins whose physical level is the requested
    value, inverted for "reversed" pins. */
module EvtIO {

  import opened Words
  import opened Wrappers
  import opened Callbacks
  import Lists

  const MAX_TRIGGERS: nat := 10

  /** One interrupt slot: the watched pin, the level read by the last
      interrupt, how many interrupts happened and how many were already
      handled, the callback and how often it was called. */
  datatype Slot = Slot(
    pin: U8,
    pinValue: bool,
    interruptCount: nat,
    lastInterruptCount: nat,
    cb: CbId,
    triggerCount: U32)

  const EMPTY_SLOT: Slot := Slot(0, false, 0, 0, 0, 0)

  /** The static slot table and how many slots are in use. */
  datatype Inputs = Inputs(slots: seq<Slot>, num: nat)

  type InputTable = t: Inputs | |t.slots| == MAX_TRIGGERS && t.num <= MAX_TRIGGERS
    witness Inputs(seq(MAX_TRIGGERS, _ => EMPTY_SLOT), 0)

  /** Hardware configuration calls: those of registering a trigger, and
      `pinMode(pin, OUTPUT)` of an output setup. */
  datatype HwCall = PinMode(pin: U8, mode: U8) | AttachOnChange(pin: U8, handler: nat) | PinModeOutput(pin: U8)

  /** The input callback invoked with pin, level and its new count. */
  datatype InputFired = InputFired(cb: CbId, pin: U8, level: bool, triggerCount: U32)

  /** `trigger`: takes the next free slot, sets its pin mode and attaches
      the interrupt handler of that slot on any level change; fails once
      all ten slots are in use. */
  function Trigger(io: InputTable, pin: U8, mode: U8, cb: CbId): (r: (InputTable, bool, seq<HwCall>))
    ensures r.1 <==> io.num < MAX_TRIGGERS
    ensures !r.1 ==> r.0 == io && r.2 == []
    ensures r.1 ==> r.0.num == io.num + 1 && r.0.slots[io.num].pin == pin && r.0.slots[io.num].cb == cb
    ensures r.1 ==> r.2 == [PinMode(pin, mode), AttachOnChange(pin, io.num)]
    ensures r.1 ==> forall i :: 0 <= i < MAX_TRIGGERS && i != io.num ==> r.0.slots[i] == io.slots[i]
    ensures r.1 ==> r.0.slots[io.num] == io.slots[io.num].(pin := pin, cb := cb)
  {
    if io.num < MAX_TRIGGERS then
      var i := io.num;
      var io2 := Inputs(io.slots[i := io.slots[i].(pin := pin, cb := cb)], i + 1);
      (io2, true, [PinMode(pin, mode), AttachOnChange(pin, i)])
    else
      (io, false, [])
  }

  /** The interrupt handler of slot `i`: counts the interrupt and stores
      the level just read from the pin.  Only attached handlers run. */
  function Isr(io: InputTable, i: nat, level: bool): (r: InputTable)
    requires i < io.num
    ensures r.num == io.num
    ensures r.slots[i].interruptCount == io.slots[i].interruptCount + 1 && r.slots[i].pinValue == level
    ensures r.slots[i].lastInterruptCount == io.slots[i].lastInterruptCount
    ensures r.slots[i].pin == io.slots[i].pin && r.slots[i].cb == io.slots[i].cb
    ensures r.slots[i].triggerCount == io.slots[i].triggerCount
    ensures forall j :: 0 <= j < MAX_TRIGGERS && j != i ==> r.slots[j] == io.slots[j]
  {
    var s := io.slots[i];
    Inputs(io.slots[i := s.(interruptCount := s.interruptCount + 1, pinValue := level)], io.num)
  }

  /** Slot `i` has interrupts not yet handled. */
  predicate Pending(io: InputTable, i: nat)
    requires i < MAX_TRIGGERS
  {
    io.slots[i].interruptCount != io.slots[i].lastInterruptCount
  }

  /** The slot after handling: counter caught up, callback count bumped. */
  function Handled(s: Slot): Slot
  {
    s.(triggerCount := Wrap32(s.triggerCount + 1), lastInterruptCount := s.interruptCount)
  }

  /** The in-use slots from `i` on with pending interrupts, in order. */
  function PendingFrom(io: InputTable, i: nat): (p: seq<nat>)
    requires i <= io.num
    ensures forall k :: 0 <= k < |p| ==> i <= p[k] < io.num && Pending(io, p[k])
    ensures forall j :: i <= j < io.num && Pending(io, j) ==> j in p
    ensures (forall j :: i <= j < io.num ==> !Pending(io, j)) ==> p == []
    decreases io.num - i
  {
    if i == io.num then []
    else if Pending(io, i) then [i] + PendingFrom(io, i + 1)
    else PendingFrom(io, i + 1)
  }

  /** The callback call for a slot just handled. */
  function FiredOf(s: Slot): InputFired
  {
    InputFired(s.cb, s.pin, s.pinValue, s.triggerCount)
  }

  /** The loop of the polling task from slot `i` on: slot `i` is handled
      if it has pending interrupts, then the later slots. */
  function PollLoop(io: InputTable, i: nat): (r: (InputTable, seq<InputFired>))
    requires i <= io.num
    ensures r.0.num == io.num
    decreases io.num - i
  {
    if i == io.num then (io, [])
    else
      var rest := PollLoop(io, i + 1);
      if Pending(io, i) then
        var s := Handled(io.slots[i]);
        (Inputs(rest.0.slots[i := s], io.num), [FiredOf(s)] + rest.1)
      else
        rest
  }

  /** The loop handles exactly the in-use slots from `i` on that are
      pending, and leaves every other slot as it was. */
  lemma {:induction false} PollLoopSlots(io: InputTable, i: nat)
    requires i <= io.num
    ensures forall j :: 0 <= j < MAX_TRIGGERS && !(i <= j < io.num && Pending(io, j)) ==>
              PollLoop(io, i).0.slots[j] == io.slots[j]
    ensures forall j :: i <= j < io.num && Pending(io, j) ==> PollLoop(io, i).0.slots[j] == Handled(io.slots[j])
    decreases io.num - i
  {
    if i < io.num {
      PollLoopSlots(io, i + 1);
    }
  }

  /** `evs` are the callback calls of the slots `ps` just handled, in order. */
  predicate FiredFor(io: InputTable, ps: seq<nat>, evs: seq<InputFired>)
  {
    |evs| == |ps| && forall k :: 0 <= k < |evs| ==> ps[k] < MAX_TRIGGERS && evs[k] == FiredOf(Handled(io.slots[ps[k]]))
  }

  lemma FiredForCons(io: InputTable, p: nat, ps: seq<nat>, evs: seq<InputFired>)
    requires p < MAX_TRIGGERS && FiredFor(io, ps, evs)
    ensures FiredFor(io, [p] + ps, [FiredOf(Handled(io.slots[p]))] + evs)
  {
    var ps', evs' := [p] + ps, [FiredOf(Handled(io.slots[p]))] + evs;
    forall k | 1 <= k < |evs'|
      ensures ps'[k] < MAX_TRIGGERS && evs'[k] == FiredOf(Handled(io.slots[ps'[k]]))
    {
      assert ps'[k] == ps[k - 1] && evs'[k] == evs[k - 1];
    }
  }

  /** The loop's callbacks are those of the pending slots, in slot order. */
  lemma {:induction false} PollLoopEvents(io: InputTable, i: nat)
    requires i <= io.num
    ensures FiredFor(io, PendingFrom(io, i), PollLoop(io, i).1)
    decreases io.num - i
  {
    if i < io.num {
      PollLoopEvents(io, i + 1);
      if Pending(io, i) {
        FiredForCons(io, i, PendingFrom(io, i + 1), PollLoop(io, i + 1).1);
      }
    }
  }

  /** One pass of the polling task from slot `i` on.  The slots are
      independent, so handling slot `i` after the rest of the pass gives
      the same table as handling it first. */
  function PollFrom(io: InputTable, i: nat): (r: (InputTable, seq<InputFired>))
    requires i <= io.num
    ensures r.0.num == io.num
    ensures forall j :: 0 <= j < MAX_TRIGGERS && !(i <= j < io.num && Pending(io, j)) ==> r.0.slots[j] == io.slots[j]
    ensures forall j :: i <= j < io.num && Pending(io, j) ==> r.0.slots[j] == Handled(io.slots[j])
    ensures |r.1| == |PendingFrom(io, i)|
    ensures forall k :: 0 <= k < |r.1| ==> r.1[k] == FiredOf(Handled(io.slots[PendingFrom(io, i)[k]]))
  {
    PollLoopSlots(io, i);
    PollLoopEvents(io, i);
    PollLoop(io, i)
  }

  /** One pass of the interrupt task (`taskHandleInterrupts`): every in-use
      slot with new interrupts fires its callback once, with the last level
      seen, and is marked handled; all other slots stay as they are. */
  function Poll(io: InputTable): (r: (InputTable, seq<InputFired>))
    ensures r.0.num == io.num
    ensures forall j :: 0 <= j < io.num ==> !Pending(r.0, j)
    ensures forall j :: 0 <= j < MAX_TRIGGERS ==>
              r.0.slots[j].interruptCount == io.slots[j].interruptCount
              && r.0.slots[j].pinValue == io.slots[j].pinValue
              && r.0.slots[j].pin == io.slots[j].pin && r.0.slots[j].cb == io.slots[j].cb
    ensures |r.1| == |PendingFrom(io, 0)|
  {
    PollFrom(io, 0)
  }

  /** No slot has unhandled interrupts: a second poll does nothing. */
  lemma PollIdempotent(io: InputTable)
    ensures Poll(Poll(io).0) == (Poll(io).0, [])
  {
    var io2 := Poll(io).0;
    assert PendingFrom(io2, 0) == [];
    var r := Poll(io2);
    assert r.0.slots == io2.slots;
  }

  /** Interrupts are handled once and callbacks are counted per handling:
      the callback count never passes the handled count, which never
      passes the interrupt count.  The wrap-around of the 32-bit callback
      count can only lower it, so no width bound is needed. */
  predicate CountersOrdered(io: InputTable)
  {
    forall j :: 0 <= j < MAX_TRIGGERS ==>
      io.slots[j].triggerCount <= io.slots[j].lastInterruptCount <= io.slots[j].interruptCount
  }

  /** Registration, interrupts and polling all keep the counters ordered. */
  lemma CountersOrderedPreserved(io: InputTable, pin: U8, mode: U8, cb: CbId, i: nat, level: bool)
    requires CountersOrdered(io)
    ensures CountersOrdered(Trigger(io, pin, mode, cb).0)
    ensures i < io.num ==> CountersOrdered(Isr(io, i, level))
    ensures CountersOrdered(Poll(io).0)
  {
    var p := Poll(io).0;
    forall j | 0 <= j < MAX_TRIGGERS
      ensures p.slots[j].lastInterruptCount <= p.slots[j].interruptCount
      ensures p.slots[j].triggerCount <= p.slots[j].lastInterruptCount
    {
      if j < io.num && Pending(io, j) {
        assert p.slots[j] == Handled(io.slots[j]);
        assert io.slots[j].triggerCount + 1 <= io.slots[j].interruptCount;
      } else {
        assert p.slots[j] == io.slots[j];
      }
    }
  }

  /** A burst of interrupts on slot `i`, one per level read. */
  function Burst(io: InputTable, i: nat, levels: seq<bool>): (r: InputTable)
    requires i < io.num
    ensures r.num == io.num
    ensures r.slots[i].interruptCount == io.slots[i].interruptCount + |levels|
    ensures r.slots[i].lastInterruptCount == io.slots[i].lastInterruptCount
    ensures r.slots[i].pin == io.slots[i].pin && r.slots[i].cb == io.slots[i].cb
    ensures r.slots[i].triggerCount == io.slots[i].triggerCount
    ensures |levels| > 0 ==> r.slots[i].pinValue == levels[|levels| - 1]
    ensures |levels| == 0 ==> r.slots[i].pinValue == io.slots[i].pinValue
    ensures r.slots[i].pin == io.slots[i].pin && r.slots[i].cb == io.slots[i].cb
    ensures r.slots[i].triggerCount == io.slots[i].triggerCount
    ensures forall j :: 0 <= j < MAX_TRIGGERS && j != i ==> r.slots[j] == io.slots[j]
    decreases |levels|
  {
    if |levels| == 0 then io
    else Isr(Burst(io, i, levels[..|levels| - 1]), i, levels[|levels| - 1])
  }

  /** Interrupts between two polls coalesce: after a quiet table takes any
      non-empty burst of interrupts on slot `i`, the next poll fires that
      slot's callback exactly once, with the level of the last interrupt
      and the next count, and nothing else. */
  lemma BurstCoalesces(io: InputTable, i: nat, levels: seq<bool>)
    requires i < io.num && |levels| > 0
    requires CountersOrdered(io)
    requires forall j :: 0 <= j < io.num ==> !Pending(io, j)
    ensures var b := Burst(io, i, levels);
            var s := b.slots[i];
            Poll(b).1 == [InputFired(s.cb, s.pin, levels[|levels| - 1], Wrap32(s.triggerCount + 1))]
  {
    var b := Burst(io, i, levels);
    assert Pending(b, i);
    forall j | 0 <= j < b.num && j != i
      ensures !Pending(b, j)
    {
      assert b.slots[j] == io.slots[j];
      assert !Pending(io, j);
    }
    PendingFromSingle(b, 0, i);
    var r := Poll(b);
    assert |r.1| == 1;
    assert r.1[0] == FiredOf(Handled(b.slots[i]));
  }

  /** When only slot `i` is pending, it is the only pending index. */
  lemma {:induction false} PendingFromSingle(io: InputTable, from: nat, i: nat)
    requires from <= i < io.num && Pending(io, i)
    requires forall j :: from <= j < io.num && j != i ==> !Pending(io, j)
    ensures PendingFrom(io, from) == [i]
    decreases io.num - from
  {
    if from < i {
      PendingFromSingle(io, from + 1, i);
    } else {
      assert PendingFrom(io, i + 1) == [];
    }
  }

  // ---------------------------------------------------------------------
  // Outputs

  /** One configured output pin. */
  datatype OutputConf = OutputConf(pin: U8, reversed: bool, cb: Option<CbId>, triggerCount: U32)

  /** The configured outputs and the physical level of every pin (a pin
      never written reads LOW). */
  datatype Outputs = Outputs(confs: seq<OutputConf>, levels: map<U8, bool>)

  /** The output callback invoked with pin, new physical level and count. */
  datatype OutputFired = OutputFired(cb: CbId, pin: U8, level: bool, triggerCount: U32)

  /** `digitalRead` of an output pin. */
  function Read(o: Outputs, pin: U8): bool
  {
    if pin in o.levels then o.levels[pin] else false
  }

  predicate Configured(o: Outputs, pin: U8)
  {
    exists i :: 0 <= i < |o.confs| && o.confs[i].pin == pin
  }

  /** `outputSetup`: configures a pin once, switching it to output mode;
      a second setup of the same pin fails and changes nothing.  The
      two-argument overload passes no callback. */
  function OutputSetup(o: Outputs, pin: U8, reversed: bool, cb: Option<CbId>): (r: (Outputs, bool, seq<HwCall>))
    ensures r.1 <==> !Configured(o, pin)
    ensures !r.1 ==> r.0 == o && r.2 == []
    ensures r.1 ==> r.0.confs == o.confs + [OutputConf(pin, reversed, cb, 0)] && r.0.levels == o.levels
    ensures r.1 ==> r.2 == [PinModeOutput(pin)]
    ensures Configured(r.0, pin)
  {
    var i := Lists.FirstIndex(o.confs, (c: OutputConf) => c.pin == pin);
    if i < |o.confs| then (o, false, [])
    else
      var r := Outputs(o.confs + [OutputConf(pin, reversed, cb, 0)], o.levels);
      assert r.confs[|o.confs|].pin == pin;
      (r, true, [PinModeOutput(pin)])
  }

  /** The index of the first configuration of `pin`. */
  function ConfIndex(o: Outputs, pin: U8): (i: nat)
    ensures i <= |o.confs|
    ensures i < |o.confs| <==> Configured(o, pin)
    ensures i < |o.confs| ==> o.confs[i].pin == pin
  {
    Lists.FirstIndex(o.confs, (c: OutputConf) => c.pin == pin)
  }

  /** `o2` keeps every configuration of `o`, except that the one `pin`
      resolves to may carry a new callback count. */
  predicate ConfsKept(o: Outputs, o2: Outputs, pin: U8)
  {
    |o2.confs| == |o.confs|
    && (forall k :: 0 <= k < |o.confs| && k != ConfIndex(o, pin) ==> o2.confs[k] == o.confs[k])
    && (forall k :: 0 <= k < |o.confs| ==>
          o2.confs[k] == o.confs[k].(triggerCount := o2.confs[k].triggerCount))
  }

  /** `f` is the call of the callback configured for `pin` in `o`, with the
      level `pin` has in `o2` and the next count, which `o2` stores. */
  predicate CalledBack(o: Outputs, o2: Outputs, pin: U8, f: OutputFired)
  {
    var i := ConfIndex(o, pin);
    i < |o.confs| && i < |o2.confs| && o.confs[i].cb == Some(f.cb)
    && f.pin == pin && f.level == Read(o2, pin)
    && f.triggerCount == Wrap32(o.confs[i].triggerCount + 1) && o2.confs[i].triggerCount == f.triggerCount
  }

  /** `outputSet`: for a configured pin the physical level becomes the
      requested value, inverted if the pin is reversed; only a real change
      writes the pin and calls the callback (if any) with a new count.
      An unconfigured pin is refused. */
  function OutputSet(o: Outputs, pin: U8, value: bool): (r: (Outputs, bool, Option<OutputFired>))
    ensures r.1 <==> Configured(o, pin)
    ensures !r.1 ==> r.0 == o && r.2 == None
    ensures r.1 ==> Read(r.0, pin) == (value != o.confs[ConfIndex(o, pin)].reversed)
    ensures forall p :: p != pin ==> Read(r.0, p) == Read(o, p)
    ensures |r.0.confs| == |o.confs|
    ensures forall k :: 0 <= k < |o.confs| ==>
              r.0.confs[k].pin == o.confs[k].pin && r.0.confs[k].reversed == o.confs[k].reversed
    ensures r.2.Some? <==> r.1 && Read(r.0, pin) != Read(o, pin) && o.confs[ConfIndex(o, pin)].cb.Some?
    ensures r.2.Some? ==> r.2.value.pin == pin && r.2.value.level == Read(r.0, pin)
    ensures r.2.Some? ==> var c := o.confs[ConfIndex(o, pin)];
              r.2.value.cb == c.cb.value && r.2.value.triggerCount == Wrap32(c.triggerCount + 1)
              && r.0.confs[ConfIndex(o, pin)].triggerCount == r.2.value.triggerCount
    ensures ConfsKept(o, r.0, pin)
    ensures r.2.None? ==> r.0.confs == o.confs
    ensures r.2.Some? ==> CalledBack(o, r.0, pin, r.2.value)
  {
    var i := ConfIndex(o, pin);
    if i == |o.confs| then (o, false, None)
    else
      var c := o.confs[i];
      var level := if c.reversed then !value else value;
      if Read(o, pin) == level then (o, true, None)
      else
        var o2 := o.(levels := o.levels[pin := level]);
        match c.cb
        case None => (o2, true, None)
        case Some(cb) =>
          var n := Wrap32(c.triggerCount + 1);
          (o2.(confs := o.confs[i := c.(triggerCount := n)]), true, Some(OutputFired(cb, pin, level, n)))
  }

  /** Setting the same value again changes nothing and calls nothing. */
  lemma OutputSetIdempotent(o: Outputs, pin: U8, value: bool)
    ensures var o1 := OutputSet(o, pin, value).0;
            OutputSet(o1, pin, value) == (o1, Configured(o, pin), None)
  {
    var o1 := OutputSet(o, pin, value).0;
    if Configured(o, pin) {
      assert ConfIndex(o1, pin) == ConfIndex(o, pin) by {
        var i := ConfIndex(o, pin);
        var j := ConfIndex(o1, pin);
        assert o1.confs[i].pin == pin;
      }
    }
  }

  /** `outputToggle` as written: it looks only at the FIRST configured
      output's reversed flag, whichever pin is toggled, and then requests
      the current physical level (reversed) or its negation.  A pin whose
      own flag differs from that first flag is therefore never toggled:
      nothing is written and no callback is made. */
  function OutputToggle(o: Outputs, pin: U8): (r: (Outputs, bool, Option<OutputFired>))
    ensures |o.confs| == 0 ==> r == (o, false, None)
    ensures |o.confs| > 0 ==> (r.1 <==> Configured(o, pin))
    ensures Configured(o, pin) && o.confs[ConfIndex(o, pin)].reversed == o.confs[0].reversed ==>
              Read(r.0, pin) == !Read(o, pin)
    ensures Configured(o, pin) && o.confs[ConfIndex(o, pin)].reversed != o.confs[0].reversed ==>
              r == (o, true, None)
    ensures !Configured(o, pin) ==> r == (o, false, None)
    ensures forall p :: p != pin ==> Read(r.0, p) == Read(o, p)
    ensures ConfsKept(o, r.0, pin) && (r.2.None? ==> r.0.confs == o.confs)
    ensures Configured(o, pin) && o.confs[ConfIndex(o, pin)].reversed == o.confs[0].reversed ==>
              (r.2.Some? <==> o.confs[ConfIndex(o, pin)].cb.Some?)
    ensures r.2.Some? ==> CalledBack(o, r.0, pin, r.2.value)
  {
    if |o.confs| == 0 then (o, false, None)
    else if o.confs[0].reversed then OutputSet(o, pin, Read(o, pin))
    else OutputSet(o, pin, !Read(o, pin))
  }

  /** A plain output configured first and a reversed output second:
      toggling the reversed one leaves its level where it was. */
  lemma OutputToggleMissesMixedFlags()
    ensures var o := Outputs([OutputConf(1, false, None, 0), OutputConf(2, true, None, 0)], map[]);
            Configured(o, 2) && Read(OutputToggle(o, 2).0, 2) == Read(o, 2)
  {
    var o := Outputs([OutputConf(1, false, None, 0), OutputConf(2, true, None, 0)], map[]);
    assert o.confs[1].pin == 2;
    assert ConfIndex(o, 2) == 1 by { assert o.confs[0].pin != 2; }
  }

  /** `outputToggle` as evidently intended: the pin's own reversed flag is
      used, so a configured pin always changes level. */
  function OutputToggleOwnFlag(o: Outputs, pin: U8): (r: (Outputs, bool, Option<OutputFired>))
    ensures r.1 <==> Configured(o, pin)
    ensures !r.1 ==> r == (o, false, None)
    ensures r.1 ==> Read(r.0, pin) == !Read(o, pin)
    ensures forall p :: p != pin ==> Read(r.0, p) == Read(o, p)
    ensures r.1 ==> (r.2.Some? <==> o.confs[ConfIndex(o, pin)].cb.Some?)
    ensures ConfsKept(o, r.0, pin) && (r.2.None? ==> r.0.confs == o.confs)
    ensures r.2.Some? ==> CalledBack(o, r.0, pin, r.2.value)
  {
    var i := ConfIndex(o, pin);
    if i == |o.confs| then (o, false, None)
    else
      var rev := o.confs[i].reversed;
      OutputSet(o, pin, !Read(o, pin) != rev)
  }

  /** Toggling a configured pin twice restores every pin's level. */
  lemma ToggleTwiceRestores(o: Outputs, pin: U8)
    requires Configured(o, pin)
    ensures var o2 := OutputToggleOwnFlag(OutputToggleOwnFlag(o, pin).0, pin).0;
            forall p :: Read(o2, p) == Read(o, p)
  {
    var o1 := OutputToggleOwnFlag(o, pin).0;
    assert Configured(o1, pin) by {
      var i := ConfIndex(o, pin);
      assert o1.confs[i].pin == pin;
    }
  }

  /** No pin is configured twice. */
  predicate UniquePins(o: Outputs)
  {
    forall i, j :: 0 <= i < j < |o.confs| ==> o.confs[i].pin != o.confs[j].pin
  }

  /** With unique pins, the first configuration of a pin is its only one. */
  lemma OnlyConfIndex(o: Outputs, pin: U8, k: nat)
    requires UniquePins(o) && k < |o.confs| && o.confs[k].pin == pin
    ensures k == ConfIndex(o, pin)
  {
  }

  /** The pins of `o2`'s configurations are those of `o`, in order. */
  lemma UniquePinsKept(o: Outputs, o2: Outputs, pin: U8)
    requires UniquePins(o) && ConfsKept(o, o2, pin)
    ensures UniquePins(o2)
  {
    forall i, j | 0 <= i < j < |o2.confs|
      ensures o2.confs[i].pin != o2.confs[j].pin
    {
      assert o2.confs[i].pin == o.confs[i].pin;
      assert o2.confs[j].pin == o.confs[j].pin;
    }
  }

  /** Setup refuses a pin already configured, and setting or toggling
      never touches a configured pin number, so starting from no outputs
      every pin stays configured at most once. */
  lemma UniquePinsPreserved(o: Outputs, pin: U8, reversed: bool, cb: Option<CbId>, value: bool)
    requires UniquePins(o)
    ensures UniquePins(Outputs([], o.levels))
    ensures UniquePins(OutputSetup(o, pin, reversed, cb).0)
    ensures UniquePins(OutputSet(o, pin, value).0)
    ensures UniquePins(OutputToggle(o, pin).0)
    ensures UniquePins(OutputToggleOwnFlag(o, pin).0)
  {
    var r := OutputSetup(o, pin, reversed, cb);
    if r.1 {
      forall i, j | 0 <= i < j < |r.0.confs|
        ensures r.0.confs[i].pin != r.0.confs[j].pin
      {
        if j == |o.confs| {
          assert r.0.confs[i] == o.confs[i];
        } else {
          assert r.0.confs[i] == o.confs[i] && r.0.confs[j] == o.confs[j];
        }
      }
    }
    UniquePinsKept(o, OutputSet(o, pin, value).0, pin);
    UniquePinsKept(o, OutputToggle(o, pin).0, pin);
    UniquePinsKept(o, OutputToggleOwnFlag(o, pin).0, pin);
  }
}
