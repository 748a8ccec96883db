/** What every step of the two threads of an input port keeps, and what follows from it. */
module PortInvariants {
  import opened Options
  import opened PortBuffers

  ghost predicate InSlot(p: Slots, b: nat) {
    p.incoming == Some(b) || p.latest == Some(b) || p.access == Some(b)
  }

  /** The three slots hold the buffers 0 .. count - 1, each in one slot. */
  ghost predicate Conserved(count: nat, p: Slots) {
    && (forall b: nat :: InSlot(p, b) <==> b < count)
    && (p.incoming.Some? ==> p.incoming != p.latest && p.incoming != p.access)
    && (p.latest.Some? ==> p.latest != p.access)
  }

  /** Which slot is filled when. */
  ghost predicate SlotsFit(count: nat, p: Slots) {
    && Conserved(count, p)
    && (p.hasInput ==> p.latest.Some?)
    && (count < 3 && !p.accessing ==> p.access == None)
    && (count == 1 && p.latest.Some? ==> p.hasInput)
  }

  /** Where the port thread is, and that a wakeup is never lost. */
  ghost predicate HandlerFits(s: State) {
    && (s.slots.asleep <==> s.handler.Sleeping? || s.handler.Woken?)
    && (s.slots.receiving <==> !s.handler.Awaiting?)
    && (s.handler.Filling? || s.handler.Filled? ==> s.slots.incoming.Some?)
    && (s.handler.Sleeping? && s.slots.incoming.Some? ==> s.slots.wakeup > 0)
  }

  /** Where the reader is, and that a posted message is never overlooked. */
  ghost predicate ReaderFits(s: State) {
    && (s.slots.accessing ==> s.reader == Outside(s.slots.access))
    && (!s.slots.accessing && s.reader.Outside? ==> s.reader.holds == None)
    && (s.reader.Dozing? && s.slots.hasInput ==> s.slots.toRead > 0)
  }

  /** With reads all of one kind a read only goes through when there is input. */
  ghost predicate GoesOnlyWithInput(y: Policy, s: State) {
    match y
    case Blocking => s.reader.Going? ==> s.slots.hasInput
    case Polling =>
      s.slots.toRead + (if s.reader.Going? then 1 else 0) == (if s.slots.hasInput then 1 else 0)
    case Mixed => true
  }

  ghost predicate Shape(y: Policy, count: nat, s: State) {
    && SlotsFit(count, s.slots) && HandlerFits(s) && ReaderFits(s) && GoesOnlyWithInput(y, s)
    && |s.content| == count
    && (y == Polling ==> !s.reader.Dozing? && !s.reader.Roused? && s.reader != Released(true))
    && (y == Blocking ==> s.reader != Released(false))
  }

  ghost function Filled(b: Option<nat>): nat {
    if b.Some? then 1 else 0
  }

  /** As many slots are filled as there are buffers. */
  lemma {:induction false} FilledSlots(count: nat, p: Slots)
    requires 1 <= count <= 3 && Conserved(count, p)
    ensures Filled(p.incoming) + Filled(p.latest) + Filled(p.access) == count
  {
    assert forall b: nat :: b < 3 ==> (InSlot(p, b) <==> b < count);
    assert InSlot(p, 0) && (InSlot(p, 1) <==> 1 < count) && (InSlot(p, 2) <==> 2 < count) && !InSlot(p, 3);
    if p.incoming.Some? { assert InSlot(p, p.incoming.value); }
    if p.latest.Some? { assert InSlot(p, p.latest.value); }
    if p.access.Some? { assert InSlot(p, p.access.value); }
  }

  lemma {:induction false} ConservedBySwaps(count: nat, p: Slots)
    requires Conserved(count, p)
    ensures Conserved(count, Published(p)) && Conserved(count, GivenBack(p)) && Conserved(count, Taken(p))
    ensures Conserved(count, LookedForSpace(p))
  {
    forall b: nat
      ensures InSlot(Published(p), b) == InSlot(p, b) && InSlot(GivenBack(p), b) == InSlot(p, b)
      ensures InSlot(Taken(p), b) == InSlot(p, b) && InSlot(LookedForSpace(p), b) == InSlot(p, b)
    {
    }
  }

  lemma {:induction false} SlotsFitKept(count: nat, p: Slots)
    requires 1 <= count <= 3 && SlotsFit(count, p)
    ensures SlotsFit(count, GivenBack(p)) && SlotsFit(count, LookedForSpace(p))
    ensures p.incoming.Some? ==> SlotsFit(count, Published(p))
    ensures !p.accessing ==> SlotsFit(count, Taken(p))
  {
    ConservedBySwaps(count, p);
    FilledSlots(count, p);
  }

  lemma {:induction false} HandlerShape(y: Policy, count: nat, s: State, e: Event)
    requires 1 <= count <= 3 && Shape(y, count, s) && Enabled(s, e)
    requires e.Arrives? || e.Wakes? || e.Retries? || e.FillsPart? || e.FillsAll? || e.Publishes?
    ensures Shape(y, count, Step(s, e))
  {
    SlotsFitKept(count, s.slots);
    if e.Wakes? {
      forall b: nat ensures InSlot(Step(s, e).slots, b) == InSlot(s.slots, b) {}
    }
  }

  lemma {:induction false} ReaderShape(y: Policy, count: nat, s: State, e: Event)
    requires 1 <= count <= 3 && Shape(y, count, s) && Allowed(y, e) && Enabled(s, e)
    requires e.Asks? || e.Checks? || e.Wakens? || e.Polls? || e.Takes?
    ensures Shape(y, count, Step(s, e))
  {
    SlotsFitKept(count, s.slots);
    FilledSlots(count, s.slots);
    if e.Wakens? || e.Polls? {
      forall b: nat ensures InSlot(Step(s, e).slots, b) == InSlot(s.slots, b) {}
    }
  }

  lemma {:induction false} ShapeKept(y: Policy, count: nat, s: State, e: Event)
    requires 1 <= count <= 3 && Shape(y, count, s) && Allowed(y, e) && Enabled(s, e)
    ensures Shape(y, count, Step(s, e))
  {
    if e.Asks? || e.Checks? || e.Wakens? || e.Polls? || e.Takes? {
      ReaderShape(y, count, s, e);
    } else {
      HandlerShape(y, count, s, e);
    }
  }
}
