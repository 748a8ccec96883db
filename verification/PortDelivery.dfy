/** What the reader of an input port gets to see, over whole runs. */
module PortDelivery {
  import opened Options
  import opened PortBuffers
  import opened PortInvariants

  /** A whole message, no later than the n-th. */
  predicate Whole(c: Content, n: nat) {
    c.Message? ==> 1 <= c.number <= n
  }

  /** Buffer b, if there is one, is not half filled, and holds nothing later than the n-th message. */
  ghost predicate Settled(s: State, b: Option<nat>, n: nat) {
    b.Some? && b.value < |s.content| ==> s.content[b.value] != Partial && Whole(s.content[b.value], n)
  }

  ghost predicate Contains(s: State, b: Option<nat>, c: Content) {
    b.Some? && b.value < |s.content| && s.content[b.value] == c
  }

  /** No delivery is half filled, and each is at most the n-th message. */
  ghost predicate AllWhole(d: seq<Content>, n: nat) {
    forall i :: 0 <= i < |d| ==> d[i] != Partial && Whole(d[i], n)
  }

  ghost predicate Before(d: seq<Content>, n: nat) {
    forall i :: 0 <= i < |d| && d[i].Message? ==> d[i].number < n
  }

  /** What the buffers contain and what has been delivered so far. */
  ghost predicate Messages(s: State) {
    && Settled(s, s.slots.latest, s.received) && Settled(s, s.slots.access, s.received)
    && AllWhole(s.delivered, s.received)
    && (s.handler.Filled? ==> Contains(s, s.slots.incoming, Message(s.received + 1)))
    && (s.slots.hasInput ==>
          s.received > 0 && Contains(s, s.slots.latest, Message(s.received)) && Before(s.delivered, s.received))
    && (!s.slots.hasInput && s.received > 0 ==> Message(s.received) in s.delivered)
    && (s.reader.Outside? && s.reader.holds.Some? ==>
          s.delivered != [] && Contains(s, s.reader.holds, s.delivered[|s.delivered| - 1]))
  }

  ghost predicate Increasing(d: seq<Content>) {
    && (forall i :: 0 <= i < |d| ==> d[i].Message?)
    && (forall i, j :: 0 <= i < j < |d| ==> d[i].number < d[j].number)
  }

  /** The first n messages, in order. */
  function FirstMessages(n: nat): seq<Content> {
    if n == 0 then [] else FirstMessages(n - 1) + [Message(n)]
  }

  ghost predicate Ordered(y: Policy, count: nat, s: State) {
    && (y != Mixed ==> Increasing(s.delivered))
    && (count == 1 ==>
          s.delivered == FirstMessages(if s.slots.hasInput && s.received > 0 then s.received - 1 else s.received))
  }

  ghost predicate Good(y: Policy, count: nat, s: State) {
    Shape(y, count, s) && Messages(s) && Ordered(y, count, s)
  }

  lemma {:induction false} StartsGood(y: Policy, count: nat)
    requires 1 <= count <= 3
    ensures Good(y, count, Initial(count))
  {
    var p := Installed(count);
    forall b: nat ensures InSlot(p, b) <==> b < count {}
  }

  /** Filling the incoming buffer leaves the contents of the others alone. */
  lemma {:induction false} FillingKept(y: Policy, count: nat, s: State, e: Event)
    requires 1 <= count <= 3 && Good(y, count, s) && Enabled(s, e) && (e.FillsPart? || e.FillsAll?)
    ensures Messages(Step(s, e))
  {
    SlotsAreBuffers(count, s.slots);
  }

  lemma {:induction false} PublishingKept(y: Policy, count: nat, s: State)
    requires 1 <= count <= 3 && Good(y, count, s) && Enabled(s, Publishes)
    ensures Messages(Step(s, Publishes))
  {
    SlotsAreBuffers(count, s.slots);
  }

  lemma {:induction false} AskingKept(y: Policy, count: nat, s: State, wait: bool)
    requires 1 <= count <= 3 && Good(y, count, s) && Enabled(s, Asks(wait))
    ensures Messages(Step(s, Asks(wait)))
  {
    FilledSlots(count, s.slots);
    SlotsAreBuffers(count, s.slots);
  }

  lemma {:induction false} TakingKept(y: Policy, count: nat, s: State)
    requires 1 <= count <= 3 && Good(y, count, s) && Enabled(s, Takes)
    ensures Messages(Step(s, Takes))
  {
    FilledSlots(count, s.slots);
    SlotsAreBuffers(count, s.slots);
  }

  lemma {:induction false} MessagesKept(y: Policy, count: nat, s: State, e: Event)
    requires 1 <= count <= 3 && Good(y, count, s) && Allowed(y, e) && Enabled(s, e)
    ensures Messages(Step(s, e))
  {
    match e
    case FillsPart => FillingKept(y, count, s, e);
    case FillsAll => FillingKept(y, count, s, e);
    case Publishes => PublishingKept(y, count, s);
    case Asks(wait) => AskingKept(y, count, s, wait);
    case Takes => TakingKept(y, count, s);
    case _ =>
  }

  lemma {:induction false} OrderedKept(y: Policy, count: nat, s: State, e: Event)
    requires 1 <= count <= 3 && Good(y, count, s) && Allowed(y, e) && Enabled(s, e)
    ensures Ordered(y, count, Step(s, e))
  {
    FilledSlots(count, s.slots);
    SlotsAreBuffers(count, s.slots);
  }

  lemma {:induction false} SlotsAreBuffers(count: nat, p: Slots)
    requires Conserved(count, p)
    ensures p.incoming.Some? ==> p.incoming.value < count
    ensures p.latest.Some? ==> p.latest.value < count
    ensures p.access.Some? ==> p.access.value < count
  {
    assert p.incoming.Some? ==> InSlot(p, p.incoming.value);
    assert p.latest.Some? ==> InSlot(p, p.latest.value);
    assert p.access.Some? ==> InSlot(p, p.access.value);
  }

  // ----- whole runs

  lemma {:induction false} RunKeepsGood(y: Policy, count: nat, s: State, es: seq<Event>, t: State)
    requires 1 <= count <= 3 && Good(y, count, s) && Run(y, s, es, t)
    ensures Good(y, count, t)
    decreases |es|
  {
    if es == [] {
    } else {
      ShapeKept(y, count, s, es[0]);
      MessagesKept(y, count, s, es[0]);
      OrderedKept(y, count, s, es[0]);
      RunKeepsGood(y, count, Step(s, es[0]), es[1..], t);
    }
  }

  lemma {:induction false} ReachableIsGood(y: Policy, count: nat, s: State)
    requires 1 <= count <= 3 && Reachable(y, count, s)
    ensures Good(y, count, s)
  {
    var es :| Run(y, Initial(count), es, s);
    StartsGood(y, count);
    RunKeepsGood(y, count, Initial(count), es, s);
  }

  /**
   * However the two threads interleave and however the program reads, the installed buffers
   * stay in the three slots, each in one of them; the reader's buffer is never the one being
   * filled, and keeps the message it was delivered with.
   */
  lemma {:induction false} BuffersAreSafe(y: Policy, count: nat, s: State)
    requires 1 <= count <= 3 && Reachable(y, count, s)
    ensures Conserved(count, s.slots)
    ensures s.handler.Filling? || s.handler.Filled? ==> s.slots.incoming.Some?
    ensures s.reader.Outside? && s.reader.holds.Some? ==>
      && s.reader.holds == s.slots.access && s.reader.holds != s.slots.incoming && s.reader.holds != s.slots.latest
      && s.delivered != [] && Contains(s, s.reader.holds, s.delivered[|s.delivered| - 1])
  {
    ReachableIsGood(y, count, s);
  }

  /** The port thread and the reader are never both stuck, and neither waits for what is already there. */
  lemma {:induction false} NeverBothStuck(y: Policy, count: nat, s: State)
    requires 1 <= count <= 3 && Reachable(y, count, s)
    ensures s.handler.Sleeping? && s.slots.incoming.Some? ==> Enabled(s, Wakes)
    ensures s.reader.Dozing? && s.slots.hasInput ==> Enabled(s, Wakens)
    ensures !s.slots.accessing && !s.slots.hasInput ==> s.slots.incoming.Some?
    ensures s.handler.Sleeping? && s.reader.Dozing? ==> Enabled(s, Wakes) || Enabled(s, Wakens)
  {
    ReachableIsGood(y, count, s);
    FilledSlots(count, s.slots);
  }

  /**
   * A read wakes the port thread if it has gone to sleep for want of a buffer: both when it gives back the buffer it held and
   * when it takes another it adds one token, and it takes none away.
   */
  lemma {:induction false} ReadWakes(y: Policy, count: nat, s: State, e: Event)
    requires 1 <= count <= 3 && Reachable(y, count, s) && Enabled(s, e) && (e.Takes? || (e.Asks? && s.slots.accessing))
    ensures Step(s, e).slots.wakeup == s.slots.wakeup + if s.handler.Sleeping? || s.handler.Woken? then 1 else 0
    ensures s.handler.Sleeping? ==> Enabled(Step(s, e), Wakes)
  {
    ReachableIsGood(y, count, s);
  }

  /** Once a message is there a blocking read returns it without the help of the other thread. */
  lemma {:induction false} ReadGoesThrough(y: Policy, count: nat, s: State)
    requires 1 <= count <= 3 && Reachable(y, count, s) && s.slots.hasInput
    requires !s.reader.Outside? && s.reader != Released(false)
    ensures exists es: seq<Event>, t: State ::
      && |es| <= 3 && (forall e :: e in es ==> e.Wakens? || e.Checks? || e.Takes?) && Run(y, s, es, t)
      && t.reader.Outside? && t.delivered == s.delivered + [Message(s.received)]
  {
    ReachableIsGood(y, count, s);
    var es, u := GoesOn(y, count, s);
    OneMore(y, s, es, u, Takes);
    assert Run(y, s, es + [Takes], Step(u, Takes));
  }

  /** The steps of the reader up to its taking the buffer. */
  lemma {:induction false} GoesOn(y: Policy, count: nat, s: State) returns (es: seq<Event>, u: State)
    requires Good(y, count, s) && s.slots.hasInput && !s.reader.Outside? && s.reader != Released(false)
    ensures |es| <= 2 && (forall e :: e in es ==> e.Wakens? || e.Checks?) && Run(y, s, es, u)
    ensures u.reader == Going && u.slots == s.slots.(toRead := u.slots.toRead)
    ensures u.content == s.content && u.received == s.received && u.delivered == s.delivered
  {
    es, u := [], s;
    if u.reader.Dozing? {
      OneMore(y, s, es, u, Wakens);
      es, u := es + [Wakens], Step(u, Wakens);
    }
    if u.reader != Going {
      OneMore(y, s, es, u, Checks);
      es, u := es + [Checks], Step(u, Checks);
    }
  }

  lemma {:induction false} OneMore(y: Policy, s: State, es: seq<Event>, t: State, e: Event)
    requires Run(y, s, es, t) && Allowed(y, e) && Enabled(t, e)
    ensures Run(y, s, es + [e], Step(t, e))
    decreases |es|
  {
    if es != [] {
      OneMore(y, Step(s, es[0]), es[1..], t, e);
      assert (es + [e])[1..] == es[1..] + [e];
    } else {
      assert (es + [e])[1..] == [];
    }
  }

  /** A read is about to return the newest message, one later than all before, if and only if input is flagged. */
  lemma {:induction false} FreshIffInput(y: Policy, count: nat, s: State)
    requires 1 <= count <= 3 && Reachable(y, count, s) && Enabled(s, Takes)
    ensures s.slots.hasInput <==> Delivery(s) == [Message(s.received)] && Before(s.delivered, s.received)
    ensures y != Mixed ==> s.slots.hasInput
  {
    ReachableIsGood(y, count, s);
    SlotsAreBuffers(count, s.slots);
    if !s.slots.hasInput && s.received > 0 {
      var i :| 0 <= i < |s.delivered| && s.delivered[i] == Message(s.received);
      assert !Before(s.delivered, s.received);
    }
  }

  /** Reads of one kind only deliver whole messages, each later than the one before. */
  lemma {:induction false} DeliversInOrder(y: Policy, count: nat, s: State)
    requires 1 <= count <= 3 && Reachable(y, count, s) && y != Mixed
    ensures Increasing(s.delivered) && AllWhole(s.delivered, s.received)
  {
    ReachableIsGood(y, count, s);
  }

  /**
   * A port registered without further buffers skips no message: all but possibly the last
   * received one have been delivered, in order.
   */
  lemma {:induction false} OneBufferSkipsNothing(y: Policy, s: State)
    requires Reachable(y, Buffers(NoBuffers), s)
    ensures s.delivered == FirstMessages(s.received) || (s.received > 0 && s.delivered == FirstMessages(s.received - 1))
  {
    ReachableIsGood(y, 1, s);
  }

  /** Once the incoming buffer is free a sleeping port thread starts filling it without the help of the reader. */
  lemma {:induction false} FillingStarts(y: Policy, count: nat, s: State)
    requires 1 <= count <= 3 && Reachable(y, count, s) && s.slots.incoming.Some? && s.handler.Sleeping?
    ensures exists t: State :: Run(y, s, [Wakes, Retries], t) && t.handler.Filling? && t.reader == s.reader
  {
    ReachableIsGood(y, count, s);
    OneMore(y, s, [], s, Wakes);
    OneMore(y, s, [] + [Wakes], Step(s, Wakes), Retries);
    assert [] + [Wakes] + [Retries] == [Wakes, Retries];
  }

  // ----- blocking and polling reads in one program

  lemma {:induction false} Onward(y: Policy, count: nat, s: State, e: Event)
    requires Reachable(y, count, s) && Allowed(y, e) && Enabled(s, e)
    ensures Reachable(y, count, Step(s, e))
  {
    var es :| Run(y, Initial(count), es, s);
    OneMore(y, Initial(count), es, s, e);
  }

  /** Outside every step, with three buffers: what the slots contain. */
  predicate Between(s: State) {
    && s.handler.Awaiting? && s.reader.Outside? && !s.slots.asleep && |s.content| == 3
    && s.slots.incoming.Some? && s.slots.latest.Some? && s.slots.access.Some?
    && s.slots.incoming.value < 3 && s.slots.latest.value < 3 && s.slots.access.value < 3
  }

  lemma {:induction false} MessageArrives(s: State) returns (t: State)
    requires Reachable(Mixed, 3, s) && Between(s) && !s.slots.hasInput
    ensures Reachable(Mixed, 3, t)
    ensures t == s.(slots := Published(s.slots), content := s.content[s.slots.incoming.value := Message(s.received + 1)],
                    received := s.received + 1)
  {
    Onward(Mixed, 3, s, Arrives);
    t := Step(s, Arrives);
    Onward(Mixed, 3, t, FillsAll);
    t := Step(t, FillsAll);
    Onward(Mixed, 3, t, Publishes);
    t := Step(t, Publishes);
  }

  lemma {:induction false} MessageIsRead(s: State) returns (t: State)
    requires Reachable(Mixed, 3, s) && Between(s) && s.slots.hasInput
    ensures Reachable(Mixed, 3, t)
    ensures var p := Taken(s.slots.(accessing := false));
      t == s.(slots := p, reader := Outside(p.access), delivered := s.delivered + Delivery(s))
  {
    Onward(Mixed, 3, s, Asks(true));
    t := Step(s, Asks(true));
    Onward(Mixed, 3, t, Checks);
    t := Step(t, Checks);
    Onward(Mixed, 3, t, Takes);
    t := Step(t, Takes);
  }

  /** A message arrives and a blocking read returns it. */
  lemma {:induction false} RoundGoes(s: State) returns (t: State)
    requires Reachable(Mixed, 3, s) && Between(s) && !s.slots.hasInput
    ensures Reachable(Mixed, 3, t) && t == Round(s)
  {
    t := MessageArrives(s);
    t := MessageIsRead(t);
  }

  function Round(s: State): State
    requires Between(s)
  {
    var u := s.(slots := Published(s.slots), content := s.content[s.slots.incoming.value := Message(s.received + 1)],
                received := s.received + 1);
    var p := Taken(u.slots.(accessing := false));
    u.(slots := p, reader := Outside(p.access), delivered := u.delivered + Delivery(u))
  }

  /** What a polling read finds that the tokens let through. */
  lemma {:induction false} PollGoes(s: State) returns (t: State)
    requires Reachable(Mixed, 3, s) && Between(s) && s.slots.toRead > 0
    ensures Reachable(Mixed, 3, t)
    ensures t.delivered == s.delivered + [s.content[s.slots.latest.value]]
  {
    t := s;
    Onward(Mixed, 3, t, Asks(false)); t := Step(t, Asks(false));
    Onward(Mixed, 3, t, Polls); t := Step(t, Polls);
    Onward(Mixed, 3, t, Takes); t := Step(t, Takes);
  }

  /**
   * With three buffers, two blocking reads leave tokens behind that let a polling read
   * through although nothing new has come: it returns the first message after the second.
   */
  lemma {:induction false} MixedReadsCanGoBack()
    ensures exists s :: Reachable(Mixed, Buffers(TripleBuffers), s) && s.delivered == [Message(1), Message(2), Message(1)]
  {
    var s := Initial(3);
    assert Run(Mixed, s, [], s);
    s := RoundGoes(s);
    s := RoundGoes(s);
    s := PollGoes(s);
  }
}
