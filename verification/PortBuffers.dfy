/**
 * The buffers of an input port: the port thread fills the incoming buffer, then exchanges it
 * with the latest one; the reader exchanges the latest with the one it accesses. Every
 * section under the port's mutex is one step, and so is taking a semaphore token.
 */
module PortBuffers {
  import opened Options

  /** What the mutex guards, and the tokens of the two semaphores. A buffer is a number. */
  datatype Slots = Slots(incoming: Option<nat>, latest: Option<nat>, access: Option<nat>,
                         hasInput: bool, asleep: bool, accessing: bool, receiving: bool,
                         toRead: nat, wakeup: nat)

  /** Where the port thread is while it handles messages. */
  datatype Handler = Awaiting | Sleeping | Woken | Filling | Filled

  /** Where the reader is: outside with what its last read returned, or inside a read. */
  datatype Reader = Outside(holds: Option<nat>) | Released(wait: bool) | Dozing | Roused | Going

  /** What a buffer holds; messages are numbered in the order they arrive, from 1. */
  datatype Content = Blank | Partial | Message(number: nat)

  datatype State = State(slots: Slots, handler: Handler, reader: Reader, content: seq<Content>,
                         received: nat, delivered: seq<Content>)

  /** How many buffers an input port works with. */
  datatype ServiceType = NoBuffers | DoubleBuffers | TripleBuffers

  function Buffers(service: ServiceType): nat {
    match service
    case NoBuffers => 1
    case DoubleBuffers => 2
    case TripleBuffers => 3
  }

  // ----- the mutex sections

  /** With `count` buffers installed and nothing received. */
  function Installed(count: nat): Slots {
    Slots(if count >= 1 then Some(0) else None, if count >= 2 then Some(1) else None,
          if count >= 3 then Some(2) else None, false, false, false, false, 0, 0)
  }

  /** The port thread looks for a buffer to fill. */
  function LookedForSpace(p: Slots): Slots {
    p.(receiving := true, asleep := p.incoming == None)
  }

  /** The message just filled in becomes the latest. */
  function Published(p: Slots): Slots {
    p.(receiving := false, latest := p.incoming, incoming := p.latest, hasInput := true,
       toRead := if p.hasInput then p.toRead else p.toRead + 1)
  }

  /** The reader gives its buffer back. */
  function GivenBack(p: Slots): Slots {
    if !p.accessing then p else
      var q := if p.incoming == None then p.(incoming := p.access, access := p.incoming)
               else if p.latest == None then p.(latest := p.access, access := p.latest)
               else p;
      q.(accessing := false, wakeup := if p.asleep then p.wakeup + 1 else p.wakeup)
  }

  /** The reader takes the latest buffer. */
  function Taken(p: Slots): Slots {
    var q := if p.latest != None then p.(latest := p.access, access := p.latest, hasInput := false) else p;
    q.(accessing := true, wakeup := if p.asleep then p.wakeup + 1 else p.wakeup)
  }

  // ----- steps of the two threads

  datatype Event =
    | Arrives | Wakes | Retries | FillsPart | FillsAll | Publishes   // the port thread
    | Asks(wait: bool) | Checks | Wakens | Polls | Takes             // the reader

  predicate Enabled(s: State, e: Event) {
    match e
    case Arrives => s.handler == Awaiting
    case Wakes => s.handler == Sleeping && s.slots.wakeup > 0
    case Retries => s.handler == Woken
    case FillsPart => s.handler == Filling
    case FillsAll => s.handler == Filling
    case Publishes => s.handler == Filled
    case Asks(_) => s.reader.Outside?
    case Checks => s.reader == Released(true) || s.reader == Roused
    case Wakens => s.reader == Dozing && s.slots.toRead > 0
    case Polls => s.reader == Released(false)
    case Takes => s.reader == Going
  }

  /** The contents with c in the incoming buffer. */
  function Fill(s: State, c: Content): seq<Content> {
    var b := s.slots.incoming;
    if b.Some? && b.value < |s.content| then s.content[b.value := c] else s.content
  }

  /** What the reader finds in the buffer it takes. */
  function Delivery(s: State): seq<Content> {
    var b := Taken(s.slots).access;
    if b.Some? && b.value < |s.content| then [s.content[b.value]] else []
  }

  function Step(s: State, e: Event): State
    requires Enabled(s, e)
  {
    match e
    case Arrives => LookForSpace(s)
    case Wakes => s.(slots := s.slots.(wakeup := s.slots.wakeup - 1), handler := Woken)
    case Retries => LookForSpace(s)
    case FillsPart => s.(content := Fill(s, Partial))
    case FillsAll => s.(content := Fill(s, Message(s.received + 1)), handler := Filled)
    case Publishes => s.(slots := Published(s.slots), handler := Awaiting, received := s.received + 1)
    case Asks(wait) => s.(slots := GivenBack(s.slots), reader := Released(wait))
    case Checks => s.(reader := if s.slots.hasInput then Going else Dozing)
    case Wakens => s.(slots := s.slots.(toRead := s.slots.toRead - 1), reader := Roused)
    case Polls =>
      if s.slots.toRead > 0 then s.(slots := s.slots.(toRead := s.slots.toRead - 1), reader := Going)
      else s.(reader := Outside(None))
    case Takes =>
      s.(slots := Taken(s.slots), reader := Outside(Taken(s.slots).access), delivered := s.delivered + Delivery(s))
  }

  function LookForSpace(s: State): State {
    var p := LookedForSpace(s.slots);
    s.(slots := p, handler := if p.asleep then Sleeping else Filling)
  }

  // ----- runs

  /** How the program reads: always blocking, always polling, or sometimes one and sometimes the other. */
  datatype Policy = Blocking | Polling | Mixed

  predicate Allowed(y: Policy, e: Event) {
    e.Asks? ==> y == Mixed || (e.wait <==> y == Blocking)
  }

  function Initial(count: nat): State {
    State(Installed(count), Awaiting, Outside(None), seq(count, i => Blank), 0, [])
  }

  /** The state after the events es, from s on. */
  ghost predicate Run(y: Policy, s: State, es: seq<Event>, t: State)
    decreases |es|
  {
    if es == [] then s == t else
      Allowed(y, es[0]) && Enabled(s, es[0]) && Run(y, Step(s, es[0]), es[1..], t)
  }

  ghost predicate Reachable(y: Policy, count: nat, s: State) {
    exists es :: Run(y, Initial(count), es, s)
  }
}
