/** The sections of an input port that run under its mutex, and the taking of semaphore tokens. */
module Ports {
  import opened Options
  import opened PortBuffers

  class Port {
    var incoming: Option<nat>
    var latest: Option<nat>
    var access: Option<nat>
    var hasInput: bool
    var asleep: bool
    var accessing: bool
    var receiving: bool
    var toRead: nat
    var wakeup: nat

    ghost function Value(): Slots
      reads this
    {
      Slots(incoming, latest, access, hasInput, asleep, accessing, receiving, toRead, wakeup)
    }

    constructor ()
      ensures Value() == Installed(0)
    {
      incoming, latest, access := None, None, None;
      hasInput, asleep, accessing, receiving := false, false, false, false;
      toRead, wakeup := 0, 0;
    }

    /** Installs the buffers the service type asks for. */
    method Register(service: ServiceType)
      requires Value() == Installed(0)
      modifies this
      ensures Value() == Installed(Buffers(service))
      ensures incoming == Some(0) && latest == (if service == NoBuffers then None else Some(1))
      ensures access == (if service == TripleBuffers then Some(2) else None)
      ensures !hasInput && !asleep && !accessing && !receiving && toRead == 0 && wakeup == 0
    {
      TakeReceiverIncoming(0);
      if service == DoubleBuffers || service == TripleBuffers {
        TakeReceiverLatest(1);
      }
      if service == TripleBuffers {
        TakeReceiverAccess(2);
      }
    }

    method TakeReceiverIncoming(b: nat)
      requires !receiving
      modifies this
      ensures Value() == old(Value()).(incoming := Some(b))
    {
      incoming := Some(b);
    }

    method TakeReceiverLatest(b: nat)
      modifies this
      ensures Value() == old(Value()).(latest := Some(b))
    {
      latest := Some(b);
    }

    method TakeReceiverAccess(b: nat)
      requires !accessing
      modifies this
      ensures Value() == old(Value()).(access := Some(b))
    {
      access := Some(b);
    }

    /** A message has come, or the port thread was woken: is there a buffer to fill? */
    method LookForSpace() returns (found: bool)
      modifies this
      ensures Value() == LookedForSpace(old(Value())) && found == !asleep
      ensures Value() == old(Value()).(receiving := true, asleep := incoming == None)
    {
      receiving := true;
      if incoming == None {
        asleep := true;
        return false;
      }
      asleep := false;
      return true;
    }

    /** The incoming buffer has been filled: it changes places with the latest one. */
    method Publish()
      modifies this
      ensures Value() == Published(old(Value()))
      ensures Value() == old(Value()).(receiving := false, latest := old(incoming), incoming := old(latest), hasInput := true,
                                       toRead := if old(hasInput) then old(toRead) else old(toRead) + 1)
    {
      receiving := false;
      latest, incoming := incoming, latest;
      if !hasInput {
        hasInput := true;
        toRead := toRead + 1;
      }
    }

    /** The reader gives back what it accessed, to the incoming place if that is free, or else to the latest. */
    method Relinquish()
      modifies this
      ensures Value() == GivenBack(old(Value()))
      ensures !old(accessing) ==> Value() == old(Value())
      ensures old(accessing) ==>
        Value() == old(Value()).(accessing := false, wakeup := if asleep then old(wakeup) + 1 else old(wakeup),
          incoming := if old(incoming) == None then old(access) else old(incoming),
          latest := if old(incoming) != None && old(latest) == None then old(access) else old(latest),
          access := if old(incoming) == None || old(latest) == None then None else old(access))
    {
      if accessing {
        if incoming == None {
          incoming, access := access, incoming;
        } else if latest == None {
          latest, access := access, latest;
        }
        if asleep {
          wakeup := wakeup + 1;
        }
        accessing := false;
      }
    }

    /** The last section of a read: the latest buffer becomes the one accessed. */
    method AcquireLatest() returns (result: Option<nat>)
      requires !accessing
      modifies this
      ensures Value() == Taken(old(Value())) && result == access
      ensures Value() == old(Value()).(accessing := true, wakeup := if asleep then old(wakeup) + 1 else old(wakeup),
          latest := if old(latest) != None then old(access) else None,
          access := if old(latest) != None then old(latest) else old(access),
          hasInput := old(hasInput) && old(latest) == None)
    {
      if latest != None {
        latest, access := access, latest;
        hasInput := false;
      }
      result := access;
      if asleep {
        wakeup := wakeup + 1;
      }
      accessing := true;
    }

    /** The start of a polling read: takes a token if there is one. */
    method PollInput() returns (go: bool)
      modifies this`toRead
      ensures go == (old(toRead) > 0) && toRead == if go then old(toRead) - 1 else old(toRead)
    {
      go := toRead > 0;
      if go {
        toRead := toRead - 1;
      }
    }
  }
}
