/**
 * The connections of an input socket and the pool of port numbers they draw on. Threads of
 * closed connections stay in the list, and their place and port number are used again.
 */
module SocketPool {

  datatype Service = Udp | Mcast | Shmem | Tcp

  /** A thread of the list; available says that its connection has ended. */
  datatype Slot = Slot(available: bool, port: int, service: Service, name: string, id: int)

  /** Who is connecting. */
  datatype Peer = Peer(service: Service, name: string, id: int)

  datatype Event = Connects(peer: Peer) | ClosesName(name: string) | ClosesId(id: int) | Leaves(k: nat)

  // ----- the list after each event

  /** The first place that can be used again, or the one behind the last. */
  function FirstAvailable(slots: seq<Slot>): (k: nat)
    ensures k <= |slots| && (k < |slots| ==> slots[k].available)
    ensures forall i :: 0 <= i < k ==> !slots[i].available
  {
    if slots == [] || slots[0].available then 0 else
      var k := FirstAvailable(slots[1..]);
      assert forall i :: 0 < i < k + 1 ==> slots[i] == slots[1..][i - 1];
      k + 1
  }

  /** The slots after a connection attempt; it is refused if there is neither a free place nor a port left. */
  function Connected(ports: seq<int>, slots: seq<Slot>, peer: Peer): seq<Slot> {
    var k := FirstAvailable(slots);
    if k < |slots| then slots[k := Slot(false, slots[k].port, peer.service, peer.name, peer.id)]
    else if k < |ports| then slots + [Slot(false, ports[k], peer.service, peer.name, peer.id)]
    else slots
  }

  predicate Refused(ports: seq<int>, slots: seq<Slot>) {
    FirstAvailable(slots) >= |slots| && |slots| >= |ports|
  }

  /** The event ends the connection in this place. */
  predicate Ends(e: Event, slot: Slot, k: nat) {
    && !slot.available
    && match e
       case Connects(_) => false
       case ClosesName(name) => slot.name == name
       case ClosesId(id) => slot.id == id
       case Leaves(i) => i == k
  }

  function Freed(e: Event, slot: Slot, k: nat): Slot {
    if Ends(e, slot, k) then slot.(available := true) else slot
  }

  function AllFreed(e: Event, slots: seq<Slot>): (t: seq<Slot>)
    ensures |t| == |slots| && forall k: nat :: k < |t| ==> t[k] == Freed(e, slots[k], k)
  {
    seq(|slots|, k requires 0 <= k < |slots| => Freed(e, slots[k], k))
  }

  function Step(ports: seq<int>, slots: seq<Slot>, e: Event): seq<Slot> {
    if e.Connects? then Connected(ports, slots, e.peer) else AllFreed(e, slots)
  }

  function After(ports: seq<int>, slots: seq<Slot>, es: seq<Event>): seq<Slot>
    decreases |es|
  {
    if es == [] then slots else After(ports, Step(ports, slots, es[0]), es[1..])
  }

  // ----- what holds after any events

  /** No port is 0, and all are different. */
  ghost predicate GoodPool(ports: seq<int>) {
    (forall i :: 0 <= i < |ports| ==> ports[i] != 0) && (forall i, j :: 0 <= i < j < |ports| ==> ports[i] != ports[j])
  }

  /** The i-th thread has the i-th port. */
  ghost predicate InPlace(ports: seq<int>, slots: seq<Slot>) {
    |slots| <= |ports| && forall i :: 0 <= i < |slots| ==> slots[i].port == ports[i]
  }

  function LiveCount(slots: seq<Slot>): nat {
    if slots == [] then 0 else LiveCount(slots[1..]) + if slots[0].available then 0 else 1
  }

  lemma {:induction false} StepInPlace(ports: seq<int>, slots: seq<Slot>, e: Event)
    requires InPlace(ports, slots)
    ensures InPlace(ports, Step(ports, slots, e))
  {
  }

  lemma {:induction false} AfterInPlace(ports: seq<int>, slots: seq<Slot>, es: seq<Event>)
    requires InPlace(ports, slots)
    ensures InPlace(ports, After(ports, slots, es))
    decreases |es|
  {
    if es == [] {
    } else {
      StepInPlace(ports, slots, es[0]);
      AfterInPlace(ports, Step(ports, slots, es[0]), es[1..]);
    }
  }

  /** Whatever comes and goes, live connections have different ports, all from the pool. */
  lemma {:induction false} PortsApart(ports: seq<int>, es: seq<Event>, i: nat, j: nat)
    requires GoodPool(ports)
    ensures var slots := After(ports, [], es);
      && |slots| <= |ports|
      && (i < |slots| ==> slots[i].port in ports && slots[i].port != 0)
      && (i < j < |slots| ==> slots[i].port != slots[j].port)
  {
    AfterInPlace(ports, [], es);
  }

  /** Closing its name or its identifier, or its own thread's leaving, ends the live connection in place k. */
  predicate MeantFor(e: Event, slot: Slot, k: nat) {
    e == ClosesName(slot.name) || e == ClosesId(slot.id) || e == Leaves(k)
  }

  /** One of these ends it, so that its place can be used again, and any other event leaves it as it is. */
  lemma {:induction false} EndedIffMeant(ports: seq<int>, slots: seq<Slot>, e: Event, k: nat)
    requires k < |slots| && !slots[k].available
    ensures k < |Step(ports, slots, e)|
    ensures Step(ports, slots, e)[k] == slots[k].(available := MeantFor(e, slots[k], k))
  {
  }

  /** A live connection keeps its place, port and name until something ends it, whoever else comes and goes. */
  lemma {:induction false} KeepsItsPlace(ports: seq<int>, slots: seq<Slot>, es: seq<Event>, k: nat)
    requires k < |slots| && !slots[k].available
    requires forall i :: 0 <= i < |es| ==> !MeantFor(es[i], slots[k], k)
    ensures k < |After(ports, slots, es)| && After(ports, slots, es)[k] == slots[k]
    decreases |es|
  {
    if es == [] {
    } else {
      EndedIffMeant(ports, slots, es[0], k);
      KeepsItsPlace(ports, Step(ports, slots, es[0]), es[1..], k);
    }
  }

  lemma {:induction false} LiveAll(slots: seq<Slot>)
    ensures LiveCount(slots) <= |slots|
    ensures LiveCount(slots) == |slots| <==> FirstAvailable(slots) == |slots|
  {
    if slots == [] {
    } else {
      LiveAll(slots[1..]);
    }
  }

  lemma {:induction false} OneMoreLive(slots: seq<Slot>, k: nat, slot: Slot)
    requires k < |slots| && slots[k].available && !slot.available
    ensures LiveCount(slots[k := slot]) == LiveCount(slots) + 1
  {
    if k > 0 {
      OneMoreLive(slots[1..], k - 1, slot);
      assert slots[k := slot][1..] == slots[1..][k - 1 := slot];
    } else {
      assert slots[k := slot][1..] == slots[1..];
    }
  }

  lemma {:induction false} LiveAppend(slots: seq<Slot>, slot: Slot)
    ensures LiveCount(slots + [slot]) == LiveCount(slots) + if slot.available then 0 else 1
  {
    if slots == [] {
      assert (slots + [slot])[1..] == [];
    } else {
      LiveAppend(slots[1..], slot);
      assert (slots + [slot])[1..] == slots[1..] + [slot];
    }
  }

  /** A connection is refused exactly when there are as many live ones as ports; otherwise there is one more. */
  lemma {:induction false} RefusedIffFull(ports: seq<int>, slots: seq<Slot>, peer: Peer)
    requires InPlace(ports, slots)
    ensures LiveCount(slots) <= |ports|
    ensures Refused(ports, slots) <==> LiveCount(slots) == |ports|
    ensures LiveCount(Connected(ports, slots, peer)) == if Refused(ports, slots) then LiveCount(slots) else LiveCount(slots) + 1
  {
    LiveAll(slots);
    var k := FirstAvailable(slots);
    if k < |slots| {
      OneMoreLive(slots, k, Slot(false, slots[k].port, peer.service, peer.name, peer.id));
    } else if k < |ports| {
      LiveAppend(slots, Slot(false, ports[k], peer.service, peer.name, peer.id));
    }
  }

  function Attempts(peers: seq<Peer>): (es: seq<Event>)
    ensures |es| == |peers|
  {
    if peers == [] then [] else [Connects(peers[0])] + Attempts(peers[1..])
  }

  /**
   * Ports are never lost: whatever has happened before, of the next attempts exactly as many
   * are accepted as there are ports of the pool that no live connection has.
   */
  lemma {:induction false} PortsComeBack(ports: seq<int>, es: seq<Event>, peers: seq<Peer>)
    ensures var slots := After(ports, [], es);
      && LiveCount(slots) <= |ports|
      && LiveCount(After(ports, slots, Attempts(peers)))
         == if LiveCount(slots) + |peers| <= |ports| then LiveCount(slots) + |peers| else |ports|
  {
    AfterInPlace(ports, [], es);
    AttemptsFill(ports, After(ports, [], es), peers);
  }

  lemma {:induction false} AttemptsFill(ports: seq<int>, slots: seq<Slot>, peers: seq<Peer>)
    requires InPlace(ports, slots)
    ensures LiveCount(slots) <= |ports|
    ensures LiveCount(After(ports, slots, Attempts(peers)))
         == if LiveCount(slots) + |peers| <= |ports| then LiveCount(slots) + |peers| else |ports|
    decreases |peers|
  {
    if peers == [] {
      LiveAll(slots);
    } else {
      var es := Attempts(peers);
      assert es[0] == Connects(peers[0]) && es[1..] == Attempts(peers[1..]);
      RefusedIffFull(ports, slots, peers[0]);
      StepInPlace(ports, slots, es[0]);
      AttemptsFill(ports, Step(ports, slots, es[0]), peers[1..]);
    }
  }

  // ----- the list itself

  class SocketList {
    var ports: seq<int>
    var lastAssigned: int
    var slots: seq<Slot>

    /** The next new thread gets the next port. */
    ghost predicate Valid()
      reads this
    {
      && GoodPool(ports) && InPlace(ports, slots)
      && (if |slots| < |ports| then lastAssigned == |slots| - 1 else lastAssigned >= |slots| - 1)
    }

    constructor ()
      ensures Valid() && slots == [] && ports == []
    {
      ports, lastAssigned, slots := [], -1, [];
    }

    method SetPool(pool: seq<int>)
      requires slots == [] && GoodPool(pool)
      modifies this
      ensures Valid() && ports == pool && slots == []
    {
      ports := pool;
      lastAssigned := -1;
    }

    method NewPortFromPool() returns (port: int)
      modifies this`lastAssigned
      ensures lastAssigned == old(lastAssigned) + 1
      ensures port == if 0 <= lastAssigned < |ports| then ports[lastAssigned] else 0
    {
      lastAssigned := lastAssigned + 1;
      if lastAssigned >= |ports| || lastAssigned < 0 {
        return 0;
      }
      return ports[lastAssigned];
    }

    method FindAvailable() returns (k: nat)
      ensures k == FirstAvailable(slots)
    {
      k := 0;
      while k < |slots| && !slots[k].available
        invariant k <= |slots| && forall i :: 0 <= i < k ==> !slots[i].available
      {
        k := k + 1;
      }
    }

    /** A new connection gets the first free place and its port, or is refused with port 0. */
    method AddSocket(peer: Peer) returns (port: int)
      requires Valid()
      modifies this
      ensures Valid() && ports == old(ports) && slots == Step(ports, old(slots), Connects(peer))
      ensures port == 0 <==> |old(slots)| == |ports| && forall i :: 0 <= i < |old(slots)| ==> !old(slots)[i].available
      ensures port == 0 ==> slots == old(slots)
      ensures port != 0 ==> exists k: nat ::
        && k <= |old(slots)| && (forall i :: 0 <= i < k ==> !old(slots)[i].available)
        && |slots| == (if k < |old(slots)| then |old(slots)| else k + 1)
        && slots[k] == Slot(false, port, peer.service, peer.name, peer.id)
        && port == (if k < |old(slots)| then old(slots)[k].port else ports[k])
        && (k < |old(slots)| ==> old(slots)[k].available)
        && forall i :: 0 <= i < |slots| && i != k ==> slots[i] == old(slots)[i]
    {
      var k := FindAvailable();
      var reusing := k < |slots|;
      if reusing {
        port := slots[k].port;
      } else {
        port := NewPortFromPool();
      }
      if port == 0 { return; }
      if !reusing {
        slots := slots + [Slot(true, 0, peer.service, peer.name, peer.id)];
      }
      slots := slots[k := Slot(false, port, peer.service, peer.name, peer.id)];
    }

    /** The connection of every thread of that name ends; its place can be used again. */
    method CloseByName(name: string) returns (found: bool)
      requires Valid()
      modifies this
      ensures Valid() && ports == old(ports) && slots == Step(ports, old(slots), ClosesName(name))
      ensures |slots| == |old(slots)| && forall k :: 0 <= k < |slots| ==>
        slots[k] == old(slots)[k].(available := old(slots)[k].available || old(slots)[k].name == name)
      ensures found <==> exists k :: 0 <= k < |slots| && !old(slots)[k].available && old(slots)[k].name == name
    {
      found := false;
      ghost var e, slots0 := ClosesName(name), slots;
      for k := 0 to |slots|
        invariant |slots| == |slots0| && Valid() && ports == old(ports)
        invariant found <==> exists i: nat :: i < k && Ends(e, slots0[i], i)
        invariant forall i :: k <= i < |slots| ==> slots[i] == slots0[i]
        invariant forall i: nat :: i < k ==> slots[i] == Freed(e, slots0[i], i)
      {
        if !slots[k].available && slots[k].name == name {
          slots := slots[k := slots[k].(available := true)];
          found := true;
        }
      }
    }

    /** The same for the connections with that identifier. */
    method Close(id: int) returns (found: bool)
      requires Valid()
      modifies this
      ensures Valid() && ports == old(ports) && slots == Step(ports, old(slots), ClosesId(id))
      ensures |slots| == |old(slots)| && forall k :: 0 <= k < |slots| ==>
        slots[k] == old(slots)[k].(available := old(slots)[k].available || old(slots)[k].id == id)
      ensures found <==> exists k :: 0 <= k < |slots| && !old(slots)[k].available && old(slots)[k].id == id
    {
      found := false;
      ghost var e, slots0 := ClosesId(id), slots;
      for k := 0 to |slots|
        invariant |slots| == |slots0| && Valid() && ports == old(ports)
        invariant found <==> exists i: nat :: i < k && Ends(e, slots0[i], i)
        invariant forall i :: k <= i < |slots| ==> slots[i] == slots0[i]
        invariant forall i: nat :: i < k ==> slots[i] == Freed(e, slots0[i], i)
      {
        if !slots[k].available && slots[k].id == id {
          slots := slots[k := slots[k].(available := true)];
          found := true;
        }
      }
    }

    /** A thread whose connection has broken frees its own place at its end. */
    method Leave(k: nat)
      requires Valid() && k < |slots|
      modifies this
      ensures Valid() && ports == old(ports) && slots == Step(ports, old(slots), Leaves(k))
      ensures slots == old(slots)[k := old(slots)[k].(available := true)]
    {
      slots := slots[k := slots[k].(available := true)];
    }
  }
}
