/**
 * An input socket serving many TCP connections: one listener thread per connection announces
 * messages, and a single consumer reads them into its own buffer and replies. A step is a
 * section under a listener's mutex, the taking or posting of a semaphore token, or the use
 * of a buffer.
 */
module Listeners {

  /** Where a listener thread is in its loop. */
  datatype Place =
    | Header          // waits for the header of the next message
    | Announcing      // under its mutex, has posted new data but is not flagged as waiting yet
    | Asleep          // waits to be given a buffer
    | Filling         // writes into the consumer's buffer
    | AwaitReply      // waits for what the consumer asks first
    | More            // looks whether the consumer wants to receive more
    | Receiving       // writes into the consumer's buffer once more
    | AwaitMore       // waits for what the consumer asks next
    | Sending         // sends the consumer's reply buffer
    | Sent            // has sent it
    | AwaitFinal      // has sent a first part of the reply, waits for the next part

  /**
   * input counts the bytes that can be read from the connection. length is what is received
   * first, and moreLength what is received when the consumer asks for more. messages counts
   * the headers received; wire is what was sent back to the peer, and asked what the consumer
   * wanted sent.
   */
  datatype Listener = Listener(place: Place, ack: bool, waiting: bool, hasBuffer: bool, needsReply: bool,
                               readMore: bool, preamble: bool, rep: bool, wakeup: nat, replyMade: nat,
                               replyBuffer: int, messages: nat, wire: seq<int>, asked: seq<int>,
                               input: nat, length: nat, moreLength: nat)

  datatype Request = ReceiveMore | BeginReply | FinalReply

  /**
   * Where the consumer is: in read with a buffer of the given room, between read and the final
   * reply to listener i, or waiting for i.
   */
  datatype Consumer =
    | Outside | Waiting(room: nat) | Scanning(at: nat, room: nat) | Reading(i: nat)
    | Serving(i: nat, began: bool) | Asking(i: nat, request: Request)

  /** log holds, for each message read, its listener and its number there. */
  datatype State = State(listeners: seq<Listener>, newData: nat, written: nat, consumer: Consumer,
                         log: seq<(nat, nat)>)

  // ----- the listener's loop

  const HEADER_BYTES := 8

  /** A receive of no bytes waits until there is at least one to read, and takes none. */
  predicate CanReceive(input: nat, n: nat) {
    if n == 0 then input > 0 else input >= n
  }

  /** A header comes from the connection by a step of its own. */
  predicate CanStep(l: Listener) {
    match l.place
    case Header => false
    case Filling => l.input >= l.length
    case Receiving => CanReceive(l.input, l.moreLength)
    case Asleep => l.wakeup > 0
    case AwaitReply => l.wakeup > 0
    case AwaitMore => l.wakeup > 0
    case AwaitFinal => l.wakeup > 0
    case _ => true
  }

  predicate CanHead(l: Listener) {
    l.place.Header? && l.input >= HEADER_BYTES
  }

  /** A header saying that n bytes follow. */
  function Headed(l: Listener, n: nat): Listener
    requires CanHead(l)
  {
    l.(place := Announcing, hasBuffer := false, messages := l.messages + 1, input := l.input - HEADER_BYTES, length := n)
  }

  /** The next step of the loop; newly written data are posted by Listens. */
  function ListenerStep(l: Listener): Listener
    requires CanStep(l)
  {
    match l.place
    case Announcing => l.(place := Asleep, waiting := true)
    case Asleep => l.(place := if l.hasBuffer then Filling else Header, wakeup := l.wakeup - 1)
    case Filling => l.(place := if l.needsReply then AwaitReply else More, rep := l.needsReply, input := l.input - l.length)
    case AwaitReply => l.(place := More, wakeup := l.wakeup - 1, needsReply := false)
    case More => l.(place := if l.readMore then Receiving else if l.ack then Sending else Header,
                    rep := if l.readMore || !l.ack then l.rep else l.rep || l.preamble)
    case Receiving => l.(place := AwaitMore, readMore := false, replyMade := l.replyMade + 1,
                         input := l.input - l.moreLength)
    case AwaitMore => l.(place := More, wakeup := l.wakeup - 1, needsReply := false)
    case Sending => l.(place := Sent, wire := if l.rep then l.wire + [l.replyBuffer] else l.wire)
    case Sent => l.(place := if l.preamble then AwaitFinal else Header,
                    replyMade := if l.rep then l.replyMade + 1 else l.replyMade)
    case AwaitFinal => l.(place := Sending, wakeup := l.wakeup - 1, rep := true)
  }

  function MoreInput(l: Listener, n: nat): Listener {
    l.(input := l.input + n)
  }

  // ----- the consumer's sections under a listener's mutex

  /** read hands its buffer to a waiting listener, which receives no more than there is room for. */
  function Offered(l: Listener, room: nat): Listener {
    l.(waiting := false, hasBuffer := true, needsReply := true, wakeup := l.wakeup + 1,
       length := if l.length > room then room else l.length)
  }

  function AskedForMore(l: Listener, n: nat): Listener {
    l.(readMore := true, wakeup := l.wakeup + 1, moreLength := n)
  }

  /** A connection that does not ask for acknowledgments is not sent any part of a reply. */
  function BegunReply(l: Listener, v: int): Listener {
    if l.ack then
      l.(replyBuffer := v, readMore := false, needsReply := true, preamble := true, wakeup := l.wakeup + 1,
         asked := l.asked + [v])
    else l
  }

  function Replied(l: Listener, v: int): Listener {
    if l.ack then
      l.(replyBuffer := v, readMore := false, needsReply := true, preamble := false, wakeup := l.wakeup + 1,
         asked := l.asked + [v])
    else l.(wakeup := l.wakeup + 1)
  }

  // ----- steps

  datatype Event =
    | Arrives(i: nat, n: nat) | Heads(i: nat, n: nat) | Listens(i: nat)
    | StartsRead(room: nat) | TakesToken | Scans | TakesWritten
    | AsksMore(n: nat) | BeginsReply(v: int) | Replies(v: int) | TakesMade

  /** The consumer's requests name listeners of the list. */
  predicate InRange(s: State) {
    match s.consumer
    case Reading(i) => i < |s.listeners|
    case Serving(i, _) => i < |s.listeners|
    case Asking(i, _) => i < |s.listeners|
    case _ => true
  }

  /** More data are asked for before the reply begins. */
  predicate Enabled(s: State, e: Event) {
    InRange(s) &&
    match e
    case Arrives(i, _) => i < |s.listeners|
    case Heads(i, _) => i < |s.listeners| && CanHead(s.listeners[i])
    case Listens(i) => i < |s.listeners| && CanStep(s.listeners[i])
    case StartsRead(_) => s.consumer == Outside
    case TakesToken => s.consumer.Waiting? && s.newData > 0
    case Scans => s.consumer.Scanning? &&
      (s.consumer.at < |s.listeners| ==> !s.listeners[s.consumer.at].place.Announcing?)
    case TakesWritten => s.consumer.Reading? && s.written > 0
    case AsksMore(_) => s.consumer.Serving? && !s.consumer.began
    case BeginsReply(_) => s.consumer.Serving?
    case Replies(_) => s.consumer.Serving?
    case TakesMade => s.consumer.Asking? && s.listeners[s.consumer.i].replyMade > 0
  }

  function Step(s: State, e: Event): State
    requires Enabled(s, e)
  {
    match e
    case Arrives(i, n) => s.(listeners := s.listeners[i := MoreInput(s.listeners[i], n)])
    case Heads(i, n) => s.(listeners := s.listeners[i := Headed(s.listeners[i], n)], newData := s.newData + 1)
    case Listens(i) =>
      var l := s.listeners[i];
      s.(listeners := s.listeners[i := ListenerStep(l)],
         written := if l.place.Filling? then s.written + 1 else s.written)
    case StartsRead(room) => s.(consumer := Waiting(room))
    case TakesToken => s.(consumer := Scanning(0, s.consumer.room), newData := s.newData - 1)
    case Scans =>
      var j, room := s.consumer.at, s.consumer.room;
      if j >= |s.listeners| then s.(consumer := Waiting(room))
      else if s.listeners[j].waiting then
        s.(consumer := Reading(j), listeners := s.listeners[j := Offered(s.listeners[j], room)])
      else s.(consumer := Scanning(j + 1, room))
    case TakesWritten =>
      var i := s.consumer.i;
      s.(consumer := Serving(i, false), written := s.written - 1, log := s.log + [(i, s.listeners[i].messages)])
    case AsksMore(n) =>
      var i := s.consumer.i;
      s.(consumer := Asking(i, ReceiveMore), listeners := s.listeners[i := AskedForMore(s.listeners[i], n)])
    case BeginsReply(v) =>
      var i := s.consumer.i;
      s.(consumer := if s.listeners[i].ack then Asking(i, BeginReply) else Serving(i, true),
         listeners := s.listeners[i := BegunReply(s.listeners[i], v)])
    case Replies(v) =>
      var i := s.consumer.i;
      s.(consumer := if s.listeners[i].ack then Asking(i, FinalReply) else Outside,
         listeners := s.listeners[i := Replied(s.listeners[i], v)])
    case TakesMade =>
      var i := s.consumer.i;
      var l := s.listeners[i];
      s.(consumer := match s.consumer.request
                     case ReceiveMore => Serving(i, false)
                     case BeginReply => Serving(i, true)
                     case FinalReply => Outside,
         listeners := s.listeners[i := l.(replyMade := l.replyMade - 1)])
  }

  // ----- runs

  /** A listener that has just been started. */
  function Started(ack: bool): Listener {
    Listener(Header, ack, false, false, false, false, false, false, 0, 0, 0, 0, [], [], 0, 0, 0)
  }

  function Initial(acks: seq<bool>): State {
    State(seq(|acks|, i requires 0 <= i < |acks| => Started(acks[i])), 0, 0, Outside, [])
  }

  /** The events es lead from s to t. */
  ghost predicate Run(s: State, es: seq<Event>, t: State)
    decreases |es|
  {
    if es == [] then s == t else Enabled(s, es[0]) && Run(Step(s, es[0]), es[1..], t)
  }

  ghost predicate Reachable(acks: seq<bool>, s: State) {
    exists es :: Run(Initial(acks), es, s)
  }
}
