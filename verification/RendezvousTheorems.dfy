/** What holds in every run of the listeners and the consumer. */
module RendezvousTheorems {
  import opened Listeners
  import opened Rendezvous

  // ----- the messages read

  function CountOf(log: seq<(nat, nat)>, i: nat): nat {
    if log == [] then 0 else
      CountOf(log[..|log| - 1], i) + if log[|log| - 1].0 == i then 1 else 0
  }

  /** The messages of each listener have been read once each, in the order they came. */
  ghost predicate InOrder(log: seq<(nat, nat)>) {
    forall k: nat :: k < |log| ==> NextOfItsOwn(log, k)
  }

  ghost predicate NextOfItsOwn(log: seq<(nat, nat)>, k: nat)
    requires k < |log|
  {
    log[k].1 == CountOf(log[..k], log[k].0) + 1
  }

  /** A header has been received and its message has not been read. */
  predicate Pending(l: Listener, role: Role) {
    role.Read? || ((role.Free? || role == Asked(FinalReply)) && (l.place.Announcing? || l.place.Asleep?))
  }

  ghost predicate Counted(s: State, i: nat)
    requires i < |s.listeners|
  {
    var l := s.listeners[i];
    l.messages == CountOf(s.log, i) + if Pending(l, RoleOf(s.consumer, i)) then 1 else 0
  }

  ghost predicate LogFits(s: State) {
    InOrder(s.log) && forall i: nat :: i < |s.listeners| ==> Counted(s, i)
  }

  lemma {:induction false} OneMoreRead(log: seq<(nat, nat)>, entry: (nat, nat), i: nat)
    ensures CountOf(log + [entry], i) == CountOf(log, i) + if entry.0 == i then 1 else 0
    ensures InOrder(log) && entry.1 == CountOf(log, entry.0) + 1 ==> InOrder(log + [entry])
  {
    var log' := log + [entry];
    assert log'[..|log|] == log;
    if InOrder(log) && entry.1 == CountOf(log, entry.0) + 1 {
      forall k: nat | k < |log'| ensures NextOfItsOwn(log', k) {
        if k < |log| { assert NextOfItsOwn(log, k) && log'[..k] == log[..k]; }
      }
    }
  }

  /** What a step of listener i does to its pending message. */
  lemma {:induction false} PendingKept(l: Listener, role: Role, written: nat)
    requires Fits(l, role, written)
    ensures CanStep(l) ==> Pending(ListenerStep(l), role) == Pending(l, role) && ListenerStep(l).messages == l.messages
    ensures CanHead(l) ==> !Pending(l, role) && Pending(Headed(l, 0), role) && Headed(l, 0).messages == l.messages + 1
  {
  }

  lemma {:induction false} ListeningCounted(s: State, e: Event, i: nat)
    requires Consistent(s) && Enabled(s, e) && (e.Heads? || e.Listens?) && i < |s.listeners| && Counted(s, i)
    ensures Counted(Step(s, e), i)
  {
    var l, role := s.listeners[i], RoleOf(s.consumer, i);
    if e.i == i {
      assert ListenerFits(s, i);
      PendingKept(l, role, s.written);
      if e.Heads? {
        assert Step(s, e).listeners[i] == Headed(l, e.n);
      } else {
        assert Step(s, e).listeners[i] == ListenerStep(l);
      }
    }
  }

  lemma {:induction false} ReadingCounted(s: State, i: nat)
    requires Consistent(s) && Enabled(s, TakesWritten) && i < |s.listeners| && Counted(s, i)
    ensures Counted(Step(s, TakesWritten), i)
  {
    assert ListenerFits(s, i);
    OneMoreRead(s.log, (s.consumer.i, s.listeners[s.consumer.i].messages), i);
  }

  lemma {:induction false} ScanningCounted(s: State, i: nat)
    requires Consistent(s) && Enabled(s, Scans) && i < |s.listeners| && Counted(s, i)
    ensures Counted(Step(s, Scans), i)
  {
    assert ListenerFits(s, i);
  }

  lemma {:induction false} RequestCounted(s: State, e: Event, i: nat)
    requires Consistent(s) && Enabled(s, e) && (e.AsksMore? || e.BeginsReply? || e.Replies? || e.TakesMade?)
    requires i < |s.listeners| && Counted(s, i)
    ensures Counted(Step(s, e), i)
  {
    assert ListenerFits(s, i);
  }

  lemma {:induction false} CountedKept(s: State, e: Event, i: nat)
    requires Consistent(s) && LogFits(s) && Enabled(s, e) && i < |s.listeners|
    ensures Counted(Step(s, e), i)
  {
    assert Counted(s, i);
    if e.Heads? || e.Listens? {
      ListeningCounted(s, e, i);
    } else if e.Scans? {
      ScanningCounted(s, i);
    } else if e.TakesWritten? {
      ReadingCounted(s, i);
    } else if e.AsksMore? || e.BeginsReply? || e.Replies? || e.TakesMade? {
      RequestCounted(s, e, i);
    }
  }

  lemma {:induction false} LogKept(s: State, e: Event)
    requires Consistent(s) && LogFits(s) && Enabled(s, e)
    ensures LogFits(Step(s, e))
  {
    if e.TakesWritten? {
      assert Counted(s, s.consumer.i);
      OneMoreRead(s.log, (s.consumer.i, s.listeners[s.consumer.i].messages), s.consumer.i);
    }
    forall i: nat | i < |s.listeners| ensures Counted(Step(s, e), i) { CountedKept(s, e, i); }
  }

  // ----- whole runs

  lemma {:induction false} RunKeeps(s: State, es: seq<Event>, t: State)
    requires Consistent(s) && LogFits(s) && Run(s, es, t)
    ensures Consistent(t) && LogFits(t)
    decreases |es|
  {
    if es == [] {
    } else {
      ConsistentKept(s, es[0]);
      LogKept(s, es[0]);
      RunKeeps(Step(s, es[0]), es[1..], t);
    }
  }

  lemma {:induction false} ReachableIsConsistent(acks: seq<bool>, s: State)
    requires Reachable(acks, s)
    ensures Consistent(s) && LogFits(s)
  {
    var es :| Run(Initial(acks), es, s);
    StartsConsistent(acks);
    forall i: nat | i < |acks| ensures Counted(Initial(acks), i) {}
    RunKeeps(Initial(acks), es, s);
  }

  /**
   * There is one token of new data for each announced message but for the one a read has taken
   * and is looking for. It finds a listener to read from before the list ends.
   */
  lemma {:induction false} ReadFindsItsSource(acks: seq<bool>, s: State)
    requires Reachable(acks, s)
    ensures s.consumer.Scanning? ==>
      exists i: nat :: s.consumer.at <= i < |s.listeners| && HasNews(s.listeners[i])
    ensures s.newData + (if s.consumer.Scanning? then 1 else 0) == |Announced(s)|
  {
    ReachableIsConsistent(acks, s);
  }

  /** Steps that the scan itself takes, but for the one step of a listener it finds announcing. */
  ghost predicate ScanEvent(s: State, e: Event) {
    e == Scans || (e.Listens? && e.i < |s.listeners| && s.listeners[e.i].place.Announcing?)
  }

  ghost predicate ScanRun(s: State, es: seq<Event>, t: State)
    decreases |es|
  {
    if es == [] then s == t else Enabled(s, es[0]) && ScanEvent(s, es[0]) && ScanRun(Step(s, es[0]), es[1..], t)
  }

  lemma {:induction false} ScanInList(s: State)
    requires Consistent(s) && s.consumer.Scanning?
    ensures s.consumer.at < |s.listeners|
  {
    var k: nat :| s.consumer.at <= k && k in Announced(s);
  }

  lemma {:induction false} ScanOn(s: State) returns (e: Event, t: State)
    requires Consistent(s) && s.consumer.Scanning?
    ensures Enabled(s, e) && ScanEvent(s, e) && t == Step(s, e) && Consistent(t) && |t.listeners| == |s.listeners|
    ensures t.consumer.Reading? || (t.consumer.Scanning? && ScanLeft(t) < ScanLeft(s))
  {
    ScanInList(s);
    var j := s.consumer.at;
    if s.listeners[j].place.Announcing? {
      e := Listens(j);
    } else {
      e := Scans;
    }
    ConsistentKept(s, e);
    t := Step(s, e);
  }

  /** An upper bound on the steps until a scan has found its listener. */
  function ScanLeft(s: State): nat
    requires s.consumer.Scanning?
  {
    var j, n := s.consumer.at, |s.listeners|;
    if j >= n then 0 else 2 * (n - j) - if s.listeners[j].place.Announcing? then 0 else 1
  }

  /** A scan ends at a listener within two steps for each place that is left of the list. */
  lemma {:induction false} ScanEnds(acks: seq<bool>, s: State)
    requires Reachable(acks, s) && s.consumer.Scanning?
    ensures exists es: seq<Event>, t: State ::
      |es| <= 2 * (|s.listeners| - s.consumer.at) && ScanRun(s, es, t) && t.consumer.Reading?
  {
    ReachableIsConsistent(acks, s);
    ScanInList(s);
    var _, _ := ScanOut(s);
  }

  lemma {:induction false} ScanOut(s: State) returns (es: seq<Event>, t: State)
    requires Consistent(s) && s.consumer.Scanning?
    ensures |es| <= ScanLeft(s) && ScanRun(s, es, t) && t.consumer.Reading?
    decreases ScanLeft(s)
  {
    var e, u := ScanOn(s);
    if u.consumer.Reading? {
      es, t := [e], u;
    } else {
      es, t := ScanOut(u);
      assert ([e] + es)[1..] == es;
      es := [e] + es;
    }
  }

  /** The listener is writing into the consumer's buffer, or sending from it. */
  predicate UsesBuffer(l: Listener) {
    l.place.Filling? || l.place.Receiving? || (l.place.Sending? && l.rep)
  }

  /** Only the listener the consumer is waiting for uses the consumer's buffer. */
  lemma {:induction false} OneSideAtATime(acks: seq<bool>, s: State, i: nat)
    requires Reachable(acks, s) && i < |s.listeners| && UsesBuffer(s.listeners[i])
    ensures s.consumer == Reading(i) || (s.consumer.Asking? && s.consumer.i == i)
    ensures !Enabled(s, TakesWritten) && !Enabled(s, TakesMade)
  {
    ReachableIsConsistent(acks, s);
    assert ListenerFits(s, i);
  }

  /**
   * The consumer waits for a reply to be made if and only if the listener makes one: with
   * acknowledgments a reply goes out on the wire, without them nothing does.
   */
  lemma {:induction false} WaitAgreesWithPost(acks: seq<bool>, s: State, i: nat)
    requires Reachable(acks, s) && i < |s.listeners|
    ensures s.listeners[i].replyMade > 0 ==> s.listeners[i].replyMade == 1 && s.consumer.Asking? && s.consumer.i == i
    ensures s.consumer.Asking? && s.consumer.i == i && !s.consumer.request.ReceiveMore? ==> s.listeners[i].ack
    ensures s.listeners[i].place.Sending? || s.listeners[i].place.Sent? ==>
      s.listeners[i].ack && s.listeners[i].rep && s.consumer.Asking? && s.consumer.i == i
  {
    ReachableIsConsistent(acks, s);
    assert ListenerFits(s, i);
  }

  /** Steps the listener still has to take before the consumer can go on. */
  function StepsLeft(l: Listener, role: Role): nat {
    match l.place
    case Asleep => if role.Read? then 2 else 0
    case Filling => 1
    case AwaitReply => if role.Asked? then 5 else 0
    case AwaitMore => if l.replyMade > 0 then 0 else 5
    case More => 4
    case Receiving => 1
    case AwaitFinal => if l.replyMade > 0 then 0 else 3
    case Sending => 2
    case Sent => 1
    case _ => 0
  }

  predicate AwaitsListener(c: Consumer) {
    c.Reading? || c.Asking?
  }

  function Resumes(c: Consumer): Event {
    if c.Reading? then TakesWritten else TakesMade
  }

  /** The bytes that the listener receives before the consumer can go on are there. */
  predicate Supplied(l: Listener, role: Role) {
    match l.place
    case Asleep => role.Read? ==> l.input >= l.length
    case Filling => l.input >= l.length
    case Receiving => CanReceive(l.input, l.moreLength)
    case AwaitReply => l.readMore ==> CanReceive(l.input, l.moreLength)
    case AwaitMore => l.readMore ==> CanReceive(l.input, l.moreLength)
    case More => l.readMore ==> CanReceive(l.input, l.moreLength)
    case _ => true
  }

  /** The listener the consumer is waiting for has the bytes it needs. */
  predicate HasSupply(s: State)
    requires AwaitsListener(s.consumer) && s.consumer.i < |s.listeners|
  {
    Supplied(s.listeners[s.consumer.i], RoleOf(s.consumer, s.consumer.i))
  }

  /** A consumer waiting for listener i goes on at once, or listener i is one step nearer to letting it. */
  lemma {:induction false} ListenerLetsGo(l: Listener, role: Role, written: nat)
    requires Fits(l, role, written) && (role.Read? || role.Asked?) && Supplied(l, role)
    ensures (if role.Read? then written > 0 else l.replyMade > 0) <==> StepsLeft(l, role) == 0
    ensures StepsLeft(l, role) > 0 ==>
      CanStep(l) && Supplied(ListenerStep(l), role) && StepsLeft(ListenerStep(l), role) < StepsLeft(l, role)
  {
  }

  /**
   * With the bytes it needs at hand the rendezvous never sticks: within five steps of its
   * listener the consumer goes on.
   */
  lemma {:induction false} RendezvousEnds(acks: seq<bool>, s: State)
    requires Reachable(acks, s) && AwaitsListener(s.consumer)
    ensures s.consumer.i < |s.listeners|
    ensures HasSupply(s) ==> exists es: seq<Event>, t: State ::
      && |es| <= 5 && (forall e :: e in es ==> e == Listens(s.consumer.i)) && Run(s, es, t)
      && t.consumer == s.consumer && Enabled(t, Resumes(s.consumer))
  {
    ReachableIsConsistent(acks, s);
    if HasSupply(s) {
      var _, _ := LetGo(s);
    }
  }

  lemma {:induction false} LetGo(s: State) returns (es: seq<Event>, t: State)
    requires Consistent(s) && AwaitsListener(s.consumer) && HasSupply(s)
    ensures |es| <= StepsLeft(s.listeners[s.consumer.i], RoleOf(s.consumer, s.consumer.i))
    ensures (forall e :: e in es ==> e == Listens(s.consumer.i)) && Run(s, es, t)
    ensures t.consumer == s.consumer && Enabled(t, Resumes(s.consumer))
    decreases StepsLeft(s.listeners[s.consumer.i], RoleOf(s.consumer, s.consumer.i))
  {
    assert ListenerFits(s, s.consumer.i);
    ListenerLetsGo(s.listeners[s.consumer.i], RoleOf(s.consumer, s.consumer.i), s.written);
    if Enabled(s, Resumes(s.consumer)) {
      return [], s;
    }
    var e := Listens(s.consumer.i);
    ConsistentKept(s, e);
    es, t := LetGo(Step(s, e));
    assert ([e] + es)[1..] == es;
    es := [e] + es;
  }

  /** Without them neither the listener nor anybody else but the peer can help. */
  lemma {:induction false} ListenerHolds(l: Listener, role: Role, written: nat)
    requires Fits(l, role, written) && (role.Read? || role.Asked?) && !Supplied(l, role)
    ensures if role.Read? then written == 0 else l.replyMade == 0
    ensures CanStep(l) ==> !l.place.Filling? && !Supplied(ListenerStep(l), role)
    ensures !CanHead(l)
  {
  }

  lemma {:induction false} SupplyKept(s: State, e: Event)
    requires Consistent(s) && AwaitsListener(s.consumer) && !HasSupply(s)
    requires Enabled(s, e) && !(e.Arrives? && e.i == s.consumer.i)
    ensures Step(s, e).consumer == s.consumer && |Step(s, e).listeners| == |s.listeners| && !HasSupply(Step(s, e))
  {
    assert ListenerFits(s, s.consumer.i);
    ListenerHolds(s.listeners[s.consumer.i], RoleOf(s.consumer, s.consumer.i), s.written);
  }

  /** A consumer whose listener lacks bytes stays blocked in every run in which that connection is sent none. */
  lemma {:induction false} WaitsForPeer(acks: seq<bool>, s: State, es: seq<Event>, t: State)
    requires Reachable(acks, s) && AwaitsListener(s.consumer)
    requires s.consumer.i < |s.listeners| ==> !HasSupply(s)
    requires Run(s, es, t) && forall e :: e in es ==> !(e.Arrives? && e.i == s.consumer.i)
    ensures t.consumer == s.consumer && !Enabled(t, Resumes(s.consumer))
  {
    ReachableIsConsistent(acks, s);
    StaysBlocked(s, es, t);
  }

  lemma {:induction false} StaysBlocked(s: State, es: seq<Event>, t: State)
    requires Consistent(s) && AwaitsListener(s.consumer) && !HasSupply(s)
    requires Run(s, es, t) && forall e :: e in es ==> !(e.Arrives? && e.i == s.consumer.i)
    ensures t.consumer == s.consumer && !Enabled(t, Resumes(s.consumer))
    decreases |es|
  {
    if es == [] {
      assert ListenerFits(s, s.consumer.i);
      ListenerHolds(s.listeners[s.consumer.i], RoleOf(s.consumer, s.consumer.i), s.written);
    } else {
      assert es[0] in es;
      SupplyKept(s, es[0]);
      ConsistentKept(s, es[0]);
      assert forall e :: e in es[1..] ==> e in es;
      StaysBlocked(Step(s, es[0]), es[1..], t);
    }
  }

  /** The parts of replies that the consumer gives in a run while it serves listener i. */
  ghost function Given(s: State, es: seq<Event>, i: nat): seq<int>
    decreases |es|
  {
    if es == [] || !Enabled(s, es[0]) then []
    else GivenBy(s, es[0], i) + Given(Step(s, es[0]), es[1..], i)
  }

  function GivenBy(s: State, e: Event, i: nat): seq<int> {
    if !s.consumer.Serving? || s.consumer.i != i then []
    else match e
      case BeginsReply(v) => [v]
      case Replies(v) => [v]
      case _ => []
  }

  lemma {:induction false} StepGives(s: State, e: Event, i: nat)
    requires Enabled(s, e) && i < |s.listeners|
    ensures |Step(s, e).listeners| == |s.listeners| && Step(s, e).listeners[i].ack == s.listeners[i].ack
    ensures Step(s, e).listeners[i].asked == s.listeners[i].asked + if s.listeners[i].ack then GivenBy(s, e, i) else []
  {
    if e.Listens? { KeepsAsked(s.listeners[e.i]); }
  }

  lemma {:induction false} KeepsAsked(l: Listener)
    requires CanStep(l)
    ensures ListenerStep(l).asked == l.asked && ListenerStep(l).ack == l.ack
  {
    match l.place
    case Announcing =>
    case Asleep =>
    case Filling =>
    case AwaitReply =>
    case More =>
    case Receiving =>
    case AwaitMore =>
    case Sending =>
    case Sent =>
    case AwaitFinal =>
  }

  lemma {:induction false} GivenInTurn(asked: seq<int>, given: seq<int>, later: seq<int>)
    ensures asked + given + later == asked + (given + later)
  {
  }

  lemma {:induction false} RunGives(s: State, es: seq<Event>, t: State, i: nat)
    requires Run(s, es, t) && i < |s.listeners|
    ensures |t.listeners| == |s.listeners| && t.listeners[i].ack == s.listeners[i].ack
    ensures t.listeners[i].asked == s.listeners[i].asked + if s.listeners[i].ack then Given(s, es, i) else []
    decreases |es|
  {
    if es == [] {
    } else {
      var u, given, later := Step(s, es[0]), GivenBy(s, es[0], i), Given(Step(s, es[0]), es[1..], i);
      StepGives(s, es[0], i);
      RunGives(u, es[1..], t, i);
      GivenInTurn(s.listeners[i].asked, given, later);
    }
  }

  /**
   * In every run the peer of a connection with acknowledgments has been sent exactly the parts
   * of replies the consumer gave while serving it, in that order, but for the last while the
   * consumer waits for it to go out; other peers are sent nothing.
   */
  lemma {:induction false} WireIsWhatWasGiven(acks: seq<bool>, es: seq<Event>, s: State, i: nat)
    requires Run(Initial(acks), es, s) && i < |acks|
    ensures |s.listeners| == |acks|
    ensures var wire, given := s.listeners[i].wire, Given(Initial(acks), es, i);
      if !acks[i] then wire == []
      else wire == given || (s.consumer.Asking? && s.consumer.i == i && given != [] && wire == given[..|given| - 1])
  {
    assert Reachable(acks, s);
    ReachableIsConsistent(acks, s);
    RunGives(Initial(acks), es, s, i);
    assert ListenerFits(s, i);
    var l, given := s.listeners[i], Given(Initial(acks), es, i);
    assert l.wire + [l.replyBuffer] == given ==> given[..|given| - 1] == l.wire;
  }

  /** Each connection's messages are read once each, in order, and at most the last one received is still unread. */
  lemma {:induction false} EveryMessageOnce(acks: seq<bool>, s: State, i: nat)
    requires Reachable(acks, s) && i < |s.listeners|
    ensures InOrder(s.log)
    ensures CountOf(s.log, i) <= s.listeners[i].messages <= CountOf(s.log, i) + 1
  {
    ReachableIsConsistent(acks, s);
    assert Counted(s, i);
  }
}
