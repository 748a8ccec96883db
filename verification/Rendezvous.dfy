/** What every step of the listeners and of the consumer keeps, and why the rendezvous never sticks. */
module Rendezvous {
  import opened Listeners

  /** How a listener stands to the consumer. */
  datatype Role = Free | Read | Served(began: bool) | Asked(request: Request)

  function RoleOf(c: Consumer, i: nat): Role {
    match c
    case Reading(k) => if k == i then Read else Free
    case Serving(k, began) => if k == i then Served(began) else Free
    case Asking(k, request) => if k == i then Asked(request) else Free
    case _ => Free
  }

  ghost predicate Calm(l: Listener, wakeup: nat, replyMade: nat) {
    l.wakeup == wakeup && l.replyMade == replyMade
  }

  /** Between two messages, or waiting to be read. */
  ghost predicate AtStart(l: Listener, replyMade: nat) {
    && (l.place.Header? || l.place.Announcing? || l.place.Asleep?) && (l.waiting <==> l.place.Asleep?)
    && Calm(l, 0, replyMade) && !l.readMore && !l.preamble
  }

  /** Has delivered its message, and the last thing asked, if any, was more data. */
  ghost predicate AtAsk(l: Listener, wakeup: nat, replyMade: nat) {
    (l.place.AwaitReply? || l.place.AwaitMore?) && Calm(l, wakeup, replyMade)
  }

  /** Which places and tokens are possible in each role; written tells whether the read has been filled. */
  ghost predicate Fits(l: Listener, role: Role, written: nat) {
    && (l.waiting ==> l.place.Asleep?)
    && match role
       case Free =>
         || AtStart(l, 0)
         || (!l.ack && !l.waiting && !l.readMore && !l.preamble && (AtAsk(l, 1, 0) || (l.place.More? && Calm(l, 0, 0))))
       case Read =>
         && !l.waiting && !l.readMore && !l.preamble && l.hasBuffer
         && (match l.place
            case Asleep => Calm(l, 1, 0) && l.needsReply && written == 0
            case Filling => Calm(l, 0, 0) && l.needsReply && written == 0
            case AwaitReply => Calm(l, 0, 0) && l.rep && written == 1
            case _ => false)
       case Served(began) =>
         && l.rep && !l.waiting && !l.readMore
         && if began && l.ack then l.place.AwaitFinal? && l.preamble && Calm(l, 0, 0)
            else !l.preamble && AtAsk(l, 0, 0)
       case Asked(ReceiveMore) =>
         && l.rep && !l.waiting && !l.preamble
         && (|| (l.readMore && (AtAsk(l, 1, 0) || ((l.place.More? || l.place.Receiving?) && Calm(l, 0, 0))))
             || (!l.readMore && l.place.AwaitMore? && Calm(l, 0, 1)))
       case Asked(request) =>
         && l.ack
         && (|| (l.rep && !l.waiting && !l.readMore && (l.preamble <==> request.BeginReply?)
                 && (|| AtAsk(l, 1, 0) || (l.place.AwaitFinal? && Calm(l, 1, 0))
                     || ((l.place.More? || l.place.Sending? || l.place.Sent?) && Calm(l, 0, 0))
                     || (request.BeginReply? && l.place.AwaitFinal? && Calm(l, 0, 1))))
             || (request.FinalReply? && AtStart(l, 1)))
  }

  /** The part of the reply that has been asked for but not been sent yet. */
  ghost predicate InFlight(l: Listener, role: Role) {
    role.Asked? && !role.request.ReceiveMore? && !l.place.Sent? && l.replyMade == 0
  }

  /** What is sent to the peer is what the consumer asked for, in that order. */
  ghost predicate SendsAsAsked(l: Listener, role: Role) {
    && (if InFlight(l, role) then l.asked == l.wire + [l.replyBuffer] else l.asked == l.wire)
    && (!l.ack ==> l.asked == [])
  }

  ghost predicate ListenerFits(s: State, i: nat)
    requires i < |s.listeners|
  {
    var l, role := s.listeners[i], RoleOf(s.consumer, i);
    Fits(l, role, s.written) && SendsAsAsked(l, role)
  }

  /** The listeners that have announced a message nobody has come for yet. */
  ghost function Announced(s: State): set<nat> {
    set i: nat | i < |s.listeners| && HasNews(s.listeners[i])
  }

  predicate HasNews(l: Listener) {
    l.place.Announcing? || l.waiting
  }

  /** Every token of new data stands for one announced message; a scan has one still ahead. */
  ghost predicate TokensFit(s: State) {
    && s.newData + (if s.consumer.Scanning? then 1 else 0) == |Announced(s)|
    && (s.consumer.Scanning? ==> exists i: nat :: s.consumer.at <= i && i in Announced(s))
    && (s.written > 0 ==> s.consumer.Reading?) && s.written <= 1
  }

  ghost predicate Consistent(s: State) {
    InRange(s) && TokensFit(s) && forall i: nat :: i < |s.listeners| ==> ListenerFits(s, i)
  }

  /** A listener's own step keeps its part. */
  lemma {:induction false} ListenerStepFits(l: Listener, role: Role, written: nat)
    requires Fits(l, role, written) && CanStep(l)
    ensures Fits(ListenerStep(l), role, if l.place.Filling? then written + 1 else written)
    ensures l.place.Filling? ==> role.Read?
  {
  }

  lemma {:induction false} ListenerStepSends(l: Listener, role: Role, written: nat)
    requires Fits(l, role, written) && SendsAsAsked(l, role) && CanStep(l)
    ensures SendsAsAsked(ListenerStep(l), role)
  {
  }

  /** A header is only received between two messages, and input may come at any time. */
  lemma {:induction false} ConnectionFits(l: Listener, role: Role, written: nat, n: nat)
    requires Fits(l, role, written) && SendsAsAsked(l, role)
    ensures Fits(MoreInput(l, n), role, written) && SendsAsAsked(MoreInput(l, n), role)
    ensures CanHead(l) ==> Fits(Headed(l, n), role, written) && SendsAsAsked(Headed(l, n), role)
  {
  }

  lemma {:induction false} OfferFits(l: Listener, room: nat)
    requires Fits(l, Free, 0) && SendsAsAsked(l, Free) && l.waiting
    ensures Fits(Offered(l, room), Read, 0) && SendsAsAsked(Offered(l, room), Read)
  {
  }

  lemma {:induction false} WrittenFits(l: Listener, written: nat)
    requires Fits(l, Read, written) && SendsAsAsked(l, Read) && written > 0
    ensures written == 1 && Fits(l, Served(false), 0) && SendsAsAsked(l, Served(false))
  {
  }

  lemma {:induction false} AskFits(l: Listener, n: nat)
    requires Fits(l, Served(false), 0) && SendsAsAsked(l, Served(false))
    ensures Fits(AskedForMore(l, n), Asked(ReceiveMore), 0) && SendsAsAsked(AskedForMore(l, n), Asked(ReceiveMore))
  {
  }

  lemma {:induction false} ReplyFits(l: Listener, began: bool, v: int)
    requires Fits(l, Served(began), 0) && SendsAsAsked(l, Served(began))
    ensures var role := if l.ack then Asked(BeginReply) else Served(true);
      Fits(BegunReply(l, v), role, 0) && SendsAsAsked(BegunReply(l, v), role)
    ensures var role := if l.ack then Asked(FinalReply) else Free;
      Fits(Replied(l, v), role, 0) && SendsAsAsked(Replied(l, v), role)
  {
  }

  /** How the listener stands once the request is fulfilled. */
  function RoleAfter(request: Request): Role {
    match request
    case ReceiveMore => Served(false)
    case BeginReply => Served(true)
    case FinalReply => Free
  }

  lemma {:induction false} MadeFits(l: Listener, request: Request)
    requires Fits(l, Asked(request), 0) && SendsAsAsked(l, Asked(request)) && l.replyMade > 0
    ensures var l' := l.(replyMade := l.replyMade - 1);
      Fits(l', RoleAfter(request), 0) && SendsAsAsked(l', RoleAfter(request))
  {
  }

  /** What happens at one listener keeps it fitting, and the others as well. */
  lemma {:induction false} ListeningFits(s: State, e: Event, k: nat)
    requires Consistent(s) && Enabled(s, e) && (e.Arrives? || e.Heads? || e.Listens?) && k < |s.listeners|
    ensures ListenerFits(Step(s, e), k)
  {
    var l, role := s.listeners[e.i], RoleOf(s.consumer, e.i);
    assert ListenerFits(s, k) && ListenerFits(s, e.i);
    if e.Listens? {
      ListenerStepFits(l, role, s.written);
      ListenerStepSends(l, role, s.written);
    } else {
      ConnectionFits(l, role, s.written, e.n);
    }
  }

  lemma {:induction false} ScanningFits(s: State, k: nat)
    requires Consistent(s) && Enabled(s, Scans) && k < |s.listeners|
    ensures ListenerFits(Step(s, Scans), k)
  {
    assert ListenerFits(s, k);
    if s.consumer.at == k && s.listeners[k].waiting { OfferFits(s.listeners[k], s.consumer.room); }
  }

  lemma {:induction false} AskingFits(s: State, n: nat, k: nat)
    requires Consistent(s) && Enabled(s, AsksMore(n)) && k < |s.listeners|
    ensures ListenerFits(Step(s, AsksMore(n)), k)
  {
    assert ListenerFits(s, k);
    if s.consumer.i == k { AskFits(s.listeners[k], n); }
  }

  lemma {:induction false} ReplyingFits(s: State, e: Event, k: nat)
    requires Consistent(s) && Enabled(s, e) && (e.BeginsReply? || e.Replies?) && k < |s.listeners|
    ensures ListenerFits(Step(s, e), k)
  {
    assert ListenerFits(s, k);
    if s.consumer.i == k { ReplyFits(s.listeners[k], s.consumer.began, e.v); }
  }

  lemma {:induction false} TakingFits(s: State, e: Event, k: nat)
    requires Consistent(s) && Enabled(s, e) && (e.TakesWritten? || e.TakesMade?) && k < |s.listeners|
    ensures ListenerFits(Step(s, e), k)
  {
    assert ListenerFits(s, k);
    if s.consumer.i == k {
      if e.TakesWritten? {
        WrittenFits(s.listeners[k], s.written);
      } else {
        MadeFits(s.listeners[k], s.consumer.request);
      }
    }
  }

  lemma {:induction false} FitsKept(s: State, e: Event, k: nat)
    requires Consistent(s) && Enabled(s, e) && k < |s.listeners|
    ensures ListenerFits(Step(s, e), k)
  {
    if e.Arrives? || e.Heads? || e.Listens? {
      ListeningFits(s, e, k);
    } else if e.Scans? {
      ScanningFits(s, k);
    } else if e.AsksMore? {
      AskingFits(s, e.n, k);
    } else if e.BeginsReply? || e.Replies? {
      ReplyingFits(s, e, k);
    } else if e.TakesWritten? || e.TakesMade? {
      TakingFits(s, e, k);
    } else {
      assert ListenerFits(s, k);
    }
  }

  // ----- tokens

  /** The announced messages do not change when listener k stays with or without news. */
  lemma {:induction false} AnnouncedKept(s: State, t: State, k: nat)
    requires |t.listeners| == |s.listeners|
    requires forall i: nat :: i < |s.listeners| && i != k ==> t.listeners[i] == s.listeners[i]
    ensures k < |s.listeners| && HasNews(t.listeners[k]) && !HasNews(s.listeners[k]) ==> Announced(t) == Announced(s) + {k}
    ensures k < |s.listeners| && !HasNews(t.listeners[k]) && HasNews(s.listeners[k]) ==> Announced(t) == Announced(s) - {k}
    ensures k < |s.listeners| && HasNews(t.listeners[k]) == HasNews(s.listeners[k]) ==> Announced(t) == Announced(s)
    ensures k >= |s.listeners| ==> Announced(t) == Announced(s)
  {
  }

  /** A scan's listener stays ahead of it. */
  lemma {:induction false} ScanStaysAhead(s: State, t: State)
    requires TokensFit(s) && t.consumer == s.consumer && Announced(t) >= Announced(s)
    ensures t.consumer.Scanning? ==> exists i: nat :: t.consumer.at <= i && i in Announced(t)
  {
    if s.consumer.Scanning? {
      var k: nat :| s.consumer.at <= k && k in Announced(s);
      assert k in Announced(t);
    }
  }

  lemma {:induction false} HeaderTokensKept(s: State, i: nat, n: nat)
    requires Consistent(s) && Enabled(s, Heads(i, n))
    ensures TokensFit(Step(s, Heads(i, n)))
  {
    var t := Step(s, Heads(i, n));
    assert ListenerFits(s, i);
    AnnouncedKept(s, t, i);
    ScanStaysAhead(s, t);
  }

  lemma {:induction false} ListenerTokensKept(s: State, i: nat)
    requires Consistent(s) && Enabled(s, Listens(i))
    ensures TokensFit(Step(s, Listens(i)))
  {
    var t := Step(s, Listens(i));
    assert ListenerFits(s, i);
    ListenerStepFits(s.listeners[i], RoleOf(s.consumer, i), s.written);
    NewsKept(s.listeners[i], RoleOf(s.consumer, i), s.written);
    AnnouncedKept(s, t, i);
    ScanStaysAhead(s, t);
  }

  lemma {:induction false} NewsKept(l: Listener, role: Role, written: nat)
    requires Fits(l, role, written) && CanStep(l)
    ensures HasNews(ListenerStep(l)) == HasNews(l)
    ensures l.place.Filling? ==> written == 0
  {
  }

  /** The scan finds a listener before the end of the list. */
  lemma {:induction false} ScanTokensKept(s: State)
    requires Consistent(s) && Enabled(s, Scans)
    ensures TokensFit(Step(s, Scans)) && s.consumer.at < |s.listeners|
  {
    var t, j := Step(s, Scans), s.consumer.at;
    var k: nat :| j <= k && k in Announced(s);
    assert ListenerFits(s, j);
    AnnouncedKept(s, t, j);
    assert t.consumer.Scanning? ==> k in Announced(t);
  }

  lemma {:induction false} TakeTokenKept(s: State)
    requires Consistent(s) && Enabled(s, TakesToken)
    ensures TokensFit(Step(s, TakesToken))
  {
    var t := Step(s, TakesToken);
    AnnouncedKept(s, t, |s.listeners|);
    assert |Announced(t)| > 0;
    var k :| k in Announced(t);
  }

  lemma {:induction false} TokensKept(s: State, e: Event)
    requires Consistent(s) && Enabled(s, e)
    ensures TokensFit(Step(s, e))
  {
    if e.Listens? {
      ListenerTokensKept(s, e.i);
    } else if e.Heads? {
      HeaderTokensKept(s, e.i, e.n);
    } else if e.Arrives? {
      AnnouncedKept(s, Step(s, e), e.i);
      ScanStaysAhead(s, Step(s, e));
    } else if e.Scans? {
      ScanTokensKept(s);
    } else if e.TakesToken? {
      TakeTokenKept(s);
    } else if e.StartsRead? {
      AnnouncedKept(s, Step(s, e), |s.listeners|);
    } else {
      assert ListenerFits(s, s.consumer.i);
      AnnouncedKept(s, Step(s, e), s.consumer.i);
    }
  }

  lemma {:induction false} ConsistentKept(s: State, e: Event)
    requires Consistent(s) && Enabled(s, e)
    ensures Consistent(Step(s, e))
  {
    TokensKept(s, e);
    if e.Scans? { ScanTokensKept(s); }
    forall k: nat | k < |s.listeners| ensures ListenerFits(Step(s, e), k) { FitsKept(s, e, k); }
  }

  lemma {:induction false} StartsConsistent(acks: seq<bool>)
    ensures Consistent(Initial(acks))
  {
    assert Announced(Initial(acks)) == {};
  }
}
