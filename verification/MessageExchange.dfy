/**
 * A sender and a receiver exchanging messages over one connection. The sender fires one message
 * after the other, with acknowledgments only after the answer to the one before; the receiver
 * begins each message, reads its bytes and ends it with an answer. Exactly when does neither
 * have to wait for the other for ever?
 */
module MessageExchange {
  import opened Options
  import opened Bytes
  import opened Sequences
  import opened Framing

  /**
   * sent counts the messages fired, and awaiting says that the last one has not been answered.
   * While a message is read, reading holds the lengths still to be asked for and data what has
   * come; contents holds the messages read.
   */
  datatype Exchange = Exchange(ack: bool, pending: seq<byte>, answers: seq<byte>, sent: nat, awaiting: bool,
                               reading: Option<seq<nat>>, data: seq<byte>, contents: seq<seq<byte>>)

  datatype Event = Fires | TakesAnswer | Begins | ReadsOn | Ends

  predicate Enabled(messages: seq<Message>, x: Exchange, e: Event) {
    match e
    case Fires => x.sent < |messages| && !x.awaiting
    case TakesAnswer => x.awaiting && OkReply() <= x.answers
    case Begins => x.reading.None? && |x.contents| < |messages| && Begun(x.pending).Some?
    case ReadsOn => x.reading.Some? && x.reading.value != [] && x.reading.value[0] <= |x.pending|
    case Ends => x.reading == Some([])
  }

  /** Message k is read in pieces of lengths[k]. */
  function Step(messages: seq<Message>, lengths: seq<seq<nat>>, x: Exchange, e: Event): Exchange
    requires AllSendable(messages) && |lengths| == |messages| && Enabled(messages, x, e)
  {
    match e
    case Fires =>
      var m := messages[x.sent];
      x.(pending := x.pending + Frame(m.blocks, m.replies), sent := x.sent + 1, awaiting := x.ack)
    case TakesAnswer => x.(answers := x.answers[|OkReply()|..], awaiting := false)
    case Begins => x.(pending := Begun(x.pending).value, reading := Some(lengths[|x.contents|]), data := [])
    case ReadsOn =>
      var n := x.reading.value[0];
      x.(pending := x.pending[n..], reading := Some(x.reading.value[1..]), data := x.data + x.pending[..n])
    case Ends =>
      x.(reading := None, contents := x.contents + [x.data], answers := x.answers + if x.ack then OkReply() else [])
  }

  function Start(ack: bool): Exchange {
    Exchange(ack, [], [], 0, false, None, [], [])
  }

  ghost predicate Run(messages: seq<Message>, lengths: seq<seq<nat>>, x: Exchange, es: seq<Event>, y: Exchange)
    requires AllSendable(messages) && |lengths| == |messages|
    decreases |es|
  {
    if es == [] then x == y
    else Enabled(messages, x, es[0]) && Run(messages, lengths, Step(messages, lengths, x, es[0]), es[1..], y)
  }

  ghost predicate Reachable(messages: seq<Message>, lengths: seq<seq<nat>>, ack: bool, x: Exchange)
    requires AllSendable(messages) && |lengths| == |messages|
  {
    exists es :: Run(messages, lengths, Start(ack), es, x)
  }

  predicate Finished(messages: seq<Message>, x: Exchange) {
    |x.contents| == |messages| && x.reading == None && !x.awaiting
  }

  /** Nobody can go on. */
  ghost predicate Halted(messages: seq<Message>, x: Exchange) {
    forall e: Event :: !Enabled(messages, x, e)
  }

  // ----- what every step keeps

  predicate Empty(messages: seq<Message>, k: nat)
    requires k < |messages|
  {
    Concat(messages[k].blocks) == []
  }

  /** The number of messages that have been begun. */
  function BegunSoFar(x: Exchange): nat {
    |x.contents| + if x.reading.Some? then 1 else 0
  }

  predicate AnswersFit(x: Exchange) {
    if !x.ack then !x.awaiting && x.answers == []
    else if x.awaiting then
      if x.sent == |x.contents| then x.answers == OkReply() else x.sent == |x.contents| + 1 && x.answers == []
    else x.sent == |x.contents| && x.answers == []
  }

  /** A message begun was not empty, or without acknowledgments not the last one. */
  predicate Beginnable(ack: bool, messages: seq<Message>, k: nat)
    requires k < |messages|
  {
    !Empty(messages, k) || (!ack && k + 1 < |messages|)
  }

  ghost predicate AllBegun(ack: bool, messages: seq<Message>, n: nat)
    requires n <= |messages|
  {
    forall k: nat :: k < n ==> Beginnable(ack, messages, k)
  }

  /** Messages are begun after they are fired, and answered in turn. */
  ghost predicate InTurn(messages: seq<Message>, x: Exchange) {
    BegunSoFar(x) <= x.sent <= |messages| && AnswersFit(x) && AllBegun(x.ack, messages, BegunSoFar(x))
  }

  /** left is what has not been read yet of the message being read; the lengths left ask for it. */
  ghost predicate ReadingFits(messages: seq<Message>, x: Exchange, left: seq<byte>)
    requires x.reading.Some? ==> |x.contents| < |messages|
  {
    if x.reading.None? then left == []
    else Concat(messages[|x.contents|].blocks) == x.data + left && Total(x.reading.value) == |left|
  }

  /** The messages from b to n are on the stream, behind what is left of the one before. */
  ghost predicate OnStream(messages: seq<Message>, b: nat, n: nat, left: seq<byte>, pending: seq<byte>)
    requires AllSendable(messages) && b <= n <= |messages|
  {
    pending == left + Stream(messages[b..n])
  }

  ghost predicate BytesFit(messages: seq<Message>, x: Exchange, left: seq<byte>)
    requires AllSendable(messages) && BegunSoFar(x) <= x.sent <= |messages|
  {
    ReadingFits(messages, x, left) && OnStream(messages, BegunSoFar(x), x.sent, left, x.pending)
  }

  ghost predicate ContentsFit(messages: seq<Message>, contents: seq<seq<byte>>) {
    |contents| <= |messages| && contents == Contents(messages[..|contents|])
  }

  ghost predicate Fits(messages: seq<Message>, x: Exchange, left: seq<byte>) {
    AllSendable(messages) && InTurn(messages, x) && BytesFit(messages, x, left) && ContentsFit(messages, x.contents)
  }

  function LeftAfter(messages: seq<Message>, x: Exchange, e: Event, left: seq<byte>): seq<byte>
    requires Enabled(messages, x, e) && (e.ReadsOn? ==> x.reading.value[0] <= |left|)
  {
    match e
    case Begins => Concat(messages[|x.contents|].blocks)
    case ReadsOn => left[x.reading.value[0]..]
    case _ => left
  }

  lemma {:induction false} SendableAppend(messages: seq<Message>, m: Message)
    requires AllSendable(messages) && Sendable(m.blocks, m.replies)
    ensures AllSendable(messages + [m])
    ensures messages != [] ==> AllSendable(messages[1..])
  {
  }

  lemma {:induction false} StreamAppend(messages: seq<Message>, m: Message)
    requires AllSendable(messages) && Sendable(m.blocks, m.replies)
    ensures AllSendable(messages + [m]) && Stream(messages + [m]) == Stream(messages) + Frame(m.blocks, m.replies)
    decreases |messages|
  {
    SendableAppend(messages, m);
    if messages == [] {
      assert messages + [m] == [m] && [m][1..] == [];
      Neutral(Frame(m.blocks, m.replies));
    } else {
      var later := messages[1..];
      StreamAppend(later, m);
      assert (messages + [m])[1..] == later + [m];
      Associate(Frame(messages[0].blocks, messages[0].replies), Stream(later), Frame(m.blocks, m.replies));
    }
  }

  lemma {:induction false} ContentsAppend(messages: seq<Message>, m: Message)
    ensures Contents(messages + [m]) == Contents(messages) + [Concat(m.blocks)]
    decreases |messages|
  {
    if messages == [] {
      assert (messages + [m])[1..] == [];
    } else {
      ContentsAppend(messages[1..], m);
      assert (messages + [m])[1..] == messages[1..] + [m];
    }
  }

  /** n elements more have been taken off in front. */
  lemma {:induction false} TakenInFront<T>(data: seq<T>, left: seq<T>, later: seq<T>, n: nat)
    requires n <= |left|
    ensures (left + later)[n..] == left[n..] + later
    ensures data + left == (data + (left + later)[..n]) + left[n..]
  {
    assert (left + later)[..n] == left[..n];
  }

  lemma {:induction false} MoreOnStream(messages: seq<Message>, b: nat, n: nat, left: seq<byte>, pending: seq<byte>)
    requires AllSendable(messages) && b <= n < |messages| && OnStream(messages, b, n, left, pending)
    ensures OnStream(messages, b, n + 1, left, pending + Frame(messages[n].blocks, messages[n].replies))
  {
    StreamAppend(messages[b..n], messages[n]);
    assert messages[b..n] + [messages[n]] == messages[b..n + 1];
    Associate(left, Stream(messages[b..n]), Frame(messages[n].blocks, messages[n].replies));
  }

  /** When the receiver can begin the next message, and what is then before it. */
  lemma {:induction false} NextBegins(messages: seq<Message>, b: nat, n: nat, pending: seq<byte>)
    requires b <= n <= |messages| && AllSendable(messages) && OnStream(messages, b, n, [], pending)
    ensures Begun(pending).Some? <==> b < n && (b + 1 < n || !Empty(messages, b))
    ensures Begun(pending).Some? ==> OnStream(messages, b + 1, n, Concat(messages[b].blocks), Begun(pending).value)
  {
    var later := messages[b..n];
    assert pending == Stream(later) + [];
    if b < n {
      assert later[1..] == messages[b + 1..n];
      StreamSplit(later, []);
      assert Stream(later[1..]) + [] == Stream(later[1..]);
      BegunIff(messages[b].blocks, messages[b].replies, Stream(later[1..]));
    }
  }

  lemma {:induction false} InTurnKept(messages: seq<Message>, lengths: seq<seq<nat>>, x: Exchange, e: Event)
    requires AllSendable(messages) && AddUp(messages, lengths) && InTurn(messages, x) && Enabled(messages, x, e)
    requires e.Begins? ==> |x.contents| < x.sent && (|x.contents| + 1 < x.sent || !Empty(messages, |x.contents|))
    ensures InTurn(messages, Step(messages, lengths, x, e))
  {
    if e.Begins? { assert Beginnable(x.ack, messages, |x.contents|); }
  }

  lemma {:induction false} FiresBytes(messages: seq<Message>, lengths: seq<seq<nat>>, x: Exchange, left: seq<byte>)
    requires AllSendable(messages) && AddUp(messages, lengths) && BegunSoFar(x) <= x.sent
    requires Enabled(messages, x, Fires) && BytesFit(messages, x, left)
    ensures BytesFit(messages, Step(messages, lengths, x, Fires), left)
  {
    MoreOnStream(messages, BegunSoFar(x), x.sent, left, x.pending);
  }

  lemma {:induction false} BeginsBytes(messages: seq<Message>, lengths: seq<seq<nat>>, x: Exchange, left: seq<byte>)
    requires AllSendable(messages) && AddUp(messages, lengths) && BegunSoFar(x) <= x.sent <= |messages|
    requires Enabled(messages, x, Begins) && BytesFit(messages, x, left)
    ensures |x.contents| < x.sent && (|x.contents| + 1 < x.sent || !Empty(messages, |x.contents|))
    ensures BytesFit(messages, Step(messages, lengths, x, Begins), Concat(messages[|x.contents|].blocks))
  {
    NextBegins(messages, |x.contents|, x.sent, x.pending);
    Neutral(Concat(messages[|x.contents|].blocks));
  }

  lemma {:induction false} ReadsBytes(messages: seq<Message>, lengths: seq<seq<nat>>, x: Exchange, left: seq<byte>)
    requires AllSendable(messages) && AddUp(messages, lengths) && BegunSoFar(x) <= x.sent <= |messages|
    requires Enabled(messages, x, ReadsOn) && BytesFit(messages, x, left)
    ensures x.reading.value[0] <= |left|
    ensures BytesFit(messages, Step(messages, lengths, x, ReadsOn), left[x.reading.value[0]..])
  {
    TakenInFront(x.data, left, Stream(messages[BegunSoFar(x)..x.sent]), x.reading.value[0]);
  }

  lemma {:induction false} ContentsUpTo(messages: seq<Message>, n: nat)
    requires n < |messages|
    ensures Contents(messages[..n + 1]) == Contents(messages[..n]) + [Concat(messages[n].blocks)]
  {
    ContentsAppend(messages[..n], messages[n]);
    assert messages[..n] + [messages[n]] == messages[..n + 1];
  }

  lemma {:induction false} EndsBytes(messages: seq<Message>, lengths: seq<seq<nat>>, x: Exchange, left: seq<byte>)
    requires AllSendable(messages) && AddUp(messages, lengths) && BegunSoFar(x) <= x.sent <= |messages|
    requires Enabled(messages, x, Ends) && BytesFit(messages, x, left)
    ensures BytesFit(messages, Step(messages, lengths, x, Ends), left) && x.data == Concat(messages[|x.contents|].blocks)
  {
    Neutral(x.data);
  }

  lemma {:induction false} FitsKept(messages: seq<Message>, lengths: seq<seq<nat>>, x: Exchange, e: Event, left: seq<byte>)
    requires Fits(messages, x, left) && AddUp(messages, lengths) && Enabled(messages, x, e)
    ensures e.ReadsOn? ==> x.reading.value[0] <= |left|
    ensures Fits(messages, Step(messages, lengths, x, e), LeftAfter(messages, x, e, left))
  {
    if e.Begins? { BeginsBytes(messages, lengths, x, left); }
    InTurnKept(messages, lengths, x, e);
    match e
    case Fires => FiresBytes(messages, lengths, x, left);
    case ReadsOn => ReadsBytes(messages, lengths, x, left);
    case Ends =>
      EndsBytes(messages, lengths, x, left);
      ContentsUpTo(messages, |x.contents|);
    case _ =>
  }

  // ----- runs end

  /** The steps it takes to begin, read and end the messages. */
  function Work(lengths: seq<seq<nat>>): nat {
    if lengths == [] then 0 else 2 + |lengths[0]| + Work(lengths[1..])
  }

  function StepsLeft(messages: seq<Message>, lengths: seq<seq<nat>>, x: Exchange): nat
    requires x.sent <= |messages| && BegunSoFar(x) <= |lengths|
  {
    2 * (|messages| - x.sent) + (if x.awaiting then 1 else 0)
    + Work(lengths[BegunSoFar(x)..]) + (if x.reading.Some? then |x.reading.value| + 1 else 0)
  }

  lemma {:induction false} StepsGetFewer(messages: seq<Message>, lengths: seq<seq<nat>>, x: Exchange, e: Event, left: seq<byte>)
    requires Fits(messages, x, left) && AddUp(messages, lengths) && Enabled(messages, x, e)
    ensures BegunSoFar(Step(messages, lengths, x, e)) <= Step(messages, lengths, x, e).sent <= |messages|
    ensures StepsLeft(messages, lengths, Step(messages, lengths, x, e)) < StepsLeft(messages, lengths, x)
  {
    if e.Begins? {
      NextBegins(messages, |x.contents|, x.sent, x.pending);
      assert lengths[|x.contents|..][1..] == lengths[|x.contents| + 1..];
    }
  }

  lemma {:induction false} RunKeeps(messages: seq<Message>, lengths: seq<seq<nat>>, x: Exchange, left: seq<byte>,
                                    es: seq<Event>, y: Exchange)
    returns (later: seq<byte>)
    requires Fits(messages, x, left) && AddUp(messages, lengths) && Run(messages, lengths, x, es, y)
    ensures Fits(messages, y, later) && y.ack == x.ack
    ensures |es| + StepsLeft(messages, lengths, y) <= StepsLeft(messages, lengths, x)
    decreases |es|
  {
    if es == [] {
      return left;
    }
    FitsKept(messages, lengths, x, es[0], left);
    StepsGetFewer(messages, lengths, x, es[0], left);
    later := RunKeeps(messages, lengths, Step(messages, lengths, x, es[0]), LeftAfter(messages, x, es[0], left), es[1..], y);
  }

  /** Some run goes on until nobody can. */
  lemma {:induction false} RunOn(messages: seq<Message>, lengths: seq<seq<nat>>, x: Exchange, left: seq<byte>)
    returns (es: seq<Event>, y: Exchange)
    requires Fits(messages, x, left) && AddUp(messages, lengths)
    ensures Run(messages, lengths, x, es, y) && Halted(messages, y)
    decreases StepsLeft(messages, lengths, x)
  {
    if Halted(messages, x) {
      return [], x;
    }
    var e: Event :| Enabled(messages, x, e);
    FitsKept(messages, lengths, x, e, left);
    StepsGetFewer(messages, lengths, x, e, left);
    es, y := RunOn(messages, lengths, Step(messages, lengths, x, e), LeftAfter(messages, x, e, left));
    assert ([e] + es)[1..] == es;
    es := [e] + es;
  }

  // ----- when all messages get through

  /** With acknowledgments no message is empty; without them the last is not. */
  ghost predicate GetThrough(ack: bool, messages: seq<Message>) {
    if ack then forall k: nat :: k < |messages| ==> !Empty(messages, k)
    else messages != [] ==> !Empty(messages, |messages| - 1)
  }

  /** Who halts before the end waits for a message that is empty and the last one sent. */
  lemma {:induction false} HaltsAt(messages: seq<Message>, lengths: seq<seq<nat>>, x: Exchange, left: seq<byte>)
    requires Fits(messages, x, left) && AddUp(messages, lengths) && Halted(messages, x)
    ensures x.reading == None
    ensures !Finished(messages, x) ==>
      |x.contents| < |messages| && Empty(messages, |x.contents|) && x.sent == |x.contents| + 1
      && (!x.ack ==> x.sent == |messages|)
  {
    assert !Enabled(messages, x, Fires) && !Enabled(messages, x, TakesAnswer) && !Enabled(messages, x, Begins);
    assert !Enabled(messages, x, ReadsOn) && !Enabled(messages, x, Ends);
    if x.reading.None? { NextBegins(messages, |x.contents|, x.sent, x.pending); }
  }

  lemma {:induction false} AllBeginnable(messages: seq<Message>, x: Exchange, left: seq<byte>)
    requires Fits(messages, x, left) && Finished(messages, x)
    ensures GetThrough(x.ack, messages)
  {
    if x.ack {
      forall k: nat | k < |messages| ensures !Empty(messages, k) { assert Beginnable(x.ack, messages, k); }
    } else if messages != [] {
      assert Beginnable(x.ack, messages, |messages| - 1);
    }
  }

  lemma {:induction false} StartFits(messages: seq<Message>, ack: bool)
    requires AllSendable(messages)
    ensures Fits(messages, Start(ack), [])
  {
    assert messages[..0] == [] && messages[0..0] == [];
  }

  /**
   * Every run has a bounded number of steps; whoever halts has received a prefix of the
   * messages, and all of them if and only if they get through. Otherwise the exchange halts for
   * ever at an empty message: with acknowledgments at the first one, without them at the last message.
   */
  lemma {:induction false} ExchangeEnds(messages: seq<Message>, lengths: seq<seq<nat>>, ack: bool, es: seq<Event>, x: Exchange)
    requires AllSendable(messages) && AddUp(messages, lengths) && Run(messages, lengths, Start(ack), es, x)
    ensures |es| <= 2 * |messages| + Work(lengths)
    ensures |x.contents| <= |messages| && x.contents == Contents(messages[..|x.contents|])
    ensures Halted(messages, x) ==> (Finished(messages, x) <==> GetThrough(ack, messages))
    ensures Halted(messages, x) && !Finished(messages, x) ==>
      |x.contents| < |messages| && Empty(messages, |x.contents|)
      && if ack then forall k: nat :: k < |x.contents| ==> !Empty(messages, k) else |x.contents| == |messages| - 1
  {
    StartFits(messages, ack);
    var left := RunKeeps(messages, lengths, Start(ack), [], es, x);
    assert lengths[0..] == lengths;
    if Halted(messages, x) {
      HaltsAt(messages, lengths, x, left);
      if Finished(messages, x) {
        AllBeginnable(messages, x, left);
      } else if ack {
        forall k: nat | k < |x.contents| ensures !Empty(messages, k) { assert Beginnable(ack, messages, k); }
      }
    }
  }

  lemma {:induction false} AllExchanged(messages: seq<Message>, lengths: seq<seq<nat>>, ack: bool) returns (x: Exchange)
    requires AllSendable(messages) && AddUp(messages, lengths) && GetThrough(ack, messages)
    ensures Reachable(messages, lengths, ack, x) && Finished(messages, x)
  {
    StartFits(messages, ack);
    var es;
    es, x := RunOn(messages, lengths, Start(ack), []);
    ExchangeEnds(messages, lengths, ack, es, x);
  }

  lemma {:induction false} FinishedGotThrough(messages: seq<Message>, lengths: seq<seq<nat>>, ack: bool, x: Exchange)
    requires AllSendable(messages) && AddUp(messages, lengths)
    requires Reachable(messages, lengths, ack, x) && Finished(messages, x)
    ensures GetThrough(ack, messages)
  {
    var es :| Run(messages, lengths, Start(ack), es, x);
    StartFits(messages, ack);
    var left := RunKeeps(messages, lengths, Start(ack), [], es, x);
    AllBeginnable(messages, x, left);
  }

  /** All messages can be exchanged if and only if they get through. */
  lemma {:induction false} ExchangeIff(messages: seq<Message>, lengths: seq<seq<nat>>, ack: bool)
    requires AllSendable(messages) && AddUp(messages, lengths)
    ensures GetThrough(ack, messages)
       <==> exists x :: Reachable(messages, lengths, ack, x) && Finished(messages, x)
  {
    if GetThrough(ack, messages) {
      var x := AllExchanged(messages, lengths, ack);
      assert Reachable(messages, lengths, ack, x) && Finished(messages, x);
    }
    forall x | Reachable(messages, lengths, ack, x) && Finished(messages, x) ensures GetThrough(ack, messages) {
      FinishedGotThrough(messages, lengths, ack, x);
    }
  }
}
