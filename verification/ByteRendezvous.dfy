/**
 * The rendezvous with the bytes of its connections. A consumer that begins a message and reads
 * on obtains what the framing of the stream says, and comes back exactly if the bytes are there.
 */
module ByteRendezvous {
  import opened Options
  import opened Bytes
  import opened Sequences
  import opened Framing
  import opened Listeners
  import opened Rendezvous
  import opened RendezvousTheorems

  /** taken is what has been received of a connection from the last header on, rest what has not. */
  datatype Wire = Wire(taken: seq<byte>, rest: seq<byte>)

  function Whole(w: Wire): seq<byte> {
    w.taken + w.rest
  }

  /**
   * calls holds the lengths the consumer has asked for since its read began, and pieces what
   * was written into its buffers for them.
   */
  datatype Carried = Carried(s: State, wires: seq<Wire>, calls: seq<nat>, pieces: seq<seq<byte>>)

  predicate IntoBuffer(l: Listener) {
    l.place.Filling? || l.place.Receiving?
  }

  /** What the listener's next step receives into the consumer's buffer. */
  function Piece(l: Listener, w: Wire): seq<byte>
    requires IntoBuffer(l) && CanStep(l) && |w.rest| == l.input
  {
    w.rest[..if l.place.Filling? then l.length else l.moreLength]
  }

  function AfterStep(l: Listener, w: Wire): Wire
    requires CanStep(l) && |w.rest| == l.input
  {
    if IntoBuffer(l) then Wire(w.taken + Piece(l, w), w.rest[|Piece(l, w)|..]) else w
  }

  ghost predicate Linked(x: Carried) {
    && |x.wires| == |x.s.listeners|
    && forall i: nat :: i < |x.wires| ==> |x.wires[i].rest| == x.s.listeners[i].input
  }

  /** Only arrivals bring bytes b; a header says what follows it. */
  ghost predicate CanDo(x: Carried, e: Event, b: seq<byte>) {
    && Linked(x) && Enabled(x.s, e)
    && match e
       case Arrives(i, n) => |b| == n
       case Heads(i, n) => HeaderLength(x.wires[i].rest[..HEADER_SIZE]) == n
       case _ => b == []
  }

  ghost function Do(x: Carried, e: Event, b: seq<byte>): Carried
    requires CanDo(x, e, b)
  {
    var s := Step(x.s, e);
    match e
    case Arrives(i, _) => x.(s := s, wires := x.wires[i := x.wires[i].(rest := x.wires[i].rest + b)])
    case Heads(i, _) =>
      var w := x.wires[i];
      x.(s := s, wires := x.wires[i := Wire(w.rest[..HEADER_SIZE], w.rest[HEADER_SIZE..])])
    case Listens(i) =>
      var l, w := x.s.listeners[i], x.wires[i];
      x.(s := s, wires := x.wires[i := AfterStep(l, w)],
         pieces := if IntoBuffer(l) then x.pieces + [Piece(l, w)] else x.pieces)
    case StartsRead(room) => x.(s := s, calls := [room], pieces := [])
    case AsksMore(n) => x.(s := s, calls := x.calls + [n])
    case _ => x.(s := s)
  }

  // ----- what every step keeps

  /** The header, and then a piece for each call; a call for no bytes was made with one more to come. */
  ghost predicate Told(w: Wire, calls: seq<nat>, pieces: seq<seq<byte>>) {
    && |calls| == |pieces| >= 1 && |w.taken| >= HEADER_SIZE && HeaderLength(w.taken[..HEADER_SIZE]) >= 0
    && w.taken == w.taken[..HEADER_SIZE] + Concat(pieces)
    && |pieces[0]| == Within(HeaderLength(w.taken[..HEADER_SIZE]), calls[0])
    && forall k: nat :: 1 <= k < |pieces| ==> PieceFits(w, calls[k], pieces, k)
  }

  function Within(length: int, room: nat): int {
    if length > room then room else length
  }

  ghost predicate PieceFits(w: Wire, n: nat, pieces: seq<seq<byte>>, k: nat)
    requires k < |pieces|
  {
    |pieces[k]| == n && (n == 0 ==> HEADER_SIZE + |Concat(pieces[..k])| < |Whole(w)|)
  }

  /** Only the header has been received. */
  ghost predicate HeaderOnly(w: Wire) {
    |w.taken| == HEADER_SIZE && HeaderLength(w.taken) >= 0
  }

  ghost predicate WireFits(l: Listener, role: Role, w: Wire, calls: seq<nat>, pieces: seq<seq<byte>>) {
    && (HasNews(l) ==> HeaderOnly(w) && HeaderLength(w.taken) == l.length)
    && match role
       case Read =>
         |calls| == 1 &&
         (if l.place.AwaitReply? then Told(w, calls, pieces)
          else pieces == [] && HeaderOnly(w) && l.length == Within(HeaderLength(w.taken), calls[0]))
       case Served(began) => !began ==> Told(w, calls, pieces)
       case Asked(ReceiveMore) =>
         calls != [] &&
         (if l.readMore then Told(w, calls[..|calls| - 1], pieces) && l.moreLength == calls[|calls| - 1]
          else Told(w, calls, pieces))
       case _ => true
  }

  ghost predicate WireAt(x: Carried, i: nat)
    requires Linked(x) && i < |x.wires|
  {
    WireFits(x.s.listeners[i], RoleOf(x.s.consumer, i), x.wires[i], x.calls, x.pieces)
  }

  /** A read that has not found its listener yet. */
  ghost predicate ReadFits(x: Carried) {
    match x.s.consumer
    case Waiting(room) => x.calls == [room] && x.pieces == []
    case Scanning(_, room) => x.calls == [room] && x.pieces == []
    case _ => true
  }

  ghost predicate Good(x: Carried) {
    Consistent(x.s) && Linked(x) && ReadFits(x) && forall i: nat :: i < |x.wires| ==> WireAt(x, i)
  }

  lemma {:induction false} MoreToCome(w: Wire, b: seq<byte>, calls: seq<nat>, pieces: seq<seq<byte>>)
    requires Told(w, calls, pieces)
    ensures Told(w.(rest := w.rest + b), calls, pieces)
  {
    forall k: nat | 1 <= k < |pieces| ensures PieceFits(w.(rest := w.rest + b), calls[k], pieces, k) {
      assert PieceFits(w, calls[k], pieces, k);
    }
  }

  /** One piece more is received. */
  lemma {:induction false} OnePieceMore(w: Wire, n: nat, calls: seq<nat>, pieces: seq<seq<byte>>)
    requires Told(w, calls, pieces) && CanReceive(|w.rest|, n)
    ensures Told(Wire(w.taken + w.rest[..n], w.rest[n..]), calls + [n], pieces + [w.rest[..n]])
  {
    var w', pieces' := Wire(w.taken + w.rest[..n], w.rest[n..]), pieces + [w.rest[..n]];
    assert w'.taken[..HEADER_SIZE] == w.taken[..HEADER_SIZE];
    assert pieces'[..|pieces|] == pieces;
    Associate(w.taken[..HEADER_SIZE], Concat(pieces), w.rest[..n]);
    forall k: nat | 1 <= k < |pieces'| ensures PieceFits(w', (calls + [n])[k], pieces', k) {
      if k < |pieces| {
        assert PieceFits(w, calls[k], pieces, k) && pieces'[..k] == pieces[..k];
      }
    }
  }

  /** The first piece. */
  lemma {:induction false} FirstPiece(w: Wire, room: nat)
    requires HeaderOnly(w) && Within(HeaderLength(w.taken), room) <= |w.rest|
    ensures var n := Within(HeaderLength(w.taken), room);
      Told(Wire(w.taken + w.rest[..n], w.rest[n..]), [room], [w.rest[..n]])
  {
    var n := Within(HeaderLength(w.taken), room);
    var w' := Wire(w.taken + w.rest[..n], w.rest[n..]);
    assert w'.taken[..HEADER_SIZE] == w.taken && w.taken[..HEADER_SIZE] == w.taken;
    ConcatUpTo([w.rest[..n]], 0);
    assert [w.rest[..n]][..1] == [w.rest[..n]];
  }

  lemma {:induction false} SameInput(l: Listener)
    requires CanStep(l) && !IntoBuffer(l)
    ensures ListenerStep(l).input == l.input
  {
    if l.place.Announcing? || l.place.Asleep? || l.place.AwaitReply? {
    } else if l.place.More? {
    } else if l.place.AwaitMore? || l.place.AwaitFinal? {
    } else {
    }
  }

  lemma {:induction false} StepLinked(l: Listener, w: Wire)
    requires CanStep(l) && |w.rest| == l.input
    ensures |AfterStep(l, w).rest| == ListenerStep(l).input
  {
    if l.place.Filling? {
      assert |w.rest[l.length..]| == l.input - l.length;
    } else if l.place.Receiving? {
      assert |w.rest[l.moreLength..]| == l.input - l.moreLength;
    } else {
      SameInput(l);
    }
  }

  lemma {:induction false} LinkedKept(x: Carried, e: Event, b: seq<byte>)
    requires CanDo(x, e, b)
    ensures Linked(Do(x, e, b))
  {
    if e.Listens? { StepLinked(x.s.listeners[e.i], x.wires[e.i]); }
  }

  lemma {:induction false} FillingTells(l: Listener, role: Role, written: nat, w': Wire, calls: seq<nat>,
                                        pieces: seq<seq<byte>>)
    requires Fits(l, role, written) && l.place.Filling? && CanStep(l)
    requires |calls| == 1 && Told(w', calls, pieces)
    ensures WireFits(ListenerStep(l), role, w', calls, pieces)
  {
  }

  lemma {:induction false} ReceivingTells(l: Listener, role: Role, written: nat, w': Wire, calls: seq<nat>,
                                          pieces: seq<seq<byte>>)
    requires Fits(l, role, written) && l.place.Receiving? && CanStep(l) && Told(w', calls, pieces)
    ensures WireFits(ListenerStep(l), role, w', calls, pieces)
  {
  }

  lemma {:induction false} ListenerTells(l: Listener, role: Role, written: nat, w: Wire, calls: seq<nat>, pieces: seq<seq<byte>>)
    requires Fits(l, role, written) && WireFits(l, role, w, calls, pieces) && CanStep(l) && |w.rest| == l.input
    ensures WireFits(ListenerStep(l), role, AfterStep(l, w), calls, if IntoBuffer(l) then pieces + [Piece(l, w)] else pieces)
  {
    var w' := AfterStep(l, w);
    if l.place.Filling? {
      FirstPiece(w, calls[0]);
      assert [] + [w.rest[..l.length]] == [w.rest[..l.length]];
      assert calls == [calls[0]];
      FillingTells(l, role, written, w', calls, pieces + [Piece(l, w)]);
    } else if l.place.Receiving? {
      OnePieceMore(w, l.moreLength, calls[..|calls| - 1], pieces);
      assert calls[..|calls| - 1] + [l.moreLength] == calls;
      ReceivingTells(l, role, written, w', calls, pieces + [Piece(l, w)]);
    }
  }

  lemma {:induction false} ConnectionTells(l: Listener, role: Role, written: nat, w: Wire, calls: seq<nat>,
                                           pieces: seq<seq<byte>>, b: seq<byte>)
    requires Fits(l, role, written) && WireFits(l, role, w, calls, pieces) && |w.rest| == l.input
    ensures WireFits(MoreInput(l, |b|), role, w.(rest := w.rest + b), calls, pieces)
    ensures CanHead(l) && HeaderLength(w.rest[..HEADER_SIZE]) >= 0 ==>
      WireFits(Headed(l, HeaderLength(w.rest[..HEADER_SIZE])), role,
               Wire(w.rest[..HEADER_SIZE], w.rest[HEADER_SIZE..]), calls, pieces)
  {
    if Told(w, calls, pieces) { MoreToCome(w, b, calls, pieces); }
    if calls != [] && Told(w, calls[..|calls| - 1], pieces) { MoreToCome(w, b, calls[..|calls| - 1], pieces); }
  }

  lemma {:induction false} OfferTells(l: Listener, room: nat, w: Wire, calls: seq<nat>, pieces: seq<seq<byte>>)
    requires Fits(l, Free, 0) && WireFits(l, Free, w, calls, pieces) && l.waiting && calls == [room] && pieces == []
    ensures WireFits(Offered(l, room), Read, w, calls, pieces)
  {
  }

  lemma {:induction false} AskTells(l: Listener, n: nat, w: Wire, calls: seq<nat>, pieces: seq<seq<byte>>)
    requires Fits(l, Served(false), 0) && WireFits(l, Served(false), w, calls, pieces)
    ensures WireFits(AskedForMore(l, n), Asked(ReceiveMore), w, calls + [n], pieces)
  {
    assert (calls + [n])[..|calls|] == calls;
  }

  /** Without a role the wire stands for itself; a call that is through is told. */
  lemma {:induction false} CallTells(l: Listener, role: Role, written: nat, w: Wire, calls: seq<nat>, pieces: seq<seq<byte>>)
    requires Fits(l, role, written) && WireFits(l, role, w, calls, pieces)
    ensures role.Read? && written > 0 ==> WireFits(l, Served(false), w, calls, pieces)
    ensures role == Asked(ReceiveMore) && l.replyMade > 0 ==> WireFits(l, Served(false), w, calls, pieces)
  {
  }

  lemma {:induction false} ListeningAt(x: Carried, e: Event, b: seq<byte>, k: nat)
    requires Good(x) && CanDo(x, e, b) && (e.Arrives? || e.Heads? || e.Listens?) && k < |x.wires|
    ensures Linked(Do(x, e, b)) && WireAt(Do(x, e, b), k)
  {
    LinkedKept(x, e, b);
    var l, w, role := x.s.listeners[e.i], x.wires[e.i], RoleOf(x.s.consumer, e.i);
    assert WireAt(x, k) && WireAt(x, e.i) && ListenerFits(x.s, e.i);
    if e.Listens? {
      ListenerTells(l, role, x.s.written, w, x.calls, x.pieces);
    } else {
      ConnectionTells(l, role, x.s.written, w, x.calls, x.pieces, b);
    }
  }

  lemma {:induction false} ScansAt(x: Carried, k: nat)
    requires Good(x) && CanDo(x, Scans, []) && k < |x.wires|
    ensures Linked(Do(x, Scans, [])) && WireAt(Do(x, Scans, []), k)
  {
    LinkedKept(x, Scans, []);
    assert WireAt(x, k) && ListenerFits(x.s, k);
    if k == x.s.consumer.at && x.s.listeners[k].waiting {
      OfferTells(x.s.listeners[k], x.s.consumer.room, x.wires[k], x.calls, x.pieces);
    }
  }

  lemma {:induction false} AsksAt(x: Carried, n: nat, k: nat)
    requires Good(x) && CanDo(x, AsksMore(n), []) && k < |x.wires|
    ensures Linked(Do(x, AsksMore(n), [])) && WireAt(Do(x, AsksMore(n), []), k)
  {
    LinkedKept(x, AsksMore(n), []);
    assert WireAt(x, k) && ListenerFits(x.s, k);
    if k == x.s.consumer.i { AskTells(x.s.listeners[k], n, x.wires[k], x.calls, x.pieces); }
  }

  lemma {:induction false} TakesAt(x: Carried, e: Event, k: nat)
    requires Good(x) && CanDo(x, e, []) && (e.TakesWritten? || e.TakesMade?) && k < |x.wires|
    ensures Linked(Do(x, e, [])) && WireAt(Do(x, e, []), k)
  {
    LinkedKept(x, e, []);
    assert WireAt(x, k) && ListenerFits(x.s, k);
    CallTells(x.s.listeners[k], RoleOf(x.s.consumer, k), x.s.written, x.wires[k], x.calls, x.pieces);
  }

  lemma {:induction false} RepliesAt(x: Carried, e: Event, k: nat)
    requires Good(x) && CanDo(x, e, []) && (e.BeginsReply? || e.Replies? || e.StartsRead? || e.TakesToken?) && k < |x.wires|
    ensures Linked(Do(x, e, [])) && WireAt(Do(x, e, []), k)
  {
    LinkedKept(x, e, []);
    assert WireAt(x, k) && ListenerFits(x.s, k);
  }

  lemma {:induction false} ReadFitsKept(x: Carried, e: Event, b: seq<byte>)
    requires Good(x) && CanDo(x, e, b)
    ensures ReadFits(Do(x, e, b))
  {
    if e.Listens? { assert ListenerFits(x.s, e.i); }
  }

  lemma {:induction false} GoodKept(x: Carried, e: Event, b: seq<byte>)
    requires Good(x) && CanDo(x, e, b)
    ensures Good(Do(x, e, b))
  {
    ConsistentKept(x.s, e);
    LinkedKept(x, e, b);
    ReadFitsKept(x, e, b);
    forall k: nat | k < |x.wires| ensures WireAt(Do(x, e, b), k) {
      if e.Arrives? || e.Heads? || e.Listens? {
        ListeningAt(x, e, b, k);
      } else if e.Scans? {
        ScansAt(x, k);
      } else if e.AsksMore? {
        AsksAt(x, e.n, k);
      } else if e.TakesWritten? || e.TakesMade? {
        TakesAt(x, e, k);
      } else {
        RepliesAt(x, e, k);
      }
    }
  }

  // ----- runs

  ghost predicate ByteRun(x: Carried, es: seq<(Event, seq<byte>)>, y: Carried)
    decreases |es|
  {
    if es == [] then x == y else CanDo(x, es[0].0, es[0].1) && ByteRun(Do(x, es[0].0, es[0].1), es[1..], y)
  }

  ghost function AtFirst(acks: seq<bool>): Carried {
    Carried(Initial(acks), seq(|acks|, i => Wire([], [])), [], [])
  }

  ghost predicate ByteReachable(acks: seq<bool>, x: Carried) {
    exists es :: ByteRun(AtFirst(acks), es, x)
  }

  lemma {:induction false} RunIsGood(x: Carried, es: seq<(Event, seq<byte>)>, y: Carried)
    requires Good(x) && ByteRun(x, es, y)
    ensures Good(y)
    decreases |es|
  {
    if es == [] {
    } else {
      GoodKept(x, es[0].0, es[0].1);
      RunIsGood(Do(x, es[0].0, es[0].1), es[1..], y);
    }
  }

  lemma {:induction false} ReachableIsGood(acks: seq<bool>, x: Carried)
    requires ByteReachable(acks, x)
    ensures Good(x)
  {
    StartsConsistent(acks);
    var es :| ByteRun(AtFirst(acks), es, x);
    RunIsGood(AtFirst(acks), es, x);
  }

  /** Every run of the bytes is a run of the rendezvous. */
  lemma {:induction false} RunsOfBytes(x: Carried, es: seq<(Event, seq<byte>)>, y: Carried)
    requires ByteRun(x, es, y)
    ensures Run(x.s, seq(|es|, k requires 0 <= k < |es| => es[k].0), y.s)
    decreases |es|
  {
    if es == [] {
    } else {
      RunsOfBytes(Do(x, es[0].0, es[0].1), es[1..], y);
      assert seq(|es|, k requires 0 <= k < |es| => es[k].0)[1..] == seq(|es[1..]|, k requires 0 <= k < |es[1..]| => es[1..][k].0);
    }
  }

  // ----- what the calls return

  /** The calls that begin a message, as far as the prefix they get says how many there are. */
  function BeginCalls(prefix: seq<byte>): seq<nat>
    requires |prefix| == PREFIX_SIZE
  {
    if FromInt32(prefix[2..6]) < 0 then [PREFIX_SIZE, 4 * (prefix[0] as int + prefix[1] as int), 0] else [PREFIX_SIZE, 0]
  }

  /** The message was begun, and then bytes of the given lengths were read. */
  ghost predicate BegunAndRead(calls: seq<nat>, pieces: seq<seq<byte>>, lengths: seq<nat>) {
    pieces != [] && |pieces[0]| == PREFIX_SIZE && calls == BeginCalls(pieces[0]) + lengths
  }

  lemma {:induction false} ReadsOfPieces(pieces: seq<seq<byte>>, rest: seq<byte>, lengths: seq<nat>)
    requires |pieces| == |lengths| && forall k :: 0 <= k < |pieces| ==> |pieces[k]| == lengths[k]
    ensures Reads(true, Concat(pieces) + rest, lengths) == Taken(pieces, true, rest)
    decreases |pieces|
  {
    if pieces == [] {
      assert Concat(pieces) + rest == rest;
    } else {
      ConcatFront(pieces[0], pieces[1..]);
      assert [pieces[0]] + pieces[1..] == pieces;
      var s, later := Concat(pieces) + rest, Concat(pieces[1..]) + rest;
      assert s == pieces[0] + later;
      assert s[..lengths[0]] == pieces[0] && s[lengths[0]..] == later;
      ReadsOfPieces(pieces[1..], rest, lengths[1..]);
    }
  }

  lemma {:induction false} ConcatParts(a: seq<seq<byte>>, b: seq<seq<byte>>)
    ensures Concat(a + b) == Concat(a) + Concat(b)
    decreases |b|
  {
    if b == [] {
      assert a + b == a;
    } else {
      var n := |b| - 1;
      ConcatParts(a, b[..n]);
      assert (a + b)[..|a| + n] == a + b[..n];
      Associate(Concat(a), Concat(b[..n]), b[n]);
    }
  }

  function TableLength(prefix: seq<byte>): nat
    requires |prefix| == PREFIX_SIZE
  {
    if FromInt32(prefix[2..6]) < 0 then 4 * (prefix[0] as int + prefix[1] as int) else 0
  }

  lemma {:induction false} PreambleIn(header: seq<byte>, prefix: seq<byte>, table: seq<byte>, body: seq<byte>)
    requires |header| == HEADER_SIZE && |prefix| == PREFIX_SIZE && HeaderLength(header) == PREFIX_SIZE
    requires |table| == TableLength(prefix)
    ensures AfterPreamble(header + (prefix + table + body)) == Some(body)
  {
    var s := header + (prefix + table + body);
    assert s[..HEADER_SIZE] == header && s[HEADER_SIZE..HEADER_SIZE + PREFIX_SIZE] == prefix;
    assert s[HEADER_SIZE + PREFIX_SIZE + |table|..] == body;
  }

  /** What the calls that begin a message have obtained: the prefix, and the table if there is one. */
  lemma {:induction false} BeginPieces(w: Wire, calls: seq<nat>, pieces: seq<seq<byte>>, lengths: seq<nat>)
    returns (m: nat, table: seq<byte>)
    requires Told(w, calls, pieces) && BegunAndRead(calls, pieces, lengths)
    ensures m == |calls| - |lengths| <= |pieces| && |table| == TableLength(pieces[0])
    ensures Concat(pieces[..m]) == pieces[0] + table && HEADER_SIZE + |pieces[0] + table| < |Whole(w)|
  {
    m := |calls| - |lengths|;
    assert PieceFits(w, calls[m - 1], pieces, m - 1);
    ConcatUpTo(pieces, m - 1);
    ConcatUpTo(pieces, 0);
    table := [];
    if m == 3 {
      table := pieces[1];
      assert PieceFits(w, calls[1], pieces, 1);
      ConcatUpTo(pieces, 1);
    }
    assert pieces[m - 1] == [];
  }

  /** The stream as a whole is one in which the message is begun, and read in these pieces. */
  lemma {:induction false} AsFramed(w: Wire, calls: seq<nat>, pieces: seq<seq<byte>>, lengths: seq<nat>)
    requires Told(w, calls, pieces) && BegunAndRead(calls, pieces, lengths) && HeaderLength(w.taken[..HEADER_SIZE]) == PREFIX_SIZE
    ensures |pieces| == |calls| && Begun(Whole(w)).Some?
    ensures Reads(true, Begun(Whole(w)).value, lengths) == Taken(pieces[|calls| - |lengths|..], true, w.rest)
  {
    var m, table := BeginPieces(w, calls, pieces, lengths);
    var header, data := w.taken[..HEADER_SIZE], Concat(pieces[m..]);
    assert pieces[..m] + pieces[m..] == pieces;
    ConcatParts(pieces[..m], pieces[m..]);
    assert Whole(w) == header + (pieces[0] + table + (data + w.rest));
    PreambleIn(header, pieces[0], table, data + w.rest);
    forall k | 0 <= k < |pieces[m..]| ensures |pieces[m..][k]| == lengths[k] {
      assert PieceFits(w, calls[m + k], pieces, m + k);
    }
    ReadsOfPieces(pieces[m..], w.rest, lengths);
  }

  // ----- sessions

  /** The consumer is reading from listener i, or has read from it and not replied yet. */
  ghost predicate InSession(x: Carried, i: nat) {
    && i < |x.s.listeners| && i < |x.wires|
    && match RoleOf(x.s.consumer, i)
       case Free => false
       case Asked(request) => !request.FinalReply?
       case _ => true
  }

  /** Nothing arrives at listener i, and the consumer does not finish with it. */
  predicate Quiet(e: Event, i: nat) {
    !(e.Arrives? && e.i == i) && !e.Replies?
  }

  ghost predicate AllQuiet(es: seq<(Event, seq<byte>)>, i: nat) {
    forall k :: 0 <= k < |es| ==> Quiet(es[k].0, i)
  }

  lemma {:induction false} SessionKept(x: Carried, e: Event, b: seq<byte>, i: nat)
    requires Good(x) && CanDo(x, e, b) && InSession(x, i) && Quiet(e, i)
    ensures InSession(Do(x, e, b), i) && Whole(Do(x, e, b).wires[i]) == Whole(x.wires[i])
  {
    assert ListenerFits(x.s, i);
    var l, w := x.s.listeners[i], x.wires[i];
    if e == Listens(i) && IntoBuffer(l) {
      assert w.taken + Piece(l, w) + w.rest[|Piece(l, w)|..] == w.taken + w.rest;
    }
  }

  lemma {:induction false} SessionRun(x: Carried, es: seq<(Event, seq<byte>)>, y: Carried, i: nat)
    requires Good(x) && ByteRun(x, es, y) && InSession(x, i) && AllQuiet(es, i)
    ensures Good(y) && InSession(y, i) && Whole(y.wires[i]) == Whole(x.wires[i])
    decreases |es|
  {
    if es == [] {
    } else {
      assert Quiet(es[0].0, i);
      SessionKept(x, es[0].0, es[0].1, i);
      GoodKept(x, es[0].0, es[0].1);
      assert forall k :: 0 <= k < |es[1..]| ==> es[1..][k] == es[k + 1];
      SessionRun(Do(x, es[0].0, es[0].1), es[1..], y, i);
    }
  }

  // ----- the calls come back

  /** Requests of these lengths can be received one after the other when m bytes are there. */
  predicate Receivable(m: int, lengths: seq<nat>)
    decreases |lengths|
  {
    lengths == [] || (m >= 0 && CanReceive(m, lengths[0]) && Receivable(m - lengths[0], lengths[1..]))
  }

  lemma {:induction false} RunOn(x: Carried, es: seq<(Event, seq<byte>)>, y: Carried, fs: seq<(Event, seq<byte>)>, z: Carried)
    requires ByteRun(x, es, y) && ByteRun(y, fs, z)
    ensures ByteRun(x, es + fs, z)
    decreases |es|
  {
    if es == [] {
      assert es + fs == fs;
    } else {
      var e, b, later := es[0].0, es[0].1, es[1..];
      RunOn(Do(x, e, b), later, y, fs, z);
      assert (es + fs)[1..] == later + fs && (es + fs)[0] == es[0];
    }
  }

  /** Steps of listener i bring no bytes and make no calls. */
  lemma {:induction false} WithBytes(x: Carried, es: seq<Event>, t: State, i: nat)
    returns (fs: seq<(Event, seq<byte>)>, y: Carried)
    requires Good(x) && Run(x.s, es, t) && forall e :: e in es ==> e == Listens(i)
    ensures ByteRun(x, fs, y) && AllQuiet(fs, i) && y.s == t && y.calls == x.calls && Good(y)
    decreases |es|
  {
    fs, y := [], x;
    if es == [] {
    } else {
      assert es[0] in es;
      GoodKept(x, es[0], []);
      assert forall e :: e in es[1..] ==> e in es;
      fs, y := WithBytes(Do(x, es[0], []), es[1..], t, i);
      var first: (Event, seq<byte>) := (es[0], []);
      assert ([first] + fs)[1..] == fs;
      fs := [first] + fs;
    }
  }

  /** A consumer whose listener has the bytes it needs gets what it has asked for. */
  lemma {:induction false} CallReturns(x: Carried, i: nat) returns (es: seq<(Event, seq<byte>)>, y: Carried)
    requires Good(x) && (x.s.consumer == Reading(i) || x.s.consumer == Asking(i, ReceiveMore)) && HasSupply(x.s)
    ensures ByteRun(x, es, y) && AllQuiet(es, i) && Good(y)
    ensures y.s.consumer == Serving(i, false) && y.calls == x.calls
  {
    var fs, t := LetGo(x.s);
    var e := Resumes(x.s.consumer);
    es, y := WithBytes(x, fs, t, i);
    GoodKept(y, e, []);
    var z := Do(y, e, []);
    var last: seq<(Event, seq<byte>)> := [(e, [])];
    assert last[1..] == [];
    assert ByteRun(z, [], z) && ByteRun(y, last, z);
    RunOn(x, es, y, last, z);
    es, y := es + last, z;
  }

  lemma {:induction false} TotalOneMore(calls: seq<nat>, n: nat)
    ensures Total(calls + [n]) == Total(calls) + n
    decreases |calls|
  {
    if calls == [] {
      assert calls + [n] == [n] && [n][1..] == [];
    } else {
      assert (calls + [n])[1..] == calls[1..] + [n];
      TotalOneMore(calls[1..], n);
    }
  }

  lemma {:induction false} ConcatLength(pieces: seq<seq<byte>>, calls: seq<nat>)
    requires |calls| == |pieces| && forall k :: 0 <= k < |pieces| ==> |pieces[k]| == calls[k]
    ensures |Concat(pieces)| == Total(calls)
    decreases |pieces|
  {
    if pieces == [] {
    } else {
      var n := |pieces| - 1;
      ConcatLength(pieces[..n], calls[..n]);
      TotalOneMore(calls[..n], calls[n]);
      assert calls[..n] + [calls[n]] == calls;
    }
  }

  /** As much is taken as was asked for. */
  lemma {:induction false} TakenLength(w: Wire, calls: seq<nat>, pieces: seq<seq<byte>>)
    requires Told(w, calls, pieces)
    ensures |w.rest| == |Whole(w)| - HEADER_SIZE - Within(HeaderLength(Whole(w)[..HEADER_SIZE]), calls[0]) - Total(calls[1..])
  {
    assert Whole(w)[..HEADER_SIZE] == w.taken[..HEADER_SIZE];
    ConcatFront(pieces[0], pieces[1..]);
    assert [pieces[0]] + pieces[1..] == pieces;
    forall k | 0 <= k < |pieces[1..]| ensures |pieces[1..][k]| == calls[1..][k] {
      assert PieceFits(w, calls[k + 1], pieces, k + 1);
    }
    ConcatLength(pieces[1..], calls[1..]);
  }

  lemma {:induction false} OneCallMore(w: Wire, w': Wire, calls: seq<nat>, pieces: seq<seq<byte>>, n: nat,
                                       pieces': seq<seq<byte>>)
    requires Told(w, calls, pieces) && Told(w', calls + [n], pieces') && Whole(w') == Whole(w)
    ensures |w'.rest| == |w.rest| - n
  {
    TakenLength(w, calls, pieces);
    TakenLength(w', calls + [n], pieces');
    TotalOneMore(calls[1..], n);
    assert (calls + [n])[1..] == calls[1..] + [n];
  }

  /** One request for more, with the bytes for it there. */
  lemma {:induction false} MoreReturns(x: Carried, i: nat, n: nat) returns (es: seq<(Event, seq<byte>)>, y: Carried)
    requires Good(x) && x.s.consumer == Serving(i, false) && InSession(x, i) && CanReceive(|x.wires[i].rest|, n)
    ensures ByteRun(x, es, y) && AllQuiet(es, i) && Good(y) && InSession(y, i)
    ensures y.s.consumer == Serving(i, false) && y.calls == x.calls + [n]
    ensures |y.wires[i].rest| == |x.wires[i].rest| - n
  {
    assert ListenerFits(x.s, i) && WireAt(x, i);
    var e := AsksMore(n);
    GoodKept(x, e, []);
    var x1 := Do(x, e, []);
    var fs, z := CallReturns(x1, i);
    var first: (Event, seq<byte>) := (e, []);
    es, y := [first] + fs, z;
    assert es[1..] == fs;
    assert AllQuiet(es, i);
    SessionRun(x, es, y, i);
    assert WireAt(y, i);
    OneCallMore(x.wires[i], y.wires[i], x.calls, x.pieces, n, y.pieces);
  }

  lemma {:induction false} AllReturn(x: Carried, i: nat, ns: seq<nat>) returns (es: seq<(Event, seq<byte>)>, y: Carried)
    requires Good(x) && x.s.consumer == Serving(i, false) && InSession(x, i) && Receivable(|x.wires[i].rest|, ns)
    ensures ByteRun(x, es, y) && AllQuiet(es, i) && Good(y)
    ensures y.s.consumer == Serving(i, false) && y.calls == x.calls + ns
    decreases |ns|
  {
    es, y := [], x;
    if ns == [] {
    } else {
      var fs, z := MoreReturns(x, i, ns[0]);
      es, y := AllReturn(z, i, ns[1..]);
      RunOn(x, fs, z, es, y);
      es := fs + es;
    }
  }

  lemma {:induction false} ReadsReceivable(body: seq<byte>, lengths: seq<nat>)
    requires forall k :: 0 <= k < |lengths| ==> lengths[k] > 0
    requires |Reads(true, body, lengths).pieces| >= |lengths|
    ensures Receivable(|body|, lengths)
    decreases |lengths|
  {
    if lengths == [] {
    } else {
      ReadsReceivable(body[lengths[0]..], lengths[1..]);
    }
  }

  // ----- a message begun and read by way of the rendezvous

  /** Without anything arriving at listener i the consumer has begun its message and read on. */
  ghost predicate ReadBy(x: Carried, es: seq<(Event, seq<byte>)>, y: Carried, i: nat, lengths: seq<nat>) {
    ByteRun(x, es, y) && AllQuiet(es, i) && y.s.consumer == Serving(i, false) && BegunAndRead(y.calls, y.pieces, lengths)
  }

  /** Listener i has read the header of a message of blocks. */
  ghost predicate AtMessage(x: Carried, i: nat) {
    && i < |x.wires| && |x.wires[i].taken| >= HEADER_SIZE
    && HeaderLength(x.wires[i].taken[..HEADER_SIZE]) == PREFIX_SIZE
  }

  lemma {:induction false} ReadAsFramed(x: Carried, es: seq<(Event, seq<byte>)>, y: Carried, i: nat, lengths: seq<nat>)
    requires Good(x) && x.s.consumer == Reading(i) && AtMessage(x, i) && ReadBy(x, es, y, i, lengths)
    ensures var s := Whole(x.wires[i]);
      && i < |y.wires| && |y.pieces| == |y.calls| >= |lengths| && Begun(s).Some?
      && Reads(true, Begun(s).value, lengths) == Taken(y.pieces[|y.calls| - |lengths|..], true, y.wires[i].rest)
  {
    assert ListenerFits(x.s, i);
    SessionRun(x, es, y, i);
    assert WireAt(y, i);
    assert x.wires[i].taken[..HEADER_SIZE] == Whole(x.wires[i])[..HEADER_SIZE] == y.wires[i].taken[..HEADER_SIZE];
    AsFramed(y.wires[i], y.calls, y.pieces, lengths);
  }

  lemma {:induction false} BegunReceivable(s: seq<byte>, prefix: seq<byte>, lengths: seq<nat>)
    requires |s| >= HEADER_SIZE + PREFIX_SIZE && s[HEADER_SIZE..HEADER_SIZE + PREFIX_SIZE] == prefix
    requires OneMessage(s, lengths).0.Some? && forall k :: 0 <= k < |lengths| ==> lengths[k] > 0
    ensures Receivable(|s| - HEADER_SIZE - PREFIX_SIZE, BeginCalls(prefix)[1..] + lengths)
  {
    var body, m := Begun(s).value, |s| - HEADER_SIZE - PREFIX_SIZE;
    var table := TableLength(prefix);
    ReadsReceivable(body, lengths);
    assert |body| == m - table;
    assert ([0] + lengths)[1..] == lengths;
    assert Receivable(|body|, [0] + lengths);
    if FromInt32(prefix[2..6]) < 0 {
      assert ([table, 0] + lengths)[1..] == [0] + lengths;
      assert BeginCalls(prefix)[1..] == [table, 0];
    } else {
      assert BeginCalls(prefix)[1..] == [0];
    }
  }

  lemma {:induction false} PrefixIn(w: Wire, calls: seq<nat>, pieces: seq<seq<byte>>)
    requires Told(w, calls, pieces) && calls[0] == PREFIX_SIZE && HeaderLength(w.taken[..HEADER_SIZE]) == PREFIX_SIZE
    ensures |Whole(w)| >= HEADER_SIZE + PREFIX_SIZE && Whole(w)[HEADER_SIZE..HEADER_SIZE + PREFIX_SIZE] == pieces[0]
    ensures calls == [PREFIX_SIZE] ==> |w.rest| == |Whole(w)| - HEADER_SIZE - PREFIX_SIZE
  {
    ConcatFront(pieces[0], pieces[1..]);
    assert [pieces[0]] + pieces[1..] == pieces;
    assert Whole(w) == w.taken[..HEADER_SIZE] + (pieces[0] + (Concat(pieces[1..]) + w.rest));
    if calls == [PREFIX_SIZE] { assert Concat(pieces[1..]) == []; }
  }

  /** The read of a prefix comes back when the prefix is there. */
  lemma {:induction false} PrefixReturns(x: Carried, i: nat) returns (es: seq<(Event, seq<byte>)>, y: Carried)
    requires Good(x) && x.s.consumer == Reading(i) && AtMessage(x, i) && x.calls == [PREFIX_SIZE]
    requires |Whole(x.wires[i])| >= HEADER_SIZE + PREFIX_SIZE
    ensures ByteRun(x, es, y) && AllQuiet(es, i) && Good(y)
    ensures y.s.consumer == Serving(i, false) && y.calls == x.calls && InSession(y, i)
    ensures |y.wires[i].rest| == |Whole(x.wires[i])| - HEADER_SIZE - PREFIX_SIZE
  {
    assert ListenerFits(x.s, i) && WireAt(x, i);
    es, y := CallReturns(x, i);
    ReadsPrefix(x, es, y, i);
  }

  /** The consumer has been given the prefix that is in the stream. */
  lemma {:induction false} ReadsPrefix(x: Carried, es: seq<(Event, seq<byte>)>, y: Carried, i: nat)
    requires Good(x) && InSession(x, i) && AtMessage(x, i) && ByteRun(x, es, y) && AllQuiet(es, i)
    requires y.s.consumer == Serving(i, false) && y.calls != [] && y.calls[0] == PREFIX_SIZE
    ensures var s := Whole(x.wires[i]);
      && InSession(y, i) && |s| >= HEADER_SIZE + PREFIX_SIZE && y.pieces != []
      && s[HEADER_SIZE..HEADER_SIZE + PREFIX_SIZE] == y.pieces[0]
      && (y.calls == [PREFIX_SIZE] ==> |y.wires[i].rest| == |s| - HEADER_SIZE - PREFIX_SIZE)
  {
    SessionRun(x, es, y, i);
    assert ListenerFits(x.s, i) && WireAt(y, i);
    assert x.wires[i].taken[..HEADER_SIZE] == Whole(x.wires[i])[..HEADER_SIZE] == y.wires[i].taken[..HEADER_SIZE];
    PrefixIn(y.wires[i], y.calls, y.pieces);
  }

  /** The read of a prefix and the requests after it come back. */
  lemma {:induction false} CallsReturn(x: Carried, i: nat, ns: seq<nat>) returns (es: seq<(Event, seq<byte>)>, y: Carried)
    requires Good(x) && x.s.consumer == Reading(i) && AtMessage(x, i) && x.calls == [PREFIX_SIZE]
    requires |Whole(x.wires[i])| >= HEADER_SIZE + PREFIX_SIZE
    requires Receivable(|Whole(x.wires[i])| - HEADER_SIZE - PREFIX_SIZE, ns)
    ensures ByteRun(x, es, y) && AllQuiet(es, i)
    ensures y.s.consumer == Serving(i, false) && y.calls == [PREFIX_SIZE] + ns
  {
    var fs, z := PrefixReturns(x, i);
    es, y := AllReturn(z, i, ns);
    RunOn(x, fs, z, es, y);
    es := fs + es;
  }

  lemma {:induction false} ReadWhenFramed(x: Carried, i: nat, lengths: seq<nat>) returns (es: seq<(Event, seq<byte>)>, y: Carried)
    requires Good(x) && x.s.consumer == Reading(i) && AtMessage(x, i) && x.calls == [PREFIX_SIZE]
    requires OneMessage(Whole(x.wires[i]), lengths).0.Some? && forall k :: 0 <= k < |lengths| ==> lengths[k] > 0
    ensures ReadBy(x, es, y, i, lengths)
  {
    var s := Whole(x.wires[i]);
    var prefix := s[HEADER_SIZE..HEADER_SIZE + PREFIX_SIZE];
    BegunReceivable(s, prefix, lengths);
    es, y := CallsReturn(x, i, BeginCalls(prefix)[1..] + lengths);
    assert y.calls == BeginCalls(prefix) + lengths;
    ReadsPrefix(x, es, y, i);
  }

  /**
   * When listener i has a message for the consumer, beginning it and reading bytes of the given
   * lengths comes back, without more arriving, if and only if the framing of the stream says so.
   * What comes is what the framing says, whatever happens at the other listeners meanwhile.
   */
  lemma {:induction false} ReadIffFramed(acks: seq<bool>, x: Carried, i: nat, lengths: seq<nat>)
    requires ByteReachable(acks, x) && x.s.consumer == Reading(i) && AtMessage(x, i) && x.calls == [PREFIX_SIZE]
    requires forall k :: 0 <= k < |lengths| ==> lengths[k] > 0
    ensures (exists es, y :: ReadBy(x, es, y, i, lengths)) <==> OneMessage(Whole(x.wires[i]), lengths).0.Some?
    ensures forall es, y :: ReadBy(x, es, y, i, lengths) ==>
      var s := Whole(x.wires[i]);
      && i < |y.wires| && |y.pieces| == |y.calls| >= |lengths| && Begun(s).Some?
      && Reads(true, Begun(s).value, lengths) == Taken(y.pieces[|y.calls| - |lengths|..], true, y.wires[i].rest)
  {
    ReachableIsGood(acks, x);
    forall es, y | ReadBy(x, es, y, i, lengths)
      ensures var s := Whole(x.wires[i]);
        && i < |y.wires| && |y.pieces| == |y.calls| >= |lengths| && Begun(s).Some?
        && Reads(true, Begun(s).value, lengths) == Taken(y.pieces[|y.calls| - |lengths|..], true, y.wires[i].rest)
    {
      ReadAsFramed(x, es, y, i, lengths);
    }
    if OneMessage(Whole(x.wires[i]), lengths).0.Some? {
      var es, y := ReadWhenFramed(x, i, lengths);
      assert ReadBy(x, es, y, i, lengths);
    }
  }

  /** Whenever a message has been begun and read on, the consumer has what the framing of the stream says. */
  lemma {:induction false} ObtainsAsFramed(acks: seq<bool>, x: Carried, i: nat, lengths: seq<nat>)
    requires ByteReachable(acks, x) && x.s.consumer == Serving(i, false) && AtMessage(x, i)
    requires BegunAndRead(x.calls, x.pieces, lengths)
    ensures var s := Whole(x.wires[i]);
      && |x.pieces| == |x.calls| && Begun(s).Some?
      && Reads(true, Begun(s).value, lengths) == Taken(x.pieces[|x.calls| - |lengths|..], true, x.wires[i].rest)
  {
    ReachableIsGood(acks, x);
    assert WireAt(x, i);
    AsFramed(x.wires[i], x.calls, x.pieces, lengths);
  }

  /**
   * A message that was sent is obtained exactly if it is not empty or more has come after it,
   * and then as the concatenation of its blocks.
   */
  lemma {:induction false} MessageObtained(acks: seq<bool>, x: Carried, i: nat, m: Message, later: seq<byte>, lengths: seq<nat>)
    requires ByteReachable(acks, x) && x.s.consumer == Reading(i) && AtMessage(x, i) && x.calls == [PREFIX_SIZE]
    requires Sendable(m.blocks, m.replies) && Whole(x.wires[i]) == Frame(m.blocks, m.replies) + later
    requires Total(lengths) == |Concat(m.blocks)| && forall k :: 0 <= k < |lengths| ==> lengths[k] > 0
    ensures (exists es, y :: ReadBy(x, es, y, i, lengths)) <==> Concat(m.blocks) != [] || later != []
    ensures forall es, y :: ReadBy(x, es, y, i, lengths) ==>
      && i < |y.wires| && |y.pieces| == |y.calls| >= |lengths| && y.wires[i].rest == later
      && Concat(y.pieces[|y.calls| - |lengths|..]) == Concat(m.blocks)
  {
    ReadIffFramed(acks, x, i, lengths);
    BegunIff(m.blocks, m.replies, later);
    ReadsReturnAll(Concat(m.blocks), later, lengths);
  }
}
