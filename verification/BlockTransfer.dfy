/** The sender that collects blocks and the receiver that hands out bytes, over one connection. */
module BlockTransfer {
  import opened Options
  import opened Bytes
  import opened Sequences
  import opened Framing

  /** A connection: what the sender has sent, what the receiver has answered, not received yet. */
  class Connection {
    const ack: bool
    var pending: seq<byte>
    var answers: seq<byte>

    constructor (requireAck: bool)
      ensures ack == requireAck && pending == [] && answers == []
    {
      ack := requireAck;
      pending, answers := [], [];
    }

    method Send(b: seq<byte>)
      modifies this`pending
      ensures pending == old(pending) + b
    {
      pending := pending + b;
    }

    /** Receives exactly n bytes. */
    method Receive(n: nat) returns (b: seq<byte>)
      requires n <= |pending|
      modifies this`pending
      ensures b == old(pending)[..n] && pending == old(pending)[n..]
    {
      b := pending[..n];
      pending := pending[n..];
    }

    /** One part of an answer; it only goes out with acknowledgments. */
    method Answer(b: Block)
      modifies this`answers
      ensures answers == old(answers) + if ack then ReplyPart(b) else []
    {
      if ack { answers := answers + (Header(|b|) + b); }
    }

    /** The sender receives one part of an answer; without acknowledgments its buffer is zeroed instead. */
    method ReceiveAnswer(room: nat) returns (b: Option<seq<byte>>)
      modifies this`answers
      ensures ack ==> match ReadReplyPart(old(answers), room)
        case None => b == None
        case Some(part) => b == Some(part.0) && answers == part.1
      ensures !ack ==> b == Some(Zeros(room)) && answers == old(answers)
    {
      if !ack { return Some(Zeros(room)); }
      if |answers| < HEADER_SIZE || HeaderLength(answers[..HEADER_SIZE]) < 0 { return None; }
      var length := HeaderLength(answers[..HEADER_SIZE]);
      var n := if length < room then length else room;
      if |answers| < HEADER_SIZE + n { return None; }
      b := Some(answers[HEADER_SIZE..HEADER_SIZE + n]);
      answers := answers[HEADER_SIZE + n..];
    }
  }

  class BlockSender {
    var entries: seq<Block>
    var cursor: nat
    var pieces: nat
    var failed: bool

    ghost predicate Valid()
      reads this
    {
      cursor == pieces <= |entries|
    }

    /** The blocks collected since the last message went out. */
    ghost function Collected(): seq<Block>
      reads this
      requires Valid()
    {
      entries[..pieces]
    }

    constructor ()
      ensures Valid() && Collected() == []
    {
      entries, cursor, pieces, failed := [], 0, 0, false;
    }

    method Begin()
      modifies this
      ensures Valid() && Collected() == [] && !failed
    {
      cursor, pieces, failed := 0, 0, false;
    }

    method Add(b: Block)
      requires Valid()
      modifies this
      ensures Valid() && Collected() == old(Collected()) + [b] && failed == old(failed)
    {
      if cursor == |entries| {
        entries := entries + [b];
      } else {
        entries := entries[cursor := b];
      }
      pieces := pieces + 1;
      cursor := cursor + 1;
    }

    /** Sends what has been collected as one message, with room for a reply of one block. */
    method Fire(conn: Connection, room: Block)
      requires Valid() && |Collected()| + 1 <= MAX_BLOCKS
      modifies this, conn`pending
      ensures Valid() && Collected() == [] && failed == old(failed)
      ensures conn.pending == old(conn.pending) + if old(Collected()) == [] then [] else Frame(old(Collected()), [room])
    {
      if pieces > 0 {
        SendMessage(conn, entries[..pieces], [room]);
        pieces := 0;
      }
      cursor := 0;
    }

    /** The rest of Fire after a message: the two parts of the answer, which begins with a zero byte if all is well. */
    method ReceiveReply(conn: Connection, room: Block) returns (reply: Option<seq<byte>>)
      requires Valid()
      modifies this`failed, conn`answers
      ensures failed == (old(failed) || reply == None)
      ensures !conn.ack ==> reply == Some(Zeros(|room|)) && conn.answers == old(conn.answers)
      ensures conn.ack ==> match ReadReplyPart(old(conn.answers), 1)
        case None => reply == None
        case Some((first, rest)) =>
          if first != [0] then reply == None && conn.answers == rest
          else match ReadReplyPart(rest, |room|)
               case None => reply == None
               case Some((second, later)) => reply == Some(second) && conn.answers == later
      ensures conn.ack && |room| >= 3 && OkReply() <= old(conn.answers) ==>
        reply == Some([111, 107, 0]) && conn.answers == old(conn.answers)[|OkReply()|..]
    {
      ghost var before := conn.answers;
      if conn.ack && |room| >= 3 && OkReply() <= before {
        OkComesBack(before[|OkReply()|..], |room|);
        assert before == OkReply() + before[|OkReply()|..];
      }
      assert Zeros(1) == [0];
      reply := None;
      var first := conn.ReceiveAnswer(1);
      if first == Some([0]) {
        reply := conn.ReceiveAnswer(|room|);
      }
      if reply == None { failed := true; }
    }
  }

  method SendMessage(conn: Connection, blocks: seq<Block>, replies: seq<Block>)
    requires Sendable(blocks, replies)
    modifies conn`pending
    ensures conn.pending == old(conn.pending) + Frame(blocks, replies)
  {
    ghost var start := conn.pending;
    conn.Send(Header(PREFIX_SIZE));
    conn.Send(Prefix(|blocks|, |replies|));
    var lengths := LengthTable(blocks + replies);
    conn.Send(lengths);
    ghost var body := conn.pending;
    conn.Send(blocks[0]);
    ConcatUpTo(blocks, 0);
    for i := 1 to |blocks|
      invariant conn.pending == body + Concat(blocks[..i])
    {
      conn.Send(blocks[i]);
      ConcatUpTo(blocks, i);
      Associate(body, Concat(blocks[..i]), blocks[i]);
    }
    assert blocks[..|blocks|] == blocks;
    Grouped(start, Header(PREFIX_SIZE), Prefix(|blocks|, |replies|), lengths, Concat(blocks));
  }

  method LengthTable(blocks: seq<Block>) returns (b: seq<byte>)
    ensures b == Table(blocks)
  {
    b := [];
    for i := 0 to |blocks|
      invariant b == Table(blocks[..i])
    {
      b := b + Int32(|blocks[i]|);
      assert blocks[..i + 1][..i] == blocks[..i];
    }
    assert blocks[..|blocks|] == blocks;
  }

  /**
   * Takes the preamble of the next message off; the receive of no bytes at its end returns
   * once one more byte can be read. A call that has to wait has taken nothing yet.
   */
  method ReceivePreamble(conn: Connection) returns (returned: bool)
    modifies conn`pending
    ensures returned <==> Begun(old(conn.pending)).Some?
    ensures conn.pending == if returned then Begun(old(conn.pending)).value else old(conn.pending)
  {
    ghost var s := conn.pending;
    var all := conn.pending;
    if |all| < HEADER_SIZE + PREFIX_SIZE || HeaderLength(all[..HEADER_SIZE]) != PREFIX_SIZE { return false; }
    var prefix := all[HEADER_SIZE..HEADER_SIZE + PREFIX_SIZE];
    var table := 0;
    if FromInt32(prefix[2..6]) < 0 {
      table := 4 * (prefix[0] as int + prefix[1] as int);
    }
    if |all| <= HEADER_SIZE + PREFIX_SIZE + table { return false; }
    var _ := conn.Receive(HEADER_SIZE + PREFIX_SIZE + table);
    returned := true;
  }

  class BlockReceiver {
    var valid: bool
    var hasMessage: bool
    var offset: nat
    var replyPending: bool
    var failed: bool

    constructor ()
      ensures !valid && !hasMessage && !replyPending && !failed
    {
      valid, hasMessage, offset, replyPending, failed := false, false, 0, false, false;
    }

    method Begin()
      modifies this
      ensures valid && !hasMessage && offset == 0 && !replyPending && !failed
    {
      valid, hasMessage, offset, replyPending, failed := true, false, 0, false, false;
    }

    /** Waits for the next message unless there is one already. */
    method Get(conn: Connection) returns (returned: bool)
      modifies this, conn`pending
      ensures failed == old(failed)
      ensures returned <==> old(hasMessage || failed) || Begun(old(conn.pending)).Some?
      ensures hasMessage == (old(hasMessage) || (!old(failed) && returned))
      ensures hasMessage && !old(hasMessage) ==>
        valid && replyPending && offset == 0 && conn.pending == Begun(old(conn.pending)).value
      ensures hasMessage == old(hasMessage) ==>
        conn.pending == old(conn.pending) && valid == old(valid) && replyPending == old(replyPending) && offset == old(offset)
    {
      returned := true;
      if !hasMessage && !failed {
        returned := ReceivePreamble(conn);
        if returned {
          valid, hasMessage, offset, replyPending := true, true, 0, true;
        }
      }
    }

    /** Receives the next length bytes of the message, waiting for it first if it has not begun. */
    method GetBytes(conn: Connection, length: nat) returns (data: Option<seq<byte>>)
      requires valid && !failed
      modifies this, conn`pending
      ensures valid && !failed && replyPending == (old(replyPending) || (hasMessage && !old(hasMessage)))
      ensures Reception(hasMessage, conn.pending, data) == Received(old(hasMessage), old(conn.pending), length)
    {
      if length == 0 { return Some([]); }
      var returned := Get(conn);
      if !returned || |conn.pending| < length { return None; }
      var bytes := conn.Receive(length);
      offset := offset + length;
      data := Some(bytes);
    }

    /** Ends the message, with an answer if it has not been answered. */
    method End(conn: Connection)
      modifies this`replyPending, conn`answers
      ensures !replyPending
      ensures conn.answers == old(conn.answers) + if old(replyPending) && valid && conn.ack then OkReply() else []
    {
      if replyPending {
        if valid {
          conn.Answer([0]);
          conn.Answer([111, 107, 0]);
        }
        replyPending := false;
      }
    }

    /** Reads of the given lengths, up to one that has to wait. */
    method GetPieces(conn: Connection, lengths: seq<nat>) returns (pieces: seq<seq<byte>>)
      requires valid && !failed
      modifies this, conn`pending
      ensures valid && !failed && (old(replyPending) ==> replyPending)
      ensures Taken(pieces, hasMessage, conn.pending) == Reads(old(hasMessage), old(conn.pending), lengths)
      decreases |lengths|
    {
      if lengths == [] { return []; }
      var first := GetBytes(conn, lengths[0]);
      if first == None { return []; }
      var later := GetPieces(conn, lengths[1..]);
      pieces := [first.value] + later;
    }
  }

  // ----- a receiver reading whole messages

  /** As the port does: waits for the message, reads its bytes, and ends it, unless a call has to wait. */
  method ReceiveMessage(receiver: BlockReceiver, conn: Connection, lengths: seq<nat>) returns (content: Option<seq<byte>>)
    modifies receiver, conn`pending, conn`answers
    ensures (content, conn.pending) == OneMessage(old(conn.pending), lengths)
    ensures conn.answers == old(conn.answers) + if content.Some? && conn.ack then OkReply() else []
  {
    receiver.Begin();
    var returned := receiver.Get(conn);
    if !returned { return None; }
    var pieces := receiver.GetPieces(conn, lengths);
    if |pieces| < |lengths| { return None; }
    receiver.End(conn);
    content := Some(Concat(pieces));
  }

  /** Message after message, up to a call that has to wait. */
  method ReceiveAll(receiver: BlockReceiver, conn: Connection, lengths: seq<seq<nat>>) returns (contents: seq<seq<byte>>)
    modifies receiver, conn`pending, conn`answers
    ensures (contents, conn.pending) == ReadAll(old(conn.pending), lengths)
    decreases |lengths|
  {
    if lengths == [] { return []; }
    var first := ReceiveMessage(receiver, conn, lengths[0]);
    if first == None { return []; }
    var later := ReceiveAll(receiver, conn, lengths[1..]);
    contents := [first.value] + later;
  }

  /** The blocks of a message are added one by one and fired. */
  method FireMessage(sender: BlockSender, conn: Connection, blocks: seq<Block>, room: Block)
    requires sender.Valid() && Sendable(blocks, [room])
    modifies sender, conn`pending
    ensures sender.Valid() && !sender.failed && conn.pending == old(conn.pending) + Frame(blocks, [room])
  {
    sender.Begin();
    for i := 0 to |blocks|
      invariant sender.Valid() && !sender.failed && sender.Collected() == blocks[..i] && conn.pending == old(conn.pending)
    {
      sender.Add(blocks[i]);
    }
    assert blocks[..|blocks|] == blocks;
    sender.Fire(conn, room);
  }

  /** The room for the reply is one block. */
  ghost predicate SingleReplies(messages: seq<Message>) {
    forall k :: 0 <= k < |messages| ==> |messages[k].replies| == 1
  }

  lemma {:induction false} SingleLater(messages: seq<Message>)
    requires messages != [] && AllSendable(messages) && SingleReplies(messages)
    ensures AllSendable(messages[1..]) && SingleReplies(messages[1..])
    ensures messages[0].replies == [messages[0].replies[0]]
    ensures Stream(messages) == Frame(messages[0].blocks, [messages[0].replies[0]]) + Stream(messages[1..])
  {
    assert messages[0].replies == [messages[0].replies[0]];
  }

  /** Without acknowledgments messages can be sent ahead of the receiver. */
  method FireAll(sender: BlockSender, conn: Connection, messages: seq<Message>)
    requires sender.Valid() && AllSendable(messages) && SingleReplies(messages)
    modifies sender, conn`pending
    ensures sender.Valid() && conn.pending == old(conn.pending) + Stream(messages)
    decreases |messages|
  {
    if messages != [] {
      SingleLater(messages);
      FireMessage(sender, conn, messages[0].blocks, messages[0].replies[0]);
      FireAll(sender, conn, messages[1..]);
    }
  }

  /**
   * Any messages added and fired one after the other are received as the concatenations of
   * their blocks, but for the last if it is empty: the receiver then waits for it.
   */
  method SendAndReceive(messages: seq<Message>, lengths: seq<seq<nat>>) returns (contents: seq<seq<byte>>)
    requires AllSendable(messages) && SingleReplies(messages) && AddUp(messages, lengths)
    ensures contents == Contents(Arriving(messages, []))
  {
    var conn := new Connection(false);
    var sender := new BlockSender();
    var receiver := new BlockReceiver();
    FireAll(sender, conn, messages);
    assert conn.pending == Stream(messages) + [];
    contents := ReceiveAll(receiver, conn, lengths);
    MessagesComeBack(messages, lengths, []);
  }

  /**
   * With acknowledgments the sender waits for the answer to each message. One message comes
   * back, and its answer with it, if and only if it is not empty.
   */
  method SendAndAnswer(conn: Connection, sender: BlockSender, receiver: BlockReceiver, blocks: seq<Block>, room: Block,
                       lengths: seq<nat>)
    returns (content: Option<seq<byte>>, reply: Option<seq<byte>>)
    requires conn.ack && conn.pending == [] && conn.answers == [] && sender.Valid()
    requires Sendable(blocks, [room]) && |room| >= 3 && Total(lengths) == |Concat(blocks)|
    modifies sender, receiver, conn`pending, conn`answers
    ensures content == if Concat(blocks) == [] then None else Some(Concat(blocks))
    ensures content.Some? ==> reply == Some([111, 107, 0]) && !sender.failed && conn.pending == [] && conn.answers == []
  {
    FireMessage(sender, conn, blocks, room);
    assert conn.pending == Frame(blocks, [room]) + [];
    BegunIff(blocks, [room], []);
    ReadsReturnAll(Concat(blocks), [], lengths);
    content := ReceiveMessage(receiver, conn, lengths);
    reply := None;
    if content.Some? {
      assert conn.answers == OkReply();
      reply := sender.ReceiveReply(conn, room);
    }
  }

  /** Reads without waiting for the message first: what they leave is what Reads says. */
  method ReadAlone(receiver: BlockReceiver, conn: Connection, lengths: seq<nat>) returns (pieces: seq<seq<byte>>)
    modifies receiver, conn`pending
    ensures pieces == Reads(false, old(conn.pending), lengths).pieces
    ensures conn.pending == Reads(false, old(conn.pending), lengths).rest
  {
    receiver.Begin();
    pieces := receiver.GetPieces(conn, lengths);
  }
}
