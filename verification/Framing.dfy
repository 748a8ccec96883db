/**
 * How a message made of blocks travels over a reliable stream of bytes: a header, a prefix
 * with the number of blocks, a table of their lengths, and the blocks one after the other.
 */
module Framing {
  import opened Options
  import opened Bytes
  import opened Sequences

  /** Signed 32-bit numbers, low byte first. */
  predicate Fits32(n: int) {
    -0x8000_0000 <= n < 0x8000_0000
  }

  /** The n lowest bytes, low byte first. */
  function LowBytes(u: nat, n: nat): (b: seq<byte>)
    ensures |b| == n
  {
    if n == 0 then [] else [u % 0x100] + LowBytes(u / 0x100, n - 1)
  }

  function NumberOf(b: seq<byte>): nat {
    if b == [] then 0 else b[0] + 0x100 * NumberOf(b[1..])
  }

  function Limit(n: nat): nat {
    if n == 0 then 1 else 0x100 * Limit(n - 1)
  }

  lemma {:induction false} LowBytesRoundTrip(u: nat, n: nat)
    requires u < Limit(n)
    ensures NumberOf(LowBytes(u, n)) == u
  {
    if n == 0 {
    } else {
      LowBytesRoundTrip(u / 0x100, n - 1);
      assert LowBytes(u, n)[1..] == LowBytes(u / 0x100, n - 1);
    }
  }

  function Int32(n: int): (b: seq<byte>)
    requires Fits32(n)
    ensures |b| == 4
  {
    LowBytes(if n < 0 then n + 0x1_0000_0000 else n, 4)
  }

  function FromInt32(b: seq<byte>): int
    requires |b| == 4
  {
    var u := NumberOf(b);
    if u >= 0x8000_0000 then u - 0x1_0000_0000 else u
  }

  lemma {:induction false} Int32RoundTrip(n: int)
    requires Fits32(n)
    ensures FromInt32(Int32(n)) == n
  {
    assert Limit(4) == 0x1_0000_0000;
    LowBytesRoundTrip(if n < 0 then n + 0x1_0000_0000 else n, 4);
  }

  // ----- headers

  const HEADER_SIZE := 8
  const PREFIX_SIZE := 10

  /** The letters YA and RP around the length. */
  function Header(length: int): (b: seq<byte>)
    requires Fits32(length)
    ensures |b| == HEADER_SIZE
  {
    [89, 65] + Int32(length) + [82, 80]
  }

  /** The length in a header, or -1 when its letters are wrong. */
  function HeaderLength(b: seq<byte>): int
    requires |b| == HEADER_SIZE
  {
    if b[0] == 89 && b[1] == 65 && b[6] == 82 && b[7] == 80 then FromInt32(b[2..6]) else -1
  }

  lemma {:induction false} HeaderRoundTrip(length: int)
    requires Fits32(length)
    ensures HeaderLength(Header(length)) == length
  {
    assert Header(length)[2..6] == Int32(length);
    Int32RoundTrip(length);
  }

  /** A prefix saying that a table of lengths follows. */
  function Prefix(blocks: nat, replies: nat): (b: seq<byte>)
    requires blocks < 256 && replies < 256
    ensures |b| == PREFIX_SIZE
  {
    [blocks, replies] + Int32(-1) + Int32(-1)
  }

  // ----- messages

  type Block = b: seq<byte> | Fits32(|b|) witness []

  function Concat(blocks: seq<seq<byte>>): seq<byte> {
    if blocks == [] then [] else Concat(blocks[..|blocks| - 1]) + blocks[|blocks| - 1]
  }

  lemma {:induction false} ConcatUpTo(blocks: seq<seq<byte>>, n: nat)
    requires n < |blocks|
    ensures Concat(blocks[..n + 1]) == Concat(blocks[..n]) + blocks[n]
    ensures n == 0 ==> Concat(blocks[..n + 1]) == blocks[n]
  {
    assert blocks[..n + 1][..n] == blocks[..n];
  }

  function Table(blocks: seq<Block>): (b: seq<byte>)
    ensures |b| == 4 * |blocks|
  {
    if blocks == [] then [] else Table(blocks[..|blocks| - 1]) + Int32(|blocks[|blocks| - 1]|)
  }

  const MAX_BLOCKS := 64

  /** The blocks to send and the room for the blocks of the reply are at most 64 together. */
  predicate Sendable(blocks: seq<Block>, replies: seq<Block>) {
    |blocks| >= 1 && |replies| >= 1 && |blocks| + |replies| <= MAX_BLOCKS
  }

  function Preamble(blocks: seq<Block>, replies: seq<Block>): seq<byte>
    requires Sendable(blocks, replies)
  {
    Header(PREFIX_SIZE) + Prefix(|blocks|, |replies|) + Table(blocks + replies)
  }

  function Frame(blocks: seq<Block>, replies: seq<Block>): seq<byte>
    requires Sendable(blocks, replies)
  {
    Preamble(blocks, replies) + Concat(blocks)
  }

  // ----- receiving

  /** What follows the next message's header, prefix and table, if they are all there. */
  function AfterPreamble(s: seq<byte>): Option<seq<byte>> {
    if |s| < HEADER_SIZE || HeaderLength(s[..HEADER_SIZE]) != PREFIX_SIZE || |s| < HEADER_SIZE + PREFIX_SIZE then None
    else
      var prefix := s[HEADER_SIZE..HEADER_SIZE + PREFIX_SIZE];
      var table := if FromInt32(prefix[2..6]) < 0 then 4 * (prefix[0] as int + prefix[1] as int) else 0;
      if |s| < HEADER_SIZE + PREFIX_SIZE + table then None else Some(s[HEADER_SIZE + PREFIX_SIZE + table..])
  }

  /** The preamble is taken off exactly, whatever comes after it. */
  lemma {:induction false} PreambleTakenOff(blocks: seq<Block>, replies: seq<Block>, rest: seq<byte>)
    requires Sendable(blocks, replies)
    ensures AfterPreamble(Preamble(blocks, replies) + rest) == Some(rest)
  {
    var s, prefix, table := Preamble(blocks, replies) + rest, Prefix(|blocks|, |replies|), Table(blocks + replies);
    HeaderRoundTrip(PREFIX_SIZE);
    assert s[..HEADER_SIZE] == Header(PREFIX_SIZE);
    assert s[HEADER_SIZE..HEADER_SIZE + PREFIX_SIZE] == prefix;
    assert prefix[2..6] == Int32(-1);
    Int32RoundTrip(-1);
    assert s[HEADER_SIZE + PREFIX_SIZE + |table|..] == rest;
  }

  /**
   * What the receiver has before it once it has begun the next message. It ends the preamble
   * with a receive of no bytes, which waits until one more byte can be read; None means that
   * the call does not return on these bytes.
   */
  function Begun(s: seq<byte>): Option<seq<byte>> {
    var body := AfterPreamble(s);
    if body == Some([]) then None else body
  }

  /** A message that was sent can be begun exactly if it is not empty or more has been sent after it. */
  lemma {:induction false} BegunIff(blocks: seq<Block>, replies: seq<Block>, rest: seq<byte>)
    requires Sendable(blocks, replies)
    ensures Begun(Frame(blocks, replies) + rest)
         == if Concat(blocks) == [] && rest == [] then None else Some(Concat(blocks) + rest)
  {
    assert Frame(blocks, replies) + rest == Preamble(blocks, replies) + (Concat(blocks) + rest);
    PreambleTakenOff(blocks, replies, Concat(blocks) + rest);
  }

  /** Whether a message is begun, what is left of the stream, and the data, unless the call has to wait. */
  datatype Reception = Reception(begun: bool, rest: seq<byte>, data: Option<seq<byte>>)

  /** A read of n bytes; it begins a message only if it asks for any. */
  function Received(begun: bool, s: seq<byte>, n: nat): Reception {
    if n == 0 then Reception(begun, s, Some([]))
    else
      var body := if begun then Some(s) else Begun(s);
      if body == None then Reception(false, s, None)
      else if n <= |body.value| then Reception(true, body.value[n..], Some(body.value[..n]))
      else Reception(true, body.value, None)
  }

  datatype Taken = Taken(pieces: seq<seq<byte>>, begun: bool, rest: seq<byte>)

  /** Reads of the given lengths, up to one that has to wait. */
  function Reads(begun: bool, s: seq<byte>, lengths: seq<nat>): Taken
    decreases |lengths|
  {
    if lengths == [] then Taken([], begun, s) else
      var r := Received(begun, s, lengths[0]);
      if r.data == None then Taken([], r.begun, r.rest) else
        var t := Reads(r.begun, r.rest, lengths[1..]);
        Taken([r.data.value] + t.pieces, t.begun, t.rest)
  }

  function Total(lengths: seq<nat>): nat {
    if lengths == [] then 0 else lengths[0] + Total(lengths[1..])
  }

  lemma {:induction false} ConcatFront(p: seq<byte>, pieces: seq<seq<byte>>)
    ensures Concat([p] + pieces) == p + Concat(pieces)
  {
    if pieces == [] {
      ConcatUpTo([p], 0);
      assert [p] + pieces == [p] && [p][..1] == [p];
    } else {
      var n := |pieces| - 1;
      ConcatFront(p, pieces[..n]);
      assert ([p] + pieces)[..n + 1] == [p] + pieces[..n] && ([p] + pieces)[n + 1] == pieces[n];
      Associate(p, Concat(pieces[..n]), pieces[n]);
    }
  }

  /** Reads of lengths adding up to |data| return data in pieces and stop right behind it. */
  lemma {:induction false} ReadsReturnAll(data: seq<byte>, rest: seq<byte>, lengths: seq<nat>)
    requires Total(lengths) == |data|
    ensures var t := Reads(true, data + rest, lengths);
      Concat(t.pieces) == data && |t.pieces| == |lengths| && t.begun && t.rest == rest
    decreases |lengths|
  {
    if lengths == [] {
      assert data + rest == rest;
    } else {
      var n := lengths[0];
      assert (data + rest)[n..] == data[n..] + rest && (data + rest)[..n] == data[..n];
      assert n == 0 ==> data[n..] == data && data[..n] == [];
      ReadsReturnAll(data[n..], rest, lengths[1..]);
      ConcatFront(data[..n], Reads(true, data[n..] + rest, lengths[1..]).pieces);
    }
  }

  /** Reads alone begin a message with the first that asks for any bytes, and none otherwise. */
  lemma {:induction false} ReadsAlone(s: seq<byte>, lengths: seq<nat>)
    ensures Total(lengths) == 0 ==> !Reads(false, s, lengths).begun && Reads(false, s, lengths).rest == s
    ensures Total(lengths) > 0 && Begun(s).Some? ==> Reads(false, s, lengths) == Reads(true, Begun(s).value, lengths)
    decreases |lengths|
  {
    if lengths == [] || lengths[0] != 0 {
    } else {
      ReadsAlone(s, lengths[1..]);
    }
  }

  /** Reads alone take a message off the stream if and only if they ask for at least one byte. */
  lemma {:induction false} TakenOffIffNotEmpty(blocks: seq<Block>, replies: seq<Block>, rest: seq<byte>,
                                               lengths: seq<nat>)
    requires Sendable(blocks, replies) && Total(lengths) == |Concat(blocks)|
    ensures Reads(false, Frame(blocks, replies) + rest, lengths).rest == rest <==> Total(lengths) > 0
  {
    var s := Frame(blocks, replies) + rest;
    BegunIff(blocks, replies, rest);
    ReadsAlone(s, lengths);
    ReadsReturnAll(Concat(blocks), rest, lengths);
    assert |s| > |rest|;
  }

  // ----- any number of messages

  datatype Message = Message(blocks: seq<Block>, replies: seq<Block>)

  ghost predicate AllSendable(messages: seq<Message>) {
    forall k :: 0 <= k < |messages| ==> Sendable(messages[k].blocks, messages[k].replies)
  }

  function Stream(messages: seq<Message>): seq<byte>
    requires AllSendable(messages)
  {
    if messages == [] then [] else Frame(messages[0].blocks, messages[0].replies) + Stream(messages[1..])
  }

  /** The concatenated blocks of each message. */
  function Contents(messages: seq<Message>): seq<seq<byte>> {
    if messages == [] then [] else [Concat(messages[0].blocks)] + Contents(messages[1..])
  }

  /** The reads for each message ask for exactly its bytes. */
  ghost predicate AddUp(messages: seq<Message>, lengths: seq<seq<nat>>) {
    |lengths| == |messages| && forall k :: 0 <= k < |messages| ==> Total(lengths[k]) == |Concat(messages[k].blocks)|
  }

  /** One message begun and read in pieces of the given lengths: its content, unless a call has to wait. */
  function OneMessage(s: seq<byte>, lengths: seq<nat>): (Option<seq<byte>>, seq<byte>) {
    if Begun(s) == None then (None, s) else
      var t := Reads(true, Begun(s).value, lengths);
      (if |t.pieces| < |lengths| then None else Some(Concat(t.pieces)), t.rest)
  }

  /** Message after message, the k-th in pieces of lengths[k], up to a call that has to wait. */
  function ReadAll(s: seq<byte>, lengths: seq<seq<nat>>): (seq<seq<byte>>, seq<byte>)
    decreases |lengths|
  {
    if lengths == [] then ([], s) else
      var (content, s1) := OneMessage(s, lengths[0]);
      if content == None then ([], s1) else
        var (contents, rest) := ReadAll(s1, lengths[1..]);
        ([content.value] + contents, rest)
  }

  /** Only an empty message at the very end of the stream has to wait. */
  predicate LastWaits(messages: seq<Message>, rest: seq<byte>) {
    messages != [] && Concat(messages[|messages| - 1].blocks) == [] && rest == []
  }

  /** The messages that come back. */
  function Arriving(messages: seq<Message>, rest: seq<byte>): seq<Message> {
    if LastWaits(messages, rest) then messages[..|messages| - 1] else messages
  }

  /**
   * Every message comes back as the concatenation of its blocks, however its bytes are asked
   * for, but for the last if it is empty and nothing follows it.
   */
  lemma {:induction false} MessagesComeBack(messages: seq<Message>, lengths: seq<seq<nat>>, rest: seq<byte>)
    requires AllSendable(messages) && AddUp(messages, lengths)
    ensures ReadAll(Stream(messages) + rest, lengths).0 == Contents(Arriving(messages, rest))
    ensures !LastWaits(messages, rest) ==> ReadAll(Stream(messages) + rest, lengths).1 == rest
    decreases |messages|
  {
    if messages == [] {
      assert Stream(messages) + rest == rest;
    } else {
      StreamSplit(messages, rest);
      FirstComesBack(messages[0], lengths, Stream(messages[1..]) + rest);
      MessagesComeBack(messages[1..], lengths[1..], rest);
      ArrivingLater(messages, rest);
    }
  }

  lemma {:induction false} StreamSplit(messages: seq<Message>, rest: seq<byte>)
    requires messages != [] && AllSendable(messages)
    ensures AllSendable(messages[1..])
    ensures Stream(messages) + rest == Frame(messages[0].blocks, messages[0].replies) + (Stream(messages[1..]) + rest)
    ensures Stream(messages[1..]) + rest == [] <==> |messages| == 1 && rest == []
  {
    assert |messages| > 1 ==> |Frame(messages[1].blocks, messages[1].replies)| > 0;
    assert |messages| > 1 ==> |Stream(messages[1..])| > 0;
  }

  lemma {:induction false} FirstComesBack(m: Message, lengths: seq<seq<nat>>, later: seq<byte>)
    requires Sendable(m.blocks, m.replies) && lengths != [] && Total(lengths[0]) == |Concat(m.blocks)|
    ensures var s, c := Frame(m.blocks, m.replies) + later, Concat(m.blocks);
      ReadAll(s, lengths) == if c == [] && later == [] then ([], s)
        else ([c] + ReadAll(later, lengths[1..]).0, ReadAll(later, lengths[1..]).1)
  {
    BegunIff(m.blocks, m.replies, later);
    ReadsReturnAll(Concat(m.blocks), later, lengths[0]);
  }

  lemma {:induction false} ArrivingLater(messages: seq<Message>, rest: seq<byte>)
    requires messages != []
    ensures |messages| == 1 ==> Contents(Arriving(messages, rest)) == (if LastWaits(messages, rest) then [] else [Concat(messages[0].blocks)])
    ensures |messages| > 1 ==> LastWaits(messages[1..], rest) == LastWaits(messages, rest)
    ensures |messages| > 1 ==>
      Contents(Arriving(messages, rest)) == [Concat(messages[0].blocks)] + Contents(Arriving(messages[1..], rest))
  {
    if |messages| > 1 && LastWaits(messages, rest) {
      assert messages[..|messages| - 1][1..] == messages[1..][..|messages| - 2];
    }
  }

  // ----- the answer to a message

  function Zeros(n: nat): (z: seq<byte>)
    ensures |z| == n && forall i :: 0 <= i < n ==> z[i] == 0
  {
    if n == 0 then [] else Zeros(n - 1) + [0]
  }

  /** One part of a reply: a header and the bytes. */
  function ReplyPart(b: Block): seq<byte> {
    Header(|b|) + b
  }

  /** A zero byte, and then the text ok with its terminator. */
  function OkReply(): seq<byte> {
    ReplyPart([0]) + ReplyPart([111, 107, 0])
  }

  /** One part of a reply read into a buffer of the given size: the bytes, if they are there and the header is good. */
  function ReadReplyPart(s: seq<byte>, room: nat): Option<(seq<byte>, seq<byte>)> {
    if |s| < HEADER_SIZE || HeaderLength(s[..HEADER_SIZE]) < 0 then None else
      var length := HeaderLength(s[..HEADER_SIZE]);
      var n := if length < room then length else room;
      if |s| < HEADER_SIZE + n then None else Some((s[HEADER_SIZE..HEADER_SIZE + n], s[HEADER_SIZE + n..]))
  }

  lemma {:induction false} ReplyPartComesBack(b: Block, rest: seq<byte>, room: nat)
    requires |b| <= room
    ensures ReadReplyPart(ReplyPart(b) + rest, room) == Some((b, rest))
  {
    var s := ReplyPart(b) + rest;
    HeaderRoundTrip(|b|);
    assert s[..HEADER_SIZE] == Header(|b|) && s[HEADER_SIZE..] == b + rest;
    assert s[HEADER_SIZE..HEADER_SIZE + |b|] == b && s[HEADER_SIZE + |b|..] == rest;
  }

  /** The answer is read in its two parts and nothing of it stays behind. */
  lemma {:induction false} OkComesBack(rest: seq<byte>, room: nat)
    requires room >= 3
    ensures ReadReplyPart(OkReply() + rest, 1) == Some(([0], ReplyPart([111, 107, 0]) + rest))
    ensures ReadReplyPart(ReplyPart([111, 107, 0]) + rest, room) == Some(([111, 107, 0], rest))
  {
    assert OkReply() + rest == ReplyPart([0]) + (ReplyPart([111, 107, 0]) + rest);
    ReplyPartComesBack([0], ReplyPart([111, 107, 0]) + rest, 1);
    ReplyPartComesBack([111, 107, 0], rest, room);
  }
}
