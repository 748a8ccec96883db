/** The bytes of headers, messages and answers, one by one. */
module FrameLayout {
  import opened Options
  import opened Bytes
  import opened Sequences
  import opened Framing

  /** Four bytes, low byte first, two's complement. */
  predicate Encodes(b: seq<byte>, n: int) {
    |b| == 4 && -0x8000_0000 <= n < 0x8000_0000
    && Weighed(b) == if n < 0 then n + 0x1_0000_0000 else n
  }

  function Weighed(b: seq<byte>): nat
    requires |b| == 4
  {
    b[0] as int + 0x100 * b[1] as int + 0x1_0000 * b[2] as int + 0x100_0000 * b[3] as int
  }

  lemma {:induction false} NumberIsWeighed(b: seq<byte>)
    requires |b| == 4
    ensures NumberOf(b) == Weighed(b)
  {
    assert b[1..][1..] == b[2..] && b[2..][1..] == b[3..] && b[3..][1..] == [];
    assert NumberOf(b[3..]) == b[3] as int + 0x100 * NumberOf([]);
    assert NumberOf(b[2..]) == b[2] as int + 0x100 * NumberOf(b[3..]);
    assert NumberOf(b[1..]) == b[1] as int + 0x100 * NumberOf(b[2..]);
  }

  lemma {:induction false} Int32Encodes(n: int)
    requires Fits32(n)
    ensures Encodes(Int32(n), n)
  {
    assert Limit(4) == 0x1_0000_0000;
    LowBytesRoundTrip(if n < 0 then n + 0x1_0000_0000 else n, 4);
    NumberIsWeighed(Int32(n));
  }

  lemma {:induction false} FirstDigit(x: byte, q: int, y: byte, r: int)
    requires x + 0x100 * q == y + 0x100 * r
    ensures x == y && q == r
  {
  }

  lemma {:induction false} SameDigits(b0: byte, b1: byte, b2: byte, b3: byte, c0: byte, c1: byte, c2: byte, c3: byte)
    requires b0 + 0x100 * b1 + 0x1_0000 * b2 + 0x100_0000 * b3 == c0 + 0x100 * c1 + 0x1_0000 * c2 + 0x100_0000 * c3
    ensures b0 == c0 && b1 == c1 && b2 == c2 && b3 == c3
  {
    FirstDigit(b0, b1 + 0x100 * b2 + 0x1_0000 * b3, c0, c1 + 0x100 * c2 + 0x1_0000 * c3);
    FirstDigit(b1, b2 + 0x100 * b3, c1, c2 + 0x100 * c3);
    FirstDigit(b2, b3, c2, c3);
  }

  lemma {:induction false} OneEncoding(b: seq<byte>, c: seq<byte>, n: int)
    requires Encodes(b, n) && Encodes(c, n)
    ensures b == c
  {
    SameDigits(b[0], b[1], b[2], b[3], c[0], c[1], c[2], c[3]);
    assert forall i :: 0 <= i < 4 ==> b[i] == c[i];
  }

  lemma {:induction false} FromInt32Decodes(b: seq<byte>, n: int)
    requires |b| == 4
    ensures FromInt32(b) == n <==> Encodes(b, n)
    ensures FromInt32(b) < 0 <==> b[3] >= 128
  {
    NumberIsWeighed(b);
  }

  // ----- headers

  /** A header is the letters YA, the length and the letters RP. */
  lemma {:induction false} HeaderBytes(length: int)
    requires Fits32(length)
    ensures Header(length)[..2] == [89, 65] && Encodes(Header(length)[2..6], length) && Header(length)[6..] == [82, 80]
  {
    Int32Encodes(length);
    assert Header(length)[2..6] == Int32(length);
  }

  /** With other letters it is a bad one, with those it has the length encoded. */
  lemma {:induction false} HeaderAccepted(b: seq<byte>, n: int)
    requires |b| == 8
    ensures b[..2] == [89, 65] && b[6..] == [82, 80] ==> (HeaderLength(b) == n <==> Encodes(b[2..6], n))
    ensures b[..2] != [89, 65] || b[6..] != [82, 80] ==> HeaderLength(b) == -1
  {
    FromInt32Decodes(b[2..6], n);
    assert b[..2] == [b[0], b[1]] && b[6..] == [b[6], b[7]];
  }

  // ----- messages

  lemma {:induction false} TableEntry(blocks: seq<Block>, k: nat)
    requires k < |blocks|
    ensures 4 * k + 4 <= |Table(blocks)| && Encodes(Table(blocks)[4 * k..4 * k + 4], |blocks[k]|)
  {
    var n := |blocks| - 1;
    var front, last := Table(blocks[..n]), Int32(|blocks[n]|);
    if k == n {
      Int32Encodes(|blocks[n]|);
      assert (front + last)[4 * n..4 * n + 4] == last;
    } else {
      TableEntry(blocks[..n], k);
      assert (front + last)[4 * k..4 * k + 4] == front[4 * k..4 * k + 4];
    }
  }

  lemma {:induction false} BlockIn(blocks: seq<seq<byte>>, k: nat)
    requires k < |blocks|
    ensures |Concat(blocks[..k])| + |blocks[k]| <= |Concat(blocks)|
    ensures Concat(blocks)[|Concat(blocks[..k])|..|Concat(blocks[..k])| + |blocks[k]|] == blocks[k]
  {
    var n := |blocks| - 1;
    var at := |Concat(blocks[..k])|;
    if k == n {
    } else {
      BlockIn(blocks[..n], k);
      assert blocks[..n][..k] == blocks[..k];
      assert Concat(blocks)[at..at + |blocks[k]|] == Concat(blocks[..n])[at..at + |blocks[k]|];
    }
  }

  /** The first 18 bytes of a message: its header, how many blocks and how many blocks of a reply, and -1 twice. */
  lemma {:induction false} MessageStarts(blocks: seq<Block>, replies: seq<Block>)
    requires Sendable(blocks, replies)
    ensures var f := Frame(blocks, replies);
      && |f| == 18 + 4 * (|blocks| + |replies|) + |Concat(blocks)|
      && f[..8] == [89, 65, 10, 0, 0, 0, 82, 80] && f[8] == |blocks| && f[9] == |replies|
      && f[10..18] == [255, 255, 255, 255, 255, 255, 255, 255]
  {
    var f, head := Frame(blocks, replies), Header(10);
    ShortHeader(10);
    Int32Encodes(-1);
    OneEncoding(Int32(-1), [255, 255, 255, 255], -1);
    assert f[..8] == head && f[8..18] == Prefix(|blocks|, |replies|);
    assert f[8] == f[8..18][0] && f[9] == f[8..18][1];
    assert f[10..18] == Prefix(|blocks|, |replies|)[2..];
  }

  lemma {:induction false} FrameParts(blocks: seq<Block>, replies: seq<Block>)
    requires Sendable(blocks, replies)
    ensures var f, at := Frame(blocks, replies), 18 + 4 * (|blocks| + |replies|);
      at <= |f| && f[18..at] == Table(blocks + replies) && f[at..] == Concat(blocks)
  {
  }

  /** A piece of a piece. */
  lemma {:induction false} SubPiece(f: seq<byte>, from: nat, to: nat, a: nat, b: nat)
    requires from <= to <= |f| && a <= b <= to - from
    ensures f[from..to][a..b] == f[from + a..from + b]
  {
    var p, q := f[from..to][a..b], f[from + a..from + b];
    forall i | 0 <= i < b - a ensures p[i] == q[i] {}
  }

  /** Then come the lengths of all those blocks, and then the blocks themselves. */
  lemma {:induction false} MessageTells(blocks: seq<Block>, replies: seq<Block>, k: nat)
    requires Sendable(blocks, replies) && k < |blocks| + |replies|
    ensures var f, at := Frame(blocks, replies), 18 + 4 * (|blocks| + |replies|);
      && 22 + 4 * k <= at <= |f|
      && Encodes(f[18 + 4 * k..22 + 4 * k], if k < |blocks| then |blocks[k]| else |replies[k - |blocks|]|)
      && (k < |blocks| ==>
            var from := at + |Concat(blocks[..k])|;
            from + |blocks[k]| <= |f| && f[from..from + |blocks[k]|] == blocks[k])
  {
    var f, at := Frame(blocks, replies), 18 + 4 * (|blocks| + |replies|);
    TableEntry(blocks + replies, k);
    FrameParts(blocks, replies);
    SubPiece(f, 18, at, 4 * k, 4 * k + 4);
    if k < |blocks| {
      BlockIn(blocks, k);
      var from := |Concat(blocks[..k])|;
      SubPiece(f, at, |f|, from, from + |blocks[k]|);
    }
  }

  lemma {:induction false} MessageHeader(head: seq<byte>)
    requires |head| == 8
    ensures HeaderLength(head) == 10 <==> head == [89, 65, 10, 0, 0, 0, 82, 80]
  {
    HeaderAccepted(head, 10);
    assert Encodes([10, 0, 0, 0], 10);
    var good := [89, 65, 10, 0, 0, 0, 82, 80];
    assert good[..2] == [89, 65] && good[2..6] == [10, 0, 0, 0] && good[6..] == [82, 80];
    assert good == good[..2] + good[2..6] + good[6..] && head == head[..2] + head[2..6] + head[6..];
    if Encodes(head[2..6], 10) { OneEncoding(head[2..6], [10, 0, 0, 0], 10); }
  }

  /** Which streams a receiver takes a preamble off, and what is left of them. */
  lemma {:induction false} PreambleIff(s: seq<byte>, rest: seq<byte>)
    ensures AfterPreamble(s) == Some(rest) <==>
      && |s| >= 18 && s[..8] == [89, 65, 10, 0, 0, 0, 82, 80]
      && var table := if s[13] >= 128 then 4 * (s[8] as int + s[9] as int) else 0;
         |s| >= 18 + table && rest == s[18 + table..]
  {
    if |s| >= 18 {
      MessageHeader(s[..8]);
      FromInt32Decodes(s[8..18][2..6], 0);
      assert s[8..18][2..6][3] == s[13];
    }
  }

  /** Which part of an answer is read into a buffer: no more than there is room for, once it is there. */
  lemma {:induction false} ReplyPartRead(s: seq<byte>, room: nat, n: int)
    requires |s| >= 8
    ensures s[..2] == [89, 65] && s[6..8] == [82, 80] && Encodes(s[2..6], n) ==>
      ReadReplyPart(s, room) ==
        if n < 0 || |s| < 8 + (if n < room then n else room) then None
        else if n < room then Some((s[8..8 + n], s[8 + n..])) else Some((s[8..8 + room], s[8 + room..]))
    ensures s[..2] != [89, 65] || s[6..8] != [82, 80] ==> ReadReplyPart(s, room) == None
  {
    HeaderAccepted(s[..8], n);
    assert s[..8][..2] == s[..2] && s[..8][2..6] == s[2..6] && s[..8][6..] == s[6..8];
  }

  /** An answer: one part of a zero byte, and one of the letters ok and a zero byte. */
  lemma {:induction false} AnswerBytes()
    ensures OkReply() == [89, 65, 1, 0, 0, 0, 82, 80, 0, 89, 65, 3, 0, 0, 0, 82, 80, 111, 107, 0]
  {
    ShortHeader(1);
    ShortHeader(3);
  }

  lemma {:induction false} ShortHeader(n: byte)
    requires n < 128
    ensures Header(n) == [89, 65, n, 0, 0, 0, 82, 80]
  {
    HeaderBytes(n);
    OneEncoding(Header(n)[2..6], [n, 0, 0, 0], n);
    assert Header(n) == Header(n)[..2] + Header(n)[2..6] + Header(n)[6..];
  }
}
