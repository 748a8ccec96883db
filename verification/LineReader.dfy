/** Lines read from a socket that delivers its bytes in chunks of any size. */
module LineReader {
  import opened Options
  import opened Sequences

  const CR: char := 13 as char
  const LF: char := 10 as char
  const NUL: char := 0 as char

  // ----- how the bytes come

  /** How many bytes a receive call delivers, if there is room and so many are left; at least one. */
  type Chunk = n: nat | n > 0 witness 1

  function Min(a: nat, b: nat): nat {
    if a <= b then a else b
  }

  /** What the next call delivers into the given room; when the schedule is over, everything that is left. */
  function Delivered(room: nat, left: nat, chunks: seq<Chunk>): (n: nat)
    ensures n <= room && n <= left && (n == 0 <==> room == 0 || left == 0)
  {
    Min(Min(room, left), if chunks == [] then left else chunks[0])
  }

  function Later(chunks: seq<Chunk>): seq<Chunk> {
    if chunks == [] then [] else chunks[1..]
  }

  /** The bytes the peer sends, and how many of them each receive call takes off the front. */
  class Socket {
    var pending: seq<char>
    var chunks: seq<Chunk>

    constructor (bytes: seq<char>, schedule: seq<Chunk>)
      ensures pending == bytes && chunks == schedule
    {
      pending, chunks := bytes, schedule;
    }

    /** None come only if there is no room or nothing is left. */
    method Recv(max: nat) returns (data: seq<char>)
      modifies this
      ensures var n := Delivered(max, |old(pending)|, old(chunks));
        data == old(pending)[..n] && pending == old(pending)[n..] && chunks == if n == 0 then old(chunks) else Later(old(chunks))
    {
      var n := Delivered(max, |pending|, chunks);
      data := pending[..n];
      pending := pending[n..];
      if n > 0 { chunks := Later(chunks); }
    }
  }

  /** The position of the first line end, or the length when there is none. */
  function LineEnd(s: seq<char>): (p: nat)
    ensures p <= |s| && (p < |s| ==> s[p] == LF)
    ensures forall i :: 0 <= i < p ==> s[i] != LF
  {
    if s == [] then 0 else if s[0] == LF then 0 else 1 + LineEnd(s[1..])
  }

  /** What follows a piece matters only if the piece has no line end. */
  lemma {:induction false} LineEndInPiece(b: seq<char>, rest: seq<char>)
    ensures LF in b <==> LineEnd(b) < |b|
    ensures LF in b ==> LineEnd(b + rest) == LineEnd(b)
    ensures LF in b ==> (b + rest)[..LineEnd(b)] == b[..LineEnd(b)] && (b + rest)[LineEnd(b) + 1..] == b[LineEnd(b) + 1..] + rest
    ensures LF !in b ==> LineEnd(b + rest) >= |b|
  {
    assert forall i :: 0 <= i < |b| ==> (b + rest)[i] == b[i];
  }

  // ----- carriage returns

  function Plain(c: char): char {
    if c == CR then NUL else c
  }

  /** The characters with NUL in place of every carriage return. */
  function Blanked(s: seq<char>): (t: seq<char>)
    ensures |t| == |s| && forall i :: 0 <= i < |s| ==> t[i] == Plain(s[i])
  {
    seq(|s|, i requires 0 <= i < |s| => Plain(s[i]))
  }

  function Returns(s: seq<char>): nat {
    if s == [] then 0 else Returns(s[1..]) + if s[0] == CR then 1 else 0
  }

  lemma {:induction false} ReturnsAdd(s: seq<char>, t: seq<char>)
    ensures Returns(s + t) == Returns(s) + Returns(t)
  {
    if s == [] {
      assert s + t == t;
    } else {
      ReturnsAdd(s[1..], t);
      assert (s + t)[1..] == s[1..] + t;
    }
  }

  lemma {:induction false} NoReturns(s: seq<char>)
    ensures CR !in s <==> Returns(s) == 0
  {
    if s == [] {
    } else {
      NoReturns(s[1..]);
    }
  }

  lemma {:induction false} SameLineEnd(s: seq<char>, t: seq<char>)
    requires Blanked(s) == Blanked(t)
    ensures LineEnd(s) == LineEnd(t)
  {
    assert |Blanked(s)| == |Blanked(t)|;
    forall i | 0 <= i < |s| ensures s[i] == LF <==> t[i] == LF { assert Blanked(s)[i] == Blanked(t)[i]; }
  }

  /** What a call may leave of a stream it returns no line of: some carriage returns have been blanked. */
  lemma {:induction false} PieceBlanked(b: seq<char>, rest: seq<char>)
    ensures Blanked(Blanked(b) + rest) == Blanked(b + rest)
    ensures Returns(Blanked(b) + rest) == Returns(b + rest) - Returns(b)
    ensures CR !in b ==> Blanked(b) + rest == b + rest
  {
    ReturnsAdd(b, rest);
    ReturnsAdd(Blanked(b), rest);
    NoReturns(Blanked(b));
    assert CR !in b ==> Blanked(b) == b;
  }

  lemma {:induction false} BlankedParts(s: seq<char>, t: seq<char>, p: nat)
    requires Blanked(s) == Blanked(t) && p < |s|
    ensures p < |t| && Blanked(s[..p]) == Blanked(t[..p]) && Blanked(s[p + 1..]) == Blanked(t[p + 1..])
  {
    assert |Blanked(s)| == |Blanked(t)|;
    forall i | 0 <= i < |s| ensures Plain(s[i]) == Plain(t[i]) { assert Blanked(s)[i] == Blanked(t)[i]; }
  }

  /** The first i characters of the buffer, without a line end among them, have been blanked. */
  ghost predicate CutTo(b: seq<char>, s: seq<char>, i: nat) {
    i <= |b| && LF !in b[..i] && s == Blanked(b[..i]) + b[i..]
  }

  lemma {:induction false} CutOn(b: seq<char>, s: seq<char>, i: nat)
    requires CutTo(b, s, i) && i < |b|
    ensures |s| == |b| && s[i] == b[i]
    ensures b[i] != LF ==> CutTo(b, s[i := Plain(b[i])], i + 1) && (b[i] != CR ==> s[i := Plain(b[i])] == s)
  {
    assert b[..i + 1] == b[..i] + [b[i]];
    assert Blanked(b[..i + 1]) == Blanked(b[..i]) + [Plain(b[i])];
  }

  lemma {:induction false} StartOfCut(b: seq<char>)
    ensures CutTo(b, b, 0)
  {
    assert b[..0] == [] && b[0..] == b;
  }

  lemma {:induction false} EndOfCut(b: seq<char>, s: seq<char>)
    requires CutTo(b, s, |b|)
    ensures LF !in b && s == Blanked(b)
  {
    assert b[..|b|] == b;
  }

  /** The line end is at i, where only NUL has been written. */
  lemma {:induction false} CutHere(b: seq<char>, s: seq<char>, i: nat)
    requires i < |b| == |s| && b[i] == LF && CutTo(b, s[i := LF], i)
    ensures LF in b && LineEnd(b) == i && s[..i] == Blanked(b[..i]) && s[i + 1..] == b[i + 1..]
  {
    LineEndIs(b, i);
    assert s[..i] == s[i := LF][..i] && s[i + 1..] == s[i := LF][i + 1..];
  }

  lemma {:induction false} NothingToBlank(s: seq<char>)
    requires CR !in s
    ensures Blanked(s) == s
  {
  }

  lemma {:induction false} LineEndIs(s: seq<char>, p: nat)
    requires p < |s| && s[p] == LF && LF !in s[..p]
    ensures LineEnd(s) == p
  {
    assert forall i :: 0 <= i < p ==> s[i] == s[..p][i];
  }

  /** A line the buffer could hold, of which no end is in the piece received, has a carriage return there. */
  lemma {:induction false} NoLineInPiece(b: seq<char>, rest: seq<char>, size: nat)
    requires LF !in b && (CR in b || |b| == size || rest == [])
    ensures LineEnd(b + rest) < |b + rest| && LineEnd(b + rest) < size ==> CR in (b + rest)[..LineEnd(b + rest)] && Returns(b) > 0
  {
    LineEndInPiece(b, rest);
    NoReturns(b);
    if CR in b && LineEnd(b + rest) < |b + rest| {
      var i :| 0 <= i < |b| && b[i] == CR;
      assert (b + rest)[..LineEnd(b + rest)][i] == CR;
    }
  }

  /** The lines of a stream, without their ends; what follows the last end is no line. */
  function Lines(s: seq<char>): seq<seq<char>>
    decreases |s|
  {
    if LineEnd(s) == |s| then [] else [s[..LineEnd(s)]] + Lines(s[LineEnd(s) + 1..])
  }

  function WithEnds(lines: seq<seq<char>>): seq<char> {
    if lines == [] then [] else lines[0] + [10 as char] + WithEnds(lines[1..])
  }

  predicate NoEnd(s: seq<char>) {
    10 as char !in s
  }

  /** The stream is its lines, each with its line end, and a rest without any. */
  lemma {:induction false} LinesMakeUp(s: seq<char>) returns (rest: seq<char>)
    ensures s == WithEnds(Lines(s)) + rest && NoEnd(rest)
    ensures forall line :: line in Lines(s) ==> NoEnd(line)
    decreases |s|
  {
    var p := LineEnd(s);
    if p == |s| {
      rest := s;
      assert WithEnds([]) + s == s;
    } else {
      var later := s[p + 1..];
      rest := LinesMakeUp(later);
      FirstLine(s, p, Lines(later), rest);
      OneLineMore(s[..p], Lines(later));
    }
  }

  lemma {:induction false} OneLineMore(line: seq<char>, lines: seq<seq<char>>)
    requires NoEnd(line) && forall l :: l in lines ==> NoEnd(l)
    ensures forall l :: l in [line] + lines ==> NoEnd(l)
  {
  }

  lemma {:induction false} FirstLine(s: seq<char>, p: nat, lines: seq<seq<char>>, rest: seq<char>)
    requires p < |s| && s[p] == 10 as char && s[p + 1..] == WithEnds(lines) + rest
    ensures s == WithEnds([s[..p]] + lines) + rest
  {
    assert ([s[..p]] + lines)[1..] == lines;
    assert s == s[..p] + [10 as char] + s[p + 1..];
    Associate(s[..p] + [10 as char], WithEnds(lines), rest);
  }

  // ----- one call

  /** The buffer holds a carriage return or a line end, or is full, or nothing more comes. */
  predicate Enough(b: seq<char>, pending: seq<char>, size: nat) {
    CR in b || LF in b || |b| >= size || pending == []
  }

  /** What a call leaves: the line if it returns one, what stays in the buffer, and what has not been received. */
  datatype Outcome = Outcome(line: Option<seq<char>>, buffered: seq<char>, pending: seq<char>, chunks: seq<Chunk>)

  /** The buffer, and what has not been received, once there is enough. */
  function Filled(b: seq<char>, pending: seq<char>, chunks: seq<Chunk>, size: nat): Outcome
    decreases |pending|
  {
    if Enough(b, pending, size) then Outcome(None, b, pending, chunks) else
      var n := Delivered(size - |b|, |pending|, chunks);
      Filled(b + pending[..n], pending[n..], Later(chunks), size)
  }

  /** The first line is cut off the buffer; without a line end the carriage returns in the buffer are blanked. */
  function Call(b: seq<char>, pending: seq<char>, chunks: seq<Chunk>, size: nat): Outcome {
    var f := Filled(b, pending, chunks, size);
    var p := LineEnd(f.buffered);
    if p < |f.buffered| then f.(line := Some(Blanked(f.buffered[..p])), buffered := f.buffered[p + 1..])
    else f.(buffered := Blanked(f.buffered))
  }

  lemma {:induction false} FilledOn(b: seq<char>, pending: seq<char>, chunks: seq<Chunk>, size: nat)
    ensures var f := Filled(b, pending, chunks, size);
      && f.line == None && f.buffered + f.pending == b + pending && b <= f.buffered && Enough(f.buffered, f.pending, size)
      && (|b| <= size ==> |f.buffered| <= size) && (Enough(b, pending, size) ==> f.buffered == b)
    decreases |pending|
  {
    if Enough(b, pending, size) {
    } else {
      var n := Delivered(size - |b|, |pending|, chunks);
      FilledOn(b + pending[..n], pending[n..], Later(chunks), size);
      assert (b + pending[..n]) + pending[n..] == b + pending;
    }
  }

  lemma {:induction false} FilledStep(b: seq<char>, pending: seq<char>, chunks: seq<Chunk>, size: nat)
    requires CR !in b && LF !in b && |b| <= size
    ensures var n := Delivered(size - |b|, |pending|, chunks);
      if n == 0 then Enough(b, pending, size) && b + pending[..n] == b && pending[n..] == pending
      else Filled(b, pending, chunks, size) == Filled(b + pending[..n], pending[n..], Later(chunks), size)
  {
  }

  /**
   * What a call may return and leave of the stream all, ended telling whether a line end was
   * buffered before: the next line, its carriage returns blanked; or nothing, when it has no
   * end or does not fit, or when it has carriage returns, of which at least one is blanked.
   */
  ghost predicate Proper(all: seq<char>, ended: bool, line: Option<seq<char>>, now: seq<char>, size: nat) {
    var p := LineEnd(all);
    if line.Some? then
      p < |all| && p < size && line.value == Blanked(all[..p]) && now == all[p + 1..]
    else
      && Blanked(now) == Blanked(all) && Returns(now) <= Returns(all)
      && (p < |all| && p < size ==> !ended && CR in all[..p] && Returns(now) < Returns(all))
      && (CR !in all ==> now == all)
  }

  /** Blanking carriage returns beforehand makes no difference to the line. */
  lemma {:induction false} LineOfBlanked(all: seq<char>, before: seq<char>, ended: bool, line: seq<char>, now: seq<char>,
                                         size: nat)
    requires Blanked(before) == Blanked(all) && Proper(before, ended, Some(line), now, size)
    ensures LineEnd(all) < |all| && line == Blanked(all[..LineEnd(all)]) && Blanked(now) == Blanked(all[LineEnd(all) + 1..])
  {
    SameLineEnd(before, all);
    BlankedParts(before, all, LineEnd(all));
  }

  lemma {:induction false} LineCut(b: seq<char>, rest: seq<char>, size: nat, ended: bool)
    requires LF in b && |b| <= size
    ensures Proper(b + rest, ended, Some(Blanked(b[..LineEnd(b)])), b[LineEnd(b) + 1..] + rest, size)
  {
    LineEndInPiece(b, rest);
  }

  /** A buffer without a line end is blanked. */
  lemma {:induction false} NothingCut(b: seq<char>, rest: seq<char>, size: nat)
    requires LF !in b && Enough(b, rest, size) && |b| <= size
    ensures Proper(b + rest, false, None, Blanked(b) + rest, size)
  {
    PieceBlanked(b, rest);
    NoLineInPiece(b, rest, size);
    if CR in b { assert CR in b + rest; }
  }

  /** Every call is proper, whatever the schedule. */
  lemma {:induction false} CallIsProper(b: seq<char>, pending: seq<char>, chunks: seq<Chunk>, size: nat)
    requires |b| <= size
    ensures var o := Call(b, pending, chunks, size);
      Proper(b + pending, LF in b, o.line, o.buffered + o.pending, size)
  {
    var f := Filled(b, pending, chunks, size);
    FilledOn(b, pending, chunks, size);
    LineEndInPiece(f.buffered, f.pending);
    if LF in f.buffered {
      LineCut(f.buffered, f.pending, size, LF in b);
    } else {
      assert LF !in b;
      NothingCut(f.buffered, f.pending, size);
    }
  }

  /** The number of the receive call that brings character i, 0 for one that is buffered; only lengths matter. */
  function BroughtBy(have: nat, left: nat, chunks: seq<Chunk>, size: nat, i: nat): nat
    requires i < have + left && i < size
    decreases left
  {
    if i < have then 0 else
      var n := Delivered(size - have, left, chunks);
      1 + BroughtBy(have + n, left - n, Later(chunks), size, i)
  }

  /** The first line's end comes no later than any of its carriage returns. */
  ghost predicate EndComesInTime(b: seq<char>, pending: seq<char>, chunks: seq<Chunk>, size: nat)
    requires LineEnd(b + pending) < |b + pending| && LineEnd(b + pending) < size
  {
    forall c: nat :: c < LineEnd(b + pending) && (b + pending)[c] == CR ==>
      BroughtBy(|b|, |pending|, chunks, size, LineEnd(b + pending)) <= BroughtBy(|b|, |pending|, chunks, size, c)
  }

  /**
   * A line that has an end and fits the buffer is returned if and only if its end comes no
   * later than the receive call that brings its first carriage return.
   */
  lemma {:induction false} ReturnedIff(b: seq<char>, pending: seq<char>, chunks: seq<Chunk>, size: nat)
    requires LineEnd(b + pending) < |b + pending| && LineEnd(b + pending) < size
    ensures Call(b, pending, chunks, size).line.Some? <==> EndComesInTime(b, pending, chunks, size)
    decreases |pending|
  {
    var all, p := b + pending, LineEnd(b + pending);
    LineEndInPiece(b, pending);
    if Enough(b, pending, size) {
      if LF !in b && CR in b {
        var c: nat :| c < |b| && b[c] == CR;
        assert all[c] == CR && BroughtBy(|b|, |pending|, chunks, size, c) == 0;
      }
      assert pending == [] ==> all == b;
    } else {
      var n := Delivered(size - |b|, |pending|, chunks);
      var b', rest := b + pending[..n], pending[n..];
      assert b' + rest == all;
      ReturnedIff(b', rest, Later(chunks), size);
      InTimeLater(b, pending, chunks, size, b', rest, n);
    }
  }

  /** One call later the same is still to come, one call sooner. */
  lemma {:induction false} InTimeLater(b: seq<char>, pending: seq<char>, chunks: seq<Chunk>, size: nat,
                                       b': seq<char>, rest: seq<char>, n: nat)
    requires LineEnd(b + pending) < |b + pending| && LineEnd(b + pending) < size && b' + rest == b + pending
    requires !Enough(b, pending, size) && n == Delivered(size - |b|, |pending|, chunks) && |b'| == |b| + n
    ensures EndComesInTime(b, pending, chunks, size) <==> EndComesInTime(b', rest, Later(chunks), size)
  {
    var all, p := b + pending, LineEnd(b + pending);
    LineEndInPiece(b, pending);
    forall c: nat | c < |b| ensures all[c] != CR && c != p { assert all[c] == b[c] && b[c] in b; }
    forall c: nat | c <= p && (c == p || all[c] == CR)
      ensures BroughtBy(|b|, |pending|, chunks, size, c) == 1 + BroughtBy(|b'|, |rest|, Later(chunks), size, c)
    {
    }
  }

  /**
   * Such a line is returned however the bytes come if and only if its end is buffered already
   * or there is no carriage return in it.
   */
  lemma {:induction false} AlwaysReturnedIff(b: seq<char>, pending: seq<char>, size: nat)
    requires LineEnd(b + pending) < |b + pending| && LineEnd(b + pending) < size
    ensures (forall chunks: seq<Chunk> :: Call(b, pending, chunks, size).line.Some?)
       <==> LF in b || CR !in (b + pending)[..LineEnd(b + pending)]
  {
    var all, p := b + pending, LineEnd(b + pending);
    LineEndInPiece(b, pending);
    if LF in b || CR !in all[..p] {
      forall chunks: seq<Chunk> ensures Call(b, pending, chunks, size).line.Some? {
        forall c: nat | c < p && all[c] == CR ensures LF in b { assert all[..p][c] == CR; }
        ReturnedIff(b, pending, chunks, size);
      }
    } else {
      var c: nat :| c < p && all[..p][c] == CR;
      var chunks := NotReturned(b, pending, size, c);
      assert !Call(b, pending, chunks, size).line.Some?;
    }
  }

  /** A schedule that ends a chunk at a carriage return before the line end. */
  lemma {:induction false} NotReturned(b: seq<char>, pending: seq<char>, size: nat, c: nat) returns (chunks: seq<Chunk>)
    requires LineEnd(b + pending) < |b + pending| && LineEnd(b + pending) < size
    requires LF !in b && c < LineEnd(b + pending) && (b + pending)[c] == CR
    ensures Call(b, pending, chunks, size).line == None
  {
    chunks := if c < |b| then [] else [c + 1 - |b|];
    LineEndInPiece(b, pending);
    ReturnedIff(b, pending, chunks, size);
    var p := LineEnd(b + pending);
    if c >= |b| {
      assert Delivered(size - |b|, |pending|, chunks) == c + 1 - |b|;
      assert BroughtBy(|b|, |pending|, chunks, size, c) == 1 + BroughtBy(c + 1, |b| + |pending| - c - 1, [], size, c) == 1;
      assert BroughtBy(|b|, |pending|, chunks, size, p) == 1 + BroughtBy(c + 1, |b| + |pending| - c - 1, [], size, p);
    }
  }

  /** The bytes a, CR and LF, of which the last comes alone: the first call returns nothing, the second one the line. */
  lemma {:induction false} EndComesLate(a: char, size: nat)
    requires a != CR && a != LF && size >= 3
    ensures CR == 13 as char && LF == 10 as char && NUL == 0 as char
    ensures Call([], [a, CR, LF], [2, 1], size) == Outcome(None, [a, NUL], [LF], [1])
    ensures Call([a, NUL], [LF], [1], size) == Outcome(Some([a, NUL]), [], [], [])
  {
    assert Filled([], [a, CR, LF], [2, 1], size) == Outcome(None, [a, CR], [LF], [1]) by {
      assert [] + [a, CR, LF][..2] == [a, CR] && [a, CR, LF][2..] == [LF] && Later([2, 1]) == [1];
      assert CR in [a, CR];
    }
    assert LineEnd([a, CR]) == 2 by { LineEndInPiece([a, CR], []); }
    assert Blanked([a, CR]) == [a, NUL];
    assert Filled([a, NUL], [LF], [1], size) == Outcome(None, [a, NUL, LF], [], []) by {
      assert [a, NUL] + [LF][..1] == [a, NUL, LF] && [LF][1..] == [] && Later([1]) == [];
      assert LF in [a, NUL, LF];
    }
    LineEndIs([a, NUL, LF], 2);
    NothingToBlank([a, NUL]);
    assert [a, NUL, LF][..2] == [a, NUL] && [a, NUL, LF][3..] == [];
  }

  class Client {
    const current: array<char>
    var at: nat
    var len: nat

    ghost predicate Valid()
      reads this
    {
      at + len <= current.Length && (len == 0 ==> at == 0)
    }

    /** What has been received and not returned yet. */
    ghost function Buffered(): seq<char>
      reads this, current
      requires Valid()
    {
      current[at..at + len]
    }

    constructor (size: nat)
      requires size > 0
      ensures Valid() && Buffered() == [] && current.Length == size && fresh(current)
    {
      current := new char[size];
      at, len := 0, 0;
    }

    /** Moves what is buffered to the front. */
    method MoveToFront()
      requires Valid()
      modifies this`at, current
      ensures Valid() && at == 0 && Buffered() == old(Buffered())
    {
      if len > 0 && at != 0 {
        ghost var all := current[..];
        for i := 0 to len
          invariant at == old(at) && len == old(len)
          invariant forall k :: 0 <= k < i ==> current[k] == all[at + k]
          invariant forall k :: i <= k < current.Length ==> current[k] == all[k]
        {
          current[i] := current[at + i];
        }
        at := 0;
      }
    }

    method HasLineEnd() returns (has: bool)
      requires Valid() && at == 0
      ensures has <==> CR in Buffered() || LF in Buffered()
    {
      has := false;
      for i := 0 to len
        invariant has <==> exists k :: 0 <= k < i && (current[k] == CR || current[k] == LF)
      {
        if current[i] == CR || current[i] == LF { has := true; }
      }
      assert forall k :: 0 <= k < len ==> current[k] == Buffered()[k];
    }

    method Append(data: seq<char>)
      requires Valid() && at == 0 && len + |data| <= current.Length
      modifies this`len, current
      ensures Valid() && at == 0 && Buffered() == old(Buffered()) + data
    {
      forall i | 0 <= i < |data| { current[len + i] := data[i]; }
      len := len + |data|;
    }

    /** One receive call; the answer tells whether anything came. */
    method ReceiveSome(socket: Socket) returns (got: bool)
      requires Valid() && at == 0
      modifies this`len, current, socket
      ensures Valid() && at == 0
      ensures var n := Delivered(current.Length - |old(Buffered())|, |old(socket.pending)|, old(socket.chunks));
        && got == (n > 0) && Buffered() == old(Buffered()) + old(socket.pending)[..n]
        && socket.pending == old(socket.pending)[n..]
        && socket.chunks == if n == 0 then old(socket.chunks) else Later(old(socket.chunks))
    {
      var data := socket.Recv(current.Length - len);
      Append(data);
      got := |data| > 0;
    }

    /** Receives until a line end has come, the buffer is full, or nothing more comes. */
    method Fill(socket: Socket)
      requires Valid() && at == 0
      modifies this`len, current, socket
      ensures Valid() && at == 0
      ensures Outcome(None, Buffered(), socket.pending, socket.chunks)
           == Filled(old(Buffered()), old(socket.pending), old(socket.chunks), current.Length)
    {
      ghost var all := Filled(Buffered(), socket.pending, socket.chunks, current.Length);
      var more := HasLineEnd();
      while !more
        invariant Valid() && at == 0 && Filled(Buffered(), socket.pending, socket.chunks, current.Length) == all
        invariant if more then Enough(Buffered(), socket.pending, current.Length) else CR !in Buffered() && LF !in Buffered()
        decreases |socket.pending|, !more
      {
        ghost var b, pending, chunks := Buffered(), socket.pending, socket.chunks;
        var got := ReceiveSome(socket);
        FilledStep(b, pending, chunks, current.Length);
        more := HasLineEnd();
        if !got { more := true; }
      }
    }

    /**
     * One call, by the schedule: the next line, without its line end and with its carriage
     * returns blanked. It is returned if it has an end and fits the buffer, unless there is a
     * carriage return in it and its end has not been received before: then a call may return
     * nothing, but blanks at least one of those.
     */
    method Receive(socket: Socket) returns (line: Option<seq<char>>)
      requires Valid()
      modifies this, current, socket
      ensures Valid()
      ensures Outcome(line, Buffered(), socket.pending, socket.chunks)
           == Call(old(Buffered()), old(socket.pending), old(socket.chunks), current.Length)
      ensures Proper(old(Buffered() + socket.pending), old(LF in Buffered()), line, Buffered() + socket.pending, current.Length)
    {
      ghost var b0, pending0, chunks0 := Buffered(), socket.pending, socket.chunks;
      MoveToFront();
      Fill(socket);
      line := CutLine();
      CallIsProper(b0, pending0, chunks0, current.Length);
    }

    /** Blanks a carriage return or a line end, and tells which. */
    method BlankAt(i: nat, ghost b: seq<char>) returns (end: bool)
      requires len <= current.Length && len == |b| && i < len && CutTo(b, current[..len], i)
      modifies current
      ensures if end then b[i] == LF && CutTo(b, current[..len][i := LF], i) else CutTo(b, current[..len], i + 1)
    {
      ghost var s := current[..len];
      CutOn(b, s, i);
      end := current[i] == LF;
      if current[i] == CR || current[i] == LF { current[i] := NUL; }
      assert current[..len] == s[i := Plain(b[i])] || (end && current[..len] == s[i := NUL]);
      assert end ==> current[..len][i := LF] == s;
    }

    /** Blanks the carriage returns up to the first line end, and that too. */
    method BlankToEnd() returns (i: nat, found: bool)
      requires Valid() && at == 0
      modifies current
      ensures var b := old(Buffered());
        if found then
          && i < len && LF in b && LineEnd(b) == i
          && current[..len][..i] == Blanked(b[..i]) && current[..len][i + 1..] == b[i + 1..]
        else LF !in b && current[..len] == Blanked(b)
    {
      ghost var b := Buffered();
      assert current[..len] == b;
      StartOfCut(b);
      i, found := 0, false;
      while i < len && !found
        invariant i <= len == |b|
        invariant !found ==> CutTo(b, current[..len], i)
        invariant found ==> i < len && b[i] == LF && CutTo(b, current[..len][i := LF], i)
        decreases len - i, !found
      {
        found := BlankAt(i, b);
        if !found { i := i + 1; }
      }
      if found { CutHere(b, current[..len], i); } else { EndOfCut(b, current[..len]); }
    }

    /** Cuts the first line off the buffer; carriage returns before its end are blanked. */
    method CutLine() returns (line: Option<seq<char>>)
      requires Valid() && at == 0
      modifies this, current
      ensures Valid()
      ensures var b := old(Buffered());
        if LF in b then line == Some(Blanked(b[..LineEnd(b)])) && Buffered() == b[LineEnd(b) + 1..]
        else line == None && Buffered() == Blanked(b)
    {
      var i, found := BlankToEnd();
      if !found { return None; }
      line := Some(current[..i]);
      assert current[..len][..i] == current[..i] && current[..len][i + 1..] == current[i + 1..len];
      len := len - i - 1;
      at := if len > 0 then i + 1 else 0;
    }

    /** Asked again as long as it returns nothing, it returns every line that has an end and fits the buffer. */
    method ReceiveLine(socket: Socket) returns (line: seq<char>)
      requires Valid()
      requires LineEnd(Buffered() + socket.pending) < |Buffered() + socket.pending|
      requires LineEnd(Buffered() + socket.pending) < current.Length
      modifies this, current, socket
      ensures Valid()
      ensures var all := old(Buffered() + socket.pending);
        line == Blanked(all[..LineEnd(all)]) && Blanked(Buffered() + socket.pending) == Blanked(all[LineEnd(all) + 1..])
    {
      ghost var all := Buffered() + socket.pending;
      var next := None;
      while next == None
        invariant Valid()
        invariant next == None ==> Blanked(Buffered() + socket.pending) == Blanked(all)
        invariant next.Some? ==>
          next.value == Blanked(all[..LineEnd(all)]) && Blanked(Buffered() + socket.pending) == Blanked(all[LineEnd(all) + 1..])
        decreases next == None, Returns(Buffered() + socket.pending)
      {
        ghost var before := Buffered() + socket.pending;
        ghost var ended := LF in Buffered();
        SameLineEnd(before, all);
        next := Receive(socket);
        if next.Some? { LineOfBlanked(all, before, ended, next.value, Buffered() + socket.pending, current.Length); }
      }
      line := next.value;
    }

    method ReceiveNext(socket: Socket) returns (line: seq<char>)
      requires Valid() && CR !in Buffered() + socket.pending
      requires Lines(Buffered() + socket.pending) != [] && |Lines(Buffered() + socket.pending)[0]| < current.Length
      modifies this, current, socket
      ensures Valid() && CR !in Buffered() + socket.pending
      ensures Lines(old(Buffered() + socket.pending)) == [line] + Lines(Buffered() + socket.pending)
    {
      ghost var all := Buffered() + socket.pending;
      var next := Receive(socket);
      NothingToBlank(all[..LineEnd(all)]);
      line := next.value;
    }

    /** Successive calls return the successive lines of the stream. */
    method ReceiveMany(socket: Socket, n: nat) returns (lines: seq<seq<char>>)
      requires Valid() && CR !in Buffered() + socket.pending && n <= |Lines(Buffered() + socket.pending)|
      requires forall i :: 0 <= i < n ==> |Lines(Buffered() + socket.pending)[i]| < current.Length
      modifies this, current, socket
      ensures Valid() && |lines| == n
      ensures Lines(old(Buffered() + socket.pending)) == lines + Lines(Buffered() + socket.pending)
    {
      ghost var all := Lines(Buffered() + socket.pending);
      lines := [];
      for k := 0 to n
        invariant Valid() && CR !in Buffered() + socket.pending
        invariant |lines| == k && all == lines + Lines(Buffered() + socket.pending)
      {
        ghost var later := Lines(Buffered() + socket.pending);
        assert later[0] == all[k];
        var line := ReceiveNext(socket);
        assert lines + later == (lines + [line]) + Lines(Buffered() + socket.pending);
        lines := lines + [line];
      }
    }
  }
}
