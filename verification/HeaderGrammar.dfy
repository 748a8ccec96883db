/** Which texts are read as headers: exactly those of one grammar, comments included. */
module HeaderGrammar {
  import opened Options
  import opened Bytes
  import opened NetpbmText

  predicate IsWhite(c: byte) {
    c == 9 || c == 10 || c == 11 || c == 12 || c == 13 || c == 32
  }

  /** Tabs, line ends and blanks. */
  ghost predicate White(s: seq<byte>) {
    forall i :: 0 <= i < |s| ==> IsWhite(s[i])
  }

  ghost predicate Numeral(s: seq<byte>) {
    s != [] && forall i :: 0 <= i < |s| ==> 48 <= s[i] <= 57
  }

  ghost predicate NoNumeral(s: seq<byte>) {
    forall i :: 0 <= i < |s| ==> !(48 <= s[i] <= 57)
  }

  /**
   * What stands behind the magic number: white space, comments, anything without digits, and
   * three numerals, of which the last is followed by one byte and the pixels.
   */
  datatype Layout = Layout(space: seq<byte>, comments: seq<seq<byte>>, junk: seq<byte>, width: seq<byte>,
                           space1: seq<byte>, height: seq<byte>, space2: seq<byte>, top: seq<byte>, after: seq<byte>)

  /** Comment lines, from # to the line end. */
  function CommentLines(comments: seq<seq<byte>>): seq<byte> {
    if comments == [] then [] else [35] + (comments[0] + ([10] + CommentLines(comments[1..])))
  }

  ghost predicate OneLineEach(comments: seq<seq<byte>>) {
    forall i :: 0 <= i < |comments| ==> 10 !in comments[i]
  }

  ghost predicate Fine(l: Layout) {
    && White(l.space) && OneLineEach(l.comments) && NoNumeral(l.junk)
    && (l.junk != [] ==> l.junk[0] != 35 && (l.comments == [] ==> !White(l.junk[..1])))
    && Numeral(l.width) && Numeral(l.height) && Numeral(l.top)
    && l.space1 != [] && White(l.space1) && l.space2 != [] && White(l.space2)
    && (l.after != [] ==> NoNumeral(l.after[..1]))
  }

  function Numbers(l: Layout): seq<byte> {
    l.width + (l.space1 + (l.height + (l.space2 + (l.top + l.after))))
  }

  function Written(color: bool, l: Layout): seq<byte> {
    [80, if color then 54 else 53] + (l.space + (CommentLines(l.comments) + (l.junk + Numbers(l))))
  }

  ghost predicate Means(l: Layout, p: Parsed) {
    && (forall i :: 0 <= i < |l.width| ==> IsDigit(l.width[i])) && (forall i :: 0 <= i < |l.height| ==> IsDigit(l.height[i]))
    && (forall i :: 0 <= i < |l.top| ==> IsDigit(l.top[i]))
    && p.width == Number(l.width) && p.height == Number(l.height) && Number(l.top) == 255
    && p.body == if l.after == [] then [] else l.after[1..]
  }

  // ----- such a text is read

  lemma {:induction false} LineSkipped(c: seq<byte>, t: seq<byte>)
    requires 10 !in c
    ensures AfterLine(c + ([10] + t)) == t
  {
    if c == [] {
      assert c + ([10] + t) == [10] + t;
    } else {
      assert (c + ([10] + t))[1..] == c[1..] + ([10] + t);
      LineSkipped(c[1..], t);
    }
  }

  lemma {:induction false} CommentsSkipped(comments: seq<seq<byte>>, t: seq<byte>)
    requires OneLineEach(comments) && (t != [] ==> t[0] != 35)
    ensures AfterComments(CommentLines(comments) + t) == t
    decreases |comments|
  {
    if comments == [] {
      assert CommentLines(comments) + t == t;
    } else {
      var c, later := comments[0], comments[1..];
      OneCommentSkipped(c, CommentLines(later) + t);
      CommentFirst(c, later, t);
      assert [c] + later == comments;
      CommentsSkipped(later, t);
    }
  }

  lemma {:induction false} OneCommentSkipped(c: seq<byte>, t: seq<byte>)
    requires 10 !in c
    ensures AfterComments([35] + (c + ([10] + t))) == AfterComments(t)
  {
    assert ([35] + (c + ([10] + t)))[1..] == c + ([10] + t);
    LineSkipped(c, t);
  }

  lemma {:induction false} JunkSkipped(junk: seq<byte>, t: seq<byte>)
    requires NoNumeral(junk) && t != [] && 48 <= t[0] <= 57
    ensures AfterNonDigits(junk + t) == t
  {
    if junk == [] {
      assert junk + t == t;
    } else {
      assert (junk + t)[1..] == junk[1..] + t;
      JunkSkipped(junk[1..], t);
    }
  }

  lemma {:induction false} StartSkipped(l: Layout)
    requires Fine(l)
    ensures SizeStart(l.space + (CommentLines(l.comments) + (l.junk + Numbers(l)))) == Numbers(l)
  {
    var t := l.junk + Numbers(l);
    var u := CommentLines(l.comments) + t;
    assert Numbers(l)[0] == l.width[0];
    assert t[0] == if l.junk == [] then l.width[0] else l.junk[0];
    assert l.junk != [] ==> l.junk[..1] == [l.junk[0]];
    assert u[0] == if l.comments == [] then t[0] else 35;
    SpacesAre(l.space, u);
    assert (l.space + u)[|l.space|..] == u;
    CommentsSkipped(l.comments, t);
    JunkSkipped(l.junk, Numbers(l));
  }

  lemma {:induction false} NumeralRead(space: seq<byte>, d: seq<byte>, rest: seq<byte>)
    requires White(space) && Numeral(d) && (rest != [] ==> NoNumeral(rest[..1]))
    ensures AllDigits(d) && Scan(space + (d + rest)) == Some((Number(d), rest))
  {
    assert rest != [] ==> rest[..1] == [rest[0]];
    ScanDigits(space, d, rest);
  }

  lemma {:induction false} SpaceFirst(space: seq<byte>, t: seq<byte>)
    requires space != [] && White(space)
    ensures space + t != [] && NoNumeral((space + t)[..1])
  {
    assert (space + t)[..1] == [space[0]];
  }

  lemma {:induction false} NumbersRead(color: bool, l: Layout, p: Parsed)
    requires Fine(l) && Means(l, p) && p.color == color
    ensures ReadSize(color, Numbers(l)) == Some(p)
  {
    var t3 := l.space2 + (l.top + l.after);
    var t2 := l.space1 + (l.height + t3);
    assert [] + (l.width + t2) == Numbers(l);
    SpaceFirst(l.space1, l.height + t3);
    SpaceFirst(l.space2, l.top + l.after);
    NumeralRead([], l.width, t2);
    NumeralRead(l.space1, l.height, t3);
    NumeralRead(l.space2, l.top, l.after);
    SizeRead(color, Numbers(l), Number(l.width), t2, Number(l.height), t3, l.after);
  }

  lemma {:induction false} WrittenIsRead(l: Layout, p: Parsed)
    requires Fine(l) && Means(l, p)
    ensures ReadHeader(Written(p.color, l)) == Some(p)
  {
    var later := l.space + (CommentLines(l.comments) + (l.junk + Numbers(l)));
    AfterMagic([80, if p.color then 54 else 53], later);
    StartSkipped(l);
    NumbersRead(p.color, l, p);
  }

  // ----- and no other

  lemma {:induction false} LineOf(s: seq<byte>) returns (c: seq<byte>)
    requires AfterLine(s) != []
    ensures 10 !in c && s == c + ([10] + AfterLine(s))
  {
    if s[0] == 10 {
      c := [];
    } else {
      c := LineOf(s[1..]);
      c := [s[0]] + c;
    }
  }

  lemma {:induction false} FirstByte(s: seq<byte>)
    requires s != []
    ensures s == [s[0]] + s[1..]
  {
  }

  lemma {:induction false} CommentFirst(c: seq<byte>, later: seq<seq<byte>>, t: seq<byte>)
    ensures CommentLines([c] + later) + t == [35] + (c + ([10] + (CommentLines(later) + t)))
  {
    assert ([c] + later)[1..] == later;
  }

  lemma {:induction false} CommentsOf(s: seq<byte>) returns (comments: seq<seq<byte>>)
    requires AfterComments(s) != []
    ensures OneLineEach(comments) && s == CommentLines(comments) + AfterComments(s) && AfterComments(s)[0] != 35
    ensures comments == [] ==> AfterComments(s) == s
    decreases |s|
  {
    comments := [];
    if s[0] == 35 {
      var c := LineOf(s[1..]);
      var later := CommentsOf(AfterLine(s[1..]));
      comments := [c] + later;
      CommentFirst(c, later, AfterComments(s));
      FirstByte(s);
    }
  }

  lemma {:induction false} JunkOf(s: seq<byte>) returns (junk: seq<byte>)
    ensures NoNumeral(junk) && s == junk + AfterNonDigits(s)
    ensures AfterNonDigits(s) != [] ==> 48 <= AfterNonDigits(s)[0] <= 57
  {
    junk := [];
    if s != [] && !IsDigit(s[0]) {
      junk := JunkOf(s[1..]);
      junk := [s[0]] + junk;
    }
  }

  lemma {:induction false} ScanParts(s: seq<byte>) returns (space: seq<byte>, numeral: seq<byte>, rest: seq<byte>)
    requires Scan(s).Some?
    ensures White(space) && Numeral(numeral) && (rest != [] ==> !IsDigit(rest[0])) && s == space + (numeral + rest)
    ensures (forall i :: 0 <= i < |numeral| ==> IsDigit(numeral[i])) && Scan(s) == Some((Number(numeral), rest))
  {
    var t := s[Spaces(s)..];
    space, numeral, rest := s[..Spaces(s)], t[..Digits(t)], t[Digits(t)..];
  }

  /** The three numerals and what is between them. */
  lemma {:induction false} NumbersOf(color: bool, s: seq<byte>, space: seq<byte>, comments: seq<seq<byte>>, junk: seq<byte>)
    returns (l: Layout)
    requires ReadSize(color, s).Some? && s != [] && IsDigit(s[0])
    ensures Numbers(l) == s && Means(l, ReadSize(color, s).value)
    ensures l.space == space && l.comments == comments && l.junk == junk
    ensures Numeral(l.width) && Numeral(l.height) && Numeral(l.top) && (l.after != [] ==> NoNumeral(l.after[..1]))
    ensures l.space1 != [] && White(l.space1) && l.space2 != [] && White(l.space2)
  {
    var space0, width, s2 := ScanParts(s);
    var space1, height, s3 := ScanParts(s2);
    var space2, top, after := ScanParts(s3);
    NoSpaceFirst(s, space0, width + s2);
    SomeSpace(s2, space1, height, s3);
    SomeSpace(s3, space2, top, after);
    FirstOf(after);
    l := Layout(space, comments, junk, width, space1, height, space2, top, after);
    SizeRead(color, s, Number(width), s2, Number(height), s3, after);
  }

  lemma {:induction false} NoSpaceFirst(s: seq<byte>, space: seq<byte>, t: seq<byte>)
    requires s != [] && IsDigit(s[0]) && White(space) && s == space + t
    ensures s == t
  {
    if space != [] { assert false; }
  }

  lemma {:induction false} SomeSpace(s: seq<byte>, space: seq<byte>, numeral: seq<byte>, rest: seq<byte>)
    requires (s != [] ==> !IsDigit(s[0])) && Numeral(numeral) && s == space + (numeral + rest)
    ensures space != []
  {
    if space == [] { assert false; }
  }

  lemma {:induction false} FirstOf(s: seq<byte>)
    requires s != [] ==> !IsDigit(s[0])
    ensures s != [] ==> NoNumeral(s[..1])
  {
    if s != [] { assert s[..1] == [s[0]]; }
  }

  lemma {:induction false} PartsTogether(s: seq<byte>, t: seq<byte>, k: nat, u: seq<byte>, lines: seq<byte>, v: seq<byte>,
                                         junk: seq<byte>, n: seq<byte>)
    requires |s| >= 2 && t == s[2..] && k <= |t| && u == t[k..] && u == lines + v && v == junk + n
    ensures s == [s[0], s[1]] + (t[..k] + (lines + (junk + n)))
  {
    assert t == t[..k] + t[k..];
    assert s == [s[0], s[1]] + t;
  }

  /** Junk starts with what follows the comments, or the white space when there are none. */
  lemma {:induction false} JunkStart(u: seq<byte>, comments: seq<seq<byte>>, v: seq<byte>, junk: seq<byte>, n: seq<byte>)
    requires v == junk + n && v != [] && v[0] != 35 && (comments == [] ==> u == v) && (u != [] ==> !IsSpace(u[0]))
    ensures junk != [] ==> junk[0] != 35 && (comments == [] ==> !White(junk[..1]))
  {
    if junk != [] {
      assert junk[..1][0] == v[0] == junk[0];
    }
  }

  lemma {:induction false} SpacesAreWhite(t: seq<byte>)
    ensures White(t[..Spaces(t)])
  {
  }

  lemma {:induction false} ReadSizeStarts(color: bool, s: seq<byte>)
    requires ReadSize(color, s).Some?
    ensures s != []
  {
  }

  lemma {:induction false} ReadIsWritten(s: seq<byte>) returns (l: Layout)
    requires ReadHeader(s).Some?
    ensures Fine(l) && s == Written(ReadHeader(s).value.color, l) && Means(l, ReadHeader(s).value)
  {
    var color, t := s[1] == 54, s[2..];
    var k := Spaces(t);
    var u := t[k..];
    var v := AfterComments(u);
    var n := AfterNonDigits(v);
    ReadSizeStarts(color, n);
    var junk := JunkOf(v);
    var comments := CommentsOf(u);
    l := NumbersOf(color, n, t[..k], comments, junk);
    SpacesAreWhite(t);
    JunkStart(u, comments, v, junk, n);
    PartsTogether(s, t, k, u, CommentLines(comments), v, junk, n);
  }

  /** A text is read as a header with a certain size and pixels if and only if it is written so. */
  lemma {:induction false} ReadIffWritten(s: seq<byte>, p: Parsed)
    ensures ReadHeader(s) == Some(p) <==> exists l :: Fine(l) && s == Written(p.color, l) && Means(l, p)
  {
    if ReadHeader(s) == Some(p) {
      var l := ReadIsWritten(s);
    }
    if l :| Fine(l) && s == Written(p.color, l) && Means(l, p) {
      WrittenIsRead(l, p);
    }
  }

  // ----- comments

  lemma {:induction false} AfterNewLine(m: byte, u: seq<byte>)
    requires (m == 53 || m == 54) && u != [] && !IsSpace(u[0])
    ensures ReadHeader([80, m, 10] + u) == ReadSize(m == 54, AfterNonDigits(AfterComments(u)))
  {
    assert [80, m, 10] + u == [80, m] + ([10] + u);
    AfterMagic([80, m], [10] + u);
    SpacesAre([10], u);
    assert ([10] + u)[1..] == u;
  }

  lemma {:induction false} FirstCommentOf(m: byte, c: seq<byte>, t: seq<byte>)
    ensures [80, m, 10, 35] + c + [10] + t == [80, m, 10] + ([35] + (c + ([10] + t)))
  {
  }

  /** A comment line behind the magic number changes nothing. */
  lemma {:induction false} CommentIgnored(m: byte, c: seq<byte>, t: seq<byte>)
    requires (m == 53 || m == 54) && 10 !in c && t != [] && (48 <= t[0] <= 57 || t[0] == 35)
    ensures ReadHeader([80, m, 10, 35] + c + [10] + t) == ReadHeader([80, m, 10] + t)
  {
    FirstCommentOf(m, c, t);
    AfterNewLine(m, [35] + (c + ([10] + t)));
    AfterNewLine(m, t);
    OneCommentSkipped(c, t);
  }

  lemma {:induction false} LinesStart(comments: seq<seq<byte>>, t: seq<byte>)
    requires t != []
    ensures CommentLines(comments) + t != []
    ensures (CommentLines(comments) + t)[0] == if comments == [] then t[0] else 35
  {
  }

  /** Any number of comment lines there change nothing. */
  lemma {:induction false} CommentsIgnored(m: byte, comments: seq<seq<byte>>, t: seq<byte>)
    requires (m == 53 || m == 54) && OneLineEach(comments) && t != [] && 48 <= t[0] <= 57
    ensures ReadHeader([80, m, 10] + (CommentLines(comments) + t)) == ReadHeader([80, m, 10] + t)
  {
    LinesStart(comments, t);
    AfterNewLine(m, CommentLines(comments) + t);
    AfterNewLine(m, t);
    CommentsSkipped(comments, t);
  }

  // ----- headers as they are printed

  lemma {:induction false} Digits1To3(n: nat)
    ensures n < 10 ==> Decimal(n) == [48 + n]
    ensures 10 <= n < 100 ==> Decimal(n) == [48 + n / 10, 48 + n % 10]
    ensures 100 <= n < 1000 ==> Decimal(n) == [48 + n / 100, 48 + n / 10 % 10, 48 + n % 10]
  {
    if n >= 100 { assert Decimal(n / 10) == Decimal(n / 10 / 10) + [48 + n / 10 % 10]; }
  }

  /** The header of a colour image is P6, a line with width and height, and a line with 255. */
  lemma {:induction false} PrintedSo()
    ensures Header(true, 640, 48) == [80, 54, 10, 54, 52, 48, 32, 52, 56, 10, 50, 53, 53, 10]
    ensures Header(false, 9, 10) == [80, 53, 10, 57, 32, 49, 48, 10, 50, 53, 53, 10]
  {
    Digits1To3(640);
    Digits1To3(48);
    Digits1To3(255);
    Digits1To3(9);
    Digits1To3(10);
  }
}
