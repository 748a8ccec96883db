/** The header of a raw PGM or PPM file: a magic number, the size and the largest value, in decimal. */
module NetpbmText {
  import opened Options
  import opened Bytes

  function Decimal(n: nat): (d: seq<byte>)
    ensures |d| > 0 && forall i :: 0 <= i < |d| ==> IsDigit(d[i])
  {
    if n < 10 then [48 + n] else Decimal(n / 10) + [48 + n % 10]
  }

  predicate IsDigit(c: byte) {
    48 <= c <= 57
  }

  predicate IsSpace(c: byte) {
    c == 32 || 9 <= c <= 13
  }

  function Digits(s: seq<byte>): (n: nat)
    ensures n <= |s| && (n < |s| ==> !IsDigit(s[n]))
    ensures forall i :: 0 <= i < n ==> IsDigit(s[i])
  {
    if s == [] || !IsDigit(s[0]) then 0 else 1 + Digits(s[1..])
  }

  function Spaces(s: seq<byte>): (n: nat)
    ensures n <= |s| && (n < |s| ==> !IsSpace(s[n]))
    ensures forall i :: 0 <= i < n ==> IsSpace(s[i])
  {
    if s == [] || !IsSpace(s[0]) then 0 else 1 + Spaces(s[1..])
  }

  function Number(d: seq<byte>): nat
    requires forall i :: 0 <= i < |d| ==> IsDigit(d[i])
  {
    if d == [] then 0 else
      assert IsDigit(d[|d| - 1]);
      10 * Number(d[..|d| - 1]) + (d[|d| - 1] as int - 48)
  }

  /** Reading a printed number gives it back. */
  lemma {:induction false} NumberOfDecimal(n: nat)
    ensures Number(Decimal(n)) == n
  {
    if n < 10 {
      assert Decimal(n)[..0] == [];
    } else {
      NumberOfDecimal(n / 10);
      assert Decimal(n)[..|Decimal(n)| - 1] == Decimal(n / 10);
    }
  }

  /** A number after any white space, and what follows it. */
  function Scan(s: seq<byte>): Option<(nat, seq<byte>)> {
    var t := s[Spaces(s)..];
    var k := Digits(t);
    if k == 0 then None else Some((Number(t[..k]), t[k..]))
  }

  predicate AllDigits(d: seq<byte>) {
    d != [] && forall i :: 0 <= i < |d| ==> IsDigit(d[i])
  }

  lemma {:induction false} ScanDigits(sp: seq<byte>, d: seq<byte>, rest: seq<byte>)
    requires (forall i :: 0 <= i < |sp| ==> IsSpace(sp[i])) && AllDigits(d) && (rest == [] || !IsDigit(rest[0]))
    ensures Scan(sp + (d + rest)) == Some((Number(d), rest))
  {
    var s := sp + (d + rest);
    SpacesAre(sp, d + rest);
    assert s[|sp|..] == d + rest;
    DigitsAre(d, rest);
    assert (d + rest)[..|d|] == d && (d + rest)[|d|..] == rest;
  }

  lemma {:induction false} SpacesAre(sp: seq<byte>, t: seq<byte>)
    requires (forall i :: 0 <= i < |sp| ==> IsSpace(sp[i])) && (t == [] || !IsSpace(t[0]))
    ensures Spaces(sp + t) == |sp|
  {
    if sp == [] { assert sp + t == t; } else { SpacesAre(sp[1..], t); assert (sp + t)[1..] == sp[1..] + t; }
  }

  lemma {:induction false} DigitsAre(d: seq<byte>, t: seq<byte>)
    requires (forall i :: 0 <= i < |d| ==> IsDigit(d[i])) && (t == [] || !IsDigit(t[0]))
    ensures Digits(d + t) == |d|
  {
    if d == [] { assert d + t == t; } else { DigitsAre(d[1..], t); assert (d + t)[1..] == d[1..] + t; }
  }

  // ----- the header

  /** Raw grey maps are P5, raw colour maps P6. */
  function Magic(color: bool): byte {
    if color then 54 else 53
  }

  function Header(color: bool, w: nat, h: nat): seq<byte> {
    HeaderOf(Magic(color), Decimal(w), Decimal(h), Decimal(255))
  }

  function HeaderOf(magic: byte, w: seq<byte>, h: seq<byte>, top: seq<byte>): seq<byte> {
    [80, magic, 10] + w + [32] + h + [10] + top + [10]
  }

  function AfterLine(s: seq<byte>): (r: seq<byte>)
    ensures |r| <= |s|
  {
    if s == [] then [] else if s[0] == 10 then s[1..] else AfterLine(s[1..])
  }

  function AfterComments(s: seq<byte>): (r: seq<byte>)
    ensures |r| <= |s|
    decreases |s|
  {
    if s != [] && s[0] == 35 then AfterComments(AfterLine(s[1..])) else s
  }

  function AfterNonDigits(s: seq<byte>): seq<byte> {
    if s == [] || IsDigit(s[0]) then s else AfterNonDigits(s[1..])
  }

  datatype Parsed = Parsed(color: bool, width: nat, height: nat, body: seq<byte>)

  /** White space, comments and whatever else stands before the size. */
  function SizeStart(s: seq<byte>): seq<byte> {
    AfterNonDigits(AfterComments(s[Spaces(s)..]))
  }

  /** Width, height and the largest value, which must be 255, and one more byte. */
  function ReadSize(color: bool, s1: seq<byte>): Option<Parsed> {
    match Scan(s1)
    case None => None
    case Some((w, s2)) =>
      match Scan(s2)
      case None => None
      case Some((h, s3)) =>
        match Scan(s3)
        case None => None
        case Some((top, s4)) =>
          if top != 255 then None else Some(Parsed(color, w, h, if s4 == [] then [] else s4[1..]))
  }

  /** Only raw maps are accepted; comments may stand before the size. */
  function ReadHeader(s: seq<byte>): Option<Parsed> {
    if |s| < 2 || s[0] != 80 || (s[1] != 53 && s[1] != 54) then None
    else ReadSize(s[1] == 54, SizeStart(s[2..]))
  }

  /** What is printed as a header is read as the same size, and the pixels start right behind it. */
  lemma {:induction false} HeaderComesBack(color: bool, w: nat, h: nat, body: seq<byte>)
    ensures ReadHeader(Header(color, w, h) + body) == Some(Parsed(color, w, h, body))
  {
    NumberOfDecimal(w);
    NumberOfDecimal(h);
    NumberOfDecimal(255);
    HeaderIsRead(color, Decimal(w), Decimal(h), Decimal(255), body);
  }

  lemma {:induction false} HeaderIsRead(color: bool, w: seq<byte>, h: seq<byte>, top: seq<byte>, body: seq<byte>)
    requires AllDigits(w) && AllDigits(h) && AllDigits(top) && Number(top) == 255
    ensures ReadHeader(HeaderOf(Magic(color), w, h, top) + body) == Some(Parsed(color, Number(w), Number(h), body))
  {
    var t1 := w + ([32] + (h + ([10] + (top + ([10] + body)))));
    HeaderSplit(Magic(color), w, h, top, body);
    SizeComesBack(color, w, h, top, body);
    assert t1[0] == w[0];
    MagicIsRead(color, t1);
  }

  lemma {:induction false} MagicIsRead(color: bool, t: seq<byte>)
    requires t != [] && IsDigit(t[0])
    ensures ReadHeader([80, Magic(color)] + ([10] + t)) == ReadSize(color, t)
  {
    SizeStartIs(t);
    AfterMagic([80, Magic(color)], [10] + t);
  }

  lemma {:induction false} AfterMagic(magic: seq<byte>, later: seq<byte>)
    requires |magic| == 2 && magic[0] == 80 && (magic[1] == 53 || magic[1] == 54)
    ensures ReadHeader(magic + later) == ReadSize(magic[1] == 54, SizeStart(later))
  {
    assert (magic + later)[2..] == later;
  }

  lemma {:induction false} SizeStartIs(t: seq<byte>)
    requires t != [] && IsDigit(t[0])
    ensures SizeStart([10] + t) == t
  {
    SpacesAre([10], t);
    assert ([10] + t)[1..] == t;
  }

  lemma {:induction false} HeaderSplit(magic: byte, w: seq<byte>, h: seq<byte>, top: seq<byte>, body: seq<byte>)
    ensures HeaderOf(magic, w, h, top) + body
      == [80, magic] + ([10] + (w + ([32] + (h + ([10] + (top + ([10] + body)))))))
  {
  }

  lemma {:induction false} SizeComesBack(color: bool, w: seq<byte>, h: seq<byte>, top: seq<byte>, body: seq<byte>)
    requires AllDigits(w) && AllDigits(h) && AllDigits(top) && Number(top) == 255
    ensures ReadSize(color, w + ([32] + (h + ([10] + (top + ([10] + body)))))) == Some(Parsed(color, Number(w), Number(h), body))
  {
    ThreeNumbers(color, w, [32], h, [10], top, [10] + body);
    assert ([10] + body)[1..] == body;
  }

  predicate Separates(sp: seq<byte>) {
    sp != [] && forall i :: 0 <= i < |sp| ==> IsSpace(sp[i])
  }

  lemma {:induction false} ThreeNumbers(color: bool, w: seq<byte>, sp1: seq<byte>, h: seq<byte>, sp2: seq<byte>,
                                        top: seq<byte>, t4: seq<byte>)
    requires AllDigits(w) && AllDigits(h) && AllDigits(top) && Number(top) == 255
    requires Separates(sp1) && Separates(sp2) && t4 != [] && !IsDigit(t4[0])
    ensures ReadSize(color, w + (sp1 + (h + (sp2 + (top + t4))))) == Some(Parsed(color, Number(w), Number(h), t4[1..]))
  {
    var t3 := sp2 + (top + t4);
    var t2 := sp1 + (h + t3);
    var t1 := w + t2;
    assert [] + (w + t2) == t1;
    assert t2[0] == sp1[0] && t3[0] == sp2[0];
    ScanDigits([], w, t2);
    ScanDigits(sp1, h, t3);
    ScanDigits(sp2, top, t4);
    SizeRead(color, t1, Number(w), t2, Number(h), t3, t4);
  }

  lemma {:induction false} SizeRead(color: bool, t1: seq<byte>, w: nat, t2: seq<byte>, h: nat, t3: seq<byte>,
                                    t4: seq<byte>)
    requires Scan(t1) == Some((w, t2)) && Scan(t2) == Some((h, t3)) && Scan(t3) == Some((255, t4))
    ensures ReadSize(color, t1) == Some(Parsed(color, w, h, if t4 == [] then [] else t4[1..]))
  {
  }
}
