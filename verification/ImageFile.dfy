/** Images with padded rows, written to and read from raw PGM and PPM files. */
module ImageFile {
  import opened Options
  import opened Bytes
  import opened RowPadding
  import opened Sequences
  import opened NetpbmText
  import opened HeaderGrammar

  datatype Kind = Mono | Rgb | Bgr

  function Channels(kind: Kind): nat {
    if kind == Mono then 1 else 3
  }

  /** Bytes of pixels in a row, and from the start of one row to the next. */
  function LineBytes(kind: Kind, w: nat): nat {
    w * Channels(kind)
  }

  function Step(kind: Kind, w: nat): nat {
    LineBytes(kind, w) + Pad(LineBytes(kind, w))
  }

  /** The first n bytes of each of the first h rows, one row after the other. */
  function Packed(s: seq<byte>, n: nat, step: nat, h: nat): (p: seq<byte>)
    requires n <= step && h * step <= |s|
    ensures |p| == h * n
  {
    if h == 0 then [] else
      RowInside(n, step, h - 1, h, |s|);
      Packed(s, n, step, h - 1) + s[(h - 1) * step..(h - 1) * step + n]
  }

  lemma {:induction false} RowInside(n: nat, step: nat, i: nat, h: nat, size: nat)
    requires n <= step && i < h && h * step <= size
    ensures 0 <= i * step <= i * step + n <= i * step + step <= size
  {
    assert (i + 1) * step <= h * step;
  }

  class Picture {
    const kind: Kind
    const width: nat
    const height: nat
    const cells: array<byte>

    ghost predicate Valid() {
      cells.Length == height * Step(kind, width)
    }

    /** The pixels without the padding. */
    ghost function Pixels(): seq<byte>
      reads cells
      requires Valid()
    {
      Packed(cells[..], LineBytes(kind, width), Step(kind, width), height)
    }

    constructor (k: Kind, w: nat, h: nat)
      ensures kind == k && width == w && height == h && Valid() && fresh(cells)
    {
      kind, width, height := k, w, h;
      cells := new byte[h * Step(k, w)];
    }

    /** Header and rows, the padding left out. */
    method Save() returns (file: seq<byte>)
      requires Valid()
      ensures file == Header(kind != Mono, width, height) + Pixels()
    {
      var rows := Rows();
      file := Header(kind != Mono, width, height) + rows;
    }

    method Rows() returns (rows: seq<byte>)
      requires Valid()
      ensures rows == Pixels()
    {
      var n, inc := LineBytes(kind, width), Step(kind, width);
      rows := [];
      var src := 0;
      for i := 0 to height
        invariant src == i * inc && src <= cells.Length && rows == Packed(cells[..], n, inc, i)
      {
        RowInside(n, inc, i, height, cells.Length);
        Distributes(i, inc);
        PackedNext(cells[..], n, inc, i);
        rows := rows + cells[src..src + n];
        src := src + inc;
      }
    }

    /** The first i rows have been read from body, or all there was. */
    ghost predicate Got(body: seq<byte>, i: nat, num: nat)
      requires Valid()
      reads cells
    {
      var n, inc := LineBytes(kind, width), Step(kind, width);
      && i <= height && i * inc <= cells.Length && num == (if |body| < i * n then |body| else i * n)
      && (i * n <= |body| ==> Packed(cells[..], n, inc, i) == body[..i * n])
    }

    /** Rows read from a file into the image, the padding put back in between. */
    method Fill(body: seq<byte>) returns (num: nat)
      requires Valid()
      modifies cells
      ensures num == if |body| < height * LineBytes(kind, width) then |body| else height * LineBytes(kind, width)
      ensures num == height * LineBytes(kind, width) ==> Pixels() == body[..num]
    {
      num := 0;
      for i := 0 to height
        invariant Got(body, i, num)
      {
        num := ReadRow(body, i, num);
      }
    }

    /** One row, or what there is left of the file. */
    method ReadRow(body: seq<byte>, i: nat, got: nat) returns (num: nat)
      requires Valid() && i < height && Got(body, i, got)
      modifies cells
      ensures Got(body, i + 1, num)
    {
      var n, inc := LineBytes(kind, width), Step(kind, width);
      RowInside(n, inc, i, height, cells.Length);
      Distributes(i, n);
      Distributes(i, inc);
      ghost var before := cells[..];
      var dst, count := i * inc, if |body| - got < n then |body| - got else n;
      forall k | 0 <= k < count { cells[dst + k] := body[got + k]; }
      num := got + count;
      if i * n + n <= |body| {
        assert cells[dst..dst + n] == body[i * n..i * n + n];
        RowGot(before, cells[..], body, n, inc, i);
      }
    }
  }

  lemma {:induction false} PackedNext(s: seq<byte>, n: nat, step: nat, i: nat)
    requires n <= step && (i + 1) * step <= |s|
    ensures i * step <= i * step + n <= |s|
    ensures Packed(s, n, step, i + 1) == Packed(s, n, step, i) + s[i * step..i * step + n]
  {
    RowInside(n, step, i, i + 1, |s|);
  }

  lemma {:induction false} Distributes(i: nat, n: nat)
    ensures (i + 1) * n == i * n + n
  {
  }

  lemma {:induction false} PackedEq(s: seq<byte>, t: seq<byte>, n: nat, step: nat, h: nat)
    requires n <= step && h * step <= |s| == |t| && forall k :: 0 <= k < h * step ==> t[k] == s[k]
    ensures Packed(s, n, step, h) == Packed(t, n, step, h)
  {
    if h == 0 {
    } else {
      RowInside(n, step, h - 1, h, h * step);
      PackedEq(s, t, n, step, h - 1);
    }
  }

  /** Byte j of row i. */
  lemma {:induction false} PackedAt(s: seq<byte>, n: nat, step: nat, h: nat, i: nat, j: nat)
    requires n <= step && h * step <= |s| && i < h && j < n
    ensures 0 <= i * n + j < h * n && 0 <= i * step + j < |s|
    ensures Packed(s, n, step, h)[i * n + j] == s[i * step + j]
  {
    RowInside(n, step, h - 1, h, |s|);
    Distributes(h - 1, n);
    RowInside(n, n, i, h, h * n);
    RowInside(n, step, i, h, |s|);
    if i == h - 1 {
      assert s[i * step..i * step + n][j] == s[i * step + j];
    } else {
      PackedAt(s, n, step, h - 1, i, j);
    }
  }

  // ----- colour order

  /** Red and blue of every pixel change places. */
  function Swapped(s: seq<byte>): (t: seq<byte>)
    ensures |t| == |s|
  {
    if |s| < 3 then s else [s[2], s[1], s[0]] + Swapped(s[3..])
  }

  /** The three bytes of pixel i. */
  lemma {:induction false} SwappedAt(s: seq<byte>, i: nat)
    requires 3 * i + 3 <= |s|
    ensures Swapped(s)[3 * i] == s[3 * i + 2] && Swapped(s)[3 * i + 1] == s[3 * i + 1] && Swapped(s)[3 * i + 2] == s[3 * i]
  {
    if i == 0 {
    } else {
      SwappedAt(s[3..], i - 1);
    }
  }

  lemma {:induction false} SwappedTwice(s: seq<byte>)
    ensures Swapped(Swapped(s)) == s
  {
    if |s| < 3 {
    } else {
      SwappedTwice(s[3..]);
      assert Swapped(s)[3..] == Swapped(s[3..]);
      assert s == [s[0], s[1], s[2]] + s[3..];
    }
  }

  lemma {:induction false} SwappedAppend(s: seq<byte>, t: seq<byte>, pixels: nat)
    requires |s| == 3 * pixels
    ensures Swapped(s + t) == Swapped(s) + Swapped(t)
  {
    if pixels == 0 {
      assert s + t == t;
    } else {
      SwappedAppend(s[3..], t, pixels - 1);
      assert (s + t)[3..] == s[3..] + t;
      Associate([s[2], s[1], s[0]], Swapped(s[3..]), Swapped(t));
    }
  }

  lemma {:induction false} RowGot(d0: seq<byte>, d: seq<byte>, body: seq<byte>, n: nat, inc: nat, i: nat)
    requires n <= inc && (i + 1) * inc <= |d| && i * inc <= i * inc + n <= |d| && i * n <= i * n + n <= |body|
    requires |d0| == |d| && Packed(d0, n, inc, i) == body[..i * n] && d[i * inc..i * inc + n] == body[i * n..i * n + n]
    requires OnlyChanges(d0, d, i * inc, |d|)
    ensures i * n + n == (i + 1) * n && Packed(d, n, inc, i + 1) == body[..(i + 1) * n]
  {
    Distributes(i, n);
    PackedEq(d0, d, n, inc, i);
    PackedNext(d, n, inc, i);
    assert body[..i * n] + body[i * n..i * n + n] == body[..i * n + n];
  }

  /** Nothing but the bytes from `from` up to `to` differs. */
  ghost predicate OnlyChanges(d0: seq<byte>, d: seq<byte>, from: nat, to: nat) {
    |d| == |d0| && forall k :: 0 <= k < |d| && (k < from || k >= to) ==> d[k] == d0[k]
  }

  /** The pixel at q, in the other order. */
  method CopyPixel(src: Picture, dst: Picture, q: nat)
    requires src.cells != dst.cells && q + 3 <= src.cells.Length && q + 3 <= dst.cells.Length
    modifies dst.cells
    ensures dst.cells[q..q + 3] == Swapped(src.cells[q..q + 3])
    ensures OnlyChanges(old(dst.cells[..]), dst.cells[..], q, q + 3)
  {
    dst.cells[q], dst.cells[q + 1], dst.cells[q + 2] := src.cells[q + 2], src.cells[q + 1], src.cells[q];
    OnePixel(src.cells[q..q + 3]);
  }

  lemma {:induction false} OnePixel(s: seq<byte>)
    requires |s| == 3
    ensures Swapped(s) == [s[2], s[1], s[0]]
  {
  }

  /** One row of w pixels from p on. */
  method CopyRow(src: Picture, dst: Picture, p: nat, w: nat)
    requires src.cells != dst.cells && p + 3 * w <= src.cells.Length && p + 3 * w <= dst.cells.Length
    modifies dst.cells
    ensures dst.cells[p..p + 3 * w] == Swapped(src.cells[p..p + 3 * w])
    ensures OnlyChanges(old(dst.cells[..]), dst.cells[..], p, p + 3 * w)
  {
    ghost var s, d0 := src.cells[..], dst.cells[..];
    for j := 0 to w
      invariant src.cells[..] == s && PartCopied(s, d0, dst.cells[..], p, j)
    {
      ghost var d := dst.cells[..];
      CopyPixel(src, dst, p + 3 * j);
      assert dst.cells[..][p + 3 * j..p + 3 * j + 3] == Swapped(s[p + 3 * j..p + 3 * j + 3]);
      PixelCopied(s, d0, d, dst.cells[..], p, j);
    }
    assert dst.cells[..][p..p + 3 * w] == dst.cells[p..p + 3 * w] && s[p..p + 3 * w] == src.cells[p..p + 3 * w];
  }

  /** The first j pixels from p on have been copied, and nothing else has changed. */
  ghost predicate PartCopied(s: seq<byte>, d0: seq<byte>, d: seq<byte>, p: nat, j: nat) {
    && |d| == |d0| && p + 3 * j <= |s| && p + 3 * j <= |d|
    && d[p..p + 3 * j] == Swapped(s[p..p + 3 * j]) && OnlyChanges(d0, d, p, p + 3 * j)
  }

  lemma {:induction false} PixelCopied(s: seq<byte>, d0: seq<byte>, d: seq<byte>, d': seq<byte>, p: nat, j: nat)
    requires PartCopied(s, d0, d, p, j) && p + 3 * j + 3 <= |s| && p + 3 * j + 3 <= |d|
    requires OnlyChanges(d, d', p + 3 * j, p + 3 * j + 3)
    requires d'[p + 3 * j..p + 3 * j + 3] == Swapped(s[p + 3 * j..p + 3 * j + 3])
    ensures PartCopied(s, d0, d', p, j + 1)
  {
    var q := p + 3 * j;
    SwappedAppend(s[p..q], s[q..q + 3], j);
    assert s[p..q + 3] == s[p..q] + s[q..q + 3];
    assert d'[p..q + 3] == d[p..q] + d'[q..q + 3];
  }

  /** Pixels copied between the two colour orders. */
  method CopyPixels(src: Picture, dst: Picture)
    requires src.Valid() && dst.Valid() && src.cells != dst.cells && src.kind != Mono && dst.kind != Mono
    requires src.width == dst.width && src.height == dst.height
    modifies dst.cells
    ensures dst.Pixels() == Swapped(src.Pixels())
  {
    var w, n, inc := src.width, LineBytes(src.kind, src.width), Step(src.kind, src.width);
    ghost var s := src.cells[..];
    var p := 0;
    for i := 0 to src.height
      invariant p == i * inc && src.cells[..] == s && RowsCopied(s, dst.cells[..], n, inc, i)
    {
      RowInside(n, inc, i, src.height, src.cells.Length);
      ghost var before := dst.cells[..];
      CopyRow(src, dst, p, w);
      assert dst.cells[..][p..p + n] == Swapped(s[p..p + n]);
      NextRow(s, before, dst.cells[..], w, n, inc, i, p);
      p := p + inc;
    }
  }

  ghost predicate RowsCopied(s: seq<byte>, d: seq<byte>, n: nat, inc: nat, i: nat) {
    n <= inc && i * inc <= |s| == |d| && Packed(d, n, inc, i) == Swapped(Packed(s, n, inc, i))
  }

  lemma {:induction false} NextRow(s: seq<byte>, d0: seq<byte>, d: seq<byte>, w: nat, n: nat, inc: nat, i: nat, p: nat)
    requires n == w * 3 && RowsCopied(s, d0, n, inc, i) && p == i * inc && p + inc <= |s|
    requires OnlyChanges(d0, d, p, p + n) && d[p..p + n] == Swapped(s[p..p + n])
    ensures RowsCopied(s, d, n, inc, i + 1) && (i + 1) * inc == p + inc
  {
    Distributes(i, inc);
    PackedEq(d0, d, n, inc, i);
    PackedNext(s, n, inc, i);
    PackedNext(d, n, inc, i);
    Thirds(i, w);
    RowAppended(Packed(s, n, inc, i), s[p..p + n], Packed(d, n, inc, i), d[p..p + n], i * w);
  }

  lemma {:induction false} RowAppended(s: seq<byte>, row: seq<byte>, d: seq<byte>, row': seq<byte>, pixels: nat)
    requires |s| == 3 * pixels && d == Swapped(s) && row' == Swapped(row)
    ensures d + row' == Swapped(s + row)
  {
    SwappedAppend(s, row, pixels);
  }

  lemma {:induction false} Thirds(i: nat, w: nat)
    ensures i * (w * 3) == 3 * (i * w)
  {
  }

  // ----- files

  /** What a file of an image contains behind its header: red comes first in a file. */
  ghost function Body(p: Picture): seq<byte>
    reads p.cells
    requires p.Valid()
  {
    if p.kind == Bgr then Swapped(p.Pixels()) else p.Pixels()
  }

  method ImageWrite(img: Picture) returns (file: seq<byte>)
    requires img.Valid()
    ensures file == Header(img.kind != Mono, img.width, img.height) + Body(img)
  {
    if img.kind == Bgr {
      var img2 := new Picture(Rgb, img.width, img.height);
      CopyPixels(img, img2);
      file := img2.Save();
    } else {
      file := img.Save();
    }
  }

  /** The kind of image a file is read into, when the reader has one of kind wanted. */
  function KindRead(color: bool, wanted: Kind): Kind {
    if !color then Mono else if wanted == Rgb then Rgb else Bgr
  }

  datatype Content = Content(kind: Kind, width: nat, height: nat, body: seq<byte>)

  function SizeOf(kind: Kind, w: nat, h: nat): nat {
    h * LineBytes(kind, w)
  }

  /** What a file holds behind its header, if there are bytes for all pixels. */
  ghost function Decoded(wanted: Kind, header: Option<Parsed>): Option<Content> {
    if header == None then None else
      var Parsed(color, w, h, body) := header.value;
      var kind := KindRead(color, wanted);
      if |body| < SizeOf(kind, w, h) then None else Some(Content(kind, w, h, body[..SizeOf(kind, w, h)]))
  }

  ghost predicate Shows(p: Picture, c: Content)
    reads p.cells
  {
    p.Valid() && p.kind == c.kind && p.width == c.width && p.height == c.height && Body(p) == c.body
  }

  /** A file holds one byte for every grey pixel and three for every coloured one, which are read as RGB or BGR. */
  lemma {:induction false} PixelsOfFile(wanted: Kind, p: Parsed)
    ensures var n := p.height * (p.width * if p.color then 3 else 1);
      Decoded(wanted, Some(p)) ==
        if n > |p.body| then None
        else Some(Content(if !p.color then Mono else if wanted == Rgb then Rgb else Bgr, p.width, p.height, p.body[..n]))
  {
  }

  /** An image is read exactly if the file holds one. */
  method ImageRead(wanted: Kind, file: seq<byte>) returns (img: Option<Picture>)
    ensures img.Some? <==> Decoded(wanted, ReadHeader(file)).Some?
    ensures img.Some? ==> fresh(img.value) && Shows(img.value, Decoded(wanted, ReadHeader(file)).value)
    ensures ReadHeader(file) == None ==> img == None
    ensures ReadHeader(file).Some? ==>
      var p := ReadHeader(file).value;
      var n := p.height * (p.width * if p.color then 3 else 1);
      && (img.Some? <==> n <= |p.body|)
      && (img.Some? ==>
            && img.value.Valid() && img.value.width == p.width && img.value.height == p.height
            && img.value.kind == (if !p.color then Mono else if wanted == Rgb then Rgb else Bgr)
            && Body(img.value) == p.body[..n])
  {
    var header := ReadHeader(file);
    if header == None { return None; }
    PixelsOfFile(wanted, header.value);
    img := ReadPicture(wanted, header.value);
  }

  method ReadPicture(wanted: Kind, header: Parsed) returns (img: Option<Picture>)
    ensures img.Some? <==> Decoded(wanted, Some(header)).Some?
    ensures img.Some? ==> fresh(img.value) && Shows(img.value, Decoded(wanted, Some(header)).value)
  {
    var Parsed(color, w, h, body) := header;
    var p := new Picture(KindRead(color, wanted), w, h);
    var num := ReadPixels(p, body);
    if num != SizeOf(p.kind, w, h) { return None; }
    return Some(p);
  }

  method ReadPixels(p: Picture, body: seq<byte>) returns (num: nat)
    requires p.Valid()
    modifies p.cells
    ensures var size := SizeOf(p.kind, p.width, p.height);
      num == (if |body| < size then |body| else size) && (num == size ==> Body(p) == body[..num])
  {
    if p.kind == Bgr {
      var img2 := new Picture(Rgb, p.width, p.height);
      num := img2.Fill(body);
      CopyPixels(img2, p);
      SwappedTwice(img2.Pixels());
    } else {
      num := p.Fill(body);
    }
  }

  /** A file with comment lines put in behind the magic number, and more bytes behind the pixels. */
  function Annotated(file: seq<byte>, comments: seq<seq<byte>>, more: seq<byte>): seq<byte>
    requires |file| >= 3
  {
    file[..3] + CommentLines(comments) + file[3..] + more
  }

  /** An image that was written is read back the same, also from a file that has been annotated. */
  method WriteAndRead(img: Picture, comments: seq<seq<byte>>, more: seq<byte>) returns (back: Option<Picture>)
    requires img.Valid() && OneLineEach(comments)
    ensures back.Some? && back.value.Valid() && back.value.kind == img.kind
    ensures back.value.width == img.width && back.value.height == img.height && back.value.Pixels() == img.Pixels()
  {
    var file := ImageWrite(img);
    WrittenIsDecoded(img, comments, more);
    back := ImageRead(img.kind, Annotated(file, comments, more));
    SwappedTwice(img.Pixels());
    SwappedTwice(back.value.Pixels());
  }

  lemma {:induction false} WrittenIsDecoded(img: Picture, comments: seq<seq<byte>>, more: seq<byte>)
    requires img.Valid() && OneLineEach(comments)
    ensures Decoded(img.kind, ReadHeader(Annotated(Header(img.kind != Mono, img.width, img.height) + Body(img), comments, more)))
         == Some(Content(img.kind, img.width, img.height, Body(img)))
  {
    BodySize(img);
    AnnotationsIgnored(img.kind != Mono, img.width, img.height, Body(img), comments, more);
    FileIsDecoded(img.kind, img.width, img.height, Body(img), more);
  }

  lemma {:induction false} AnnotationsIgnored(color: bool, w: nat, h: nat, body: seq<byte>, comments: seq<seq<byte>>,
                                              more: seq<byte>)
    requires OneLineEach(comments)
    ensures ReadHeader(Annotated(Header(color, w, h) + body, comments, more)) == ReadHeader(Header(color, w, h) + (body + more))
  {
    var file, t := Header(color, w, h) + body, Header(color, w, h)[3..] + (body + more);
    HeaderStarts(color, w, h);
    assert t[0] == Header(color, w, h)[3];
    AnnotatedParts(Header(color, w, h), body, comments, more);
    CommentsIgnored(Magic(color), comments, t);
  }

  lemma {:induction false} HeaderStarts(color: bool, w: nat, h: nat)
    ensures var s := Header(color, w, h); |s| > 3 && s[..3] == [80, Magic(color), 10] && 48 <= s[3] <= 57
  {
    var s, d := Header(color, w, h), Decimal(w);
    assert s[3] == d[0] && IsDigit(d[0]);
  }

  lemma {:induction false} AnnotatedParts(header: seq<byte>, body: seq<byte>, comments: seq<seq<byte>>, more: seq<byte>)
    requires |header| > 3
    ensures Annotated(header + body, comments, more) == header[..3] + (CommentLines(comments) + (header[3..] + (body + more)))
    ensures header + (body + more) == header[..3] + (header[3..] + (body + more))
  {
    assert (header + body)[..3] == header[..3] && (header + body)[3..] == header[3..] + body;
  }

  lemma {:induction false} BodySize(img: Picture)
    requires img.Valid()
    ensures |Body(img)| == SizeOf(img.kind, img.width, img.height)
  {
  }

  lemma {:induction false} FileIsDecoded(kind: Kind, w: nat, h: nat, body: seq<byte>, more: seq<byte>)
    requires |body| == SizeOf(kind, w, h)
    ensures Decoded(kind, ReadHeader(Header(kind != Mono, w, h) + (body + more))) == Some(Content(kind, w, h, body))
  {
    HeaderComesBack(kind != Mono, w, h, body + more);
    assert (body + more)[..|body|] == body;
  }
}
