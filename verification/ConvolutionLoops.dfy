/** The convolution loops over pixel arrays, with the scratch array that lets them work in place. */
module ConvolutionLoops {
  import opened LinearAlgebra
  import opened Convolution

  /** The position of row i, column j. */
  function Idx(i: int, j: int, w: nat): int {
    i * w + j
  }

  lemma {:induction false} IdxInside(i: int, j: int, w: nat, h: nat)
    requires 0 <= i < h && 0 <= j < w
    ensures 0 <= Idx(i, j, w) < w * h
  {
    assert i * w <= (h - 1) * w;
  }

  lemma {:induction false} IdxBefore(i: int, j: int, i': int, j': int, w: nat)
    requires i < i' && 0 <= j < w && 0 <= j'
    ensures Idx(i, j, w) < Idx(i', j', w)
  {
    assert (i + 1) * w <= i' * w;
  }

  /** Row i, column j has mx columns and my rows on either side. */
  predicate Inner(i: int, j: int, w: nat, h: nat, mx: nat, my: nat) {
    my <= i < h - my && mx <= j < w - mx
  }

  /** The array a library function keeps between calls. */
  class Scratch {
    var cells: array?<real>

    constructor ()
      ensures cells == null
    {
      cells := null;
    }

    /** Grows the array when it is too small; what was in it is then lost. */
    method Provide(n: nat)
      modifies this
      ensures cells != null && cells.Length >= n
      ensures cells == old(cells) || fresh(cells)
      ensures old(cells) != null && old(cells).Length >= n ==> cells == old(cells)
    {
      if cells == null || cells.Length < n {
        cells := new real[n];
      }
    }
  }

  /** The two inner loops at row i, column j. */
  method SumAt(src: array<real>, w: nat, h: nat, i: nat, j: nat, k: Kernel) returns (tmp: real)
    requires Odd(k) && src.Length == w * h && Inner(i, j, w, h, k.cols / 2, k.rows / 2)
    ensures tmp == Direct(src[..], w, i, j, k)
  {
    ghost var s := src[..];
    tmp := 0.0;
    for a := 0 to k.rows
      invariant tmp == Sum(Rows(s, w, i, j, k), a)
    {
      for b := 0 to k.cols
        invariant tmp == Sum(Rows(s, w, i, j, k), a) + Sum(Terms(s, w, i, j, k, a), b)
      {
        var p, q := Idx(i + a - k.rows / 2, j + b - k.cols / 2, w), k.cols * k.rows - a * k.cols - b - 1;
        IdxInside(i + a - k.rows / 2, j + b - k.cols / 2, w, h);
        KernelIndex(k.rows, k.cols, a, b);
        tmp := tmp + Times(src[p], k.values[q]);
      }
    }
  }

  lemma {:induction false} KernelIndex(rows: nat, cols: nat, a: nat, b: nat)
    requires a < rows && b < cols
    ensures 0 <= cols * rows - a * cols - b - 1 < cols * rows
  {
    assert a * cols <= (rows - 1) * cols;
  }

  ghost predicate Done(t: seq<real>, p: int, value: real) {
    0 <= p < |t| && t[p] == value
  }

  /** The values row i is to have, from column mx to mx columns before the end. */
  ghost predicate RowDone(f: (int, int) -> real, t: seq<real>, w: nat, mx: nat, i: nat) {
    forall j: nat :: mx <= j < w - mx ==> Done(t, Idx(i, j, w), f(i, j))
  }

  /** Outside that part of row i, t' is t. */
  ghost predicate RowOnly(t: seq<real>, t': seq<real>, w: nat, mx: nat, i: nat) {
    |t'| == |t| && forall p: nat :: p < |t| && (p < Idx(i, mx, w) || p >= Idx(i, w - mx, w)) ==> t'[p] == t[p]
  }

  /** Positions apart from the results of row i. */
  lemma {:induction false} RowApart(i: nat, i': nat, j': nat, w: nat, mx: nat)
    requires j' < w && !(i' == i && mx <= j' < w - mx) && mx <= w - mx
    ensures Idx(i', j', w) < Idx(i, mx, w) || Idx(i', j', w) >= Idx(i, w - mx, w)
  {
    if i' < i { IdxBefore(i', j', i, mx, w); }
    if i' > i { IdxBefore(i, w - mx - 1, i', j', w); }
  }

  /** Row i, column j is as it is to be once the rows before row n are done: f inside the margins, as in t0 outside. */
  ghost predicate CellDone(f: (int, int) -> real, t0: seq<real>, t: seq<real>, w: nat, h: nat, mx: nat, my: nat,
                           n: int, i: nat, j: nat) {
    if !Inner(i, j, w, h, mx, my) then Done(t, Idx(i, j, w), Value(t0, Idx(i, j, w)))
    else i < n ==> Done(t, Idx(i, j, w), f(i, j))
  }

  ghost predicate CellsDone(f: (int, int) -> real, t0: seq<real>, t: seq<real>, w: nat, h: nat, mx: nat,
                            my: nat, n: int) {
    forall i: nat, j: nat :: i < h && j < w ==> CellDone(f, t0, t, w, h, mx, my, n, i, j)
  }

  lemma {:induction false} OneMoreRow(f: (int, int) -> real, t0: seq<real>, t: seq<real>, t': seq<real>, w: nat,
                                      h: nat, mx: nat, my: nat, n: nat)
    requires CellsDone(f, t0, t, w, h, mx, my, n) && my <= n < h - my && w * h <= |t|
    requires RowDone(f, t', w, mx, n) && RowOnly(t, t', w, mx, n)
    ensures CellsDone(f, t0, t', w, h, mx, my, n + 1)
  {
    var m := n + 1;
    forall i: nat, j: nat | i < h && j < w ensures CellDone(f, t0, t', w, h, mx, my, m, i, j) {
      assert CellDone(f, t0, t, w, h, mx, my, n, i, j);
      IdxInside(i, j, w, h);
      if mx <= w - mx && !(i == n && mx <= j < w - mx) {
        RowApart(n, i, j, w, mx);
      }
    }
  }

  lemma {:induction false} NothingDone(f: (int, int) -> real, t0: seq<real>, w: nat, h: nat, mx: nat, my: nat)
    requires w * h <= |t0|
    ensures CellsDone(f, t0, t0, w, h, mx, my, my)
  {
    forall i: nat, j: nat | i < h && j < w ensures CellDone(f, t0, t0, w, h, mx, my, my, i, j) { IdxInside(i, j, w, h); }
  }

  lemma {:induction false} AllDone(f: (int, int) -> real, t0: seq<real>, t: seq<real>, w: nat, h: nat, mx: nat,
                                   my: nat, n: nat)
    requires CellsDone(f, t0, t, w, h, mx, my, n) && n >= h - my
    ensures CellsDone(f, t0, t, w, h, mx, my, h)
  {
    forall i: nat, j: nat | i < h && j < w ensures CellDone(f, t0, t, w, h, mx, my, h, i, j) {
      assert CellDone(f, t0, t, w, h, mx, my, n, i, j);
    }
  }

  // ----- one kernel

  ghost function DirectAt(s: seq<real>, w: nat, k: Kernel): (int, int) -> real {
    (i, j) => Direct(s, w, i, j, k)
  }

  /**
   * Row i of s worked on from left to right up to column j, each result written over the pixel
   * before the next one is computed.
   */
  ghost function SweptRow(s: seq<real>, w: nat, i: nat, k: Kernel, j: int): (t: seq<real>)
    ensures |t| == |s|
    decreases j
  {
    if j <= k.cols / 2 then s else
      var t := SweptRow(s, w, i, k, j - 1);
      var p := Idx(i, j - 1, w);
      if 0 <= p < |t| then t[p := Direct(t, w, i, j - 1, k)] else t
  }

  /** The rows before row i worked on in this way. */
  ghost function Swept(s: seq<real>, w: nat, k: Kernel, i: int): (t: seq<real>)
    ensures |t| == |s|
    decreases i
  {
    if i <= k.rows / 2 then s else SweptRow(Swept(s, w, k, i - 1), w, i - 1, k, w - k.cols / 2)
  }

  /** One row of results, written to out, which may be src. */
  method ConvolveRow(src: array<real>, out: array<real>, w: nat, h: nat, i: nat, k: Kernel)
    requires Odd(k) && src.Length == w * h <= out.Length && k.rows / 2 <= i < h - k.rows / 2
    modifies out
    ensures src != out ==> RowDone(DirectAt(src[..], w, k), out[..], w, k.cols / 2, i)
    ensures src != out ==> RowOnly(old(out[..]), out[..], w, k.cols / 2, i)
    ensures src == out ==> out[..] == SweptRow(old(out[..]), w, i, k, w - k.cols / 2)
  {
    var j := k.cols / 2;
    ghost var s, t := src[..], out[..];
    while j < w - k.cols / 2
      invariant k.cols / 2 <= j && (j <= w - k.cols / 2 || j == k.cols / 2) && (src != out ==> src[..] == s)
      invariant src != out ==> forall j': nat :: k.cols / 2 <= j' < j && j' < w - k.cols / 2 ==>
        Done(out[..], Idx(i, j', w), DirectAt(s, w, k)(i, j'))
      invariant src != out ==> forall p: nat :: p < out.Length && (p < Idx(i, k.cols / 2, w) || p >= Idx(i, j, w)) ==> out[p] == t[p]
      invariant src == out ==> out[..] == SweptRow(t, w, i, k, j)
    {
      IdxInside(i, j, w, h);
      var tmp := SumAt(src, w, h, i, j, k);
      out[Idx(i, j, w)] := tmp;
      j := j + 1;
    }
  }

  /** The two outer loops, writing to out, which may be src. */
  method ConvolveInto(src: array<real>, out: array<real>, w: nat, h: nat, k: Kernel)
    requires Odd(k) && src.Length == w * h <= out.Length
    modifies out
    ensures src != out ==>
      CellsDone(DirectAt(old(src[..]), w, k), old(out[..]), out[..], w, h, k.cols / 2, k.rows / 2, h)
    ensures src == out ==> out[..] == Swept(old(out[..]), w, k, h - k.rows / 2)
  {
    ghost var s, t0 := src[..], out[..];
    ghost var f, mx, my := DirectAt(s, w, k), k.cols / 2, k.rows / 2;
    var i := k.rows / 2;
    NothingDone(f, t0, w, h, mx, my);
    while i < h - k.rows / 2
      invariant my <= i && (i <= h - my || i == my) && (src != out ==> src[..] == s)
      invariant src != out ==> CellsDone(f, t0, out[..], w, h, mx, my, i)
      invariant src == out ==> out[..] == Swept(t0, w, k, i)
    {
      ghost var t := out[..];
      ConvolveRow(src, out, w, h, i, k);
      if src != out { OneMoreRow(f, t0, t, out[..], w, h, mx, my, i); }
      i := i + 1;
    }
    if src != out { AllDone(f, t0, out[..], w, h, mx, my, i); }
  }

  /** Inside the margins d has the values g, outside it is as it was in t0. */
  ghost predicate Filtered(g: (int, int) -> real, t0: seq<real>, d: seq<real>, w: nat, h: nat, mx: nat, my: nat) {
    CellsDone(g, t0, d, w, h, mx, my, h)
  }

  ghost function ConvolvedAt(s: seq<real>, w: nat, k: Kernel): (int, int) -> real {
    (i, j) => Convolved(s, w, i, j, k)
  }

  /** The header of an image; several may lead to the same pixels. */
  class FloatImage {
    const pixels: array<real>

    constructor (p: array<real>)
      ensures pixels == p
    {
      pixels := p;
    }
  }

  /**
   * Convolution of src into dst, which may be the same image: every inner pixel of dst becomes
   * the convolution of what src contained. The border stays as it was when the images differ,
   * and is overwritten with what the scratch array contains when they are the same. Two headers
   * of the same pixels count as different images, and results overwrite what is still needed.
   */
  method Convolve2D(scratch: Scratch, src: FloatImage, dst: FloatImage, w: nat, h: nat, k: Kernel)
    requires Odd(k) && src.pixels.Length == dst.pixels.Length == w * h
    requires scratch.cells != src.pixels && scratch.cells != dst.pixels
    modifies scratch, dst.pixels, if scratch.cells == null then {} else {scratch.cells}
    ensures scratch.cells != null && dst.pixels.Length <= scratch.cells.Length
    ensures src != dst && src.pixels != dst.pixels ==>
      Filtered(ConvolvedAt(old(src.pixels[..]), w, k), old(dst.pixels[..]), dst.pixels[..], w, h, k.cols / 2, k.rows / 2)
    ensures src != dst && src.pixels == dst.pixels ==>
      dst.pixels[..] == Swept(old(src.pixels[..]), w, k, h - k.rows / 2)
    ensures src == dst ==>
      Filtered(ConvolvedAt(old(src.pixels[..]), w, k), scratch.cells[..], dst.pixels[..], w, h, k.cols / 2, k.rows / 2)
  {
    scratch.Provide(dst.pixels.Length);
    if src != dst {
      ConvolveInto(src.pixels, dst.pixels, w, h, k);
      if src.pixels != dst.pixels {
        Convolves(old(src.pixels[..]), old(dst.pixels[..]), dst.pixels[..], w, h, k);
      }
    } else {
      ConvolveInPlace(dst.pixels, scratch.cells, w, h, k);
    }
  }

  /** Into the scratch array first, and then all of it copied back. */
  method ConvolveInPlace(image: array<real>, tmp: array<real>, w: nat, h: nat, k: Kernel)
    requires Odd(k) && image.Length == w * h <= tmp.Length && image != tmp
    modifies image, tmp
    ensures Filtered(ConvolvedAt(old(image[..]), w, k), tmp[..], image[..], w, h, k.cols / 2, k.rows / 2)
  {
    ghost var s, t0 := image[..], tmp[..];
    ConvolveInto(image, tmp, w, h, k);
    ghost var t := tmp[..];
    Convolves(s, t0, t, w, h, k);
    forall p | 0 <= p < image.Length { image[p] := tmp[p]; }
    assert tmp[..] == t;
    CopiedCells(ConvolvedAt(s, w, k), t0, t, image[..], w, h, k.cols / 2, k.rows / 2);
  }

  lemma {:induction false} Convolves(s: seq<real>, t0: seq<real>, t: seq<real>, w: nat, h: nat, k: Kernel)
    requires Odd(k) && CellsDone(DirectAt(s, w, k), t0, t, w, h, k.cols / 2, k.rows / 2, h)
    ensures Filtered(ConvolvedAt(s, w, k), t0, t, w, h, k.cols / 2, k.rows / 2)
  {
    var f, g, mx, my := DirectAt(s, w, k), ConvolvedAt(s, w, k), k.cols / 2, k.rows / 2;
    forall i: nat, j: nat | i < h && j < w ensures CellDone(g, t0, t, w, h, mx, my, h, i, j) {
      assert CellDone(f, t0, t, w, h, mx, my, h, i, j);
      LoopsConvolve(s, w, i, j, k);
    }
  }

  lemma {:induction false} CopiedCells(g: (int, int) -> real, t0: seq<real>, t: seq<real>, d: seq<real>, w: nat,
                                       h: nat, mx: nat, my: nat)
    requires w * h == |d| <= |t| && forall p :: 0 <= p < |d| ==> d[p] == t[p]
    requires Filtered(g, t0, t, w, h, mx, my)
    ensures Filtered(g, t, d, w, h, mx, my)
  {
    forall i: nat, j: nat | i < h && j < w ensures CellDone(g, t, d, w, h, mx, my, h, i, j) {
      assert CellDone(g, t0, t, w, h, mx, my, h, i, j);
      IdxInside(i, j, w, h);
    }
  }
}
