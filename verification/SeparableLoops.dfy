/** The two passes of a separable convolution, the first into a scratch array. */
module SeparableLoops {
  import opened Options
  import opened LinearAlgebra
  import opened Convolution
  import opened ConvolutionLoops

  ghost predicate OddLength(x: seq<real>) {
    |x| % 2 != 0
  }

  method SumAlongRow(src: array<real>, w: nat, h: nat, i: nat, j: nat, x: seq<real>) returns (tmp: real)
    requires OddLength(x) && src.Length == w * h && i < h && |x| / 2 <= j < w - |x| / 2
    ensures tmp == AlongRow(src[..], w, i, j, x)
  {
    ghost var s := src[..];
    tmp := 0.0;
    for b := 0 to |x|
      invariant tmp == Sum(RowTerms(s, w, i, j, x), b)
    {
      IdxInside(i, j + b - |x| / 2, w, h);
      tmp := tmp + Times(src[Idx(i, j + b - |x| / 2, w)], x[|x| - b - 1]);
    }
  }

  method SumAlongColumn(t: array<real>, w: nat, h: nat, i: nat, j: nat, y: seq<real>) returns (tmp: real)
    requires OddLength(y) && w * h <= t.Length && j < w && |y| / 2 <= i < h - |y| / 2
    ensures tmp == AlongColumn(t[..], w, i, j, y)
  {
    ghost var s := t[..];
    tmp := 0.0;
    for a := 0 to |y|
      invariant tmp == Sum(ColumnTerms(s, w, i, j, y), a)
    {
      IdxInside(i + a - |y| / 2, j, w, h);
      tmp := tmp + Times(t[Idx(i + a - |y| / 2, j, w)], y[|y| - a - 1]);
    }
  }

  ghost function RowAt(s: seq<real>, w: nat, x: seq<real>): (int, int) -> real {
    (i, j) => AlongRow(s, w, i, j, x)
  }

  ghost function ColumnAt(t: seq<real>, w: nat, y: seq<real>): (int, int) -> real {
    (i, j) => AlongColumn(t, w, i, j, y)
  }

  ghost function SeparateAt(s: seq<real>, w: nat, x: seq<real>, y: seq<real>): (int, int) -> real {
    (i, j) => Separate(s, w, i, j, x, y)
  }

  method RowPassAt(src: array<real>, out: array<real>, w: nat, h: nat, i: nat, x: seq<real>)
    requires OddLength(x) && src.Length == w * h <= out.Length && src != out && i < h
    modifies out
    ensures RowDone(RowAt(src[..], w, x), out[..], w, |x| / 2, i) && RowOnly(old(out[..]), out[..], w, |x| / 2, i)
  {
    var j := |x| / 2;
    ghost var s, t := src[..], out[..];
    while j < w - |x| / 2
      invariant |x| / 2 <= j && (j <= w - |x| / 2 || j == |x| / 2) && src[..] == s
      invariant forall j': nat :: |x| / 2 <= j' < j && j' < w - |x| / 2 ==> Done(out[..], Idx(i, j', w), RowAt(s, w, x)(i, j'))
      invariant forall p: nat :: p < out.Length && (p < Idx(i, |x| / 2, w) || p >= Idx(i, j, w)) ==> out[p] == t[p]
    {
      IdxInside(i, j, w, h);
      var tmp := SumAlongRow(src, w, h, i, j, x);
      out[Idx(i, j, w)] := tmp;
      j := j + 1;
    }
  }

  method RowPass(src: array<real>, out: array<real>, w: nat, h: nat, x: seq<real>)
    requires OddLength(x) && src.Length == w * h <= out.Length && src != out
    modifies out
    ensures CellsDone(RowAt(src[..], w, x), old(out[..]), out[..], w, h, |x| / 2, 0, h) && src[..] == old(src[..])
  {
    ghost var s, t0, f, mx := src[..], out[..], RowAt(src[..], w, x), |x| / 2;
    NothingDone(f, t0, w, h, mx, 0);
    for i := 0 to h
      invariant CellsDone(f, t0, out[..], w, h, mx, 0, i) && src[..] == s
    {
      ghost var t := out[..];
      RowPassAt(src, out, w, h, i, x);
      OneMoreRow(f, t0, t, out[..], w, h, mx, 0, i);
    }
  }

  method ColumnPassAt(src: array<real>, out: array<real>, w: nat, h: nat, i: nat, mx: nat, y: seq<real>)
    requires OddLength(y) && out.Length == w * h <= src.Length && src != out && |y| / 2 <= i < h - |y| / 2
    modifies out
    ensures RowDone(ColumnAt(src[..], w, y), out[..], w, mx, i) && RowOnly(old(out[..]), out[..], w, mx, i)
  {
    var j := mx;
    ghost var s, t := src[..], out[..];
    while j < w - mx
      invariant mx <= j && (j <= w - mx || j == mx) && src[..] == s
      invariant forall j': nat :: mx <= j' < j && j' < w - mx ==> Done(out[..], Idx(i, j', w), ColumnAt(s, w, y)(i, j'))
      invariant forall p: nat :: p < out.Length && (p < Idx(i, mx, w) || p >= Idx(i, j, w)) ==> out[p] == t[p]
    {
      IdxInside(i, j, w, h);
      var tmp := SumAlongColumn(src, w, h, i, j, y);
      out[Idx(i, j, w)] := tmp;
      j := j + 1;
    }
  }

  method ColumnPass(src: array<real>, out: array<real>, w: nat, h: nat, mx: nat, y: seq<real>)
    requires OddLength(y) && out.Length == w * h <= src.Length && src != out
    modifies out
    ensures CellsDone(ColumnAt(src[..], w, y), old(out[..]), out[..], w, h, mx, |y| / 2, h) && src[..] == old(src[..])
  {
    ghost var s, t0, f, my := src[..], out[..], ColumnAt(src[..], w, y), |y| / 2;
    var i := |y| / 2;
    NothingDone(f, t0, w, h, mx, my);
    while i < h - |y| / 2
      invariant my <= i && (i <= h - my || i == my) && src[..] == s
      invariant CellsDone(f, t0, out[..], w, h, mx, my, i)
    {
      ghost var t := out[..];
      ColumnPassAt(src, out, w, h, i, mx, y);
      OneMoreRow(f, t0, t, out[..], w, h, mx, my, i);
      i := i + 1;
    }
    AllDone(f, t0, out[..], w, h, mx, my, i);
  }

  /** Down a column of first-pass results goes the sum of sums. */
  lemma {:induction false} ColumnOfRows(s: seq<real>, t0: seq<real>, t: seq<real>, w: nat, h: nat, i: nat,
                                        j: nat, x: seq<real>, y: seq<real>)
    requires CellsDone(RowAt(s, w, x), t0, t, w, h, |x| / 2, 0, h) && OddLength(y)
    requires Inner(i, j, w, h, |x| / 2, |y| / 2)
    ensures AlongColumn(t, w, i, j, y) == Separate(s, w, i, j, x, y)
  {
    forall a | 0 <= a < |y| ensures ColumnTerms(t, w, i, j, y)(a) == SeparateTerms(s, w, i, j, x, y)(a) {
      var i': nat := i + a - |y| / 2;
      assert i' < h && CellDone(RowAt(s, w, x), t0, t, w, h, |x| / 2, 0, h, i', j);
      assert Idx(i', j, w) == (i + a - |y| / 2) * w + j;
      assert Value(t, Idx(i', j, w)) == AlongRow(s, w, i', j, x);
    }
    SumEq(ColumnTerms(t, w, i, j, y), SeparateTerms(s, w, i, j, x, y), |y|);
  }

  lemma {:induction false} PassesSeparate(s: seq<real>, t0: seq<real>, t: seq<real>, d0: seq<real>,
                                          d: seq<real>, w: nat, h: nat, x: seq<real>, y: seq<real>)
    requires CellsDone(RowAt(s, w, x), t0, t, w, h, |x| / 2, 0, h) && OddLength(y)
    requires CellsDone(ColumnAt(t, w, y), d0, d, w, h, |x| / 2, |y| / 2, h)
    ensures Filtered(SeparateAt(s, w, x, y), d0, d, w, h, |x| / 2, |y| / 2)
  {
    var f, g, mx, my := ColumnAt(t, w, y), SeparateAt(s, w, x, y), |x| / 2, |y| / 2;
    forall i: nat, j: nat | i < h && j < w ensures CellDone(g, d0, d, w, h, mx, my, h, i, j) {
      assert CellDone(f, d0, d, w, h, mx, my, h, i, j);
      if Inner(i, j, w, h, mx, my) { ColumnOfRows(s, t0, t, w, h, i, j, x, y); }
    }
  }

  /**
   * Separable convolution, in place or not. With both kernels every inner pixel becomes the
   * convolution with both. Without a kernel for the columns dst is left alone; without one
   * for the rows the source is never looked at, and what the scratch array contains is used.
   */
  method ConvolveSep2D(scratch: Scratch, src: array<real>, dst: array<real>, w: nat, h: nat,
                       xKernel: Option<seq<real>>, yKernel: Option<seq<real>>)
    requires xKernel.Some? ==> OddLength(xKernel.value)
    requires yKernel.Some? ==> OddLength(yKernel.value)
    requires src.Length == dst.Length == w * h && scratch.cells != src && scratch.cells != dst
    modifies scratch, dst, if scratch.cells == null then {} else {scratch.cells}
    ensures scratch.cells != null
    ensures xKernel.Some? && yKernel.Some? ==>
      Filtered(SeparateAt(old(src[..]), w, xKernel.value, yKernel.value), old(dst[..]), dst[..], w, h,
               |xKernel.value| / 2, |yKernel.value| / 2)
    ensures yKernel.None? ==> dst[..] == old(dst[..])
    ensures xKernel.None? && yKernel.Some? ==>
      Filtered(ColumnAt(scratch.cells[..], w, yKernel.value), old(dst[..]), dst[..], w, h, 0, |yKernel.value| / 2)
    ensures xKernel.None? && old(scratch.cells) != null && old(scratch.cells.Length) >= dst.Length ==>
      scratch.cells[..] == old(scratch.cells[..])
  {
    scratch.Provide(dst.Length);
    var out := scratch.cells;
    if xKernel.Some? && yKernel.Some? {
      BothPasses(out, src, dst, w, h, xKernel.value, yKernel.value);
    } else if xKernel.Some? {
      RowPass(src, out, w, h, xKernel.value);
    } else if yKernel.Some? {
      ColumnPass(out, dst, w, h, 0, yKernel.value);
    }
  }

  method BothPasses(tmp: array<real>, src: array<real>, dst: array<real>, w: nat, h: nat, x: seq<real>, y: seq<real>)
    requires OddLength(x) && OddLength(y)
    requires src.Length == dst.Length == w * h <= tmp.Length && tmp != src && tmp != dst
    modifies tmp, dst
    ensures Filtered(SeparateAt(old(src[..]), w, x, y), old(dst[..]), dst[..], w, h, |x| / 2, |y| / 2)
  {
    ghost var s, t0, d0 := src[..], tmp[..], dst[..];
    RowPass(src, tmp, w, h, x);
    ghost var t := tmp[..];
    assert dst[..] == d0;
    ColumnPass(tmp, dst, w, h, |x| / 2, y);
    PassesSeparate(s, t0, t, d0, dst[..], w, h, x, y);
  }

  // ----- the two functions compared

  /** With the product kernel one pass and two passes compute the same image. */
  lemma {:induction false} SameFilter(s: seq<real>, d0: seq<real>, d: seq<real>, w: nat, h: nat, x: seq<real>,
                                      y: seq<real>, k: Kernel)
    requires OddLength(x) && OddLength(y) && Outer(k, x, y)
    ensures Filtered(SeparateAt(s, w, x, y), d0, d, w, h, |x| / 2, |y| / 2)
       <==> Filtered(ConvolvedAt(s, w, k), d0, d, w, h, k.cols / 2, k.rows / 2)
  {
    var f, g, mx, my := SeparateAt(s, w, x, y), ConvolvedAt(s, w, k), |x| / 2, |y| / 2;
    forall i: nat, j: nat ensures f(i, j) == g(i, j) {
      SeparateIsDirect(s, w, i, j, x, y, k);
      LoopsConvolve(s, w, i, j, k);
    }
    forall i: nat, j: nat ensures CellDone(f, d0, d, w, h, mx, my, h, i, j) == CellDone(g, d0, d, w, h, mx, my, h, i, j) {
      assert f(i, j) == g(i, j);
    }
  }
}
