/**
 * Convolution of a one-channel image with unpadded rows, over exact reals. An image is the
 * sequence of its pixels row by row, w to a row.
 */
module Convolution {
  import opened LinearAlgebra

  // ----- finite sums

  ghost function Sum(f: int -> real, n: nat): real {
    if n == 0 then 0.0 else Sum(f, n - 1) + f(n - 1)
  }

  lemma {:induction false} SumEq(f: int -> real, g: int -> real, n: nat)
    requires forall k :: 0 <= k < n ==> f(k) == g(k)
    ensures Sum(f, n) == Sum(g, n)
  {
    if n == 0 {
    } else {
      SumEq(f, g, n - 1);
    }
  }

  lemma {:induction false} SumScaled(f: int -> real, c: real, g: int -> real, n: nat)
    requires forall k :: 0 <= k < n ==> g(k) == Times(c, f(k))
    ensures Sum(g, n) == Times(c, Sum(f, n))
  {
    if n == 0 {
    } else {
      SumScaled(f, c, g, n - 1);
    }
  }

  lemma {:induction false} SumFromFront(f: int -> real, n: nat)
    requires n > 0
    ensures Sum(f, n) == f(0) + Sum(k => f(k + 1), n - 1)
  {
    if n == 1 {
    } else {
      SumFromFront(f, n - 1);
    }
  }

  lemma {:induction false} SumReversed(f: int -> real, g: int -> real, n: nat)
    requires forall k :: 0 <= k < n ==> g(k) == f(n - 1 - k)
    ensures Sum(f, n) == Sum(g, n)
  {
    if n == 0 {
    } else {
      SumFromFront(f, n);
      SumReversed(k => f(k + 1), g, n - 1);
    }
  }

  // ----- kernels

  datatype Kernel = Kernel(cols: nat, rows: nat, values: seq<real>)

  ghost predicate Odd(k: Kernel) {
    k.cols % 2 != 0 && k.rows % 2 != 0 && |k.values| == k.cols * k.rows
  }

  function Value(s: seq<real>, p: int): real {
    if 0 <= p < |s| then s[p] else 0.0
  }

  /** What kernel row a and column b contribute in the loops, which go through the image forwards. */
  ghost function Term(s: seq<real>, w: nat, i: int, j: int, k: Kernel, a: int, b: int): real {
    Times(Value(s, (i + a - k.rows / 2) * w + j + b - k.cols / 2), Value(k.values, k.cols * k.rows - a * k.cols - b - 1))
  }

  ghost function Terms(s: seq<real>, w: nat, i: int, j: int, k: Kernel, a: int): int -> real {
    b => Term(s, w, i, j, k, a, b)
  }

  ghost function Rows(s: seq<real>, w: nat, i: int, j: int, k: Kernel): int -> real {
    a => Sum(Terms(s, w, i, j, k, a), k.cols)
  }

  /** The value the loops compute for row i, column j. */
  ghost function Direct(s: seq<real>, w: nat, i: int, j: int, k: Kernel): real {
    Sum(Rows(s, w, i, j, k), k.rows)
  }

  /** The definition of convolution: the kernel is gone through forwards, the image backwards from the centre. */
  ghost function Convolved(s: seq<real>, w: nat, i: int, j: int, k: Kernel): real {
    Sum(ConvolvedRows(s, w, i, j, k), k.rows)
  }

  ghost function ConvolvedRows(s: seq<real>, w: nat, i: int, j: int, k: Kernel): int -> real {
    a => Sum(ConvolvedTerms(s, w, i, j, k, a), k.cols)
  }

  ghost function ConvolvedTerms(s: seq<real>, w: nat, i: int, j: int, k: Kernel, a: int): int -> real {
    b => ConvolvedTerm(s, w, i, j, k, a, b)
  }

  ghost function ConvolvedTerm(s: seq<real>, w: nat, i: int, j: int, k: Kernel, a: int, b: int): real {
    Times(Value(s, (i + k.rows / 2 - a) * w + j + k.cols / 2 - b), Value(k.values, a * k.cols + b))
  }

  lemma {:induction false} TermReversed(s: seq<real>, w: nat, i: int, j: int, k: Kernel, a: int, b: int)
    requires Odd(k) && 0 <= a < k.rows && 0 <= b < k.cols
    ensures Term(s, w, i, j, k, a, b) == ConvolvedTerm(s, w, i, j, k, k.rows - 1 - a, k.cols - 1 - b)
  {
    assert k.rows / 2 - (k.rows - 1 - a) == a - k.rows / 2;
    assert k.cols / 2 - (k.cols - 1 - b) == b - k.cols / 2;
    assert (k.rows - 1 - a) * k.cols + (k.cols - 1 - b) == k.cols * k.rows - a * k.cols - b - 1;
  }

  lemma {:induction false} RowReversed(s: seq<real>, w: nat, i: int, j: int, k: Kernel, a: int)
    requires Odd(k) && 0 <= a < k.rows
    ensures Rows(s, w, i, j, k)(a) == ConvolvedRows(s, w, i, j, k)(k.rows - 1 - a)
  {
    var f, g := ConvolvedTerms(s, w, i, j, k, k.rows - 1 - a), Terms(s, w, i, j, k, a);
    forall b | 0 <= b < k.cols ensures g(b) == f(k.cols - 1 - b) { TermReversed(s, w, i, j, k, a, b); }
    SumReversed(f, g, k.cols);
  }

  /** The loops compute the convolution. */
  lemma {:induction false} LoopsConvolve(s: seq<real>, w: nat, i: int, j: int, k: Kernel)
    requires Odd(k)
    ensures Direct(s, w, i, j, k) == Convolved(s, w, i, j, k)
  {
    forall a | 0 <= a < k.rows ensures Rows(s, w, i, j, k)(a) == ConvolvedRows(s, w, i, j, k)(k.rows - 1 - a) {
      RowReversed(s, w, i, j, k, a);
    }
    SumReversed(ConvolvedRows(s, w, i, j, k), Rows(s, w, i, j, k), k.rows);
  }

  // ----- one kernel for the rows, one for the columns

  ghost function RowTerms(s: seq<real>, w: nat, i: int, j: int, x: seq<real>): int -> real {
    b => Times(Value(s, i * w + j + b - |x| / 2), Value(x, |x| - b - 1))
  }

  ghost function AlongRow(s: seq<real>, w: nat, i: int, j: int, x: seq<real>): real {
    Sum(RowTerms(s, w, i, j, x), |x|)
  }

  ghost function ColumnTerms(t: seq<real>, w: nat, i: int, j: int, y: seq<real>): int -> real {
    a => Times(Value(t, (i + a - |y| / 2) * w + j), Value(y, |y| - a - 1))
  }

  /** The second pass over t, which holds the result of the first. */
  ghost function AlongColumn(t: seq<real>, w: nat, i: int, j: int, y: seq<real>): real {
    Sum(ColumnTerms(t, w, i, j, y), |y|)
  }

  ghost function SeparateTerms(s: seq<real>, w: nat, i: int, j: int, x: seq<real>, y: seq<real>): int -> real {
    a => Times(AlongRow(s, w, i + a - |y| / 2, j, x), Value(y, |y| - a - 1))
  }

  ghost function Separate(s: seq<real>, w: nat, i: int, j: int, x: seq<real>, y: seq<real>): real {
    Sum(SeparateTerms(s, w, i, j, x, y), |y|)
  }

  /** The kernel whose value at row a, column b is the product of the two. */
  ghost predicate Outer(k: Kernel, x: seq<real>, y: seq<real>) {
    && k.cols == |x| && k.rows == |y| && |k.values| == |x| * |y|
    && forall a: nat, b: nat :: a < |y| && b < |x| ==> OuterAt(k, x, y, a, b)
  }

  ghost predicate OuterAt(k: Kernel, x: seq<real>, y: seq<real>, a: nat, b: nat)
    requires a < |y| && b < |x|
  {
    Value(k.values, a * |x| + b) == Times(y[a], x[b])
  }

  /** The two passes give what the one pass with the product kernel gives. */
  lemma {:induction false} SeparateIsDirect(s: seq<real>, w: nat, i: int, j: int, x: seq<real>, y: seq<real>, k: Kernel)
    requires Outer(k, x, y)
    ensures Separate(s, w, i, j, x, y) == Direct(s, w, i, j, k)
  {
    forall a | 0 <= a < |y| ensures SeparateTerms(s, w, i, j, x, y)(a) == Rows(s, w, i, j, k)(a) {
      SeparateRow(s, w, i, j, x, y, k, a);
    }
    SumEq(SeparateTerms(s, w, i, j, x, y), Rows(s, w, i, j, k), |y|);
  }

  lemma {:induction false} SeparateRow(s: seq<real>, w: nat, i: int, j: int, x: seq<real>, y: seq<real>,
                                       k: Kernel, a: nat)
    requires Outer(k, x, y) && a < |y|
    ensures SeparateTerms(s, w, i, j, x, y)(a) == Rows(s, w, i, j, k)(a)
  {
    var i', c := i + a - |y| / 2, Value(y, |y| - a - 1);
    var f, g := RowTerms(s, w, i', j, x), Terms(s, w, i, j, k, a);
    forall b | 0 <= b < |x| ensures g(b) == Times(c, f(b)) { SeparateTerm(s, w, i, j, x, y, k, a, b); }
    SumScaled(f, c, g, |x|);
    TimesCommutes(c, Sum(f, |x|));
  }

  lemma {:induction false} SeparateTerm(s: seq<real>, w: nat, i: int, j: int, x: seq<real>, y: seq<real>,
                                        k: Kernel, a: nat, b: nat)
    requires Outer(k, x, y) && a < |y| && b < |x|
    ensures Term(s, w, i, j, k, a, b)
      == Times(Value(y, |y| - a - 1), Times(Value(s, (i + a - |y| / 2) * w + j + b - |x| / 2), Value(x, |x| - b - 1)))
  {
    var a', b' := |y| - a - 1, |x| - b - 1;
    assert OuterAt(k, x, y, a', b');
    assert a' * |x| + b' == k.cols * k.rows - a * k.cols - b - 1;
    TimesSwap(Value(s, (i + a - |y| / 2) * w + j + b - |x| / 2), y[a'], x[b']);
  }

  lemma {:induction false} TimesCommutes(u: real, v: real)
    ensures Times(u, v) == Times(v, u)
  {
  }

  lemma {:induction false} TimesSwap(p: real, u: real, v: real)
    ensures Times(p, Times(u, v)) == Times(u, Times(p, v))
  {
  }
}
