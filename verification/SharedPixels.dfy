/**
 * Convolution when source and destination are two headers of the same pixels: results are
 * written over pixels that are still needed. For which kernels is every image right all the same?
 */
module SharedPixels {
  import opened LinearAlgebra
  import opened Convolution
  import opened ConvolutionLoops

  /** What the loops multiply the pixel at kernel row a, column b with. */
  ghost function Weight(k: Kernel, a: int, b: int): real {
    Value(k.values, k.cols * k.rows - a * k.cols - b - 1)
  }

  /** Kernel row a, column b comes before the centre. */
  predicate Earlier(k: Kernel, a: int, b: int) {
    a < k.rows / 2 || (a == k.rows / 2 && b < k.cols / 2)
  }

  /** Row i, column j comes before row i', column j'. */
  predicate Before(i: int, j: int, i': int, j': int) {
    i < i' || (i == i' && j < j')
  }

  /** The result at row i, column j depends on a result before it. */
  ghost predicate LooksBack(w: nat, h: nat, k: Kernel, i: int, j: int, a: int, b: int) {
    && Inner(i, j, w, h, k.cols / 2, k.rows / 2) && 0 <= a < k.rows && 0 <= b < k.cols && Earlier(k, a, b)
    && Inner(i + a - k.rows / 2, j + b - k.cols / 2, w, h, k.cols / 2, k.rows / 2) && Weight(k, a, b) != 0.0
  }

  /** Nothing before row i, column j depends on a result before it. */
  ghost predicate NeverBackBefore(w: nat, h: nat, k: Kernel, i: int, j: int) {
    forall i', j', a, b :: LooksBack(w, h, k, i', j', a, b) ==> !Before(i', j', i, j)
  }

  // ----- what has been done so far

  /** What row i', column j' is to be when the loops have got to row i, column j. */
  ghost function Wanted(s: seq<real>, w: nat, h: nat, k: Kernel, i: int, j: int, i': int, j': int): real {
    if Inner(i', j', w, h, k.cols / 2, k.rows / 2) && Before(i', j', i, j) then Direct(s, w, i', j', k)
    else Value(s, Idx(i', j', w))
  }

  ghost predicate RightTo(s: seq<real>, t: seq<real>, w: nat, h: nat, k: Kernel, i: int, j: int) {
    forall i', j' :: 0 <= i' < h && 0 <= j' < w ==> Value(t, Idx(i', j', w)) == Wanted(s, w, h, k, i, j, i', j')
  }

  lemma {:induction false} TimesZero(x: real, y: real)
    requires y == 0.0
    ensures Times(x, y) == 0.0
  {
  }

  /** A result that does not depend on one before it comes out as from the image there was. */
  lemma {:induction false} SameTerms(s: seq<real>, t: seq<real>, w: nat, h: nat, k: Kernel, i: int, j: int)
    requires RightTo(s, t, w, h, k, i, j) && Inner(i, j, w, h, k.cols / 2, k.rows / 2)
    requires forall a, b :: !LooksBack(w, h, k, i, j, a, b)
    ensures Direct(t, w, i, j, k) == Direct(s, w, i, j, k)
  {
    forall a | 0 <= a < k.rows ensures Rows(t, w, i, j, k)(a) == Rows(s, w, i, j, k)(a) {
      forall b | 0 <= b < k.cols ensures Terms(t, w, i, j, k, a)(b) == Terms(s, w, i, j, k, a)(b) {
        SameTerm(s, t, w, h, k, i, j, a, b);
      }
      SumEq(Terms(t, w, i, j, k, a), Terms(s, w, i, j, k, a), k.cols);
    }
    SumEq(Rows(t, w, i, j, k), Rows(s, w, i, j, k), k.rows);
  }

  lemma {:induction false} SameTerm(s: seq<real>, t: seq<real>, w: nat, h: nat, k: Kernel, i: int, j: int, a: int, b: int)
    requires RightTo(s, t, w, h, k, i, j) && Inner(i, j, w, h, k.cols / 2, k.rows / 2) && 0 <= a < k.rows && 0 <= b < k.cols
    requires !LooksBack(w, h, k, i, j, a, b)
    ensures Term(t, w, i, j, k, a, b) == Term(s, w, i, j, k, a, b)
  {
    var i', j' := i + a - k.rows / 2, j + b - k.cols / 2;
    assert Value(t, Idx(i', j', w)) == Wanted(s, w, h, k, i, j, i', j');
    assert Idx(i', j', w) == i' * w + j + b - k.cols / 2;
    if Weight(k, a, b) == 0.0 {
      TimesZero(Value(t, Idx(i', j', w)), Weight(k, a, b));
      TimesZero(Value(s, Idx(i', j', w)), Weight(k, a, b));
    }
  }

  lemma {:induction false} IdxApart(i: int, j: int, i': int, j': int, w: nat)
    requires 0 <= j < w && 0 <= j' < w && (i != i' || j != j')
    ensures Idx(i, j, w) != Idx(i', j', w)
  {
    if i < i' { IdxBefore(i, j, i', j', w); }
    if i' < i { IdxBefore(i', j', i, j, w); }
  }

  /** One result more. */
  lemma {:induction false} OneMoreRight(s: seq<real>, t: seq<real>, w: nat, h: nat, k: Kernel, i: int, j: int)
    requires |s| == |t| == w * h && RightTo(s, t, w, h, k, i, j) && Inner(i, j, w, h, k.cols / 2, k.rows / 2)
    requires forall a, b :: !LooksBack(w, h, k, i, j, a, b)
    ensures 0 <= Idx(i, j, w) < |t| && RightTo(s, t[Idx(i, j, w) := Direct(t, w, i, j, k)], w, h, k, i, j + 1)
  {
    IdxInside(i, j, w, h);
    SameTerms(s, t, w, h, k, i, j);
    var t' := t[Idx(i, j, w) := Direct(t, w, i, j, k)];
    forall i', j' | 0 <= i' < h && 0 <= j' < w ensures Value(t', Idx(i', j', w)) == Wanted(s, w, h, k, i, j + 1, i', j') {
      assert Value(t, Idx(i', j', w)) == Wanted(s, w, h, k, i, j, i', j');
      IdxInside(i', j', w, h);
      if i' != i || j' != j { IdxApart(i, j, i', j', w); }
    }
  }

  lemma {:induction false} RowRight(s: seq<real>, t: seq<real>, w: nat, h: nat, k: Kernel, i: int, j: int)
    requires |s| == |t| == w * h && RightTo(s, t, w, h, k, i, k.cols / 2) && k.rows / 2 <= i < h - k.rows / 2
    requires k.cols / 2 <= j && (j <= w - k.cols / 2 || j == k.cols / 2) && NeverBackBefore(w, h, k, i, j)
    ensures RightTo(s, SweptRow(t, w, i, k, j), w, h, k, i, j)
    decreases j
  {
    if j <= k.cols / 2 {
    } else {
      assert NeverBackBefore(w, h, k, i, j - 1);
      RowRight(s, t, w, h, k, i, j - 1);
      var j' := j - 1;
      forall a, b ensures !LooksBack(w, h, k, i, j', a, b) {}
      OneMoreRight(s, SweptRow(t, w, i, k, j - 1), w, h, k, i, j - 1);
    }
  }

  /** The end of one row is the start of the next. */
  lemma {:induction false} RowEnds(s: seq<real>, t: seq<real>, w: nat, h: nat, k: Kernel, i: int, j: int)
    requires RightTo(s, t, w, h, k, i, j) && j >= w - k.cols / 2
    ensures RightTo(s, t, w, h, k, i + 1, k.cols / 2)
  {
    forall i', j' | 0 <= i' < h && 0 <= j' < w ensures Value(t, Idx(i', j', w)) == Wanted(s, w, h, k, i + 1, k.cols / 2, i', j') {
      assert Value(t, Idx(i', j', w)) == Wanted(s, w, h, k, i, j, i', j');
    }
  }

  lemma {:induction false} RowsRight(s: seq<real>, w: nat, h: nat, k: Kernel, i: int)
    requires |s| == w * h && k.rows / 2 <= i && (i <= h - k.rows / 2 || i == k.rows / 2)
    requires NeverBackBefore(w, h, k, i, k.cols / 2)
    ensures RightTo(s, Swept(s, w, k, i), w, h, k, i, k.cols / 2)
    decreases i
  {
    if i > k.rows / 2 {
      var end := if w - k.cols / 2 >= k.cols / 2 then w - k.cols / 2 else k.cols / 2;
      NoSooner(w, h, k, i, end);
      RowsRight(s, w, h, k, i - 1);
      RowRight(s, Swept(s, w, k, i - 1), w, h, k, i - 1, end);
      assert SweptRow(Swept(s, w, k, i - 1), w, i - 1, k, w - k.cols / 2) == SweptRow(Swept(s, w, k, i - 1), w, i - 1, k, end);
      RowEnds(s, Swept(s, w, k, i), w, h, k, i - 1, end);
    } else {
      forall i', j' | 0 <= i' < h && 0 <= j' < w ensures Value(s, Idx(i', j', w)) == Wanted(s, w, h, k, i, k.cols / 2, i', j') {}
    }
  }

  lemma {:induction false} NoSooner(w: nat, h: nat, k: Kernel, i: int, end: int)
    requires NeverBackBefore(w, h, k, i, k.cols / 2)
    ensures NeverBackBefore(w, h, k, i - 1, k.cols / 2) && NeverBackBefore(w, h, k, i - 1, end)
  {
    forall i', j', a, b | LooksBack(w, h, k, i', j', a, b) ensures !Before(i', j', i - 1, end) && !Before(i', j', i - 1, k.cols / 2) {
      assert !Before(i', j', i, k.cols / 2);
    }
  }

  // ----- results stay

  lemma {:induction false} RowStays(t: seq<real>, w: nat, h: nat, i: nat, k: Kernel, j: int, i': int, j': int)
    requires |t| == w * h && k.cols / 2 <= j && j <= w - k.cols / 2 && i < h && 0 <= i' < h && 0 <= j' < w
    requires i' != i || j' >= j
    ensures Value(SweptRow(t, w, i, k, j), Idx(i', j', w)) == Value(t, Idx(i', j', w))
    decreases j
  {
    if j <= k.cols / 2 {
    } else {
      RowStays(t, w, h, i, k, j - 1, i', j');
      IdxApart(i, j - 1, i', j', w);
    }
  }

  /** Row i, column j is written once, from the image as it is when the loops get there. */
  lemma {:induction false} RowResult(t: seq<real>, w: nat, h: nat, i: nat, k: Kernel, j: int, end: int)
    requires |t| == w * h && i < h && k.cols / 2 <= j < end <= w - k.cols / 2
    ensures Value(SweptRow(t, w, i, k, end), Idx(i, j, w)) == Direct(SweptRow(t, w, i, k, j), w, i, j, k)
    decreases end
  {
    IdxInside(i, j, w, h);
    if end == j + 1 {
    } else {
      RowResult(t, w, h, i, k, j, end - 1);
      IdxApart(i, end - 1, i, j, w);
    }
  }

  lemma {:induction false} Result(s: seq<real>, w: nat, h: nat, k: Kernel, i: nat, j: nat, end: int)
    requires |s| == w * h && Inner(i, j, w, h, k.cols / 2, k.rows / 2) && i < end <= h - k.rows / 2
    ensures Value(Swept(s, w, k, end), Idx(i, j, w)) == Direct(SweptRow(Swept(s, w, k, i), w, i, k, j), w, i, j, k)
    decreases end
  {
    var t := Swept(s, w, k, end - 1);
    assert Swept(s, w, k, end) == SweptRow(t, w, end - 1, k, w - k.cols / 2);
    if end == i + 1 {
      RowResult(t, w, h, i, k, j, w - k.cols / 2);
    } else {
      Result(s, w, h, k, i, j, end - 1);
      RowStays(t, w, h, end - 1, k, w - k.cols / 2, i, j);
    }
  }

  // ----- the image that is one at a single pixel

  ghost function Spot(w: nat, h: nat, r: int): (s: seq<real>)
    ensures |s| == w * h && forall p :: 0 <= p < |s| ==> s[p] == if p == r then 1.0 else 0.0
  {
    seq(w * h, p => if p == r then 1.0 else 0.0)
  }

  lemma {:induction false} SumDiffers(f: int -> real, g: int -> real, n: nat, k: nat)
    requires k < n && forall x :: 0 <= x < n && x != k ==> f(x) == g(x)
    ensures Sum(f, n) - Sum(g, n) == f(k) - g(k)
  {
    if k == n - 1 { SumEq(f, g, k); } else { SumDiffers(f, g, n - 1, k); }
  }

  /** Two images of which only one term differs. */
  lemma {:induction false} OneTermDiffers(s: seq<real>, t: seq<real>, w: nat, i: int, j: int, k: Kernel, a: nat, b: nat)
    requires a < k.rows && b < k.cols
    requires forall a', b' :: 0 <= a' < k.rows && 0 <= b' < k.cols && (a' != a || b' != b) ==>
      Term(t, w, i, j, k, a', b') == Term(s, w, i, j, k, a', b')
    ensures Direct(t, w, i, j, k) - Direct(s, w, i, j, k) == Term(t, w, i, j, k, a, b) - Term(s, w, i, j, k, a, b)
  {
    forall a' | 0 <= a' < k.rows && a' != a ensures Rows(t, w, i, j, k)(a') == Rows(s, w, i, j, k)(a') {
      forall b' | 0 <= b' < k.cols ensures Terms(t, w, i, j, k, a')(b') == Terms(s, w, i, j, k, a')(b') {
        assert Term(t, w, i, j, k, a', b') == Term(s, w, i, j, k, a', b');
      }
      SumEq(Terms(t, w, i, j, k, a'), Terms(s, w, i, j, k, a'), k.cols);
    }
    SumDiffers(Rows(t, w, i, j, k), Rows(s, w, i, j, k), k.rows, a);
    SumDiffers(Terms(t, w, i, j, k, a), Terms(s, w, i, j, k, a), k.cols, b);
  }

  lemma {:induction false} SumZero(f: int -> real, n: nat)
    requires forall x :: 0 <= x < n ==> f(x) == 0.0
    ensures Sum(f, n) == 0.0
  {
    if n == 0 {
    } else {
      SumZero(f, n - 1);
    }
  }

  /** Nothing comes of an image of zeros. */
  lemma {:induction false} DirectOfZeros(s: seq<real>, w: nat, i: int, j: int, k: Kernel)
    requires forall p :: 0 <= p < |s| ==> s[p] == 0.0
    ensures Direct(s, w, i, j, k) == 0.0
  {
    forall a | 0 <= a < k.rows ensures Rows(s, w, i, j, k)(a) == 0.0 {
      forall b | 0 <= b < k.cols ensures Terms(s, w, i, j, k, a)(b) == 0.0 {
        TimesZero(Weight(k, a, b), Value(s, (i + a - k.rows / 2) * w + j + b - k.cols / 2));
      }
      SumZero(Terms(s, w, i, j, k, a), k.cols);
    }
    SumZero(Rows(s, w, i, j, k), k.rows);
  }

  ghost predicate InKernel(k: Kernel, a: int, b: int) {
    0 <= a < k.rows && 0 <= b < k.cols
  }

  /** A single pixel spreads over its surroundings with the weights of the kernel. */
  lemma {:induction false} DirectOfSpot(w: nat, h: nat, k: Kernel, i: int, j: int, ri: int, rj: int)
    requires Inner(i, j, w, h, k.cols / 2, k.rows / 2) && 0 <= ri < h && 0 <= rj < w && Odd(k)
    ensures var a, b := ri - i + k.rows / 2, rj - j + k.cols / 2;
      Direct(Spot(w, h, Idx(ri, rj, w)), w, i, j, k) == if InKernel(k, a, b) then Weight(k, a, b) else 0.0
  {
    var a, b := ri - i + k.rows / 2, rj - j + k.cols / 2;
    var s, z := Spot(w, h, Idx(ri, rj, w)), Spot(w, h, -1);
    DirectOfZeros(z, w, i, j, k);
    forall a', b' | InKernel(k, a', b') && (a' != a || b' != b) ensures Term(s, w, i, j, k, a', b') == Term(z, w, i, j, k, a', b') {
      SpotTerm(w, h, k, i, j, ri, rj, a', b');
    }
    IdxInside(ri, rj, w, h);
    if InKernel(k, a, b) {
      OneTermDiffers(z, s, w, i, j, k, a, b);
      assert (i + a - k.rows / 2) * w + j + b - k.cols / 2 == Idx(ri, rj, w);
      TimesOne(Weight(k, a, b));
      TimesZero(Weight(k, a, b), 0.0);
    } else {
      forall a' | 0 <= a' < k.rows ensures Rows(s, w, i, j, k)(a') == Rows(z, w, i, j, k)(a') {
        SumEq(Terms(s, w, i, j, k, a'), Terms(z, w, i, j, k, a'), k.cols);
      }
      SumEq(Rows(s, w, i, j, k), Rows(z, w, i, j, k), k.rows);
    }
  }

  lemma {:induction false} TimesOne(y: real)
    ensures Times(1.0, y) == y && Times(0.0, y) == 0.0
  {
  }

  lemma {:induction false} SpotTerm(w: nat, h: nat, k: Kernel, i: int, j: int, ri: int, rj: int, a: int, b: int)
    requires Inner(i, j, w, h, k.cols / 2, k.rows / 2) && 0 <= ri < h && 0 <= rj < w && Odd(k) && InKernel(k, a, b)
    requires a != ri - i + k.rows / 2 || b != rj - j + k.cols / 2
    ensures Term(Spot(w, h, Idx(ri, rj, w)), w, i, j, k, a, b) == Term(Spot(w, h, -1), w, i, j, k, a, b)
  {
    var i', j' := i + a - k.rows / 2, j + b - k.cols / 2;
    IdxInside(i', j', w, h);
    IdxApart(i', j', ri, rj, w);
    assert i' * w + j + b - k.cols / 2 == Idx(i', j', w);
  }

  // ----- the first result that looks back can be wrong

  /** The first of the pairs with p, row by row. */
  lemma {:induction false} Least(p: (int, int) -> bool, rows: nat, cols: nat, a0: nat, b0: nat) returns (a: nat, b: nat)
    requires a0 < rows && b0 < cols && p(a0, b0)
    ensures a < rows && b < cols && p(a, b)
    ensures forall a', b' :: 0 <= a' < rows && 0 <= b' < cols && p(a', b') ==> !Before(a', b', a, b)
    decreases a0, b0
  {
    a, b := a0, b0;
    if a1: nat, b1: nat :| a1 < rows && b1 < cols && p(a1, b1) && Before(a1, b1, a0, b0) {
      a, b := Least(p, rows, cols, a1, b1);
    }
  }

  /** By how much the kernel differs from the one that changes nothing. */
  ghost function Excess(k: Kernel, a: int, b: int): real {
    Weight(k, a, b) - if a == k.rows / 2 && b == k.cols / 2 then 1.0 else 0.0
  }

  /** (a1, b1) is the first pixel a result looks back to, (a2, b2) the first place where the kernel changes anything. */
  ghost predicate First(w: nat, h: nat, k: Kernel, i: int, j: int, a1: int, b1: int, a2: int, b2: int) {
    && LooksBack(w, h, k, i, j, a1, b1) && (forall a, b :: LooksBack(w, h, k, i, j, a, b) ==> !Before(a, b, a1, b1))
    && InKernel(k, a2, b2) && Excess(k, a2, b2) != 0.0
    && forall a, b :: InKernel(k, a, b) && Excess(k, a, b) != 0.0 ==> !Before(a, b, a2, b2)
  }

  lemma {:induction false} FindFirst(w: nat, h: nat, k: Kernel, i: int, j: int, a0: int, b0: int)
    returns (a1: nat, b1: nat, a2: nat, b2: nat)
    requires LooksBack(w, h, k, i, j, a0, b0)
    ensures First(w, h, k, i, j, a1, b1, a2, b2)
  {
    a1, b1 := Least((a, b) => LooksBack(w, h, k, i, j, a, b), k.rows, k.cols, a0, b0);
    a2, b2 := Least((a, b) => Excess(k, a, b) != 0.0, k.rows, k.cols, a1, b1);
  }

  /** Only the term of (a1, b1) differs when the results before row i, column j are right. */
  lemma {:induction false} OtherTerms(w: nat, h: nat, k: Kernel, i: int, j: int, a1: int, b1: int, a2: int, b2: int,
                                      ri: int, rj: int, t: seq<real>, a: int, b: int)
    requires Odd(k) && First(w, h, k, i, j, a1, b1, a2, b2) && InKernel(k, a, b) && (a != a1 || b != b1)
    requires ri == i + a1 - k.rows / 2 + a2 - k.rows / 2 && rj == j + b1 - k.cols / 2 + b2 - k.cols / 2
    requires RightTo(Spot(w, h, Idx(ri, rj, w)), t, w, h, k, i, j)
    ensures Term(t, w, i, j, k, a, b) == Term(Spot(w, h, Idx(ri, rj, w)), w, i, j, k, a, b)
  {
    var s, i', j' := Spot(w, h, Idx(ri, rj, w)), i + a - k.rows / 2, j + b - k.cols / 2;
    if LooksBack(w, h, k, i, j, a, b) {
      var a', b' := ri - i' + k.rows / 2, rj - j' + k.cols / 2;
      assert a' == a2 - (a - a1) && b' == b2 - (b - b1) && Before(a', b', a2, b2);
      DirectOfSpot(w, h, k, i', j', ri, rj);
      assert InKernel(k, a', b') ==> Excess(k, a', b') == 0.0;
      SpotAt(w, h, i', j', ri, rj);
      assert Value(t, Idx(i', j', w)) == Wanted(s, w, h, k, i, j, i', j');
      assert i' * w + j + b - k.cols / 2 == Idx(i', j', w);
    } else {
      SameTerm(s, t, w, h, k, i, j, a, b);
    }
  }

  lemma {:induction false} SpotAt(w: nat, h: nat, i: int, j: int, ri: int, rj: int)
    requires 0 <= i < h && 0 <= j < w && 0 <= ri < h && 0 <= rj < w
    ensures Value(Spot(w, h, Idx(ri, rj, w)), Idx(i, j, w)) == if i == ri && j == rj then 1.0 else 0.0
  {
    IdxInside(i, j, w, h);
    if i != ri || j != rj { IdxApart(i, j, ri, rj, w); }
  }

  lemma {:induction false} TimesApart(x: real, x': real, y: real)
    requires x != x' && y != 0.0
    ensures Times(x, y) != Times(x', y)
  {
    assert (x - x') * y != 0.0;
  }

  /** The image of one pixel that makes the result at row i, column j wrong. */
  lemma {:induction false} WrongResult(w: nat, h: nat, k: Kernel, i: int, j: int, a1: int, b1: int, a2: int, b2: int,
                                       ri: int, rj: int, t: seq<real>)
    requires Odd(k) && First(w, h, k, i, j, a1, b1, a2, b2)
    requires ri == i + a1 - k.rows / 2 + a2 - k.rows / 2 && rj == j + b1 - k.cols / 2 + b2 - k.cols / 2
    requires RightTo(Spot(w, h, Idx(ri, rj, w)), t, w, h, k, i, j)
    ensures Direct(t, w, i, j, k) != Direct(Spot(w, h, Idx(ri, rj, w)), w, i, j, k)
  {
    var s, i1, j1 := Spot(w, h, Idx(ri, rj, w)), i + a1 - k.rows / 2, j + b1 - k.cols / 2;
    forall a, b | InKernel(k, a, b) && (a != a1 || b != b1) ensures Term(t, w, i, j, k, a, b) == Term(s, w, i, j, k, a, b) {
      OtherTerms(w, h, k, i, j, a1, b1, a2, b2, ri, rj, t, a, b);
    }
    OneTermDiffers(s, t, w, i, j, k, a1, b1);
    DirectOfSpot(w, h, k, i1, j1, ri, rj);
    SpotAt(w, h, i1, j1, ri, rj);
    assert Value(t, Idx(i1, j1, w)) == Wanted(s, w, h, k, i, j, i1, j1) == Weight(k, a2, b2);
    assert i1 * w + j + b1 - k.cols / 2 == Idx(i1, j1, w);
    TimesApart(Value(t, Idx(i1, j1, w)), Value(s, Idx(i1, j1, w)), Weight(k, a1, b1));
  }

  // ----- when every image comes out right

  /**
   * The weights the loops meet before the centre are zero, as far as the image has inner pixels so far apart.
   * Only kernel and size decide.
   */
  ghost predicate Shareable(w: nat, h: nat, k: Kernel) {
    forall a, b :: InKernel(k, a, b) && Earlier(k, a, b) && Weight(k, a, b) != 0.0 ==> Apart(w, h, k, a, b)
  }

  /** No two inner pixels are as far apart as row a, column b of the kernel is from its centre. */
  predicate Apart(w: nat, h: nat, k: Kernel, a: int, b: int) {
    || k.rows / 2 - a >= h - 2 * (k.rows / 2)
    || b - k.cols / 2 >= w - 2 * (k.cols / 2) || k.cols / 2 - b >= w - 2 * (k.cols / 2)
  }

  lemma {:induction false} LooksBackIff(w: nat, h: nat, k: Kernel, a: int, b: int)
    ensures InKernel(k, a, b) && Earlier(k, a, b) && Weight(k, a, b) != 0.0 && !Apart(w, h, k, a, b)
       <==> exists i, j :: LooksBack(w, h, k, i, j, a, b)
  {
    if InKernel(k, a, b) && Earlier(k, a, b) && Weight(k, a, b) != 0.0 && !Apart(w, h, k, a, b) {
      var i := k.rows / 2 + (k.rows / 2 - a);
      var j := k.cols / 2 + if b <= k.cols / 2 then k.cols / 2 - b else 0;
      assert LooksBack(w, h, k, i, j, a, b);
    }
  }

  /** The image is what convolution makes of s. */
  ghost predicate Right(s: seq<real>, w: nat, h: nat, k: Kernel) {
    Filtered(ConvolvedAt(s, w, k), s, Swept(s, w, k, h - k.rows / 2), w, h, k.cols / 2, k.rows / 2)
  }

  lemma {:induction false} RightWhenShareable(s: seq<real>, w: nat, h: nat, k: Kernel)
    requires Odd(k) && |s| == w * h && Shareable(w, h, k)
    ensures Right(s, w, h, k)
  {
    var end := if h - k.rows / 2 >= k.rows / 2 then h - k.rows / 2 else k.rows / 2;
    forall i', j', a, b ensures !LooksBack(w, h, k, i', j', a, b) { LooksBackIff(w, h, k, a, b); }
    RowsRight(s, w, h, k, end);
    var t := Swept(s, w, k, end);
    forall i: nat, j: nat | i < h && j < w
      ensures CellDone(ConvolvedAt(s, w, k), s, t, w, h, k.cols / 2, k.rows / 2, h, i, j)
    {
      assert Value(t, Idx(i, j, w)) == Wanted(s, w, h, k, end, k.cols / 2, i, j);
      IdxInside(i, j, w, h);
      LoopsConvolve(s, w, i, j, k);
    }
  }

  /** The first row and column where a result looks back. */
  lemma {:induction false} FirstCell(w: nat, h: nat, k: Kernel, i0: int, j0: int, a0: int, b0: int)
    returns (i: nat, j: nat, a1: nat, b1: nat, a2: nat, b2: nat)
    requires LooksBack(w, h, k, i0, j0, a0, b0)
    ensures NeverBackBefore(w, h, k, i, j) && First(w, h, k, i, j, a1, b1, a2, b2)
  {
    i, j := Least((i, j) => exists a, b :: LooksBack(w, h, k, i, j, a, b), h, w, i0, j0);
    var a, b :| LooksBack(w, h, k, i, j, a, b);
    a1, b1, a2, b2 := FindFirst(w, h, k, i, j, a, b);
  }

  lemma {:induction false} WrongOtherwise(w: nat, h: nat, k: Kernel, a0: int, b0: int) returns (s: seq<real>)
    requires Odd(k) && InKernel(k, a0, b0) && Earlier(k, a0, b0) && Weight(k, a0, b0) != 0.0 && !Apart(w, h, k, a0, b0)
    ensures |s| == w * h && !Right(s, w, h, k)
  {
    LooksBackIff(w, h, k, a0, b0);
    var i0, j0 :| LooksBack(w, h, k, i0, j0, a0, b0);
    var i, j, a1, b1, a2, b2 := FirstCell(w, h, k, i0, j0, a0, b0);
    var ri, rj := i + a1 - k.rows / 2 + a2 - k.rows / 2, j + b1 - k.cols / 2 + b2 - k.cols / 2;
    s := Spot(w, h, Idx(ri, rj, w));
    WrongSpot(w, h, k, i, j, a1, b1, a2, b2, ri, rj);
  }

  lemma {:induction false} WrongSpot(w: nat, h: nat, k: Kernel, i: nat, j: nat, a1: int, b1: int, a2: int, b2: int,
                                     ri: int, rj: int)
    requires Odd(k) && First(w, h, k, i, j, a1, b1, a2, b2) && NeverBackBefore(w, h, k, i, j)
    requires ri == i + a1 - k.rows / 2 + a2 - k.rows / 2 && rj == j + b1 - k.cols / 2 + b2 - k.cols / 2
    ensures !Right(Spot(w, h, Idx(ri, rj, w)), w, h, k)
  {
    var s := Spot(w, h, Idx(ri, rj, w));
    assert Inner(i, j, w, h, k.cols / 2, k.rows / 2);
    ArrivesRight(s, w, h, k, i, j);
    WrongResult(w, h, k, i, j, a1, b1, a2, b2, ri, rj, SweptRow(Swept(s, w, k, i), w, i, k, j));
    NotRight(s, w, h, k, i, j);
  }

  lemma {:induction false} NotRight(s: seq<real>, w: nat, h: nat, k: Kernel, i: nat, j: nat)
    requires Odd(k) && Inner(i, j, w, h, k.cols / 2, k.rows / 2) && |s| == w * h
    requires Direct(SweptRow(Swept(s, w, k, i), w, i, k, j), w, i, j, k) != Direct(s, w, i, j, k)
    ensures !Right(s, w, h, k)
  {
    Result(s, w, h, k, i, j, h - k.rows / 2);
    LoopsConvolve(s, w, i, j, k);
    assert !CellDone(ConvolvedAt(s, w, k), s, Swept(s, w, k, h - k.rows / 2), w, h, k.cols / 2, k.rows / 2, h, i, j);
  }

  lemma {:induction false} ArrivesRight(s: seq<real>, w: nat, h: nat, k: Kernel, i: nat, j: nat)
    requires |s| == w * h && Inner(i, j, w, h, k.cols / 2, k.rows / 2) && NeverBackBefore(w, h, k, i, j)
    ensures RightTo(s, SweptRow(Swept(s, w, k, i), w, i, k, j), w, h, k, i, j)
  {
    forall i', j', a, b | LooksBack(w, h, k, i', j', a, b) ensures !Before(i', j', i, k.cols / 2) {
      assert !Before(i', j', i, j);
    }
    RowsRight(s, w, h, k, i);
    RowRight(s, Swept(s, w, k, i), w, h, k, i, j);
  }

  /**
   * With two headers of the same pixels every image comes out right if and only if the loops
   * meet no weight before the centre of the kernel, but for those that reach no other inner pixel.
   */
  lemma {:induction false} SharedRightIff(w: nat, h: nat, k: Kernel)
    requires Odd(k)
    ensures (forall s: seq<real> :: |s| == w * h ==> Right(s, w, h, k)) <==> Shareable(w, h, k)
  {
    if Shareable(w, h, k) {
      forall s: seq<real> | |s| == w * h ensures Right(s, w, h, k) { RightWhenShareable(s, w, h, k); }
    } else {
      var a, b :| InKernel(k, a, b) && Earlier(k, a, b) && Weight(k, a, b) != 0.0 && !Apart(w, h, k, a, b);
      var s := WrongOtherwise(w, h, k, a, b);
      assert !Right(s, w, h, k);
    }
  }
}
