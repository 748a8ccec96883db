/**
 * In-place LU factorisation with implicit scaled partial pivoting, and the
 * solution of linear systems from the packed factors. Doubles are exact reals.
 */
module LUDecomposition {
  import opened LinearAlgebra
  import opened Pivoting

  const TINY: real := 0.00000000000000000001

  ghost function RowPrefix(a: array2<real>, i: nat, t: nat): (u: Vector)
    requires i < a.Length0 && t <= a.Length1
    reads a
    ensures |u| == t
  {
    if t == 0 then [] else RowPrefix(a, i, t - 1) + [a[i, t - 1]]
  }

  ghost function RowsPrefix(a: array2<real>, t: nat): (m: Matrix)
    requires t <= a.Length0
    reads a
    ensures |m| == t && forall i :: 0 <= i < t ==> |m[i]| == a.Length1
  {
    if t == 0 then [] else RowsPrefix(a, t - 1) + [RowPrefix(a, t - 1, a.Length1)]
  }

  /** The contents of a as a value. */
  ghost function Rows(a: array2<real>): (m: Matrix)
    reads a
    ensures |m| == a.Length0
    ensures forall i :: 0 <= i < a.Length0 ==> |m[i]| == a.Length1
  {
    RowsPrefix(a, a.Length0)
  }

  lemma {:induction false} RowPrefixEntries(a: array2<real>, i: nat, t: nat)
    requires i < a.Length0 && t <= a.Length1
    ensures forall j :: 0 <= j < t ==> RowPrefix(a, i, t)[j] == a[i, j]
  {
    if t == 0 {
    } else {
      RowPrefixEntries(a, i, t - 1);
    }
  }

  lemma {:induction false} RowsPrefixEntries(a: array2<real>, t: nat)
    requires t <= a.Length0
    ensures forall i, j :: 0 <= i < t && 0 <= j < a.Length1 ==> RowsPrefix(a, t)[i][j] == a[i, j]
  {
    if t == 0 {
    } else {
      RowsPrefixEntries(a, t - 1);
      RowPrefixEntries(a, t - 1, a.Length1);
    }
  }

  lemma {:induction false} Entries(a: array2<real>)
    ensures forall i, j :: 0 <= i < a.Length0 && 0 <= j < a.Length1 ==> Rows(a)[i][j] == a[i, j]
  {
    RowsPrefixEntries(a, a.Length0);
  }

  /** What the program asserts of its input: no row is all zero. */
  ghost predicate NoZeroRow(m: Matrix, n: nat)
    requires Square(m, n)
  {
    forall i :: 0 <= i < n ==> Scale(m[i], n) != 0.0
  }

  /** Column c of the packed factors multiplies back to column c of pa. */
  ghost predicate ColumnFactored(m: Matrix, pa: Matrix, n: nat, c: nat, replaced: set<int>)
    requires Square(m, n) && Square(pa, n) && c < n
  {
    && m[c][c] != 0.0
    && (forall i :: 0 <= i < n ==>
          Entry(m, n, i, c) == pa[i][c] + if i == c && c in replaced then TINY else 0.0)
    && (c in replaced ==> m[c][c] == TINY && forall i :: c < i < n ==> m[i][c] == 0.0)
  }

  /** The pivot of column c was largest relative to the scales of the rows below it. */
  ghost predicate WellPivoted(m: Matrix, scale: Vector, n: nat, c: nat)
    requires Square(m, n) && |scale| == n && c < n
  {
    forall i :: c < i < n ==> Times(Abs(m[i][c]), scale[c]) <= scale[i]
  }

  /** The loop's state before column j: earlier columns factored, later ones untouched. */
  ghost predicate Factored(m: Matrix, pa: Matrix, n: nat, j: nat, replaced: set<int>) {
    && Square(m, n) && Square(pa, n) && j <= n
    && (forall c :: c in replaced ==> 0 <= c < j)
    && (forall c :: 0 <= c < j ==> ColumnFactored(m, pa, n, c, replaced))
    && (forall i, c :: 0 <= i < n && j <= c < n ==> m[i][c] == pa[i][c])
  }

  ghost predicate OnlyColumn(m: Matrix, m': Matrix, n: nat, j: nat) {
    && Square(m, n) && Square(m', n)
    && forall i, c :: 0 <= i < n && 0 <= c < n && c != j ==> m'[i][c] == m[i][c]
  }

  /** Column j of m' is column j of m with the inner sums over earlier columns taken off. */
  ghost predicate Eliminated(m: Matrix, m': Matrix, n: nat, j: nat, upTo: nat) {
    && OnlyColumn(m, m', n, j) && j < n && upTo <= n
    && (forall i :: 0 <= i < upTo ==> m'[i][j] + Inner(m', n, i, j, Min(i, j)) == m[i][j])
    && (forall i :: upTo <= i < n ==> m'[i][j] == m[i][j])
  }

  lemma {:induction false} EliminateEntry(m: Matrix, m1: Matrix, m2: Matrix, n: nat, j: nat, i: nat)
    requires Eliminated(m, m1, n, j, i) && i < n
    requires OnlyColumn(m1, m2, n, j)
    requires forall r :: 0 <= r < n && r != i ==> m2[r][j] == m1[r][j]
    requires m2[i][j] == m1[i][j] - Inner(m1, n, i, j, Min(i, j))
    ensures Eliminated(m, m2, n, j, i + 1)
  {
    forall r | 0 <= r <= i
      ensures Inner(m2, n, r, j, Min(r, j)) == Inner(m1, n, r, j, Min(r, j))
    {
      InnerEq(m2, m1, n, r, r, j, Min(r, j));
    }
  }

  /** A column's entries depend only on itself and the columns before it. */
  lemma {:induction false} OtherColumnKept(m: Matrix, m': Matrix, pa: Matrix, n: nat, j: nat, c: nat,
                                           replaced: set<int>, replaced': set<int>)
    requires OnlyColumn(m, m', n, j) && Square(pa, n) && c < j
    requires c < n && ColumnFactored(m, pa, n, c, replaced)
    requires c in replaced <==> c in replaced'
    ensures ColumnFactored(m', pa, n, c, replaced')
  {
    forall i | 0 <= i < n
      ensures Entry(m', n, i, c) == Entry(m, n, i, c)
    {
      InnerEq(m', m, n, i, i, c, Min(i, c));
    }
  }

  lemma {:induction false} SwapColumnKept(m: Matrix, pa: Matrix, n: nat, j: nat, p: nat, c: nat, replaced: set<int>)
    requires Square(m, n) && Square(pa, n) && c < j <= p < n
    requires ColumnFactored(m, pa, n, c, replaced)
    ensures ColumnFactored(SwapAt(m, j, p), SwapAt(pa, j, p), n, c, replaced)
  {
    var m', pa' := SwapAt(m, j, p), SwapAt(pa, j, p);
    forall i | 0 <= i < n
      ensures Entry(m', n, i, c) == pa'[i][c] + if i == c && c in replaced then TINY else 0.0
    {
      var i0 := if i == j then p else if i == p then j else i;
      InnerEq(m', m, n, i, i0, c, Min(i, c));
    }
  }

  lemma {:induction false} SwapEliminated(m: Matrix, m': Matrix, n: nat, j: nat, p: nat)
    requires Eliminated(m, m', n, j, n) && j <= p < n
    ensures Eliminated(SwapAt(m, j, p), SwapAt(m', j, p), n, j, n)
  {
    var s, s' := SwapAt(m, j, p), SwapAt(m', j, p);
    forall i | 0 <= i < n
      ensures s'[i][j] + Inner(s', n, i, j, Min(i, j)) == s[i][j]
    {
      var i0 := if i == j then p else if i == p then j else i;
      InnerEq(s', m', n, i, i0, j, Min(i, j));
    }
  }

  lemma {:induction false} CancelPositive(t: real, y: real)
    requires t * y <= 0.0 && y > 0.0
    ensures t <= 0.0
  {
  }

  /** A multiplier z = x / y is bounded by the ratio of the two rows' scales. */
  lemma {:induction false} MultiplierBound(x: real, y: real, z: real, vi: real, vj: real, si: real, sj: real)
    requires y != 0.0 && Times(z, y) == x
    requires Times(vi, si) == 1.0 && Times(vj, sj) == 1.0 && si > 0.0 && sj > 0.0
    requires Times(vi, Abs(x)) <= Times(vj, Abs(y))
    ensures Times(Abs(z), sj) <= si
  {
    var ax, ay, az := Abs(x), Abs(y), Abs(z);
    assert az * ay == ax;
    var e := vj * ay - vi * ax;
    assert e * (si * sj) >= 0.0;
    assert e * (si * sj) == (vj * sj) * ay * si - (vi * si) * ax * sj;
    assert (az * sj - si) * ay == ax * sj - ay * si <= 0.0;
    CancelPositive(az * sj - si, ay);
  }

  lemma {:induction false} CancelTiny(x: real)
    requires Times(x, TINY) == 0.0
    ensures x == 0.0
  {
  }

  /** The pivot replacement and the scaling complete column j. */
  lemma {:induction false} ScaleCompletes(pa: Matrix, m1: Matrix, m2: Matrix, n: nat, j: nat, replaced: set<int>)
    requires Square(pa, n) && Square(m1, n) && OnlyColumn(m1, m2, n, j) && j < n
    requires forall i :: 0 <= i < n ==> m1[i][j] + Inner(m1, n, i, j, Min(i, j)) == pa[i][j]
    requires forall i :: 0 <= i < j ==> m2[i][j] == m1[i][j]
    requires m2[j][j] == if m1[j][j] == 0.0 then TINY else m1[j][j]
    requires forall i :: j < i < n ==> Times(m2[i][j], m2[j][j]) == m1[i][j]
    requires j in replaced <==> m1[j][j] == 0.0
    requires m1[j][j] == 0.0 ==> forall i :: j < i < n ==> m1[i][j] == 0.0
    ensures ColumnFactored(m2, pa, n, j, replaced)
  {
    forall i | 0 <= i < n
      ensures Inner(m2, n, i, j, Min(i, j)) == Inner(m1, n, i, j, Min(i, j))
    {
      InnerEq(m2, m1, n, i, i, j, Min(i, j));
    }
    if m1[j][j] == 0.0 {
      forall i | j < i < n ensures m2[i][j] == 0.0 { CancelTiny(m2[i][j]); }
    }
  }

  method Divide(x: real, y: real, dum: real) returns (z: real)
    requires y != 0.0 && dum == 1.0 / y
    ensures Times(z, y) == x
  {
    z := x * dum;
    assert dum * y == 1.0;
    assert x * dum * y == x * (dum * y);
  }

  ghost function Scales(m: Matrix, n: nat): (s: Vector)
    requires Square(m, n)
    ensures |s| == n && forall i :: 0 <= i < n ==> s[i] == Scale(m[i], n)
  {
    seq(n, i requires 0 <= i < n => Scale(m[i], n))
  }

  lemma {:induction false} SwapScales(m: Matrix, n: nat, j: nat, p: nat)
    requires Square(m, n) && j < n && p < n
    ensures Square(SwapAt(m, j, p), n) && Scales(SwapAt(m, j, p), n) == SwapAt(Scales(m, n), j, p)
  {
  }

  method LargestMagnitude(a: array2<real>, i: nat) returns (big: real)
    requires a.Length0 == a.Length1 && i < a.Length0
    ensures big == Scale(Rows(a)[i], a.Length0)
  {
    ghost var row := Rows(a)[i];
    Entries(a);
    big := 0.0;
    for j := 0 to a.Length0
      invariant big == Scale(row, j)
    {
      var temp := Abs(a[i, j]);
      if temp > big { big := temp; }
    }
  }

  method Reciprocal(x: real) returns (r: real)
    requires x != 0.0
    ensures Times(r, x) == 1.0
  {
    r := 1.0 / x;
  }

  ghost predicate AreReciprocals(v: Vector, scale: Vector, from: nat, to: nat) {
    from <= to <= |v| && to <= |scale| && forall i :: from <= i < to ==> Times(v[i], scale[i]) == 1.0
  }

  lemma {:induction false} OneMoreReciprocal(v: Vector, v': Vector, scale: Vector, i: nat)
    requires AreReciprocals(v, scale, 0, i) && |v'| == |v| && i < |v| && i < |scale|
    requires forall r :: 0 <= r < i ==> v'[r] == v[r]
    requires Times(v'[i], scale[i]) == 1.0
    ensures AreReciprocals(v', scale, 0, i + 1)
  {
  }

  ghost predicate InverseOfLargest(u: Vector, r: real) {
    exists s :: LargestIn(u, s) && r * s == 1.0
  }

  /** First loop: the reciprocal of the largest magnitude of every row. */
  method RowScales(a: array2<real>) returns (vv: array<real>)
    requires a.Length0 == a.Length1 && NoZeroRow(Rows(a), a.Length0)
    ensures fresh(vv) && vv.Length == a.Length0
    ensures AreReciprocals(vv[..], Scales(Rows(a), a.Length0), 0, a.Length0)
    ensures forall i :: 0 <= i < a.Length0 ==> InverseOfLargest(Rows(a)[i], vv[i])
  {
    var n := a.Length0;
    ghost var scale := Scales(Rows(a), n);
    vv := new real[n];
    for i := 0 to n
      invariant AreReciprocals(vv[..], scale, 0, i)
    {
      var big := LargestMagnitude(a, i);
      var r := Reciprocal(big);
      ghost var before := vv[..];
      vv[i] := r;
      OneMoreReciprocal(before, vv[..], scale, i);
    }
    forall i | 0 <= i < n ensures InverseOfLargest(Rows(a)[i], vv[i]) {
      ScaleIsLargest(Rows(a)[i]);
      assert Times(vv[..][i], scale[i]) == 1.0;
    }
  }

  /** The sum loop shared by the two eliminations of a column. */
  method Reduce(a: array2<real>, i: nat, j: nat, t: nat) returns (sum: real)
    requires a.Length0 == a.Length1 && i < a.Length0 && j < a.Length0 && t <= a.Length0
    ensures sum == Rows(a)[i][j] - Inner(Rows(a), a.Length0, i, j, t)
  {
    Entries(a);
    sum := a[i, j];
    for k := 0 to t
      invariant sum == Rows(a)[i][j] - Inner(Rows(a), a.Length0, i, j, k)
    {
      sum := sum - Times(a[i, k], a[k, j]);
    }
  }

  /** Takes the inner sum off one entry of column j. */
  method EliminateAt(a: array2<real>, i: nat, j: nat, ghost m0: Matrix) returns (sum: real)
    requires a.Length0 == a.Length1 && j < a.Length0 && i < a.Length0
    requires Eliminated(m0, Rows(a), a.Length0, j, i)
    modifies a
    ensures Eliminated(m0, Rows(a), a.Length0, j, i + 1)
    ensures Rows(a)[i][j] == sum
    ensures forall r :: 0 <= r < a.Length0 && r != i ==> Rows(a)[r][j] == old(Rows(a))[r][j]
  {
    ghost var m := Rows(a);
    Entries(a);
    sum := Reduce(a, i, j, Min(i, j));
    a[i, j] := sum;
    Entries(a);
    EliminateEntry(m0, m, Rows(a), a.Length0, j, i);
  }

  /** Eliminates column j above the diagonal. */
  method EliminateAbove(a: array2<real>, j: nat)
    requires a.Length0 == a.Length1 && j < a.Length0
    modifies a
    ensures Eliminated(old(Rows(a)), Rows(a), a.Length0, j, j)
  {
    ghost var m0 := Rows(a);
    for i := 0 to j
      invariant Eliminated(m0, Rows(a), a.Length0, j, i)
    {
      var _ := EliminateAt(a, i, j, m0);
    }
  }

  /** Row imax is the last with the largest magnitude in column j, from row j on, relative to its scale. */
  ghost predicate IsPivot(m: Matrix, v: Vector, j: nat, imax: nat, upTo: nat)
    requires upTo <= |m| == |v| && forall i :: 0 <= i < |m| ==> j < |m[i]|
  {
    && j <= imax < upTo
    && (forall r :: j <= r < upTo ==> Times(v[r], Abs(m[r][j])) <= Times(v[imax], Abs(m[imax][j])))
    && (forall r :: imax < r < upTo ==> Times(v[r], Abs(m[r][j])) < Times(v[imax], Abs(m[imax][j])))
  }

  /** With y the entry of row imax, or its negation, no row before has more weight, and none after as much. */
  ghost predicate Outweighs(m: Matrix, v: Vector, j: nat, imax: nat, y: real)
    requires imax < |m| == |v| && forall i :: 0 <= i < |m| ==> j < |m[i]|
  {
    && (y == m[imax][j] || y == -m[imax][j])
    && (forall r :: j <= r < |m| ==> -(v[imax] * y) <= v[r] * m[r][j] <= v[imax] * y)
    && (forall r :: imax < r < |m| ==> -(v[imax] * y) < v[r] * m[r][j] < v[imax] * y)
  }

  lemma {:induction false} WeightOf(v: real, x: real)
    ensures Times(v, Abs(x)) == v * x || Times(v, Abs(x)) == -(v * x)
    ensures v >= 0.0 ==> -Times(v, Abs(x)) <= v * x <= Times(v, Abs(x))
  {
    if Abs(x) == -x { assert v * Abs(x) == -(v * x); }
    if v >= 0.0 { assert v * Abs(x) >= 0.0; }
  }

  lemma {:induction false} PivotOutweighs(m: Matrix, v: Vector, n: nat, j: nat, imax: nat)
    requires Square(m, n) && |v| == n && j < n && IsPivot(m, v, j, imax, n)
    requires forall i :: j <= i < n ==> v[i] > 0.0
    ensures Outweighs(m, v, j, imax, Abs(m[imax][j]))
  {
    forall r | j <= r < n ensures -Times(v[r], Abs(m[r][j])) <= v[r] * m[r][j] <= Times(v[r], Abs(m[r][j])) {
      WeightOf(v[r], m[r][j]);
    }
  }

  method Weight(v: real, x: real) returns (w: real)
    requires v > 0.0
    ensures w == Times(v, Abs(x)) && w >= 0.0
  {
    w := v * Abs(x);
  }

  /** Looking at one more row keeps or replaces the pivot. */
  lemma {:induction false} PivotStep(m: Matrix, m': Matrix, n: nat, v: Vector, j: nat, imax: nat, i: nat,
                                     big: real, dum: real)
    requires Square(m, n) && Square(m', n) && |v| == n && j <= i < n
    requires forall r :: j <= r < i ==> m'[r][j] == m[r][j]
    requires i == j ==> big == 0.0
    requires i > j ==> IsPivot(m, v, j, imax, i) && big == Times(v[imax], Abs(m[imax][j]))
    requires dum == Times(v[i], Abs(m'[i][j])) && dum >= 0.0
    ensures dum >= big ==> IsPivot(m', v, j, i, i + 1)
    ensures dum < big ==> IsPivot(m', v, j, imax, i + 1) && big == Times(v[imax], Abs(m'[imax][j]))
  {
  }

  /** Eliminates column j from the diagonal down, keeping track of the pivot row. */
  method EliminateBelow(a: array2<real>, vv: array<real>, j: nat, ghost m0: Matrix) returns (imax: nat)
    requires a.Length0 == a.Length1 == vv.Length && j < a.Length0
    requires forall i :: j <= i < a.Length0 ==> vv[i] > 0.0
    requires Eliminated(m0, Rows(a), a.Length0, j, j)
    modifies a
    ensures Eliminated(m0, Rows(a), a.Length0, j, a.Length0)
    ensures IsPivot(Rows(a), vv[..], j, imax, a.Length0)
    ensures exists y :: Outweighs(Rows(a), vv[..], j, imax, y)
  {
    var n := a.Length0;
    ghost var v := vv[..];
    var big := 0.0;
    imax := j;
    for i := j to n
      invariant Eliminated(m0, Rows(a), n, j, i)
      invariant v == vv[..]
      invariant i == j ==> big == 0.0
      invariant i > j ==> IsPivot(Rows(a), v, j, imax, i) && big == Times(v[imax], Abs(Rows(a)[imax][j]))
    {
      ghost var m := Rows(a);
      var sum := EliminateAt(a, i, j, m0);
      var dum := Weight(vv[i], sum);
      PivotStep(m, Rows(a), n, v, j, imax, i, big, dum);
      if dum >= big {
        big := dum;
        imax := i;
      }
    }
    PivotOutweighs(Rows(a), v, n, j, imax);
  }

  method SwapRows(a: array2<real>, p: nat, j: nat)
    requires a.Length0 == a.Length1 && p < a.Length0 && j < a.Length0
    modifies a
    ensures Rows(a) == SwapAt(old(Rows(a)), j, p)
  {
    var n := a.Length0;
    Entries(a);
    for k := 0 to n
      invariant forall i, c :: 0 <= i < n && k <= c < n ==> a[i, c] == old(a[i, c])
      invariant forall i, c :: 0 <= i < n && 0 <= c < k && i != j && i != p ==> a[i, c] == old(a[i, c])
      invariant forall c :: 0 <= c < k ==> a[j, c] == old(a[p, c]) && a[p, c] == old(a[j, c])
    {
      var dum := a[p, k];
      a[p, k] := a[j, k];
      a[j, k] := dum;
    }
    Entries(a);
    assert forall i :: 0 <= i < n ==> Rows(a)[i] == SwapAt(old(Rows(a)), j, p)[i];
  }

  /** A zero pivot is replaced and the entries below are divided by the pivot. */
  ghost predicate ColumnScaled(m: Matrix, m': Matrix, n: nat, j: nat) {
    && OnlyColumn(m, m', n, j) && j < n
    && (forall i :: 0 <= i < j ==> m'[i][j] == m[i][j])
    && m'[j][j] == (if m[j][j] == 0.0 then TINY else m[j][j])
    && (forall i :: j < i < n ==> Times(m'[i][j], m'[j][j]) == m[i][j])
  }

  /** Replaces a zero pivot and divides the column below it. */
  method ScaleColumn(a: array2<real>, j: nat)
    requires a.Length0 == a.Length1 && j < a.Length0
    modifies a
    ensures ColumnScaled(old(Rows(a)), Rows(a), a.Length0, j)
  {
    var n := a.Length0;
    Entries(a);
    if a[j, j] == 0.0 { a[j, j] := TINY; }
    if j != n - 1 {
      var dum := 1.0 / a[j, j];
      for i := j + 1 to n
        invariant forall r, c :: 0 <= r < n && 0 <= c < n && c != j ==> a[r, c] == old(a[r, c])
        invariant forall r :: 0 <= r < j ==> a[r, j] == old(a[r, j])
        invariant a[j, j] == if old(a[j, j]) == 0.0 then TINY else old(a[j, j])
        invariant forall r :: j < r < i ==> Times(a[r, j], a[j, j]) == old(a[r, j])
        invariant forall r :: i <= r < n ==> a[r, j] == old(a[r, j])
      {
        var scaled := Divide(a[i, j], a[j, j], dum);
        a[i, j] := scaled;
      }
    }
    Entries(a);
  }

  // ----- one turn of the main loop, on values

  /** m1 is m0 with column j eliminated, m2 is m1 with the pivot row swapped in, m3 is m2 scaled. */
  ghost predicate Turn(m0: Matrix, m1: Matrix, m2: Matrix, m3: Matrix, n: nat, j: nat, p: nat) {
    && j <= p < n && Square(m1, n)
    && Eliminated(m0, m1, n, j, n)
    && m2 == SwapAt(m1, j, p)
    && ColumnScaled(m2, m3, n, j)
  }

  ghost predicate PositiveScales(m: Matrix, n: nat) {
    Square(m, n) && forall i :: 0 <= i < n ==> Scale(m[i], n) > 0.0
  }

  lemma {:induction false} PositiveWeight(v: real, scale: real)
    requires Times(v, scale) == 1.0 && scale > 0.0
    ensures v > 0.0
  {
  }

  lemma {:induction false} PositiveWeights(v: Vector, scale: Vector, j: nat, n: nat)
    requires AreReciprocals(v, scale, j, n)
    requires forall i :: j <= i < n ==> scale[i] > 0.0
    ensures forall i :: j <= i < n ==> v[i] > 0.0
  {
    forall i | j <= i < n ensures v[i] > 0.0 { PositiveWeight(v[i], scale[i]); }
  }

  /** A zero pivot was the largest weighted entry, so everything below it is zero too. */
  lemma {:induction false} ZeroPivot(v: Vector, m: Matrix, n: nat, j: nat, p: nat)
    requires Square(m, n) && |v| == n && j < n && IsPivot(m, v, j, p, n) && m[p][j] == 0.0
    requires forall i :: j <= i < n ==> v[i] > 0.0
    ensures forall i :: j <= i < n ==> m[i][j] == 0.0
  {
    forall i | j <= i < n ensures m[i][j] == 0.0 {
      assert Times(v[i], Abs(m[i][j])) <= Times(v[p], Abs(m[p][j])) == 0.0;
    }
  }

  function Replace(replaced: set<int>, pivot: real, j: nat): set<int> {
    if pivot == 0.0 then replaced + {j} else replaced
  }

  lemma {:induction false} TurnKeepsColumn(m0: Matrix, m1: Matrix, m2: Matrix, m3: Matrix, pa: Matrix, n: nat,
                                           j: nat, p: nat, c: nat, replaced: set<int>)
    requires Turn(m0, m1, m2, m3, n, j, p) && Square(pa, n) && c < j
    requires ColumnFactored(m0, pa, n, c, replaced)
    ensures ColumnFactored(m3, SwapAt(pa, j, p), n, c, Replace(replaced, m2[j][j], j))
  {
    OtherColumnKept(m0, m1, pa, n, j, c, replaced, replaced);
    SwapColumnKept(m1, pa, n, j, p, c, replaced);
    OtherColumnKept(m2, m3, SwapAt(pa, j, p), n, j, c, replaced, Replace(replaced, m2[j][j], j));
  }

  lemma {:induction false} TurnCompletesColumn(m0: Matrix, m1: Matrix, m2: Matrix, m3: Matrix, pa: Matrix,
                                               n: nat, j: nat, p: nat, v: Vector, replaced: set<int>)
    requires Factored(m0, pa, n, j, replaced) && Turn(m0, m1, m2, m3, n, j, p)
    requires |v| == n && IsPivot(m1, v, j, p, n) && forall i :: j <= i < n ==> v[i] > 0.0
    ensures ColumnFactored(m3, SwapAt(pa, j, p), n, j, Replace(replaced, m2[j][j], j))
  {
    SwapEliminated(m0, m1, n, j, p);
    if m2[j][j] == 0.0 { ZeroPivot(v, m1, n, j, p); }
    ScaleCompletes(SwapAt(pa, j, p), m2, m3, n, j, Replace(replaced, m2[j][j], j));
  }

  lemma {:induction false} TurnUntouched(m0: Matrix, m1: Matrix, m2: Matrix, m3: Matrix, pa: Matrix, n: nat,
                                         j: nat, p: nat, replaced: set<int>)
    requires Factored(m0, pa, n, j, replaced) && Turn(m0, m1, m2, m3, n, j, p)
    ensures forall i, c :: 0 <= i < n && j < c < n ==> m3[i][c] == SwapAt(pa, j, p)[i][c]
  {
    forall i, c | 0 <= i < n && j < c < n ensures m3[i][c] == SwapAt(pa, j, p)[i][c] {
      var i0 := if i == j then p else if i == p then j else i;
      assert m3[i][c] == m1[i0][c] == m0[i0][c];
    }
  }

  lemma {:induction false} TurnFactors(m0: Matrix, m1: Matrix, m2: Matrix, m3: Matrix, pa: Matrix, n: nat,
                                       j: nat, p: nat, v: Vector, replaced: set<int>)
    requires Factored(m0, pa, n, j, replaced) && Turn(m0, m1, m2, m3, n, j, p)
    requires |v| == n && IsPivot(m1, v, j, p, n) && forall i :: j <= i < n ==> v[i] > 0.0
    ensures Factored(m3, SwapAt(pa, j, p), n, j + 1, Replace(replaced, m2[j][j], j))
  {
    forall c | 0 <= c < j
      ensures ColumnFactored(m3, SwapAt(pa, j, p), n, c, Replace(replaced, m2[j][j], j))
    {
      TurnKeepsColumn(m0, m1, m2, m3, pa, n, j, p, c, replaced);
    }
    TurnCompletesColumn(m0, m1, m2, m3, pa, n, j, p, v, replaced);
    TurnUntouched(m0, m1, m2, m3, pa, n, j, p, replaced);
  }

  lemma {:induction false} TurnKeepsPivot(m0: Matrix, m1: Matrix, m2: Matrix, m3: Matrix, scale: Vector, n: nat,
                                          j: nat, p: nat, c: nat)
    requires Turn(m0, m1, m2, m3, n, j, p) && |scale| == n && c < j
    requires WellPivoted(m0, scale, n, c)
    ensures WellPivoted(m3, SwapAt(scale, j, p), n, c)
  {
    forall i | c < i < n
      ensures Times(Abs(m3[i][c]), SwapAt(scale, j, p)[c]) <= SwapAt(scale, j, p)[i]
    {
      var i0 := if i == j then p else if i == p then j else i;
      assert m3[i][c] == m0[i0][c];
    }
  }

  lemma {:induction false} TurnPivots(m0: Matrix, m1: Matrix, m2: Matrix, m3: Matrix, scale: Vector, n: nat,
                                      j: nat, p: nat, v: Vector)
    requires Turn(m0, m1, m2, m3, n, j, p) && |scale| == n && |v| == n
    requires AreReciprocals(v, scale, j, n) && forall i :: 0 <= i < n ==> scale[i] > 0.0
    requires IsPivot(m1, v, j, p, n)
    ensures WellPivoted(m3, SwapAt(scale, j, p), n, j)
  {
    var scale' := SwapAt(scale, j, p);
    PositiveWeights(v, scale, j, n);
    if m2[j][j] == 0.0 { ZeroPivot(v, m1, n, j, p); }
    forall i | j < i < n
      ensures Times(Abs(m3[i][j]), scale'[j]) <= scale'[i]
    {
      var i0 := if i == p then j else i;
      assert m2[i][j] == m1[i0][j];
      if m2[j][j] == 0.0 {
        CancelTiny(m3[i][j]);
        assert Times(0.0, scale'[j]) == 0.0;
      } else {
        MultiplierBound(m2[i][j], m2[j][j], m3[i][j], v[i0], v[p], scale'[i], scale'[j]);
      }
    }
  }

  /** Lower times upper is pa, but for TINY added where a zero pivot was replaced. */
  ghost predicate ProductEntry(m: Matrix, pa: Matrix, n: nat, i: nat, c: nat, replaced: set<int>)
    requires Square(m, n) && Square(pa, n) && i < n && c < n
  {
    Mul(Lower(m, n), Upper(m, n), n)[i][c] == pa[i][c] + if i == c && c in replaced then TINY else 0.0
  }

  /** What the factorisation promises of the packed matrix m, for the row-swapped input pa. */
  ghost predicate IsFactorisation(m: Matrix, pa: Matrix, n: nat, replaced: set<int>) {
    && Square(m, n) && Square(pa, n)
    && (forall c :: c in replaced ==> 0 <= c < n && m[c][c] == TINY && forall i :: c < i < n ==> m[i][c] == 0.0)
    && (forall c :: 0 <= c < n ==> m[c][c] != 0.0)
    && (forall i, c :: 0 <= i < n && 0 <= c < n ==> ProductEntry(m, pa, n, i, c, replaced))
    && (forall c :: 0 <= c < n ==> WellPivoted(m, Scales(pa, n), n, c))
  }

  lemma {:induction false} AllColumnsFactored(m: Matrix, pa: Matrix, n: nat, replaced: set<int>)
    requires Factored(m, pa, n, n, replaced)
    requires forall c :: 0 <= c < n ==> WellPivoted(m, Scales(pa, n), n, c)
    ensures IsFactorisation(m, pa, n, replaced)
  {
    forall i, c | 0 <= i < n && 0 <= c < n ensures ProductEntry(m, pa, n, i, c, replaced) {
      EntryIsProduct(m, n, i, c);
      assert ColumnFactored(m, pa, n, c, replaced);
    }
    forall c | 0 <= c < n ensures m[c][c] != 0.0 { assert ColumnFactored(m, pa, n, c, replaced); }
    forall c | c in replaced
      ensures 0 <= c < n && m[c][c] == TINY && forall i :: c < i < n ==> m[i][c] == 0.0
    {
      assert ColumnFactored(m, pa, n, c, replaced);
    }
  }

  /** With s the largest magnitudes of the rows of pa, the multipliers are bounded by their ratios. */
  ghost predicate MultipliersBounded(m: Matrix, pa: Matrix, s: Vector, n: nat) {
    && Square(m, n) && Square(pa, n) && |s| == n && (forall i :: 0 <= i < n ==> LargestIn(pa[i], s[i]))
    && forall i, c :: 0 <= c < i < n ==> Within(m[i][c], s[c], s[i])
  }

  ghost predicate Within(z: real, sc: real, si: real) {
    -si <= z * sc <= si
  }

  lemma {:induction false} ScaleIsLargest(u: Vector)
    ensures LargestIn(u, Scale(u, |u|))
  {
    var s := Scale(u, |u|);
    forall k | 0 <= k < |u| ensures -s <= u[k] <= s { assert Abs(u[k]) <= s; }
    if u != [] && s == 0.0 { assert u[0] == s; }
  }

  lemma {:induction false} FactorsBounded(m: Matrix, pa: Matrix, n: nat, replaced: set<int>)
    requires IsFactorisation(m, pa, n, replaced)
    ensures MultipliersBounded(m, pa, Scales(pa, n), n)
  {
    var s := Scales(pa, n);
    forall i | 0 <= i < n ensures LargestIn(pa[i], s[i]) { ScaleIsLargest(pa[i]); }
    forall i, c | 0 <= c < i < n ensures Within(m[i][c], s[c], s[i]) {
      assert WellPivoted(m, s, n, c);
      WithinScale(m[i][c], s[c], s[i]);
    }
  }

  lemma {:induction false} WithinScale(z: real, sc: real, si: real)
    requires sc >= 0.0 && Times(Abs(z), sc) <= si
    ensures Within(z, sc, si)
  {
    if Abs(z) == z { assert z * sc >= 0.0; } else { assert (-z) * sc >= 0.0 && (-z) * sc == -(z * sc); }
  }

  /** The invariant of the main loop, on values. */
  ghost predicate LoopState(m: Matrix, pa: Matrix, n: nat, j: nat, v: Vector, replaced: set<int>) {
    && Factored(m, pa, n, j, replaced)
    && PositiveScales(pa, n)
    && |v| == n && AreReciprocals(v, Scales(pa, n), j, n)
    && (forall c :: 0 <= c < j ==> WellPivoted(m, Scales(pa, n), n, c))
  }

  lemma {:induction false} TurnLoopState(m0: Matrix, m1: Matrix, m2: Matrix, m3: Matrix, pa: Matrix, n: nat,
                                         j: nat, p: nat, v: Vector, v': Vector, replaced: set<int>)
    requires LoopState(m0, pa, n, j, v, replaced)
    requires Turn(m0, m1, m2, m3, n, j, p) && IsPivot(m1, v, j, p, n)
    requires v' == v[p := v[j]]
    ensures LoopState(m3, SwapAt(pa, j, p), n, j + 1, v', Replace(replaced, m2[j][j], j))
  {
    var pa', scale := SwapAt(pa, j, p), Scales(pa, n);
    PositiveWeights(v, scale, j, n);
    TurnFactors(m0, m1, m2, m3, pa, n, j, p, v, replaced);
    SwapScales(pa, n, j, p);
    TurnPivots(m0, m1, m2, m3, scale, n, j, p, v);
    forall c | 0 <= c <= j ensures WellPivoted(m3, Scales(pa', n), n, c) {
      if c < j { TurnKeepsPivot(m0, m1, m2, m3, scale, n, j, p, c); }
    }
    assert AreReciprocals(v', Scales(pa', n), j + 1, n);
  }

  /** The body of the main loop for column j; m and v are the new contents of a and vv. */
  method FactorColumn(a: array2<real>, vv: array<real>, j: nat, ghost pa: Matrix, ghost replaced: set<int>)
    returns (imax: nat, ghost m: Matrix, ghost v: Vector, ghost pivot: real)
    requires a.Length0 == a.Length1 == vv.Length && j < a.Length0
    requires LoopState(Rows(a), pa, a.Length0, j, vv[..], replaced)
    modifies a, vv
    ensures j <= imax < a.Length0 && Rows(a) == m && vv[..] == v
    ensures LoopState(m, SwapAt(pa, j, imax), a.Length0, j + 1, v, Replace(replaced, pivot, j))
  {
    var n := a.Length0;
    ghost var m0, v0 := Rows(a), vv[..];
    PositiveWeights(v0, Scales(pa, n), j, n);
    EliminateAbove(a, j);
    imax := EliminateBelow(a, vv, j, m0);
    ghost var m1 := Rows(a);
    if j != imax {
      SwapRows(a, imax, j);
      vv[imax] := vv[j];
    }
    ghost var m2 := Rows(a);
    pivot := m2[j][j];
    ScaleColumn(a, j);
    m, v := Rows(a), v0[imax := v0[j]];
    TurnLoopState(m0, m1, m2, m, pa, n, j, imax, v0, v, replaced);
  }

  /** The swaps recorded so far turn a0 into pa, and d is their sign. */
  ghost predicate SwapState(a0: Matrix, pa: Matrix, ix: seq<int>, j: nat, d: real) {
    |a0| == |ix| && SwapsUpTo(ix, j) && pa == Swapped(a0, ix, j) && d == SwapSign(ix, j)
  }

  method RecordPivot(indx: array<int>, j: nat, imax: nat, d: real, ghost a0: Matrix, ghost pa: Matrix)
    returns (d': real)
    requires j <= imax < indx.Length && SwapState(a0, pa, indx[..], j, d)
    modifies indx
    ensures SwapState(a0, SwapAt(pa, j, imax), indx[..], j + 1, d')
  {
    ghost var ix := indx[..];
    d' := d;
    if j != imax { d' := -d; }
    indx[j] := imax;
    assert indx[..] == ix[j := imax];
    OneMoreSwap(a0, ix, indx[..], j, imax);
  }

  lemma {:induction false} InitialState(a0: Matrix, n: nat, v: Vector)
    requires Square(a0, n) && NoZeroRow(a0, n) && |v| == n && AreReciprocals(v, Scales(a0, n), 0, n)
    ensures LoopState(a0, a0, n, 0, v, {})
  {
  }

  /** The main loop over the columns. */
  method FactorColumns(a: array2<real>, vv: array<real>, indx: array<int>)
    returns (d: real, ghost m: Matrix, ghost pa: Matrix, ghost v: Vector, ghost replaced: set<int>)
    requires a.Length0 == a.Length1 == indx.Length == vv.Length
    requires LoopState(Rows(a), Rows(a), a.Length0, 0, vv[..], {})
    modifies a, vv, indx
    ensures Rows(a) == m && LoopState(m, pa, a.Length0, a.Length0, v, replaced)
    ensures SwapState(old(Rows(a)), pa, indx[..], a.Length0, d)
  {
    var n := a.Length0;
    ghost var a0, ix := Rows(a), indx[..];
    d, m, pa, v, replaced := 1.0, a0, a0, vv[..], {};
    for j := 0 to n
      invariant indx[..] == ix && SwapState(a0, pa, ix, j, d)
      invariant Rows(a) == m && vv[..] == v && LoopState(m, pa, n, j, v, replaced)
    {
      var imax; ghost var pivot;
      imax, m, v, pivot := FactorColumn(a, vv, j, pa, replaced);
      assert indx[..] == ix;
      d := RecordPivot(indx, j, imax, d, a0, pa);
      ix := indx[..];
      pa, replaced := SwapAt(pa, j, imax), Replace(replaced, pivot, j);
    }
  }

  /** The factorisation: nested loops over the columns of a, in place. */
  method LU(a: array2<real>, indx: array<int>) returns (d: real, ghost replaced: set<int>)
    requires a.Length0 == a.Length1 == indx.Length
    requires NoZeroRow(Rows(a), a.Length0)
    modifies a, indx
    ensures ValidSwaps(indx[..], a.Length0)
    ensures d == SwapSign(indx[..], a.Length0)
    ensures IsFactorisation(Rows(a), Swapped(old(Rows(a)), indx[..], a.Length0), a.Length0, replaced)
    ensures exists s :: MultipliersBounded(Rows(a), Swapped(old(Rows(a)), indx[..], a.Length0), s, a.Length0)
  {
    var vv := RowScales(a);
    InitialState(Rows(a), a.Length0, vv[..]);
    ghost var m, pa, v;
    d, m, pa, v, replaced := FactorColumns(a, vv, indx);
    AllColumnsFactored(m, pa, a.Length0, replaced);
    FactorsBounded(m, pa, a.Length0, replaced);
  }
}
