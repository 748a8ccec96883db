/** What factorisation and solution achieve together, for every matrix the program accepts. */
module LUTheorems {
  import opened LinearAlgebra
  import opened Pivoting
  import opened LUDecomposition
  import opened LUSolution
  import opened PivotSign

  // ----- the product of the packed factors, applied to a vector

  ghost function Unit(n: nat, r: nat): (e: Vector)
    requires r < n
    ensures |e| == n && forall k :: 0 <= k < n ==> e[k] == if k == r then 1.0 else 0.0
  {
    seq(n, k => if k == r then 1.0 else 0.0)
  }

  lemma {:induction false} DotUnit(x: Vector, r: nat)
    requires r < |x|
    ensures Dot(Unit(|x|, r), x, |x|) == x[r]
  {
    DotTail(Unit(|x|, r), x, r + 1, |x|);
    DotTail(Unit(|x|, r), x, 0, r);
  }

  /** What the pivot replacements add to row r of the product. */
  ghost function Extra(x: Vector, r: nat, replaced: set<int>): real
    requires r < |x|
  {
    if r in replaced then Times(TINY, x[r]) else 0.0
  }

  lemma {:induction false} FactorsApplied(m: Matrix, pa: Matrix, n: nat, replaced: set<int>, x: Vector, r: nat)
    requires IsFactorisation(m, pa, n, replaced) && |x| == n && r < n
    ensures MatVec(Lower(m, n), MatVec(Upper(m, n), x))[r] == MatVec(pa, x)[r] + Extra(x, r, replaced)
  {
    var lu := Mul(Lower(m, n), Upper(m, n), n);
    MulMatVec(Lower(m, n), Upper(m, n), x, n);
    forall c | 0 <= c < n
      ensures lu[r][c] == pa[r][c] + if r == c && c in replaced then TINY else 0.0
    {
      assert ProductEntry(m, pa, n, r, c, replaced);
    }
    if r in replaced {
      assert Times(TINY, 0.0) == 0.0 && Times(TINY, 1.0) == TINY;
      DotLinear(lu[r], pa[r], TINY, Unit(n, r), x, n);
      DotUnit(x, r);
    } else {
      DotEq(lu[r], x, pa[r], x, n);
    }
  }

  // ----- solving

  /** The computed x solves the row-swapped system, but for the replaced pivots. */
  lemma {:induction false} SolvesSwapped(a: Matrix, m: Matrix, ix: seq<int>, n: nat, replaced: set<int>,
                                         x: Vector, b: Vector)
    requires Square(a, n) && ValidSwaps(ix, n) && |b| == n && |x| == n
    requires IsFactorisation(m, Swapped(a, ix, n), n, replaced)
    requires MatVec(Lower(m, n), MatVec(Upper(m, n), x)) == Swapped(b, ix, n)
    ensures forall r :: 0 <= r < n ==>
      Swapped(MatVec(a, x), ix, n)[r] + Extra(x, r, replaced) == Swapped(b, ix, n)[r]
  {
    SwappedMatVec(a, x, ix, n);
    forall r | 0 <= r < n
      ensures Swapped(MatVec(a, x), ix, n)[r] + Extra(x, r, replaced) == Swapped(b, ix, n)[r]
    {
      FactorsApplied(m, Swapped(a, ix, n), n, replaced, x, r);
    }
  }

  /** When no pivot was replaced, the computed x solves A x = b. */
  lemma {:induction false} Solves(a: Matrix, m: Matrix, ix: seq<int>, n: nat, replaced: set<int>, x: Vector, b: Vector)
    requires Square(a, n) && ValidSwaps(ix, n) && |b| == n && |x| == n
    requires IsFactorisation(m, Swapped(a, ix, n), n, replaced) && forall k :: k !in replaced
    requires MatVec(Lower(m, n), MatVec(Upper(m, n), x)) == Swapped(b, ix, n)
    ensures MatVec(a, x) == b
  {
    SolvesSwapped(a, m, ix, n, replaced, x, b);
    assert Swapped(MatVec(a, x), ix, n) == Swapped(b, ix, n);
    SwappedInjective(MatVec(a, x), b, ix, n);
  }

  // ----- nonsingular exactly when no pivot was replaced

  lemma {:induction false} LowerKernel(m: Matrix, y: Vector, n: nat, t: nat)
    requires Square(m, n) && |y| == n && t <= n && MatVec(Lower(m, n), y) == Zero(n)
    ensures forall k :: 0 <= k < t ==> y[k] == 0.0
  {
    if t == 0 {
    } else {
      LowerKernel(m, y, n, t - 1);
      LowerRow(m, y, n, t - 1);
      DotTail(m[t - 1], y, 0, t - 1);
    }
  }

  lemma {:induction false} CancelFactor(x: real, y: real)
    requires x != 0.0 && Times(x, y) == 0.0
    ensures y == 0.0
  {
  }

  lemma {:induction false} RangeZero(u: Vector, v: Vector, s: nat, t: nat)
    requires s <= t <= |u| && t <= |v|
    requires forall k :: s <= k < t ==> v[k] == 0.0
    ensures DotRange(u, v, s, t) == 0.0
    decreases t
  {
    if s == t {
    } else {
      RangeZero(u, v, s, t - 1);
    }
  }

  lemma {:induction false} UpperKernel(m: Matrix, x: Vector, n: nat, t: nat)
    requires Square(m, n) && |x| == n && t <= n && MatVec(Upper(m, n), x) == Zero(n)
    requires forall k :: 0 <= k < n ==> m[k][k] != 0.0
    ensures forall k :: t <= k < n ==> x[k] == 0.0
    decreases n - t
  {
    if t == n {
    } else {
      UpperKernel(m, x, n, t + 1);
      UpperRow(m, x, n, t);
      RangeZero(m[t], x, t + 1, n);
      CancelFactor(m[t][t], x[t]);
    }
  }

  lemma {:induction false} SwappedZero(ix: seq<int>, n: nat, t: nat)
    requires |ix| == n && SwapsUpTo(ix, t)
    ensures Swapped(Zero(n), ix, t) == Zero(n)
  {
    if t == 0 {
    } else {
      SwappedZero(ix, n, t - 1);
    }
  }

  /** Without replaced pivots only the zero vector is sent to zero. */
  lemma {:induction false} NotReplacedKernel(a: Matrix, m: Matrix, ix: seq<int>, n: nat, replaced: set<int>, x: Vector)
    requires Square(a, n) && ValidSwaps(ix, n) && |x| == n
    requires IsFactorisation(m, Swapped(a, ix, n), n, replaced) && forall k :: k !in replaced
    requires MatVec(a, x) == Zero(n)
    ensures x == Zero(n)
  {
    var y := MatVec(Upper(m, n), x);
    SwappedMatVec(a, x, ix, n);
    SwappedZero(ix, n, n);
    forall r | 0 <= r < n ensures MatVec(Lower(m, n), y)[r] == 0.0 {
      FactorsApplied(m, Swapped(a, ix, n), n, replaced, x, r);
    }
    assert MatVec(Lower(m, n), y) == Zero(n);
    LowerKernel(m, y, n, n);
    assert y == Zero(n);
    UpperKernel(m, x, n, 0);
  }

  /** x combines columns up to j with weight 1 on column j; rows i to j - 1 of U x are zero. */
  ghost predicate Combination(m: Matrix, x: Vector, n: nat, i: nat, j: nat) {
    && Square(m, n) && |x| == n && i <= j < n
    && x[j] == 1.0 && (forall k :: j < k < n ==> x[k] == 0.0)
    && forall r :: i <= r < j ==> Dot(Upper(m, n)[r], x, n) == 0.0
  }

  lemma {:induction false} NegatedQuotient(p: real, q: real) returns (x: real)
    requires p != 0.0
    ensures Times(p, x) + q == 0.0
  {
    x := -q / p;
    assert p * (q / p) == q;
  }

  lemma {:induction false} BuildCombination(m: Matrix, n: nat, i: nat, j: nat) returns (x: Vector)
    requires Square(m, n) && i <= j < n && forall k :: 0 <= k < n ==> m[k][k] != 0.0
    ensures Combination(m, x, n, i, j)
    decreases j - i
  {
    if i == j {
      x := Unit(n, j);
    } else {
      var x1 := BuildCombination(m, n, i + 1, j);
      var xi := NegatedQuotient(m[i][i], DotRange(m[i], x1, i + 1, n));
      x := x1[i := xi];
      UpperRow(m, x, n, i);
      DotRangeEq(m[i], x, m[i], x1, i + 1, n);
      forall r | i < r < j ensures Dot(Upper(m, n)[r], x, n) == 0.0 {
        DotEq(Upper(m, n)[r], x, Upper(m, n)[r], x1, n);
      }
    }
  }

  /** U x is zero but for the pivot itself at j. */
  lemma {:induction false} CombinationImage(m: Matrix, x: Vector, n: nat, j: nat, k: nat)
    requires Combination(m, x, n, 0, j) && k < n
    ensures MatVec(Upper(m, n), x)[k] == if k == j then m[j][j] else 0.0
  {
    if k >= j {
      UpperRow(m, x, n, k);
      RangeZero(m[k], x, k + 1, n);
      if k > j { assert Times(m[k][k], 0.0) == 0.0; } else { assert Times(m[k][k], 1.0) == m[k][k]; }
    }
  }

  /** A first replaced pivot at j gives a dependency among columns 0 to j. */
  lemma {:induction false} ReplacedSingular(a: Matrix, m: Matrix, ix: seq<int>, n: nat, replaced: set<int>,
                                            j: nat)
    returns (x: Vector)
    requires Square(a, n) && ValidSwaps(ix, n)
    requires IsFactorisation(m, Swapped(a, ix, n), n, replaced)
    requires j in replaced && forall c :: c in replaced ==> j <= c
    ensures |x| == n && x != Zero(n) && MatVec(a, x) == Zero(n)
    ensures x[j] == 1.0 && forall k :: j < k < n ==> x[k] == 0.0
  {
    x := BuildCombination(m, n, 0, j);
    var pa, y := Swapped(a, ix, n), MatVec(Upper(m, n), x);
    forall k | 0 <= k < n ensures y[k] == if k == j then TINY else 0.0 {
      CombinationImage(m, x, n, j, k);
    }
    forall r | 0 <= r < n ensures MatVec(pa, x)[r] == 0.0 {
      ReplacedRow(m, pa, n, replaced, j, x, y, r);
    }
    SwappedMatVec(a, x, ix, n);
    SwappedZero(ix, n, n);
    assert Swapped(MatVec(a, x), ix, n) == Swapped(Zero(n), ix, n);
    SwappedInjective(MatVec(a, x), Zero(n), ix, n);
  }

  lemma {:induction false} ReplacedRow(m: Matrix, pa: Matrix, n: nat, replaced: set<int>, j: nat, x: Vector,
                                       y: Vector, r: nat)
    requires IsFactorisation(m, pa, n, replaced) && Combination(m, x, n, 0, j) && r < n
    requires j in replaced && forall c :: c in replaced ==> j <= c
    requires y == MatVec(Upper(m, n), x) && forall k :: 0 <= k < n ==> y[k] == if k == j then TINY else 0.0
    ensures MatVec(pa, x)[r] == 0.0
  {
    FactorsApplied(m, pa, n, replaced, x, r);
    LowerRow(m, y, n, r);
    if r <= j {
      DotTail(m[r], y, 0, r);
      if r == j { assert Times(TINY, 1.0) == TINY; }
    } else {
      DotTail(m[r], y, 0, r);
      assert Times(TINY, 0.0) == 0.0;
    }
  }

  lemma {:induction false} Smallest(s: set<int>, k: int) returns (j: int)
    requires k in s
    ensures j in s && forall c :: c in s ==> j <= c
    decreases s
  {
    if c :| c in s && c < k {
      var rest := s - {k};
      j := Smallest(rest, c);
      assert forall e :: e in s ==> e == k || e in rest;
    } else {
      j := k;
    }
  }

  lemma {:induction false} SomeReplacedSingular(a: Matrix, m: Matrix, ix: seq<int>, n: nat, replaced: set<int>, k: int)
    requires Square(a, n) && ValidSwaps(ix, n) && k in replaced
    requires IsFactorisation(m, Swapped(a, ix, n), n, replaced)
    ensures Singular(a, n)
  {
    var j := Smallest(replaced, k);
    var x := ReplacedSingular(a, m, ix, n, replaced, j);
  }

  lemma {:induction false} NoneReplacedNonsingular(a: Matrix, m: Matrix, ix: seq<int>, n: nat, replaced: set<int>)
    requires Square(a, n) && ValidSwaps(ix, n)
    requires IsFactorisation(m, Swapped(a, ix, n), n, replaced) && forall k :: k !in replaced
    ensures !Singular(a, n)
  {
    if Singular(a, n) {
      var x: Vector :| |x| == n && x != Zero(n) && MatVec(a, x) == Zero(n);
      NotReplacedKernel(a, m, ix, n, replaced, x);
    }
  }

  /** A pivot is replaced exactly for the singular matrices. */
  lemma {:induction false} ReplacedIffSingular(a: Matrix, m: Matrix, ix: seq<int>, n: nat, replaced: set<int>)
    requires Square(a, n) && ValidSwaps(ix, n)
    requires IsFactorisation(m, Swapped(a, ix, n), n, replaced)
    ensures (exists k :: k in replaced) <==> Singular(a, n)
  {
    if k :| k in replaced {
      SomeReplacedSingular(a, m, ix, n, replaced, k);
    } else {
      NoneReplacedNonsingular(a, m, ix, n, replaced);
    }
  }

  /** For a nonsingular A the computed x solves A x = b, whatever b is. */
  lemma {:induction false} SolvesNonsingular(a: Matrix, m: Matrix, ix: seq<int>, n: nat, replaced: set<int>,
                                             x: Vector, b: Vector)
    requires Square(a, n) && ValidSwaps(ix, n) && |b| == n && |x| == n
    requires IsFactorisation(m, Swapped(a, ix, n), n, replaced)
    requires MatVec(Lower(m, n), MatVec(Upper(m, n), x)) == Swapped(b, ix, n)
    ensures (exists k :: k in replaced) <==> Singular(a, n)
    ensures !Singular(a, n) ==> MatVec(a, x) == b
  {
    ReplacedIffSingular(a, m, ix, n, replaced);
    if !exists k :: k in replaced { Solves(a, m, ix, n, replaced, x, b); }
  }

  /** What LU returns, by one permutation of the rows: the factors multiply to the permuted rows, and d is its sign. */
  lemma {:induction false} FactorsPermutedRows(a: Matrix, m: Matrix, ix: seq<int>, d: real, replaced: set<int>)
    requires ValidSwaps(ix, |a|) && d == SwapSign(ix, |a|)
    requires IsFactorisation(m, Swapped(a, ix, |a|), |a|, replaced)
    ensures var p := Swapped(Identity(|a|), ix, |a|);
      IsPermutation(p, |a|) && d == Sign(p) && IsFactorisation(m, Permuted(a, p), |a|, replaced)
    ensures forall i, c :: 0 <= i < |a| && 0 <= c < |a| ==> FactorsMeet(a, m, Swapped(Identity(|a|), ix, |a|), i, c, replaced)
  {
    SwapsArePermutation(a, ix);
    var p := Swapped(Identity(|a|), ix, |a|);
    forall i, c | 0 <= i < |a| && 0 <= c < |a| ensures FactorsMeet(a, m, p, i, c, replaced) {
      assert ProductEntry(m, Permuted(a, p), |a|, i, c, replaced);
    }
  }

  /** Entry (i, c) of the product is that of row p[i], but for 1e-20 more at a replaced pivot. */
  ghost predicate FactorsMeet(a: Matrix, m: Matrix, p: seq<int>, i: nat, c: nat, replaced: set<int>)
    requires Square(m, |a|) && i < |a| == |p| && c < |a|
  {
    && 0 <= p[i] < |a| && c < |a[p[i]]|
    && Mul(Lower(m, |a|), Upper(m, |a|), |a|)[i][c]
       == a[p[i]][c] + if i == c && c in replaced then 1.0 / 100000000000000000000.0 else 0.0
  }
}
