/**
 * What the factorisation leaves packed in one matrix, and what its row swaps do.
 * Indices start at 0 here and at 1 in the program.
 */
module Pivoting {
  import opened LinearAlgebra

  // ----- the two triangular factors packed in one matrix

  ghost function Lower(m: Matrix, n: nat): (l: Matrix)
    requires Square(m, n)
    ensures Square(l, n)
    ensures forall i, k :: 0 <= i < n && 0 <= k < n ==>
      l[i][k] == if k < i then m[i][k] else if k == i then 1.0 else 0.0
  {
    seq(n, i requires 0 <= i < n =>
      seq(n, k requires 0 <= k < n => if k < i then m[i][k] else if k == i then 1.0 else 0.0))
  }

  ghost function Upper(m: Matrix, n: nat): (u: Matrix)
    requires Square(m, n)
    ensures Square(u, n)
    ensures forall k, j :: 0 <= k < n && 0 <= j < n ==> u[k][j] == if k <= j then m[k][j] else 0.0
  {
    seq(n, k requires 0 <= k < n =>
      seq(n, j requires 0 <= j < n => if k <= j then m[k][j] else 0.0))
  }

  function Min(x: nat, y: nat): nat { if x <= y then x else y }

  /** Sum over k < t of m[i][k] * m[k][j], both factors read from the packed matrix. */
  ghost function Inner(m: Matrix, n: nat, i: nat, j: nat, t: nat): real
    requires Square(m, n) && i < n && j < n && t <= n
  {
    Dot(m[i], Column(m, j), t)
  }

  /** Entry (i, c) of lower times upper, in terms of the packed matrix. */
  ghost function Entry(m: Matrix, n: nat, i: nat, c: nat): real
    requires Square(m, n) && i < n && c < n
  {
    Inner(m, n, i, c, Min(i, c)) + if i <= c then m[i][c] else Times(m[i][c], m[c][c])
  }

  lemma {:induction false} EntryIsProduct(m: Matrix, n: nat, i: nat, c: nat)
    requires Square(m, n) && i < n && c < n
    ensures Mul(Lower(m, n), Upper(m, n), n)[i][c] == Entry(m, n, i, c)
  {
    var l, u := Lower(m, n)[i], Column(Upper(m, n), c);
    var s := Min(i, c);
    DotTail(l, u, s + 1, n);
    DotEq(l, u, m[i], Column(m, c), s);
  }

  lemma {:induction false} InnerEq(m: Matrix, m': Matrix, n: nat, i: nat, i': nat, j: nat, t: nat)
    requires Square(m, n) && Square(m', n) && i < n && i' < n && j < n && t <= n
    requires forall k :: 0 <= k < t ==> m[i][k] == m'[i'][k] && m[k][j] == m'[k][j]
    ensures Inner(m, n, i, j, t) == Inner(m', n, i', j, t)
  {
    DotEq(m[i], Column(m, j), m'[i'], Column(m', j), t);
  }

  // ----- row swaps

  /** Each position k < t is swapped with some position at or after it. */
  ghost predicate SwapsUpTo(ix: seq<int>, t: nat) {
    t <= |ix| && forall k :: 0 <= k < t ==> k <= ix[k] < |ix|
  }

  ghost predicate ValidSwaps(ix: seq<int>, n: nat) {
    |ix| == n && SwapsUpTo(ix, n)
  }

  function SwapAt<T>(s: seq<T>, i: nat, j: nat): (r: seq<T>)
    requires i < |s| && j < |s|
    ensures |r| == |s| && r[i] == s[j] && r[j] == s[i]
    ensures forall k :: 0 <= k < |s| && k != i && k != j ==> r[k] == s[k]
  {
    s[i := s[j]][j := s[i]]
  }

  /** The first t swaps of ix, applied in order. */
  ghost function Swapped<T>(s: seq<T>, ix: seq<int>, t: nat): (r: seq<T>)
    requires |s| == |ix| && SwapsUpTo(ix, t)
    ensures |r| == |s|
  {
    if t == 0 then s else SwapAt(Swapped(s, ix, t - 1), t - 1, ix[t - 1])
  }

  /** +1 for an even number of swaps that move something, -1 for an odd number. */
  function SwapSign(ix: seq<int>, t: nat): real
    requires t <= |ix|
  {
    if t == 0 then 1.0 else if ix[t - 1] != t - 1 then -SwapSign(ix, t - 1) else SwapSign(ix, t - 1)
  }

  lemma {:induction false} SwappedEq<T>(s: seq<T>, ix: seq<int>, ix': seq<int>, t: nat)
    requires |s| == |ix| == |ix'| && SwapsUpTo(ix, t)
    requires forall k :: 0 <= k < t ==> ix'[k] == ix[k]
    ensures Swapped(s, ix, t) == Swapped(s, ix', t)
    ensures SwapSign(ix, t) == SwapSign(ix', t)
  {
    if t == 0 {
    } else {
      SwappedEq(s, ix, ix', t - 1);
    }
  }

  lemma {:induction false} OneMoreSwap<T>(s: seq<T>, ix: seq<int>, ix': seq<int>, j: nat, p: nat)
    requires j <= p < |s| == |ix| && SwapsUpTo(ix, j)
    requires ix' == ix[j := p]
    ensures SwapsUpTo(ix', j + 1)
    ensures Swapped(s, ix', j + 1) == SwapAt(Swapped(s, ix, j), j, p)
    ensures SwapSign(ix', j + 1) == if p != j then -SwapSign(ix, j) else SwapSign(ix, j)
  {
    SwappedEq(s, ix, ix', j);
  }

  /** Swaps only rearrange. */
  lemma {:induction false} SwappedIsPermutation<T>(s: seq<T>, ix: seq<int>, t: nat)
    requires |s| == |ix| && SwapsUpTo(ix, t)
    ensures multiset(Swapped(s, ix, t)) == multiset(s)
  {
    if t == 0 {
    } else {
      SwappedIsPermutation(s, ix, t - 1);
    }
  }

  /** Swapping a matrix's rows swaps the entries of its products. */
  lemma {:induction false} SwappedMatVec(m: Matrix, x: Vector, ix: seq<int>, t: nat)
    requires |m| == |ix| && SwapsUpTo(ix, t)
    requires forall i :: 0 <= i < |m| ==> |m[i]| == |x|
    ensures forall i :: 0 <= i < |m| ==> |Swapped(m, ix, t)[i]| == |x|
    ensures MatVec(Swapped(m, ix, t), x) == Swapped(MatVec(m, x), ix, t)
  {
    if t == 0 {
    } else {
      SwappedMatVec(m, x, ix, t - 1);
    }
  }

  /** A swap can be undone, so equal results come from equal inputs. */
  lemma {:induction false} SwappedInjective<T>(s: seq<T>, s': seq<T>, ix: seq<int>, t: nat)
    requires |s| == |ix| == |s'| && SwapsUpTo(ix, t)
    requires Swapped(s, ix, t) == Swapped(s', ix, t)
    ensures s == s'
  {
    if t == 0 {
    } else {
      var r, r', j := Swapped(s, ix, t - 1), Swapped(s', ix, t - 1), ix[t - 1];
      assert SwapAt(SwapAt(r, t - 1, j), t - 1, j) == r;
      assert SwapAt(SwapAt(r', t - 1, j), t - 1, j) == r';
      SwappedInjective(s, s', ix, t - 1);
    }
  }

  // ----- row scales

  function Abs(x: real): (a: real)
    ensures a >= x && a >= -x && (a == x || a == -x)
  {
    if x < 0.0 then -x else x
  }

  /** s is the largest magnitude in u. */
  ghost predicate LargestIn(u: Vector, s: real) {
    && (forall k :: 0 <= k < |u| ==> -s <= u[k] <= s)
    && (u != [] ==> exists k :: 0 <= k < |u| && (u[k] == s || u[k] == -s))
  }

  /** The largest magnitude among the first t entries. */
  ghost function Scale(u: Vector, t: nat): (s: real)
    requires t <= |u|
    ensures s >= 0.0
    ensures forall k :: 0 <= k < t ==> Abs(u[k]) <= s
    ensures s == 0.0 || exists k :: 0 <= k < t && Abs(u[k]) == s
  {
    if t == 0 then 0.0 else
    if Abs(u[t - 1]) > Scale(u, t - 1) then Abs(u[t - 1]) else Scale(u, t - 1)
  }
}
