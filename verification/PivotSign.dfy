/** The sign returned by the factorisation is the sign of its row permutation. */
module PivotSign {
  import opened LinearAlgebra
  import opened Pivoting
  import opened Sequences

  ghost function Identity(n: nat): (p: seq<int>)
    ensures |p| == n && forall i :: 0 <= i < n ==> p[i] == i
  {
    seq(n, i => i)
  }

  /** How many of the first t entries exceed x. */
  ghost function Greater(p: seq<int>, x: int, t: nat): int
    requires t <= |p|
  {
    if t == 0 then 0 else Greater(p, x, t - 1) + if p[t - 1] > x then 1 else 0
  }

  /** How many pairs among the first t entries are out of order. */
  ghost function Inversions(p: seq<int>, t: nat): int
    requires t <= |p|
  {
    if t == 0 then 0 else Inversions(p, t - 1) + Greater(p, p[t - 1], t - 1)
  }

  lemma {:induction false} GreaterEq(p: seq<int>, p': seq<int>, x: int, t: nat)
    requires t <= |p| && t <= |p'| && p[..t] == p'[..t]
    ensures Greater(p, x, t) == Greater(p', x, t)
  {
    if t == 0 {
    } else {
      assert p[..t - 1] == p[..t][..t - 1] && p'[..t - 1] == p'[..t][..t - 1];
      assert p[t - 1] == p[..t][t - 1] && p'[t - 1] == p'[..t][t - 1];
      GreaterEq(p, p', x, t - 1);
    }
  }

  lemma {:induction false} InversionsEq(p: seq<int>, p': seq<int>, t: nat)
    requires t <= |p| && t <= |p'| && p[..t] == p'[..t]
    ensures Inversions(p, t) == Inversions(p', t)
  {
    if t == 0 {
    } else {
      assert p[..t - 1] == p[..t][..t - 1] && p'[..t - 1] == p'[..t][..t - 1];
      assert p[t - 1] == p[..t][t - 1] && p'[t - 1] == p'[..t][t - 1];
      InversionsEq(p, p', t - 1);
      GreaterEq(p, p', p[t - 1], t - 1);
    }
  }

  lemma {:induction false} GreaterAfterSwap(p: seq<int>, k: nat, x: int, t: nat)
    requires k + 2 <= t <= |p|
    ensures Greater(SwapAt(p, k, k + 1), x, t) == Greater(p, x, t)
  {
    if t > k + 2 {
      GreaterAfterSwap(p, k, x, t - 1);
    } else {
      GreaterEq(p, SwapAt(p, k, k + 1), x, k);
      assert Greater(p, x, k + 2) == Greater(p, x, k + 1) + if p[k + 1] > x then 1 else 0;
    }
  }

  /** Swapping neighbours makes or removes one inversion. */
  lemma {:induction false} NeighbourSwap(p: seq<int>, k: nat, t: nat)
    requires k + 2 <= t <= |p| && p[k] != p[k + 1]
    ensures Inversions(SwapAt(p, k, k + 1), t) == Inversions(p, t) + if p[k] > p[k + 1] then -1 else 1
  {
    var p' := SwapAt(p, k, k + 1);
    if t > k + 2 {
      NeighbourSwap(p, k, t - 1);
      GreaterAfterSwap(p, k, p[t - 1], t - 1);
    } else {
      InversionsEq(p, p', k);
      GreaterEq(p, p', p[k], k);
      GreaterEq(p, p', p[k + 1], k);
      assert Inversions(p, k + 1) == Inversions(p, k) + Greater(p, p[k], k);
      assert Inversions(p', k + 1) == Inversions(p', k) + Greater(p', p'[k], k);
    }
  }

  lemma {:induction false} SwapDistinct(p: seq<int>, i: nat, j: nat)
    requires i < |p| && j < |p| && Distinct(p)
    ensures Distinct(SwapAt(p, i, j))
  {
    DistinctAt(p);
    DistinctWhen(SwapAt(p, i, j));
  }

  /** Any swap of two different positions changes the parity of the inversions. */
  lemma {:induction false} SwapFlipsParity(p: seq<int>, i: nat, j: nat)
    requires i < j < |p| && Distinct(p)
    ensures (Inversions(SwapAt(p, i, j), |p|) - Inversions(p, |p|)) % 2 == 1
    decreases j - i
  {
    DistinctAt(p);
    NeighbourSwap(p, i, |p|);
    if j == i + 1 {
    } else {
      var q := SwapAt(p, i, i + 1);
      SwapDistinct(p, i, i + 1);
      SwapFlipsParity(q, i + 1, j);
      var r := SwapAt(q, i + 1, j);
      NeighbourSwap(r, i, |p|);
      assert SwapAt(r, i, i + 1) == SwapAt(p, i, j);
    }
  }

  lemma {:induction false} SwappedDistinct(ix: seq<int>, t: nat)
    requires SwapsUpTo(ix, t)
    ensures Distinct(Swapped(Identity(|ix|), ix, t))
  {
    if t > 0 {
      SwappedDistinct(ix, t - 1);
      SwapDistinct(Swapped(Identity(|ix|), ix, t - 1), t - 1, ix[t - 1]);
    } else {
      DistinctWhen(Identity(|ix|));
    }
  }

  /** Row i after the swaps is row p[i] before, p being the swapped identity. */
  lemma {:induction false} SwappedByPermutation<T>(s: seq<T>, ix: seq<int>, t: nat, i: nat)
    requires |s| == |ix| && SwapsUpTo(ix, t) && i < |s|
    ensures var p := Swapped(Identity(|s|), ix, t);
      0 <= p[i] < |s| && Swapped(s, ix, t)[i] == s[p[i]]
  {
    if t == 0 {
    } else {
      var j := ix[t - 1];
      SwappedByPermutation(s, ix, t - 1, if i == t - 1 then j else if i == j then t - 1 else i);
    }
  }

  ghost predicate IsPermutation(p: seq<int>, n: nat) {
    |p| == n && Distinct(p) && forall i :: 0 <= i < n ==> 0 <= p[i] < n
  }

  /** +1 for an even permutation and -1 for an odd one. */
  ghost function Sign(p: seq<int>): real {
    if Inversions(p, |p|) % 2 == 0 then 1.0 else -1.0
  }

  /** The rows of m in the order p. */
  ghost function Permuted(m: Matrix, p: seq<int>): (r: Matrix)
    requires forall i :: 0 <= i < |p| ==> 0 <= p[i] < |m|
    ensures |r| == |p| && forall i :: 0 <= i < |p| ==> r[i] == m[p[i]]
  {
    seq(|p|, i requires 0 <= i < |p| => m[p[i]])
  }

  /** All the swaps together are one permutation of the rows, and the sign kept by flipping is its sign. */
  lemma {:induction false} SwapsArePermutation(m: Matrix, ix: seq<int>)
    requires ValidSwaps(ix, |m|)
    ensures var p := Swapped(Identity(|m|), ix, |m|);
      IsPermutation(p, |m|) && SwapSign(ix, |m|) == Sign(p) && Swapped(m, ix, |m|) == Permuted(m, p)
  {
    var n, p := |m|, Swapped(Identity(|m|), ix, |m|);
    SwappedDistinct(ix, n);
    SignOfPermutation(ix, n);
    forall i: nat | i < n ensures 0 <= p[i] < n && Swapped(m, ix, n)[i] == m[p[i]] { SwappedByPermutation(m, ix, n, i); }
  }

  /** The sign kept by flipping is that of the permutation, by its number of inversions. */
  lemma {:induction false} SignOfPermutation(ix: seq<int>, t: nat)
    requires SwapsUpTo(ix, t)
    ensures SwapSign(ix, t) == Sign(Swapped(Identity(|ix|), ix, t))
  {
    if t == 0 {
      NoInversions(|ix|, |ix|);
    } else {
      SignOfPermutation(ix, t - 1);
      SwappedDistinct(ix, t - 1);
      var p := Swapped(Identity(|ix|), ix, t - 1);
      if ix[t - 1] != t - 1 { SwapFlipsParity(p, t - 1, ix[t - 1]); } else { assert SwapAt(p, t - 1, t - 1) == p; }
    }
  }

  lemma {:induction false} NoInversions(n: nat, t: nat)
    requires t <= n
    ensures Inversions(Identity(n), t) == 0
  {
    if t == 0 {
    } else {
      NoInversions(n, t - 1);
      NoneGreater(n, t - 1, t - 1);
    }
  }

  lemma {:induction false} NoneGreater(n: nat, x: nat, t: nat)
    requires t <= x < n
    ensures Greater(Identity(n), x, t) == 0
  {
    if t == 0 {
    } else {
      NoneGreater(n, x, t - 1);
    }
  }
}
