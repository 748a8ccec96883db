/** Solving A x = b from the packed factors, in place on b. */
module LUSolution {
  import opened LinearAlgebra
  import opened Pivoting
  import opened LUDecomposition

  // ----- forward substitution

  /** Entries before i are solved for the swapped right-hand side pb, the others still equal it. */
  ghost predicate ForwardState(m: Matrix, b: Vector, pb: Vector, n: nat, i: nat) {
    && Square(m, n) && |b| == |pb| == n && i <= n
    && (forall r :: 0 <= r < i ==> SolvedRow(m[r], b, r, pb[r]))
    && (forall r :: i <= r < n ==> b[r] == pb[r])
  }

  /** Row r of a unit lower triangular system. */
  ghost predicate SolvedRow(row: Vector, b: Vector, r: nat, rhs: real)
    requires r < |b| && r < |row|
  {
    b[r] + Dot(row, b, r) == rhs
  }

  /** No entry before ii matters; ii < 0 while every solved entry is zero. */
  ghost predicate LeadingZeros(b: Vector, ii: int, i: nat) {
    && i <= |b| && ii < i
    && forall r :: 0 <= r < (if ii < 0 then i else ii) ==> b[r] == 0.0
  }

  lemma {:induction false} SkipZeros(u: Vector, b: Vector, ii: int, i: nat)
    requires i <= |u| && LeadingZeros(b, ii, i)
    ensures Dot(u, b, i) == if ii < 0 then 0.0 else DotRange(u, b, ii, i)
  {
    if ii < 0 {
      DotTail(u, b, 0, i);
    } else {
      DotTail(u, b, 0, ii);
      DotSplit(u, b, ii, i);
    }
  }

  lemma {:induction false} ForwardStep(m: Matrix, b: Vector, b': Vector, pb: Vector, n: nat, i: nat, ip: nat, sum: real)
    requires ForwardState(m, b, pb, n, i) && i <= ip < n
    requires sum == b[ip] - Dot(m[i], b, i)
    requires b' == b[ip := b[i]][i := sum]
    ensures ForwardState(m, b', SwapAt(pb, i, ip), n, i + 1)
  {
    forall r | 0 <= r <= i ensures SolvedRow(m[r], b', r, SwapAt(pb, i, ip)[r]) {
      DotEq(m[r], b', m[r], b, r);
    }
  }

  /** Entry ip is brought to position i, with the solved entries' share taken off. */
  ghost predicate Substituted(row: Vector, b: Vector, b': Vector, i: nat, ip: nat) {
    && i <= ip < |b| == |row|
    && b' == b[ip := b[i]][i := b[ip] - Dot(row, b, i)]
  }

  lemma {:induction false} ForwardTurn(m: Matrix, b: Vector, b': Vector, b0: Vector, ix: seq<int>, n: nat, i: nat)
    requires |b0| == n && ValidSwaps(ix, n) && i < n && ForwardState(m, b, Swapped(b0, ix, i), n, i)
    requires Substituted(m[i], b, b', i, ix[i])
    ensures ForwardState(m, b', Swapped(b0, ix, i + 1), n, i + 1)
  {
    ForwardStep(m, b, b', Swapped(b0, ix, i), n, i, ix[i], b[ix[i]] - Dot(m[i], b, i));
  }

  /** Brings entry ip to position i and takes the solved entries off, from the first nonzero one on. */
  method SubstituteEntry(a: array2<real>, b: array<real>, i: nat, ip: nat, ii: int) returns (ii': int)
    requires a.Length0 == a.Length1 == b.Length && i <= ip < b.Length
    requires LeadingZeros(b[..], ii, i)
    modifies b
    ensures Substituted(Rows(a)[i], old(b[..]), b[..], i, ip)
    ensures LeadingZeros(b[..], ii', i + 1)
  {
    ghost var v, row := b[..], Rows(a)[i];
    ii' := ii;
    var sum := b[ip];
    b[ip] := b[i];
    SkipZeros(row, v, ii, i);
    Entries(a);
    if ii >= 0 {
      for j := ii to i
        invariant sum == v[ip] - DotRange(row, v, ii, j)
        invariant b[..] == v[ip := v[i]]
      {
        sum := sum - Times(a[i, j], b[j]);
      }
    } else if sum != 0.0 {
      ii' := i;
    }
    b[i] := sum;
  }

  method Forward(a: array2<real>, indx: array<int>, b: array<real>)
    requires a.Length0 == a.Length1 == indx.Length == b.Length
    requires ValidSwaps(indx[..], a.Length0)
    modifies b
    ensures ForwardState(Rows(a), b[..], Swapped(old(b[..]), indx[..], b.Length), b.Length, b.Length)
  {
    var n := a.Length0;
    ghost var m, b0, ix := Rows(a), b[..], indx[..];
    var ii := -1;
    for i := 0 to n
      invariant ForwardState(m, b[..], Swapped(b0, ix, i), n, i)
      invariant LeadingZeros(b[..], ii, i)
    {
      ghost var v := b[..];
      var ip := indx[i];
      ii := SubstituteEntry(a, b, i, ip, ii);
      ForwardTurn(m, v, b[..], b0, ix, n, i);
    }
  }

  // ----- back substitution

  /** Rows from i on are solved for y, entries before i still equal y. */
  ghost predicate BackState(u: Matrix, b: Vector, y: Vector, n: nat, i: nat) {
    && Square(u, n) && |b| == |y| == n && i <= n
    && (forall r :: i <= r < n ==> FullRow(u[r], b, y[r]))
    && (forall r :: 0 <= r < i ==> b[r] == y[r])
  }

  ghost predicate FullRow(row: Vector, b: Vector, rhs: real) {
    |row| == |b| && Dot(row, b, |b|) == rhs
  }

  lemma {:induction false} UpperRow(m: Matrix, x: Vector, n: nat, r: nat)
    requires Square(m, n) && |x| == n && r < n
    ensures Dot(Upper(m, n)[r], x, n) == Times(m[r][r], x[r]) + DotRange(m[r], x, r + 1, n)
  {
    var u := Upper(m, n)[r];
    DotSplit(u, x, r + 1, n);
    DotTail(u, x, 0, r);
    DotRangeEq(u, x, m[r], x, r + 1, n);
  }

  /** Row i alone, just solved for entry i. */
  lemma {:induction false} BackRow(m: Matrix, b: Vector, b': Vector, rhs: real, n: nat, i: nat)
    requires Square(m, n) && i < n && |b| == |b'| == n && forall k :: i < k < n ==> b'[k] == b[k]
    requires Times(m[i][i], b'[i]) == rhs - DotRange(m[i], b, i + 1, n)
    ensures FullRow(Upper(m, n)[i], b', rhs)
  {
    UpperRow(m, b', n, i);
    DotRangeEq(m[i], b', m[i], b, i + 1, n);
  }

  lemma {:induction false} BackRowKept(m: Matrix, b: Vector, b': Vector, rhs: real, n: nat, i: nat, r: nat)
    requires Square(m, n) && i < r < n && |b| == |b'| == n && forall k :: i < k < n ==> b'[k] == b[k]
    requires FullRow(Upper(m, n)[r], b, rhs)
    ensures FullRow(Upper(m, n)[r], b', rhs)
  {
    UpperRow(m, b, n, r);
    UpperRow(m, b', n, r);
    DotRangeEq(m[r], b', m[r], b, r + 1, n);
  }

  lemma {:induction false} BackStep(m: Matrix, b: Vector, b': Vector, y: Vector, n: nat, i: nat)
    requires Square(m, n) && i < n && BackState(Upper(m, n), b, y, n, i + 1)
    requires |b| == |b'| == n && b' == b[i := b'[i]]
    requires Times(m[i][i], b'[i]) == y[i] - DotRange(m[i], b, i + 1, n)
    ensures BackState(Upper(m, n), b', y, n, i)
  {
    BackRow(m, b, b', y[i], n, i);
    forall r | i < r < n ensures FullRow(Upper(m, n)[r], b', y[r]) {
      BackRowKept(m, b, b', y[r], n, i, r);
    }
  }

  method Quotient(x: real, y: real) returns (q: real)
    requires y != 0.0
    ensures Times(y, q) == x
  {
    q := x / y;
  }

  method Back(a: array2<real>, b: array<real>)
    requires a.Length0 == a.Length1 == b.Length
    requires forall i :: 0 <= i < a.Length0 ==> a[i, i] != 0.0
    modifies b
    ensures MatVec(Upper(Rows(a), b.Length), b[..]) == old(b[..])
  {
    var n := a.Length0;
    ghost var m, y := Rows(a), b[..];
    Entries(a);
    for i := n downto 0
      invariant BackState(Upper(m, n), b[..], y, n, i)
    {
      ghost var v := b[..];
      var sum := b[i];
      for j := i + 1 to n
        invariant sum == y[i] - DotRange(m[i], v, i + 1, j)
      {
        sum := sum - Times(a[i, j], b[j]);
      }
      var x := Quotient(sum, a[i, i]);
      b[i] := x;
      assert b[..] == v[i := x];
      BackStep(m, v, b[..], y, n, i);
    }
  }

  // ----- both together

  lemma {:induction false} LowerRow(m: Matrix, y: Vector, n: nat, r: nat)
    requires Square(m, n) && |y| == n && r < n
    ensures Dot(Lower(m, n)[r], y, n) == Dot(m[r], y, r) + y[r]
  {
    var l := Lower(m, n)[r];
    DotTail(l, y, r + 1, n);
    DotEq(l, y, m[r], y, r);
  }

  lemma {:induction false} ForwardSolves(m: Matrix, y: Vector, pb: Vector, n: nat)
    requires ForwardState(m, y, pb, n, n)
    ensures MatVec(Lower(m, n), y) == pb
  {
    forall r | 0 <= r < n ensures MatVec(Lower(m, n), y)[r] == pb[r] {
      LowerRow(m, y, n, r);
    }
  }

  /** Overwrites b with the x for which L (U x) is b with the recorded swaps applied. */
  method LuSolve(a: array2<real>, indx: array<int>, b: array<real>)
    requires a.Length0 == a.Length1 == indx.Length == b.Length
    requires ValidSwaps(indx[..], a.Length0)
    requires forall i :: 0 <= i < a.Length0 ==> a[i, i] != 0.0
    modifies b
    ensures var n, m := a.Length0, Rows(a);
      MatVec(Lower(m, n), MatVec(Upper(m, n), b[..])) == Swapped(old(b[..]), indx[..], n)
  {
    ghost var b0 := b[..];
    Forward(a, indx, b);
    ForwardSolves(Rows(a), b[..], Swapped(b0, indx[..], b.Length), b.Length);
    Back(a, b);
  }
}
