/** Vectors and matrices of exact reals, as far as the linear solver needs them. */
module LinearAlgebra {

  type Vector = seq<real>
  type Matrix = seq<Vector>

  function Times(x: real, y: real): real { x * y }

  ghost predicate Square(m: Matrix, n: nat) {
    |m| == n && forall i :: 0 <= i < n ==> |m[i]| == n
  }

  /** Sum of u[k] * v[k] over k < t. */
  ghost function Dot(u: Vector, v: Vector, t: nat): real
    requires t <= |u| && t <= |v|
  {
    if t == 0 then 0.0 else Dot(u, v, t - 1) + Times(u[t - 1], v[t - 1])
  }

  ghost function Column(m: Matrix, j: nat): (c: Vector)
    requires forall i :: 0 <= i < |m| ==> j < |m[i]|
    ensures |c| == |m|
    ensures forall i :: 0 <= i < |m| ==> c[i] == m[i][j]
  {
    seq(|m|, i requires 0 <= i < |m| => m[i][j])
  }

  ghost function MatVec(m: Matrix, x: Vector): (y: Vector)
    requires forall i :: 0 <= i < |m| ==> |m[i]| == |x|
    ensures |y| == |m|
    ensures forall i :: 0 <= i < |m| ==> y[i] == Dot(m[i], x, |x|)
  {
    seq(|m|, i requires 0 <= i < |m| => Dot(m[i], x, |x|))
  }

  ghost function VecMat(u: Vector, m: Matrix, n: nat): (y: Vector)
    requires |u| == |m| && forall i :: 0 <= i < |m| ==> |m[i]| == n
    ensures |y| == n
    ensures forall j :: 0 <= j < n ==> y[j] == Dot(u, Column(m, j), |u|)
  {
    seq(n, j requires 0 <= j < n => Dot(u, Column(m, j), |u|))
  }

  ghost function Mul(a: Matrix, b: Matrix, n: nat): (c: Matrix)
    requires Square(a, n) && Square(b, n)
    ensures Square(c, n)
    ensures forall i, j :: 0 <= i < n && 0 <= j < n ==> c[i][j] == Dot(a[i], Column(b, j), n)
  {
    seq(n, i requires 0 <= i < n => VecMat(a[i], b, n))
  }

  ghost function Zero(n: nat): (z: Vector)
    ensures |z| == n && forall i :: 0 <= i < n ==> z[i] == 0.0
  {
    seq(n, i => 0.0)
  }

  /** A matrix is singular when it sends some nonzero vector to zero. */
  ghost predicate Singular(m: Matrix, n: nat)
    requires Square(m, n)
  {
    exists x: Vector :: |x| == n && x != Zero(n) && MatVec(m, x) == Zero(n)
  }

  lemma {:induction false} DotEq(u: Vector, v: Vector, u': Vector, v': Vector, t: nat)
    requires t <= |u| && t <= |v| && t <= |u'| && t <= |v'|
    requires forall k :: 0 <= k < t ==> u[k] == u'[k] && (v[k] == v'[k] || u[k] == 0.0)
    ensures Dot(u, v, t) == Dot(u', v', t)
  {
    if t == 0 {
    } else {
      DotEq(u, v, u', v', t - 1);
    }
  }

  /** Terms whose product is zero may be dropped from the end of a sum. */
  lemma {:induction false} DotTail(u: Vector, v: Vector, s: nat, t: nat)
    requires s <= t <= |u| && t <= |v|
    requires forall k :: s <= k < t ==> u[k] == 0.0 || v[k] == 0.0
    ensures Dot(u, v, t) == Dot(u, v, s)
  {
    if s == t {
    } else {
      DotTail(u, v, s, t - 1);
    }
  }

  /** Sum of u[k] * v[k] over s <= k < t. */
  ghost function DotRange(u: Vector, v: Vector, s: nat, t: nat): real
    requires s <= t <= |u| && t <= |v|
    decreases t
  {
    if t == s then 0.0 else DotRange(u, v, s, t - 1) + Times(u[t - 1], v[t - 1])
  }

  lemma {:induction false} DotSplit(u: Vector, v: Vector, s: nat, t: nat)
    requires s <= t <= |u| && t <= |v|
    ensures Dot(u, v, t) == Dot(u, v, s) + DotRange(u, v, s, t)
    decreases t
  {
    if s == t {
    } else {
      DotSplit(u, v, s, t - 1);
    }
  }

  lemma {:induction false} DotRangeEq(u: Vector, v: Vector, u': Vector, v': Vector, s: nat, t: nat)
    requires s <= t <= |u| && t <= |v| && t <= |u'| && t <= |v'|
    requires forall k :: s <= k < t ==> u[k] == u'[k] && v[k] == v'[k]
    ensures DotRange(u, v, s, t) == DotRange(u', v', s, t)
    decreases t
  {
    if s == t {
    } else {
      DotRangeEq(u, v, u', v', s, t - 1);
    }
  }

  /** Linearity in the left argument, with w == u + c * u'. */
  lemma {:induction false} DotLinear(w: Vector, u: Vector, c: real, u': Vector, v: Vector, t: nat)
    requires t <= |w| && t <= |u| && t <= |u'| && t <= |v|
    requires forall k :: 0 <= k < t ==> w[k] == u[k] + Times(c, u'[k])
    ensures Dot(w, v, t) == Dot(u, v, t) + Times(c, Dot(u', v, t))
  {
    if t == 0 {
    } else {
      DotLinear(w, u, c, u', v, t - 1);
      var a, b, y := u[t - 1], u'[t - 1], v[t - 1];
      assert (a + c * b) * y == a * y + c * (b * y);
    }
  }

  lemma {:induction false} DotZeroLeft(u: Vector, v: Vector, t: nat)
    requires t <= |u| && t <= |v|
    requires forall k :: 0 <= k < t ==> u[k] == 0.0
    ensures Dot(u, v, t) == 0.0
  {
    if t == 0 {
    } else {
      DotZeroLeft(u, v, t - 1);
    }
  }

  /** u . (M x) == (u M) . x */
  lemma {:induction false} DotAssociative(u: Vector, m: Matrix, x: Vector)
    requires |u| == |m| && forall i :: 0 <= i < |m| ==> |m[i]| == |x|
    ensures Dot(u, MatVec(m, x), |u|) == Dot(VecMat(u, m, |x|), x, |x|)
    decreases |u|
  {
    var n := |x|;
    if |u| == 0 {
      DotZeroLeft(VecMat(u, m, n), x, n);
    } else {
      var t := |u| - 1;
      var u0, m0 := u[..t], m[..t];
      DotAssociative(u0, m0, x);
      DotEq(u, MatVec(m, x), u0, MatVec(m0, x), t);
      forall j | 0 <= j < n
        ensures VecMat(u, m, n)[j] == VecMat(u0, m0, n)[j] + Times(u[t], m[t][j])
      {
        DotEq(u, Column(m, j), u0, Column(m0, j), t);
      }
      DotLinear(VecMat(u, m, n), VecMat(u0, m0, n), u[t], m[t], x, n);
    }
  }

  /** (A B) x == A (B x) */
  lemma {:induction false} MulMatVec(a: Matrix, b: Matrix, x: Vector, n: nat)
    requires Square(a, n) && Square(b, n) && |x| == n
    ensures MatVec(Mul(a, b, n), x) == MatVec(a, MatVec(b, x))
  {
    forall i | 0 <= i < n
      ensures MatVec(Mul(a, b, n), x)[i] == MatVec(a, MatVec(b, x))[i]
    {
      DotAssociative(a[i], b, x);
      DotEq(Mul(a, b, n)[i], x, VecMat(a[i], b, n), x, n);
    }
  }
}
