/** The entry point that solves a linear system on copies of its arguments. */
module LinearSystem {
  import opened LinearAlgebra
  import opened Pivoting
  import opened LUDecomposition
  import opened LUSolution
  import opened LUTheorems

  method CopyMatrix(a: array2<real>) returns (c: array2<real>)
    ensures fresh(c) && c.Length0 == a.Length0 && c.Length1 == a.Length1
    ensures Rows(c) == Rows(a)
  {
    c := new real[a.Length0, a.Length1];
    for i := 0 to a.Length0
      invariant forall r, k :: 0 <= r < i && 0 <= k < a.Length1 ==> c[r, k] == a[r, k]
    {
      for j := 0 to a.Length1
        invariant forall r, k :: 0 <= r < i && 0 <= k < a.Length1 ==> c[r, k] == a[r, k]
        invariant forall k :: 0 <= k < j ==> c[i, k] == a[i, k]
      {
        c[i, j] := a[i, j];
      }
    }
    Entries(a);
    Entries(c);
    assert forall i :: 0 <= i < a.Length0 ==> Rows(c)[i] == Rows(a)[i];
  }

  method CopyVector(b: array<real>) returns (c: array<real>)
    ensures fresh(c) && c[..] == b[..]
  {
    c := new real[b.Length];
    for i := 0 to b.Length
      invariant c[..i] == b[..i]
    {
      c[i] := b[i];
    }
  }

  /** Factor and solve on copies: x with A x = b for every nonsingular A and every b. */
  method SolveSystem(a: array2<real>, b: array<real>) returns (x: array<real>)
    requires a.Length0 == a.Length1 == b.Length
    requires NoZeroRow(Rows(a), a.Length0)
    ensures fresh(x) && x.Length == b.Length
    ensures !Singular(Rows(a), b.Length) ==> MatVec(Rows(a), x[..]) == b[..]
  {
    ghost var n, a0 := b.Length, Rows(a);
    var acopy := CopyMatrix(a);
    x := CopyVector(b);
    var indx := new int[b.Length];
    var d; ghost var replaced;
    d, replaced := LU(acopy, indx);
    ghost var m, ix := Rows(acopy), indx[..];
    Entries(acopy);
    LuSolve(acopy, indx, x);
    SolvesNonsingular(a0, m, ix, n, replaced, x[..], b[..]);
  }
}
