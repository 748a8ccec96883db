/** Sequences in which nothing occurs twice, and how sequences are put together. */
module Sequences {

  ghost predicate Distinct<T>(q: seq<T>) {
    q == [] || (q[0] !in q[1..] && Distinct(q[1..]))
  }

  lemma {:induction false} DistinctAt<T>(q: seq<T>)
    requires Distinct(q)
    ensures forall i, j :: 0 <= i < j < |q| ==> q[i] != q[j]
  {
    if q == [] {
    } else {
      DistinctAt(q[1..]);
      forall i, j | 0 <= i < j < |q| ensures q[i] != q[j] {
        assert q[j] == q[1..][j - 1];
        if i > 0 { assert q[i] == q[1..][i - 1]; }
      }
    }
  }

  lemma {:induction false} DistinctWhen<T>(q: seq<T>)
    requires forall i, j :: 0 <= i < j < |q| ==> q[i] != q[j]
    ensures Distinct(q)
  {
    if q == [] {
    } else {
      DistinctWhen(q[1..]);
      forall i: nat | i < |q[1..]| ensures q[1..][i] != q[0] {
        assert q[1..][i] == q[i + 1];
      }
    }
  }

  lemma {:induction false} DistinctAppend<T>(q: seq<T>, x: T)
    requires Distinct(q) && x !in q
    ensures Distinct(q + [x])
  {
    if q == [] {
    } else {
      DistinctAppend(q[1..], x);
      assert (q + [x])[1..] == q[1..] + [x];
    }
  }

  lemma {:induction false} Associate<T>(a: seq<T>, b: seq<T>, c: seq<T>)
    ensures (a + b) + c == a + (b + c)
  {
  }

  lemma {:induction false} Grouped<T>(a: seq<T>, b: seq<T>, c: seq<T>, d: seq<T>, e: seq<T>)
    ensures a + b + c + d + e == a + (b + c + d + e)
  {
  }

  lemma {:induction false} Neutral<T>(s: seq<T>)
    ensures [] + s == s && s + [] == s
  {
  }
}
