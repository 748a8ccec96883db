/** Connectedness over source and destination edges, taken both ways, and marking along them. */
module MeshComponent {
  import opened Options
  import opened IntrusiveLists
  import opened Sequences

  /** x and y are joined by a source or a destination pointer, in either direction. */
  ghost predicate Adjacent<N>(sv: Lists<N, N>, dv: Lists<N, N>, x: N, y: N) {
    || (x in sv.nodes && sv.nodes[x].parent == Some(y))
    || (x in dv.nodes && dv.nodes[x].parent == Some(y))
    || (y in sv.nodes && sv.nodes[y].parent == Some(x))
    || (y in dv.nodes && dv.nodes[y].parent == Some(x))
  }

  /** Every node's neighbours. */
  ghost function Edges<N>(sv: Lists<N, N>, dv: Lists<N, N>): (e: map<N, set<N>>) {
    map x | x in sv.nodes :: set y | y in sv.nodes && Adjacent(sv, dv, x, y)
  }

  /** The neighbours of x are its parents and the nodes of its two lists. */
  lemma {:induction false} Neighbours<N>(sv: Lists<N, N>, dv: Lists<N, N>, src: map<N, seq<N>>,
                                         dest: map<N, seq<N>>, x: N, y: N)
    requires Exact(sv, src) && Exact(dv, dest) && sv.nodes.Keys == dv.nodes.Keys
    requires src.Keys == dest.Keys == sv.nodes.Keys && x in sv.nodes
    ensures y in Edges(sv, dv)[x] <==>
      sv.nodes[x].parent == Some(y) || dv.nodes[x].parent == Some(y) || y in src[x] || y in dest[x]
  {
    ListedIffChild(sv, src, x, y);
    ListedIffChild(dv, dest, x, y);
    NothingDangles(sv, src, x);
    NothingDangles(dv, dest, x);
  }

  /** Nothing in c has a neighbour outside c. */
  ghost predicate Closed<N>(e: map<N, set<N>>, c: set<N>) {
    forall x :: x in c ==> x in e && e[x] <= c
  }

  /** The nodes reached from x in at most n steps. */
  ghost function Ball<N>(e: map<N, set<N>>, x: N, n: nat): set<N> {
    if n == 0 then {x} else
      var b := Ball(e, x, n - 1);
      b + set y, z | z in b && z in e && y in e[z] :: y
  }

  /** y can be reached from x. */
  ghost predicate Connected<N>(e: map<N, set<N>>, x: N, y: N) {
    exists n: nat :: y in Ball(e, x, n)
  }

  /** The connected component of x. */
  ghost function Component<N>(e: map<N, set<N>>, x: N): set<N> {
    set y | y in e && Connected(e, x, y)
  }

  lemma {:induction false} BallStaysInClosed<N>(e: map<N, set<N>>, c: set<N>, x: N, n: nat)
    requires x in c && Closed(e, c)
    ensures Ball(e, x, n) <= c
  {
    if n == 0 {
    } else {
      BallStaysInClosed(e, c, x, n - 1);
    }
  }

  lemma {:induction false} ComponentIsClosed<N>(e: map<N, set<N>>, x: N)
    requires x in e && Closed(e, e.Keys)
    ensures x in Component(e, x) && Closed(e, Component(e, x))
  {
    var k := Component(e, x);
    assert x in Ball(e, x, 0);
    forall y, z | y in k && z in e[y] ensures z in k {
      var n: nat :| y in Ball(e, x, n);
      assert z in Ball(e, x, n + 1);
    }
  }

  lemma {:induction false} ComponentIsLeast<N>(e: map<N, set<N>>, x: N, c: set<N>)
    requires x in c && Closed(e, c)
    ensures Component(e, x) <= c
  {
    forall y | y in Component(e, x) ensures y in c {
      var n: nat :| y in Ball(e, x, n);
      BallStaysInClosed(e, c, x, n);
    }
  }

  // ----- marking

  /**
   * The marks grew from m to m' inside c, and every node that became marked has all its
   * neighbours marked.
   */
  ghost predicate Spread<N>(e: map<N, set<N>>, c: set<N>, m: set<N>, m': set<N>) {
    m <= m' && m' - m <= c && forall x :: x in m' - m ==> x in e && e[x] <= m'
  }

  lemma {:induction false} SpreadOn<N>(e: map<N, set<N>>, c: set<N>, m: set<N>, m1: set<N>, m2: set<N>)
    requires Spread(e, c, m, m1) && Spread(e, c, m1, m2)
    ensures Spread(e, c, m, m2)
  {
    forall x | x in m2 - m ensures x in e && e[x] <= m2 { assert x in m1 - m || x in m2 - m1; }
  }

  /** x was marked first; once all its neighbours are marked too it counts as one of the new marks. */
  lemma {:induction false} SpreadFrom<N>(e: map<N, set<N>>, c: set<N>, m: set<N>, x: N, m': set<N>)
    requires x in c && x in e && Spread(e, c, m + {x}, m') && e[x] <= m'
    ensures Spread(e, c, m, m')
  {
    forall y | y in m' - m ensures y in e && e[y] <= m' { assert y == x || y in m' - (m + {x}); }
  }

  /** The edges between the nodes outside m. */
  ghost function Avoiding<N>(e: map<N, set<N>>, m: set<N>): map<N, set<N>> {
    map x | x in e && x !in m :: e[x] - m
  }

  /** Started with m marked, the marks end up on m and exactly what can be reached without it. */
  lemma {:induction false} SpreadIsReached<N>(e: map<N, set<N>>, x: N, m: set<N>, m': set<N>)
    requires x in m' && x !in m && Spread(e, m + Component(Avoiding(e, m), x), m, m')
    ensures m' == m + Component(Avoiding(e, m), x)
  {
    var a := Avoiding(e, m);
    forall y | y in m' - m ensures y in a && a[y] <= m' - m {}
    ComponentIsLeast(a, x, m' - m);
  }

  /** What is marked elsewhere makes no difference. */
  lemma {:induction false} AvoidingElsewhere<N>(e: map<N, set<N>>, x: N, m: set<N>)
    requires x in e && Closed(e, e.Keys) && m !! Component(e, x)
    ensures Component(Avoiding(e, m), x) == Component(e, x)
  {
    var a, k := Avoiding(e, m), Component(e, x);
    ComponentIsClosed(e, x);
    assert Closed(a, k);
    ComponentIsLeast(a, x, k);
    forall y | y in a ensures a[y] <= a.Keys { assert e[y] <= e.Keys; }
    ComponentIsClosed(a, x);
    var k' := Component(a, x);
    forall y | y in k' ensures y in e && e[y] <= k' {
      assert y in k && e[y] <= k && a[y] <= k';
      assert e[y] == a[y];
    }
    ComponentIsLeast(e, x, k');
  }

  /** The same nodes are reached if and only if none of those marked before is connected to x. */
  lemma {:induction false} AvoidingIff<N>(e: map<N, set<N>>, x: N, m: set<N>)
    requires x in e && Closed(e, e.Keys) && x !in m
    ensures Component(Avoiding(e, m), x) == Component(e, x) <==> m !! Component(e, x)
  {
    if m !! Component(e, x) { AvoidingElsewhere(e, x, m); }
  }

  /** p is a walk along edges from x to y that does not touch m. */
  ghost predicate Walk<N>(e: map<N, set<N>>, m: set<N>, p: seq<N>, x: N, y: N) {
    && p != [] && p[0] == x && p[|p| - 1] == y && (forall z :: z in p ==> z !in m)
    && forall i :: 0 <= i < |p| - 1 ==> p[i] in e && p[i + 1] in e[p[i]]
  }

  lemma {:induction false} PathOfBall<N>(e: map<N, set<N>>, m: set<N>, x: N, y: N, n: nat) returns (p: seq<N>)
    requires x !in m && y in Ball(Avoiding(e, m), x, n)
    ensures Walk(e, m, p, x, y)
  {
    var a := Avoiding(e, m);
    if n == 0 {
      p := [x];
    } else if y in Ball(a, x, n - 1) {
      p := PathOfBall(e, m, x, y, n - 1);
    } else {
      var z :| z in Ball(a, x, n - 1) && z in a && y in a[z];
      p := PathOfBall(e, m, x, z, n - 1);
      p := p + [y];
    }
  }

  lemma {:induction false} BallOfPath<N>(e: map<N, set<N>>, m: set<N>, x: N, p: seq<N>, k: nat)
    requires k < |p| && Walk(e, m, p, x, p[|p| - 1]) && Closed(e, e.Keys) && x in e
    ensures p[k] in e && p[k] in Ball(Avoiding(e, m), x, k)
  {
    if k == 0 {
    } else {
      BallOfPath(e, m, x, p, k - 1);
      assert p[k - 1] in p && p[k] in p;
      assert p[k] in Avoiding(e, m)[p[k - 1]];
    }
  }

  /** What is reached without m is where a walk leads that does not touch m. */
  lemma {:induction false} ReachedIffWalk<N>(e: map<N, set<N>>, m: set<N>, x: N, y: N)
    requires x in e && Closed(e, e.Keys) && x !in m
    ensures y in Component(Avoiding(e, m), x) <==> exists p :: Walk(e, m, p, x, y)
  {
    if y in Component(Avoiding(e, m), x) {
      var n: nat :| y in Ball(Avoiding(e, m), x, n);
      var p := PathOfBall(e, m, x, y, n);
      assert Walk(e, m, p, x, y);
    }
    if p :| Walk(e, m, p, x, y) {
      BallOfPath(e, m, x, p, |p| - 1);
      assert y in p;
    }
  }

  /** Three nodes in a row: all are connected, and a mark in the middle cuts the last off from the first. */
  lemma {:induction false} LeftoverCutsOff<N>(e: map<N, set<N>>, a: N, f: N, b: N)
    requires a != f && f != b && a != b && e == map[a := {f}, f := {a, b}, b := {f}]
    ensures Component(e, a) == {a, f, b} && Component(Avoiding(e, {f}), a) == {a}
  {
    assert Closed(e, e.Keys);
    ComponentIsClosed(e, a);
    assert f in e[a] && f in Component(e, a) && b in e[f];
    var c := {a};
    assert Closed(Avoiding(e, {f}), c);
    ComponentIsLeast(Avoiding(e, {f}), a, c);
    assert a in Ball(Avoiding(e, {f}), a, 0);
  }

  // ----- pruning

  /** The nodes of c keep their parent and the list of those having them as theirs. */
  ghost predicate Intact<N>(l: Lists<N, N>, order: map<N, seq<N>>, l': Lists<N, N>, order': map<N, seq<N>>, c: set<N>) {
    forall x {:trigger IntactAt(l, order, l', order', x)} :: x in c ==> IntactAt(l, order, l', order', x)
  }

  ghost predicate IntactAt<N>(l: Lists<N, N>, order: map<N, seq<N>>, l': Lists<N, N>, order': map<N, seq<N>>, x: N) {
    && x in l.nodes && x in l'.nodes && l'.nodes[x].parent == l.nodes[x].parent
    && x in order && x in order' && order'[x] == order[x]
  }

  /** Parents and children of members of c are in c. */
  ghost predicate Inside<N>(l: Lists<N, N>, order: map<N, seq<N>>, c: set<N>) {
    forall x {:trigger InsideAt(l, order, c, x)} :: x in c ==> InsideAt(l, order, c, x)
  }

  ghost predicate InsideAt<N>(l: Lists<N, N>, order: map<N, seq<N>>, c: set<N>, x: N) {
    && x in l.nodes && x in order && (l.nodes[x].parent.Some? ==> l.nodes[x].parent.value in c)
    && forall y :: y in order[x] ==> y in c
  }

  lemma {:induction false} ClosedIsInside<N>(sv: Lists<N, N>, dv: Lists<N, N>, src: map<N, seq<N>>,
                                             dest: map<N, seq<N>>, c: set<N>)
    requires Exact(sv, src) && Exact(dv, dest) && sv.nodes.Keys == dv.nodes.Keys == src.Keys == dest.Keys
    requires Closed(Edges(sv, dv), c)
    ensures Inside(sv, src, c) && Inside(dv, dest, c)
  {
    forall x | x in c ensures InsideAt(sv, src, c, x) && InsideAt(dv, dest, c, x) {
      forall y ensures y in Edges(sv, dv)[x] <==>
        sv.nodes[x].parent == Some(y) || dv.nodes[x].parent == Some(y) || y in src[x] || y in dest[x]
      {
        Neighbours(sv, dv, src, dest, x, y);
      }
    }
  }

  lemma {:induction false} MinusNothing<N>(q: seq<N>, gone: set<N>)
    requires forall x :: x in q ==> x !in gone
    ensures Minus(q, gone) == q
  {
    if q == [] {
    } else {
      MinusNothing(q[1..], gone);
    }
  }

  /** What is not connected to anything that goes is left intact. */
  lemma {:induction false} ClosedStaysIntact<N>(l: Lists<N, N>, order: map<N, seq<N>>, l': Lists<N, N>, order': map<N, seq<N>>,
                                                gone: set<N>, c: set<N>)
    requires Inside(l, order, c) && SurvivesAll(l, order, l', order', gone) && c !! gone
    ensures Intact(l, order, l', order', c)
  {
    forall x | x in c ensures IntactAt(l, order, l', order', x) {
      assert InsideAt(l, order, c, x);
      MinusNothing(order[x], gone);
    }
  }

  lemma {:induction false} EdgesInside<N>(sv: Lists<N, N>, dv: Lists<N, N>, src: map<N, seq<N>>, dest: map<N, seq<N>>)
    requires Exact(sv, src) && Exact(dv, dest) && sv.nodes.Keys == dv.nodes.Keys == src.Keys == dest.Keys
    ensures Closed(Edges(sv, dv), Edges(sv, dv).Keys)
  {
  }

  /** No node of q that is connected to x goes if and only if every one of them can be walked to without touching m. */
  lemma {:induction false} SparedIff<N>(e: map<N, set<N>>, m: set<N>, x: N, q: seq<N>)
    requires x in e && Closed(e, e.Keys) && x !in m
    ensures (Elements(q) - Component(Avoiding(e, m), x)) !! Component(e, x)
       <==> forall y :: y in q && y in Component(e, x) ==> exists p :: Walk(e, m, p, x, y)
  {
    forall y ensures y in Component(Avoiding(e, m), x) <==> exists p :: Walk(e, m, p, x, y) { ReachedIffWalk(e, m, x, y); }
  }

  /**
   * When the members of q go that are not reached from x, the whole component of x stays, with
   * the ends and lists of every member, if and only if every member of q in it can be walked to
   * without touching a mark left over.
   */
  lemma {:induction false} ComponentKeptIff<N>(sv: Lists<N, N>, dv: Lists<N, N>, src: map<N, seq<N>>, dest: map<N, seq<N>>,
                                               x: N, leftover: set<N>, q: seq<N>, sv': Lists<N, N>, dv': Lists<N, N>,
                                               src': map<N, seq<N>>, dest': map<N, seq<N>>)
    requires Exact(sv, src) && Exact(dv, dest) && sv.nodes.Keys == dv.nodes.Keys == src.Keys == dest.Keys
    requires x in sv.nodes && x !in leftover
    requires var gone := Elements(q) - Component(Avoiding(Edges(sv, dv), leftover), x);
      SurvivesAll(sv, src, sv', src', gone) && SurvivesAll(dv, dest, dv', dest', gone)
    ensures var e, c := Edges(sv, dv), Component(Edges(sv, dv), x);
      Intact(sv, src, sv', src', c) && Intact(dv, dest, dv', dest', c)
      <==> forall y :: y in q && y in c ==> exists p :: Walk(e, leftover, p, x, y)
  {
    var e, c := Edges(sv, dv), Component(Edges(sv, dv), x);
    var gone := Elements(q) - Component(Avoiding(e, leftover), x);
    EdgesInside(sv, dv, src, dest);
    SparedIff(e, leftover, x, q);
    if c !! gone {
      ComponentIsClosed(e, x);
      ClosedIsInside(sv, dv, src, dest, c);
      ClosedStaysIntact(sv, src, sv', src', gone, c);
      ClosedStaysIntact(dv, dest, dv', dest', gone, c);
    } else {
      var y :| y in c && y in gone;
      assert !IntactAt(sv, src, sv', src', y);
    }
  }

  /** The members of c in q, in q's order. */
  ghost function Kept<N>(q: seq<N>, c: set<N>): seq<N> {
    if q == [] then [] else
      var r := Kept(q[..|q| - 1], c);
      if q[|q| - 1] in c then r + [q[|q| - 1]] else r
  }

  ghost function Elements<N>(q: seq<N>): set<N> {
    set x | x in q
  }

  /** What is left of q after its first k nodes have been dealt with. */
  ghost function Remaining<N>(q: seq<N>, c: set<N>, k: nat): seq<N>
    requires k <= |q|
  {
    Kept(q[..k], c) + q[k..]
  }

  lemma {:induction false} NothingKept<N>(q: seq<N>, c: set<N>)
    ensures Remaining(q, c, 0) == q
  {
    assert q[..0] == [] && q[0..] == q;
  }

  lemma {:induction false} AllKept<N>(q: seq<N>, c: set<N>)
    ensures Remaining(q, c, |q|) == Kept(q, c)
  {
    assert q[..|q|] == q && q[|q|..] == [];
  }

  lemma {:induction false} RemainingStep<N>(q: seq<N>, c: set<N>, k: nat)
    requires k < |q| && Distinct(q)
    ensures Remaining(q, c, k + 1) == if q[k] in c then Remaining(q, c, k) else Without(Remaining(q, c, k), q[k])
    ensures |Kept(q[..k], c)| < |Remaining(q, c, k)| && Remaining(q, c, k)[|Kept(q[..k], c)|] == q[k]
    ensures |Remaining(q, c, k)| - |Kept(q[..k], c)| == |q| - k
    ensures k + 1 < |q| ==> Remaining(q, c, k)[|Kept(q[..k], c)| + 1] == q[k + 1]
  {
    var r := Kept(q[..k], c);
    DistinctAt(q);
    assert q[..k + 1][..k] == q[..k];
    assert q[k..] == [q[k]] + q[k + 1..];
    assert r + q[k..] == (r + [q[k]]) + q[k + 1..];
    KeptIn(q[..k], c);
    WithoutMiddle(r, q[k], q[k + 1..]);
  }

  lemma {:induction false} KeptIn<N>(q: seq<N>, c: set<N>)
    ensures forall x :: x in Kept(q, c) <==> x in q && x in c
  {
    if q == [] {
    } else {
      KeptIn(q[..|q| - 1], c);
      assert q == q[..|q| - 1] + [q[|q| - 1]];
    }
  }

  lemma {:induction false} WithoutMiddle<N>(a: seq<N>, x: N, b: seq<N>)
    requires x !in a
    ensures Without(a + ([x] + b), x) == a + b
  {
    if a != [] {
      WithoutMiddle(a[1..], x, b);
      assert (a + ([x] + b))[1..] == a[1..] + ([x] + b);
      assert a + b == [a[0]] + (a[1..] + b);
    } else {
      assert a + ([x] + b) == [x] + b;
    }
  }
}
