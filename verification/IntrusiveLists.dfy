/**
 * Doubly linked lists threaded through the nodes themselves, as values.
 * Every node belongs to at most one parent's list; a parent holds the list's root.
 */
module IntrusiveLists {

  import opened Options
  import opened Sequences

  datatype Node<+N, +P> = Node(parent: Option<P>, prev: Option<N>, next: Option<N>)

  datatype Lists<N(==), P(==)> = Lists(nodes: map<N, Node<N, P>>, roots: map<P, Option<N>>)

  function First<T>(q: seq<T>): Option<T> {
    if q == [] then None else Some(q[0])
  }

  function Last<T>(q: seq<T>): Option<T> {
    if q == [] then None else Some(q[|q| - 1])
  }

  /** The sequence without x, which occurs in it at most once. */
  ghost function Without<T>(q: seq<T>, x: T): (r: seq<T>)
    ensures x !in q ==> r == q
  {
    if q == [] then [] else if q[0] == x then q[1..] else [q[0]] + Without(q[1..], x)
  }

  lemma {:induction false} WithoutAt<T>(q: seq<T>, k: nat)
    requires k < |q| && Distinct(q)
    ensures Without(q, q[k]) == q[..k] + q[k + 1..]
  {
    if k == 0 {
    } else {
      WithoutAt(q[1..], k - 1);
      assert q[1..][..k - 1] == q[1..k];
      assert q[..k] == [q[0]] + q[1..k];
    }
  }

  // ----- when the pointers spell out the given order

  lemma {:induction false} WithoutDistinct<T>(q: seq<T>, x: T)
    requires Distinct(q)
    ensures Distinct(Without(q, x)) && x !in Without(q, x)
  {
    if q == [] || q[0] == x {
    } else {
      WithoutDistinct(q[1..], x);
      WithoutKeeps(q[1..], x, q[0]);
    }
  }

  /** Position i of parent p's list q. */
  ghost predicate Slot<N, P>(l: Lists<N, P>, p: P, q: seq<N>, i: nat)
    requires i < |q|
  {
    && q[i] in l.nodes
    && l.nodes[q[i]] == Node(Some(p), if i == 0 then None else Some(q[i - 1]),
                             if i + 1 == |q| then None else Some(q[i + 1]))
  }

  /** Walking from p's root meets exactly q, prev inverse to next. */
  ghost predicate Spells<N, P>(l: Lists<N, P>, p: P, q: seq<N>) {
    && p in l.roots && l.roots[p] == First(q)
    && Distinct(q)
    && forall i: nat :: i < |q| ==> Slot(l, p, q, i)
  }

  /** Node n is in its parent's list, or in none. */
  ghost predicate Belongs<N, P>(l: Lists<N, P>, order: map<P, seq<N>>, n: N)
    requires n in l.nodes
  {
    match l.nodes[n].parent
    case None => l.nodes[n].prev == l.nodes[n].next == None
    case Some(p) => p in order && n in order[p]
  }

  /** All lists are exact: order gives every parent's list. */
  ghost predicate Exact<N, P>(l: Lists<N, P>, order: map<P, seq<N>>) {
    && l.roots.Keys == order.Keys
    && (forall p {:trigger Spells(l, p, order[p])} :: p in order ==> Spells(l, p, order[p]))
    && (forall n {:trigger Belongs(l, order, n)} :: n in l.nodes ==> Belongs(l, order, n))
  }

  // ----- the pointer updates

  function SetNext<N, P>(l: Lists<N, P>, n: Option<N>, next: Option<N>): Lists<N, P> {
    match n
    case None => l
    case Some(x) => if x in l.nodes then l.(nodes := l.nodes[x := l.nodes[x].(next := next)]) else l
  }

  function SetPrev<N, P>(l: Lists<N, P>, n: Option<N>, prev: Option<N>): Lists<N, P> {
    match n
    case None => l
    case Some(x) => if x in l.nodes then l.(nodes := l.nodes[x := l.nodes[x].(prev := prev)]) else l
  }

  /** The root of p's list moves on if it is n. */
  function RootPast<N, P>(l: Lists<N, P>, n: N, p: P): Lists<N, P>
    requires n in l.nodes && p in l.roots
  {
    if l.roots[p] == Some(n) then l.(roots := l.roots[p := l.nodes[n].next]) else l
  }

  /** Takes n out of the list of its parent. */
  function Unlink<N, P>(l: Lists<N, P>, n: N): Lists<N, P>
    requires n in l.nodes && l.nodes[n].parent.Some? && l.nodes[n].parent.value in l.roots
  {
    var c := l.nodes[n];
    var l1 := RootPast(l, n, c.parent.value);
    var l2 := SetPrev(SetNext(l1, c.prev, c.next), c.next, c.prev);
    l2.(nodes := l2.nodes[n := Node(None, None, None)])
  }

  /** Puts n, which is in no list, before p's first node. */
  function PushFront<N, P>(l: Lists<N, P>, n: N, p: P): Lists<N, P>
    requires n in l.nodes && p in l.roots
  {
    var l1 := SetPrev(l, l.roots[p], Some(n));
    Lists(l1.nodes[n := Node(Some(p), None, l.roots[p])], l.roots[p := Some(n)])
  }

  /** Leaves the old parent's list, if any, and becomes the first of the new one's, if any. */
  function Moved<N, P>(l: Lists<N, P>, n: N, p: Option<P>): Lists<N, P>
    requires n in l.nodes && (p.Some? ==> p.value in l.roots)
  {
    var c := l.nodes[n];
    var l1 := if c.parent.Some? && c.parent.value in l.roots then Unlink(l, n) else l;
    if p.Some? then PushFront(l1, n, p.value) else l1
  }

  /** Puts n, which is in no list, after p's last node. */
  function PushBack<N, P>(l: Lists<N, P>, n: N, p: P, last: Option<N>): Lists<N, P>
    requires n in l.nodes && p in l.roots
  {
    var l1 := SetNext(l, last, Some(n));
    Lists(l1.nodes[n := Node(Some(p), last, None)], if last == None then l.roots[p := Some(n)] else l.roots)
  }

  // ----- they keep the lists exact

  lemma {:induction false} NotListed<N, P>(l: Lists<N, P>, order: map<P, seq<N>>, n: N, p: P)
    requires Exact(l, order) && n in l.nodes && p in order && l.nodes[n].parent != Some(p)
    ensures n !in order[p]
  {
    forall i: nat | i < |order[p]| ensures order[p][i] != n { assert Spells(l, p, order[p]) && Slot(l, p, order[p], i); }
  }

  /** A list keeps spelling the same if none of its nodes and not its root changed. */
  lemma {:induction false} SpellsKept<N, P>(l: Lists<N, P>, l': Lists<N, P>, p: P, q: seq<N>)
    requires Spells(l, p, q) && p in l'.roots && l'.roots[p] == l.roots[p]
    requires forall x :: x in q ==> x in l'.nodes && x in l.nodes && l'.nodes[x] == l.nodes[x]
    ensures Spells(l', p, q)
  {
    forall i: nat | i < |q| ensures Slot(l', p, q, i) { assert Slot(l, p, q, i); }
  }

  /** Only the two neighbours of the unlinked position k change. */
  lemma {:induction false} UnlinkNode<N, P>(l: Lists<N, P>, p: P, q: seq<N>, k: nat, j: nat)
    requires Spells(l, p, q) && k < |q| && j < |q| && j != k && Slot(l, p, q, k)
    ensures var l' := Unlink(l, q[k]);
      q[j] in l'.nodes && l'.nodes[q[j]] == Node(Some(p),
        if j == k + 1 then l.nodes[q[k]].prev else if j == 0 then None else Some(q[j - 1]),
        if j + 1 == k then l.nodes[q[k]].next else if j + 1 == |q| then None else Some(q[j + 1]))
  {
    DistinctAt(q);
    assert Slot(l, p, q, j);
    assert (k > 0 ==> Slot(l, p, q, k - 1)) && (k + 1 < |q| ==> Slot(l, p, q, k + 1));
  }

  lemma {:induction false} UnlinkSlot<N, P>(l: Lists<N, P>, p: P, q: seq<N>, k: nat, i: nat)
    requires Spells(l, p, q) && k < |q| && Slot(l, p, q, k) && i + 1 < |q|
    ensures Slot(Unlink(l, q[k]), p, q[..k] + q[k + 1..], i)
  {
    UnlinkNode(l, p, q, k, if i < k then i else i + 1);
  }

  lemma {:induction false} UnlinkSpells<N, P>(l: Lists<N, P>, n: N, p: P, q: seq<N>)
    requires Spells(l, p, q) && n in q && n in l.nodes && l.nodes[n].parent == Some(p)
    ensures Spells(Unlink(l, n), p, Without(q, n))
  {
    var k: nat :| k < |q| && q[k] == n;
    WithoutAt(q, k);
    WithoutDistinct(q, n);
    assert Slot(l, p, q, k);
    var q' := q[..k] + q[k + 1..];
    forall i: nat | i < |q'| ensures Slot(Unlink(l, n), p, q', i) { UnlinkSlot(l, p, q, k, i); }
  }

  lemma {:induction false} UnlinkOthers<N, P>(l: Lists<N, P>, n: N, p: P, q: seq<N>, x: N)
    requires Spells(l, p, q) && n in q && n in l.nodes && l.nodes[n].parent == Some(p)
    requires x in l.nodes && x != n
    ensures x in Unlink(l, n).nodes && Unlink(l, n).nodes[x].parent == l.nodes[x].parent
    ensures l.nodes[x].parent != Some(p) ==> Unlink(l, n).nodes[x] == l.nodes[x]
  {
    var k: nat :| k < |q| && q[k] == n;
    assert Slot(l, p, q, k) && (k > 0 ==> Slot(l, p, q, k - 1)) && (k + 1 < |q| ==> Slot(l, p, q, k + 1));
  }

  lemma {:induction false} UnlinkParents<N, P>(l: Lists<N, P>, n: N)
    requires n in l.nodes && l.nodes[n].parent.Some? && l.nodes[n].parent.value in l.roots
    ensures var l' := Unlink(l, n);
      l'.nodes.Keys == l.nodes.Keys && l'.roots.Keys == l.roots.Keys && l'.nodes[n].parent == None
      && forall x :: x in l.nodes && x != n ==> l'.nodes[x].parent == l.nodes[x].parent
  {
  }

  lemma {:induction false} PushFrontParents<N, P>(l: Lists<N, P>, n: N, p: P)
    requires n in l.nodes && p in l.roots
    ensures var l' := PushFront(l, n, p);
      l'.nodes.Keys == l.nodes.Keys && l'.nodes[n].parent == Some(p)
      && forall x :: x in l.nodes && x != n ==> l'.nodes[x].parent == l.nodes[x].parent
  {
  }

  lemma {:induction false} MovedParents<N, P>(l: Lists<N, P>, n: N, p: Option<P>)
    requires n in l.nodes && (p.Some? ==> p.value in l.roots)
    requires l.nodes[n].parent.Some? ==> l.nodes[n].parent.value in l.roots
    ensures Moved(l, n, p).nodes.Keys == l.nodes.Keys && Moved(l, n, p).nodes[n].parent == p
    ensures forall x :: x in l.nodes && x != n ==> Moved(l, n, p).nodes[x].parent == l.nodes[x].parent
  {
    if l.nodes[n].parent.Some? { UnlinkParents(l, n); }
    if p.Some? { PushFrontParents(if l.nodes[n].parent.Some? then Unlink(l, n) else l, n, p.value); }
  }

  lemma {:induction false} UnlinkExact<N, P>(l: Lists<N, P>, order: map<P, seq<N>>, n: N)
    requires Exact(l, order) && n in l.nodes && l.nodes[n].parent.Some?
    ensures l.nodes[n].parent.value in order
    ensures var p := l.nodes[n].parent.value;
      Exact(Unlink(l, n), order[p := Without(order[p], n)])
  {
    assert Belongs(l, order, n);
    var p := l.nodes[n].parent.value;
    var l', order' := Unlink(l, n), order[p := Without(order[p], n)];
    UnlinkSpells(l, n, p, order[p]);
    forall r | r in order' ensures Spells(l', r, order'[r]) {
      if r != p {
        forall x | x in order[r] ensures x in l.nodes && x in l'.nodes && l'.nodes[x] == l.nodes[x] {
          var i: nat :| i < |order[r]| && order[r][i] == x;
          assert Spells(l, r, order[r]) && Slot(l, r, order[r], i);
          UnlinkOthers(l, n, p, order[p], x);
        }
        SpellsKept(l, l', r, order[r]);
      }
    }
    forall x | x in l'.nodes ensures Belongs(l', order', x) {
      if x != n {
        assert Belongs(l, order, x);
        UnlinkOthers(l, n, p, order[p], x);
        WithoutKeeps(order[p], n, x);
      }
    }
  }

  lemma {:induction false} WithoutKeeps<T>(q: seq<T>, x: T, y: T)
    requires x != y
    ensures y in Without(q, x) <==> y in q
  {
    if q == [] || q[0] == x {
    } else {
      WithoutKeeps(q[1..], x, y);
    }
  }

  lemma {:induction false} PushFrontExact<N, P>(l: Lists<N, P>, order: map<P, seq<N>>, n: N, p: P)
    requires Exact(l, order) && n in l.nodes && l.nodes[n].parent == None && p in order
    ensures Exact(PushFront(l, n, p), order[p := [n] + order[p]])
  {
    var l', q := PushFront(l, n, p), order[p];
    var order' := order[p := [n] + q];
    assert Spells(l, p, q);
    assert q != [] ==> Slot(l, p, q, 0);
    forall r | r in order' ensures Spells(l', r, order'[r]) {
      NotListed(l, order, n, r);
      if r == p {
        forall i: nat | i < |order'[p]| ensures Slot(l', p, order'[p], i) {
          if i > 0 { assert Slot(l, p, q, i - 1); }
        }
      } else {
        OthersSpell(l, l', order, p, r, n);
      }
    }
    forall x | x in l'.nodes ensures Belongs(l', order', x) {
      if x != n { assert Belongs(l, order, x); }
    }
  }

  /** Lists of other parents are not touched when only nodes of p and n change. */
  lemma {:induction false} OthersSpell<N, P>(l: Lists<N, P>, l': Lists<N, P>, order: map<P, seq<N>>, p: P, r: P, n: N)
    requires Exact(l, order) && r in order && r != p && n !in order[r]
    requires r in l'.roots && l'.roots[r] == l.roots[r]
    requires forall x :: x in l.nodes && x != n && l.nodes[x].parent != Some(p) ==> x in l'.nodes && l'.nodes[x] == l.nodes[x]
    ensures Spells(l', r, order[r])
  {
    forall x | x in order[r] ensures x in l.nodes && x in l'.nodes && l'.nodes[x] == l.nodes[x] {
      var i: nat :| i < |order[r]| && order[r][i] == x;
      assert Spells(l, r, order[r]) && Slot(l, r, order[r], i);
    }
    SpellsKept(l, l', r, order[r]);
  }

  lemma {:induction false} PushBackExact<N, P>(l: Lists<N, P>, order: map<P, seq<N>>, n: N, p: P)
    requires Exact(l, order) && n in l.nodes && l.nodes[n].parent == None && p in order
    ensures Exact(PushBack(l, n, p, Last(order[p])), order[p := order[p] + [n]])
  {
    var q := order[p];
    var l', order' := PushBack(l, n, p, Last(q)), order[p := q + [n]];
    NotListed(l, order, n, p);
    assert Spells(l, p, q);
    DistinctAppend(q, n);
    assert q != [] ==> Slot(l, p, q, |q| - 1);
    forall r | r in order' ensures Spells(l', r, order'[r]) {
      NotListed(l, order, n, r);
      if r == p {
        forall i: nat | i < |order'[p]| ensures Slot(l', p, order'[p], i) {
          if i < |q| { assert Spells(l, p, q) && Slot(l, p, q, i); }
        }
      } else {
        OthersSpell(l, l', order, p, r, n);
      }
    }
    forall x | x in l'.nodes ensures Belongs(l', order', x) {
      if x != n { assert Belongs(l, order, x); }
    }
  }

  // ----- emptying a list, and dropping a node

  /** The first k nodes of p's list q are released; the root has moved on to the next one. */
  ghost function Cleared<N, P>(l: Lists<N, P>, p: P, q: seq<N>, k: nat): Lists<N, P>
    requires k <= |q|
  {
    Lists(map x | x in l.nodes :: if x in q[..k] then Node(None, None, None) else l.nodes[x],
          l.roots[p := First(q[k..])])
  }

  lemma {:induction false} ClearedStep<N, P>(l: Lists<N, P>, p: P, q: seq<N>, k: nat)
    requires Spells(l, p, q) && k < |q|
    ensures q[k] in l.nodes && Cleared(l, p, q, k).nodes[q[k]].next == First(q[k + 1..])
    ensures var c := Cleared(l, p, q, k);
      Cleared(l, p, q, k + 1)
      == Lists(c.nodes[q[k] := Node(None, None, None)], c.roots[p := First(q[k + 1..])])
  {
    DistinctAt(q);
    assert Slot(l, p, q, k);
    assert q[..k + 1] == q[..k] + [q[k]];
    var c, c' := Cleared(l, p, q, k), Cleared(l, p, q, k + 1);
    assert c'.nodes == c.nodes[q[k] := Node(None, None, None)];
    assert c'.roots == c.roots[p := First(q[k + 1..])];
  }

  lemma {:induction false} ClearedNone<N, P>(l: Lists<N, P>, p: P, q: seq<N>)
    requires Spells(l, p, q)
    ensures Cleared(l, p, q, 0) == l
  {
    assert Cleared(l, p, q, 0).nodes == l.nodes;
    assert Cleared(l, p, q, 0).roots == l.roots;
  }

  lemma {:induction false} ClearedExact<N, P>(l: Lists<N, P>, order: map<P, seq<N>>, p: P)
    requires Exact(l, order) && p in order
    ensures Exact(Cleared(l, p, order[p], |order[p]|), order[p := []])
  {
    var q := order[p];
    var l', order' := Cleared(l, p, q, |q|), order[p := []];
    assert q[..|q|] == q;
    forall x | x in q ensures x in l.nodes && l.nodes[x].parent == Some(p) {
      var i: nat :| i < |q| && q[i] == x;
      assert Spells(l, p, q) && Slot(l, p, q, i);
    }
    forall r | r in order' ensures Spells(l', r, order'[r]) {
      if r != p {
        forall x | x in order[r] ensures x in l.nodes && x in l'.nodes && l'.nodes[x] == l.nodes[x] {
          var i: nat :| i < |order[r]| && order[r][i] == x;
          assert Spells(l, r, order[r]) && Slot(l, r, order[r], i);
        }
        SpellsKept(l, l', r, order[r]);
      }
    }
    forall x | x in l'.nodes ensures Belongs(l', order', x) {
      assert Belongs(l, order, x);
    }
  }

  lemma {:induction false} ClearedParents<N, P>(l: Lists<N, P>, order: map<P, seq<N>>, p: P)
    requires Exact(l, order) && p in order
    ensures forall x :: x in l.nodes ==>
      Cleared(l, p, order[p], |order[p]|).nodes[x].parent
      == if l.nodes[x].parent == Some(p) then None else l.nodes[x].parent
  {
    var q := order[p];
    assert q[..|q|] == q;
    forall x | x in l.nodes
      ensures Cleared(l, p, q, |q|).nodes[x].parent == if l.nodes[x].parent == Some(p) then None else l.nodes[x].parent
    {
      ListedIffChild(l, order, p, x);
    }
  }

  lemma {:induction false} DropNodeExact<N, P>(l: Lists<N, P>, order: map<P, seq<N>>, n: N)
    requires Exact(l, order) && (n in l.nodes ==> l.nodes[n].parent == None)
    ensures Exact(l.(nodes := l.nodes - {n}), order)
  {
    var l' := l.(nodes := l.nodes - {n});
    forall r | r in order ensures Spells(l', r, order[r]) {
      assert Spells(l, r, order[r]);
      forall i: nat | i < |order[r]| ensures Slot(l', r, order[r], i) { assert Slot(l, r, order[r], i); }
    }
    forall x | x in l'.nodes ensures Belongs(l', order, x) { assert Belongs(l, order, x); }
  }

  lemma {:induction false} DropParentExact<N, P>(l: Lists<N, P>, order: map<P, seq<N>>, p: P)
    requires Exact(l, order) && p in order && order[p] == []
    ensures Exact(l.(roots := l.roots - {p}), order - {p})
  {
    var l' := l.(roots := l.roots - {p});
    forall r | r in order - {p} ensures Spells(l', r, order[r]) {
      assert Spells(l, r, order[r]);
      forall i: nat | i < |order[r]| ensures Slot(l', r, order[r], i) { assert Slot(l, r, order[r], i); }
    }
    forall x | x in l'.nodes ensures Belongs(l', order - {p}, x) { assert Belongs(l, order, x); }
  }

  /** A fresh node in no list may join. */
  lemma {:induction false} AddNodeExact<N, P>(l: Lists<N, P>, order: map<P, seq<N>>, n: N)
    requires Exact(l, order) && n !in l.nodes
    ensures Exact(l.(nodes := l.nodes[n := Node(None, None, None)]), order)
  {
    var l' := l.(nodes := l.nodes[n := Node(None, None, None)]);
    forall r | r in order ensures Spells(l', r, order[r]) {
      assert Spells(l, r, order[r]);
      forall i: nat | i < |order[r]| ensures Slot(l', r, order[r], i) { assert Slot(l, r, order[r], i); }
    }
    forall x | x in l'.nodes ensures Belongs(l', order, x) {
      if x != n { assert Belongs(l, order, x); }
    }
  }

  lemma {:induction false} AddParentExact<N, P>(l: Lists<N, P>, order: map<P, seq<N>>, p: P)
    requires Exact(l, order) && p !in order
    ensures Exact(l.(roots := l.roots[p := None]), order[p := []])
  {
    var l', order' := l.(roots := l.roots[p := None]), order[p := []];
    forall r | r in order' ensures Spells(l', r, order'[r]) {
      if r != p {
        assert Spells(l, r, order[r]);
        forall i: nat | i < |order[r]| ensures Slot(l', r, order[r], i) { assert Slot(l, r, order[r], i); }
      }
    }
    forall x | x in l'.nodes ensures Belongs(l', order', x) { assert Belongs(l, order, x); }
  }

  /** Every pointer of exact lists leads to a node or parent that is still there. */
  lemma {:induction false} NothingDangles<N, P>(l: Lists<N, P>, order: map<P, seq<N>>, n: N)
    requires Exact(l, order) && n in l.nodes
    ensures l.nodes[n].parent.Some? ==> l.nodes[n].parent.value in l.roots
    ensures l.nodes[n].prev.Some? ==> l.nodes[n].prev.value in l.nodes && l.nodes[l.nodes[n].prev.value].next == Some(n)
    ensures l.nodes[n].next.Some? ==> l.nodes[n].next.value in l.nodes && l.nodes[l.nodes[n].next.value].prev == Some(n)
  {
    assert Belongs(l, order, n);
    if l.nodes[n].parent.Some? {
      var p := l.nodes[n].parent.value;
      var q := order[p];
      var k: nat :| k < |q| && q[k] == n;
      assert Spells(l, p, q) && Slot(l, p, q, k) && (k > 0 ==> Slot(l, p, q, k - 1)) && (k + 1 < |q| ==> Slot(l, p, q, k + 1));
    }
  }

  /** The root of a list is one of the nodes. */
  lemma {:induction false} RootIsNode<N, P>(l: Lists<N, P>, order: map<P, seq<N>>, p: P)
    requires Exact(l, order) && p in l.roots
    ensures l.roots[p].Some? ==> l.roots[p].value in l.nodes
  {
    assert Spells(l, p, order[p]);
    if order[p] != [] { assert Slot(l, p, order[p], 0); }
  }

  /** A node is not its own neighbour, and its two neighbours differ. */
  lemma {:induction false} NotOwnNeighbour<N, P>(l: Lists<N, P>, order: map<P, seq<N>>, n: N)
    requires Exact(l, order) && n in l.nodes
    ensures l.nodes[n].prev != Some(n) && l.nodes[n].next != Some(n)
    ensures l.nodes[n].prev == l.nodes[n].next ==> l.nodes[n].prev == None
  {
    assert Belongs(l, order, n);
    if l.nodes[n].parent.Some? {
      var p := l.nodes[n].parent.value;
      var q := order[p];
      var k: nat :| k < |q| && q[k] == n;
      assert Spells(l, p, q);
      DistinctAt(q);
      assert Slot(l, p, q, k) && (k > 0 ==> Slot(l, p, q, k - 1)) && (k + 1 < |q| ==> Slot(l, p, q, k + 1));
    }
  }

  /** A root is a node with no predecessor, and not a node that is in no list. */
  lemma {:induction false} RootIsOther<N, P>(l: Lists<N, P>, order: map<P, seq<N>>, n: N, p: P)
    requires Exact(l, order) && n in l.nodes && l.nodes[n].parent == None && p in l.roots
    ensures l.roots[p].Some? ==> l.roots[p].value != n
    ensures l.roots[p].Some? ==> l.roots[p].value in l.nodes && l.nodes[l.roots[p].value].prev == None
  {
    assert Spells(l, p, order[p]);
    if order[p] != [] { assert Slot(l, p, order[p], 0); }
  }

  /** A node in no list differs from every listed node. */
  lemma {:induction false} ListedIsOther<N, P>(l: Lists<N, P>, order: map<P, seq<N>>, n: N, p: P)
    requires Exact(l, order) && n in l.nodes && l.nodes[n].parent == None && p in order
    ensures forall x :: x in order[p] ==> x in l.nodes && x != n
  {
    forall x | x in order[p] ensures x in l.nodes && x != n {
      var k: nat :| k < |order[p]| && order[p][k] == x;
      assert Spells(l, p, order[p]) && Slot(l, p, order[p], k);
    }
  }

  /** The lists hold every node under its own parent and no other. */
  lemma {:induction false} ListedIffChild<N, P>(l: Lists<N, P>, order: map<P, seq<N>>, p: P, n: N)
    requires Exact(l, order) && p in order
    ensures n in order[p] <==> n in l.nodes && l.nodes[n].parent == Some(p)
  {
    if n in order[p] {
      var k: nat :| k < |order[p]| && order[p][k] == n;
      assert Spells(l, p, order[p]) && Slot(l, p, order[p], k);
    }
    if n in l.nodes { assert Belongs(l, order, n); }
  }

  // ----- orders after a move, and after a node that is also a parent goes away

  /** The order after node n has left its old parent's list, if it had one. */
  ghost function Left<N, P>(order: map<P, seq<N>>, n: N, parent: Option<P>): map<P, seq<N>> {
    if parent.Some? && parent.value in order then order[parent.value := Without(order[parent.value], n)] else order
  }

  /** ... and has become the first of its new parent's list, if any. */
  ghost function JoinedFront<N, P>(order: map<P, seq<N>>, n: N, parent: Option<P>): map<P, seq<N>> {
    if parent.Some? && parent.value in order then order[parent.value := [n] + order[parent.value]] else order
  }

  ghost function JoinedBack<N, P>(order: map<P, seq<N>>, n: N, parent: Option<P>): map<P, seq<N>> {
    if parent.Some? && parent.value in order then order[parent.value := order[parent.value] + [n]] else order
  }

  ghost function Dropped<N>(l: Lists<N, N>, n: N): Lists<N, N> {
    Lists(l.nodes - {n}, l.roots - {n})
  }

  /** Everyone but n keeps its parent, unless that was n, and n is gone from every list. */
  ghost predicate Survives<N>(l: Lists<N, N>, order: map<N, seq<N>>, l': Lists<N, N>, order': map<N, seq<N>>, n: N) {
    && l'.nodes.Keys == l.nodes.Keys - {n} && order'.Keys == order.Keys - {n}
    && (forall x :: x in l'.nodes ==>
          l'.nodes[x].parent == if l.nodes[x].parent == Some(n) then None else l.nodes[x].parent)
    && (forall p :: p in order' ==> order'[p] == Without(order[p], n))
  }

  // ----- the same for any number of nodes

  /** The sequence without the members of gone. */
  ghost function Minus<T>(q: seq<T>, gone: set<T>): seq<T> {
    if q == [] then [] else if q[0] in gone then Minus(q[1..], gone) else [q[0]] + Minus(q[1..], gone)
  }

  /** Everyone not gone keeps its parent unless that is gone, and the others in its list in their order. */
  ghost predicate SurvivesAll<N>(l: Lists<N, N>, order: map<N, seq<N>>, l': Lists<N, N>, order': map<N, seq<N>>,
                                 gone: set<N>)
  {
    && l'.nodes.Keys == l.nodes.Keys - gone && order'.Keys == order.Keys - gone
    && (forall x :: x in l'.nodes ==>
          l'.nodes[x].parent == if Gone(l.nodes[x].parent, gone) then None else l.nodes[x].parent)
    && (forall p :: p in order' ==> order'[p] == Minus(order[p], gone))
  }

  predicate Gone<T>(x: Option<T>, gone: set<T>) {
    x.Some? && x.value in gone
  }

  lemma {:induction false} NobodyGone<N>(l: Lists<N, N>, order: map<N, seq<N>>)
    ensures SurvivesAll(l, order, l, order, {})
  {
    forall p | p in order ensures order[p] == Minus(order[p], {}) { MinusNone(order[p]); }
  }

  lemma {:induction false} MinusNone<T>(q: seq<T>)
    ensures Minus(q, {}) == q
  {
    if q == [] {
    } else {
      MinusNone(q[1..]);
    }
  }

  lemma {:induction false} MinusOther<T>(q: seq<T>, gone: set<T>, x: T)
    requires x !in q
    ensures Minus(q, gone + {x}) == Minus(q, gone)
  {
    if q == [] {
    } else {
      MinusOther(q[1..], gone, x);
    }
  }

  lemma {:induction false} MinusOneMore<T>(q: seq<T>, gone: set<T>, x: T)
    requires Distinct(q)
    ensures Minus(q, gone + {x}) == Without(Minus(q, gone), x)
  {
    if q == [] {
    } else {
      MinusOneMore(q[1..], gone, x);
      if q[0] == x { MinusOther(q[1..], gone, x); }
      if q[0] == x && x in gone { MinusHas(q[1..], gone, x); }
    }
  }

  lemma {:induction false} MinusHas<T>(q: seq<T>, gone: set<T>, x: T)
    ensures x in Minus(q, gone) <==> x in q && x !in gone
  {
    if q == [] {
    } else {
      MinusHas(q[1..], gone, x);
    }
  }

  lemma {:induction false} OneMoreGone<N>(l0: Lists<N, N>, order0: map<N, seq<N>>, l: Lists<N, N>, order: map<N, seq<N>>,
                                          l': Lists<N, N>, order': map<N, seq<N>>, gone: set<N>, n: N)
    requires Exact(l0, order0) && SurvivesAll(l0, order0, l, order, gone) && Survives(l, order, l', order', n)
    ensures SurvivesAll(l0, order0, l', order', gone + {n})
  {
    forall p | p in order' ensures order'[p] == Minus(order0[p], gone + {n}) {
      assert Spells(l0, p, order0[p]);
      MinusOneMore(order0[p], gone, n);
    }
  }

  /** n lets its children go and leaves its own list. */
  ghost function Released<N>(l: Lists<N, N>, order: map<N, seq<N>>, n: N): Lists<N, N>
    requires Exact(l, order) && n in l.nodes && n in order
  {
    Moved(Cleared(l, n, order[n], |order[n]|), n, None)
  }

  ghost function ReleasedOrder<N>(l: Lists<N, N>, order: map<N, seq<N>>, n: N): map<N, seq<N>>
    requires Exact(l, order) && n in l.nodes && n in order
  {
    Left(order[n := []], n, Cleared(l, n, order[n], |order[n]|).nodes[n].parent)
  }

  lemma {:induction false} ReleasedExact<N>(l: Lists<N, N>, order: map<N, seq<N>>, n: N)
    requires Exact(l, order) && n in l.nodes && n in order
    ensures Exact(Released(l, order, n), ReleasedOrder(l, order, n))
    ensures n in Released(l, order, n).nodes && Released(l, order, n).nodes[n].parent == None
    ensures n in ReleasedOrder(l, order, n) && ReleasedOrder(l, order, n)[n] == []
    ensures forall p :: p in order && p != n ==>
      p in ReleasedOrder(l, order, n) && ReleasedOrder(l, order, n)[p] == Without(order[p], n)
  {
    var l1, order1 := Cleared(l, n, order[n], |order[n]|), order[n := []];
    ClearedExact(l, order, n);
    var parent := l1.nodes[n].parent;
    if parent.Some? {
      NothingDangles(l1, order1, n);
      UnlinkExact(l1, order1, n);
    }
    forall p | p in order && p != n ensures ReleasedOrder(l, order, n)[p] == Without(order[p], n) {
      if parent != Some(p) { NotListed(l1, order1, n, p); }
    }
  }

  lemma {:induction false} ReleasedParents<N>(l: Lists<N, N>, order: map<N, seq<N>>, n: N)
    requires Exact(l, order) && n in l.nodes && n in order
    ensures Released(l, order, n).nodes.Keys == l.nodes.Keys
    ensures forall x :: x in l.nodes && x != n ==>
      Released(l, order, n).nodes[x].parent == if l.nodes[x].parent == Some(n) then None else l.nodes[x].parent
  {
    var l1 := Cleared(l, n, order[n], |order[n]|);
    ClearedExact(l, order, n);
    ClearedParents(l, order, n);
    NothingDangles(l1, order[n := []], n);
    MovedParents(l1, n, None);
  }

  /** After n has been released and dropped the other lists are exact. */
  lemma {:induction false} DestroyExact<N>(l: Lists<N, N>, order: map<N, seq<N>>, n: N)
    requires Exact(l, order) && n in l.nodes && n in order
    ensures Exact(Dropped(Released(l, order, n), n), ReleasedOrder(l, order, n) - {n})
    ensures Survives(l, order, Dropped(Released(l, order, n), n), ReleasedOrder(l, order, n) - {n}, n)
  {
    var l2, order2 := Released(l, order, n), ReleasedOrder(l, order, n);
    ReleasedExact(l, order, n);
    ReleasedParents(l, order, n);
    DropNodeExact(l2, order2, n);
    DropParentExact(l2.(nodes := l2.nodes - {n}), order2, n);
  }
}
