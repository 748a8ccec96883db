/** Two calls of Prune in a row on links of two meshes: the second call loses a link that is connected. */
module MeshRuns {
  import opened Options
  import opened Sequences
  import opened IntrusiveLists
  import opened MeshComponent
  import opened MeshLinks

  // ----- links in no list

  ghost predicate Bare(x: MeshLink)
    reads x
  {
    && x.src == null && x.dest == null && x.asSrcRoot == null && x.asDestRoot == null
    && x.srcPrev == null && x.srcNext == null && x.destPrev == null && x.destNext == null
    && x.meshPrev == null && x.meshNext == null && x.owner == null && x.pruneId == 0
  }

  /** All lists are empty. */
  ghost function NoLists(s: set<MeshLink>, ms: set<Mesh>): Orders {
    Orders(map x | x in s :: [], map x | x in s :: [], map m | m in ms :: [])
  }

  lemma {:induction false} EmptyListsExact<N, P>(l: Lists<N, P>, order: map<P, seq<N>>)
    requires l.roots.Keys == order.Keys && (forall p :: p in order ==> order[p] == [] && l.roots[p] == None)
    requires forall n :: n in l.nodes ==> l.nodes[n] == Node(None, None, None)
    ensures Exact(l, order)
  {
    forall p | p in order ensures Spells(l, p, order[p]) {}
    forall n | n in l.nodes ensures Belongs(l, order, n) {}
  }

  lemma {:induction false} BareIsValid(s: set<MeshLink>, ms: set<Mesh>)
    requires (forall x :: x in s ==> Bare(x)) && (forall m :: m in ms ==> m.root == null)
    ensures Valid(s, ms, NoLists(s, ms))
  {
    forall x | x in s ensures Bare(x) {}
    EmptyListsExact(SrcView(s), NoLists(s, ms).src);
    EmptyListsExact(DestView(s), NoLists(s, ms).dest);
    EmptyListsExact(OwnView(s, ms), NoLists(s, ms).own);
  }

  /** A node in nobody's list has no parent. */
  lemma {:induction false} Unlisted<N, P>(l: Lists<N, P>, order: map<P, seq<N>>, n: N)
    requires Exact(l, order) && n in l.nodes && forall p :: p in order ==> n !in order[p]
    ensures l.nodes[n].parent == None
  {
    assert Belongs(l, order, n);
  }

  // ----- three links in a row

  /** f has the source a and the destination b, which have none. */
  ghost predicate InRow(sv: Lists<MeshLink, MeshLink>, dv: Lists<MeshLink, MeshLink>, a: MeshLink, f: MeshLink, b: MeshLink) {
    match (sv, dv)
    case (Lists(sn, _), Lists(dn, _)) =>
      && a != f && f != b && a != b && sn.Keys == dn.Keys == {a, f, b}
      && sn[a].parent == None && sn[f].parent == Some(a) && sn[b].parent == None
      && dn[a].parent == None && dn[f].parent == Some(b) && dn[b].parent == None
  }

  lemma {:induction false} EdgesOfRow(sv: Lists<MeshLink, MeshLink>, dv: Lists<MeshLink, MeshLink>, a: MeshLink, f: MeshLink, b: MeshLink)
    requires InRow(sv, dv, a, f, b)
    ensures Edges(sv, dv) == map[a := {f}, f := {a, b}, b := {f}]
  {
    var e := Edges(sv, dv);
    assert e[a] == {f} && e[f] == {a, b} && e[b] == {f};
  }

  /** Without marks all three are reached from a, and with f marked only a. */
  lemma {:induction false} ReachedInRow(sv: Lists<MeshLink, MeshLink>, dv: Lists<MeshLink, MeshLink>, a: MeshLink, f: MeshLink, b: MeshLink)
    requires InRow(sv, dv, a, f, b)
    ensures Component(Edges(sv, dv), a) == {a, f, b}
    ensures Component(Avoiding(Edges(sv, dv), {}), a) == {a, f, b} && Component(Avoiding(Edges(sv, dv), {f}), a) == {a}
  {
    var e := Edges(sv, dv);
    EdgesOfRow(sv, dv, a, f, b);
    LeftoverCutsOff(e, a, f, b);
    assert Closed(e, e.Keys);
    AvoidingElsewhere(e, a, {});
  }

  lemma {:induction false} RowStays(sv: Lists<MeshLink, MeshLink>, dv: Lists<MeshLink, MeshLink>, src: Order, dest: Order,
                                    sv': Lists<MeshLink, MeshLink>, dv': Lists<MeshLink, MeshLink>, src': Order, dest': Order,
                                    a: MeshLink, f: MeshLink, b: MeshLink)
    requires InRow(sv, dv, a, f, b) && SurvivesAll(sv, src, sv', src', {}) && SurvivesAll(dv, dest, dv', dest', {})
    ensures InRow(sv', dv', a, f, b) && src' == src && dest' == dest
  {
    forall p | p in src ensures src'[p] == src[p] { MinusNone(src[p]); }
    forall p | p in dest ensures dest'[p] == dest[p] { MinusNone(dest[p]); }
  }

  // ----- making them

  /** x, which is in no mesh, becomes the last link of m. */
  ghost predicate Joins(own: map<Mesh, seq<MeshLink>>, x: MeshLink, m: Mesh, own': map<Mesh, seq<MeshLink>>) {
    && m in own && (forall p :: p in own ==> x !in own[p]) && own' == own[m := own[m] + [x]]
  }

  lemma {:induction false} AllJoin(m: Mesh, m2: Mesh, a: MeshLink, f: MeshLink, b: MeshLink)
    requires m != m2 && a != f && f != b && a != b
    ensures Joins(map[m := [], m2 := []], a, m, map[m := [a], m2 := []])
    ensures Joins(map[m := [a], m2 := []], b, m, map[m := [a, b], m2 := []])
    ensures Joins(map[m := [a, b], m2 := []], f, m2, map[m := [a, b], m2 := [f]])
  {
    var none: seq<MeshLink> := [];
    assert none + [a] == [a] && [a] + [b] == [a, b] && none + [f] == [f];
  }

  method Own(x: MeshLink, m: Mesh, ghost s: set<MeshLink>, ghost ms: set<Mesh>, ghost o: Orders,
             ghost own: map<Mesh, seq<MeshLink>>)
    returns (ghost o': Orders)
    requires Valid(s, ms, o) && x in s && m in ms && Joins(o.own, x, m, own)
    modifies s`owner, s`meshPrev, s`meshNext, ms`root
    ensures Valid(s, ms, o') && o'.own == own
    ensures SrcView(s) == old(SrcView(s)) && DestView(s) == old(DestView(s))
  {
    Unlisted(OwnView(s, ms), o.own, x);
    ghost var own' := x.SetOwner(m, s, ms, o.own);
    o' := o.(own := own');
  }

  method TakeSource(x: MeshLink, y: MeshLink, ghost s: set<MeshLink>, ghost ms: set<Mesh>, ghost o: Orders)
    returns (ghost o': Orders)
    requires Valid(s, ms, o) && x in s && y in s
    modifies s`src, s`srcPrev, s`srcNext, s`asSrcRoot
    ensures Valid(s, ms, o') && o'.dest == o.dest && o'.own == o.own
    ensures SrcView(s) == Moved(old(SrcView(s)), x, Some(y)) && DestView(s) == old(DestView(s))
  {
    ghost var order := x.SetSource(y, s, ms, o.src);
    o' := o.(src := order);
  }

  method TakeDest(x: MeshLink, y: MeshLink, ghost s: set<MeshLink>, ghost ms: set<Mesh>, ghost o: Orders)
    returns (ghost o': Orders)
    requires Valid(s, ms, o) && x in s && y in s
    modifies s`dest, s`destPrev, s`destNext, s`asDestRoot
    ensures Valid(s, ms, o') && o'.src == o.src && o'.own == o.own
    ensures DestView(s) == Moved(old(DestView(s)), x, Some(y)) && SrcView(s) == old(SrcView(s))
  {
    ghost var order := x.SetDest(y, s, ms, o.dest);
    o' := o.(dest := order);
  }

  lemma {:induction false} BareParents(s: set<MeshLink>)
    requires forall x :: x in s ==> Bare(x)
    ensures NoParents(SrcView(s)) && NoParents(DestView(s))
  {
    forall x | x in s ensures Bare(x) {}
  }

  method LinkUp(m: Mesh, m2: Mesh, a: MeshLink, f: MeshLink, b: MeshLink, ghost s: set<MeshLink>, ghost ms: set<Mesh>,
                ghost o: Orders)
    returns (ghost o': Orders)
    requires m != m2 && a != f && f != b && a != b && s == {a, f, b} && ms == {m, m2}
    requires Valid(s, ms, o) && o.own == map[m := [], m2 := []] && NoParents(SrcView(s)) && NoParents(DestView(s))
    modifies s`owner, s`meshPrev, s`meshNext, ms`root
    modifies s`src, s`srcPrev, s`srcNext, s`asSrcRoot, s`dest, s`destPrev, s`destNext, s`asDestRoot
    ensures Valid(s, ms, o') && o'.own == map[m := [a, b], m2 := [f]] && InRow(SrcView(s), DestView(s), a, f, b)
    ensures f.pruneId == old(f.pruneId)
  {
    o' := LinkAll(m, m2, a, f, b, s, ms, o);
  }

  method LinkAll(m: Mesh, m2: Mesh, a: MeshLink, f: MeshLink, b: MeshLink, ghost s: set<MeshLink>, ghost ms: set<Mesh>,
                ghost o: Orders)
    returns (ghost o': Orders)
    requires m != m2 && a != f && f != b && a != b && s == {a, f, b} && ms == {m, m2} && a in s && f in s && b in s
    requires Valid(s, ms, o) && o.own == map[m := [], m2 := []] && NoParents(SrcView(s)) && NoParents(DestView(s))
    modifies s`owner, s`meshPrev, s`meshNext, ms`root
    modifies s`src, s`srcPrev, s`srcNext, s`asSrcRoot, s`dest, s`destPrev, s`destNext, s`asDestRoot
    ensures Valid(s, ms, o') && o'.own == map[m := [a, b], m2 := [f]] && InRow(SrcView(s), DestView(s), a, f, b)
  {
    o' := OwnAll(m, m2, a, f, b, s, ms, o);
    o' := TakeEnds(a, f, b, s, ms, o');
  }

  ghost predicate NoParents(l: Lists<MeshLink, MeshLink>) {
    forall x :: x in l.nodes ==> l.nodes[x].parent == None
  }

  method OwnAll(m: Mesh, m2: Mesh, a: MeshLink, f: MeshLink, b: MeshLink, ghost s: set<MeshLink>, ghost ms: set<Mesh>,
                ghost o: Orders)
    returns (ghost o': Orders)
    requires m != m2 && a != f && f != b && a != b && s == {a, f, b} && ms == {m, m2} && Valid(s, ms, o)
    requires o.own == map[m := [], m2 := []]
    modifies s`owner, s`meshPrev, s`meshNext, ms`root
    ensures Valid(s, ms, o') && o'.own == map[m := [a, b], m2 := [f]]
    ensures SrcView(s) == old(SrcView(s)) && DestView(s) == old(DestView(s))
  {
    AllJoin(m, m2, a, f, b);
    o' := OwnTwo(m, a, b, s, ms, o, map[m := [a], m2 := []], map[m := [a, b], m2 := []]);
    o' := Own(f, m2, s, ms, o', map[m := [a, b], m2 := [f]]);
  }

  method OwnTwo(m: Mesh, a: MeshLink, b: MeshLink, ghost s: set<MeshLink>, ghost ms: set<Mesh>, ghost o: Orders,
                ghost own1: map<Mesh, seq<MeshLink>>, ghost own2: map<Mesh, seq<MeshLink>>)
    returns (ghost o': Orders)
    requires m in ms && a in s && b in s && Valid(s, ms, o) && Joins(o.own, a, m, own1) && Joins(own1, b, m, own2)
    modifies s`owner, s`meshPrev, s`meshNext, ms`root
    ensures Valid(s, ms, o') && o'.own == own2
    ensures SrcView(s) == old(SrcView(s)) && DestView(s) == old(DestView(s))
  {
    o' := Own(a, m, s, ms, o, own1);
    o' := Own(b, m, s, ms, o', own2);
  }

  method TakeEnds(a: MeshLink, f: MeshLink, b: MeshLink, ghost s: set<MeshLink>, ghost ms: set<Mesh>, ghost o: Orders)
    returns (ghost o': Orders)
    requires Valid(s, ms, o) && a != f && f != b && a != b && s == {a, f, b}
    requires a in s && f in s && b in s && NoParents(SrcView(s)) && NoParents(DestView(s))
    modifies s`src, s`srcPrev, s`srcNext, s`asSrcRoot, s`dest, s`destPrev, s`destNext, s`asDestRoot
    ensures Valid(s, ms, o') && o'.own == o.own && InRow(SrcView(s), DestView(s), a, f, b)
  {
    ghost var sv, dv := RowToBe(a, f, b, s);
    o' := TakeBoth(a, f, b, s, ms, o, sv, dv);
  }

  method TakeBoth(a: MeshLink, f: MeshLink, b: MeshLink, ghost s: set<MeshLink>, ghost ms: set<Mesh>, ghost o: Orders,
                  ghost sv: Lists<MeshLink, MeshLink>, ghost dv: Lists<MeshLink, MeshLink>)
    returns (ghost o': Orders)
    requires Valid(s, ms, o) && a in s && f in s && b in s
    requires sv == Moved(SrcView(s), f, Some(a)) && dv == Moved(DestView(s), f, Some(b))
    modifies s`src, s`srcPrev, s`srcNext, s`asSrcRoot, s`dest, s`destPrev, s`destNext, s`asDestRoot
    ensures Valid(s, ms, o') && o'.own == o.own
    ensures SrcView(s) == sv && DestView(s) == dv
  {
    o' := TakeSource(f, a, s, ms, o);
    o' := TakeDest(f, b, s, ms, o');
  }

  lemma {:induction false} NowInRow(sv: Lists<MeshLink, MeshLink>, dv: Lists<MeshLink, MeshLink>, a: MeshLink, f: MeshLink, b: MeshLink)
    returns (sv': Lists<MeshLink, MeshLink>, dv': Lists<MeshLink, MeshLink>)
    requires a != f && f != b && a != b
    requires sv.nodes.Keys == dv.nodes.Keys == {a, f, b} && a in sv.roots && b in dv.roots && NoParents(sv) && NoParents(dv)
    ensures f in sv.nodes && f in dv.nodes && sv' == Moved(sv, f, Some(a)) && dv' == Moved(dv, f, Some(b))
    ensures InRow(sv', dv', a, f, b)
  {
    sv', dv' := Moved(sv, f, Some(a)), Moved(dv, f, Some(b));
    MovedParents(sv, f, Some(a));
    MovedParents(dv, f, Some(b));
  }

  lemma {:induction false} RowToBe(a: MeshLink, f: MeshLink, b: MeshLink, s: set<MeshLink>)
    returns (sv: Lists<MeshLink, MeshLink>, dv: Lists<MeshLink, MeshLink>)
    requires a != f && f != b && a != b && s == {a, f, b} && NoParents(SrcView(s)) && NoParents(DestView(s))
    ensures f in SrcView(s).nodes && a in SrcView(s).roots && sv == Moved(SrcView(s), f, Some(a))
    ensures f in DestView(s).nodes && b in DestView(s).roots && dv == Moved(DestView(s), f, Some(b))
    ensures InRow(sv, dv, a, f, b)
  {
    sv, dv := NowInRow(SrcView(s), DestView(s), a, f, b);
  }

  // ----- pruning them

  method PruneKnown(m: Mesh, link: MeshLink, ghost s: set<MeshLink>, ghost ms: set<Mesh>, ghost o: Orders,
                    ghost marked: set<MeshLink>, ghost gone: set<MeshLink>, ghost own: map<Mesh, seq<MeshLink>>)
    returns (ghost s': set<MeshLink>, ghost o': Orders)
    requires m in ms && Valid(s, ms, o) && link in s && link.owner == m
    requires marked == Leftover(s, o.own[m]) + Reached(s, link, Leftover(s, o.own[m]))
    requires gone == Elements(o.own[m]) - Reached(s, link, Leftover(s, o.own[m]))
    requires own == o.own[m := Kept(o.own[m], Reached(s, link, Leftover(s, o.own[m])))]
    modifies s, ms`root
    ensures Valid(s', ms, o') && s' == s - gone && o'.own == own && MarkedBy(s', 1) == marked
    ensures SurvivesAll(old(SrcView(s)), o.src, SrcView(s'), o'.src, gone)
    ensures SurvivesAll(old(DestView(s)), o.dest, DestView(s'), o'.dest, gone)
  {
    s', o' := m.Prune(link, s, ms, o);
  }

  /** All three are reached, and none goes; afterwards all have the id 1. */
  method PruneFirst(m: Mesh, m2: Mesh, a: MeshLink, f: MeshLink, b: MeshLink, ghost s: set<MeshLink>, ghost ms: set<Mesh>,
                    ghost o: Orders)
    returns (ghost s': set<MeshLink>, ghost o': Orders)
    requires m in ms && m2 in ms && m != m2 && s == {a, f, b} && Valid(s, ms, o) && o.own == map[m := [a, b], m2 := [f]]
    requires InRow(SrcView(s), DestView(s), a, f, b) && f.pruneId != 1
    modifies s, ms`root
    ensures s' == s && Valid(s, ms, o') && o' == o && InRow(SrcView(s), DestView(s), a, f, b) && MarkedBy(s, 1) == {a, f, b}
  {
    ghost var sv, dv := SrcView(s), DestView(s);
    FirstTime(m, m2, a, f, b, s, ms, o);
    s', o' := PruneKnown(m, a, s, ms, o, {a, f, b}, {}, o.own);
    RowStays(sv, dv, o.src, o.dest, SrcView(s'), DestView(s'), o'.src, o'.dest, a, f, b);
  }

  lemma {:induction false} FirstTime(m: Mesh, m2: Mesh, a: MeshLink, f: MeshLink, b: MeshLink, s: set<MeshLink>,
                                     ms: set<Mesh>, o: Orders)
    requires m in ms && m != m2 && s == {a, f, b} && Valid(s, ms, o) && o.own == map[m := [a, b], m2 := [f]]
    requires InRow(SrcView(s), DestView(s), a, f, b) && f.pruneId != 1
    ensures a.owner == m && Leftover(s, o.own[m]) == {} && Reached(s, a, {}) == {a, f, b}
    ensures Elements(o.own[m]) - {a, f, b} == {} && o.own[m := Kept(o.own[m], {a, f, b})] == o.own
  {
    OwnerIs(m, s, ms, o, a);
    ReachedInRow(SrcView(s), DestView(s), a, f, b);
    AllOfMeshes(m, m2, a, f, b, o.own);
    NoneLeft(a, f, b, s);
  }

  lemma {:induction false} NoneLeft(a: MeshLink, f: MeshLink, b: MeshLink, s: set<MeshLink>)
    requires s == {a, f, b} && f.pruneId != 1
    ensures Leftover(s, [a, b]) == {}
  {
    forall x | x in s && x.pruneId == 1 ensures x in [a, b] {}
  }

  /** f is passed by, and b goes. */
  method PruneAgain(m: Mesh, m2: Mesh, a: MeshLink, f: MeshLink, b: MeshLink, ghost s: set<MeshLink>, ghost ms: set<Mesh>,
                    ghost o: Orders)
    returns (ghost s': set<MeshLink>, ghost o': Orders)
    requires m in ms && m2 in ms && m != m2 && s == {a, f, b} && Valid(s, ms, o) && o.own == map[m := [a, b], m2 := [f]]
    requires InRow(SrcView(s), DestView(s), a, f, b) && MarkedBy(s, 1) == {a, f, b}
    modifies s, ms`root
    ensures s' == {a, f} && Valid(s', ms, o') && o'.own == map[m := [a], m2 := [f]]
  {
    SecondTime(m, m2, a, f, b, s, ms, o);
    s', o' := PruneKnown(m, a, s, ms, o, {f, a}, {b}, map[m := [a], m2 := [f]]);
  }

  lemma {:induction false} SecondTime(m: Mesh, m2: Mesh, a: MeshLink, f: MeshLink, b: MeshLink, s: set<MeshLink>,
                                      ms: set<Mesh>, o: Orders)
    requires m in ms && m != m2 && s == {a, f, b} && Valid(s, ms, o) && o.own == map[m := [a, b], m2 := [f]]
    requires InRow(SrcView(s), DestView(s), a, f, b) && MarkedBy(s, 1) == {a, f, b}
    ensures a.owner == m && Leftover(s, o.own[m]) == {f} && Reached(s, a, {f}) == {a} && s - {b} == {a, f}
    ensures Elements(o.own[m]) - {a} == {b} && o.own[m := Kept(o.own[m], {a})] == map[m := [a], m2 := [f]]
  {
    OwnerIs(m, s, ms, o, a);
    ReachedInRow(SrcView(s), DestView(s), a, f, b);
    AllOfMeshes(m, m2, a, f, b, o.own);
  }

  lemma {:induction false} OwnerIs(m: Mesh, s: set<MeshLink>, ms: set<Mesh>, o: Orders, x: MeshLink)
    requires m in ms && Valid(s, ms, o) && x in o.own[m]
    ensures x in s && x.owner == m
  {
    ChainOf(m, s, ms, o.own);
  }

  lemma {:induction false} AllOfMesh(a: MeshLink, f: MeshLink, b: MeshLink)
    requires a != f && f != b && a != b
    ensures Kept([a, b], {a, f, b}) == [a, b] && Kept([a, b], {a}) == [a] && Elements([a, b]) == {a, b}
  {
    assert [a, b][..1] == [a] && [a][..0] == [];
    assert Kept([a], {a, f, b}) == [a] && Kept([a], {a}) == [a];
  }

  lemma {:induction false} AllOfMeshes(m: Mesh, m2: Mesh, a: MeshLink, f: MeshLink, b: MeshLink, own: map<Mesh, seq<MeshLink>>)
    requires m != m2 && a != f && f != b && a != b && own == map[m := [a, b], m2 := [f]]
    ensures Elements(own[m]) - {a, f, b} == {} && own[m := Kept(own[m], {a, f, b})] == own
    ensures {a, f, b} - Elements(own[m]) == {f} && Elements(own[m]) - {a} == {b} && {a, f, b} - {b} == {a, f}
    ensures own[m := Kept(own[m], {a})] == map[m := [a], m2 := [f]]
  {
    AllOfMesh(a, f, b);
  }

  /**
   * Pruning twice from a: the first time everything is kept, the second time b goes, although
   * nothing has changed and it is still connected to a through f.
   */
  method PruneTwice()
    returns (m: Mesh, m2: Mesh, a: MeshLink, f: MeshLink, b: MeshLink, ghost s1: set<MeshLink>, ghost o1: Orders,
             ghost sv: Lists<MeshLink, MeshLink>, ghost dv: Lists<MeshLink, MeshLink>, ghost s2: set<MeshLink>, ghost o2: Orders)
    ensures s1 == {a, f, b} && o1.own == map[m := [a, b], m2 := [f]] && Exact(sv, o1.src) && Exact(dv, o1.dest)
    ensures InRow(sv, dv, a, f, b) && Component(Edges(sv, dv), a) == {a, f, b}
    ensures s2 == {a, f} && o2.own == map[m := [a], m2 := [f]] && Valid(s2, {m, m2}, o2)
  {
    m := new Mesh();
    m2 := new Mesh();
    a := new MeshLink();
    f := new MeshLink();
    b := new MeshLink();
    s1 := {a, f, b};
    o1 := Prepare(m, m2, a, f, b, s1, {m, m2});
    s1, o1 := PruneFirst(m, m2, a, f, b, s1, {m, m2}, o1);
    sv, dv := SrcView(s1), DestView(s1);
    ReachedInRow(sv, dv, a, f, b);
    s2, o2 := PruneAgain(m, m2, a, f, b, s1, {m, m2}, o1);
  }

  method Prepare(m: Mesh, m2: Mesh, a: MeshLink, f: MeshLink, b: MeshLink, ghost s: set<MeshLink>, ghost ms: set<Mesh>)
    returns (ghost o: Orders)
    requires m != m2 && a != f && f != b && a != b && s == {a, f, b} && ms == {m, m2} && m.root == null && m2.root == null
    requires forall x :: x in s ==> Bare(x)
    modifies s, ms`root
    ensures Valid(s, ms, o) && o.own == map[m := [a, b], m2 := [f]] && InRow(SrcView(s), DestView(s), a, f, b)
    ensures f.pruneId == 0
  {
    BareIsValid(s, ms);
    BareParents(s);
    o := NoLists(s, ms);
    o := LinkUp(m, m2, a, f, b, s, ms, o);
  }
}
