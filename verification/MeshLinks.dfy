/**
 * Links of a mesh and the meshes owning them, on the heap. A link sits in up to three
 * intrusive lists: by source, by destination and by owner. The ghost parameter s is the
 * set of live links, ms the set of meshes; the views read the pointers of one kind of
 * list, and the ghost maps give the order each list spells out.
 */
module MeshLinks {
  import opened Options
  import opened IntrusiveLists
  import opened Sequences
  import opened MeshComponent
  import opened MeshText
  import opened MeshLabels

  class Mesh {
    var root: MeshLink?
    var autoClear: int

    constructor ()
      ensures root == null && autoClear == -1
    {
      root, autoClear := null, -1;
    }

    method PutRoot(x: MeshLink?, ghost s: set<MeshLink>, ghost ms: set<Mesh>, ghost l: Lists<MeshLink, Mesh>)
      requires this in ms && ShowsOwn(l, s, ms)
      modifies this`root
      ensures ShowsOwn(l.(roots := l.roots[this := Opt(x)]), s, ms)
    {
      root := x;
    }

    // ----- labels

    /** The first link of that label, if there is one. */
    method FindByLabel(name: string, ghost s: set<MeshLink>, ghost q: seq<MeshLink>) returns (cursor: MeshLink?)
      requires Chain(this, s, q)
      ensures cursor == null ==> forall x :: x in q ==> x.name != name
      ensures cursor != null ==> exists k: nat :: k < |q| && q[k] == cursor && cursor.name == name && forall j :: 0 <= j < k ==> q[j].name != name
    {
      ghost var k := 0;
      var found := false;
      cursor := root;
      while cursor != null && !found
        invariant 0 <= k <= |q| && cursor == At(q, k) && (found ==> cursor != null && cursor.name == name)
        invariant forall j :: 0 <= j < k ==> q[j].name != name
        decreases |q| - k, !found
      {
        assert OwnStep(s, q, k);
        if name == cursor.name {
          found := true;
        } else {
          cursor := cursor.meshNext;
          k := k + 1;
        }
      }
    }

    /** Makes a link of that label that is in no list yet. */
    method NewLink(name: string, ghost s: set<MeshLink>, ghost o: Orders, ghost m: Labels) returns (link: MeshLink)
      requires Holds(this, m, s, o) && name !in m && name != NULL_NAME
      ensures fresh(link) && link.name == name && link !in s
      ensures forall x :: x in s + {link} && x !in s ==> fresh(x)
      ensures Unowned(this, m[name := (NULL_NAME, NULL_NAME)], s + {link}, WithLists(o, link), link)
      ensures NamesOf(s + {link})[link] == name && KeepsNames(old(NamesOf(s)), NamesOf(s + {link}))
    {
      link := BareLink(name, s, o, m);
      UnownedLink(this, m, s, o, link, name);
      NamesJoined(s, link);
      MoreNames(NamesOf(s), link, name);
    }

    method BareLink(name: string, ghost s: set<MeshLink>, ghost o: Orders, ghost m: Labels) returns (link: MeshLink)
      requires Holds(this, m, s, o)
      ensures forall x :: x in s + {link} && x !in s ==> fresh(x)
      ensures fresh(link) && link.name == name && link !in s && Holds(this, m, s, o) && NamesOf(s) == old(NamesOf(s))
      ensures link.src == null && link.dest == null && link.asSrcRoot == null && link.asDestRoot == null
      ensures link.srcPrev == null && link.srcNext == null && link.destPrev == null && link.destNext == null
      ensures link.meshPrev == null && link.meshNext == null && link.owner == null
    {
      link := new MeshLink();
      link.name := name;
      SrcKept(s);
      DestKept(s);
      OwnKept((s, {this}));
      NamesKept(s);
    }

    /** Makes a link of that label, the last of this mesh. */
    method CreateLabelled(name: string, ghost s: set<MeshLink>, ghost o: Orders, ghost m: Labels)
      returns (link: MeshLink, ghost o': Orders)
      requires Holds(this, m, s, o) && name !in m && name != NULL_NAME
      modifies this, s
      ensures autoClear == old(autoClear) && link !in s
      ensures forall x :: x in s + {link} && x !in s ==> fresh(x)
      ensures NamesOf(s + {link})[link] == name && KeepsNames(old(NamesOf(s)), NamesOf(s + {link}))
      ensures Holds(this, m[name := (NULL_NAME, NULL_NAME)], s + {link}, o')
    {
      link := NewLink(name, s, o, m);
      o' := Adopt(link, s + {link}, WithLists(o, link), m[name := (NULL_NAME, NULL_NAME)]);
    }

    method Adopt(link: MeshLink, ghost s: set<MeshLink>, ghost o: Orders, ghost m: Labels) returns (ghost o': Orders)
      requires Unowned(this, m, s, o, link)
      modifies s`owner, s`meshPrev, s`meshNext, this`root
      ensures autoClear == old(autoClear) && NamesOf(s) == old(NamesOf(s))
      ensures Holds(this, m, s, o')
    {
      OwnedNow(this, o.own, s, link);
      o' := GiveOwner(link, s, o);
    }

    method GiveOwner(link: MeshLink, ghost s: set<MeshLink>, ghost o: Orders) returns (ghost o': Orders)
      requires Valid(s, {this}, o) && link in s
      modifies s`owner, s`meshPrev, s`meshNext, this`root
      ensures Valid(s, {this}, o') && o'.src == o.src && o'.dest == o.dest && autoClear == old(autoClear)
      ensures o'.own == JoinedBack(Left(o.own, link, old(OwnView(s, {this})).nodes[link].parent), link, Some(this))
      ensures SrcView(s) == old(SrcView(s)) && DestView(s) == old(DestView(s)) && NamesOf(s) == old(NamesOf(s))
    {
      ghost var own' := link.SetOwner(this, s, {this}, o.own);
      o' := o.(own := own');
    }

    method MissingLink(name: string, ghost s: set<MeshLink>, ghost o: Orders, ghost m: Labels)
      returns (link: MeshLink, ghost s': set<MeshLink>, ghost o': Orders)
      requires Holds(this, m, s, o) && name !in m && name != NULL_NAME
      modifies this, s
      ensures autoClear == old(autoClear) && KeepsNames(old(NamesOf(s)), NamesOf(s'))
      ensures Holds(this, WithLink(m, name), s', o') && s <= s'
      ensures forall x :: x in s' && x !in s ==> fresh(x)
      ensures link in s' && NamesOf(s')[link] == name
    {
      link, o' := CreateLabelled(name, s, o, m);
      s' := s + {link};
    }

    method Lookup(name: string, ghost s: set<MeshLink>, ghost o: Orders, ghost m: Labels) returns (link: MeshLink?)
      requires Holds(this, m, s, o)
      ensures Holds(this, m, s, o) && NamesOf(s) == old(NamesOf(s)) && (link != null <==> name in m)
      ensures link != null ==> link in s && NamesOf(s)[link] == name
    {
      ChainOf(this, s, {this}, o.own);
      LabelFound(this, m, s, o, name);
      link := FindByLabel(name, s, o.own[this]);
      SrcKept(s);
      DestKept(s);
      NamesKept(s);
    }

    /** The link of that label, made if there is none; no link for the sentinel. */
    method LabelledLink(name: string, ghost s: set<MeshLink>, ghost o: Orders, ghost m: Labels)
      returns (link: MeshLink?, ghost s': set<MeshLink>, ghost o': Orders)
      requires Holds(this, m, s, o)
      modifies this, s
      ensures autoClear == old(autoClear) && KeepsNames(old(NamesOf(s)), NamesOf(s'))
      ensures Holds(this, WithLink(m, name), s', o') && s <= s'
      ensures forall x :: x in s' && x !in s ==> fresh(x)
      ensures IsLabelled(link, name, NamesOf(s'))
    {
      link, s', o' := null, s, o;
      NamesKeptSame(NamesOf(s));
      if name != NULL_NAME {
        link := Lookup(name, s, o, m);
        if link == null {
          link, s', o' := MissingLink(name, s, o, m);
        }
      }
    }

    /** Links that are missing are made; the one of the first label, if any, gets the ends of the others. */
    method AddLink(name: string, srcName: string, destName: string, ghost s: set<MeshLink>, ghost o: Orders,
                   ghost m: Labels)
      returns (link: MeshLink?, ghost s': set<MeshLink>, ghost o': Orders)
      requires Holds(this, m, s, o)
      modifies this, s
      ensures Holds(this, WithRow(m, Row(name, srcName, destName)), s', o') && s <= s'
      ensures forall x :: x in s' && x !in s ==> fresh(x)
      ensures IsLabelled(link, name, NamesOf(s'))
    {
      ghost var row := Row(name, srcName, destName);
      var src, dest;
      link, src, dest, s', o' := ThreeLinks(name, srcName, destName, s, o, m);
      o' := FinishLink(link, src, dest, s', o', WithLinks(m, row), row);
    }

    method FinishLink(link: MeshLink?, src: MeshLink?, dest: MeshLink?, ghost s: set<MeshLink>, ghost o: Orders,
                   ghost m: Labels, ghost row: Row)
      returns (ghost o': Orders)
      requires Holds(this, m, s, o) && IsLabelled(link, row.name, NamesOf(s))
      requires IsLabelled(src, row.src, NamesOf(s)) && IsLabelled(dest, row.dest, NamesOf(s))
      modifies this`autoClear, s
      ensures Holds(this, if row.name == NULL_NAME then m else m[row.name := (row.src, row.dest)], s, o')
      ensures NamesOf(s) == old(NamesOf(s))
    {
      FoundClearing(s, o, m);
      o' := Connect(link, src, dest, s, o, m, row);
    }

    method Connect(link: MeshLink?, src: MeshLink?, dest: MeshLink?, ghost s: set<MeshLink>, ghost o: Orders,
                   ghost m: Labels, ghost row: Row)
      returns (ghost o': Orders)
      requires Holds(this, m, s, o) && IsLabelled(link, row.name, NamesOf(s))
      requires IsLabelled(src, row.src, NamesOf(s)) && IsLabelled(dest, row.dest, NamesOf(s))
      modifies s`src, s`srcPrev, s`srcNext, s`asSrcRoot, s`dest, s`destPrev, s`destNext, s`asDestRoot
      ensures Holds(this, if row.name == NULL_NAME then m else m[row.name := (row.src, row.dest)], s, o')
      ensures NamesOf(s) == old(NamesOf(s))
    {
      o' := o;
      if link != null {
        o' := SetEnds(link, src, dest, s, o, m, row);
      }
    }

    /** A mesh that was given a link clears itself from now on, unless it has been told not to. */
    method FoundClearing(ghost s: set<MeshLink>, ghost o: Orders, ghost m: Labels)
      requires Holds(this, m, s, o)
      modifies this`autoClear
      ensures Holds(this, m, s, o) && autoClear == if old(autoClear) == -1 then 1 else old(autoClear)
    {
      if autoClear == -1 {
        SetAutoClear(1, s, o, m);
      }
    }

    method ThreeLinks(name: string, srcName: string, destName: string, ghost s: set<MeshLink>, ghost o: Orders,
                      ghost m: Labels)
      returns (link: MeshLink?, src: MeshLink?, dest: MeshLink?, ghost s': set<MeshLink>, ghost o': Orders)
      requires Holds(this, m, s, o)
      modifies this, s
      ensures autoClear == old(autoClear)
      ensures Holds(this, WithLinks(m, Row(name, srcName, destName)), s', o') && s <= s'
      ensures forall x :: x in s' && x !in s ==> fresh(x)
      ensures IsLabelled(link, name, NamesOf(s')) && IsLabelled(src, srcName, NamesOf(s'))
      ensures IsLabelled(dest, destName, NamesOf(s'))
    {
      link, src, s', o' := TwoLinks(name, srcName, s, o, m);
      ghost var names := NamesOf(s');
      dest, s', o' := LabelledLink(destName, s', o', WithLink(WithLink(m, name), srcName));
      StillLabelled(link, name, names, NamesOf(s'));
      StillLabelled(src, srcName, names, NamesOf(s'));
    }

    method TwoLinks(name: string, srcName: string, ghost s: set<MeshLink>, ghost o: Orders, ghost m: Labels)
      returns (link: MeshLink?, src: MeshLink?, ghost s': set<MeshLink>, ghost o': Orders)
      requires Holds(this, m, s, o)
      modifies this, s
      ensures autoClear == old(autoClear)
      ensures Holds(this, WithLink(WithLink(m, name), srcName), s', o') && s <= s'
      ensures forall x :: x in s' && x !in s ==> fresh(x)
      ensures IsLabelled(link, name, NamesOf(s')) && IsLabelled(src, srcName, NamesOf(s'))
    {
      link, s', o' := LabelledLink(name, s, o, m);
      ghost var names := NamesOf(s');
      src, s', o' := LabelledLink(srcName, s', o', WithLink(m, name));
      StillLabelled(link, name, names, NamesOf(s'));
    }

    method SetAutoClear(v: int, ghost s: set<MeshLink>, ghost o: Orders, ghost m: Labels)
      requires Holds(this, m, s, o)
      modifies this`autoClear
      ensures Holds(this, m, s, o) && autoClear == v
    {
      autoClear := v;
      SrcKept(s);
      DestKept(s);
      OwnKept((s, {this}));
      NamesKept(s);
    }

    method SetEnds(link: MeshLink, src: MeshLink?, dest: MeshLink?, ghost s: set<MeshLink>, ghost o: Orders,
                   ghost m: Labels, ghost row: Row)
      returns (ghost o': Orders)
      requires Holds(this, m, s, o) && IsLabelled(link, row.name, NamesOf(s))
      requires IsLabelled(src, row.src, NamesOf(s)) && IsLabelled(dest, row.dest, NamesOf(s))
      modifies s`src, s`srcPrev, s`srcNext, s`asSrcRoot, s`dest, s`destPrev, s`destNext, s`asDestRoot
      ensures Holds(this, m[row.name := (row.src, row.dest)], s, o') && NamesOf(s) == old(NamesOf(s))
    {
      ghost var sv, dv := SrcView(s), DestView(s);
      o' := MoveEnds(link, src, dest, s, o);
      EndsDescribed(m, NamesOf(s), sv, dv, o, SrcView(s), DestView(s), link, src, dest, row);
    }

    method MoveEnds(link: MeshLink, src: MeshLink?, dest: MeshLink?, ghost s: set<MeshLink>, ghost o: Orders)
      returns (ghost o': Orders)
      requires Valid(s, {this}, o) && link in s && (src != null ==> src in s) && (dest != null ==> dest in s)
      modifies s`src, s`srcPrev, s`srcNext, s`asSrcRoot, s`dest, s`destPrev, s`destNext, s`asDestRoot
      ensures Valid(s, {this}, o') && o'.own == o.own && NamesOf(s) == old(NamesOf(s))
      ensures SrcView(s) == Moved(old(SrcView(s)), link, Opt(src)) && DestView(s) == Moved(old(DestView(s)), link, Opt(dest))
    {
      o' := GiveSource(link, src, s, o);
      o' := GiveDest(link, dest, s, o');
    }

    method GiveSource(link: MeshLink, src: MeshLink?, ghost s: set<MeshLink>, ghost o: Orders)
      returns (ghost o': Orders)
      requires Valid(s, {this}, o) && link in s && (src != null ==> src in s)
      modifies s`src, s`srcPrev, s`srcNext, s`asSrcRoot
      ensures Valid(s, {this}, o') && o'.own == o.own && NamesOf(s) == old(NamesOf(s))
      ensures SrcView(s) == Moved(old(SrcView(s)), link, Opt(src)) && DestView(s) == old(DestView(s))
    {
      ghost var order := link.SetSource(src, s, {this}, o.src);
      o' := o.(src := order);
    }

    method GiveDest(link: MeshLink, dest: MeshLink?, ghost s: set<MeshLink>, ghost o: Orders) returns (ghost o': Orders)
      requires Valid(s, {this}, o) && link in s && (dest != null ==> dest in s)
      modifies s`dest, s`destPrev, s`destNext, s`asDestRoot
      ensures Valid(s, {this}, o') && o'.own == o.own && NamesOf(s) == old(NamesOf(s))
      ensures DestView(s) == Moved(old(DestView(s)), link, Opt(dest)) && SrcView(s) == old(SrcView(s))
    {
      ghost var order := link.SetDest(dest, s, {this}, o.dest);
      o' := o.(dest := order);
    }

    /** Adds the links described by the rows of a text in concise form. */
    method Load(text: string, ghost s: set<MeshLink>, ghost o: Orders, ghost m: Labels)
      returns (ghost s': set<MeshLink>, ghost o': Orders)
      requires Holds(this, m, s, o)
      modifies this, s
      ensures Holds(this, WithRows(m, Rows(text)), s', o') && s <= s'
      ensures forall x :: x in s' && x !in s ==> fresh(x)
    {
      s', o' := s, o;
      ghost var rows: seq<Row>, table := [], m;
      var rest, done := text, false;
      while !done
        invariant Holds(this, table, s', o') && table == WithRows(m, rows) && s <= s'
        invariant forall x :: x in s' && x !in s ==> fresh(x)
        invariant StillToRead(Rows(text), rows, rest, done)
        decreases if done then 0 else 1 + |rest|
      {
        var (row, r, d) := NextRow(rest);
        OneRowLess(Rows(text), rows, rest);
        if row.name != NULL_NAME {
          s', o' := AddRow(row, rows, table, s', o', m);
          rows, table := rows + [row], WithRow(table, row);
        }
        rest, done := r, d;
      }
      assert Rows(text) == rows;
    }

    method AddRow(row: Row, ghost rows: seq<Row>, ghost table: Labels, ghost s: set<MeshLink>, ghost o: Orders,
                  ghost m: Labels)
      returns (ghost s': set<MeshLink>, ghost o': Orders)
      requires Holds(this, table, s, o) && table == WithRows(m, rows)
      modifies this, s
      ensures Holds(this, WithRow(table, row), s', o') && s <= s' && WithRow(table, row) == WithRows(m, rows + [row])
      ensures forall x :: x in s' && x !in s ==> fresh(x)
    {
      OneMoreRow(table, m, rows, row);
      var link;
      link, s', o' := AddLink(row.name, row.src, row.dest, s, o, table);
    }

    /** Writes the links in concise form, the last one first. */
    method Store(ghost s: set<MeshLink>, ghost o: Orders, ghost m: Labels) returns (text: string)
      requires Holds(this, m, s, o)
      ensures text == Text(StoredRows(o.own[this], NamesOf(s), SrcView(s), DestView(s)))
    {
      var cursor := LastLink(s, o, m);
      AllStorable(this, m, s, o);
      text := StoreFrom(cursor, s, o.own[this]);
      text := text + NULL_NAME;
      TextIsLines(StoredRows(o.own[this], NamesOf(s), SrcView(s), DestView(s)));
    }

    method StoreFrom(last: MeshLink?, ghost s: set<MeshLink>, ghost q: seq<MeshLink>) returns (text: string)
      requires Storable(q, s) && last == At(q, |q| - 1)
      ensures text == Lines(StoredRows(q, NamesOf(s), SrcView(s), DestView(s)))
    {
      ghost var rows: seq<Row>, k := [], |q|;
      text := "";
      var cursor := last;
      while cursor != null
        invariant 0 <= k && StoredTo(q, s, rows, k, cursor, text)
        decreases k
      {
        OneMoreStored(q, s, rows, k, cursor, text);
        text, rows, k := text + Line(RowFor(cursor, s)), rows + [RowFor(cursor, s)], k - 1;
        cursor := cursor.meshPrev;
      }
      AllStoredTo(q, s, rows, k, text);
    }

    method LastLink(ghost s: set<MeshLink>, ghost o: Orders, ghost m: Labels) returns (cursor: MeshLink?)
      requires Holds(this, m, s, o)
      ensures Holds(this, m, s, o) && cursor == At(o.own[this], |o.own[this]| - 1)
    {
      ghost var k := 0;
      ChainOf(this, s, {this}, o.own);
      cursor := root;
      if cursor != null {
        assert OwnStep(s, o.own[this], 0);
        while cursor.meshNext != null
          invariant 0 <= k < |o.own[this]| && cursor == o.own[this][k] && OwnStep(s, o.own[this], k)
          decreases |o.own[this]| - k
        {
          cursor := cursor.meshNext;
          k := k + 1;
          assert OwnStep(s, o.own[this], k);
        }
      }
    }

    /** A mesh stored as text and loaded into an empty mesh: the same labels, with the same ends. */
    method StoreAndLoad(empty: Mesh, ghost s: set<MeshLink>, ghost o: Orders, ghost m: Labels)
      returns (ghost s': set<MeshLink>, ghost o': Orders)
      requires Holds(this, m, s, o) && (forall k :: k in m ==> Word(k))
      requires empty != this && empty.root == null
      modifies empty
      ensures Holds(empty, m, s', o') && fresh(s')
    {
      var text := StoreWords(s, o, m);
      EmptyMesh(empty);
      s', o' := empty.Load(text, {}, Orders(map[], map[], map[empty := []]), map[]);
      assert s' - {} == s';
    }

    method StoreWords(ghost s: set<MeshLink>, ghost o: Orders, ghost m: Labels) returns (text: string)
      requires Holds(this, m, s, o) && (forall k :: k in m ==> Word(k))
      ensures WithRows(map[], Rows(text)) == m
    {
      text := Store(s, o, m);
      SrcKept(s);
      DestKept(s);
      OwnKept((s, {this}));
      NamesKept(s);
      LoadsBack(this, s, o, m);
    }

    /**
     * Deletes every link of this mesh, unless it has been told or found to own none. All other
     * links keep their ends but for those deleted, every list left keeps its order, and the
     * other meshes keep theirs.
     */
    method Clear(ghost s: set<MeshLink>, ghost ms: set<Mesh>, ghost o: Orders)
      returns (ghost s': set<MeshLink>, ghost o': Orders)
      requires this in ms && Valid(s, ms, o)
      modifies s, ms`root
      ensures Valid(s', ms, o') && s' <= s
      ensures autoClear == 0 || autoClear == -1 ==>
        s' == s && o' == o && SrcView(s) == old(SrcView(s)) && DestView(s) == old(DestView(s))
      ensures autoClear != 0 && autoClear != -1 ==>
        && root == null && s' == s - Elements(o.own[this]) && o'.own == o.own[this := []]
        && SurvivesAll(old(SrcView(s)), o.src, SrcView(s'), o'.src, Elements(o.own[this]))
        && SurvivesAll(old(DestView(s)), o.dest, DestView(s'), o'.dest, Elements(o.own[this]))
    {
      s', o' := s, o;
      if autoClear != 0 && autoClear != -1 {
        s', o' := DeleteAll(s, ms, o);
      }
    }

    method DeleteAll(ghost s: set<MeshLink>, ghost ms: set<Mesh>, ghost o: Orders)
      returns (ghost s': set<MeshLink>, ghost o': Orders)
      requires this in ms && Valid(s, ms, o)
      modifies s, ms`root
      ensures Valid(s', ms, o') && s' <= s
      ensures root == null && s' == s - Elements(o.own[this]) && o'.own == o.own[this := []]
      ensures SurvivesAll(old(SrcView(s)), o.src, SrcView(s'), o'.src, Elements(o.own[this]))
      ensures SurvivesAll(old(DestView(s)), o.dest, DestView(s'), o'.dest, Elements(o.own[this]))
    {
      ghost var u := Clearing(SrcView(s), DestView(s), o, o.own[this], ms);
      NothingCleared(this, u, s);
      ghost var k;
      k, s', o' := DeleteRoots(u, s, o);
      AllCleared(u.q, k);
    }

    method DeleteRoots(ghost u: Clearing, ghost s: set<MeshLink>, ghost o: Orders)
      returns (ghost k: nat, ghost s': set<MeshLink>, ghost o': Orders)
      requires this in u.ms && ClearedTo(this, u, 0, s, s, o)
      modifies s, u.ms`root
      ensures root == null && s' <= s && ClearedTo(this, u, k, s, s', o')
    {
      k, s', o' := 0, s, o;
      var cursor := root;
      while cursor != null
        invariant cursor == root && k <= |u.q| && s' <= s && ClearedTo(this, u, k, s, s', o')
        decreases |u.q| - k
      {
        cursor, s', o' := DeleteRoot(u, k, s, s', o');
        k := k + 1;
      }
    }

    /** One round of the loop of Clear. */
    method DeleteRoot(ghost u: Clearing, ghost k: nat, ghost s0: set<MeshLink>, ghost s: set<MeshLink>, ghost o: Orders)
      returns (cursor: MeshLink?, ghost s': set<MeshLink>, ghost o': Orders)
      requires this in u.ms && ClearedTo(this, u, k, s0, s, o) && root != null
      modifies s, u.ms`root
      ensures k < |u.q| && ClearedTo(this, u, k + 1, s0, s', o') && s' <= s && cursor == root == At(u.q, k + 1)
    {
      ghost var sv, dv := SrcView(s), DestView(s);
      cursor, s', o' := DropRoot(u.q, k, s, u.ms, o);
      ClearStep(this, u, k, s0, s, sv, dv, o, SrcView(s'), DestView(s'), o');
    }

    method DropRoot(ghost q: seq<MeshLink>, ghost k: nat, ghost s: set<MeshLink>, ghost ms: set<Mesh>, ghost o: Orders)
      returns (cursor: MeshLink?, ghost s': set<MeshLink>, ghost o': Orders)
      requires this in ms && Valid(s, ms, o) && k < |q| && this in o.own && o.own[this] == q[k..] && root != null
      modifies s, ms`root
      ensures Valid(s', ms, o') && s' == s - {q[k]} && o'.own == o.own[this := q[k + 1..]]
      ensures Survives(old(SrcView(s)), o.src, SrcView(s'), o'.src, q[k])
      ensures Survives(old(DestView(s)), o.dest, DestView(s'), o'.dest, q[k])
      ensures cursor == root == At(q, k + 1)
    {
      FirstToClear(this, q, k, s, ms, o.own);
      cursor := root.meshNext;
      o' := root.Destroy(s, ms, o);
      s' := s - {q[k]};
      OneLess(o.own, this, q, k);
      FirstToClear(this, q, k + 1, s', ms, o'.own);
      PutSameRoot(cursor, s', ms, o');
    }

    method PutSameRoot(x: MeshLink?, ghost s: set<MeshLink>, ghost ms: set<Mesh>, ghost o: Orders)
      requires root == x && Valid(s, ms, o)
      modifies this`root
      ensures root == x && Valid(s, ms, o) && SrcView(s) == old(SrcView(s)) && DestView(s) == old(DestView(s))
    {
      root := x;
      SrcKept(s);
      DestKept(s);
    }

    // ----- pruning

    /** Gives every link of this mesh the id 0. */
    method ResetIds(ghost s: set<MeshLink>, ghost q: seq<MeshLink>)
      requires Chain(this, s, q)
      modifies s`pruneId
      ensures forall x :: x in q ==> x.pruneId == 0
      ensures forall x :: x in s && x !in q ==> x.pruneId == old(x.pruneId)
    {
      ghost var k := 0;
      var cursor := root;
      while cursor != null
        invariant 0 <= k <= |q| && cursor == At(q, k)
        invariant forall i :: 0 <= i < k ==> q[i].pruneId == 0
        invariant forall x :: x in s && x !in q ==> x.pruneId == old(x.pruneId)
        decreases |q| - k
      {
        assert OwnStep(s, q, k);
        cursor.SetId(0, s);
        cursor := cursor.meshNext;
        k := k + 1;
      }
    }

    /** Deletes the next link unless it is marked. */
    method DeleteUnlessMarked(cursor: MeshLink, ghost u: Pruning, ghost k: nat, ghost s0: set<MeshLink>,
                              ghost s: set<MeshLink>, ghost o: Orders)
      returns (ghost s': set<MeshLink>, ghost o': Orders)
      requires this in u.ms && k < |u.q| && cursor == u.q[k] && PrunedTo(this, u, k, s0, s, o)
      requires cursor in s && OwnView(s, u.ms).nodes[cursor].parent == Some(this)
      requires cursor.pruneId == 0 <==> cursor !in u.c
      modifies s`src, s`srcPrev, s`srcNext, s`asSrcRoot, s`dest, s`destPrev, s`destNext, s`asDestRoot
      modifies s`owner, s`meshPrev, s`meshNext, u.ms`root
      ensures PrunedTo(this, u, k + 1, s0, s', o') && s' <= s
    {
      s', o' := s, o;
      if cursor.pruneId == 0 {
        ghost var sv, dv := SrcView(s), DestView(s);
        o' := cursor.Destroy(s, u.ms, o);
        s' := s - {cursor};
        PruneStep(this, u, k, s0, s, sv, dv, o, SrcView(s'), DestView(s'), o');
      } else {
        KeepStep(this, u, k, s0, s, SrcView(s), DestView(s), o);
      }
    }

    /** One round of the second loop; the cursor has moved on before the link may be deleted. */
    method DeleteNext(cursor: MeshLink, ghost u: Pruning, ghost k: nat, ghost s0: set<MeshLink>, ghost s: set<MeshLink>,
                      ghost o: Orders)
      returns (next: MeshLink?, ghost s': set<MeshLink>, ghost o': Orders)
      requires this in u.ms && k < |u.q| && cursor == u.q[k] && PrunedTo(this, u, k, s0, s, o)
      requires cursor.pruneId == 0 <==> cursor !in u.c
      modifies s`src, s`srcPrev, s`srcNext, s`asSrcRoot, s`dest, s`destPrev, s`destNext, s`asDestRoot
      modifies s`owner, s`meshPrev, s`meshNext, u.ms`root
      ensures PrunedTo(this, u, k + 1, s0, s', o') && s' <= s && next == At(u.q, k + 1)
    {
      NextToPrune(this, u.q, u.c, k, s, u.ms, o.own);
      next := cursor.meshNext;
      s', o' := DeleteUnlessMarked(cursor, u, k, s0, s, o);
    }

    /** The second loop: deletes every unmarked link, from the first to the last. */
    method DeleteUnmarked(ghost u: Pruning, ghost s0: set<MeshLink>, ghost o0: Orders)
      returns (ghost k: nat, ghost s: set<MeshLink>, ghost o: Orders)
      requires this in u.ms && PrunedTo(this, u, 0, s0, s0, o0) && root == At(u.q, 0)
      requires forall x :: x in u.q ==> (x.pruneId == 0 <==> x !in u.c)
      modifies s0`src, s0`srcPrev, s0`srcNext, s0`asSrcRoot, s0`dest, s0`destPrev, s0`destNext, s0`asDestRoot
      modifies s0`owner, s0`meshPrev, s0`meshNext, u.ms`root
      ensures PrunedTo(this, u, k, s0, s, o) && s <= s0 && k <= |u.q| && At(u.q, k) == null
    {
      k, s, o := 0, s0, o0;
      var cursor := root;
      while cursor != null
        invariant k <= |u.q| && s <= s0 && PrunedTo(this, u, k, s0, s, o) && cursor == At(u.q, k)
        decreases |u.q| - k
      {
        cursor, s, o := DeleteNext(cursor, u, k, s0, s, o);
        k := k + 1;
      }
    }

    /**
     * Deletes the links of this mesh that cannot be reached from link. Links of other meshes
     * lead on as well, unless their id is 1 already: only those of this mesh are reset. All
     * other links keep their ends but for those deleted, and every list left keeps its order.
     * Afterwards all links that were reached have the id 1, and the others have the id they had.
     */
    method Prune(link: MeshLink?, ghost s: set<MeshLink>, ghost ms: set<Mesh>, ghost o: Orders)
      returns (ghost s': set<MeshLink>, ghost o': Orders)
      requires this in ms && Valid(s, ms, o)
      requires link != null && link.owner == this ==> link in s
      modifies s, ms`root
      ensures Valid(s', ms, o') && s' <= s
      ensures link == null || old(link.owner) != this ==>
        s' == s && o' == o && SrcView(s) == old(SrcView(s)) && DestView(s) == old(DestView(s)) && Ids(s) == old(Ids(s))
      ensures link != null && old(link.owner) == this ==>
        var kept := old(Reached(s, link, Leftover(s, o.own[this])));
        && s' == s - (Elements(o.own[this]) - kept) && o'.own == o.own[this := Kept(o.own[this], kept)]
        && SurvivesAll(old(SrcView(s)), o.src, SrcView(s'), o'.src, Elements(o.own[this]) - kept)
        && SurvivesAll(old(DestView(s)), o.dest, DestView(s'), o'.dest, Elements(o.own[this]) - kept)
        && MarkedBy(s', 1) == old(Leftover(s, o.own[this])) + kept && Ids(s') == IdsAfter(old(Ids(s)), s', kept)
    {
      s', o' := s, o;
      if link != null && link.owner == this {
        s', o' := PruneReached(link, s, ms, o);
      }
    }

    method PruneReached(link: MeshLink, ghost s: set<MeshLink>, ghost ms: set<Mesh>, ghost o: Orders)
      returns (ghost s': set<MeshLink>, ghost o': Orders)
      requires this in ms && Valid(s, ms, o) && link in s && link.owner == this
      modifies s, ms`root
      ensures Valid(s', ms, o') && s' <= s
      ensures var kept := old(Reached(s, link, Leftover(s, o.own[this])));
        && s' == s - (Elements(o.own[this]) - kept) && o'.own == o.own[this := Kept(o.own[this], kept)]
        && SurvivesAll(old(SrcView(s)), o.src, SrcView(s'), o'.src, Elements(o.own[this]) - kept)
        && SurvivesAll(old(DestView(s)), o.dest, DestView(s'), o'.dest, Elements(o.own[this]) - kept)
        && MarkedBy(s', 1) == old(Leftover(s, o.own[this])) + kept && Ids(s') == IdsAfter(old(Ids(s)), s', kept)
    {
      ghost var leftover, kept, ids := Leftover(s, o.own[this]), Reached(s, link, Leftover(s, o.own[this])), Ids(s);
      LeftoverOf(s, o.own[this]);
      ReachedInside(s, link, leftover);
      IdsStay(o.own[this], kept, ids, s, leftover, s - (Elements(o.own[this]) - kept));
      s', o' := PruneLists(link, s, ms, o);
      MarksOf(s');
    }

    method PruneLists(link: MeshLink, ghost s: set<MeshLink>, ghost ms: set<Mesh>, ghost o: Orders)
      returns (ghost s': set<MeshLink>, ghost o': Orders)
      requires this in ms && Valid(s, ms, o) && link in s && link.owner == this
      modifies s, ms`root
      ensures Valid(s', ms, o') && s' <= s
      ensures var kept := old(Reached(s, link, Leftover(s, o.own[this])));
        && s' == s - (Elements(o.own[this]) - kept) && o'.own == o.own[this := Kept(o.own[this], kept)]
        && SurvivesAll(old(SrcView(s)), o.src, SrcView(s'), o'.src, Elements(o.own[this]) - kept)
        && SurvivesAll(old(DestView(s)), o.dest, DestView(s'), o'.dest, Elements(o.own[this]) - kept)
        && Ids(s') == IdsLeft(IdsMarked(old(Ids(s)), o.own[this], kept), s')
    {
      s', o' := PruneFrom(link, s, ms, o);
    }

    method PruneFrom(link: MeshLink, ghost s: set<MeshLink>, ghost ms: set<Mesh>, ghost o: Orders)
      returns (ghost s': set<MeshLink>, ghost o': Orders)
      requires this in ms && Valid(s, ms, o) && link in s && link.owner == this
      modifies s, ms`root
      ensures PrunedWell(this, old(PruningOf(this, link, s, ms, o)), s, s', o') && s' <= s
      ensures Ids(s') == IdsLeft(IdsMarked(old(Ids(s)), o.own[this], old(Reached(s, link, Leftover(s, o.own[this])))), s')
    {
      ghost var u := PruningOf(this, link, s, ms, o);
      MarkForPruning(link, s, o, u);
      s', o' := DeleteRest(u, s, o);
    }

    /** The second loop, all in all; it does not touch the ids. */
    method DeleteRest(ghost u: Pruning, ghost s: set<MeshLink>, ghost o: Orders)
      returns (ghost s': set<MeshLink>, ghost o': Orders)
      requires this in u.ms && PrunedTo(this, u, 0, s, s, o) && root == At(u.q, 0)
      requires forall x :: x in u.q ==> (x.pruneId == 0 <==> x !in u.c)
      modifies s`src, s`srcPrev, s`srcNext, s`asSrcRoot, s`dest, s`destPrev, s`destNext, s`asDestRoot
      modifies s`owner, s`meshPrev, s`meshNext, u.ms`root
      ensures PrunedWell(this, u, s, s', o') && Ids(s') == IdsLeft(old(Ids(s)), s')
    {
      s', o' := DeleteMarked(u, s, o);
      IdsKept(s);
      LeftIds(s, s');
    }

    method DeleteMarked(ghost u: Pruning, ghost s: set<MeshLink>, ghost o: Orders)
      returns (ghost s': set<MeshLink>, ghost o': Orders)
      requires this in u.ms && PrunedTo(this, u, 0, s, s, o) && root == At(u.q, 0)
      requires forall x :: x in u.q ==> (x.pruneId == 0 <==> x !in u.c)
      modifies s`src, s`srcPrev, s`srcNext, s`asSrcRoot, s`dest, s`destPrev, s`destNext, s`asDestRoot
      modifies s`owner, s`meshPrev, s`meshNext, u.ms`root
      ensures PrunedWell(this, u, s, s', o') && s' <= s
    {
      ghost var k;
      k, s', o' := DeleteUnmarked(u, s, o);
      AllPruned(this, u, k, s, s', SrcView(s'), DestView(s'), o');
    }

    /** Marks what is to stay. */
    method MarkForPruning(link: MeshLink, ghost s: set<MeshLink>, ghost o: Orders, ghost u: Pruning)
      requires this in u.ms && Valid(s, u.ms, o) && link in s && link.owner == this
      requires u == PruningOf(this, link, s, u.ms, o)
      modifies s`pruneId
      ensures PrunedTo(this, u, 0, s, s, o) && root == At(u.q, 0)
      ensures forall x :: x in u.q ==> (x.pruneId == 0 <==> x !in u.c)
      ensures Ids(s) == IdsMarked(old(Ids(s)), u.q, u.c)
    {
      ghost var e, leftover := Edges(SrcView(s), DestView(s)), Leftover(s, o.own[this]);
      StartOfPruning(this, link, s, o, u, e, leftover);
      MarkReached(link, s, u.ms, o, Graph(o.src, o.dest, e, leftover), u.c);
      NothingPruned(this, u, s, SrcView(s), DestView(s));
    }

    method MarkReached(link: MeshLink, ghost s: set<MeshLink>, ghost ms: set<Mesh>, ghost o: Orders, ghost g: Graph,
                       ghost c: set<MeshLink>)
      requires this in ms && Valid(s, ms, o) && link in o.own[this] && g.leftover == Leftover(s, o.own[this])
      requires Chain(this, s, o.own[this]) && (forall x :: x in o.own[this] ==> x in s)
      requires c == Component(Avoiding(g.edges, g.leftover), link) && Markable(g, s, g.leftover + c) && link in c
      modifies s`pruneId
      ensures Valid(s, ms, o) && SrcView(s) == old(SrcView(s)) && DestView(s) == old(DestView(s))
      ensures root == At(o.own[this], 0) && forall x :: x in o.own[this] ==> (x.pruneId == 0 <==> x !in c)
      ensures Ids(s) == IdsMarked(old(Ids(s)), o.own[this], c)
    {
      ResetAndMark(link, s, o.own[this], g, g.leftover + c);
      SrcKept(s);
      DestKept(s);
      OwnKept((s, ms));
    }

    /** The first loop and the marking. */
    method ResetAndMark(link: MeshLink, ghost s: set<MeshLink>, ghost q: seq<MeshLink>, ghost g: Graph,
                        ghost c: set<MeshLink>)
      requires Chain(this, s, q) && link in q && (forall x :: x in q ==> x in s) && g.leftover == Leftover(s, q)
      requires Markable(g, s, c) && c == g.leftover + Component(Avoiding(g.edges, g.leftover), link) && link in c
      modifies s`pruneId
      ensures forall x :: x in q ==> (x.pruneId == 0 <==> x !in Component(Avoiding(g.edges, g.leftover), link))
      ensures Ids(s) == IdsMarked(old(Ids(s)), q, Component(Avoiding(g.edges, g.leftover), link))
    {
      ghost var ids := Ids(s);
      ResetIds(s, q);
      ghost var reset := Ids(s);
      assert MarkedBy(s, 1) == g.leftover;
      link.Mark(1, s, g, c);
      SpreadIsReached(g.edges, link, g.leftover, MarkedBy(s, 1));
      MarksOf(s);
      IdsOnceMarked(ids, q, reset, Ids(s), g.leftover, Component(Avoiding(g.edges, g.leftover), link));
    }
  }

  function Opt(x: MeshLink?): Option<MeshLink> {
    if x == null then None else Some(x)
  }

  function OptMesh(x: Mesh?): Option<Mesh> {
    if x == null then None else Some(x)
  }

  ghost function SrcView(s: set<MeshLink>): (l: Lists<MeshLink, MeshLink>)
    reads s`src, s`srcPrev, s`srcNext, s`asSrcRoot
  {
    Lists(map x | x in s :: Node(Opt(x.src), Opt(x.srcPrev), Opt(x.srcNext)),
          map x | x in s :: Opt(x.asSrcRoot))
  }

  ghost predicate SrcAt(x: MeshLink, n: Node<MeshLink, MeshLink>, root: Option<MeshLink>)
    reads x`src, x`srcPrev, x`srcNext, x`asSrcRoot
  {
    n == Node(Opt(x.src), Opt(x.srcPrev), Opt(x.srcNext)) && root == Opt(x.asSrcRoot)
  }

  ghost predicate ShowsSrc(l: Lists<MeshLink, MeshLink>, s: set<MeshLink>)
    reads s`src, s`srcPrev, s`srcNext, s`asSrcRoot
  {
    && l.nodes.Keys == s && l.roots.Keys == s
    && forall x :: x in s ==> SrcAt(x, l.nodes[x], l.roots[x])
  }

  ghost function DestView(s: set<MeshLink>): (l: Lists<MeshLink, MeshLink>)
    reads s`dest, s`destPrev, s`destNext, s`asDestRoot
  {
    Lists(map x | x in s :: Node(Opt(x.dest), Opt(x.destPrev), Opt(x.destNext)),
          map x | x in s :: Opt(x.asDestRoot))
  }

  ghost predicate DestAt(x: MeshLink, n: Node<MeshLink, MeshLink>, root: Option<MeshLink>)
    reads x`dest, x`destPrev, x`destNext, x`asDestRoot
  {
    n == Node(Opt(x.dest), Opt(x.destPrev), Opt(x.destNext)) && root == Opt(x.asDestRoot)
  }

  ghost predicate ShowsDest(l: Lists<MeshLink, MeshLink>, s: set<MeshLink>)
    reads s`dest, s`destPrev, s`destNext, s`asDestRoot
  {
    && l.nodes.Keys == s && l.roots.Keys == s
    && forall x :: x in s ==> DestAt(x, l.nodes[x], l.roots[x])
  }

  ghost function OwnView(s: set<MeshLink>, ms: set<Mesh>): (l: Lists<MeshLink, Mesh>)
    reads s`owner, s`meshPrev, s`meshNext, ms`root
  {
    Lists(map x | x in s :: Node(OptMesh(x.owner), Opt(x.meshPrev), Opt(x.meshNext)),
          map m | m in ms :: Opt(m.root))
  }

  ghost predicate OwnAt(x: MeshLink, n: Node<MeshLink, Mesh>)
    reads x`owner, x`meshPrev, x`meshNext
  {
    n == Node(OptMesh(x.owner), Opt(x.meshPrev), Opt(x.meshNext))
  }

  ghost predicate RootAt(m: Mesh, root: Option<MeshLink>)
    reads m`root
  {
    root == Opt(m.root)
  }

  ghost predicate ShowsOwn(l: Lists<MeshLink, Mesh>, s: set<MeshLink>, ms: set<Mesh>)
    reads s`owner, s`meshPrev, s`meshNext, ms`root
  {
    && l.nodes.Keys == s && l.roots.Keys == ms
    && (forall x :: x in s ==> OwnAt(x, l.nodes[x]))
    && (forall m :: m in ms ==> RootAt(m, l.roots[m]))
  }

  type Order = map<MeshLink, seq<MeshLink>>

  datatype Orders = Orders(src: Order, dest: Order, own: map<Mesh, seq<MeshLink>>)

  /** All three kinds of list are exact for the live links s and the meshes ms. */
  ghost predicate Valid(s: set<MeshLink>, ms: set<Mesh>, o: Orders)
    reads s, ms
  {
    Exact(SrcView(s), o.src) && Exact(DestView(s), o.dest) && Exact(OwnView(s, ms), o.own)
  }

  /** What pruning started from: the lists, the order of the mesh, the links to keep, and all meshes. */
  datatype Pruning = Pruning(sv: Lists<MeshLink, MeshLink>, dv: Lists<MeshLink, MeshLink>, o: Orders,
                             q: seq<MeshLink>, c: set<MeshLink>, ms: set<Mesh>)

  ghost function PruningOf(m: Mesh, link: MeshLink, s: set<MeshLink>, ms: set<Mesh>, o: Orders): Pruning
    requires m in o.own
    reads s
  {
    Pruning(SrcView(s), DestView(s), o, o.own[m], Reached(s, link, Leftover(s, o.own[m])), ms)
  }

  /** The first k links of the mesh have been dealt with, and nothing else is gone. */
  ghost predicate PrunedTo(m: Mesh, u: Pruning, k: nat, s0: set<MeshLink>, s: set<MeshLink>, o: Orders)
    reads m, s, u.ms
  {
    match u
    case Pruning(_, _, _, _, _, ms) => Valid(s, ms, o) && PrunedAs(m, u, k, s0, s, SrcView(s), DestView(s), o)
  }

  /** All unmarked links of the mesh are gone, and nothing else. */
  ghost predicate PrunedWell(m: Mesh, u: Pruning, s0: set<MeshLink>, s: set<MeshLink>, o: Orders)
    reads s, u.ms
  {
    match u
    case Pruning(sv, dv, o0, q, c, ms) =>
      && Valid(s, ms, o) && s == s0 - (Elements(q) - c) && m in o0.own && o.own == o0.own[m := Kept(q, c)]
      && SurvivesAll(sv, o0.src, SrcView(s), o.src, Elements(q) - c)
      && SurvivesAll(dv, o0.dest, DestView(s), o.dest, Elements(q) - c)
  }

  ghost predicate PrunedAs(m: Mesh, u: Pruning, k: nat, s0: set<MeshLink>, s: set<MeshLink>,
                           sv: Lists<MeshLink, MeshLink>, dv: Lists<MeshLink, MeshLink>, o: Orders)
  {
    && k <= |u.q| && Distinct(u.q) && m in u.o.own && Exact(u.sv, u.o.src) && Exact(u.dv, u.o.dest)
    && s == s0 - (Firsts(u.q, k) - u.c) && o.own == u.o.own[m := Remaining(u.q, u.c, k)]
    && SurvivesAll(u.sv, u.o.src, sv, o.src, Firsts(u.q, k) - u.c)
    && SurvivesAll(u.dv, u.o.dest, dv, o.dest, Firsts(u.q, k) - u.c)
  }

  /** The next link is kept. */
  lemma {:induction false} KeepStep(m: Mesh, u: Pruning, k: nat, s0: set<MeshLink>, s: set<MeshLink>,
                                    sv: Lists<MeshLink, MeshLink>, dv: Lists<MeshLink, MeshLink>, o: Orders)
    requires PrunedAs(m, u, k, s0, s, sv, dv, o) && k < |u.q| && u.q[k] in u.c
    ensures PrunedAs(m, u, k + 1, s0, s, sv, dv, o)
  {
    RemainingStep(u.q, u.c, k);
    assert Firsts(u.q, k + 1) - u.c == Firsts(u.q, k) - u.c;
  }

  /** The next link goes. */
  lemma {:induction false} PruneStep(m: Mesh, u: Pruning, k: nat, s0: set<MeshLink>, s: set<MeshLink>,
                                     sv: Lists<MeshLink, MeshLink>, dv: Lists<MeshLink, MeshLink>, o: Orders,
                                     sv': Lists<MeshLink, MeshLink>, dv': Lists<MeshLink, MeshLink>, o': Orders)
    requires PrunedAs(m, u, k, s0, s, sv, dv, o) && k < |u.q| && u.q[k] !in u.c
    requires Survives(sv, o.src, sv', o'.src, u.q[k]) && Survives(dv, o.dest, dv', o'.dest, u.q[k])
    requires o'.own == Left(o.own, u.q[k], Some(m))
    ensures PrunedAs(m, u, k + 1, s0, s - {u.q[k]}, sv', dv', o')
  {
    RemainingStep(u.q, u.c, k);
    assert Firsts(u.q, k + 1) - u.c == Firsts(u.q, k) - u.c + {u.q[k]};
    OneMoreGone(u.sv, u.o.src, sv, o.src, sv', o'.src, Firsts(u.q, k) - u.c, u.q[k]);
    OneMoreGone(u.dv, u.o.dest, dv, o.dest, dv', o'.dest, Firsts(u.q, k) - u.c, u.q[k]);
  }

  lemma {:induction false} AllPruned(m: Mesh, u: Pruning, k: nat, s0: set<MeshLink>, s: set<MeshLink>,
                                     sv: Lists<MeshLink, MeshLink>, dv: Lists<MeshLink, MeshLink>, o: Orders)
    requires PrunedAs(m, u, k, s0, s, sv, dv, o) && At(u.q, k) == null
    ensures s == s0 - (Elements(u.q) - u.c) && o.own == u.o.own[m := Kept(u.q, u.c)]
    ensures SurvivesAll(u.sv, u.o.src, sv, o.src, Elements(u.q) - u.c)
    ensures SurvivesAll(u.dv, u.o.dest, dv, o.dest, Elements(u.q) - u.c)
  {
    AllCleared(u.q, k);
    AllKept(u.q, u.c);
  }

  /** Where the walk over the mesh is when k links have been dealt with. */
  lemma {:induction false} NextToPrune(m: Mesh, q: seq<MeshLink>, c: set<MeshLink>, k: nat, s: set<MeshLink>, ms: set<Mesh>,
                                       own: map<Mesh, seq<MeshLink>>)
    requires m in ms && Exact(OwnView(s, ms), own) && Distinct(q) && k < |q| && own[m] == Remaining(q, c, k)
    ensures q[k] in s && q[k].meshNext == At(q, k + 1) && OwnView(s, ms).nodes[q[k]].parent == Some(m)
  {
    ChainOf(m, s, ms, own);
    RemainingStep(q, c, k);
    assert OwnStep(s, own[m], |Kept(q[..k], c)|);
    OwnerOf(m, s, ms, own, q[k]);
  }

  /** The other links with the id that marking gives; it does not go on from there. */
  ghost function Leftover(s: set<MeshLink>, q: seq<MeshLink>): set<MeshLink>
    reads s`pruneId
  {
    MarkedBy(s, 1) - Elements(q)
  }

  ghost function Ids(s: set<MeshLink>): map<MeshLink, int>
    reads s`pruneId
  {
    map x | x in s :: x.pruneId
  }

  /** Links of q are reset, and those of c have the id 1. */
  ghost function IdsMarked(ids: map<MeshLink, int>, q: seq<MeshLink>, c: set<MeshLink>): map<MeshLink, int> {
    map x | x in ids :: if x in c then 1 else if x in q then 0 else ids[x]
  }

  /** The links s are left; those kept have the id 1 and the others the one they had. */
  ghost function IdsAfter(ids: map<MeshLink, int>, s: set<MeshLink>, kept: set<MeshLink>): map<MeshLink, int>
    requires s <= ids.Keys
  {
    map x | x in s :: if x in kept then 1 else ids[x]
  }

  ghost function IdsLeft(ids: map<MeshLink, int>, s: set<MeshLink>): map<MeshLink, int> {
    map x | x in s && x in ids :: ids[x]
  }

  lemma {:induction false} LeftIds(s: set<MeshLink>, s': set<MeshLink>)
    requires s' <= s
    ensures Ids(s') == IdsLeft(Ids(s), s')
  {
  }

  ghost function Ones(ids: map<MeshLink, int>): set<MeshLink> {
    set x | x in ids && ids[x] == 1
  }

  lemma {:induction false} MarksOf(s: set<MeshLink>)
    ensures MarkedBy(s, 1) == Ones(Ids(s))
  {
  }

  lemma {:induction false} LeftoverOf(s: set<MeshLink>, q: seq<MeshLink>)
    ensures Leftover(s, q) == Ones(Ids(s)) - Elements(q)
  {
  }

  lemma {:induction false} IdsOnceMarked(ids: map<MeshLink, int>, q: seq<MeshLink>, reset: map<MeshLink, int>,
                                         marked: map<MeshLink, int>, leftover: set<MeshLink>, c: set<MeshLink>)
    requires ids.Keys == reset.Keys == marked.Keys && leftover == Ones(ids) - Elements(q) && Ones(marked) == leftover + c
    requires forall x :: x in ids ==> reset[x] == if x in q then 0 else ids[x]
    requires forall x :: x in ids ==> marked[x] == 1 || marked[x] == reset[x]
    ensures marked == IdsMarked(ids, q, c)
  {
    forall x | x in ids ensures marked[x] == IdsMarked(ids, q, c)[x] {
      assert marked[x] == 1 <==> x in Ones(marked);
    }
  }

  lemma {:induction false} IdsStay(q: seq<MeshLink>, c: set<MeshLink>, ids: map<MeshLink, int>, s: set<MeshLink>,
                                   leftover: set<MeshLink>, s': set<MeshLink>)
    requires ids.Keys == s && c <= s && leftover == Ones(ids) - Elements(q) && s' == s - (Elements(q) - c)
    ensures var ids' := IdsLeft(IdsMarked(ids, q, c), s');
      ids' == IdsAfter(ids, s', c) && Ones(ids') == leftover + c
  {
  }

  /** The links connected to link without passing through the left over marks. */
  ghost function Reached(s: set<MeshLink>, link: MeshLink, leftover: set<MeshLink>): set<MeshLink>
    reads s`src, s`srcPrev, s`srcNext, s`asSrcRoot, s`dest, s`destPrev, s`destNext, s`asDestRoot
  {
    Component(Avoiding(Edges(SrcView(s), DestView(s)), leftover), link)
  }

  lemma {:induction false} ReachedInside(s: set<MeshLink>, link: MeshLink, leftover: set<MeshLink>)
    ensures Reached(s, link, leftover) <= s - leftover
  {
  }

  /** Marking from link can start. */
  lemma {:induction false} CanMark(link: MeshLink, s: set<MeshLink>, g: Graph)
    requires Exact(SrcView(s), g.src) && Exact(DestView(s), g.dest) && link in s && link !in g.leftover && g.leftover <= s
    requires g.edges == Edges(SrcView(s), DestView(s))
    ensures link in Component(Avoiding(g.edges, g.leftover), link)
    ensures Markable(g, s, g.leftover + Component(Avoiding(g.edges, g.leftover), link))
  {
    var a := Avoiding(g.edges, g.leftover);
    ComponentIsClosed(a, link);
    var c := g.leftover + Component(a, link);
    forall x | x in c ensures Roams(g, s, c, x) {
      ReadyToMark(s, g, x);
      if x !in g.leftover { assert a[x] <= Component(a, link); }
    }
  }

  lemma {:induction false} NothingPruned(m: Mesh, u: Pruning, s: set<MeshLink>, sv: Lists<MeshLink, MeshLink>,
                                         dv: Lists<MeshLink, MeshLink>)
    requires m in u.o.own && u.q == u.o.own[m] && Distinct(u.q) && sv == u.sv && dv == u.dv
    requires Exact(sv, u.o.src) && Exact(dv, u.o.dest)
    ensures PrunedAs(m, u, 0, s, s, sv, dv, u.o)
  {
    NothingKept(u.q, u.c);
    assert Firsts(u.q, 0) - u.c == {};
    NobodyGone(sv, u.o.src);
    NobodyGone(dv, u.o.dest);
  }

  lemma {:induction false} StartOfPruning(m: Mesh, link: MeshLink, s: set<MeshLink>, o: Orders, u: Pruning,
                                          e: map<MeshLink, set<MeshLink>>, leftover: set<MeshLink>)
    requires m in u.ms && Valid(s, u.ms, o) && link in s && link.owner == m
    requires e == Edges(SrcView(s), DestView(s)) && leftover == Leftover(s, o.own[m])
    ensures Chain(m, s, o.own[m]) && Distinct(o.own[m]) && link in o.own[m] && forall x :: x in o.own[m] ==> x in s
    ensures link in Component(Avoiding(e, leftover), link)
    ensures Markable(Graph(o.src, o.dest, e, leftover), s, leftover + Component(Avoiding(e, leftover), link))
  {
    ChainOf(m, s, u.ms, o.own);
    CanMark(link, s, Graph(o.src, o.dest, e, leftover));
  }

  ghost predicate OwnStep(s: set<MeshLink>, q: seq<MeshLink>, k: nat)
    requires k < |q|
    reads s`meshNext
  {
    q[k] in s && q[k].meshNext == At(q, k + 1)
  }

  ghost function NamesOf(s: set<MeshLink>): map<MeshLink, string>
    reads s`name
  {
    map x | x in s :: x.name
  }

  /** The mesh owns all the links s, and m tells their labels and those of their ends. */
  ghost predicate Holds(mesh: Mesh, m: Labels, s: set<MeshLink>, o: Orders)
    reads mesh, s
  {
    && Valid(s, {mesh}, o) && o.own.Keys == {mesh} && s == Elements(o.own[mesh])
    && Describes(m, NamesOf(s), SrcView(s), DestView(s))
  }

  /** With empty lists of links having n as their source or destination. */
  ghost function WithLists(o: Orders, n: MeshLink): Orders {
    o.(src := o.src[n := []], dest := o.dest[n := []])
  }

  /** As Holds, but n is in no mesh yet. */
  ghost predicate Unowned(mesh: Mesh, m: Labels, s: set<MeshLink>, o: Orders, n: MeshLink)
    reads mesh, s
  {
    && n in s && Valid(s, {mesh}, o) && o.own.Keys == {mesh} && s == Elements(o.own[mesh]) + {n} && n !in o.own[mesh]
    && OwnView(s, {mesh}).nodes[n].parent == None
    && Describes(m, NamesOf(s), SrcView(s), DestView(s))
  }

  lemma {:induction false} UnownedLink(mesh: Mesh, m: Labels, s: set<MeshLink>, o: Orders, n: MeshLink, name: string)
    requires Holds(mesh, m, s, o) && n !in s && n.name == name && name !in m && name != NULL_NAME
    requires n.src == null && n.srcPrev == null && n.srcNext == null && n.asSrcRoot == null
    requires n.dest == null && n.destPrev == null && n.destNext == null && n.asDestRoot == null
    requires n.owner == null && n.meshPrev == null && n.meshNext == null
    ensures Unowned(mesh, m[name := (NULL_NAME, NULL_NAME)], s + {n}, WithLists(o, n), n)
  {
    SrcJoined(s, n);
    DestJoined(s, n);
    OwnJoined(s, {mesh}, n);
    NamesJoined(s, n);
    JoinedValues(m, NamesOf(s), SrcView(s), DestView(s), OwnView(s, {mesh}), o, n, name);
  }

  lemma {:induction false} NamesJoined(s: set<MeshLink>, n: MeshLink)
    ensures NamesOf(s + {n}) == NamesOf(s)[n := n.name]
  {
  }

  lemma {:induction false} JoinedValues(m: Labels, names: map<MeshLink, string>, sv: Lists<MeshLink, MeshLink>, dv: Lists<MeshLink, MeshLink>,
                                        ov: Lists<MeshLink, Mesh>, o: Orders, n: MeshLink, name: string)
    requires Exact(sv, o.src) && Exact(dv, o.dest) && Exact(ov, o.own) && Describes(m, names, sv, dv)
    requires n !in sv.roots && n !in dv.roots && n !in sv.nodes && n !in dv.nodes && n !in ov.nodes && n !in names
    requires name !in m && name != NULL_NAME
    ensures Exact(Joined(sv, n), o.src[n := []]) && Exact(Joined(dv, n), o.dest[n := []])
    ensures Exact(ov.(nodes := ov.nodes[n := Node(None, None, None)]), o.own)
    ensures Describes(m[name := (NULL_NAME, NULL_NAME)], names[n := name], Joined(sv, n), Joined(dv, n))
  {
    DescribesNew(m, names, sv, dv, n, name);
    JoinedExact(sv, o.src, n);
    JoinedExact(dv, o.dest, n);
    AddNodeExact(ov, o.own, n);
  }

  /** Looking through the mesh's own list tells whether the table has the label. */
  lemma {:induction false} LabelFound(mesh: Mesh, m: Labels, s: set<MeshLink>, o: Orders, name: string)
    requires Holds(mesh, m, s, o)
    ensures name in m <==> exists x :: x in o.own[mesh] && x.name == name
    ensures forall x :: x in o.own[mesh] ==> x in s
  {
    DescribedLabel(m, NamesOf(s), SrcView(s), DestView(s), name);
    if HasLink(NamesOf(s), name) {
      var x :| x in NamesOf(s) && NamesOf(s)[x] == name;
      assert x in o.own[mesh] && x.name == name;
    }
    if x :| x in o.own[mesh] && x.name == name { assert NamesOf(s)[x] == name; }
  }

  /** x is a link of that label, or none for the sentinel. */
  ghost predicate IsLabelled(x: MeshLink?, name: string, names: map<MeshLink, string>) {
    (x == null <==> name == NULL_NAME) && (x != null ==> x in names && names[x] == name)
  }

  /** No link has gone or got another label. */
  ghost predicate KeepsNames(names: map<MeshLink, string>, names': map<MeshLink, string>) {
    forall x {:trigger KeepsName(names, names', x)} :: x in names ==> KeepsName(names, names', x)
  }

  ghost predicate KeepsName(names: map<MeshLink, string>, names': map<MeshLink, string>, x: MeshLink)
    requires x in names
  {
    x in names' && names'[x] == names[x]
  }

  lemma {:induction false} NamesKeptSame(a: map<MeshLink, string>)
    ensures KeepsNames(a, a)
  {
  }

  lemma {:induction false} StillLabelled(x: MeshLink?, name: string, a: map<MeshLink, string>, b: map<MeshLink, string>)
    requires IsLabelled(x, name, a) && KeepsNames(a, b)
    ensures IsLabelled(x, name, b)
  {
    if x != null { assert KeepsName(a, b, x); }
  }

  lemma {:induction false} MoreNames(a: map<MeshLink, string>, n: MeshLink, name: string)
    requires n !in a
    ensures KeepsNames(a, a[n := name])
  {
    forall x | x in a ensures KeepsName(a, a[n := name], x) {}
  }

  lemma {:induction false} MovedEnds(sv: Lists<MeshLink, MeshLink>, dv: Lists<MeshLink, MeshLink>, o: Orders, n: MeshLink,
                                     p: Option<MeshLink>, q: Option<MeshLink>)
    requires Exact(sv, o.src) && Exact(dv, o.dest) && n in sv.nodes && n in dv.nodes
    requires (p.Some? ==> p.value in sv.roots) && (q.Some? ==> q.value in dv.roots)
    ensures EndsMoved(sv, dv, Moved(sv, n, p), Moved(dv, n, q), n, p, q)
  {
    NothingDangles(sv, o.src, n);
    NothingDangles(dv, o.dest, n);
    MovedParents(sv, n, p);
    MovedParents(dv, n, q);
  }

  lemma {:induction false} EndsDescribed(m: Labels, names: map<MeshLink, string>, sv: Lists<MeshLink, MeshLink>,
                                         dv: Lists<MeshLink, MeshLink>, o: Orders, sv': Lists<MeshLink, MeshLink>,
                                         dv': Lists<MeshLink, MeshLink>, n: MeshLink, p: MeshLink?, q: MeshLink?, row: Row)
    requires Describes(m, names, sv, dv) && Exact(sv, o.src) && Exact(dv, o.dest)
    requires names.Keys == sv.nodes.Keys == dv.nodes.Keys == sv.roots.Keys == dv.roots.Keys
    requires n in names && (p != null ==> p in names) && (q != null ==> q in names)
    requires names[n] == row.name
    requires row.src == (if p == null then NULL_NAME else names[p]) && row.dest == (if q == null then NULL_NAME else names[q])
    requires sv' == Moved(sv, n, Opt(p)) && dv' == Moved(dv, n, Opt(q))
    ensures Describes(m[row.name := (row.src, row.dest)], names, sv', dv')
  {
    MovedEnds(sv, dv, o, n, Opt(p), Opt(q));
    DescribesMoved(m, names, sv, dv, sv', dv', n, Opt(p), Opt(q));
  }

  /** The link and its ends are live. */
  ghost predicate EndsIn(x: MeshLink, s: set<MeshLink>)
    reads s
  {
    x in s && (x.src != null ==> x.src in s) && (x.dest != null ==> x.dest in s)
  }

  function RowFor(x: MeshLink, ghost s: set<MeshLink>): Row
    requires EndsIn(x, s)
    reads s
  {
    Row(x.name, if x.src == null then NULL_NAME else x.src.name, if x.dest == null then NULL_NAME else x.dest.name)
  }

  /** What is stored for the k-th link of the mesh, and where the way back leads from there. */
  lemma {:induction false} StoredRow(mesh: Mesh, m: Labels, s: set<MeshLink>, o: Orders, k: nat)
    requires Holds(mesh, m, s, o) && k < |o.own[mesh]|
    ensures var x := o.own[mesh][k];
      && EndsIn(x, s) && x.meshPrev == At(o.own[mesh], k - 1)
      && RowIs(RowFor(x, s), x, NamesOf(s), SrcView(s), DestView(s))
  {
    var l, x := OwnView(s, {mesh}), o.own[mesh][k];
    assert Spells(l, mesh, o.own[mesh]) && Slot(l, mesh, o.own[mesh], k);
    assert Named(m, NamesOf(s), SrcView(s), DestView(s), x);
  }

  /** The lines of all but the first k links of q have been written, and the cursor is at the last of those. */
  ghost predicate StoredTo(q: seq<MeshLink>, s: set<MeshLink>, rows: seq<Row>, k: nat, cursor: MeshLink?, text: string)
    reads s
  {
    && |rows| + k == |q| && cursor == At(q, k - 1) && text == Lines(rows)
    && RowsFrom(rows, q, NamesOf(s), SrcView(s), DestView(s))
  }

  /** From the k-th link of q the way back leads to the link before it, and its row can be told. */
  ghost predicate StorableAt(q: seq<MeshLink>, s: set<MeshLink>, k: nat)
    requires k < |q|
    reads s
  {
    && EndsIn(q[k], s) && q[k].meshPrev == At(q, k - 1)
    && RowIs(RowFor(q[k], s), q[k], NamesOf(s), SrcView(s), DestView(s))
  }

  ghost predicate Storable(q: seq<MeshLink>, s: set<MeshLink>)
    reads s
  {
    forall k: nat {:trigger StorableAt(q, s, k)} :: k < |q| ==> StorableAt(q, s, k)
  }

  lemma {:induction false} AllStorable(mesh: Mesh, m: Labels, s: set<MeshLink>, o: Orders)
    requires Holds(mesh, m, s, o)
    ensures Storable(o.own[mesh], s)
  {
    forall k: nat | k < |o.own[mesh]| ensures StorableAt(o.own[mesh], s, k) { StoredRow(mesh, m, s, o, k); }
  }

  lemma {:induction false} OneMoreStored(q: seq<MeshLink>, s: set<MeshLink>, rows: seq<Row>, k: nat,
                                         cursor: MeshLink, text: string)
    requires Storable(q, s) && StoredTo(q, s, rows, k, cursor, text)
    ensures k > 0 && EndsIn(cursor, s)
    ensures StoredTo(q, s, rows + [RowFor(cursor, s)], k - 1, cursor.meshPrev, text + Line(RowFor(cursor, s)))
  {
    assert StorableAt(q, s, k - 1);
    OneMoreLine(rows, RowFor(cursor, s));
    OneMoreRowFrom(rows, RowFor(cursor, s), q, NamesOf(s), SrcView(s), DestView(s));
  }

  lemma {:induction false} AllStoredTo(q: seq<MeshLink>, s: set<MeshLink>, rows: seq<Row>, k: nat, text: string)
    requires StoredTo(q, s, rows, k, null, text)
    ensures text == Lines(StoredRows(q, NamesOf(s), SrcView(s), DestView(s)))
  {
    TheseAreStored(rows, q, NamesOf(s), SrcView(s), DestView(s));
  }

  lemma {:induction false} LoadsBack(mesh: Mesh, s: set<MeshLink>, o: Orders, m: Labels)
    requires Holds(mesh, m, s, o) && (forall k :: k in m ==> Word(k))
    ensures WithRows(map[], Rows(Text(StoredRows(o.own[mesh], NamesOf(s), SrcView(s), DestView(s))))) == m
  {
    ChainOf(mesh, s, {mesh}, o.own);
    StoredIsLoaded(o.own[mesh], m, NamesOf(s), SrcView(s), DestView(s));
  }

  lemma {:induction false} EmptyMesh(mesh: Mesh)
    requires mesh.root == null
    ensures Holds(mesh, map[], {}, Orders(map[], map[], map[mesh := []]))
  {
    var own: map<Mesh, seq<MeshLink>> := map[mesh := []];
    assert Spells(OwnView({}, {mesh}), mesh, own[mesh]);
  }

  lemma {:induction false} OwnedNow(mesh: Mesh, own: map<Mesh, seq<MeshLink>>, s: set<MeshLink>, n: MeshLink)
    requires own.Keys == {mesh} && s == Elements(own[mesh]) + {n}
    ensures var own' := JoinedBack(Left(own, n, None), n, Some(mesh));
      own'.Keys == {mesh} && s == Elements(own'[mesh])
  {
  }

  lemma {:induction false} JoinedExact(l: Lists<MeshLink, MeshLink>, order: Order, n: MeshLink)
    requires Exact(l, order) && n !in l.nodes && n !in order
    ensures Exact(Joined(l, n), order[n := []])
  {
    AddNodeExact(l, order, n);
    AddParentExact(l.(nodes := l.nodes[n := Node(None, None, None)]), order, n);
  }

  /** Walking the mesh from its root meets exactly q. */
  ghost predicate Chain(m: Mesh, s: set<MeshLink>, q: seq<MeshLink>)
    reads m`root, s`meshNext
  {
    m.root == At(q, 0) && forall k: nat :: k < |q| ==> OwnStep(s, q, k)
  }

  lemma {:induction false} ChainOf(m: Mesh, s: set<MeshLink>, ms: set<Mesh>, own: map<Mesh, seq<MeshLink>>)
    requires m in ms && Exact(OwnView(s, ms), own)
    ensures Chain(m, s, own[m]) && Distinct(own[m])
    ensures forall x :: x in own[m] <==> x in s && x.owner == m
  {
    var l, q := OwnView(s, ms), own[m];
    assert Spells(l, m, q);
    forall k: nat | k < |q| ensures OwnStep(s, q, k) { assert Slot(l, m, q, k); }
    forall x ensures x in q <==> x in s && x.owner == m { ListedIffChild(l, own, m, x); }
  }

  lemma {:induction false} AllCleared(q: seq<MeshLink>, k: nat)
    requires k <= |q| && At(q, k) == null
    ensures k == |q| && Firsts(q, k) == Elements(q) && q[k..] == []
  {
    AllInFirsts(q);
    FirstsIn(q, k);
  }

  /** The lists a mesh started clearing with, its own order, and all meshes. */
  datatype Clearing = Clearing(sv: Lists<MeshLink, MeshLink>, dv: Lists<MeshLink, MeshLink>, o: Orders,
                               q: seq<MeshLink>, ms: set<Mesh>)

  /** The first k links of the mesh are gone from the links s0, and nothing else. */
  ghost predicate ClearedTo(m: Mesh, u: Clearing, k: nat, s0: set<MeshLink>, s: set<MeshLink>, o: Orders)
    reads m, s, u.ms
  {
    match u
    case Clearing(_, _, _, q, ms) =>
      && Valid(s, ms, o) && ClearedAs(m, u, k, s0, s, SrcView(s), DestView(s), o)
      && m.root == At(q, k)
  }

  ghost predicate ClearedAs(m: Mesh, u: Clearing, k: nat, s0: set<MeshLink>, s: set<MeshLink>,
                            sv: Lists<MeshLink, MeshLink>, dv: Lists<MeshLink, MeshLink>, o: Orders)
  {
    && k <= |u.q| && s == s0 - Firsts(u.q, k) && m in u.o.own && o.own == u.o.own[m := u.q[k..]]
    && Exact(u.sv, u.o.src) && Exact(u.dv, u.o.dest)
    && SurvivesAll(u.sv, u.o.src, sv, o.src, Firsts(u.q, k)) && SurvivesAll(u.dv, u.o.dest, dv, o.dest, Firsts(u.q, k))
  }

  lemma {:induction false} ClearStep(m: Mesh, u: Clearing, k: nat, s0: set<MeshLink>, s: set<MeshLink>,
                                     sv: Lists<MeshLink, MeshLink>, dv: Lists<MeshLink, MeshLink>, o: Orders,
                                     sv': Lists<MeshLink, MeshLink>, dv': Lists<MeshLink, MeshLink>, o': Orders)
    requires ClearedAs(m, u, k, s0, s, sv, dv, o) && k < |u.q|
    requires Survives(sv, o.src, sv', o'.src, u.q[k]) && Survives(dv, o.dest, dv', o'.dest, u.q[k])
    requires o'.own == o.own[m := u.q[k + 1..]]
    ensures ClearedAs(m, u, k + 1, s0, s - {u.q[k]}, sv', dv', o')
  {
    OneMoreGone(u.sv, u.o.src, sv, o.src, sv', o'.src, Firsts(u.q, k), u.q[k]);
    OneMoreGone(u.dv, u.o.dest, dv, o.dest, dv', o'.dest, Firsts(u.q, k), u.q[k]);
  }

  lemma {:induction false} NothingCleared(m: Mesh, u: Clearing, s: set<MeshLink>)
    requires m in u.ms && Valid(s, u.ms, u.o) && u.sv == SrcView(s) && u.dv == DestView(s) && u.q == u.o.own[m]
    ensures ClearedTo(m, u, 0, s, s, u.o)
  {
    FirstToClear(m, u.q, 0, s, u.ms, u.o.own);
    NobodyGone(u.sv, u.o.src);
    NobodyGone(u.dv, u.o.dest);
  }

  lemma {:induction false} OneLess(own: map<Mesh, seq<MeshLink>>, m: Mesh, q: seq<MeshLink>, k: nat)
    requires k < |q| && m in own && own[m] == q[k..]
    ensures Left(own, q[k], Some(m)) == own[m := q[k + 1..]]
  {
    assert q[k..] == [q[k]] + q[k + 1..];
  }

  /** Where the mesh starts once k of its links are gone. */
  lemma {:induction false} FirstToClear(m: Mesh, q: seq<MeshLink>, k: nat, s: set<MeshLink>, ms: set<Mesh>,
                                        own: map<Mesh, seq<MeshLink>>)
    requires m in ms && Exact(OwnView(s, ms), own) && k <= |q| && own[m] == q[k..]
    ensures m.root == At(q, k)
    ensures k < |q| ==>
      q[k] in s && q[k].meshNext == At(q, k + 1) && OwnView(s, ms).nodes[q[k]].parent == Some(m)
  {
    ChainOf(m, s, ms, own);
    if k < |q| {
      assert OwnStep(s, own[m], 0);
      OwnerOf(m, s, ms, own, q[k]);
    }
  }

  lemma {:induction false} OwnerOf(m: Mesh, s: set<MeshLink>, ms: set<Mesh>, own: map<Mesh, seq<MeshLink>>, x: MeshLink)
    requires m in ms && Exact(OwnView(s, ms), own) && x in own[m]
    ensures x in s && OwnView(s, ms).nodes[x].parent == Some(m)
  {
    ListedIffChild(OwnView(s, ms), own, m, x);
  }

  lemma {:induction false} SrcWalk(s: set<MeshLink>, src: Order, x: MeshLink)
    requires Exact(SrcView(s), src) && x in s
    ensures x in src && x.asSrcRoot == At(src[x], 0)
    ensures forall k: nat :: k < |src[x]| ==> SrcStep(s, src[x], k)
  {
    var l := SrcView(s);
    assert Spells(l, x, src[x]);
    forall k: nat | k < |src[x]| ensures SrcStep(s, src[x], k) {
      assert Slot(l, x, src[x], k);
    }
  }

  lemma {:induction false} DestWalk(s: set<MeshLink>, dest: Order, x: MeshLink)
    requires Exact(DestView(s), dest) && x in s
    ensures x in dest && x.asDestRoot == At(dest[x], 0)
    ensures forall k: nat :: k < |dest[x]| ==> DestStep(s, dest[x], k)
  {
    var l := DestView(s);
    assert Spells(l, x, dest[x]);
    forall k: nat | k < |dest[x]| ensures DestStep(s, dest[x], k) {
      assert Slot(l, x, dest[x], k);
    }
  }

  lemma {:induction false} NeighboursOf(s: set<MeshLink>, src: Order, dest: Order,
                                        e: map<MeshLink, set<MeshLink>>, x: MeshLink, y: MeshLink)
    requires Exact(SrcView(s), src) && Exact(DestView(s), dest) && e == Edges(SrcView(s), DestView(s)) && x in s
    ensures x in src && x in dest && x in e
    ensures y in e[x] <==> y == x.src || y == x.dest || y in src[x] || y in dest[x]
  {
    Neighbours(SrcView(s), DestView(s), src, dest, x, y);
  }

  /** Links in exact lists are ready for marking. */
  lemma {:induction false} ReadyToMark(s: set<MeshLink>, g: Graph, x: MeshLink)
    requires Exact(SrcView(s), g.src) && Exact(DestView(s), g.dest) && g.edges == Edges(SrcView(s), DestView(s)) && x in s
    ensures Meets(g, s, x)
  {
    SrcWalk(s, g.src, x);
    DestWalk(s, g.dest, x);
    forall y: MeshLink ensures y in g.edges[x] <==> y == x.src || y == x.dest || y in g.src[x] || y in g.dest[x] {
      NeighboursOf(s, g.src, g.dest, g.edges, x, y);
    }
  }

  /** The lists by source and by destination, every link's neighbours, and the links that were marked before. */
  datatype Graph = Graph(src: Order, dest: Order, edges: map<MeshLink, set<MeshLink>>, leftover: set<MeshLink>)

  /** Position k of q, or null before and past its ends. */
  ghost function At(q: seq<MeshLink>, k: int): MeshLink? {
    if 0 <= k < |q| then q[k] else null
  }

  ghost function Firsts(q: seq<MeshLink>, k: nat): set<MeshLink>
    requires k <= |q|
  {
    if k == 0 then {} else Firsts(q, k - 1) + {q[k - 1]}
  }

  lemma {:induction false} InFirsts(q: seq<MeshLink>, k: nat, i: nat)
    requires i < k <= |q|
    ensures q[i] in Firsts(q, k)
  {
    if i == k - 1 {
    } else {
      InFirsts(q, k - 1, i);
    }
  }

  lemma {:induction false} FirstsIn(q: seq<MeshLink>, k: nat)
    requires k <= |q|
    ensures forall x :: x in Firsts(q, k) ==> x in q
  {
    if k == 0 {
    } else {
      FirstsIn(q, k - 1);
    }
  }

  lemma {:induction false} AllInFirsts(q: seq<MeshLink>)
    ensures forall x :: x in q ==> x in Firsts(q, |q|)
  {
    forall x | x in q ensures x in Firsts(q, |q|) {
      var i: nat :| i < |q| && q[i] == x;
      InFirsts(q, |q|, i);
    }
  }

  /** Once the ends and both lists are marked, so are all neighbours. */
  lemma {:induction false} AllMarked(g: Graph, s: set<MeshLink>, x: MeshLink, m: set<MeshLink>)
    requires x in s && Meets(g, s, x)
    requires (x.src != null ==> x.src in m) && (x.dest != null ==> x.dest in m)
    requires Firsts(g.src[x], |g.src[x]|) <= m && Firsts(g.dest[x], |g.dest[x]|) <= m
    ensures g.edges[x] <= m
  {
    AllInFirsts(g.src[x]);
    AllInFirsts(g.dest[x]);
  }

  ghost predicate SrcStep(s: set<MeshLink>, q: seq<MeshLink>, k: nat)
    requires k < |q|
    reads s`srcNext
  {
    q[k] in s && q[k].srcNext == At(q, k + 1)
  }

  ghost predicate DestStep(s: set<MeshLink>, q: seq<MeshLink>, k: nat)
    requires k < |q|
    reads s`destNext
  {
    q[k] in s && q[k].destNext == At(q, k + 1)
  }

  /** The pointers marking follows from x lead along its two lists and to all its neighbours. */
  ghost predicate Meets(g: Graph, s: set<MeshLink>, x: MeshLink)
    requires x in s
    reads s`src, s`srcNext, s`asSrcRoot, s`dest, s`destNext, s`asDestRoot
  {
    && x in g.src && x in g.dest && x in g.edges
    && x.asSrcRoot == At(g.src[x], 0) && x.asDestRoot == At(g.dest[x], 0)
    && (forall k: nat :: k < |g.src[x]| ==> SrcStep(s, g.src[x], k))
    && (forall k: nat :: k < |g.dest[x]| ==> DestStep(s, g.dest[x], k))
    && (forall y :: y in g.src[x] ==> y in g.edges[x]) && (forall y :: y in g.dest[x] ==> y in g.edges[x])
    && (x.src != null ==> x.src in g.edges[x]) && (x.dest != null ==> x.dest in g.edges[x])
    && (forall y :: y in g.edges[x] ==> y == x.src || y == x.dest || y in g.src[x] || y in g.dest[x])
  }

  ghost predicate Roams(g: Graph, s: set<MeshLink>, c: set<MeshLink>, x: MeshLink)
    requires x in s
    reads s`src, s`srcNext, s`asSrcRoot, s`dest, s`destNext, s`asDestRoot
  {
    Meets(g, s, x) && (x in g.leftover || g.edges[x] <= c)
  }

  /** c is a set of links that marking cannot leave; it does not go on from the links marked before. */
  ghost predicate Markable(g: Graph, s: set<MeshLink>, c: set<MeshLink>)
    reads s`src, s`srcNext, s`asSrcRoot, s`dest, s`destNext, s`asDestRoot
  {
    c <= s && forall x {:trigger Roams(g, s, c, x)} :: x in c ==> Roams(g, s, c, x)
  }

  ghost function MarkedBy(s: set<MeshLink>, id: int): set<MeshLink>
    reads s`pruneId
  {
    set x | x in s && x.pruneId == id
  }

  class MeshLink {
    var pruneId: int
    var name: string
    var src: MeshLink?
    var dest: MeshLink?
    var asSrcRoot: MeshLink?
    var asDestRoot: MeshLink?
    var srcPrev: MeshLink?
    var srcNext: MeshLink?
    var destPrev: MeshLink?
    var destNext: MeshLink?
    var meshPrev: MeshLink?
    var meshNext: MeshLink?
    var owner: Mesh?

    constructor ()
      ensures src == null && dest == null && asSrcRoot == null && asDestRoot == null
      ensures srcPrev == null && srcNext == null && destPrev == null && destNext == null
      ensures meshPrev == null && meshNext == null && owner == null && pruneId == 0
    {
      pruneId, name := 0, "";
      src, dest, asSrcRoot, asDestRoot := null, null, null, null;
      srcPrev, srcNext, destPrev, destNext := null, null, null, null;
      meshPrev, meshNext, owner := null, null, null;
    }

    // ----- the list of links sharing a source

    method PutSrcRoot(x: MeshLink?, ghost s: set<MeshLink>, ghost l: Lists<MeshLink, MeshLink>)
      requires this in s && ShowsSrc(l, s)
      modifies this`asSrcRoot
      ensures ShowsSrc(l.(roots := l.roots[this := Opt(x)]), s)
    {
      asSrcRoot := x;
    }

    method PutSrc(x: MeshLink?, prev: MeshLink?, next: MeshLink?, ghost s: set<MeshLink>,
                  ghost l: Lists<MeshLink, MeshLink>)
      requires this in s && ShowsSrc(l, s)
      modifies this`src, this`srcPrev, this`srcNext
      ensures ShowsSrc(l.(nodes := l.nodes[this := Node(Opt(x), Opt(prev), Opt(next))]), s)
      ensures src == x
    {
      src, srcPrev, srcNext := x, prev, next;
    }

    static method PutSrcNext(x: MeshLink?, next: MeshLink?, ghost s: set<MeshLink>, ghost l: Lists<MeshLink, MeshLink>)
      requires ShowsSrc(l, s) && (x != null ==> x in s)
      modifies s`srcNext
      ensures ShowsSrc(SetNext(l, Opt(x), Opt(next)), s)
      ensures forall y :: y in s && y != x ==> y.srcNext == old(y.srcNext)
    {
      if x != null { x.srcNext := next; }
    }

    static method PutSrcPrev(x: MeshLink?, prev: MeshLink?, ghost s: set<MeshLink>, ghost l: Lists<MeshLink, MeshLink>)
      requires ShowsSrc(l, s) && (x != null ==> x in s)
      modifies s`srcPrev
      ensures ShowsSrc(SetPrev(l, Opt(x), Opt(prev)), s)
      ensures forall y :: y in s && y != x ==> y.srcPrev == old(y.srcPrev)
    {
      if x != null { x.srcPrev := prev; }
    }

    /** The source's list starts behind this link if it started with it. */
    method PassSrcRoot(ghost s: set<MeshLink>, ghost l: Lists<MeshLink, MeshLink>)
      requires this in s && src in s && ShowsSrc(l, s)
      modifies src`asSrcRoot
      ensures ShowsSrc(RootPast(l, this, src), s)
    {
      if src.asSrcRoot == this {
        src.PutSrcRoot(srcNext, s, l);
      }
    }

    /** Takes this link out between its two neighbours. */
    method CutSource(ghost s: set<MeshLink>, ghost l: Lists<MeshLink, MeshLink>)
      requires this in s && src in s && ShowsSrc(l, s)
      requires srcPrev != null ==> srcPrev in s && srcPrev != this
      requires srcNext != null ==> srcNext in s && srcNext != this
      modifies s`src, s`srcPrev, s`srcNext, s`asSrcRoot
      ensures ShowsSrc(Unlink(l, this), s)
    {
      ghost var l1, c := RootPast(l, this, src), l.nodes[this];
      PassSrcRoot(s, l);
      PutSrcNext(srcPrev, srcNext, s, l1);
      PutSrcPrev(srcNext, srcPrev, s, SetNext(l1, c.prev, c.next));
      PutSrc(null, null, null, s, SetPrev(SetNext(l1, c.prev, c.next), c.next, c.prev));
    }

    /** Leaves the list of the current source, if there is one. */
    method LeaveSource(ghost s: set<MeshLink>, ghost order: Order)
      requires this in s && Exact(SrcView(s), order)
      modifies s`src, s`srcPrev, s`srcNext, s`asSrcRoot
      ensures SrcView(s) == Moved(old(SrcView(s)), this, None) && SrcView(s).nodes[this].parent == None
      ensures Exact(SrcView(s), Left(order, this, Opt(old(src))))
    {
      if src != null {
        ghost var l := SrcView(s);
        NothingDangles(l, order, this);
        NotOwnNeighbour(l, order, this);
        UnlinkExact(l, order, this);
        CutSource(s, l);
        OneSrcView(Unlink(l, this), s);
      }
    }

    /** Puts this link before the first link of link's list. */
    method PasteSource(link: MeshLink, ghost s: set<MeshLink>, ghost l: Lists<MeshLink, MeshLink>)
      requires this in s && link in s && ShowsSrc(l, s)
      requires l.roots[link].Some? ==> l.roots[link].value in s && l.roots[link].value != this
      requires l.roots[link].Some? ==> l.nodes[l.roots[link].value].prev == None
      modifies s`src, s`srcPrev, s`srcNext, s`asSrcRoot
      ensures ShowsSrc(PushFront(l, this, link), s)
    {
      ghost var l1 := SetPrev(l, l.roots[link], Some(this));
      var first := link.asSrcRoot;
      PutSrcPrev(first, this, s, l);
      PutSrc(link, null, first, s, l1);
      link.PutSrcRoot(this, s, l1.(nodes := l1.nodes[this := Node(Some(link), None, Opt(first))]));
    }

    /** Becomes the first of link's list. */
    method JoinSource(link: MeshLink, ghost s: set<MeshLink>, ghost order: Order)
      requires this in s && link in s && SrcView(s).nodes[this].parent == None && Exact(SrcView(s), order)
      modifies s`src, s`srcPrev, s`srcNext, s`asSrcRoot
      ensures SrcView(s) == PushFront(old(SrcView(s)), this, link)
      ensures Exact(SrcView(s), JoinedFront(order, this, Some(link)))
    {
      ghost var l := SrcView(s);
      RootIsOther(l, order, this, link);
      PasteSource(link, s, l);
      OneSrcView(PushFront(l, this, link), s);
      PushFrontExact(l, order, this, link);
    }

    /** Changes the source: leaves the old source's list and becomes the first of the new one's. */
    method ChangeSource(link: MeshLink?, ghost s: set<MeshLink>, ghost order: Order) returns (ghost order': Order)
      requires this in s && (link != null ==> link in s)
      requires Exact(SrcView(s), order)
      modifies s`src, s`srcPrev, s`srcNext, s`asSrcRoot
      ensures order' == JoinedFront(Left(order, this, old(SrcView(s)).nodes[this].parent), this, Opt(link))
      ensures Exact(SrcView(s), order')
      ensures SrcView(s) == Moved(old(SrcView(s)), this, Opt(link))
    {
      order' := Left(order, this, Opt(src));
      LeaveSource(s, order);
      if link != null {
        JoinSource(link, s, order');
        order' := JoinedFront(order', this, Some(link));
      }
    }

    /** Releases the links of this one's list q from the front on. */
    method ClearSources(ghost s: set<MeshLink>, ghost l: Lists<MeshLink, MeshLink>, ghost q: seq<MeshLink>)
      requires this in s && ShowsSrc(l, s) && Spells(l, this, q)
      modifies s`src, s`srcPrev, s`srcNext, this`asSrcRoot
      ensures ShowsSrc(Cleared(l, this, q, |q|), s)
    {
      ghost var k := 0;
      ClearedNone(l, this, q);
      var cursor := asSrcRoot;
      while cursor != null
        invariant 0 <= k <= |q| && Opt(cursor) == First(q[k..])
        invariant ShowsSrc(Cleared(l, this, q, k), s)
        decreases |q| - k
      {
        ClearedStep(l, this, q, k);
        ghost var c := Cleared(l, this, q, k);
        PutSrcRoot(cursor.srcNext, s, c);
        cursor.PutSrc(null, null, null, s, c.(roots := c.roots[this := First(q[k + 1..])]));
        cursor := asSrcRoot;
        k := k + 1;
      }
    }

    /** Disconnects every link that has this one as its source. */
    method ReleaseSources(ghost s: set<MeshLink>, ghost order: Order)
      requires this in s && Exact(SrcView(s), order)
      modifies s`src, s`srcPrev, s`srcNext, this`asSrcRoot
      ensures Exact(SrcView(s), order[this := []])
      ensures SrcView(s) == Cleared(old(SrcView(s)), this, order[this], |order[this]|)
    {
      ghost var l, q := SrcView(s), order[this];
      assert Spells(l, this, q);
      ClearedExact(l, order, this);
      ClearSources(s, l, q);
      OneSrcView(Cleared(l, this, q, |q|), s);
    }

    // ----- the list of links sharing a destination

    method PutDestRoot(x: MeshLink?, ghost s: set<MeshLink>, ghost l: Lists<MeshLink, MeshLink>)
      requires this in s && ShowsDest(l, s)
      modifies this`asDestRoot
      ensures ShowsDest(l.(roots := l.roots[this := Opt(x)]), s)
    {
      asDestRoot := x;
    }

    method PutDest(x: MeshLink?, prev: MeshLink?, next: MeshLink?, ghost s: set<MeshLink>,
                   ghost l: Lists<MeshLink, MeshLink>)
      requires this in s && ShowsDest(l, s)
      modifies this`dest, this`destPrev, this`destNext
      ensures ShowsDest(l.(nodes := l.nodes[this := Node(Opt(x), Opt(prev), Opt(next))]), s)
      ensures dest == x
    {
      dest, destPrev, destNext := x, prev, next;
    }

    static method PutDestNext(x: MeshLink?, next: MeshLink?, ghost s: set<MeshLink>, ghost l: Lists<MeshLink, MeshLink>)
      requires ShowsDest(l, s) && (x != null ==> x in s)
      modifies s`destNext
      ensures ShowsDest(SetNext(l, Opt(x), Opt(next)), s)
      ensures forall y :: y in s && y != x ==> y.destNext == old(y.destNext)
    {
      if x != null { x.destNext := next; }
    }

    static method PutDestPrev(x: MeshLink?, prev: MeshLink?, ghost s: set<MeshLink>, ghost l: Lists<MeshLink, MeshLink>)
      requires ShowsDest(l, s) && (x != null ==> x in s)
      modifies s`destPrev
      ensures ShowsDest(SetPrev(l, Opt(x), Opt(prev)), s)
      ensures forall y :: y in s && y != x ==> y.destPrev == old(y.destPrev)
    {
      if x != null { x.destPrev := prev; }
    }

    /** The destination's list starts behind this link if it started with it. */
    method PassDestRoot(ghost s: set<MeshLink>, ghost l: Lists<MeshLink, MeshLink>)
      requires this in s && dest in s && ShowsDest(l, s)
      modifies dest`asDestRoot
      ensures ShowsDest(RootPast(l, this, dest), s)
    {
      if dest.asDestRoot == this {
        dest.PutDestRoot(destNext, s, l);
      }
    }

    /** Takes this link out between its two neighbours. */
    method CutDest(ghost s: set<MeshLink>, ghost l: Lists<MeshLink, MeshLink>)
      requires this in s && dest in s && ShowsDest(l, s)
      requires destPrev != null ==> destPrev in s && destPrev != this
      requires destNext != null ==> destNext in s && destNext != this
      modifies s`dest, s`destPrev, s`destNext, s`asDestRoot
      ensures ShowsDest(Unlink(l, this), s)
    {
      ghost var l1, c := RootPast(l, this, dest), l.nodes[this];
      PassDestRoot(s, l);
      PutDestNext(destPrev, destNext, s, l1);
      PutDestPrev(destNext, destPrev, s, SetNext(l1, c.prev, c.next));
      PutDest(null, null, null, s, SetPrev(SetNext(l1, c.prev, c.next), c.next, c.prev));
    }

    /** Leaves the list of the current destination, if there is one. */
    method LeaveDest(ghost s: set<MeshLink>, ghost order: Order)
      requires this in s && Exact(DestView(s), order)
      modifies s`dest, s`destPrev, s`destNext, s`asDestRoot
      ensures DestView(s) == Moved(old(DestView(s)), this, None) && DestView(s).nodes[this].parent == None
      ensures Exact(DestView(s), Left(order, this, Opt(old(dest))))
    {
      if dest != null {
        ghost var l := DestView(s);
        NothingDangles(l, order, this);
        NotOwnNeighbour(l, order, this);
        UnlinkExact(l, order, this);
        CutDest(s, l);
        OneDestView(Unlink(l, this), s);
      }
    }

    /** Puts this link before the first link of link's list. */
    method PasteDest(link: MeshLink, ghost s: set<MeshLink>, ghost l: Lists<MeshLink, MeshLink>)
      requires this in s && link in s && ShowsDest(l, s)
      requires l.roots[link].Some? ==> l.roots[link].value in s && l.roots[link].value != this
      requires l.roots[link].Some? ==> l.nodes[l.roots[link].value].prev == None
      modifies s`dest, s`destPrev, s`destNext, s`asDestRoot
      ensures ShowsDest(PushFront(l, this, link), s)
    {
      ghost var l1 := SetPrev(l, l.roots[link], Some(this));
      var first := link.asDestRoot;
      PutDestPrev(first, this, s, l);
      PutDest(link, null, first, s, l1);
      link.PutDestRoot(this, s, l1.(nodes := l1.nodes[this := Node(Some(link), None, Opt(first))]));
    }

    /** Becomes the first of link's list. */
    method JoinDest(link: MeshLink, ghost s: set<MeshLink>, ghost order: Order)
      requires this in s && link in s && DestView(s).nodes[this].parent == None && Exact(DestView(s), order)
      modifies s`dest, s`destPrev, s`destNext, s`asDestRoot
      ensures DestView(s) == PushFront(old(DestView(s)), this, link)
      ensures Exact(DestView(s), JoinedFront(order, this, Some(link)))
    {
      ghost var l := DestView(s);
      RootIsOther(l, order, this, link);
      PasteDest(link, s, l);
      OneDestView(PushFront(l, this, link), s);
      PushFrontExact(l, order, this, link);
    }

    /** Changes the destination: leaves the old destination's list and becomes the first of the new one's. */
    method ChangeDest(link: MeshLink?, ghost s: set<MeshLink>, ghost order: Order) returns (ghost order': Order)
      requires this in s && (link != null ==> link in s)
      requires Exact(DestView(s), order)
      modifies s`dest, s`destPrev, s`destNext, s`asDestRoot
      ensures order' == JoinedFront(Left(order, this, old(DestView(s)).nodes[this].parent), this, Opt(link))
      ensures Exact(DestView(s), order')
      ensures DestView(s) == Moved(old(DestView(s)), this, Opt(link))
    {
      order' := Left(order, this, Opt(dest));
      LeaveDest(s, order);
      if link != null {
        JoinDest(link, s, order');
        order' := JoinedFront(order', this, Some(link));
      }
    }

    /** Releases the links of this one's list q from the front on. */
    method ClearDests(ghost s: set<MeshLink>, ghost l: Lists<MeshLink, MeshLink>, ghost q: seq<MeshLink>)
      requires this in s && ShowsDest(l, s) && Spells(l, this, q)
      modifies s`dest, s`destPrev, s`destNext, this`asDestRoot
      ensures ShowsDest(Cleared(l, this, q, |q|), s)
    {
      ghost var k := 0;
      ClearedNone(l, this, q);
      var cursor := asDestRoot;
      while cursor != null
        invariant 0 <= k <= |q| && Opt(cursor) == First(q[k..])
        invariant ShowsDest(Cleared(l, this, q, k), s)
        decreases |q| - k
      {
        ClearedStep(l, this, q, k);
        ghost var c := Cleared(l, this, q, k);
        PutDestRoot(cursor.destNext, s, c);
        cursor.PutDest(null, null, null, s, c.(roots := c.roots[this := First(q[k + 1..])]));
        cursor := asDestRoot;
        k := k + 1;
      }
    }

    /** Disconnects every link that has this one as its destination. */
    method ReleaseDests(ghost s: set<MeshLink>, ghost order: Order)
      requires this in s && Exact(DestView(s), order)
      modifies s`dest, s`destPrev, s`destNext, this`asDestRoot
      ensures Exact(DestView(s), order[this := []])
      ensures DestView(s) == Cleared(old(DestView(s)), this, order[this], |order[this]|)
    {
      ghost var l, q := DestView(s), order[this];
      assert Spells(l, this, q);
      ClearedExact(l, order, this);
      ClearDests(s, l, q);
      OneDestView(Cleared(l, this, q, |q|), s);
    }

    // ----- the list of links sharing an owner

    method PutOwn(x: Mesh?, prev: MeshLink?, next: MeshLink?, ghost s: set<MeshLink>, ghost ms: set<Mesh>,
                  ghost l: Lists<MeshLink, Mesh>)
      requires this in s && ShowsOwn(l, s, ms)
      modifies this`owner, this`meshPrev, this`meshNext
      ensures ShowsOwn(l.(nodes := l.nodes[this := Node(OptMesh(x), Opt(prev), Opt(next))]), s, ms)
      ensures owner == x
    {
      owner, meshPrev, meshNext := x, prev, next;
    }

    static method PutMeshNext(x: MeshLink?, next: MeshLink?, ghost s: set<MeshLink>, ghost ms: set<Mesh>,
                              ghost l: Lists<MeshLink, Mesh>)
      requires ShowsOwn(l, s, ms) && (x != null ==> x in s)
      modifies s`meshNext
      ensures ShowsOwn(SetNext(l, Opt(x), Opt(next)), s, ms)
      ensures forall y :: y in s && y != x ==> y.meshNext == old(y.meshNext)
    {
      if x != null { x.meshNext := next; }
    }

    static method PutMeshPrev(x: MeshLink?, prev: MeshLink?, ghost s: set<MeshLink>, ghost ms: set<Mesh>,
                              ghost l: Lists<MeshLink, Mesh>)
      requires ShowsOwn(l, s, ms) && (x != null ==> x in s)
      modifies s`meshPrev
      ensures ShowsOwn(SetPrev(l, Opt(x), Opt(prev)), s, ms)
      ensures forall y :: y in s && y != x ==> y.meshPrev == old(y.meshPrev)
    {
      if x != null { x.meshPrev := prev; }
    }

    /** The owner's list starts behind this link if it started with it. */
    method PassRoot(ghost s: set<MeshLink>, ghost ms: set<Mesh>, ghost l: Lists<MeshLink, Mesh>)
      requires this in s && owner in ms && ShowsOwn(l, s, ms)
      modifies owner`root
      ensures ShowsOwn(RootPast(l, this, owner), s, ms)
    {
      if owner.root == this {
        owner.PutRoot(meshNext, s, ms, l);
      }
    }

    /** Takes this link out between its two neighbours. */
    method CutOwn(ghost s: set<MeshLink>, ghost ms: set<Mesh>, ghost l: Lists<MeshLink, Mesh>)
      requires this in s && owner in ms && ShowsOwn(l, s, ms)
      requires meshPrev != null ==> meshPrev in s && meshPrev != this
      requires meshNext != null ==> meshNext in s && meshNext != this
      modifies s`owner, s`meshPrev, s`meshNext, ms`root
      ensures ShowsOwn(Unlink(l, this), s, ms)
    {
      ghost var l1, c := RootPast(l, this, owner), l.nodes[this];
      PassRoot(s, ms, l);
      PutMeshNext(meshPrev, meshNext, s, ms, l1);
      PutMeshPrev(meshNext, meshPrev, s, ms, SetNext(l1, c.prev, c.next));
      PutOwn(null, null, null, s, ms, SetPrev(SetNext(l1, c.prev, c.next), c.next, c.prev));
    }

    /** Leaves the list of the current owner, if there is one. */
    method LeaveOwner(ghost s: set<MeshLink>, ghost ms: set<Mesh>, ghost order: map<Mesh, seq<MeshLink>>)
      requires this in s && Exact(OwnView(s, ms), order)
      modifies s`owner, s`meshPrev, s`meshNext, ms`root
      ensures OwnView(s, ms) == Moved(old(OwnView(s, ms)), this, None) && OwnView(s, ms).nodes[this].parent == None
      ensures Exact(OwnView(s, ms), Left(order, this, OptMesh(old(owner))))
    {
      if owner != null {
        ghost var l := OwnView(s, ms);
        NothingDangles(l, order, this);
        NotOwnNeighbour(l, order, this);
        UnlinkExact(l, order, this);
        CutOwn(s, ms, l);
        OneOwnView(Unlink(l, this), s, ms);
      }
    }

    /** Walks from the first link of mesh's list to the last. */
    method LastOf(mesh: Mesh, ghost s: set<MeshLink>, ghost ms: set<Mesh>, ghost l: Lists<MeshLink, Mesh>,
                  ghost q: seq<MeshLink>)
      returns (cursor: MeshLink?)
      requires mesh in ms && ShowsOwn(l, s, ms) && Spells(l, mesh, q)
      ensures Opt(cursor) == Last(q) && (cursor != null ==> cursor in q)
    {
      cursor := mesh.root;
      assert RootAt(mesh, l.roots[mesh]);
      if cursor != null {
        ghost var k := 0;
        assert Slot(l, mesh, q, 0) && OwnAt(q[0], l.nodes[q[0]]);
        while cursor.meshNext != null
          invariant 0 <= k < |q| && cursor == q[k] && Slot(l, mesh, q, k) && OwnAt(q[k], l.nodes[q[k]])
          decreases |q| - k
        {
          cursor := cursor.meshNext;
          k := k + 1;
          assert Slot(l, mesh, q, k) && OwnAt(q[k], l.nodes[q[k]]);
        }
      }
    }

    /** Puts this link after last, the last link of mesh's list. */
    method PasteOwn(mesh: Mesh, last: MeshLink?, ghost s: set<MeshLink>, ghost ms: set<Mesh>,
                    ghost l: Lists<MeshLink, Mesh>)
      requires this in s && mesh in ms && ShowsOwn(l, s, ms)
      requires last != this && (last != null ==> last in s)
      modifies s`owner, s`meshPrev, s`meshNext, mesh`root
      ensures ShowsOwn(PushBack(l, this, mesh, Opt(last)), s, ms)
    {
      ghost var l1 := SetNext(l, Opt(last), Some(this));
      PutMeshNext(last, this, s, ms, l);
      PutOwn(mesh, last, null, s, ms, l1);
      l1 := l1.(nodes := l1.nodes[this := Node(Some(mesh), Opt(last), None)]);
      if last == null { mesh.PutRoot(this, s, ms, l1); }
    }

    /** Becomes the last of mesh's list. */
    method JoinOwner(mesh: Mesh, ghost s: set<MeshLink>, ghost ms: set<Mesh>, ghost order: map<Mesh, seq<MeshLink>>)
      requires this in s && mesh in ms && OwnView(s, ms).nodes[this].parent == None && Exact(OwnView(s, ms), order)
      modifies s`owner, s`meshPrev, s`meshNext, mesh`root
      ensures OwnView(s, ms) == PushBack(old(OwnView(s, ms)), this, mesh, Last(order[mesh]))
      ensures Exact(OwnView(s, ms), JoinedBack(order, this, Some(mesh)))
    {
      ghost var l, q := OwnView(s, ms), order[mesh];
      assert Spells(l, mesh, q);
      ListedIsOther(l, order, this, mesh);
      PushBackExact(l, order, this, mesh);
      var last := LastOf(mesh, s, ms, l, q);
      PasteOwn(mesh, last, s, ms, l);
      OneOwnView(PushBack(l, this, mesh, Last(q)), s, ms);
    }

    /** Changes the owner: leaves the old owner's list and becomes the last of the new one's. */
    method ChangeOwner(mesh: Mesh?, ghost s: set<MeshLink>, ghost ms: set<Mesh>, ghost order: map<Mesh, seq<MeshLink>>)
      returns (ghost order': map<Mesh, seq<MeshLink>>)
      requires this in s && (mesh != null ==> mesh in ms)
      requires Exact(OwnView(s, ms), order)
      modifies s`owner, s`meshPrev, s`meshNext, ms`root
      ensures order' == JoinedBack(Left(order, this, old(OwnView(s, ms)).nodes[this].parent), this, OptMesh(mesh))
      ensures Exact(OwnView(s, ms), order')
      ensures mesh == null ==> OwnView(s, ms).nodes[this].parent == None
    {
      order' := Left(order, this, OptMesh(owner));
      LeaveOwner(s, ms, order);
      if mesh != null {
        JoinOwner(mesh, s, ms, order');
        order' := JoinedBack(order', this, Some(mesh));
      }
    }

    // ----- marking

    /** Marks everything that can be reached from here without passing marked links. */
    method Mark(id: int, ghost s: set<MeshLink>, ghost g: Graph, ghost c: set<MeshLink>)
      requires this in c && Markable(g, s, c) && g.leftover <= MarkedBy(s, id)
      modifies s`pruneId
      ensures this in MarkedBy(s, id) && Spread(g.edges, c, old(MarkedBy(s, id)), MarkedBy(s, id))
      ensures forall x :: x in s ==> x.pruneId == id || x.pruneId == old(x.pruneId)
      decreases s - MarkedBy(s, id), 0
    {
      if pruneId != id {
        ghost var m := MarkedBy(s, id);
        SetId(id, s);
        MarkAround(id, s, g, c, m + {this});
        SpreadFrom(g.edges, c, m, this, MarkedBy(s, id));
      }
    }

    method SetId(id: int, ghost s: set<MeshLink>)
      requires this in s
      modifies this`pruneId
      ensures pruneId == id && MarkedBy(s, id) == old(MarkedBy(s, id)) + {this}
    {
      pruneId := id;
    }

    /** Marks from each neighbour of this link. */
    method MarkAround(id: int, ghost s: set<MeshLink>, ghost g: Graph, ghost c: set<MeshLink>, ghost m: set<MeshLink>)
      requires this in c && this !in g.leftover && Markable(g, s, c) && g.leftover <= m && Spread(g.edges, c, m, MarkedBy(s, id))
      modifies s`pruneId
      ensures old(MarkedBy(s, id)) <= MarkedBy(s, id) && Spread(g.edges, c, m, MarkedBy(s, id))
      ensures forall x :: x in s ==> x.pruneId == id || x.pruneId == old(x.pruneId)
      ensures this in g.edges && g.edges[this] <= MarkedBy(s, id)
      decreases s - MarkedBy(s, id), 3
    {
      MarkEnds(id, s, g, c, m);
      MarkAsSource(id, s, g, c, m);
      MarkAsDest(id, s, g, c, m);
      assert Roams(g, s, c, this);
      AllMarked(g, s, this, MarkedBy(s, id));
    }

    /** Marks on from this link, counting what has been marked since m. */
    method MarkNext(id: int, ghost s: set<MeshLink>, ghost g: Graph, ghost c: set<MeshLink>, ghost m: set<MeshLink>)
      requires this in c && Markable(g, s, c) && g.leftover <= m && Spread(g.edges, c, m, MarkedBy(s, id))
      modifies s`pruneId
      ensures this in MarkedBy(s, id)
      ensures old(MarkedBy(s, id)) <= MarkedBy(s, id) && Spread(g.edges, c, m, MarkedBy(s, id))
      ensures forall x :: x in s ==> x.pruneId == id || x.pruneId == old(x.pruneId)
      decreases s - MarkedBy(s, id), 1
    {
      Mark(id, s, g, c);
      SpreadOn(g.edges, c, m, old(MarkedBy(s, id)), MarkedBy(s, id));
    }

    /** Marks from the source and from the destination. */
    method MarkEnds(id: int, ghost s: set<MeshLink>, ghost g: Graph, ghost c: set<MeshLink>, ghost m: set<MeshLink>)
      requires this in c && this !in g.leftover && Markable(g, s, c) && g.leftover <= m && Spread(g.edges, c, m, MarkedBy(s, id))
      modifies s`pruneId
      ensures old(MarkedBy(s, id)) <= MarkedBy(s, id) && Spread(g.edges, c, m, MarkedBy(s, id))
      ensures forall x :: x in s ==> x.pruneId == id || x.pruneId == old(x.pruneId)
      ensures (src != null ==> src in MarkedBy(s, id)) && (dest != null ==> dest in MarkedBy(s, id))
      decreases s - MarkedBy(s, id), 2
    {
      assert Roams(g, s, c, this);
      if src != null { src.MarkNext(id, s, g, c, m); }
      if dest != null { dest.MarkNext(id, s, g, c, m); }
    }

    /** Marks from the first link of this one's source list to the last. */
    method MarkAsSource(id: int, ghost s: set<MeshLink>, ghost g: Graph, ghost c: set<MeshLink>, ghost m: set<MeshLink>)
      requires this in c && this !in g.leftover && Markable(g, s, c) && g.leftover <= m && Spread(g.edges, c, m, MarkedBy(s, id))
      modifies s`pruneId
      ensures old(MarkedBy(s, id)) <= MarkedBy(s, id) && Spread(g.edges, c, m, MarkedBy(s, id))
      ensures forall x :: x in s ==> x.pruneId == id || x.pruneId == old(x.pruneId)
      ensures this in g.src && Firsts(g.src[this], |g.src[this]|) <= MarkedBy(s, id)
      decreases s - MarkedBy(s, id), 2
    {
      assert Roams(g, s, c, this);
      ghost var m0, q, k := MarkedBy(s, id), g.src[this], 0;
      var cursor := asSrcRoot;
      while cursor != null
        invariant 0 <= k <= |q| && cursor == At(q, k)
        invariant m0 <= MarkedBy(s, id) && Spread(g.edges, c, m, MarkedBy(s, id))
        invariant forall x :: x in s ==> x.pruneId == id || x.pruneId == old(x.pruneId)
        invariant Firsts(q, k) <= MarkedBy(s, id)
        decreases |q| - k
      {
        assert SrcStep(s, q, k);
        cursor.MarkNext(id, s, g, c, m);
        cursor := cursor.srcNext;
        k := k + 1;
      }
    }

    /** Marks from the first link of this one's destination list to the last. */
    method MarkAsDest(id: int, ghost s: set<MeshLink>, ghost g: Graph, ghost c: set<MeshLink>, ghost m: set<MeshLink>)
      requires this in c && this !in g.leftover && Markable(g, s, c) && g.leftover <= m && Spread(g.edges, c, m, MarkedBy(s, id))
      modifies s`pruneId
      ensures old(MarkedBy(s, id)) <= MarkedBy(s, id) && Spread(g.edges, c, m, MarkedBy(s, id))
      ensures forall x :: x in s ==> x.pruneId == id || x.pruneId == old(x.pruneId)
      ensures this in g.dest && Firsts(g.dest[this], |g.dest[this]|) <= MarkedBy(s, id)
      decreases s - MarkedBy(s, id), 2
    {
      assert Roams(g, s, c, this);
      ghost var m0, q, k := MarkedBy(s, id), g.dest[this], 0;
      var cursor := asDestRoot;
      while cursor != null
        invariant 0 <= k <= |q| && cursor == At(q, k)
        invariant m0 <= MarkedBy(s, id) && Spread(g.edges, c, m, MarkedBy(s, id))
        invariant forall x :: x in s ==> x.pruneId == id || x.pruneId == old(x.pruneId)
        invariant Firsts(q, k) <= MarkedBy(s, id)
        decreases |q| - k
      {
        assert DestStep(s, q, k);
        cursor.MarkNext(id, s, g, c, m);
        cursor := cursor.destNext;
        k := k + 1;
      }
    }

    // ----- the operations, with what they leave alone

    /** As ReleaseSources, leaving the destination lists alone. */
    method DisconnectSources(ghost s: set<MeshLink>, ghost order: Order)
      requires this in s && Exact(SrcView(s), order)
      modifies s`src, s`srcPrev, s`srcNext, this`asSrcRoot
      ensures SrcView(s) == Cleared(old(SrcView(s)), this, order[this], |order[this]|)
      ensures Exact(SrcView(s), order[this := []])
      ensures DestView(s) == old(DestView(s))
    {
      ReleaseSources(s, order);
    }

    /** Disconnects every link that has this one as its source; the other lists are as they were. */
    method RemoveAsSource(ghost s: set<MeshLink>, ghost ms: set<Mesh>, ghost order: Order)
      requires this in s && Exact(SrcView(s), order)
      modifies s`src, s`srcPrev, s`srcNext, this`asSrcRoot
      ensures SrcView(s) == Cleared(old(SrcView(s)), this, order[this], |order[this]|)
      ensures Exact(SrcView(s), order[this := []])
      ensures DestView(s) == old(DestView(s)) && OwnView(s, ms) == old(OwnView(s, ms))
    {
      DisconnectSources(s, order);
    }

    method MoveSource(link: MeshLink?, ghost s: set<MeshLink>, ghost order: Order) returns (ghost order': Order)
      requires this in s && (link != null ==> link in s)
      requires Exact(SrcView(s), order)
      modifies s`src, s`srcPrev, s`srcNext, s`asSrcRoot
      ensures order' == JoinedFront(Left(order, this, old(SrcView(s)).nodes[this].parent), this, Opt(link))
      ensures Exact(SrcView(s), order')
      ensures SrcView(s) == Moved(old(SrcView(s)), this, Opt(link))
      ensures DestView(s) == old(DestView(s)) && NamesOf(s) == old(NamesOf(s))
    {
      order' := ChangeSource(link, s, order);
      DestKept(s);
      NamesKept(s);
    }

    /** Changes the source: leaves the old one's list and becomes the first of the new one's. */
    method SetSource(link: MeshLink?, ghost s: set<MeshLink>, ghost ms: set<Mesh>, ghost order: Order)
      returns (ghost order': Order)
      requires this in s && (link != null ==> link in s)
      requires Exact(SrcView(s), order)
      modifies s`src, s`srcPrev, s`srcNext, s`asSrcRoot
      ensures order' == JoinedFront(Left(order, this, old(SrcView(s)).nodes[this].parent), this, Opt(link))
      ensures Exact(SrcView(s), order')
      ensures SrcView(s) == Moved(old(SrcView(s)), this, Opt(link))
      ensures DestView(s) == old(DestView(s)) && OwnView(s, ms) == old(OwnView(s, ms))
      ensures NamesOf(s) == old(NamesOf(s))
    {
      order' := MoveSource(link, s, order);
    }

    /** As ReleaseDests, leaving the source lists alone. */
    method DisconnectDests(ghost s: set<MeshLink>, ghost order: Order)
      requires this in s && Exact(DestView(s), order)
      modifies s`dest, s`destPrev, s`destNext, this`asDestRoot
      ensures DestView(s) == Cleared(old(DestView(s)), this, order[this], |order[this]|)
      ensures Exact(DestView(s), order[this := []])
      ensures SrcView(s) == old(SrcView(s))
    {
      ReleaseDests(s, order);
    }

    /** Disconnects every link that has this one as its destination; the other lists are as they were. */
    method RemoveAsDest(ghost s: set<MeshLink>, ghost ms: set<Mesh>, ghost order: Order)
      requires this in s && Exact(DestView(s), order)
      modifies s`dest, s`destPrev, s`destNext, this`asDestRoot
      ensures DestView(s) == Cleared(old(DestView(s)), this, order[this], |order[this]|)
      ensures Exact(DestView(s), order[this := []])
      ensures SrcView(s) == old(SrcView(s)) && OwnView(s, ms) == old(OwnView(s, ms))
    {
      DisconnectDests(s, order);
    }

    method MoveDest(link: MeshLink?, ghost s: set<MeshLink>, ghost order: Order) returns (ghost order': Order)
      requires this in s && (link != null ==> link in s)
      requires Exact(DestView(s), order)
      modifies s`dest, s`destPrev, s`destNext, s`asDestRoot
      ensures order' == JoinedFront(Left(order, this, old(DestView(s)).nodes[this].parent), this, Opt(link))
      ensures Exact(DestView(s), order')
      ensures DestView(s) == Moved(old(DestView(s)), this, Opt(link))
      ensures SrcView(s) == old(SrcView(s)) && NamesOf(s) == old(NamesOf(s))
    {
      order' := ChangeDest(link, s, order);
      SrcKept(s);
      NamesKept(s);
    }

    /** Changes the destination: leaves the old one's list and becomes the first of the new one's. */
    method SetDest(link: MeshLink?, ghost s: set<MeshLink>, ghost ms: set<Mesh>, ghost order: Order)
      returns (ghost order': Order)
      requires this in s && (link != null ==> link in s)
      requires Exact(DestView(s), order)
      modifies s`dest, s`destPrev, s`destNext, s`asDestRoot
      ensures order' == JoinedFront(Left(order, this, old(DestView(s)).nodes[this].parent), this, Opt(link))
      ensures Exact(DestView(s), order')
      ensures DestView(s) == Moved(old(DestView(s)), this, Opt(link))
      ensures SrcView(s) == old(SrcView(s)) && OwnView(s, ms) == old(OwnView(s, ms))
      ensures NamesOf(s) == old(NamesOf(s))
    {
      order' := MoveDest(link, s, order);
    }

    /** Changes the owner: leaves the old owner's list and becomes the last of the new one's. */
    method SetOwner(mesh: Mesh?, ghost s: set<MeshLink>, ghost ms: set<Mesh>, ghost order: map<Mesh, seq<MeshLink>>)
      returns (ghost order': map<Mesh, seq<MeshLink>>)
      requires this in s && (mesh != null ==> mesh in ms)
      requires Exact(OwnView(s, ms), order)
      modifies s`owner, s`meshPrev, s`meshNext, ms`root
      ensures order' == JoinedBack(Left(order, this, old(OwnView(s, ms)).nodes[this].parent), this, OptMesh(mesh))
      ensures Exact(OwnView(s, ms), order')
      ensures mesh == null ==> OwnView(s, ms).nodes[this].parent == None
      ensures SrcView(s) == old(SrcView(s)) && DestView(s) == old(DestView(s))
      ensures NamesOf(s) == old(NamesOf(s))
    {
      order' := ChangeOwner(mesh, s, ms, order);
      DestKept(s);
      NamesKept(s);
    }

    /** The destructor's statements on the source and destination lists. */
    method ReleaseEnds(ghost s: set<MeshLink>, ghost ms: set<Mesh>, ghost src0: Order, ghost dest0: Order)
      requires this in s && Exact(SrcView(s), src0) && Exact(DestView(s), dest0)
      modifies s`src, s`srcPrev, s`srcNext, s`asSrcRoot, s`dest, s`destPrev, s`destNext, s`asDestRoot
      ensures SrcView(s) == Released(old(SrcView(s)), src0, this)
      ensures DestView(s) == Released(old(DestView(s)), dest0, this)
      ensures OwnView(s, ms) == old(OwnView(s, ms))
    {
      RemoveAsSource(s, ms, src0);
      RemoveAsDest(s, ms, dest0);
      var _ := SetSource(null, s, ms, src0[this := []]);
      var _ := SetDest(null, s, ms, dest0[this := []]);
    }

    /** The statements of the destructor: nothing is linked to this one, nor this one to anything. */
    method Release(ghost s: set<MeshLink>, ghost ms: set<Mesh>, ghost o: Orders)
      returns (ghost own': map<Mesh, seq<MeshLink>>)
      requires this in s && Valid(s, ms, o)
      modifies s`src, s`srcPrev, s`srcNext, s`asSrcRoot, s`dest, s`destPrev, s`destNext, s`asDestRoot
      modifies s`owner, s`meshPrev, s`meshNext, ms`root
      ensures SrcView(s) == Released(old(SrcView(s)), o.src, this)
      ensures DestView(s) == Released(old(DestView(s)), o.dest, this)
      ensures Exact(OwnView(s, ms), own') && OwnView(s, ms).nodes[this].parent == None
      ensures own' == Left(o.own, this, old(OwnView(s, ms)).nodes[this].parent)
    {
      ReleaseEnds(s, ms, o.src, o.dest);
      own' := SetOwner(null, s, ms, o.own);
    }

    /** The destructor: afterwards the other links form exact lists without this one. */
    method Destroy(ghost s: set<MeshLink>, ghost ms: set<Mesh>, ghost o: Orders) returns (ghost o': Orders)
      requires this in s && Valid(s, ms, o)
      modifies s`src, s`srcPrev, s`srcNext, s`asSrcRoot, s`dest, s`destPrev, s`destNext, s`asDestRoot
      modifies s`owner, s`meshPrev, s`meshNext, ms`root
      ensures Valid(s - {this}, ms, o')
      ensures Survives(old(SrcView(s)), o.src, SrcView(s - {this}), o'.src, this)
      ensures Survives(old(DestView(s)), o.dest, DestView(s - {this}), o'.dest, this)
      ensures o'.own == Left(o.own, this, old(OwnView(s, ms)).nodes[this].parent)
    {
      ghost var sv, dv := SrcView(s), DestView(s);
      DestroyExact(sv, o.src, this);
      DestroyExact(dv, o.dest, this);
      ghost var own' := Release(s, ms, o);
      ViewsDropped(s, ms, this);
      DropNodeExact(OwnView(s, ms), own', this);
      o' := Orders(ReleasedOrder(sv, o.src, this) - {this}, ReleasedOrder(dv, o.dest, this) - {this}, own');
    }
  }

  // ----- each kind of list only depends on the fields of its own

  twostate lemma {:induction false} SrcKept(s: set<MeshLink>)
    requires forall x :: x in s ==>
      x.src == old(x.src) && x.srcPrev == old(x.srcPrev) && x.srcNext == old(x.srcNext)
    requires forall x :: x in s ==> x.asSrcRoot == old(x.asSrcRoot)
    ensures SrcView(s) == old(SrcView(s))
  {
    assert SrcView(s).nodes == old(SrcView(s)).nodes;
    assert SrcView(s).roots == old(SrcView(s)).roots;
  }

  twostate lemma {:induction false} NamesKept(s: set<MeshLink>)
    requires forall x :: x in s ==> x.name == old(x.name)
    ensures NamesOf(s) == old(NamesOf(s))
  {
  }

  twostate lemma {:induction false} IdsKept(s: set<MeshLink>)
    requires forall x :: x in s ==> x.pruneId == old(x.pruneId)
    ensures Ids(s) == old(Ids(s))
  {
  }

  twostate lemma {:induction false} DestKept(s: set<MeshLink>)
    requires forall x :: x in s ==>
      x.dest == old(x.dest) && x.destPrev == old(x.destPrev) && x.destNext == old(x.destNext)
    requires forall x :: x in s ==> x.asDestRoot == old(x.asDestRoot)
    ensures DestView(s) == old(DestView(s))
  {
    assert DestView(s).nodes == old(DestView(s)).nodes;
    assert DestView(s).roots == old(DestView(s)).roots;
  }

  twostate lemma {:induction false} OwnKept(u: (set<MeshLink>, set<Mesh>))
    requires forall x :: x in u.0 ==>
      x.owner == old(x.owner) && x.meshPrev == old(x.meshPrev) && x.meshNext == old(x.meshNext)
    requires forall m :: m in u.1 ==> m.root == old(m.root)
    ensures OwnView(u.0, u.1) == old(OwnView(u.0, u.1))
  {
    assert OwnView(u.0, u.1).nodes == old(OwnView(u.0, u.1)).nodes;
    assert OwnView(u.0, u.1).roots == old(OwnView(u.0, u.1)).roots;
  }

  lemma {:induction false} ViewsDropped(s: set<MeshLink>, ms: set<Mesh>, n: MeshLink)
    ensures SrcView(s - {n}) == Dropped(SrcView(s), n)
    ensures DestView(s - {n}) == Dropped(DestView(s), n)
    ensures OwnView(s - {n}, ms) == OwnView(s, ms).(nodes := OwnView(s, ms).nodes - {n})
  {
    assert SrcView(s - {n}).nodes == SrcView(s).nodes - {n};
    assert SrcView(s - {n}).roots == SrcView(s).roots - {n};
    assert DestView(s - {n}).nodes == DestView(s).nodes - {n};
    assert DestView(s - {n}).roots == DestView(s).roots - {n};
    assert OwnView(s - {n}, ms).nodes == OwnView(s, ms).nodes - {n};
    assert OwnView(s - {n}, ms).roots == OwnView(s, ms).roots;
  }

  lemma {:induction false} OneSrcView(l: Lists<MeshLink, MeshLink>, s: set<MeshLink>)
    requires ShowsSrc(l, s)
    ensures l == SrcView(s)
  {
    assert l.nodes == SrcView(s).nodes;
    assert l.roots == SrcView(s).roots;
  }

  lemma {:induction false} OneDestView(l: Lists<MeshLink, MeshLink>, s: set<MeshLink>)
    requires ShowsDest(l, s)
    ensures l == DestView(s)
  {
    assert l.nodes == DestView(s).nodes;
    assert l.roots == DestView(s).roots;
  }

  lemma {:induction false} OneOwnView(l: Lists<MeshLink, Mesh>, s: set<MeshLink>, ms: set<Mesh>)
    requires ShowsOwn(l, s, ms)
    ensures l == OwnView(s, ms)
  {
    assert l.nodes == OwnView(s, ms).nodes;
    forall m | m in ms ensures l.roots[m] == OwnView(s, ms).roots[m] { assert RootAt(m, l.roots[m]); }
    assert l.roots == OwnView(s, ms).roots;
  }

  // ----- a new link without any pointers

  lemma {:induction false} SrcJoined(s: set<MeshLink>, n: MeshLink)
    requires n !in s && n.src == null && n.srcPrev == null && n.srcNext == null && n.asSrcRoot == null
    ensures SrcView(s + {n}) == Joined(SrcView(s), n)
  {
    OneSrcView(Joined(SrcView(s), n), s + {n});
  }

  lemma {:induction false} DestJoined(s: set<MeshLink>, n: MeshLink)
    requires n !in s && n.dest == null && n.destPrev == null && n.destNext == null && n.asDestRoot == null
    ensures DestView(s + {n}) == Joined(DestView(s), n)
  {
    OneDestView(Joined(DestView(s), n), s + {n});
  }

  lemma {:induction false} OwnJoined(s: set<MeshLink>, ms: set<Mesh>, n: MeshLink)
    requires n !in s && n.owner == null && n.meshPrev == null && n.meshNext == null
    ensures OwnView(s + {n}, ms) == OwnView(s, ms).(nodes := OwnView(s, ms).nodes[n := Node(None, None, None)])
  {
    OneOwnView(OwnView(s, ms).(nodes := OwnView(s, ms).nodes[n := Node(None, None, None)]), s + {n}, ms);
  }

  // ----- what exact lists mean for the pointers

  /** No pointer of a live link or of a mesh leads to a link that is not live, such as a destroyed one. */
  lemma {:induction false} NobodyRefersTo(s: set<MeshLink>, ms: set<Mesh>, o: Orders, n: MeshLink, x: MeshLink, m: Mesh)
    requires Valid(s, ms, o) && n !in s && x in s && m in ms
    ensures x.src != n && x.srcPrev != n && x.srcNext != n && x.asSrcRoot != n
    ensures x.dest != n && x.destPrev != n && x.destNext != n && x.asDestRoot != n
    ensures x.meshPrev != n && x.meshNext != n && m.root != n
  {
    NothingDangles(SrcView(s), o.src, x);
    RootIsNode(SrcView(s), o.src, x);
    NothingDangles(DestView(s), o.dest, x);
    RootIsNode(DestView(s), o.dest, x);
    NothingDangles(OwnView(s, ms), o.own, x);
    RootIsNode(OwnView(s, ms), o.own, m);
  }

  /** Walking from x's source root visits exactly the links whose source is x, each once. */
  lemma {:induction false} SourceListIsChildren(s: set<MeshLink>, ms: set<Mesh>, o: Orders, x: MeshLink)
    requires Valid(s, ms, o) && x in s
    ensures x in o.src && Distinct(o.src[x]) && x.asSrcRoot == At(o.src[x], 0)
    ensures forall k: nat :: k < |o.src[x]| ==> SrcStep(s, o.src[x], k)
    ensures forall y :: y in o.src[x] <==> y in s && y.src == x
  {
    SrcWalk(s, o.src, x);
    assert Spells(SrcView(s), x, o.src[x]);
    forall y ensures y in o.src[x] <==> y in s && y.src == x { ListedIffChild(SrcView(s), o.src, x, y); }
  }

  /** Likewise from x's destination root. */
  lemma {:induction false} DestListIsChildren(s: set<MeshLink>, ms: set<Mesh>, o: Orders, x: MeshLink)
    requires Valid(s, ms, o) && x in s
    ensures x in o.dest && Distinct(o.dest[x]) && x.asDestRoot == At(o.dest[x], 0)
    ensures forall k: nat :: k < |o.dest[x]| ==> DestStep(s, o.dest[x], k)
    ensures forall y :: y in o.dest[x] <==> y in s && y.dest == x
  {
    DestWalk(s, o.dest, x);
    assert Spells(DestView(s), x, o.dest[x]);
    forall y ensures y in o.dest[x] <==> y in s && y.dest == x { ListedIffChild(DestView(s), o.dest, x, y); }
  }
}
