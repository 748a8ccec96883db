/** A mesh seen through its labels: each link's own, its source's and its destination's. */
module MeshLabels {
  import opened Options
  import opened IntrusiveLists
  import opened Sequences
  import opened MeshText

  /** The label of an end, or the sentinel when there is none. */
  ghost function EndName<N>(names: map<N, string>, p: Option<N>): string {
    if p.Some? && p.value in names then names[p.value] else NULL_NAME
  }

  ghost predicate Named<N>(m: Labels, names: map<N, string>, sv: Lists<N, N>, dv: Lists<N, N>, x: N) {
    && x in names && x in sv.nodes && x in dv.nodes
    && names[x] != NULL_NAME && names[x] in m
    && m[names[x]] == (EndName(names, sv.nodes[x].parent), EndName(names, dv.nodes[x].parent))
    && (sv.nodes[x].parent.Some? ==> sv.nodes[x].parent.value in names)
    && (dv.nodes[x].parent.Some? ==> dv.nodes[x].parent.value in names)
  }

  ghost predicate HasLink<N>(names: map<N, string>, k: string) {
    exists x :: x in names && names[x] == k
  }

  ghost predicate NamedApart<N>(names: map<N, string>, x: N, y: N) {
    x in names && y in names && names[x] == names[y] ==> x == y
  }

  /** Labels are unique, and m tells for each of them where its link's ends are. */
  ghost predicate Describes<N>(m: Labels, names: map<N, string>, sv: Lists<N, N>, dv: Lists<N, N>) {
    && (forall x {:trigger Named(m, names, sv, dv, x)} :: x in names ==> Named(m, names, sv, dv, x))
    && (forall k {:trigger HasLink(names, k)} :: k in m ==> HasLink(names, k))
    && (forall x, y {:trigger NamedApart(names, x, y)} :: x in names && y in names ==> NamedApart(names, x, y))
  }

  function Joined<N>(l: Lists<N, N>, n: N): Lists<N, N> {
    Lists(l.nodes[n := Node(None, None, None)], l.roots[n := None])
  }

  /** A new link without ends. */
  lemma {:induction false} DescribesNew<N>(m: Labels, names: map<N, string>, sv: Lists<N, N>, dv: Lists<N, N>,
                                           n: N, name: string)
    requires Describes(m, names, sv, dv) && n !in names && name !in m && name != NULL_NAME
    ensures Describes(m[name := (NULL_NAME, NULL_NAME)], names[n := name], Joined(sv, n), Joined(dv, n))
  {
    var m', names', sv', dv' := m[name := (NULL_NAME, NULL_NAME)], names[n := name], Joined(sv, n), Joined(dv, n);
    forall x | x in names' ensures Named(m', names', sv', dv', x) {
      if x != n { assert Named(m, names, sv, dv, x); }
    }
    forall k | k in m' ensures HasLink(names', k) {
      if k == name {
        assert names'[n] == k;
      } else {
        assert HasLink(names, k);
        var x :| x in names && names[x] == k;
        assert names'[x] == k;
      }
    }
    forall x, y | x in names' && y in names' ensures NamedApart(names', x, y) {
      if x != n { assert Named(m, names, sv, dv, x); }
      if y != n { assert Named(m, names, sv, dv, y); }
      assert NamedApart(names, x, y);
    }
  }

  /** Link n has been given the source p and the destination q; the other links have kept theirs. */
  ghost predicate EndsMoved<N>(sv: Lists<N, N>, dv: Lists<N, N>, sv': Lists<N, N>, dv': Lists<N, N>, n: N,
                               p: Option<N>, q: Option<N>) {
    && sv'.nodes.Keys == sv.nodes.Keys && dv'.nodes.Keys == dv.nodes.Keys
    && n in sv.nodes && n in dv.nodes && sv'.nodes[n].parent == p && dv'.nodes[n].parent == q
    && (forall x :: x in sv.nodes && x != n ==> sv'.nodes[x].parent == sv.nodes[x].parent)
    && (forall x :: x in dv.nodes && x != n ==> dv'.nodes[x].parent == dv.nodes[x].parent)
  }

  lemma {:induction false} DescribesMoved<N>(m: Labels, names: map<N, string>, sv: Lists<N, N>, dv: Lists<N, N>,
                                             sv': Lists<N, N>, dv': Lists<N, N>, n: N, p: Option<N>, q: Option<N>)
    requires Describes(m, names, sv, dv) && EndsMoved(sv, dv, sv', dv', n, p, q) && n in names
    requires (p.Some? ==> p.value in names) && (q.Some? ==> q.value in names)
    ensures Describes(m[names[n] := (EndName(names, p), EndName(names, q))], names, sv', dv')
  {
    var m' := m[names[n] := (EndName(names, p), EndName(names, q))];
    assert Named(m, names, sv, dv, n);
    forall x | x in names ensures Named(m', names, sv', dv', x) {
      assert Named(m, names, sv, dv, x) && NamedApart(names, x, n);
    }
    forall k | k in m' ensures HasLink(names, k) {
      if k != names[n] { assert HasLink(names, k); }
    }
  }

  /** A label is in the table exactly if a link has it, and then only one has. */
  lemma {:induction false} DescribedLabel<N>(m: Labels, names: map<N, string>, sv: Lists<N, N>, dv: Lists<N, N>,
                                             name: string)
    requires Describes(m, names, sv, dv)
    ensures name in m <==> HasLink(names, name)
    ensures NULL_NAME !in m
  {
    if HasLink(names, name) {
      var x :| x in names && names[x] == name;
      assert Named(m, names, sv, dv, x);
    }
    forall x | x in names ensures names[x] != NULL_NAME { assert Named(m, names, sv, dv, x); }
    assert NULL_NAME in m ==> HasLink(names, NULL_NAME);
  }

  // ----- the rows a mesh is stored as

  ghost function RowOf<N>(names: map<N, string>, sv: Lists<N, N>, dv: Lists<N, N>, x: N): Row
    requires x in names && x in sv.nodes && x in dv.nodes
  {
    Row(names[x], EndName(names, sv.nodes[x].parent), EndName(names, dv.nodes[x].parent))
  }


  ghost predicate RowIs<N>(r: Row, x: N, names: map<N, string>, sv: Lists<N, N>, dv: Lists<N, N>) {
    x in names && x in sv.nodes && x in dv.nodes && r == RowOf(names, sv, dv, x)
  }

  /** The k-th row is that of the k-th link from the end of q. */
  ghost predicate RowsFrom<N>(rows: seq<Row>, q: seq<N>, names: map<N, string>, sv: Lists<N, N>, dv: Lists<N, N>) {
    && |rows| <= |q|
    && forall k {:trigger rows[k]} :: 0 <= k < |rows| ==> RowIs(rows[k], q[|q| - 1 - k], names, sv, dv)
  }

  lemma {:induction false} OneMoreRowFrom<N>(rows: seq<Row>, r: Row, q: seq<N>, names: map<N, string>,
                                             sv: Lists<N, N>, dv: Lists<N, N>)
    requires RowsFrom(rows, q, names, sv, dv) && |rows| < |q| && RowIs(r, q[|q| - 1 - |rows|], names, sv, dv)
    ensures RowsFrom(rows + [r], q, names, sv, dv)
  {
  }

  /** All links of q have their rows. */
  ghost predicate RowsOf<N>(rows: seq<Row>, q: seq<N>, names: map<N, string>, sv: Lists<N, N>, dv: Lists<N, N>) {
    |rows| == |q| && RowsFrom(rows, q, names, sv, dv)
  }

  /** The rows of the links of q, from the last link to the first. */
  ghost function StoredRows<N>(q: seq<N>, names: map<N, string>, sv: Lists<N, N>, dv: Lists<N, N>): seq<Row> {
    if q == [] then [] else [RowOrNone(names, sv, dv, q[|q| - 1])] + StoredRows(q[..|q| - 1], names, sv, dv)
  }

  lemma {:induction false} StoredRowAt<N>(q: seq<N>, names: map<N, string>, sv: Lists<N, N>, dv: Lists<N, N>)
    ensures |StoredRows(q, names, sv, dv)| == |q|
    ensures forall k :: 0 <= k < |q| ==> StoredRows(q, names, sv, dv)[k] == RowOrNone(names, sv, dv, q[|q| - 1 - k])
  {
    if q == [] {
    } else {
      StoredRowAt(q[..|q| - 1], names, sv, dv);
    }
  }

  ghost function RowOrNone<N>(names: map<N, string>, sv: Lists<N, N>, dv: Lists<N, N>, x: N): Row {
    if x in names && x in sv.nodes && x in dv.nodes then RowOf(names, sv, dv, x) else Row("", "", "")
  }

  lemma {:induction false} TheseAreStored<N>(rows: seq<Row>, q: seq<N>, names: map<N, string>, sv: Lists<N, N>,
                                             dv: Lists<N, N>)
    requires RowsOf(rows, q, names, sv, dv)
    ensures rows == StoredRows(q, names, sv, dv)
  {
    StoredRowAt(q, names, sv, dv);
    forall k | 0 <= k < |q| ensures rows[k] == StoredRows(q, names, sv, dv)[k] {
      assert RowIs(rows[k], q[|q| - 1 - k], names, sv, dv);
    }
  }

  /** Any link of q has a row. */
  lemma {:induction false} LinkHasRow<N>(rows: seq<Row>, q: seq<N>, names: map<N, string>, sv: Lists<N, N>,
                                         dv: Lists<N, N>, x: N)
    requires RowsOf(rows, q, names, sv, dv) && x in q && x in names
    ensures MeshText.Names(rows, names[x])
  {
    var i: nat :| i < |q| && q[i] == x;
    assert RowIs(rows[|q| - 1 - i], x, names, sv, dv);
  }

  /** The stored rows say what the table says, and can be loaded again. */
  lemma {:induction false} RowsTell<N>(rows: seq<Row>, q: seq<N>, m: Labels, names: map<N, string>,
                                       sv: Lists<N, N>, dv: Lists<N, N>)
    requires RowsOf(rows, q, names, sv, dv) && Describes(m, names, sv, dv) && Distinct(q)
    requires forall x :: x in names <==> x in q
    ensures UniqueNames(rows) && EndsInside(rows) && Tabulates(m, rows)
    ensures forall i :: 0 <= i < |rows| ==> rows[i].name != NULL_NAME
  {
    DistinctAt(q);
    forall i, j | 0 <= i < j < |rows| ensures rows[i].name != rows[j].name {
      var x, y := q[|q| - 1 - i], q[|q| - 1 - j];
      assert RowIs(rows[i], x, names, sv, dv) && RowIs(rows[j], y, names, sv, dv);
      assert NamedApart(names, x, y);
    }
    forall i | 0 <= i < |rows|
      ensures rows[i].name != NULL_NAME && Says(m, rows[i])
      ensures (rows[i].src != NULL_NAME ==> MeshText.Names(rows, rows[i].src)) && (rows[i].dest != NULL_NAME ==> MeshText.Names(rows, rows[i].dest))
    {
      var x := q[|q| - 1 - i];
      assert RowIs(rows[i], x, names, sv, dv) && Named(m, names, sv, dv, x);
      if sv.nodes[x].parent.Some? { LinkHasRow(rows, q, names, sv, dv, sv.nodes[x].parent.value); }
      if dv.nodes[x].parent.Some? { LinkHasRow(rows, q, names, sv, dv, dv.nodes[x].parent.value); }
    }
    forall k | k in m ensures MeshText.Names(rows, k) {
      assert HasLink(names, k);
      var x :| x in names && names[x] == k;
      LinkHasRow(rows, q, names, sv, dv, x);
    }
  }

  /** What a mesh is stored as is loaded as the same table, for labels that are words. */
  lemma {:induction false} StoredIsLoaded<N>(q: seq<N>, m: Labels, names: map<N, string>, sv: Lists<N, N>,
                                             dv: Lists<N, N>)
    requires Describes(m, names, sv, dv) && Distinct(q) && (forall x :: x in names <==> x in q)
    requires forall k :: k in m ==> Word(k)
    ensures WithRows(map[], Rows(Text(StoredRows(q, names, sv, dv)))) == m
  {
    var rows := StoredRows(q, names, sv, dv);
    AllStored(q, m, names, sv, dv);
    RowsTell(rows, q, m, names, sv, dv);
    WordsLoadBack(rows, m);
  }

  lemma {:induction false} AllStored<N>(q: seq<N>, m: Labels, names: map<N, string>, sv: Lists<N, N>, dv: Lists<N, N>)
    requires Describes(m, names, sv, dv) && (forall x :: x in names <==> x in q)
    ensures RowsOf(StoredRows(q, names, sv, dv), q, names, sv, dv)
  {
    StoredRowAt(q, names, sv, dv);
    forall k | 0 <= k < |q| ensures RowIs(StoredRows(q, names, sv, dv)[k], q[|q| - 1 - k], names, sv, dv) {
      assert Named(m, names, sv, dv, q[|q| - 1 - k]);
    }
  }

  lemma {:induction false} WordsLoadBack(rows: seq<Row>, m: Labels)
    requires UniqueNames(rows) && EndsInside(rows) && Tabulates(m, rows)
    requires forall i :: 0 <= i < |rows| ==> rows[i].name != NULL_NAME
    requires forall k :: k in m ==> Word(k)
    ensures WithRows(map[], Rows(Text(rows))) == m
  {
    forall r | r in rows ensures WordRow(r) {
      var i :| 0 <= i < |rows| && rows[i] == r;
      assert Says(m, rows[i]);
      EndIsWord(m, rows, r.src);
      EndIsWord(m, rows, r.dest);
    }
    assert "" + (Text(rows) + "") == Text(rows);
    RowsComeBack("", rows, "");
    RowsTabulate(rows);
    OneTable(m, WithRows(map[], rows), rows);
  }

  lemma {:induction false} EndIsWord(m: Labels, rows: seq<Row>, name: string)
    requires Tabulates(m, rows) && (name != NULL_NAME ==> MeshText.Names(rows, name))
    requires forall k :: k in m ==> Word(k)
    ensures Word(name)
  {
    if name != NULL_NAME {
      var i :| 0 <= i < |rows| && rows[i].name == name;
      assert Says(m, rows[i]);
    }
  }
}
