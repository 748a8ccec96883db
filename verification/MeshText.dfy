/** The concise text form of a mesh: a line of three labels for every link, and a sentinel. */
module MeshText {

  /** Stands for no link, and ends the text. */
  const NULL_NAME: string := "-"

  /** A link's label and the labels of its source and destination. */
  datatype Row = Row(name: string, src: string, dest: string)

  function Line(r: Row): string {
    r.name + "\t" + r.src + "\t" + r.dest + "\t\n"
  }

  function Text(rows: seq<Row>): (t: string)
    ensures t != ""
  {
    if rows == [] then NULL_NAME else Line(rows[0]) + Text(rows[1..])
  }

  /** Label, source and destination, each followed by a tab, and a dash at the end. */
  lemma {:induction false} TextOfTwo()
    ensures Text([Row("ab", "-", "c"), Row("c", "ab", "c")]) == "ab\t-\tc\t\nc\tab\tc\t\n-"
  {
    var r, q := Row("ab", "-", "c"), Row("c", "ab", "c");
    assert [r, q][1..] == [q] && [q][1..] == [];
    assert Text([q]) == Line(q) + Text([]);
    assert Text([r, q]) == Line(r) + Text([q]);
    assert Line(r) == "ab\t-\tc\t\n" && Line(q) == "c\tab\tc\t\n";
  }

  /** The lines alone, without the sentinel. */
  function Lines(rows: seq<Row>): string {
    if rows == [] then "" else Lines(rows[..|rows| - 1]) + Line(rows[|rows| - 1])
  }

  lemma {:induction false} OneMoreLine(rows: seq<Row>, row: Row)
    ensures Lines(rows + [row]) == Lines(rows) + Line(row)
  {
    assert (rows + [row])[..|rows|] == rows;
  }

  lemma {:induction false} LinesFromFront(r: Row, rows: seq<Row>)
    ensures Lines([r] + rows) == Line(r) + Lines(rows)
  {
    if rows == [] {
      assert ([r] + rows)[..0] == [];
    } else {
      var front, last, all := rows[..|rows| - 1], rows[|rows| - 1], [r] + rows;
      assert all[..|all| - 1] == [r] + front && all[|all| - 1] == last;
      LinesFromFront(r, front);
      assert (Line(r) + Lines(front)) + Line(last) == Line(r) + (Lines(front) + Line(last));
    }
  }

  lemma {:induction false} TextIsLines(rows: seq<Row>)
    ensures Text(rows) == Lines(rows) + NULL_NAME
  {
    if rows == [] {
    } else {
      TextIsLines(rows[1..]);
      LinesFromFront(rows[0], rows[1..]);
      assert [rows[0]] + rows[1..] == rows;
    }
  }

  // ----- reading words

  predicate IsSpace(c: char) {
    c == ' ' || c == '\t' || c == '\n' || c == '\r' || c == 11 as char || c == 12 as char
  }

  /** Blank, tab, line feed, vertical tab, form feed and carriage return. */
  lemma {:induction false} SpaceCodes(c: char)
    ensures IsSpace(c) <==> c as int == 32 || 9 <= c as int <= 13
  {
  }

  predicate Word(w: string) {
    w != "" && forall c :: c in w ==> !IsSpace(c)
  }

  function Spaces(s: string): (n: nat)
    ensures n <= |s| && (n < |s| ==> !IsSpace(s[n]))
  {
    if s == "" || !IsSpace(s[0]) then 0 else 1 + Spaces(s[1..])
  }

  function WordLength(s: string): (n: nat)
    ensures n <= |s| && (n < |s| ==> IsSpace(s[n]))
    ensures s != "" && !IsSpace(s[0]) ==> n > 0
  {
    if s == "" || IsSpace(s[0]) then 0 else 1 + WordLength(s[1..])
  }

  /** The next word and what follows it; the word is empty at the end of the text. */
  function NextWord(s: string): (r: (string, string))
    ensures |r.1| <= |s| && (r.1 != "" ==> |r.1| < |s|)
  {
    var t := s[Spaces(s)..];
    (t[..WordLength(t)], t[WordLength(t)..])
  }

  lemma {:induction false} SpacesBefore(sp: string, t: string)
    requires (forall c :: c in sp ==> IsSpace(c)) && (t == "" || !IsSpace(t[0]))
    ensures Spaces(sp + t) == |sp|
  {
    if sp == "" {
      assert sp + t == t;
    } else {
      assert (sp + t)[1..] == sp[1..] + t;
      SpacesBefore(sp[1..], t);
    }
  }

  lemma {:induction false} WordBefore(w: string, rest: string)
    requires (forall c :: c in w ==> !IsSpace(c)) && (rest == "" || IsSpace(rest[0]))
    ensures WordLength(w + rest) == |w|
  {
    if w == "" {
      assert w + rest == rest;
    } else {
      assert (w + rest)[1..] == w[1..] + rest;
      WordBefore(w[1..], rest);
    }
  }

  lemma {:induction false} NextWordIs(sp: string, w: string, rest: string)
    requires (forall c :: c in sp ==> IsSpace(c)) && Word(w) && (rest == "" || IsSpace(rest[0]))
    ensures NextWord(sp + (w + rest)) == (w, rest)
  {
    SpacesBefore(sp, w + rest);
    WordBefore(w, rest);
    assert (sp + (w + rest))[|sp|..] == w + rest;
    assert (w + rest)[..|w|] == w && (w + rest)[|w|..] == rest;
  }

  /** Three words, or only the sentinel; the answer tells whether reading is done. */
  function NextRow(s: string): (r: (Row, string, bool))
    ensures !r.2 ==> |r.1| < |s|
    ensures r.0.name == NULL_NAME ==> r.2
  {
    var (name, r1) := NextWord(s);
    if name == NULL_NAME then (Row(NULL_NAME, "", ""), r1, true) else
      var (src, r2) := NextWord(r1);
      var (dest, r3) := NextWord(r2);
      (Row(name, src, dest), r3, r3 == "")
  }

  /** The rows the loading loop reads: up to the sentinel, or to the end of the text. */
  function Rows(s: string): seq<Row>
    decreases |s|
  {
    var (row, rest, done) := NextRow(s);
    (if row.name == NULL_NAME then [] else [row]) + if done then [] else Rows(rest)
  }

  /** The rows read so far, and those still to come after s. */
  ghost predicate StillToRead(all: seq<Row>, rows: seq<Row>, s: string, done: bool) {
    all == rows + if done then [] else Rows(s)
  }

  lemma {:induction false} OneRowLess(all: seq<Row>, rows: seq<Row>, s: string)
    requires StillToRead(all, rows, s, false)
    ensures var (row, rest, done) := NextRow(s);
      StillToRead(all, if row.name == NULL_NAME then rows else rows + [row], rest, done)
  {
    var (row, rest, done) := NextRow(s);
    Regroup(rows, if row.name == NULL_NAME then [] else [row], if done then [] else Rows(rest));
  }

  lemma {:induction false} Regroup<T>(a: seq<T>, b: seq<T>, c: seq<T>)
    ensures a + (b + c) == (a + b) + c
    ensures b == [] ==> a + b == a
  {
  }

  predicate WordRow(r: Row) {
    Word(r.name) && r.name != NULL_NAME && Word(r.src) && Word(r.dest)
  }

  lemma {:induction false} LineSplit(r: Row, later: string)
    ensures Line(r) + later == r.name + ("\t" + (r.src + ("\t" + (r.dest + ("\t\n" + later)))))
  {
    assert (r.dest + "\t\n") + later == r.dest + ("\t\n" + later);
    assert Line(r) == r.name + ("\t" + (r.src + ("\t" + (r.dest + "\t\n"))));
  }

  /** Three words are read as one row. */
  lemma {:induction false} LineComesBack(sp: string, r: Row, s3: string)
    requires (forall c :: c in sp ==> IsSpace(c)) && WordRow(r) && s3 != "" && IsSpace(s3[0])
    ensures NextRow(sp + (r.name + ("\t" + (r.src + ("\t" + (r.dest + s3)))))) == (r, s3, false)
  {
    var s2 := "\t" + (r.dest + s3);
    var s1 := "\t" + (r.src + s2);
    NextWordIs(sp, r.name, s1);
    NextWordIs("\t", r.src, s2);
    NextWordIs("\t", r.dest, s3);
  }

  /** One line is read as one row. */
  lemma {:induction false} FirstLineComesBack(sp: string, r: Row, later: string)
    requires (forall c :: c in sp ==> IsSpace(c)) && WordRow(r)
    ensures NextRow(sp + (Line(r) + later)) == (r, "\t\n" + later, false)
  {
    LineSplit(r, later);
    LineComesBack(sp, r, "\t\n" + later);
  }

  lemma {:induction false} RowsSplit(s: string, r: Row, rest: string)
    requires NextRow(s) == (r, rest, false)
    ensures Rows(s) == [r] + Rows(rest)
  {
  }

  lemma {:induction false} FirstRowComesBack(sp: string, r: Row, later: string)
    requires (forall c :: c in sp ==> IsSpace(c)) && WordRow(r)
    ensures Rows(sp + (Line(r) + later)) == [r] + Rows("\t\n" + later)
  {
    FirstLineComesBack(sp, r, later);
    RowsSplit(sp + (Line(r) + later), r, "\t\n" + later);
  }

  lemma {:induction false} EndComesBack(sp: string, more: string)
    requires (forall c :: c in sp ==> IsSpace(c)) && (more != "" ==> IsSpace(more[0]))
    ensures NextWord(sp + (NULL_NAME + more)) == (NULL_NAME, more)
  {
    NextWordIs(sp, NULL_NAME, more);
  }

  lemma {:induction false} RowsEnd(s: string, rest: string)
    requires NextWord(s) == (NULL_NAME, rest)
    ensures Rows(s) == []
  {
  }

  /** The text of rows of words is read back as the same rows, also after some space and whatever else follows. */
  lemma {:induction false} RowsComeBack(sp: string, rows: seq<Row>, more: string)
    requires (forall c :: c in sp ==> IsSpace(c)) && (forall r :: r in rows ==> WordRow(r))
    requires more != "" ==> IsSpace(more[0])
    ensures Rows(sp + (Text(rows) + more)) == rows
    decreases |rows|
  {
    if rows == [] {
      EndComesBack(sp, more);
      RowsEnd(sp + (NULL_NAME + more), more);
    } else {
      var later := Text(rows[1..]) + more;
      assert WordRow(rows[0]) && rows == [rows[0]] + rows[1..];
      assert Text(rows) + more == Line(rows[0]) + later;
      FirstRowComesBack(sp, rows[0], later);
      RowsComeBack("\t\n", rows[1..], more);
    }
  }

  // ----- the labels of a mesh

  /** For every label in a mesh, the labels of its link's source and destination. */
  type Labels = map<string, (string, string)>

  /** With a link of that label, made if there is none. */
  function WithLink(m: Labels, name: string): Labels {
    if name == NULL_NAME || name in m then m else m[name := (NULL_NAME, NULL_NAME)]
  }

  /** With links of all the labels in the row. */
  function WithLinks(m: Labels, r: Row): Labels {
    WithLink(WithLink(WithLink(m, r.name), r.src), r.dest)
  }

  function WithRow(m: Labels, r: Row): Labels {
    if r.name == NULL_NAME then WithLinks(m, r) else WithLinks(m, r)[r.name := (r.src, r.dest)]
  }

  /**
   * A row gives its label the ends it names, also when it had others before. Labels that are
   * only mentioned get a link without ends, and all others stay; the sentinel is never a label.
   */
  lemma {:induction false} RowAdded(m: Labels, r: Row, k: string)
    ensures k in WithRow(m, r) <==> k in m || (k != "-" && k in [r.name, r.src, r.dest])
    ensures k in WithRow(m, r) ==>
      WithRow(m, r)[k] == if k == r.name && k != "-" then (r.src, r.dest) else if k in m then m[k] else ("-", "-")
  {
  }

  function WithRows(m: Labels, rows: seq<Row>): Labels {
    if rows == [] then m else WithRow(WithRows(m, rows[..|rows| - 1]), rows[|rows| - 1])
  }

  lemma {:induction false} OneMoreRow(before: Labels, m: Labels, rows: seq<Row>, row: Row)
    requires before == WithRows(m, rows)
    ensures WithRows(m, rows + [row]) == WithRow(before, row)
  {
    assert (rows + [row])[..|rows|] == rows;
  }

  ghost predicate UniqueNames(rows: seq<Row>) {
    forall i, j :: 0 <= i < j < |rows| ==> rows[i].name != rows[j].name
  }

  ghost predicate Names(rows: seq<Row>, name: string) {
    exists i :: 0 <= i < |rows| && rows[i].name == name
  }

  /** Every end of a row is missing or the name of a row. */
  ghost predicate EndsInside(rows: seq<Row>) {
    forall i :: 0 <= i < |rows| ==>
      && (rows[i].src != NULL_NAME ==> Names(rows, rows[i].src))
      && (rows[i].dest != NULL_NAME ==> Names(rows, rows[i].dest))
  }

  ghost predicate Says(m: Labels, r: Row) {
    r.name in m && m[r.name] == (r.src, r.dest)
  }

  /** m holds what the rows say, and nothing else. */
  ghost predicate Tabulates(m: Labels, rows: seq<Row>) {
    && (forall i :: 0 <= i < |rows| ==> Says(m, rows[i]))
    && (forall k :: k in m ==> Names(rows, k))
  }

  lemma {:induction false} RowKept(m: Labels, r: Row, other: Row)
    requires Says(m, r) && other.name != r.name
    ensures Says(WithRow(m, other), r)
  {
  }

  lemma {:induction false} NamesStay(m: Labels, rows: seq<Row>, i: nat)
    requires i < |rows| && EndsInside(rows) && forall k :: k in m ==> Names(rows, k)
    ensures forall k :: k in WithRow(m, rows[i]) ==> Names(rows, k)
  {
    assert Names(rows, rows[i].name);
  }

  /** After the first n rows: what those say, and links that have only been mentioned as ends. */
  lemma {:induction false} FirstRows(rows: seq<Row>, n: nat)
    requires UniqueNames(rows) && EndsInside(rows) && n <= |rows|
    requires forall i :: 0 <= i < |rows| ==> rows[i].name != NULL_NAME
    ensures forall i :: 0 <= i < n ==> Says(WithRows(map[], rows[..n]), rows[i])
    ensures forall k :: k in WithRows(map[], rows[..n]) ==> Names(rows, k)
  {
    if n == 0 {
    } else {
      var m := WithRows(map[], rows[..n - 1]);
      FirstRows(rows, n - 1);
      assert rows[..n][..n - 1] == rows[..n - 1];
      assert WithRows(map[], rows[..n]) == WithRow(m, rows[n - 1]);
      forall i | 0 <= i < n ensures Says(WithRow(m, rows[n - 1]), rows[i]) {
        if i < n - 1 { RowKept(m, rows[i], rows[n - 1]); }
      }
      NamesStay(m, rows, n - 1);
    }
  }

  /** Adding all rows in turn, forward references included, gives the table of the rows. */
  lemma {:induction false} RowsTabulate(rows: seq<Row>)
    requires UniqueNames(rows) && EndsInside(rows)
    requires forall i :: 0 <= i < |rows| ==> rows[i].name != NULL_NAME
    ensures Tabulates(WithRows(map[], rows), rows)
  {
    FirstRows(rows, |rows|);
    assert rows[..|rows|] == rows;
  }

  lemma {:induction false} OneTable(m: Labels, m': Labels, rows: seq<Row>)
    requires Tabulates(m, rows) && Tabulates(m', rows)
    ensures m == m'
  {
    forall k | k in m ensures k in m' && m'[k] == m[k] {
      var i :| 0 <= i < |rows| && rows[i].name == k;
      assert Says(m, rows[i]) && Says(m', rows[i]);
    }
    forall k | k in m' ensures k in m {
      var i :| 0 <= i < |rows| && rows[i].name == k;
      assert Says(m, rows[i]) && Says(m', rows[i]);
    }
  }
}
