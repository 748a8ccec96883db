/** Any number of images sharing buffers: what every operation on one of them keeps. */
module ImageSharing {
  import opened Options
  import opened ImageBuffers

  datatype World = World(pictures: map<nat, Picture>, memory: Memory)

  /** The images that use row table t, and the pixels it leads to. */
  ghost function Users(w: World, t: nat): set<nat> {
    set i | i in w.pictures && w.pictures[i].rows == Some(t)
  }

  /** An image points at pixels, rows and possibly a counter, or at none of them. */
  ghost predicate Whole(m: Memory, p: Picture) {
    if p.pixels == None then p.rows == None && p.counter == None && p.owner
    else
      && p.header.Some? && p.rows.Some? && (p.owner <==> p.pixels.value.Own?)
      && p.pixels.value in m.released && p.rows.value in m.dropped
      && (p.counter.Some? ==> p.counter.value in m.counts)
  }

  /** Sharing rows, sharing a counter and sharing pixels of one's own go together. */
  ghost predicate Agree(p: Picture, q: Picture) {
    && (p.rows.Some? && p.rows == q.rows ==> p.pixels == q.pixels && p.counter == q.counter && p.owner == q.owner)
    && (p.counter.Some? && p.counter == q.counter ==> p.rows == q.rows)
    && (p.pixels.Some? && p.owner && p.pixels == q.pixels ==> p.rows == q.rows)
  }

  /** The counter of an image that has one tells how many images share its rows. */
  ghost predicate CountedRight(w: World, p: Picture) {
    p.rows.Some? ==>
      if p.counter.Some? then
        p.counter.value in w.memory.counts && w.memory.counts[p.counter.value] == |Users(w, p.rows.value)|
      else |Users(w, p.rows.value)| == 1
  }

  ghost predicate PictureFits(w: World, i: nat)
    requires i in w.pictures
  {
    Whole(w.memory, w.pictures[i]) && CountedRight(w, w.pictures[i])
  }

  ghost predicate InUse(w: World, b: Block) {
    exists i :: i in w.pictures && w.pictures[i].pixels == Some(b)
  }

  /** A row table is dropped once, when its last user is gone. */
  ghost predicate DroppedRight(w: World, t: nat)
    requires t in w.memory.dropped
  {
    t < w.memory.next && w.memory.dropped[t] == if Users(w, t) == {} then 1 else 0
  }

  /** A buffer of one's own is released once, when its last user is gone; others never. */
  ghost predicate ReleasedRight(w: World, b: Block)
    requires b in w.memory.released
  {
    (b.Own? ==> b.id < w.memory.next) && w.memory.released[b] == if b.Foreign? || InUse(w, b) then 0 else 1
  }

  ghost predicate CounterUsed(w: World, c: nat) {
    c < w.memory.next && exists i :: i in w.pictures && w.pictures[i].counter == Some(c)
  }

  ghost predicate Consistent(w: World) {
    && (forall i {:trigger PictureFits(w, i)} :: i in w.pictures ==> PictureFits(w, i))
    && (forall i, j {:trigger Agree(w.pictures[i], w.pictures[j])} ::
          i in w.pictures && j in w.pictures ==> Agree(w.pictures[i], w.pictures[j]))
    && (forall t {:trigger DroppedRight(w, t)} :: t in w.memory.dropped ==> DroppedRight(w, t))
    && (forall b {:trigger ReleasedRight(w, b)} :: b in w.memory.released ==> ReleasedRight(w, b))
    && (forall c {:trigger CounterUsed(w, c)} :: c in w.memory.counts ==> CounterUsed(w, c))
  }

  // ----- operations on image i

  function With(w: World, i: nat, r: (Picture, Memory)): World {
    World(w.pictures[i := r.0], r.1)
  }

  function Free(w: World, i: nat): World
    requires i in w.pictures
  {
    With(w, i, Freed(w.pictures[i], w.memory))
  }

  function FreeCompletely(w: World, i: nat): World
    requires i in w.pictures
  {
    With(w, i, FreedCompletely(w.pictures[i], w.memory))
  }

  lemma {:induction false} UsersWithout(w: World, i: nat, p: Picture, m: Memory, t: nat)
    requires i in w.pictures && p.rows == None
    ensures Users(World(w.pictures[i := p], m), t) == Users(w, t) - {i}
  {
  }

  /** Only image i goes, so the others that shared with it count one less. */
  lemma {:induction false} FreeKeepsPicture(w: World, i: nat, j: nat)
    requires Consistent(w) && i in w.pictures && j in w.pictures && i != j && w.pictures[i].pixels.Some?
    ensures PictureFits(Free(w, i), j)
  {
    var w', p, q := Free(w, i), w.pictures[i], w.pictures[j];
    assert PictureFits(w, i) && PictureFits(w, j) && Agree(p, q) && Agree(q, p);
    if q.rows.Some? {
      UsersWithout(w, i, w'.pictures[i], w'.memory, q.rows.value);
      assert j in Users(w, q.rows.value);
      if q.rows == p.rows {
        assert {i, j} <= Users(w, p.rows.value);
        assert |Users(w, p.rows.value) - {i, j}| == |Users(w, p.rows.value)| - 2;
      } else {
        assert i !in Users(w, q.rows.value);
      }
    }
  }

  /** The answer to whether i was the last user is right. */
  lemma {:induction false} LastUser(w: World, i: nat)
    requires Consistent(w) && i in w.pictures && w.pictures[i].pixels.Some?
    ensures w.pictures[i].rows.Some? && i in Users(w, w.pictures[i].rows.value)
    ensures Uncounted(w.pictures[i].counter, w.memory).1 <==> Users(w, w.pictures[i].rows.value) == {i}
  {
    var p := w.pictures[i];
    assert PictureFits(w, i);
    var u := Users(w, p.rows.value);
    assert i in u && |u - {i}| == |u| - 1;
    if |u| == 1 { assert u - {i} == {}; }
  }

  lemma {:induction false} FreeKeepsDropped(w: World, i: nat, t: nat)
    requires Consistent(w) && i in w.pictures && w.pictures[i].pixels.Some? && t in w.memory.dropped
    ensures t in Free(w, i).memory.dropped && DroppedRight(Free(w, i), t)
  {
    var w' := Free(w, i);
    LastUser(w, i);
    assert DroppedRight(w, t) && PictureFits(w, i);
    UsersWithout(w, i, w'.pictures[i], w'.memory, t);
  }

  lemma {:induction false} FreeKeepsAgree(w: World, i: nat, j: nat, k: nat)
    requires Consistent(w) && i in w.pictures && j in w.pictures && k in w.pictures && w.pictures[i].pixels.Some?
    ensures Agree(Free(w, i).pictures[j], Free(w, i).pictures[k])
  {
    assert Agree(w.pictures[j], w.pictures[k]) && PictureFits(w, i);
  }

  lemma {:induction false} FreeKeeps(w: World, i: nat)
    requires Consistent(w) && i in w.pictures
    ensures Consistent(Free(w, i)) && Free(w, i).pictures[i].pixels == None
  {
    var w', p := Free(w, i), w.pictures[i];
    assert PictureFits(w, i);
    if p.pixels == None {
      assert w'.pictures == w.pictures;
    } else {
      forall j | j in w'.pictures ensures PictureFits(w', j) {
        if j != i { FreeKeepsPicture(w, i, j); }
      }
      forall j, k | j in w'.pictures && k in w'.pictures ensures Agree(w'.pictures[j], w'.pictures[k]) {
        FreeKeepsAgree(w, i, j, k);
      }
      forall t | t in w'.memory.dropped ensures DroppedRight(w', t) { FreeKeepsDropped(w, i, t); }
      forall b | b in w'.memory.released ensures ReleasedRight(w', b) { FreeKeepsReleased(w, i, b); }
      forall c | c in w'.memory.counts ensures CounterUsed(w', c) { FreeKeepsCounter(w, i, c); }
    }
  }

  lemma {:induction false} FreeKeepsReleased(w: World, i: nat, b: Block)
    requires Consistent(w) && i in w.pictures && w.pictures[i].pixels.Some? && b in w.memory.released
    ensures b in Free(w, i).memory.released && ReleasedRight(Free(w, i), b)
  {
    var w', p := Free(w, i), w.pictures[i];
    LastUser(w, i);
    assert PictureFits(w, i) && ReleasedRight(w, b);
    if InUse(w, b) && b.Own? {
      var j :| j in w.pictures && w.pictures[j].pixels == Some(b);
      assert PictureFits(w, j) && Agree(w.pictures[j], p);
      if p.pixels == Some(b) {
        if k :| k in Users(w, p.rows.value) && k != i {
          assert Agree(p, w.pictures[k]);
          assert w'.pictures[k].pixels == Some(b);
        }
        if InUse(w', b) {
          var k :| k in w'.pictures && w'.pictures[k].pixels == Some(b);
          assert Agree(p, w.pictures[k]) && k in Users(w, p.rows.value);
        }
      } else {
        assert w'.pictures[j].pixels == Some(b);
      }
    }
  }

  lemma {:induction false} FreeKeepsCounter(w: World, i: nat, c: nat)
    requires Consistent(w) && i in w.pictures && w.pictures[i].pixels.Some? && c in Free(w, i).memory.counts
    ensures CounterUsed(Free(w, i), c)
  {
    var w', p := Free(w, i), w.pictures[i];
    LastUser(w, i);
    assert PictureFits(w, i) && CounterUsed(w, c);
    var j :| j in w.pictures && w.pictures[j].counter == Some(c);
    if j == i {
      var u := Users(w, p.rows.value);
      if u == {i} { assert false; }
      var k :| k in u && k != i;
      assert Agree(p, w.pictures[k]) && w'.pictures[k].counter == Some(c);
    } else {
      assert w'.pictures[j].counter == Some(c);
    }
  }

  /** Losing or gaining a header makes no difference to an image without pixels. */
  lemma {:induction false} HeaderKeeps(w: World, i: nat, header: Option<Header>)
    requires Consistent(w) && i in w.pictures && w.pictures[i].pixels == None
    ensures Consistent(World(w.pictures[i := w.pictures[i].(header := header)], w.memory))
  {
    var w' := World(w.pictures[i := w.pictures[i].(header := header)], w.memory);
    assert PictureFits(w, i);
    forall t ensures Users(w', t) == Users(w, t) {}
    forall j | j in w'.pictures ensures PictureFits(w', j) { assert PictureFits(w, j); }
    forall j, k | j in w'.pictures && k in w'.pictures ensures Agree(w'.pictures[j], w'.pictures[k]) {
      assert Agree(w.pictures[j], w.pictures[k]);
    }
    forall t | t in w'.memory.dropped ensures DroppedRight(w', t) { assert DroppedRight(w, t); }
    forall b | b in w'.memory.released ensures ReleasedRight(w', b) {
      assert ReleasedRight(w, b);
      SameUse(w, w', b);
    }
    forall c | c in w'.memory.counts ensures CounterUsed(w', c) {
      assert CounterUsed(w, c);
      var j :| j in w.pictures && w.pictures[j].counter == Some(c);
      assert w'.pictures[j].counter == Some(c);
    }
  }

  lemma {:induction false} SameUse(w: World, w': World, b: Block)
    requires w'.pictures.Keys == w.pictures.Keys
    requires forall i :: i in w.pictures ==> w'.pictures[i].pixels == w.pictures[i].pixels
    ensures InUse(w', b) == InUse(w, b)
  {
    if InUse(w, b) {
      var i :| i in w.pictures && w.pictures[i].pixels == Some(b);
      assert w'.pictures[i].pixels == Some(b);
    }
  }

  lemma {:induction false} FreeCompletelyKeeps(w: World, i: nat)
    requires Consistent(w) && i in w.pictures
    ensures Consistent(FreeCompletely(w, i)) && FreeCompletely(w, i).pictures[i] == Blank()
  {
    FreeKeeps(w, i);
    HeaderKeeps(Free(w, i), i, None);
    var w' := FreeCompletely(w, i);
    assert PictureFits(Free(w, i), i);
    assert w'.pictures == Free(w, i).pictures[i := Free(w, i).pictures[i].(header := None)];
  }

  /** Image i, which had nothing, gets pixels and a row table of its own. */
  ghost predicate OwnRows(w: World, i: nat, p: Picture, m: Memory) {
    && i in w.pictures && w.pictures[i].pixels == None
    && p.header.Some? && p.counter == None && p.rows.Some? && p.pixels.Some?
    && w.memory.next <= p.rows.value < m.next && m.counts == w.memory.counts
    && m.dropped == w.memory.dropped[p.rows.value := 0]
    && (p.owner <==> p.pixels.value.Own?)
    && (if p.owner then w.memory.next <= p.pixels.value.id < m.next && m.released == w.memory.released[p.pixels.value := 0]
        else m.released == if p.pixels.value in w.memory.released then w.memory.released else w.memory.released[p.pixels.value := 0])
  }

  lemma {:induction false} OwnRowsFit(w: World, i: nat, p: Picture, m: Memory, j: nat)
    requires Consistent(w) && OwnRows(w, i, p, m) && j in w.pictures
    ensures PictureFits(World(w.pictures[i := p], m), j)
  {
    var w' := World(w.pictures[i := p], m);
    assert PictureFits(w, i) && PictureFits(w, j);
    if j == i {
      FreshTable(w, p.rows.value);
      assert Users(w', p.rows.value) == {i};
    } else if w.pictures[j].rows.Some? {
      var t := w.pictures[j].rows.value;
      FreshTable(w, p.rows.value);
      assert t != p.rows.value by { assert j in Users(w, t); }
      assert Users(w', t) == Users(w, t);
    }
  }

  /** No image uses a table that has not been handed out. */
  lemma {:induction false} FreshTable(w: World, t: nat)
    requires Consistent(w) && t >= w.memory.next
    ensures t !in w.memory.dropped && Users(w, t) == {}
  {
    assert t in w.memory.dropped ==> DroppedRight(w, t);
    forall j | j in w.pictures ensures w.pictures[j].rows != Some(t) { assert PictureFits(w, j); }
  }

  lemma {:induction false} OwnRowsAgree(w: World, i: nat, p: Picture, m: Memory, j: nat)
    requires Consistent(w) && OwnRows(w, i, p, m) && j in w.pictures && j != i
    ensures Agree(p, w.pictures[j]) && Agree(w.pictures[j], p)
  {
    FreshTable(w, p.rows.value);
    assert PictureFits(w, j);
    assert j in Users(w, p.rows.value) <==> w.pictures[j].rows == p.rows;
    assert p.pixels.value in w.memory.released ==> ReleasedRight(w, p.pixels.value);
  }

  lemma {:induction false} OwnRowsReleased(w: World, i: nat, p: Picture, m: Memory, b: Block)
    requires Consistent(w) && OwnRows(w, i, p, m) && b in m.released
    ensures ReleasedRight(World(w.pictures[i := p], m), b)
  {
    var w' := World(w.pictures[i := p], m);
    if b in w.memory.released { assert ReleasedRight(w, b); }
    if Some(b) == p.pixels {
      assert w'.pictures[i].pixels == Some(b);
    } else {
      if InUse(w, b) {
        var j :| j in w.pictures && w.pictures[j].pixels == Some(b);
        assert w'.pictures[j].pixels == Some(b);
      }
      if InUse(w', b) {
        var j :| j in w'.pictures && w'.pictures[j].pixels == Some(b);
        assert w.pictures[j].pixels == Some(b);
      }
    }
  }

  lemma {:induction false} OwnRowsKeeps(w: World, i: nat, p: Picture, m: Memory)
    requires Consistent(w) && OwnRows(w, i, p, m)
    ensures Consistent(World(w.pictures[i := p], m))
  {
    var w' := World(w.pictures[i := p], m);
    assert PictureFits(w, i);
    forall j | j in w'.pictures ensures PictureFits(w', j) { OwnRowsFit(w, i, p, m, j); }
    forall j, k | j in w'.pictures && k in w'.pictures ensures Agree(w'.pictures[j], w'.pictures[k]) {
      if j != i { OwnRowsAgree(w, i, p, m, j); }
      if k != i { OwnRowsAgree(w, i, p, m, k); }
      assert Agree(w.pictures[j], w.pictures[k]);
    }
    forall t | t in w'.memory.dropped ensures DroppedRight(w', t) {
      FreshTable(w, p.rows.value);
      if t != p.rows.value {
        assert DroppedRight(w, t) && Users(w', t) == Users(w, t);
      } else {
        assert i in Users(w', t);
      }
    }
    forall b | b in w'.memory.released ensures ReleasedRight(w', b) { OwnRowsReleased(w, i, p, m, b); }
    forall c | c in w'.memory.counts ensures CounterUsed(w', c) {
      assert CounterUsed(w, c);
      var j :| j in w.pictures && w.pictures[j].counter == Some(c);
      assert w'.pictures[j].counter == Some(c);
    }
  }

  // ----- sharing

  function Refer(w: World, i: nat, j: nat): World
    requires i in w.pictures && j in w.pictures
  {
    var (p, q, m) := Referred(w.pictures[i], w.pictures[j], w.memory);
    World(w.pictures[i := p][j := q], m)
  }

  /** Image i, which has nothing, joins the users of image j's pixels. */
  function Share(w: World, i: nat, j: nat): World
    requires i in w.pictures && j in w.pictures
  {
    var src := w.pictures[j];
    var (c, m) := Counted(src.counter, w.memory);
    World(w.pictures[i := Picture(src.header, src.pixels, src.rows, Some(c), src.owner)][j := src.(counter := Some(c))], m)
  }

  ghost predicate Shareable(w: World, i: nat, j: nat) {
    && Consistent(w) && i in w.pictures && j in w.pictures && i != j
    && w.pictures[i].pixels == None && w.pictures[j].pixels.Some?
  }

  lemma {:induction false} ShareUsers(w: World, i: nat, j: nat, t: nat)
    requires Shareable(w, i, j)
    ensures w.pictures[j].rows.Some? && j in Users(w, w.pictures[j].rows.value)
    ensures i !in Users(w, t)
    ensures Users(Share(w, i, j), t) == if w.pictures[j].rows == Some(t) then Users(w, t) + {i} else Users(w, t)
  {
    assert PictureFits(w, i) && PictureFits(w, j);
  }

  /** The counter image j has, or gets, is used by the users of its rows and no others. */
  lemma {:induction false} ShareCounter(w: World, i: nat, j: nat, k: nat)
    requires Shareable(w, i, j) && k in w.pictures && k != i && k != j
    ensures var c := Counted(w.pictures[j].counter, w.memory).0;
      w.pictures[k].counter == Some(c) <==> w.pictures[k].rows == w.pictures[j].rows
    ensures w.pictures[k].counter.Some? ==> w.pictures[k].counter.value in w.memory.counts
  {
    var src := w.pictures[j];
    assert PictureFits(w, j) && PictureFits(w, k) && Agree(src, w.pictures[k]) && Agree(w.pictures[k], src);
    if src.counter == None {
      var u := Users(w, src.rows.value);
      assert j in u && |u| == 1 && |u - {j}| == 0;
      assert k !in u - {j};
      assert w.pictures[k].counter.Some? ==> CounterUsed(w, w.pictures[k].counter.value);
    }
  }

  lemma {:induction false} ShareFits(w: World, i: nat, j: nat, k: nat)
    requires Shareable(w, i, j) && k in w.pictures
    ensures PictureFits(Share(w, i, j), k)
  {
    var src, w' := w.pictures[j], Share(w, i, j);
    assert PictureFits(w, i) && PictureFits(w, j) && PictureFits(w, k);
    ShareUsers(w, i, j, src.rows.value);
    if k != i && k != j {
      ShareCounter(w, i, j, k);
      if w.pictures[k].rows.Some? { ShareUsers(w, i, j, w.pictures[k].rows.value); }
    }
  }

  lemma {:induction false} ShareAgrees(w: World, i: nat, j: nat, k: nat, l: nat)
    requires Shareable(w, i, j) && k in w.pictures && l in w.pictures
    ensures Agree(Share(w, i, j).pictures[k], Share(w, i, j).pictures[l])
  {
    var src := w.pictures[j];
    var k', l' := if k == i then j else k, if l == i then j else l;
    assert PictureFits(w, j) && Agree(w.pictures[k'], w.pictures[l']);
    if k' != j { ShareCounter(w, i, j, k'); }
    if l' != j { ShareCounter(w, i, j, l'); }
  }

  lemma {:induction false} ShareKeeps(w: World, i: nat, j: nat)
    requires Shareable(w, i, j)
    ensures Consistent(Share(w, i, j))
  {
    var src, w' := w.pictures[j], Share(w, i, j);
    forall k | k in w'.pictures ensures PictureFits(w', k) { ShareFits(w, i, j, k); }
    forall k, l | k in w'.pictures && l in w'.pictures ensures Agree(w'.pictures[k], w'.pictures[l]) {
      ShareAgrees(w, i, j, k, l);
    }
    forall t | t in w'.memory.dropped ensures DroppedRight(w', t) {
      ShareUsers(w, i, j, t);
      assert DroppedRight(w, t);
    }
    forall b | b in w'.memory.released ensures ReleasedRight(w', b) {
      assert ReleasedRight(w, b) && PictureFits(w, i);
      ShareUse(w, i, j, b);
    }
    forall c | c in w'.memory.counts ensures CounterUsed(w', c) {
      if Some(c) == w'.pictures[j].counter {
        assert PictureFits(w, j);
        if c in w.memory.counts { assert CounterUsed(w, c); }
      } else {
        assert CounterUsed(w, c) && PictureFits(w, i);
        var k :| k in w.pictures && w.pictures[k].counter == Some(c);
        assert w'.pictures[k].counter == Some(c);
      }
    }
  }

  lemma {:induction false} ShareUse(w: World, i: nat, j: nat, b: Block)
    requires Shareable(w, i, j)
    ensures InUse(Share(w, i, j), b) == InUse(w, b)
  {
    var w' := Share(w, i, j);
    if InUse(w, b) {
      var k :| k in w.pictures && w.pictures[k].pixels == Some(b);
      assert w'.pictures[k].pixels == Some(b);
    }
    if InUse(w', b) {
      var k :| k in w'.pictures && w'.pictures[k].pixels == Some(b);
      assert w.pictures[if k == i then j else k].pixels == Some(b);
    }
  }
}
