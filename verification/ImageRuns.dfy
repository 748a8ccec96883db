/** Whole runs over any number of images, and what they mean for buffers, tables and counters. */
module ImageRuns {
  import opened Options
  import opened RowPadding
  import opened ImageBuffers
  import opened ImageSharing

  datatype Op =
    | Create(i: nat) | Allocate(i: nat, h: Header) | Wrap(i: nat, buffer: nat, h: Header)
    | ReferTo(i: nat, j: nat) | Resize(i: nat, h: Header) | Clear(i: nat) | Destroy(i: nat)

  /** A source of ReferTo is another image, and has pixels. */
  predicate CanApply(w: World, op: Op) {
    if op.Create? then op.i !in w.pictures
    else op.i in w.pictures && (op.ReferTo? ==> op.j in w.pictures && op.j != op.i && w.pictures[op.j].pixels.Some?)
  }

  function Apply(w: World, op: Op): World
    requires CanApply(w, op)
  {
    match op
    case Create(i) => World(w.pictures[i := Blank()], w.memory)
    case Allocate(i, h) => With(w, i, Allocated(w.pictures[i], w.memory, h))
    case Wrap(i, b, h) => With(w, i, Wrapped(w.pictures[i], w.memory, b, h))
    case ReferTo(i, j) => Refer(w, i, j)
    case Resize(i, h) => With(w, i, Resized(w.pictures[i], w.memory, h))
    case Clear(i) => Free(w, i)
    case Destroy(i) => World(FreeCompletely(w, i).pictures - {i}, FreeCompletely(w, i).memory)
  }

  function Empty(): World {
    World(map[], Memory(map[], map[], map[], 0))
  }

  ghost predicate Run(w: World, ops: seq<Op>, w': World)
    decreases |ops|
  {
    if ops == [] then w == w' else CanApply(w, ops[0]) && Run(Apply(w, ops[0]), ops[1..], w')
  }

  // ----- every operation keeps the sharing consistent

  lemma {:induction false} AllocateKeeps(w: World, i: nat, h: Header)
    requires Consistent(w) && i in w.pictures
    ensures Consistent(Apply(w, Allocate(i, h)))
  {
    FreeCompletelyKeeps(w, i);
    var w1 := FreeCompletely(w, i);
    var (p, m) := Allocated(w.pictures[i], w.memory, h);
    OwnRowsKeeps(w1, i, p, m);
    assert w.pictures[i := p] == w1.pictures[i := p];
  }

  lemma {:induction false} WrapKeeps(w: World, i: nat, b: nat, h: Header)
    requires Consistent(w) && i in w.pictures
    ensures Consistent(Apply(w, Wrap(i, b, h)))
  {
    FreeCompletelyKeeps(w, i);
    var w1 := FreeCompletely(w, i);
    var (p, m) := Wrapped(w.pictures[i], w.memory, b, h);
    OwnRowsKeeps(w1, i, p, m);
    assert w.pictures[i := p] == w1.pictures[i := p];
  }

  /** Referring to an image keeps the sharing consistent if and only if that is another image with pixels. */
  lemma {:induction false} ReferKeepsIff(w: World, i: nat, j: nat, empty: Header)
    requires Consistent(w) && i in w.pictures && j in w.pictures && w.pictures[j].header.Some?
    ensures i != j ==> (Consistent(Refer(w, i, j)) <==> w.pictures[j].pixels.Some?)
    ensures i == j ==> !Consistent(With(w, i, SelfReferred(w.pictures[i], w.memory, empty)))
  {
    FreeCompletelyKeeps(w, i);
    var w1 := FreeCompletely(w, i);
    assert PictureFits(w, j);
    if i == j {
      var w2 := With(w, i, SelfReferred(w.pictures[i], w.memory, empty));
      assert !PictureFits(w2, i);
    } else if w.pictures[j].pixels.Some? {
      ShareKeeps(w1, i, j);
      assert Refer(w, i, j).pictures == Share(w1, i, j).pictures;
    } else {
      assert !PictureFits(Refer(w, i, j), i);
    }
  }

  /**
   * The padding the test in Resize assumes, in pixels, is that of the rows, in bytes: for colour
   * images of one byte a channel only if there is none.
   */
  predicate PaddedAsTested(h: Header) {
    h.height == 0 || Pad(LineBytes(h)) == Pad(h.width * h.channels) * (h.channels * h.depth)
  }

  /**
   * Resizing an image to the size it has leaves everything as it is if the padding is as tested,
   * and gives it pixels and rows that were never there before if it is not.
   */
  lemma {:induction false} ResizeSameIff(w: World, i: nat, h: Header)
    requires Consistent(w) && i in w.pictures && w.pictures[i].header == Some(h) && w.pictures[i].pixels.Some?
    ensures var w' := Apply(w, Resize(i, h));
      && w'.pictures[i].pixels.Some? && w'.pictures[i].rows.Some?
      && (PaddedAsTested(h) <==> w' == w)
      && (PaddedAsTested(h) <==> w'.pictures[i].pixels.value in w.memory.released)
      && (PaddedAsTested(h) <==> w'.pictures[i].rows.value in w.memory.dropped)
    ensures h.depth == 1 && h.channels == 3 && h.height > 0 ==> (PaddedAsTested(h) <==> Pad(LineBytes(h)) == 0)
  {
    assert PictureFits(w, i);
    var b, n := Own(w.memory.next), w.memory.next + 1;
    assert b in w.memory.released ==> ReleasedRight(w, b);
    assert n in w.memory.dropped ==> DroppedRight(w, n);
    SameSizeIff(w.pictures[i], h);
    assert w.pictures[i := w.pictures[i]] == w.pictures;
  }

  lemma {:induction false} SameSizeIff(p: Picture, h: Header)
    requires p.header == Some(h) && p.pixels.Some? && p.rows.Some?
    ensures SameSize(p, h) <==> PaddedAsTested(h)
  {
    var line, pad, size := LineBytes(h), Pad(h.width * h.channels), h.channels * h.depth;
    assert h.width * size == line;
    assert (h.width + pad) * h.height * size == (h.width * size + pad * size) * h.height;
    if h.height > 0 { CancelHeight(line + Pad(line), line + pad * size, h.height); }
  }

  /** A colour image one pixel wide has five bytes of padding where the test assumes five pixels. */
  lemma {:induction false} ResizeSameLoses()
    ensures var h := Header(1, 1, 3, 1);
      var w := Apply(Apply(Empty(), Create(0)), Allocate(0, h));
      var w' := Apply(w, Resize(0, h));
      && w.pictures[0].header == Some(h) && w.pictures[0].pixels == Some(Own(0)) && w.memory.released[Own(0)] == 0
      && w'.pictures[0].pixels == Some(Own(2)) && w'.memory.released[Own(0)] == 1
  {
  }

  lemma {:induction false} CancelHeight(x: int, y: int, n: nat)
    requires n > 0
    ensures x * n == y * n <==> x == y
  {
    if x < y { TimesGrows(x, y, n); }
    if y < x { TimesGrows(y, x, n); }
  }

  lemma {:induction false} TimesGrows(x: int, y: int, n: nat)
    requires x < y && n > 0
    ensures x * n < y * n
  {
    if n == 1 {
    } else {
      TimesGrows(x, y, n - 1);
      assert x * n == x * (n - 1) + x && y * n == y * (n - 1) + y;
    }
  }

  lemma {:induction false} ResizeKeeps(w: World, i: nat, h: Header)
    requires Consistent(w) && i in w.pictures
    ensures Consistent(Apply(w, Resize(i, h)))
  {
    var w' := Apply(w, Resize(i, h));
    if SameSize(w.pictures[i], h) {
      assert w'.pictures == w.pictures;
    } else {
      FreeCompletelyKeeps(w, i);
      var w1 := FreeCompletely(w, i);
      AllocateKeeps(w1, i, h);
      assert w'.pictures == Apply(w1, Allocate(i, h)).pictures;
    }
  }

  /** An image without anything may come or go. */
  lemma {:induction false} BlankKeeps(w: World, w': World, i: nat)
    requires Consistent(w) && w'.memory == w.memory
    requires i in w.pictures ==> w.pictures[i] == Blank() && w'.pictures == w.pictures - {i}
    requires i !in w.pictures ==> w'.pictures == w.pictures[i := Blank()]
    ensures Consistent(w')
  {
    forall t ensures Users(w', t) == Users(w, t) {}
    forall j | j in w'.pictures ensures PictureFits(w', j) {
      if j != i { assert PictureFits(w, j); }
    }
    forall j, k | j in w'.pictures && k in w'.pictures ensures Agree(w'.pictures[j], w'.pictures[k]) {
      if j != i && k != i { assert Agree(w.pictures[j], w.pictures[k]); }
    }
    forall t | t in w'.memory.dropped ensures DroppedRight(w', t) { assert DroppedRight(w, t); }
    forall b | b in w'.memory.released ensures ReleasedRight(w', b) {
      assert ReleasedRight(w, b);
      if InUse(w, b) {
        var j :| j in w.pictures && w.pictures[j].pixels == Some(b);
        assert w'.pictures[j].pixels == Some(b);
      }
    }
    forall c | c in w'.memory.counts ensures CounterUsed(w', c) {
      assert CounterUsed(w, c);
      var j :| j in w.pictures && w.pictures[j].counter == Some(c);
      assert w'.pictures[j].counter == Some(c);
    }
  }

  lemma {:induction false} ApplyKeeps(w: World, op: Op)
    requires Consistent(w) && CanApply(w, op)
    ensures Consistent(Apply(w, op))
  {
    match op
    case Create(i) => BlankKeeps(w, Apply(w, op), i);
    case Allocate(i, h) => AllocateKeeps(w, i, h);
    case Wrap(i, b, h) => WrapKeeps(w, i, b, h);
    case ReferTo(i, j) =>
      assert PictureFits(w, j);
      ReferKeepsIff(w, i, j, Header(0, 0, 1, 1));
    case Resize(i, h) => ResizeKeeps(w, i, h);
    case Clear(i) => FreeKeeps(w, i);
    case Destroy(i) =>
      FreeCompletelyKeeps(w, i);
      BlankKeeps(FreeCompletely(w, i), Apply(w, op), i);
  }

  lemma {:induction false} RunKeeps(w: World, ops: seq<Op>, w': World)
    requires Consistent(w) && Run(w, ops, w')
    ensures Consistent(w')
    decreases |ops|
  {
    if ops == [] {
    } else {
      ApplyKeeps(w, ops[0]);
      RunKeeps(Apply(w, ops[0]), ops[1..], w');
    }
  }

  // ----- what that means

  /** After any run no image points at a released buffer or a dropped table, and counters count the users. */
  lemma {:induction false} NothingDangles(ops: seq<Op>, w: World, i: nat)
    requires Run(Empty(), ops, w) && i in w.pictures && w.pictures[i].pixels.Some?
    ensures var p := w.pictures[i];
      && p.pixels.value in w.memory.released && w.memory.released[p.pixels.value] == 0
      && p.rows.Some? && p.rows.value in w.memory.dropped && w.memory.dropped[p.rows.value] == 0
      && |Users(w, p.rows.value)| == if p.counter.Some? && p.counter.value in w.memory.counts then w.memory.counts[p.counter.value] else 1
  {
    RunKeeps(Empty(), ops, w);
    var p := w.pictures[i];
    assert PictureFits(w, i) && InUse(w, p.pixels.value) && i in Users(w, p.rows.value);
    assert ReleasedRight(w, p.pixels.value) && DroppedRight(w, p.rows.value);
  }

  /** Two images with the same pixels of their own share the row table and the counter. */
  lemma {:induction false} SharersAgree(ops: seq<Op>, w: World, i: nat, j: nat)
    requires Run(Empty(), ops, w) && i in w.pictures && j in w.pictures && i != j
    requires w.pictures[i].pixels.Some? && w.pictures[i].pixels == w.pictures[j].pixels && w.pictures[i].pixels.value.Own?
    ensures w.pictures[i].rows == w.pictures[j].rows && w.pictures[i].counter == w.pictures[j].counter
    ensures w.pictures[i].counter.Some?
  {
    RunKeeps(Empty(), ops, w);
    assert PictureFits(w, i) && Agree(w.pictures[i], w.pictures[j]);
    var u := Users(w, w.pictures[i].rows.value);
    assert {i, j} <= u && |u - {i, j}| == |u| - 2;
  }

  /** Every buffer ever allocated is released once when its last image lets go, and foreign ones never. */
  lemma {:induction false} ReleasedOnce(ops: seq<Op>, w: World, b: Block)
    requires Run(Empty(), ops, w) && b in w.memory.released
    ensures b.Own? ==> w.memory.released[b] == if InUse(w, b) then 0 else 1
    ensures b.Foreign? ==> w.memory.released[b] == 0
  {
    RunKeeps(Empty(), ops, w);
    assert ReleasedRight(w, b);
  }

  /** Every row table is dropped once when its last image lets go, and not before. */
  lemma {:induction false} RowsDroppedOnce(ops: seq<Op>, w: World, t: nat)
    requires Run(Empty(), ops, w) && t in w.memory.dropped
    ensures w.memory.dropped[t] == if Users(w, t) == {} then 1 else 0
  {
    RunKeeps(Empty(), ops, w);
    assert DroppedRight(w, t);
  }

  /** Once all images are gone nothing is left over. */
  lemma {:induction false} NothingLeaks(ops: seq<Op>, w: World)
    requires Run(Empty(), ops, w) && w.pictures == map[]
    ensures w.memory.counts == map[]
    ensures forall t :: t in w.memory.dropped ==> w.memory.dropped[t] == 1
    ensures forall b: Block :: b in w.memory.released && b.Own? ==> w.memory.released[b] == 1
  {
    RunKeeps(Empty(), ops, w);
    forall c ensures c !in w.memory.counts { assert c in w.memory.counts ==> CounterUsed(w, c); }
    forall t | t in w.memory.dropped ensures w.memory.dropped[t] == 1 { assert DroppedRight(w, t) && Users(w, t) == {}; }
    forall b: Block | b in w.memory.released && b.Own? ensures w.memory.released[b] == 1 { assert ReleasedRight(w, b); }
  }

  // ----- what a wrong reference leads to

  /** Some buffer of its own was never released although no image points at it any more. */
  ghost predicate Leaks(w: World) {
    exists b: Block {:trigger InUse(w, b)} :: b.Own? && b in w.memory.released && w.memory.released[b] == 0 && !InUse(w, b)
  }

  ghost predicate CanLeak(w: World) {
    exists ops: seq<Op>, v: World :: Run(w, ops, v) && Leaks(v)
  }

  /** What Refer makes of image i, told to refer to image j. */
  function AfterRefer(w: World, i: nat, j: nat, empty: Header): World
    requires i in w.pictures && j in w.pictures
  {
    if i == j then With(w, i, SelfReferred(w.pictures[i], w.memory, empty)) else Refer(w, i, j)
  }

  /** An image without pixels that got a counter all the same never releases the pixels it is given later. */
  lemma {:induction false} StrayCounterLeaks(w: World, i: nat, h: Header) returns (ops: seq<Op>, v: World)
    requires i in w.pictures && w.pictures[i].pixels == None && w.pictures[i].counter.Some?
    requires w.pictures[i].counter.value in w.memory.counts && w.memory.counts[w.pictures[i].counter.value] > 1
    requires forall k :: k in w.pictures ==> w.pictures[k].pixels != Some(Own(w.memory.next))
    ensures ops == [Allocate(i, h), Destroy(i)] && Run(w, ops, v) && Leaks(v) && v.pictures == w.pictures - {i}
    ensures Own(w.memory.next) in v.memory.released && v.memory.released[Own(w.memory.next)] == 0
  {
    ops := [Allocate(i, h), Destroy(i)];
    var u, b := Apply(w, ops[0]), Own(w.memory.next);
    v := Apply(u, ops[1]);
    assert v.pictures == w.pictures - {i};
    assert !InUse(v, b);
    assert ops[1..] == [ops[1]] && ops[1..][1..] == [];
    assert Run(v, [], v) && Run(u, ops[1..], v);
  }

  lemma {:induction false} NoLeaks(w: World)
    requires Consistent(w)
    ensures !Leaks(w)
  {
    forall b: Block | b.Own? && b in w.memory.released && w.memory.released[b] == 0 ensures InUse(w, b) {
      assert ReleasedRight(w, b);
    }
  }

  lemma {:induction false} NextIsUnused(w: World, n: nat, k: nat)
    requires Consistent(w) && n >= w.memory.next && k in w.pictures
    ensures w.pictures[k].pixels != Some(Own(n))
  {
    assert PictureFits(w, k);
    assert Own(n) in w.memory.released ==> ReleasedRight(w, Own(n));
  }

  lemma {:induction false} WrongReference(w: World, i: nat, j: nat, empty: Header)
    requires Consistent(w) && i in w.pictures && j in w.pictures && (i == j || w.pictures[j].pixels == None)
    ensures var w' := AfterRefer(w, i, j, empty);
      && w'.pictures[i].pixels == None && w'.pictures[i].counter.Some?
      && w'.pictures[i].counter.value in w'.memory.counts && w'.memory.counts[w'.pictures[i].counter.value] == 2
      && forall k :: k in w'.pictures ==> w'.pictures[k].pixels != Some(Own(w'.memory.next))
  {
    var w' := AfterRefer(w, i, j, empty);
    assert PictureFits(w, i) && PictureFits(w, j);
    forall k | k in w'.pictures ensures w'.pictures[k].pixels != Some(Own(w'.memory.next)) {
      NextIsUnused(w, w'.memory.next, k);
    }
  }

  /** After a call of Refer some run leaks if and only if the source was the same image or had no pixels. */
  lemma {:induction false} ReferLeaksIff(w: World, i: nat, j: nat, empty: Header)
    requires Consistent(w) && i in w.pictures && j in w.pictures && w.pictures[j].header.Some?
    ensures (i == j || w.pictures[j].pixels == None)
       <==> CanLeak(AfterRefer(w, i, j, empty))
  {
    var w' := AfterRefer(w, i, j, empty);
    if i == j || w.pictures[j].pixels == None {
      WrongReference(w, i, j, empty);
      var ops, v := StrayCounterLeaks(w', i, empty);
      assert Run(w', ops, v) && Leaks(v);
    } else {
      ReferKeepsIff(w, i, j, empty);
      if CanLeak(w') {
        var ops, v :| Run(w', ops, v) && Leaks(v);
        RunKeeps(w', ops, v);
        NoLeaks(v);
        assert false;
      }
    }
  }

  /** Such a source comes about: an image that was allocated and cleared, as the only other one. */
  lemma {:induction false} SourceWithoutPixels(h: Header) returns (w: World)
    ensures Run(Empty(), [Create(0), Create(1), Allocate(1, h), Clear(1)], w)
    ensures w.pictures.Keys == {0, 1} && w.pictures[1].header == Some(h) && w.pictures[1].pixels == None
  {
    var ops := [Create(0), Create(1), Allocate(1, h), Clear(1)];
    var w1 := Apply(Empty(), ops[0]);
    var w2 := Apply(w1, ops[1]);
    var w3 := Apply(w2, ops[2]);
    w := Apply(w3, ops[3]);
    assert Run(w, [], w) && ops[3..][1..] == [] && ops[2..][1..] == ops[3..] && ops[1..][1..] == ops[2..];
    assert Run(w3, ops[3..], w) && Run(w2, ops[2..], w) && Run(w1, ops[1..], w);
  }

  /** And once all images are gone, pixels of one's own are left over. */
  lemma {:induction false} ReferCanLeak(h: Header) returns (w: World, ops: seq<Op>, v: World)
    ensures Run(Empty(), [Create(0), Create(1), Allocate(1, h), Clear(1)], w)
    ensures 0 in w.pictures && 1 in w.pictures && ops == [Allocate(0, h), Destroy(0)] && Run(Refer(w, 0, 1), ops, v)
    ensures 1 in v.pictures && Apply(v, Destroy(1)).pictures == map[] && Leaks(Apply(v, Destroy(1)))
  {
    w := SourceWithoutPixels(h);
    StartsConsistent();
    RunKeeps(Empty(), [Create(0), Create(1), Allocate(1, h), Clear(1)], w);
    WrongReference(w, 0, 1, h);
    ops, v := StrayCounterLeaks(Refer(w, 0, 1), 0, h);
    var u, b := Apply(v, Destroy(1)), Own(Refer(w, 0, 1).memory.next);
    assert u.pictures.Keys == {};
    assert b in u.memory.released && u.memory.released[b] == 0 && !InUse(u, b);
  }

  /** The same for an image that refers to itself. */
  lemma {:induction false} SelfReferCanLeak(h: Header) returns (w: World, ops: seq<Op>, v: World)
    ensures Run(Empty(), [Create(0), Allocate(0, h)], w)
    ensures 0 in w.pictures && ops == [Allocate(0, h), Destroy(0)] && Run(AfterRefer(w, 0, 0, h), ops, v)
    ensures v.pictures == map[] && Leaks(v)
  {
    var w1 := Apply(Empty(), Create(0));
    w := Apply(w1, Allocate(0, h));
    var first := [Create(0), Allocate(0, h)];
    assert first[1..] == [first[1]] && first[1..][1..] == [];
    assert Run(w, [], w) && Run(w1, first[1..], w) && Run(Empty(), first, w);
    StartsConsistent();
    RunKeeps(Empty(), first, w);
    WrongReference(w, 0, 0, h);
    ops, v := StrayCounterLeaks(AfterRefer(w, 0, 0, h), 0, h);
    assert v.pictures.Keys == {};
  }

  lemma {:induction false} StartsConsistent()
    ensures Consistent(Empty())
  {
  }
}
