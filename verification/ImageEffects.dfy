/** What every operation leaves behind: size, pixels and rows of its image, and all other images as they were. */
module ImageEffects {
  import opened Options
  import opened ImageBuffers
  import opened ImageSharing
  import opened ImageRuns

  /** Pixels and rows of its own that were not there in m, and no other user. */
  ghost predicate BrandNew(p: Picture, m: Memory) {
    && p.pixels.Some? && p.pixels.value.Own? && p.pixels.value !in m.released
    && p.rows.Some? && p.rows.value !in m.dropped && p.counter == None && p.owner
  }

  /** Nothing is changed but the images of c. */
  ghost predicate OthersKept(w: World, w': World, c: set<nat>) {
    && (forall k :: k !in c ==> (k in w'.pictures <==> k in w.pictures))
    && (forall k :: k in w.pictures && k !in c ==> w'.pictures[k] == w.pictures[k])
  }

  lemma {:induction false} NextIsNew(w: World, b: Block, t: nat)
    requires Consistent(w) && b.Own? && b.id >= w.memory.next && t >= w.memory.next
    ensures b !in w.memory.released && t !in w.memory.dropped
  {
    assert b in w.memory.released ==> ReleasedRight(w, b);
    assert t in w.memory.dropped ==> DroppedRight(w, t);
  }

  lemma {:induction false} CreateShows(w: World, i: nat)
    requires i !in w.pictures
    ensures var w' := Apply(w, Create(i));
      && i in w'.pictures && w'.pictures[i].header == None && w'.pictures[i].pixels == None && w'.pictures[i].rows == None
      && OthersKept(w, w', {i}) && w'.memory == w.memory
  {
  }

  lemma {:induction false} AllocateShows(w: World, i: nat, h: Header)
    requires Consistent(w) && i in w.pictures
    ensures var w' := Apply(w, Allocate(i, h));
      w'.pictures[i].header == Some(h) && BrandNew(w'.pictures[i], w.memory) && OthersKept(w, w', {i})
  {
    assert PictureFits(w, i);
    var p := Apply(w, Allocate(i, h)).pictures[i];
    NextIsNew(w, p.pixels.value, p.rows.value);
  }

  /** The pixels wrapped are the ones given, and the rows are new. */
  lemma {:induction false} WrapShows(w: World, i: nat, buffer: nat, h: Header)
    requires Consistent(w) && i in w.pictures
    ensures var w' := Apply(w, Wrap(i, buffer, h));
      && w'.pictures[i].header == Some(h) && w'.pictures[i].pixels == Some(Foreign(buffer)) && !w'.pictures[i].owner
      && w'.pictures[i].rows.Some? && w'.pictures[i].rows.value !in w.memory.dropped && OthersKept(w, w', {i})
  {
    assert PictureFits(w, i);
    NextIsNew(w, Own(w.memory.next), Apply(w, Wrap(i, buffer, h)).pictures[i].rows.value);
  }

  /** Both images show the source's pixels, in the source's layout, by the same rows and counter. */
  lemma {:induction false} ReferShows(w: World, i: nat, j: nat)
    requires Consistent(w) && CanApply(w, ReferTo(i, j))
    ensures var w', src := Apply(w, ReferTo(i, j)), w.pictures[j];
      && i in w'.pictures && j in w'.pictures && w'.pictures[i] == w'.pictures[j] && w'.pictures[j].counter.Some?
      && w'.pictures[j].(counter := src.counter) == src && OthersKept(w, w', {i, j})
  {
  }

  /**
   * Whatever image is resized, it has the width and the height asked for. It is left as it is,
   * which takes the same width and height; or it has the layout asked for, and new pixels and rows.
   */
  lemma {:induction false} ResizeShows(w: World, i: nat, h: Header)
    requires Consistent(w) && i in w.pictures
    ensures var w', p := Apply(w, Resize(i, h)), w.pictures[i];
      var p' := w'.pictures[i];
      && p'.header.Some? && p'.header.value.width == h.width && p'.header.value.height == h.height
      && (w' == w || (p'.header == Some(h) && BrandNew(p', w.memory))) && OthersKept(w, w', {i})
      && (p.header == None || p.pixels == None || p.header.value.width != h.width || p.header.value.height != h.height ==>
            p'.header == Some(h) && BrandNew(p', w.memory))
  {
    assert PictureFits(w, i);
    var w' := Apply(w, Resize(i, h));
    if SameSize(w.pictures[i], h) {
      assert w'.pictures == w.pictures;
    } else {
      NextIsNew(w, w'.pictures[i].pixels.value, w'.pictures[i].rows.value);
    }
  }

  /** An image without pixels, and perhaps with a layout. */
  lemma {:induction false} ClearShows(w: World, i: nat)
    requires Consistent(w) && i in w.pictures
    ensures var w' := Apply(w, Clear(i));
      && w'.pictures[i] == Picture(w.pictures[i].header, None, None, None, true) && OthersKept(w, w', {i})
  {
    assert PictureFits(w, i);
  }

  lemma {:induction false} DestroyShows(w: World, i: nat)
    requires i in w.pictures
    ensures var w' := Apply(w, Destroy(i)); i !in w'.pictures && OthersKept(w, w', {i})
  {
  }

  /**
   * The test in Resize does not look at the type of the pixels: an image of one 4-byte channel
   * that is asked to have one of one byte stays as it is, and one of three channels does not.
   */
  lemma {:induction false} TypeMayStay()
    ensures var float, rgb, mono := Header(1, 1, 1, 4), Header(1, 1, 3, 1), Header(1, 1, 1, 1);
      var w, w' := Apply(Apply(Empty(), Create(0)), Allocate(0, float)), Apply(Apply(Empty(), Create(0)), Allocate(0, rgb));
      && Apply(w, Resize(0, mono)).pictures[0] == w.pictures[0] && w.pictures[0].header == Some(float)
      && Apply(w', Resize(0, mono)).pictures[0].header == Some(mono)
  {
  }
}
