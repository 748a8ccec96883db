/** Images and the memory they draw on, updated in place. */
module Images {
  import opened Options
  import opened RowPadding
  import opened ImageBuffers

  class Heap {
    var counts: map<nat, int>
    var released: map<Block, nat>
    var dropped: map<nat, nat>
    var next: nat

    ghost function Value(): Memory
      reads this
    {
      Memory(counts, released, dropped, next)
    }

    constructor ()
      ensures Value() == Memory(map[], map[], map[], 0)
    {
      counts, released, dropped, next := map[], map[], map[], 0;
    }

    /** One reference less; deletes the counter when it was the last. */
    method RemoveReference(c: Option<nat>) returns (last: bool)
      modifies this
      ensures (Value(), last) == Uncounted(c, old(Value()))
    {
      last := true;
      if c.Some? && c.value in counts {
        var count := counts[c.value] - 1;
        counts := counts[c.value := count];
        if count <= 0 {
          counts := counts - {c.value};
        } else {
          last := false;
        }
        assert last ==> counts == old(counts) - {c.value};
      }
    }

    /** One reference more; a counter is made on first use. */
    method AddReference(c: Option<nat>) returns (d: nat)
      modifies this
      ensures (d, Value()) == Counted(c, old(Value()))
    {
      if c.Some? && c.value in counts {
        d := c.value;
      } else {
        d := next;
        next := next + 1;
        counts := counts[d := 1];
      }
      counts := counts[d := counts[d] + 1];
      assert counts == old(counts)[d := counts[d]];
    }

    method Release(b: Option<Block>)
      modifies this
      ensures Value() == old(Value()).(released := Raised(old(released), b))
    {
      if b.Some? && b.value in released { released := released[b.value := released[b.value] + 1]; }
    }

    method Drop(t: Option<nat>)
      modifies this
      ensures Value() == old(Value()).(dropped := Raised(old(dropped), t))
    {
      if t.Some? && t.value in dropped { dropped := dropped[t.value := dropped[t.value] + 1]; }
    }

    method NewBlock() returns (b: Block)
      modifies this
      ensures b == Own(old(next))
      ensures Value() == old(Value()).(released := old(released)[b := 0], next := old(next) + 1)
    {
      b := Own(next);
      released := released[b := 0];
      next := next + 1;
    }

    method ForeignBlock(buffer: nat) returns (b: Block)
      modifies this
      ensures b == Foreign(buffer)
      ensures Value() == old(Value()).(released := if b in old(released) then old(released) else old(released)[b := 0])
    {
      b := Foreign(buffer);
      if b !in released { released := released[b := 0]; }
    }

    method NewTable() returns (t: nat)
      modifies this
      ensures t == old(next)
      ensures Value() == old(Value()).(dropped := old(dropped)[t := 0], next := old(next) + 1)
    {
      t := next;
      dropped := dropped[t := 0];
      next := next + 1;
    }
  }

  /** Pixels and rows numbered from next on. */
  predicate IsNew(pixels: Option<Block>, rows: Option<nat>, next: nat) {
    pixels.Some? && pixels.value.Own? && pixels.value.id >= next && rows.Some? && rows.value >= next
  }

  class Image {
    var header: Option<Header>
    var pixels: Option<Block>
    var rows: Option<nat>
    var counter: Option<nat>
    var owner: bool

    ghost function Value(): Picture
      reads this
    {
      Picture(header, pixels, rows, counter, owner)
    }

    constructor ()
      ensures Value() == Blank()
    {
      header, pixels, rows, counter, owner := None, None, None, None, true;
    }

    /** Lets go of the pixels; the last user releases them, if they are its own, and drops the rows. */
    method Free(heap: Heap)
      modifies this, heap
      ensures (Value(), heap.Value()) == Freed(old(Value()), old(heap.Value()))
    {
      if header.Some? && pixels.Some? {
        var last := heap.RemoveReference(counter);
        counter := None;
        if last {
          if owner { heap.Release(pixels); }
          heap.Drop(rows);
        }
        owner := true;
        rows := None;
        pixels := None;
      }
    }

    method FreeComplete(heap: Heap)
      modifies this, heap
      ensures (Value(), heap.Value()) == FreedCompletely(old(Value()), old(heap.Value()))
    {
      Free(heap);
      header := None;
    }

    method Clear(heap: Heap)
      modifies this, heap
      ensures (Value(), heap.Value()) == Freed(old(Value()), old(heap.Value()))
    {
      Free(heap);
    }

    method AllocComplete(heap: Heap, h: Header)
      modifies this, heap
      ensures (Value(), heap.Value()) == Allocated(old(Value()), old(heap.Value()), h)
      ensures header == Some(h) && IsNew(pixels, rows, old(heap.next))
    {
      FreeComplete(heap);
      header := Some(h);
      var b := heap.NewBlock();
      pixels := Some(b);
      var t := heap.NewTable();
      rows := Some(t);
    }

    method AllocCompleteExtern(heap: Heap, buffer: nat, h: Header)
      modifies this, heap
      ensures (Value(), heap.Value()) == Wrapped(old(Value()), old(heap.Value()), buffer, h)
      ensures header == Some(h) && pixels == Some(Foreign(buffer)) && rows == Some(old(heap.next)) && !owner
    {
      FreeComplete(heap);
      header := Some(h);
      var b := heap.ForeignBlock(buffer);
      pixels := Some(b);
      var t := heap.NewTable();
      rows := Some(t);
      owner := false;
    }

    method Resize(heap: Heap, h: Header)
      modifies this, heap
      ensures (Value(), heap.Value()) == Resized(old(Value()), old(heap.Value()), h)
      ensures header.Some? && header.value.width == h.width && header.value.height == h.height
      ensures Value() == old(Value()) || (header == Some(h) && IsNew(pixels, rows, old(heap.next)))
    {
      var recreate := true;
      if header.Some? && h.width == header.value.width && h.height == header.value.height {
        var oldSize := ImageSize(header.value);
        var newSize := (h.width + Pad(header.value.width * header.value.channels)) * h.height * (h.channels * h.depth);
        if oldSize == newSize && pixels.Some? && rows.Some? { recreate := false; }
      }
      if recreate {
        FreeComplete(heap);
        AllocComplete(heap, h);
      }
    }

    /** Shares the pixels of another image. */
    method Refer(heap: Heap, src: Image)
      requires src != this && src.header.Some?
      modifies this, src, heap
      ensures (Value(), src.Value(), heap.Value()) == Referred(old(Value()), old(src.Value()), old(heap.Value()))
      ensures Value() == src.Value() == old(src.Value()).(counter := src.counter) && counter.Some?
    {
      FreeComplete(heap);
      var c := heap.AddReference(src.counter);
      src.counter := Some(c);
      counter := Some(c);
      header := src.header;
      pixels := src.pixels;
      owner := src.owner;
      rows := src.rows;
    }

    /** The same statements when the source is this image itself. */
    method ReferSelf(heap: Heap, empty: Header)
      requires header.Some?
      modifies this, heap
      ensures (Value(), heap.Value()) == SelfReferred(old(Value()), old(heap.Value()), empty)
    {
      FreeComplete(heap);
      var c := heap.AddReference(counter);
      counter := Some(c);
      header := Some(empty);
    }
  }
}
