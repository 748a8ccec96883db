/**
 * Pixel buffers shared between images. An image points at its pixels, at a table of its rows
 * and, once the pixels are shared, at a counter of their users; the last user lets go of all
 * three. Own buffers, tables and counters are numbers handed out by the memory.
 */
module ImageBuffers {
  import opened Options
  import opened RowPadding

  /** The pixel layout of an image. */
  datatype Header = Header(width: nat, height: nat, channels: nat, depth: nat)

  function LineBytes(h: Header): nat {
    h.width * h.depth * h.channels
  }

  function ImageSize(h: Header): nat {
    (LineBytes(h) + Pad(LineBytes(h))) * h.height
  }

  /** A buffer of pixels: allocated by an image, or wrapped and belonging to someone else. */
  datatype Block = Own(id: nat) | Foreign(id: nat)

  datatype Picture = Picture(header: Option<Header>, pixels: Option<Block>, rows: Option<nat>,
                             counter: Option<nat>, owner: bool)

  /**
   * counts gives the value of each counter there is; released and dropped say how often each
   * buffer and each row table ever seen has been let go.
   */
  datatype Memory = Memory(counts: map<nat, int>, released: map<Block, nat>, dropped: map<nat, nat>, next: nat)

  function Blank(): Picture {
    Picture(None, None, None, None, true)
  }

  function Raised<K>(m: map<K, nat>, k: Option<K>): map<K, nat> {
    if k.Some? && k.value in m then m[k.value := m[k.value] + 1] else m
  }

  // ----- letting go

  /** One user less; the answer tells whether it was the last. A counter that reaches zero is deleted. */
  function Uncounted(c: Option<nat>, m: Memory): (Memory, bool) {
    if c == None || c.value !in m.counts then (m, true)
    else if m.counts[c.value] - 1 <= 0 then (m.(counts := m.counts - {c.value}), true)
    else (m.(counts := m.counts[c.value := m.counts[c.value] - 1]), false)
  }

  /** Lets go of pixels, rows and counter. */
  function Freed(p: Picture, m: Memory): (Picture, Memory) {
    if p.header == None || p.pixels == None then (p, m) else
      var (m1, last) := Uncounted(p.counter, m);
      var m2 := if !last then m1
                else m1.(released := if p.owner then Raised(m1.released, p.pixels) else m1.released,
                         dropped := Raised(m1.dropped, p.rows));
      (Picture(p.header, None, None, None, true), m2)
  }

  function FreedCompletely(p: Picture, m: Memory): (Picture, Memory) {
    var (q, m1) := Freed(p, m);
    (q.(header := None), m1)
  }

  // ----- acquiring

  /** New pixels and rows of its own. */
  function Allocated(p: Picture, m: Memory, h: Header): (Picture, Memory) {
    var (q, m1) := FreedCompletely(p, m);
    (q.(header := Some(h), pixels := Some(Own(m1.next)), rows := Some(m1.next + 1)),
     m1.(released := m1.released[Own(m1.next) := 0], dropped := m1.dropped[m1.next + 1 := 0], next := m1.next + 2))
  }

  /** Pixels that belong to someone else, with rows of its own. */
  function Wrapped(p: Picture, m: Memory, buffer: nat, h: Header): (Picture, Memory) {
    var (q, m1) := FreedCompletely(p, m);
    (Picture(Some(h), Some(Foreign(buffer)), Some(m1.next), q.counter, false),
     m1.(released := if Foreign(buffer) in m1.released then m1.released else m1.released[Foreign(buffer) := 0],
         dropped := m1.dropped[m1.next := 0], next := m1.next + 1))
  }

  /** One user more; a counter created here starts with the user there already is. */
  function Counted(c: Option<nat>, m: Memory): (nat, Memory) {
    if c.Some? && c.value in m.counts then (c.value, m.(counts := m.counts[c.value := m.counts[c.value] + 1]))
    else (m.next, m.(counts := m.counts[m.next := 2], next := m.next + 1))
  }

  /** p becomes another user of the pixels of src, a different image. */
  function Referred(p: Picture, src: Picture, m: Memory): (Picture, Picture, Memory) {
    var (_, m1) := FreedCompletely(p, m);
    var (c, m2) := Counted(src.counter, m1);
    (Picture(src.header, src.pixels, src.rows, Some(c), src.owner), src.(counter := Some(c)), m2)
  }

  /** An image told to refer to itself has let go before it looks at the source, and is left with no pixels. */
  function SelfReferred(p: Picture, m: Memory, empty: Header): (Picture, Memory) {
    var (q, m1) := FreedCompletely(p, m);
    var (c, m2) := Counted(q.counter, m1);
    (q.(header := Some(empty), counter := Some(c)), m2)
  }

  /** The same size, as far as the test in Resize can tell. */
  predicate SameSize(p: Picture, h: Header) {
    && p.header.Some? && h.width == p.header.value.width && h.height == p.header.value.height
    && ImageSize(p.header.value)
       == (h.width + Pad(p.header.value.width * p.header.value.channels)) * h.height * (h.channels * h.depth)
    && p.pixels.Some? && p.rows.Some?
  }

  function Resized(p: Picture, m: Memory, h: Header): (Picture, Memory) {
    if SameSize(p, h) then (p, m)
    else var (q, m1) := FreedCompletely(p, m); Allocated(q, m1, h)
  }
}
