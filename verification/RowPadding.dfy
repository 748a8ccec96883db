/** Rows of pixels start at multiples of eight bytes. */
module RowPadding {
  const ALIGN: nat := 8

  function Pad(length: nat): nat {
    if length % ALIGN != 0 then ALIGN - length % ALIGN else 0
  }

  /** The padding is what is missing to the next multiple of eight. */
  lemma {:induction false} PadsToMultiple(length: nat)
    ensures Pad(length) < 8 && (length + Pad(length)) % 8 == 0
  {
  }
}
