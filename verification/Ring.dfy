/** Positions of a table that is scanned in a circle. */
module Ring {
  /** The slot d places after start, for d up to the size of the table. */
  function Slot(start: int, d: int, size: int): int {
    if start + d < size then start + d else start + d - size
  }

  /** How many places after start slot r comes, between 1 and size. */
  function Distance(start: int, r: int, size: int): int {
    if r > start then r - start else r - start + size
  }

  lemma SlotAt(start: int, r: int, size: int)
    requires 0 <= start < size && 0 <= r < size
    ensures 1 <= Distance(start, r, size) <= size && Slot(start, Distance(start, r, size), size) == r
  {
  }

  lemma NextSlot(start: int, d: int, size: int)
    requires 0 <= start < size && 0 <= d < size
    ensures (Slot(start, d, size) + 1) % size == Slot(start, d + 1, size)
  {
    var i := Slot(start, d, size);
    if i + 1 == size {
      assert size % size == 0;
    }
  }
}
