/** The cursor over a borrowed byte region (`PartialBuffer` of the crate's
    `util` module). Only its accounting is modelled: the region's length and
    the position that splits it into a written part and an unwritten part. */
module PartialBuffers {

  /** `written()` is the region `[0, pos)`, `unwritten()` is `[pos, len)`. */
  datatype PartialBuffer = PartialBuffer(len: nat, pos: nat) {

    /** Length of `written()`. */
    function Written(): (n: nat) {
      pos
    }

    /** Length of `unwritten()`; a cursor never has `pos` past `len`, so the
        second branch only keeps the function total. */
    function Unwritten(): (n: nat) {
      if pos <= len then len - pos else 0
    }
  }

  /** A cursor whose position lies inside its region. */
  type Cursor = b: PartialBuffer | b.pos <= b.len witness PartialBuffer(0, 0)

  /** `PartialBuffer::new`: a cursor at the start of a region of `len` bytes. */
  function NewCursor(len: nat): (c: Cursor)
    ensures c.len == len
    ensures c.Written() == 0 && c.Unwritten() == len
  {
    PartialBuffer(len, 0)
  }

  /** `advance(n)`: moves `n` bytes from the unwritten part to the written part.
      Advancing past the region is a programming error, hence the precondition. */
  function Advance(c: Cursor, n: nat): (r: Cursor)
    requires n <= c.Unwritten()
    ensures r.len == c.len
    ensures r.Written() == c.Written() + n
    ensures r.Unwritten() == c.Unwritten() - n
  {
    PartialBuffer(c.len, c.pos + n)
  }

  /** `b` is a state `a` can reach: the same region, a position no further back. */
  predicate Extends(a: Cursor, b: Cursor) {
    b.len == a.len && a.pos <= b.pos
  }

  /** Extending is exactly advancing: every advance extends, and every
      extension is the advance by the difference of the positions. */
  lemma ExtendsIffAdvance(a: Cursor, b: Cursor)
    ensures Extends(a, b) <==> exists n: nat :: n <= a.Unwritten() && b == Advance(a, n)
  {
    if Extends(a, b) {
      var n: nat := b.pos - a.pos;
      assert b == Advance(a, n);
    }
  }
}
