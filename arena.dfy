/**
 * The bump arena `block_T` (dabu.c:21-85): one fixed-capacity buffer with a
 * cursor. Every allocation of a decode pass is a slice of it; nothing is
 * freed individually. Only the capacity and the cursor are modelled: an
 * allocation hands out the cursor position as the start of its slice.
 */
module Arena {
  import opened Wrappers

  /** The cursor after reserving `size` bytes at `offset`, or None when the arena is full. */
  function Bump(cap: nat, offset: nat, size: nat): (r: Option<nat>)
    ensures r.Some? <==> offset + size <= cap
    ensures r.Some? ==> r.value - size == offset && r.value <= cap
  {
    if offset + size <= cap then Some(offset + size) else None
  }

  class Block {
    /** `block_T.size`: the number of bytes the buffer holds. */
    var cap: nat
    /** `block_T.offset`: the first byte not handed out yet. */
    var offset: nat
    /** False once `block_free` has released the buffer. */
    var live: bool

    ghost predicate Valid()
      reads this
    {
      live && 0 < cap && offset <= cap
    }

    constructor (size: nat)
      requires size > 0
      ensures Valid() && cap == size && offset == 0
    {
      cap, offset, live := size, 0, true;
    }

    /** `block_create`: no arena for a zero size, otherwise an empty one of exactly `size` bytes. */
    static method Create(size: nat) returns (b: Block?)
      ensures b == null <==> size == 0
      ensures b != null ==> fresh(b) && b.Valid() && b.cap == size && b.offset == 0
    {
      if size == 0 {
        return null;
      }
      b := new Block(size);
    }

    /** `block_reset`: rewinds the cursor; the capacity (and the stale bytes) stay. */
    method Reset()
      requires Valid()
      modifies this`offset
      ensures Valid() && offset == 0 && cap == old(cap) && live == old(live)
    {
      offset := 0;
    }

    /** `block_alloc`: the slice start on success; on failure nothing changes. */
    method Alloc(size: nat) returns (p: Option<nat>)
      requires Valid()
      modifies this`offset
      ensures Valid()
      ensures p.Some? <==> old(offset) + size <= cap
      ensures p.Some? ==> p.value == old(offset) && offset == old(offset) + size
      ensures p.None? ==> offset == old(offset)
    {
      if offset + size > cap {
        return None;
      }
      p := Some(offset);
      offset := offset + size;
    }

    /** `block_free`: releases the buffer; the caller's handle becomes NULL. */
    static method Free(b: Block?) returns (handle: Block?)
      modifies b
      ensures handle == null
      ensures b != null ==> !b.live && b.cap == old(b.cap)
    {
      if b != null {
        b.live := false;
      }
      handle := null;
    }
  }
}
