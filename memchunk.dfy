/**
 * Memchunk<N>: a fixed-capacity memory block with a read cursor and a
 * write cursor over an inline buffer of exactly N bytes.
 *
 * The chunk is modelled as a value that lives in its pool's arena (see
 * MemchunkPool); pointers between chunks become arena indices.
 */
module Memchunk {

  newtype byte = x: int | 0 <= x < 256

  datatype Option<T> = None | Some(value: T)

  function Min(a: int, b: int): int { if a <= b then a else b }

  function Max(a: int, b: int): int { if a <= b then b else a }

  /**
   * One chunk.  `buf` is the inline storage (its length is the capacity N,
   * never resized), `begin` the offset of the first unread byte and `last`
   * the offset one past the last written byte.  `knext` links the pool's
   * owning chain.  The `next` link shared by the free list and the buffer
   * chains is not a field here: those lists are kept as sequences of arena
   * indices, and the `next` of an entry is the entry after it.
   */
  datatype Chunk = Chunk(buf: seq<byte>, begin: nat, last: nat, knext: Option<nat>)
  {
    /** The cursor invariant 0 <= begin <= last <= N. */
    predicate Valid() { begin <= last <= |buf| }

    /** `len()`: the number of unread bytes. */
    function Len(): (n: nat)
      requires Valid()
      ensures n <= |buf| - begin
    {
      last - begin
    }

    /** `left()`: the space still writable after the write cursor. */
    function Left(): (r: nat)
      requires Valid()
      ensures Len() + r == |buf| - begin
    {
      |buf| - last
    }

    /** The readable region [begin, last). */
    function Data(): (d: seq<byte>)
      requires Valid()
      ensures |d| == Len()
    {
      buf[begin..last]
    }

    /**
     * Copy `src` into the writable region at `last` and advance `last`
     * past it; the readable bytes grow by exactly `src`, and the free
     * space shrinks by as much.
     */
    function Write(src: seq<byte>): (c: Chunk)
      requires Valid() && |src| <= Left()
      ensures c.Valid() && |c.buf| == |buf|
      ensures c.Data() == Data() + src
      ensures c.Left() == Left() - |src|
      ensures c.begin == begin && c.knext == knext
    {
      var nbuf := buf[..last] + src + buf[last + |src|..];
      assert nbuf[begin..last] == buf[begin..last];
      assert nbuf[last..last + |src|] == src;
      assert nbuf[begin..last + |src|] == nbuf[begin..last] + nbuf[last..last + |src|];
      this.(buf := nbuf, last := last + |src|)
    }

    /**
     * Advance the read cursor by `n` unread bytes: the readable bytes lose
     * exactly their first `n`, the free space is unaffected.
     */
    function Consume(n: nat): (c: Chunk)
      requires Valid() && n <= Len()
      ensures c.Valid() && c.buf == buf
      ensures c.Data() == Data()[n..]
      ensures c.Len() == Len() - n && c.Left() == Left()
      ensures c.knext == knext
    {
      this.(begin := begin + n)
    }

    /** Put both cursors back at the start of the storage: nothing is readable, all of it is writable. */
    function Reset(): (c: Chunk)
      ensures c.Valid() && c.buf == buf
      ensures c.Data() == [] && c.Left() == |buf|
      ensures c.knext == knext
    {
      this.(begin := 0, last := 0)
    }
  }
}
