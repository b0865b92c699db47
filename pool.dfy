/**
 * Pool<Memchunk>: the chunk allocator.  Every chunk it ever constructs
 * stays in its arena for the pool's whole life; the owning chain `pool`
 * links them newest first through `knext`, and the free list `freelist`
 * holds the recyclable ones, most recently recycled first.
 */
module MemchunkPool {
  import opened Memchunk

  /** No entry occurs twice. */
  ghost predicate Distinct(l: seq<nat>)
  {
    l == [] || (l[0] !in l[1..] && Distinct(l[1..]))
  }

  /** Appending a new entry keeps the entries distinct. */
  lemma {:induction false} DistinctSnoc(l: seq<nat>, x: nat)
    requires Distinct(l) && x !in l
    ensures Distinct(l + [x])
  {
    if l != [] {
      assert (l + [x])[1..] == l[1..] + [x];
      DistinctSnoc(l[1..], x);
    }
  }

  /**
   * Cutting a list of distinct entries at `i` leaves two lists of distinct
   * entries with none in common.
   */
  lemma {:induction false} DistinctSplit(l: seq<nat>, i: nat)
    requires Distinct(l) && i <= |l|
    ensures Distinct(l[..i]) && Distinct(l[i..])
    ensures forall x :: x in l[i..] ==> x !in l[..i]
  {
    if i == 0 {
      assert l[i..] == l;
      assert l[..i] == [];
    } else {
      var t := l[1..];
      DistinctSplit(t, i - 1);
      DistinctPrefixStep(l, t, i);
      assert l[i..] == t[i - 1..];
      DisjointStep(l, t, i, i - 1);
    }
  }

  lemma DistinctPrefixStep(l: seq<nat>, t: seq<nat>, i: nat)
    requires Distinct(l) && 0 < i <= |l| && t == l[1..] && Distinct(t[..i - 1])
    ensures Distinct(l[..i])
  {
    assert l[..i][0] == l[0] && l[..i][1..] == t[..i - 1];
    SliceHas(t, i - 1);
  }

  lemma DisjointStep(l: seq<nat>, t: seq<nat>, i: nat, j: nat)
    requires Distinct(l) && 0 < i <= |l| && t == l[1..] && j == i - 1
    requires forall x :: x in t[j..] ==> x !in t[..j]
    ensures forall x :: x in l[i..] ==> x !in l[..i]
  {
    assert l[i..] == t[j..];
    assert l[..i] == [l[0]] + t[..j];
    assert l[0] !in t;
    SuffixHas(t, j);
    forall x | x in l[i..]
      ensures x !in l[..i]
    {
      assert x in t[j..] && x in t;
      assert x != l[0] && x !in t[..j];
    }
  }

  /** The entries of a prefix are entries of the whole. */
  lemma SliceHas(s: seq<nat>, j: nat)
    requires j <= |s|
    ensures forall x :: x in s[..j] ==> x in s
  {
    assert forall k :: 0 <= k < j ==> s[..j][k] == s[k];
  }

  /** The entries of a suffix are entries of the whole. */
  lemma SuffixHas(s: seq<nat>, j: nat)
    requires j <= |s|
    ensures forall x :: x in s[j..] ==> x in s
  {
    assert forall k :: 0 <= k < |s| - j ==> s[j..][k] == s[j + k];
  }

  /** An entry of a list of distinct entries occurs neither before nor after its position. */
  lemma DistinctAt(l: seq<nat>, k: nat)
    requires Distinct(l) && k < |l|
    ensures l[k] !in l[..k] && l[k] !in l[k + 1..]
  {
    DistinctSplit(l, k);
    assert l[k..][0] == l[k] && l[k..][1..] == l[k + 1..];
  }

  function Reverse(s: seq<nat>): (r: seq<nat>)
    ensures |r| == |s|
  {
    if s == [] then [] else Reverse(s[1..]) + [s[0]]
  }

  lemma {:induction false} ReverseAt(s: seq<nat>)
    ensures forall k :: 0 <= k < |s| ==> Reverse(s)[k] == s[|s| - 1 - k]
  {
    if s != [] { ReverseAt(s[1..]); }
  }

  lemma ReverseSnoc(s: seq<nat>, x: nat)
    ensures Reverse(s + [x]) == [x] + Reverse(s)
  {
    ReverseAt(s + [x]); ReverseAt(s);
    assert forall k :: 0 <= k < |s| + 1 ==> Reverse(s + [x])[k] == ([x] + Reverse(s))[k];
  }

  /** Reversal keeps the entries of a list. */
  lemma ReverseHas(s: seq<nat>, x: nat)
    ensures x in Reverse(s) <==> x in s
  {
    ReverseAt(s);
    if x in s {
      var k :| 0 <= k < |s| && s[k] == x;
      ReverseAt(s);
      assert Reverse(s)[|s| - 1 - k] == x;
    }
  }

  class Pool {
    /** The fixed chunk capacity N (`Memchunk::size`). */
    const size: nat
    /** The arena: chunk i is the (i+1)-th chunk this pool constructed. */
    var chunks: seq<Chunk>
    /** Head of the owning chain. */
    var pool: Option<nat>
    /** Bytes ever allocated. */
    var poolsize: nat
    /** The free list, read from its head: the `next` of each entry is the entry after it. */
    var freelist: seq<nat>

    /**
     * Every chunk has N bytes of storage and ordered cursors; the owning
     * chain runs from the newest chunk through `knext` down to the first
     * one constructed, so it holds every chunk; `poolsize` counts N bytes
     * per chunk; and the free list holds distinct chunks of the arena.
     */
    ghost predicate Valid()
      reads this
    {
      0 < size &&
      (forall i :: 0 <= i < |chunks| ==> chunks[i].Valid() && |chunks[i].buf| == size) &&
      (forall i :: 0 <= i < |chunks| ==> chunks[i].knext == if i == 0 then None else Some(i - 1)) &&
      pool == (if |chunks| == 0 then None else Some(|chunks| - 1)) &&
      poolsize == |chunks| * size &&
      (forall k :: 0 <= k < |freelist| ==> freelist[k] < |chunks|) &&
      Distinct(freelist)
    }

    /** A fresh pool owns nothing, has allocated nothing and has no free chunk. */
    constructor (size: nat)
      requires 0 < size
      ensures Valid() && this.size == size
      ensures chunks == [] && pool == None && poolsize == 0 && freelist == []
    {
      this.size := size;
      chunks, pool, poolsize, freelist := [], None, 0, [];
    }

    /**
     * `get()`: pop the head of the free list and reset its cursors, or,
     * when the free list is empty, construct a new chunk at the head of the
     * owning chain (the only path that grows `poolsize`, by exactly N).
     * Either way the chunk handed out is empty and entirely writable, and
     * no other chunk changes.
     */
    method Get() returns (m: nat)
      requires Valid()
      modifies this
      ensures Valid()
      ensures m < |chunks| && m !in freelist
      ensures chunks[m].Data() == [] && chunks[m].Left() == size && chunks[m].begin == 0
      ensures old(|chunks|) <= |chunks|
      ensures forall i :: 0 <= i < old(|chunks|) && i != m ==> chunks[i] == old(chunks[i])
      ensures old(freelist) != [] ==>
        m == old(freelist[0]) && freelist == old(freelist[1..]) && |chunks| == old(|chunks|) &&
        chunks[m] == old(chunks[m].Reset()) && pool == old(pool) && poolsize == old(poolsize)
      ensures old(freelist) == [] ==>
        m == old(|chunks|) && |chunks| == old(|chunks|) + 1 &&
        chunks[m].knext == old(pool) && pool == Some(m) &&
        poolsize == old(poolsize) + size && freelist == []
    {
      if freelist != [] {
        m := freelist[0];
        freelist := freelist[1..];
        chunks := chunks[m := chunks[m].Reset()];
      } else {
        // the storage of a newly constructed chunk is left uninitialised
        assert |seq(size, _ => 0 as byte)| == size;
        var buf: seq<byte> :| |buf| == size;
        m := |chunks|;
        chunks := chunks + [Chunk(buf, 0, 0, pool)];
        pool := Some(m);
        poolsize := poolsize + size;
      }
    }

    /**
     * A store through the pointer to chunk `m` by its holder: the new
     * cursors and storage bytes replace the old; the capacity and the
     * owning link stay as they were, and no other chunk changes.
     */
    method Store(m: nat, c: Chunk)
      requires Valid() && m < |chunks| && c.Valid()
      requires |c.buf| == size && c.knext == chunks[m].knext
      modifies this`chunks
      ensures Valid()
      ensures chunks == old(chunks)[m := c]
    {
      chunks := chunks[m := c];
    }

    /**
     * `recycle(m)`: push `m` onto the head of the free list.  Neither the
     * owning chain, nor `poolsize`, nor any chunk's cursors change.  The
     * caller must not recycle a chunk that is already free.
     */
    method Recycle(m: nat)
      requires Valid() && m < |chunks| && m !in freelist
      modifies this`freelist
      ensures Valid()
      ensures freelist == [m] + old(freelist)
    {
      freelist := [m] + freelist;
    }
  }
}
