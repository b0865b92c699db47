/**
 * The scenarios of the memchunk unit tests, replayed on the model: each
 * method runs the same calls on a fresh pool and proves the values the
 * test checks.
 */
module MemchunkTest {
  import opened Memchunk
  import opened MemchunkPool
  import opened Memchunks

  /** The bytes of an ASCII string (one byte per character). */
  function Ascii(s: string): (r: seq<byte>)
    ensures |r| == |s| && forall i :: 0 <= i < |s| ==> r[i] as int == s[i] as int % 256
  {
    seq(|s|, i requires 0 <= i < |s| => (s[i] as int % 256) as byte)
  }

  /** Every character is a non-NUL ASCII one. */
  ghost predicate Text(s: string)
  {
    forall i :: 0 <= i < |s| ==> 0 < s[i] as int < 256
  }

  /** A C string literal: its bytes, then the terminating NUL. */
  function Cstr(s: string): (r: seq<byte>)
    ensures 0 in r
  {
    assert (Ascii(s) + [0])[|s|] == 0;
    Ascii(s) + [0]
  }

  /** `strlen` of a C string literal is the length of the literal. */
  lemma CstrLen(s: string)
    requires Text(s)
    ensures Strlen(Cstr(s)) == |s| && Cstr(s)[..Strlen(Cstr(s))] == Ascii(s)
  {
    var c := Cstr(s);
    assert forall i :: 0 <= i < |s| ==> c[i] == Ascii(s)[i] && c[i] != 0;
    assert c[..|s|] == Ascii(s);
  }

  lemma AsciiConcat(a: string, b: string)
    ensures Ascii(a) + Ascii(b) == Ascii(a + b)
  {
    assert forall i :: 0 <= i < |a + b| ==> (Ascii(a) + Ascii(b))[i] == Ascii(a + b)[i];
  }

  lemma AsciiSlice(s: string, i: nat, j: nat)
    requires i <= j <= |s|
    ensures Ascii(s)[i..j] == Ascii(s[i..j])
  {
    assert forall k :: 0 <= k < j - i ==> Ascii(s)[i..j][k] == Ascii(s[i..j])[k];
  }

  /** The bytes test_memchunks_append writes, and the two reads it makes of them. */
  lemma AppendLiterals()
    ensures Text("012") && Text("3456789abcdef@")
    ensures Ascii("012") + Ascii("3456789abcdef@") == Ascii("0123456789abcdef@")
    ensures Ascii("0123456789abcdef@")[..8] == Ascii("01234567")
    ensures Ascii("0123456789abcdef@")[8..] == Ascii("89abcdef@")
  {
    AsciiConcat("012", "3456789abcdef@");
    assert "012" + "3456789abcdef@" == "0123456789abcdef@";
    AsciiSlice("0123456789abcdef@", 0, 8);
    assert "0123456789abcdef@"[0..8] == "01234567";
    AsciiSlice("0123456789abcdef@", 8, 17);
    assert "0123456789abcdef@"[8..17] == "89abcdef@";
  }

  /**
   * test_pool_recycle, for any chunk size: three chunks are constructed,
   * the third is recycled and handed out again, then the second and the
   * first are recycled.  After each of the first six steps (the fresh
   * pool, three `get()`, a `recycle`, a `get()`), `heads` holds `pool`,
   * `sizes` holds `poolsize` and `frees` the free list read from its head;
   * the seventh entry of `frees` is the free list at the end.  `knexts`
   * holds the `knext` of `m2` and of `m1` once `m2` is built.
   */
  method PoolRecycle(size: nat)
    returns (m1: nat, m2: nat, m3: nat, m4: nat,
             heads: seq<Option<nat>>, sizes: seq<nat>, frees: seq<seq<nat>>, knexts: seq<Option<nat>>)
    requires 0 < size
    ensures m1 != m2 && m2 != m3 && m1 != m3 && m4 == m3
    ensures heads == [None, Some(m1), Some(m2), Some(m3), Some(m3), Some(m4)]
    ensures sizes == [0, size, 2 * size, 3 * size, 3 * size, 3 * size]
    ensures frees == [[], [], [], [], [m3], [], [m1, m2]]
    ensures knexts == [Some(m1), None]
  {
    var pool := new Pool(size);
    heads, sizes := [pool.pool], [pool.poolsize];
    var f0 := pool.freelist;
    assert f0 == [];

    m1 := pool.Get();
    heads, sizes := heads + [pool.pool], sizes + [pool.poolsize];
    var f1 := pool.freelist;
    assert f1 == [];

    m2 := pool.Get();
    heads, sizes := heads + [pool.pool], sizes + [pool.poolsize];
    var f2 := pool.freelist;
    assert f2 == [];
    knexts := [pool.chunks[m2].knext, pool.chunks[m1].knext];

    m3 := pool.Get();
    heads, sizes := heads + [pool.pool], sizes + [pool.poolsize];
    var f3 := pool.freelist;
    assert f3 == [];

    pool.Recycle(m3);
    heads, sizes := heads + [pool.pool], sizes + [pool.poolsize];
    var f4 := pool.freelist;
    assert f4 == [m3];

    m4 := pool.Get();
    heads, sizes := heads + [pool.pool], sizes + [pool.poolsize];
    var f5 := pool.freelist;
    assert f5 == [];

    pool.Recycle(m2);
    pool.Recycle(m1);
    // the free list is m1, then m1's next m2, whose next is null
    assert pool.freelist == [m1, m2];
    frees := [f0, f1, f2, f3, f4, f5, pool.freelist];
  }

  /**
   * test_memchunks_append, with chunks of 16 bytes.  `cursors` holds the
   * (`len()`, `left()`) pairs the test reads of the tail chunks, `rlefts`
   * the three values of `rleft()`, `first` and `second` the bytes the two
   * reads copy out, and `poolsize` the pool's count at the end.
   */
  method MemchunksAppend() returns (cursors: seq<(nat, nat)>, rlefts: seq<nat>,
                                    first: seq<byte>, second: seq<byte>, poolsize: nat)
    ensures cursors == [(3, 13), (16, 0), (1, 15)]
    ensures rlefts == [17, 9, 0]
    ensures first == Ascii("01234567") && second == Ascii("89abcdef@")
    ensures poolsize == 32
  {
    var pool, chunks, m := AppendFirst();
    cursors := [(pool.chunks[m].Len(), pool.chunks[m].Left())];
    var more, n := AppendSecond(pool, chunks, m);
    cursors := cursors + more;
    var buf := new byte[16];
    var rest;
    first, second, rest, poolsize := RemoveInTwoReads(pool, chunks, buf);
    rlefts := [n] + rest;
  }

  /** test_memchunks_append, first step: "012" takes 3 bytes of a first chunk. */
  method AppendFirst() returns (pool: Pool, chunks: Memchunks, m: nat)
    ensures fresh(pool) && fresh(chunks)
    ensures chunks.Valid() && chunks.pool == pool && pool.size == 16 && |pool.chunks| == 1
    ensures chunks.chain == [m] && chunks.Tail() == Some(m) && pool.chunks[m].begin == 0
    ensures pool.chunks[m].Len() == 3 && pool.chunks[m].Left() == 13
    ensures chunks.Contents() == Ascii("012")
  {
    AppendLiterals();
    CstrLen("012");
    pool, chunks := AppendCstrToEmpty(16, Cstr("012"));
    chunks.EmptyIff();
    chunks.FreshChain();
    m := chunks.Tail().value;
    assert |chunks.chain| == 1 && chunks.chain[0] == m && pool.chunks[m].begin == 0;
  }

  /**
   * test_memchunks_append, second step: 14 more bytes fill the first
   * chunk `m` and spill 1 byte into a second chunk, the new tail.
   * Returns the (`len()`, `left()`) pairs of `m` and of the new tail, and
   * `rleft()`.
   */
  method AppendSecond(pool: Pool, chunks: Memchunks, m: nat) returns (cursors: seq<(nat, nat)>, n: nat)
    requires chunks.Valid() && chunks.pool == pool && pool.size == 16 && |pool.chunks| == 1
    requires chunks.chain == [m] && pool.chunks[m].begin == 0
    requires chunks.Contents() == Ascii("012")
    modifies chunks, pool
    ensures chunks.Valid() && chunks.pool == pool && pool.size == 16 && |pool.chunks| == 2
    ensures chunks.Contents() == Ascii("0123456789abcdef@")
    ensures cursors == [(16, 0), (1, 15)] && n == 17
  {
    AppendLiterals();
    CstrLen("3456789abcdef@");
    chunks.AppendCstr(Cstr("3456789abcdef@"));
    assert chunks.chain[..1] == [m];
    chunks.FreshChain();
    assert |chunks.chain| == 2;
    cursors := [(pool.chunks[m].Len(), pool.chunks[m].Left())];
    var t := chunks.Tail().value;
    cursors := cursors + [(pool.chunks[t].Len(), pool.chunks[t].Left())];
    n := chunks.RLeft();
  }

  /**
   * The second half of test_memchunks_append: a read of 8 bytes, then one
   * of up to 16 that gets the 9 left, empties the buffer (`head` and
   * `tail` are null); the pool built two chunks in all.
   */
  method RemoveInTwoReads(pool: Pool, chunks: Memchunks, buf: array<byte>)
    returns (first: seq<byte>, second: seq<byte>, rlefts: seq<nat>, poolsize: nat)
    requires chunks.Valid() && chunks.pool == pool && pool.size == 16 && |pool.chunks| == 2
    requires chunks.Contents() == Ascii("0123456789abcdef@") && buf.Length == 16
    modifies chunks, pool, buf
    ensures first == Ascii("01234567") && second == Ascii("89abcdef@")
    ensures rlefts == [9, 0] && poolsize == 32
    ensures chunks.Head() == None && chunks.Tail() == None
  {
    AppendLiterals();
    var nread := chunks.Remove(buf, 8);
    first := buf[..nread];
    var n := chunks.RLeft();
    rlefts := [n];

    nread := chunks.Remove(buf, buf.Length);
    second := buf[..nread];
    n := chunks.RLeft();
    rlefts := rlefts + [n];
    chunks.EmptyIff();
    poolsize := pool.poolsize;
  }

  /** The bytes test_memchunks_drain writes, and what is left of them after 3 are drained. */
  lemma DigitLiterals()
    ensures Text("0123456789") && Ascii("0123456789")[3..] == Ascii("3456789")
  {
    AsciiSlice("0123456789", 3, 10);
    assert "0123456789"[3..10] == "3456789";
  }

  /**
   * test_memchunks_drain, with chunks of 16 bytes: after "0123456789",
   * `drain(3)` discards 3 bytes and a read of up to 16 gets the other 7.
   */
  method MemchunksDrain() returns (ndrained: nat, rest: seq<byte>)
    ensures ndrained == 3 && rest == Ascii("3456789")
  {
    var pool, chunks := AppendDigits();
    ndrained := chunks.Drain(3);
    var buf := new byte[16];
    rest := RemoveRest(chunks, buf);
  }

  /** test_memchunks_drain, first step: a fresh buffer gets "0123456789". */
  method AppendDigits() returns (pool: Pool, chunks: Memchunks)
    ensures fresh(pool) && fresh(chunks)
    ensures chunks.Valid() && chunks.pool == pool && chunks.Contents() == Ascii("0123456789")
  {
    DigitLiterals();
    CstrLen("0123456789");
    pool, chunks := AppendCstrToEmpty(16, Cstr("0123456789"));
  }

  /** test_memchunks_drain, last step: after 3 bytes were drained, a read of up to 16 gets the other 7. */
  method RemoveRest(chunks: Memchunks, buf: array<byte>) returns (rest: seq<byte>)
    requires chunks.Valid() && chunks.Contents() == Ascii("0123456789")[3..] && buf.Length == 16
    modifies chunks, chunks.pool, buf
    ensures rest == Ascii("3456789")
  {
    DigitLiterals();
    var nread := chunks.Remove(buf, buf.Length);
    assert nread == 7;
    rest := buf[..nread];
  }

  /**
   * A fresh buffer, on a fresh pool of `size`-byte chunks, after `append`
   * of `src`: it holds `src` in chunks the pool built for it, each read
   * from the start.
   */
  method AppendToEmpty(size: nat, src: seq<byte>) returns (pool: Pool, chunks: Memchunks)
    requires 0 < size
    ensures fresh(pool) && fresh(chunks)
    ensures chunks.Valid() && chunks.pool == pool && pool.size == size
    ensures chunks.Contents() == src && pool.freelist == [] && |pool.chunks| <= |chunks.chain|
    ensures forall k :: 0 <= k < |chunks.chain| ==> pool.chunks[chunks.chain[k]].begin == 0
  {
    pool := new Pool(size);
    chunks := new Memchunks(pool);
    chunks.Append(src);
  }

  /** The same for `append_cstr` of the C string `s`: it holds the bytes of `s` before its NUL. */
  method AppendCstrToEmpty(size: nat, s: seq<byte>) returns (pool: Pool, chunks: Memchunks)
    requires 0 < size && 0 in s
    ensures fresh(pool) && fresh(chunks)
    ensures chunks.Valid() && chunks.pool == pool && pool.size == size
    ensures chunks.Contents() == s[..Strlen(s)] && pool.freelist == [] && |pool.chunks| <= |chunks.chain|
    ensures forall k :: 0 <= k < |chunks.chain| ==> pool.chunks[chunks.chain[k]].begin == 0
  {
    pool := new Pool(size);
    chunks := new Memchunks(pool);
    chunks.AppendCstr(s);
  }

  /** A hint for the solver: the non-linear step of `FullPrefix`. */
  lemma MulStep(k: nat, size: nat)
    requires 0 < k
    ensures (k - 1) * size + size == k * size
  {
  }

  /** The first `k` of a chain of chunks holding `size` bytes each hold `k * size` bytes. */
  lemma {:induction false} FullPrefix(a: seq<Chunk>, l: seq<nat>, k: nat, size: nat)
    requires InArena(a, l) && k <= |l|
    requires forall j :: 0 <= j < |l| ==> a[l[j]].Len() == size
    ensures |Flatten(a, l[..k])| == k * size
  {
    if k > 0 {
      FullPrefix(a, l, k - 1, size);
      assert |Flatten(a, l[..k])| == |Flatten(a, l[..k - 1])| + a[l[k - 1]].Len() by {
        FlattenSplit(a, l, k - 1);
      }
      MulStep(k, size);
    }
  }

  /**
   * test_memchunks_riovec, with chunks of 16 bytes: 48 bytes fill three
   * chunks; two I/O-vector entries describe the first two; once 32 bytes
   * are drained, one entry describes the one chunk left.
   */
  method MemchunksRiovec(buf: seq<byte>) returns (iovcnt1: nat, iovcnt2: nat)
    requires |buf| == 48
    ensures iovcnt1 == 2 && iovcnt2 == 1
  {
    var pool, chunks := AppendToEmpty(16, buf);
    chunks.FreshChain();
    assert |chunks.chain| == 3;
    var iov := new IoVec[2](_ => IoVec(0, 0, 0));
    iovcnt1 := RiovecTwo(chunks, iov);
    DrainTwoChunks(chunks);
    iovcnt2 := RiovecOne(chunks, iov);
  }

  /**
   * test_memchunks_riovec, first step: two entries describe the head and
   * its next, each by its read cursor and `len()`.
   */
  method RiovecTwo(chunks: Memchunks, iov: array<IoVec>) returns (iovcnt: nat)
    requires chunks.Valid() && |chunks.chain| == 3 && iov.Length == 2
    modifies iov
    ensures iovcnt == 2
    ensures chunks.Head() == Some(chunks.chain[0])
    ensures iov[0] == IoVec(chunks.chain[0], chunks.pool.chunks[chunks.chain[0]].begin, chunks.pool.chunks[chunks.chain[0]].Len())
    ensures iov[1] == IoVec(chunks.chain[1], chunks.pool.chunks[chunks.chain[1]].begin, chunks.pool.chunks[chunks.chain[1]].Len())
  {
    iovcnt := chunks.Riovec(iov, iov.Length);
  }

  /** test_memchunks_riovec, second step: draining 32 bytes of three full chunks leaves one. */
  method DrainTwoChunks(chunks: Memchunks)
    requires chunks.Valid() && |chunks.chain| == 3
    requires forall k :: 0 <= k < 3 ==> chunks.pool.chunks[chunks.chain[k]].Len() == 16
    modifies chunks, chunks.pool
    ensures chunks.Valid() && |chunks.chain| == 1
  {
    var pool := chunks.pool;
    ghost var a0, l0 := pool.chunks, chunks.chain;
    var ndrained := chunks.Drain(2 * 16);
    ghost var r := |l0| - |chunks.chain|;
    FullPrefix(a0, l0, r, 16);
    if r < |l0| { FullPrefix(a0, l0, r + 1, 16); }
  }

  /** test_memchunks_riovec, last step: one entry describes the head by its read cursor and `len()`. */
  method RiovecOne(chunks: Memchunks, iov: array<IoVec>) returns (iovcnt: nat)
    requires chunks.Valid() && |chunks.chain| == 1 && iov.Length == 2
    modifies iov
    ensures iovcnt == 1
    ensures chunks.Head() == Some(chunks.chain[0])
    ensures iov[0] == IoVec(chunks.chain[0], chunks.pool.chunks[chunks.chain[0]].begin, chunks.pool.chunks[chunks.chain[0]].Len())
  {
    iovcnt := chunks.Riovec(iov, iov.Length);
  }

  /**
   * test_memchunks_recycle, with chunks of 16 bytes: a buffer holding 32
   * bytes in two chunks is destroyed, and both chunks are then on the
   * pool's free list, which holds nothing else.
   */
  method MemchunksRecycle(buf: seq<byte>) returns (poolsize: nat, nfree: nat)
    requires |buf| == 32
    ensures poolsize == 32 && nfree == 2
  {
    var pool, chunks := AppendToEmpty(16, buf);
    chunks.FreshChain();
    assert |chunks.chain| == 2;
    chunks.Destroy();
    poolsize := pool.poolsize;
    // the free list's head has a next, which has none
    nfree := |pool.freelist|;
  }
}
