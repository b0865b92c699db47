# nghttp2 memory chunks, modelled in Dafny

This project models the buffer substrate of nghttp2's proxy (`memchunk.h`):

- `Memchunk<N>`: a block of N bytes with a read cursor `begin` and a write cursor `last`. `len()` is `last - begin` and `left()` is `N - last`.
- `Pool<Memchunk>`: the chunk allocator. It owns every chunk it has ever constructed, chained newest first through `knext` from `pool`. `poolsize` counts the bytes allocated. `freelist` is a LIFO stack of recyclable chunks linked through `next`.
- `Memchunks<Memchunk>`: a byte buffer made of a chain of chunks from one pool, `head` to `tail`, linked through `next`. Operations: `append`/`append_cstr`, `remove`, `drain`, `rleft`, `riovec`, and recycling every chunk on destruction.

The header itself (`memchunk.h`) is not part of this model. Its behaviour is taken from the unit tests in `src/memchunk_test.cc`. Where the tests are silent (the cursor reset of a reused chunk, head-to-tail recycling on destruction), the model follows the usual free-list discipline.

Layout:

- `memchunk.dfy` (module `Memchunk`): the chunk as a value `Chunk(buf, begin, last, knext)` with `Len`, `Left`, `Data` (the readable region), `Write`, `Consume` and `Reset`.
- `pool.dfy` (module `MemchunkPool`): class `Pool` over an arena `chunks: seq<Chunk>`. Pointers become arena indices. Chunk `i` is the `(i+1)`-th one constructed, so its `knext` is `i - 1`. The free list is a `seq` of indices read from its head; the `next` of an entry is the entry after it.
- `memchunks.dfy` (module `Memchunks`): class `Memchunks` with the chain `head..tail` as a `seq` of indices. `Flatten` concatenates `Data()` over the chain and is the buffer's logical byte stream (`Contents`). `Held` is the custody invariant: the chain's chunks are distinct and off the free list, each holds an unread byte, and all but the tail are full. The methods that change state are proved against these functions. The lemmas beside them prove what the stream, the free list and the I/O vectors do.
- `memchunk_test.dfy` (module `MemchunkTest`): the five unit tests replayed on the model. Each method returns the values its test checks and states them in its `ensures`.

## Model

| member | source | states |
|---|---|---|
| `Memchunk.Chunk.Len` | src/memchunk_test.cc:95-105 | `len()`, the unread bytes, never runs past the chunk's storage from the read cursor |
| `Memchunk.Chunk.Left` | src/memchunk_test.cc:96-106 | `left()` is the storage after the read cursor less `len()`: `len() + left() == N - begin` |
| `Memchunk.Chunk.Data` | src/memchunk_test.cc:95-96 | the readable region `[begin, last)` of a chunk holds exactly `len()` bytes |
| `Memchunk.Chunk.Write` | src/memchunk_test.cc:98-101 | writing bytes that fit in `left()` makes the readable bytes the old ones followed by the new ones; `left()` drops by their count; `begin`, `knext` and the capacity are unchanged |
| `Memchunk.Chunk.Reset` | src/memchunk_test.cc:67-73 | a chunk handed out again is empty with `left() == N`, keeps its storage and keeps its place in the owning chain (`knext`) |
| `Memchunk.Chunk.Consume` | src/memchunk_test.cc:112-116 | advancing the read cursor by `n <= len()` removes exactly the first `n` readable bytes and leaves `left()` alone |
| `MemchunkPool.Pool.constructor` | src/memchunk_test.cc:36-40 | a fresh pool has no owning chain, `poolsize == 0` and an empty free list |
| `MemchunkPool.Pool.Get` | src/memchunk_test.cc:42-73 | with a non-empty free list, `get()` pops its head, allocates nothing and leaves `pool` and `poolsize` alone; with an empty free list, it constructs chunk `m` as the new head of the owning chain, with the old head as `m.knext`, and `poolsize` grows by exactly N; either way the chunk is empty with `left() == N`, and no other chunk changes |
| `MemchunkPool.Pool.Recycle` | src/memchunk_test.cc:62-80 | `recycle(m)` makes `m` the head of the free list in front of the old list; the owning chain, `poolsize` and every chunk are unchanged (LIFO) |
| `MemchunkPool.ReverseSnoc` | src/memchunk_test.cc:75-80 | recycling one more chunk puts it in front of those recycled earlier: the free list is the recycled chunks, most recent first |
| `Memchunks.FlattenConcat` | src/memchunk_test.cc:112-121 | the stream of two chains joined is the stream of the first followed by that of the second, whatever the chunk boundaries |
| `Memchunks.FlattenEmpty` | src/memchunk_test.cc:122-124 | a chain of chunks that each hold a byte holds no byte exactly when it has no chunk |
| `Memchunks.IoVecs` | src/memchunk_test.cc:159-168 | entry `k` of the I/O vector of a chain describes chunk `k` from `head`: its index, its `begin` and its `len()` |
| `Memchunks.GatherIoVecs` | src/memchunk_test.cc:157-168 | the regions the I/O-vector entries of a chain describe lie inside their chunks and, concatenated in order, are exactly the chain's stream |
| `Memchunks.GatherPrefix` | src/memchunk_test.cc:157-178 | the first `cnt` entries describe a prefix of the stream, and the chunks after them hold the rest |
| `Memchunks.ReadOutcomePartial` | src/memchunk_test.cc:112-116 | a read that stops inside chunk `k` releases exactly the first `k` chunks (onto the free list, last released on top), leaves the rest of the chain held, holding the stream after the bytes read, and changes no chunk off the chain; chunk `k` only has its read cursor advanced by the bytes read from it and the chunks after it are unchanged |
| `Memchunks.ReadOutcomeAll` | src/memchunk_test.cc:118-124 | a read of at least all the bytes held empties the chain, returns all of them and puts every chunk on the free list |
| `Memchunks.KeptLeft` | src/memchunk_test.cc:112-124 | a read leaves every chunk it keeps with its storage and its `left()`, so the tail's room for the next `append` is the same as before |
| `Memchunks.ReadPrefix` | src/memchunk_test.cc:112-121 | the bytes a read hands out are all those of the chunks it releases followed by the front of the next chunk: the first `count` bytes of the stream |
| `Memchunks.WriteTail` | src/memchunk_test.cc:98-101 | writing bytes into the tail's free space keeps the chain held and appends them to its stream |
| `Memchunks.PushChunk` | src/memchunk_test.cc:98-106 | linking a chunk just handed out by the pool after a full tail keeps the chain held and appends that chunk's bytes to the stream |
| `Memchunks.TakesForm` | src/memchunk_test.cc:42-73 | a run of `get()` calls hands out the front of the free list, in order, then newly constructed chunks numbered on from the arena's size; the free list left is a suffix of the old one, and empty once a chunk was constructed |
| `Memchunks.TakesTrans` | src/memchunk_test.cc:42-73 | two runs of `get()` in a row are one run that hands out the chunks of both, in order |
| `Memchunks.AppendedChunk` | src/memchunk_test.cc:98-106 | linking the chunk `get()` just handed out after a full tail and writing bytes into it is an append that took that one chunk from the pool |
| `Memchunks.AppendedTrans` | src/memchunk_test.cc:91-106 | two appends in a row are one append of both byte strings |
| `Memchunks.AppendedOverflow` | src/memchunk_test.cc:98-106 | an append adds a chunk only when its bytes are more than the free space of the old tail |
| `Memchunks.FreshLayout` | src/memchunk_test.cc:95-106 | in a chain only appended to, `len() + left() == N` for every chunk, every chunk but the tail holds N bytes, and the tail holds the remaining 1 to N bytes |
| `Memchunks.Strlen` | src/memchunk_test.cc:91 | the length `append_cstr` takes is the offset of the first NUL byte |
| `Memchunks.Memchunks.Head` | src/memchunk_test.cc:159-168 | `head` is null exactly when the chain is empty, and otherwise is its first chunk |
| `Memchunks.Memchunks.Tail` | src/memchunk_test.cc:93-106 | `tail` is null exactly when the chain is empty, and otherwise is its last chunk |
| `Memchunks.Memchunks.constructor` | src/memchunk_test.cc:89 | a new buffer bound to a pool holds no chunk: `head` and `tail` are null and it holds no byte |
| `Memchunks.Memchunks.EmptyIff` | src/memchunk_test.cc:122-124 | `head` is null, `tail` is null and the chain is empty exactly when the buffer holds no byte |
| `Memchunks.Memchunks.FreshChain` | src/memchunk_test.cc:95-106 | for a buffer only appended to: the layout of `FreshLayout`, and `rleft()` is `(chunks - 1) * N` plus the tail's `len()` |
| `Memchunks.Memchunks.RLeft` | src/memchunk_test.cc:107 | `rleft()` is the number of bytes held, summed over the chain in a loop |
| `Memchunks.Memchunks.Riovec` | src/memchunk_test.cc:157-178 | `riovec(iov, iovcnt)` fills `min(max(iovcnt, 0), chunks held)` entries, entry `k` describing chunk `k` from `head`; the entries after them are untouched; the described regions followed by the undescribed chunks are the buffered bytes |
| `Memchunks.Memchunks.Destroy` | src/memchunk_test.cc:181-195 | destruction recycles every chunk held, from `head` to `tail`: the free list becomes the chain reversed in front of the old free list, and nothing else in the pool changes, `poolsize` included |
| `Memchunks.Memchunks.ReleaseHead` | src/memchunk_test.cc:118-124 | a head chunk read to its end is unlinked, its read cursor meets its write cursor, and it goes on top of the free list |
| `Memchunks.Memchunks.Drain` | src/memchunk_test.cc:136-138 | `drain(count)` returns `min(count, rleft())`, releases exactly the chunks it reads to their end, keeps the rest held holding the stream after the bytes drained, and allocates nothing; of the chunks kept, none is split or merged, each but the head is unchanged, and the head only has its read cursor advanced by the bytes drained from it (`KeptChunks`) |
| `Memchunks.Memchunks.Remove` | src/memchunk_test.cc:112-124 | `remove(dest, count)` returns `n == min(count, rleft())`, stores the first `n` buffered bytes, in order, at the front of `dest` and leaves the rest of `dest` alone; the chunk release is that of `drain`, the chunks kept included (`KeptChunks`) |
| `Memchunks.Memchunks.Append` | src/memchunk_test.cc:91-106 | `append(src)` makes the stream the old one followed by `src`; the chain starts with the old chain, whose read cursors are kept; the chunks added are exactly those a run of `get()` hands out (`Takes`: the front of the free list, in order, then new ones, see `TakesForm`), each read from its start; a chunk is added only for bytes that overflow the old tail, and when `src` fits no chunk is added, nothing is allocated and the free list is unchanged |
| `Memchunks.Memchunks.AppendStep` | src/memchunk_test.cc:98-106 | one round of `append`: when the tail is full or missing, exactly one chunk is added and `min(remaining, N)` bytes go into it; otherwise no chunk is added and `min(remaining, left())` bytes go into the tail; either way the round is an append of those bytes |
| `Memchunks.Memchunks.AppendCstr` | src/memchunk_test.cc:91-98 | `append_cstr(s)` appends the bytes of `s` before its first NUL |
| `MemchunkTest.CstrLen` | src/memchunk_test.cc:91 | `strlen` of a C string literal is the literal's length, and the bytes before the NUL are the literal's |
| `MemchunkTest.PoolRecycle` | src/memchunk_test.cc:35-81 | for any chunk size N, after each step: `pool` goes null, `m1`, `m2`, `m3`, `m3`, `m4`; `poolsize` goes 0, N, 2N, 3N, 3N, 3N; the free list is empty except `m3` after its recycling; `m2->knext == m1` and `m1->knext` is null; the three chunks built are distinct; the chunk got after recycling `m3` is `m3`; after recycling `m2` then `m1` the free list is `m1 -> m2` |
| `MemchunkTest.MemchunksAppend` | src/memchunk_test.cc:87-126 | with N = 16: tail `(len, left)` values (3, 13), then (16, 0) for the first chunk and (1, 15) for the new tail; `rleft()` 17, 9, 0; reads "01234567" and "89abcdef@"; `poolsize == 32` |
| `MemchunkTest.RemoveInTwoReads` | src/memchunk_test.cc:109-125 | the two reads of 8 and 16 bytes return "01234567" and "89abcdef@" and leave `head` and `tail` null |
| `MemchunkTest.MemchunksDrain` | src/memchunk_test.cc:128-146 | after appending "0123456789", `drain(3)` returns 3 and the next read returns "3456789" |
| `MemchunkTest.MemchunksRiovec` | src/memchunk_test.cc:148-179 | with 48 bytes in 16-byte chunks, `riovec` with 2 slots fills 2 entries, and after `drain(32)` it fills 1 |
| `MemchunkTest.RiovecTwo` | src/memchunk_test.cc:156-168 | `riovec` fills 2 entries: entry 0 describes `head` and entry 1 `head->next`, each by its chunk, `begin` and `len()` |
| `MemchunkTest.RiovecOne` | src/memchunk_test.cc:172-178 | `riovec` fills 1 entry, describing `head` by its chunk, `begin` and `len()` |
| `MemchunkTest.MemchunksRecycle` | src/memchunk_test.cc:181-196 | after a buffer holding 32 bytes in 16-byte chunks is destroyed, `poolsize == 32` and the free list holds exactly two chunks |

## Left out

- `memchunk.h` is not part of this model. The operations follow the behaviour the unit tests observe; where the tests are silent, the usual free-list discipline.
- Pointers and `std::unique_ptr` ownership of the `knext` chain: chunks are arena indices. The free list and the buffer chain are sequences of indices. Pool destruction, which frees the owning chain, has no modelled effect.
- `struct iovec` and `memcmp`: an I/O-vector entry is the triple (chunk index, offset, length), and byte comparison is sequence equality.
- Allocation failure in `get()`: not modelled, since the tests have no error path. The storage of a newly constructed chunk is left unspecified.
- `MemchunkPool.Pool.Get`: a reused chunk's cursors are reset to the start, the usual free-list discipline. The tests do not observe it.
- `Memchunks.Memchunks.Destroy`: chunks are recycled from `head` to `tail`, which puts the old tail on top of the free list. The test checks only that two chunks are on the free list.
- `Memchunks.Memchunks.Remove`: the bytes are gathered chunk by chunk into a sequence and then stored into `dest` in one step. The chunk-by-chunk `memcpy` into `dest` is not modelled as separate stores, so intermediate contents of `dest` are not captured.
- `Memchunks.Memchunks.Remove` requires `dest` to have room for `count` bytes, as the C caller must ensure.
- `size_t` and `int` widths: counts are unbounded integers. Overflow of a byte count is not modelled.
- The 4 KiB chunk size of `MemchunkPool4K`: the pool takes any positive chunk size N. The pool scenario is proved for every N; the buffer scenarios use N = 16, as the tests do.
- The CUnit harness: each test becomes a method whose `ensures` state the values the test checks.
