/**
 * Memchunks<Memchunk>: a byte buffer made of a chain of chunks borrowed
 * from one pool.  `head` and `tail` are the ends of the chain, linked
 * through the chunks' `next` field; bytes are appended at the tail and
 * removed or drained from the head, and a chunk that has been read to its
 * end goes back to the pool's free list.
 */
module Memchunks {
  import opened Memchunk
  import opened MemchunkPool

  /** Every entry of `l` names a chunk of `arena` whose cursors are in order. */
  ghost predicate InArena(arena: seq<Chunk>, l: seq<nat>)
  {
    forall k :: 0 <= k < |l| ==> l[k] < |arena| && arena[l[k]].Valid()
  }

  /** The byte stream held by the chunks `l`: each chunk read from `begin` to `last`, in order. */
  function Flatten(arena: seq<Chunk>, l: seq<nat>): seq<byte>
    requires InArena(arena, l)
  {
    if l == [] then [] else arena[l[0]].Data() + Flatten(arena, l[1..])
  }

  lemma {:induction false} FlattenConcat(arena: seq<Chunk>, l1: seq<nat>, l2: seq<nat>)
    requires InArena(arena, l1) && InArena(arena, l2)
    ensures InArena(arena, l1 + l2)
    ensures Flatten(arena, l1 + l2) == Flatten(arena, l1) + Flatten(arena, l2)
  {
    assert InArena(arena, l1 + l2) by {
      forall k | 0 <= k < |l1 + l2| ensures (l1 + l2)[k] < |arena| && arena[(l1 + l2)[k]].Valid() {
        if k < |l1| { assert (l1 + l2)[k] == l1[k]; } else { assert (l1 + l2)[k] == l2[k - |l1|]; }
      }
    }
    if l1 == [] {
      assert l1 + l2 == l2;
    } else {
      assert (l1 + l2)[0] == l1[0];
      assert (l1 + l2)[1..] == l1[1..] + l2;
      FlattenConcat(arena, l1[1..], l2);
    }
  }

  /** Only the readable region of the chunks of `l` matters to the stream they hold. */
  lemma {:induction false} FlattenFrame(a: seq<Chunk>, b: seq<Chunk>, l: seq<nat>)
    requires InArena(a, l) && InArena(b, l)
    requires forall k :: 0 <= k < |l| ==> a[l[k]].Data() == b[l[k]].Data()
    ensures Flatten(a, l) == Flatten(b, l)
  {
    if l != [] {
      FlattenFrame(a, b, l[1..]);
    }
  }

  /** Replacing the last chunk of a chain changes only the bytes that chunk contributes. */
  lemma FlattenReplaceLast(a: seq<Chunk>, l: seq<nat>, t: nat, c: Chunk)
    requires InArena(a, l) && t < |a| && a[t].Valid() && t !in l && c.Valid()
    ensures InArena(a[t := c], l + [t])
    ensures Flatten(a[t := c], l + [t]) == Flatten(a, l) + c.Data()
  {
    var b := a[t := c];
    FlattenFrame(a, b, l);
    FlattenConcat(b, l, [t]);
  }

  /** A chain of non-empty chunks holds no bytes exactly when it is empty. */
  lemma FlattenEmpty(arena: seq<Chunk>, l: seq<nat>)
    requires InArena(arena, l)
    requires forall k :: 0 <= k < |l| ==> arena[l[k]].Len() > 0
    ensures Flatten(arena, l) == [] <==> l == []
  {
    if l != [] {
      assert |arena[l[0]].Data()| > 0;
    }
  }

  /**
   * One I/O-vector entry: `len` bytes of the storage of chunk `chunk`,
   * starting at offset `base` (the chunk's storage address plus `base`
   * stands for `iov_base`).
   */
  datatype IoVec = IoVec(chunk: nat, base: nat, len: nat)

  /** The entry that describes the unread region of chunk `c`. */
  function IoVecOf(arena: seq<Chunk>, c: nat): IoVec
    requires c < |arena| && arena[c].Valid()
  {
    IoVec(c, arena[c].begin, arena[c].Len())
  }

  /** The entries describing the chunks `l`, in order. */
  function IoVecs(arena: seq<Chunk>, l: seq<nat>): (v: seq<IoVec>)
    requires InArena(arena, l)
    ensures |v| == |l|
    ensures forall k :: 0 <= k < |l| ==> v[k] == IoVecOf(arena, l[k])
  {
    if l == [] then [] else [IoVecOf(arena, l[0])] + IoVecs(arena, l[1..])
  }

  /** Whether entry `v` describes bytes that lie inside the storage of one chunk. */
  ghost predicate InBounds(arena: seq<Chunk>, v: IoVec)
  {
    v.chunk < |arena| && v.base + v.len <= |arena[v.chunk].buf|
  }

  /** What a gathering write of the entries `vs` would send: the described regions, concatenated. */
  function Gather(arena: seq<Chunk>, vs: seq<IoVec>): seq<byte>
    requires forall k :: 0 <= k < |vs| ==> InBounds(arena, vs[k])
  {
    if vs == [] then []
    else
      var v := vs[0];
      assert InBounds(arena, v);
      arena[v.chunk].buf[v.base..v.base + v.len] + Gather(arena, vs[1..])
  }

  /** The entries for a chain describe exactly the bytes the chain holds. */
  lemma {:induction false} GatherIoVecs(arena: seq<Chunk>, l: seq<nat>)
    requires InArena(arena, l)
    ensures forall k :: 0 <= k < |l| ==> InBounds(arena, IoVecs(arena, l)[k])
    ensures Gather(arena, IoVecs(arena, l)) == Flatten(arena, l)
  {
    if l != [] {
      var v := IoVecs(arena, l);
      GatherIoVecs(arena, l[1..]);
      assert v[1..] == IoVecs(arena, l[1..]);
      assert v[0] == IoVecOf(arena, l[0]);
      assert InBounds(arena, v[0]);
      assert Gather(arena, v) == arena[l[0]].Data() + Gather(arena, v[1..]);
    }
  }

  /**
   * The first `cnt` entries for a chain describe a prefix of the bytes it
   * holds, and the chunks they leave out hold the rest.
   */
  lemma GatherPrefix(arena: seq<Chunk>, l: seq<nat>, cnt: nat)
    requires InArena(arena, l) && cnt <= |l|
    ensures forall k :: 0 <= k < cnt ==> InBounds(arena, IoVecs(arena, l[..cnt])[k])
    ensures Gather(arena, IoVecs(arena, l[..cnt])) + Flatten(arena, l[cnt..]) == Flatten(arena, l)
  {
    GatherIoVecs(arena, l[..cnt]);
    FlattenConcat(arena, l[..cnt], l[cnt..]);
    assert l[..cnt] + l[cnt..] == l;
  }

  /** Splitting a chain around its entry `k` splits the stream it holds accordingly. */
  lemma FlattenSplit(a: seq<Chunk>, l: seq<nat>, k: nat)
    requires InArena(a, l) && k < |l|
    ensures Flatten(a, l[..k + 1]) == Flatten(a, l[..k]) + a[l[k]].Data()
    ensures Flatten(a, l) == Flatten(a, l[..k]) + a[l[k]].Data() + Flatten(a, l[k + 1..])
  {
    assert l[..k + 1] == l[..k] + [l[k]];
    FlattenConcat(a, l[..k], [l[k]]);
    assert l == l[..k + 1] + l[k + 1..];
    FlattenConcat(a, l[..k + 1], l[k + 1..]);
  }

  /**
   * What a read of `count` bytes leaves behind when it stops inside chunk
   * `l[k]`.  The first `k` chunks of `l` are the ones it consumed to their
   * end, `done` bytes together; `l[k]` held more than the `count - done`
   * bytes still wanted, so these come off its front; the chunks after it
   * are untouched.  Then the chain `l[k..]` holds exactly the stream that
   * follows the first `count` bytes, and there were more than `count`.
   */
  lemma ReadFrontPartial(a0: seq<Chunk>, a1: seq<Chunk>, l: seq<nat>, k: nat, done: nat, count: nat)
    requires InArena(a0, l) && k < |l| && |a1| == |a0|
    requires done == |Flatten(a0, l[..k])| <= count
    requires count - done < a0[l[k]].Len() && a1[l[k]] == a0[l[k]].Consume(count - done)
    requires forall j :: k < j < |l| ==> a1[l[j]] == a0[l[j]]
    ensures InArena(a1, l[k..])
    ensures count < |Flatten(a0, l[..k + 1])| <= |Flatten(a0, l)|
    ensures Flatten(a1, l[k..]) == Flatten(a0, l)[count..]
  {
    var c := l[k];
    FlattenSplit(a0, l, k);
    assert InArena(a1, l[k + 1..]);
    FlattenFrame(a0, a1, l[k + 1..]);
    assert InArena(a1, l[k..]);
    assert Flatten(a1, l[k..]) == a1[c].Data() + Flatten(a1, l[k + 1..]) by {
      assert l[k..][0] == c && l[k..][1..] == l[k + 1..];
    }
    DropMiddle(Flatten(a0, l[..k]), a0[c].Data(), Flatten(a0, l[k + 1..]), count);
  }

  /** Dropping `n` bytes that end inside the middle part of `x + y + z`. */
  lemma DropMiddle(x: seq<byte>, y: seq<byte>, z: seq<byte>, n: nat)
    requires |x| <= n <= |x| + |y|
    ensures (x + y + z)[n..] == y[n - |x|..] + z
  {
    assert forall i :: 0 <= i < |x + y + z| - n ==> (x + y + z)[n..][i] == (y[n - |x|..] + z)[i];
  }

  /**
   * The custody invariant of a buffer's chain `l` over the arena, given the
   * free list `free`: distinct chunks of the arena that are `Unread`.
   */
  ghost predicate Held(arena: seq<Chunk>, l: seq<nat>, free: seq<nat>)
  {
    InArena(arena, l) && Distinct(l) && Unread(arena, l, free)
  }

  /**
   * None of the chunks `l` is free, each holds at least one unread byte,
   * and each but the last is filled to capacity.
   */
  ghost predicate Unread(arena: seq<Chunk>, l: seq<nat>, free: seq<nat>)
    requires InArena(arena, l)
  {
    l == [] ||
    (l[0] !in free && arena[l[0]].Len() > 0 && (|l| > 1 ==> arena[l[0]].Left() == 0) &&
     Unread(arena, l[1..], free))
  }

  /** `Unread`, entry by entry. */
  lemma {:induction false} UnreadAt(arena: seq<Chunk>, l: seq<nat>, free: seq<nat>)
    requires InArena(arena, l)
    ensures Unread(arena, l, free) <==>
      (forall k :: 0 <= k < |l| ==> l[k] !in free && arena[l[k]].Len() > 0) &&
      (forall k :: 0 <= k < |l| - 1 ==> arena[l[k]].Left() == 0)
  {
    if l != [] {
      UnreadAt(arena, l[1..], free);
      assert forall k :: 1 <= k < |l| ==> l[1..][k - 1] == l[k];
    }
  }

  /**
   * After a read has released the first `k` chunks of a held chain to the
   * free list and possibly consumed part of chunk `l[k]` (leaving some of
   * it unread), the rest of the chain is still held.
   */
  lemma HeldRest(a0: seq<Chunk>, a1: seq<Chunk>, l: seq<nat>, f0: seq<nat>, k: nat)
    requires Held(a0, l, f0) && k <= |l| && |a1| == |a0|
    requires k < |l| ==> a1[l[k]].Valid() && a1[l[k]].Len() > 0 && a1[l[k]].Left() == a0[l[k]].Left()
    requires forall j :: k < j < |l| ==> a1[l[j]] == a0[l[j]]
    ensures Held(a1, l[k..], Reverse(l[..k]) + f0)
  {
    var rest := l[k..];
    UnreadAt(a0, l, f0);
    DistinctSplit(l, k);
    forall j | 0 <= j < |rest|
      ensures rest[j] !in Reverse(l[..k]) + f0
    {
      assert rest[j] == l[k + j];
      ReverseHas(l[..k], rest[j]);
    }
    forall j | 0 <= j < |rest|
      ensures rest[j] < |a1| && a1[rest[j]].Valid() && a1[rest[j]].Len() > 0
      ensures j < |rest| - 1 ==> a1[rest[j]].Left() == 0
    {
      assert rest[j] == l[k + j];
    }
    UnreadAt(a1, rest, Reverse(l[..k]) + f0);
  }

  /**
   * Releasing chunk `l[k]` of a held chain after the `k` before it: it
   * adds its bytes to those already read, it is not yet free, it goes on
   * top of the free list, and no later chunk of the chain is the same one.
   */
  lemma ReleaseStep(a: seq<Chunk>, l: seq<nat>, f0: seq<nat>, k: nat)
    requires Held(a, l, f0) && k < |l|
    ensures Flatten(a, l[..k + 1]) == Flatten(a, l[..k]) + a[l[k]].Data()
    ensures l[k] !in l[..k] && l[k] !in Reverse(l[..k]) + f0
    ensures Reverse(l[..k + 1]) == [l[k]] + Reverse(l[..k])
    ensures forall j :: k < j < |l| ==> l[j] != l[k]
  {
    UnreadAt(a, l, f0);
    FlattenSplit(a, l, k);
    DistinctAt(l, k);
    assert forall j :: k < j < |l| ==> l[j] in l[k + 1..];
    ReverseHas(l[..k], l[k]);
    ReverseSnoc(l[..k], l[k]);
    assert l[..k + 1] == l[..k] + [l[k]];
  }

  /** Every entry of `l` is an index into an arena of `n` chunks. */
  ghost predicate Indices(n: nat, l: seq<nat>)
  {
    forall k :: 0 <= k < |l| ==> l[k] < n
  }

  /**
   * The arena once the chunks `l` have been read to their end, in order
   * (each one's read cursor moved up to its write cursor).
   */
  function Emptied(a: seq<Chunk>, l: seq<nat>): (e: seq<Chunk>)
    requires Indices(|a|, l)
    ensures |e| == |a|
  {
    if l == [] then a
    else
      var e := Emptied(a, l[..|l| - 1]);
      var c := l[|l| - 1];
      e[c := e[c].(begin := e[c].last)]
  }

  /** A chunk that is not read leaves the arena untouched. */
  lemma {:induction false} EmptiedOther(a: seq<Chunk>, l: seq<nat>, i: nat)
    requires Indices(|a|, l) && i < |a| && i !in l
    ensures Emptied(a, l)[i] == a[i]
  {
    if l != [] {
      assert forall x :: x in l[..|l| - 1] ==> x in l;
      EmptiedOther(a, l[..|l| - 1], i);
    }
  }

  /** Reading chunk `l[k]` to its end after the `k` before it. */
  lemma EmptiedStep(a: seq<Chunk>, l: seq<nat>, k: nat)
    requires Indices(|a|, l) && k < |l|
    ensures Indices(|a|, l[..k]) && Indices(|a|, l[..k + 1])
    ensures var e := Emptied(a, l[..k]); Emptied(a, l[..k + 1]) == e[l[k] := e[l[k]].(begin := e[l[k]].last)]
  {
    assert l[..k + 1][..k] == l[..k];
  }

  /**
   * Reading the first `k` chunks of a chain of distinct chunks to their
   * end touches neither the chunks after them nor any chunk off the chain.
   */
  lemma EmptiedFrame(a: seq<Chunk>, l: seq<nat>, k: nat)
    requires Indices(|a|, l) && Distinct(l) && k <= |l|
    ensures Indices(|a|, l[..k])
    ensures forall j :: k <= j < |l| ==> Emptied(a, l[..k])[l[j]] == a[l[j]]
    ensures forall i :: 0 <= i < |a| && i !in l ==> Emptied(a, l[..k])[i] == a[i]
  {
    DistinctSplit(l, k);
    forall j | k <= j < |l|
      ensures Emptied(a, l[..k])[l[j]] == a[l[j]]
    {
      assert l[j] in l[k..];
      EmptiedOther(a, l[..k], l[j]);
    }
    forall i | 0 <= i < |a| && i !in l
      ensures Emptied(a, l[..k])[i] == a[i]
    {
      assert forall x :: x in l[..k] ==> x in l;
      EmptiedOther(a, l[..k], i);
    }
  }

  /**
   * The outcome of a read of `count` bytes that consumed the whole held
   * chain `l`, `done` bytes, to the end and released every chunk: there
   * were at most `count` bytes, none is left, and no chunk outside `l`
   * changed.
   */
  lemma ReadOutcomeAll(a0: seq<Chunk>, l: seq<nat>, f0: seq<nat>, done: nat, count: nat)
    requires Held(a0, l, f0)
    requires done == |Flatten(a0, l)| <= count
    ensures Indices(|a0|, l)
    ensures var a1 := Emptied(a0, l);
      Held(a1, [], Reverse(l) + f0) &&
      done == Min(count, |Flatten(a0, l)|) &&
      ReleasesConsumed(a0, l, f0, [], Reverse(l) + f0, done) &&
      KeptChunks(a0, l, a1, [], done) &&
      forall i :: 0 <= i < |a0| && i !in l ==> a1[i] == a0[i]
  {
    EmptiedFrame(a0, l, |l|);
    assert l[..|l|] == l;
    assert l[|l|..] == [];
  }

  /**
   * The outcome of a read of `count` bytes that stopped inside chunk
   * `l[k]` of the held chain `l`: the first `k` chunks were read to their
   * end and released, `done` bytes together, and `l[k]` held more than the
   * `count - done` bytes still wanted, which come off its front.  The rest
   * of the chain is still held and holds the stream after the first
   * `count` bytes, the chunks released are the ones `ReleasesConsumed`
   * names, and no chunk outside `l` changed.
   */
  lemma ReadOutcomePartial(a0: seq<Chunk>, l: seq<nat>, f0: seq<nat>, k: nat, done: nat, count: nat)
    requires Held(a0, l, f0) && k < |l|
    requires done == |Flatten(a0, l[..k])| <= count
    requires count - done < a0[l[k]].Len()
    ensures Indices(|a0|, l[..k])
    ensures var a1 := Emptied(a0, l[..k])[l[k] := a0[l[k]].Consume(count - done)];
      Held(a1, l[k..], Reverse(l[..k]) + f0) &&
      count == Min(count, |Flatten(a0, l)|) &&
      Flatten(a1, l[k..]) == Flatten(a0, l)[count..] &&
      ReleasesConsumed(a0, l, f0, l[k..], Reverse(l[..k]) + f0, count) &&
      KeptChunks(a0, l, a1, l[k..], count) &&
      forall i :: 0 <= i < |a0| && i !in l ==> a1[i] == a0[i]
  {
    var c := a0[l[k]].Consume(count - done);
    PartialFrame(a0, l, k, c);
    var a1 := Emptied(a0, l[..k])[l[k] := c];
    assert KeptChunks(a0, l, a1, l[k..], count) by {
      assert |l| - |l[k..]| == k;
      assert forall j :: 0 < j < |l[k..]| ==> l[k..][j] == l[k + j];
    }
    ReadFrontPartial(a0, a1, l, k, done, count);
    HeldRest(a0, a1, l, f0, k);
    ReleasesAt(a0, l, f0, k, count);
  }

  /**
   * Reading the first `k` chunks of a chain of distinct chunks to their
   * end and replacing chunk `l[k]` by `c` touches neither the chunks after
   * it nor any chunk off the chain.
   */
  lemma PartialFrame(a0: seq<Chunk>, l: seq<nat>, k: nat, c: Chunk)
    requires Indices(|a0|, l) && Distinct(l) && k < |l|
    ensures Indices(|a0|, l[..k])
    ensures var a1 := Emptied(a0, l[..k])[l[k] := c];
      |a1| == |a0| && a1[l[k]] == c &&
      (forall j :: k < j < |l| ==> a1[l[j]] == a0[l[j]]) &&
      (forall i :: 0 <= i < |a0| && i !in l ==> a1[i] == a0[i])
  {
    EmptiedFrame(a0, l, k);
    DistinctAt(l, k);
    assert forall j :: k < j < |l| ==> l[j] in l[k + 1..];
  }

  /** The chunks a read of `count` bytes that stops inside chunk `l[k]` releases are the first `k`. */
  lemma ReleasesAt(a0: seq<Chunk>, l: seq<nat>, f0: seq<nat>, k: nat, count: nat)
    requires InArena(a0, l) && k < |l|
    requires |Flatten(a0, l[..k])| <= count < |Flatten(a0, l[..k + 1])|
    ensures ReleasesConsumed(a0, l, f0, l[k..], Reverse(l[..k]) + f0, count)
  {
    assert |l| - |l[k..]| == k;
  }

  /** `strlen(s)`: the offset of the first NUL byte. */
  function Strlen(s: seq<byte>): (n: nat)
    requires 0 in s
    ensures n < |s| && s[n] == 0
    ensures forall i :: 0 <= i < n ==> s[i] != 0
  {
    if s[0] == 0 then 0 else 1 + Strlen(s[1..])
  }

  /**
   * A read of `n` bytes from the front of the chain `l` releases exactly
   * the chunks it consumes to their end: they are the first `r` of `l`,
   * holding at most `n` bytes together, while one more chunk would hold
   * more than `n`.  Afterwards the chain is `l[r..]`, and the released
   * chunks sit on the free list in front of `free0`, recycled head first,
   * so the last one released is on top.
   */
  ghost predicate ReleasesConsumed(arena: seq<Chunk>, l: seq<nat>, free0: seq<nat>,
                                   rest: seq<nat>, free: seq<nat>, n: nat)
  {
    InArena(arena, l) && |rest| <= |l| &&
    var r := |l| - |rest|;
    rest == l[r..] && free == Reverse(l[..r]) + free0 &&
    |Flatten(arena, l[..r])| <= n &&
    (r < |l| ==> n < |Flatten(arena, l[..r + 1])|)
  }

  /** The head of a held chain may be read to its end and released. */
  lemma HeadRelease(a0: seq<Chunk>, l: seq<nat>, f0: seq<nat>)
    requires Held(a0, l, f0) && l != []
    ensures var c := a0[l[0]]; var a1 := a0[l[0] := c.(begin := c.last)];
      l[0] !in f0 && Held(a1, l[1..], [l[0]] + f0)
  {
    var c := a0[l[0]];
    var a1 := a0[l[0] := c.(begin := c.last)];
    UnreadAt(a0, l, f0);
    DistinctAt(l, 0);
    assert forall j :: 0 < j < |l| ==> l[j] in l[1..];
    assert l[..1] == [l[0]] && [l[0]][1..] == [];
    assert Reverse(l[..1]) == [l[0]];
    HeldRest(a0, a1, l, f0, 1);
  }

  /**
   * The state of a drain of the held chain `l0` over the arena `a0` (free
   * list `f0`) once the chunks `done` at its front were read to their end
   * and released: `chain` is what is left of `l0`, the released chunks
   * are emptied in `arena` and sit on the free list, last released on top,
   * and `ndata` counts the bytes they held.
   */
  ghost predicate Drained(a0: seq<Chunk>, l0: seq<nat>, f0: seq<nat>, done: seq<nat>,
                          arena: seq<Chunk>, chain: seq<nat>, free: seq<nat>, ndata: nat)
  {
    l0 == done + chain && Indices(|a0|, done) && arena == Emptied(a0, done) &&
    free == Reverse(done) + f0 && InArena(a0, done) && ndata == |Flatten(a0, done)|
  }

  lemma DrainedStart(a0: seq<Chunk>, l0: seq<nat>, f0: seq<nat>)
    ensures Drained(a0, l0, f0, [], a0, l0, f0, 0)
  {
    assert l0 == [] + l0;
  }

  /** Reading the head of what is left to its end and releasing it extends a drain by one chunk. */
  lemma DrainedStep(a0: seq<Chunk>, l0: seq<nat>, f0: seq<nat>, done: seq<nat>,
                    arena: seq<Chunk>, chain: seq<nat>, free: seq<nat>, ndata: nat)
    requires Held(a0, l0, f0) && Drained(a0, l0, f0, done, arena, chain, free, ndata) && chain != []
    ensures chain[0] < |arena| && arena[chain[0]] == a0[chain[0]]
    ensures var h := chain[0]; var c := arena[h];
      c.Valid() && InArena(a0, done + [h]) &&
      Flatten(a0, done + [h]) == Flatten(a0, done) + c.Data() &&
      Drained(a0, l0, f0, done + [h], arena[h := c.(begin := c.last)], chain[1..], [h] + free, ndata + c.Len())
  {
    var k := |done|;
    var h := chain[0];
    assert done == l0[..k] && chain == l0[k..] && h == l0[k];
    assert done + [h] == l0[..k + 1];
    assert h !in done && h < |a0| && a0[h].Valid() by {
      ReleaseStep(a0, l0, f0, k);
    }
    assert arena[h] == a0[h] by {
      EmptiedOther(a0, done, h);
    }
    var c := a0[h];
    assert Emptied(a0, done + [h]) == arena[h := c.(begin := c.last)] by {
      EmptiedStep(a0, l0, k);
    }
    assert [h] + free == Reverse(done + [h]) + f0 by {
      ReverseSnoc(done, h);
    }
    assert l0 == (done + [h]) + chain[1..];
    assert InArena(a0, done + [h]) && Flatten(a0, done + [h]) == Flatten(a0, done) + c.Data() by {
      FlattenSplit(a0, l0, k);
    }
  }

  /**
   * While a drain is under way, the chunk at the head of what is left is
   * as it was.  This is the first fact of `DrainedStep` alone: the loops
   * that only need it call this lemma so that the other facts of
   * `DrainedStep` do not enter their proofs.
   */
  lemma DrainedHead(a0: seq<Chunk>, l0: seq<nat>, f0: seq<nat>, done: seq<nat>,
                    arena: seq<Chunk>, chain: seq<nat>, free: seq<nat>, ndata: nat)
    requires Held(a0, l0, f0) && Drained(a0, l0, f0, done, arena, chain, free, ndata) && chain != []
    ensures chain[0] < |arena| && arena[chain[0]] == a0[chain[0]]
  {
    DrainedStep(a0, l0, f0, done, arena, chain, free, ndata);
  }

  /**
   * Recycling the chunks of a held chain `l` from its head: once the
   * first `k` went onto the free list, the next one, `l[k]`, is a chunk of
   * the arena that is not yet free, and it then sits on top.
   */
  lemma RecycleStep(arena: seq<Chunk>, l: seq<nat>, f0: seq<nat>, k: nat)
    requires Held(arena, l, f0) && k < |l|
    ensures l[k] < |arena| && l[k] !in Reverse(l[..k]) + f0
    ensures Reverse(l[..k + 1]) + f0 == [l[k]] + (Reverse(l[..k]) + f0)
  {
    ReleaseStep(arena, l, f0, k);
    assert [l[k]] + Reverse(l[..k]) + f0 == [l[k]] + (Reverse(l[..k]) + f0);
  }

  /**
   * The bytes a read of `count` bytes hands out when it stops inside
   * chunk `l[k]`: all those of the first `k` chunks, then the first
   * `count - done` unread bytes of `l[k]`; together, the first `count`
   * bytes of the stream.
   */
  lemma ReadPrefix(a0: seq<Chunk>, l: seq<nat>, k: nat, done: nat, count: nat)
    requires InArena(a0, l) && k < |l|
    requires done == |Flatten(a0, l[..k])| <= count < done + a0[l[k]].Len()
    ensures count <= |Flatten(a0, l)|
    ensures Flatten(a0, l)[..count] == Flatten(a0, l[..k]) + a0[l[k]].Data()[..count - done]
  {
    FlattenSplit(a0, l, k);
    TakeMiddle(Flatten(a0, l[..k]), a0[l[k]].Data(), Flatten(a0, l[k + 1..]), count);
  }

  /**
   * The chunks a read of `n` bytes from the front of the chain `l0` keeps,
   * `chain`, are the last ones of `l0`, none split or merged: every one
   * but the head is as it was, and the head only has its read cursor
   * advanced, past those of the `n` bytes that the chunks released before
   * it did not hold.
   */
  ghost predicate KeptChunks(a0: seq<Chunk>, l0: seq<nat>, arena: seq<Chunk>, chain: seq<nat>, n: nat)
    requires InArena(a0, l0)
  {
    |arena| == |a0| && |chain| <= |l0| && chain == l0[|l0| - |chain|..] &&
    (forall j :: 0 < j < |chain| ==> arena[chain[j]] == a0[chain[j]]) &&
    (chain != [] ==>
       var before := |Flatten(a0, l0[..|l0| - |chain|])|;
       before <= n && arena[chain[0]] == a0[chain[0]].(begin := a0[chain[0]].begin + (n - before)))
  }

  /**
   * A read never changes the free space of a chunk it keeps: each keeps
   * its storage and its `left()`, so the tail has the same room for the
   * next `append` as before the read.
   */
  lemma KeptLeft(a0: seq<Chunk>, l0: seq<nat>, arena: seq<Chunk>, chain: seq<nat>, n: nat)
    requires InArena(a0, l0) && InArena(arena, chain) && KeptChunks(a0, l0, arena, chain, n)
    ensures forall j :: 0 <= j < |chain| ==>
      arena[chain[j]].buf == a0[chain[j]].buf && arena[chain[j]].Left() == a0[chain[j]].Left()
    ensures chain != [] ==> TailRoom(arena, chain) == TailRoom(a0, chain)
  {
    var r := |l0| - |chain|;
    assert forall j :: 0 <= j < |chain| ==> chain[j] == l0[r + j];
  }

  /** Taking `n` bytes that end inside the middle part of `x + y + z`. */
  lemma TakeMiddle(x: seq<byte>, y: seq<byte>, z: seq<byte>, n: nat)
    requires |x| <= n <= |x| + |y|
    ensures (x + y + z)[..n] == x + y[..n - |x|]
  {
    assert forall i :: 0 <= i < n ==> (x + y + z)[..n][i] == (x + y[..n - |x|])[i];
  }

  /**
   * The outcome of a read (`remove` or `drain`) of up to `count` bytes
   * from the front of the held chain `l0` over the arena `a0` with free
   * list `f0`, which handed out `n` bytes and left the arena `arena`, the
   * chain `chain` and the free list `free`: `n` is `count` or all there
   * were if fewer; the chain left is still held and holds exactly the
   * stream after the first `n` bytes; the chunks released are exactly
   * those read to their end, in the order `ReleasesConsumed` gives; the
   * chunks kept are as `KeptChunks` says; and no chunk off the chain
   * changed.
   */
  ghost predicate ReadOutcome(a0: seq<Chunk>, l0: seq<nat>, f0: seq<nat>,
                              arena: seq<Chunk>, chain: seq<nat>, free: seq<nat>, n: nat, count: nat)
    requires InArena(a0, l0)
  {
    Held(arena, chain, free) &&
    n == Min(count, |Flatten(a0, l0)|) &&
    Flatten(arena, chain) == Flatten(a0, l0)[n..] &&
    ReleasesConsumed(a0, l0, f0, chain, free, n) &&
    KeptChunks(a0, l0, arena, chain, n) &&
    (forall i :: 0 <= i < |a0| && i !in l0 ==> arena[i] == a0[i])
  }

  /**
   * A drain of the held chain `l0` for `count` bytes that released the
   * chunks `done` and stops inside the chunk at the head of what is left,
   * by consuming `count - ndata` of its bytes: the outcome `ReadOutcomePartial`
   * describes, and the bytes handed out are the first `count` of the stream.
   */
  lemma DrainedPartial(a0: seq<Chunk>, l0: seq<nat>, f0: seq<nat>, done: seq<nat>,
                       arena: seq<Chunk>, chain: seq<nat>, free: seq<nat>, ndata: nat, count: nat)
    requires Held(a0, l0, f0) && Drained(a0, l0, f0, done, arena, chain, free, ndata) && chain != []
    requires chain[0] < |a0| && a0[chain[0]].Valid() && ndata <= count && count - ndata < a0[chain[0]].Len()
    ensures chain[0] < |arena| && arena[chain[0]] == a0[chain[0]]
    ensures var a1 := arena[chain[0] := a0[chain[0]].Consume(count - ndata)];
      ReadOutcome(a0, l0, f0, a1, chain, free, count, count) &&
      Flatten(a0, l0)[..count] == Flatten(a0, done) + a0[chain[0]].Data()[..count - ndata]
  {
    DrainedHead(a0, l0, f0, done, arena, chain, free, ndata);
    var k := |done|;
    assert l0[..k] == done && l0[k..] == chain && chain[0] == l0[k];
    ReadOutcomePartial(a0, l0, f0, k, ndata, count);
    ReadPrefix(a0, l0, k, ndata, count);
  }

  /**
   * A drain of the held chain `l0` for `count` bytes that released every
   * chunk: the outcome `ReadOutcomeAll` describes.
   */
  lemma DrainedAll(a0: seq<Chunk>, l0: seq<nat>, f0: seq<nat>, done: seq<nat>,
                   arena: seq<Chunk>, free: seq<nat>, ndata: nat, count: nat)
    requires Held(a0, l0, f0) && Drained(a0, l0, f0, done, arena, [], free, ndata) && ndata <= count
    ensures ReadOutcome(a0, l0, f0, arena, [], free, ndata, count) &&
      ndata == |Flatten(a0, l0)| && Flatten(a0, l0)[..ndata] == Flatten(a0, done)
  {
    assert done == l0;
    ReadOutcomeAll(a0, l0, f0, ndata, count);
  }

  /**
   * Writing `src` into the free space of the tail chunk of a held chain:
   * the chain is still held and holds `src` after what it held.
   */
  lemma WriteTail(a: seq<Chunk>, l: seq<nat>, f: seq<nat>, src: seq<byte>)
    requires Held(a, l, f) && l != []
    requires |src| <= a[l[|l| - 1]].Left()
    ensures var t := l[|l| - 1]; var b := a[t := a[t].Write(src)];
      Held(b, l, f) && Flatten(b, l) == Flatten(a, l) + src
  {
    var n := |l| - 1;
    var t := l[n];
    var c := a[t].Write(src);
    var b := a[t := c];
    assert forall j :: 0 <= j < n ==> l[j] != t by {
      DistinctAt(l, n);
      assert forall j :: 0 <= j < n ==> l[j] in l[..n];
    }
    assert Flatten(b, l) == Flatten(a, l) + src by {
      DistinctAt(l, n);
      assert l[..n + 1] == l && l[..n] + [t] == l;
      FlattenSplit(a, l, n);
      FlattenReplaceLast(a, l[..n], t, c);
      Assoc(Flatten(a, l[..n]), a[t].Data(), src);
    }
    assert Unread(b, l, f) by {
      UnreadAt(a, l, f);
      UnreadAt(b, l, f);
    }
  }

  /** A hint for the solver: concatenation regroups. */
  lemma Assoc(x: seq<byte>, y: seq<byte>, z: seq<byte>)
    ensures (x + y) + z == x + (y + z)
  {
  }

  /**
   * Linking chunk `m`, just handed out by the pool (taken from the head of
   * the free list `f0`, or newly constructed when it was empty) and then
   * given the unread bytes of `c`, as the new tail of a held chain whose
   * tail is full: the longer chain is held and holds those bytes after
   * what it held.
   */
  lemma PushChunk(a0: seq<Chunk>, l: seq<nat>, f0: seq<nat>, a1: seq<Chunk>, f1: seq<nat>, m: nat, c: Chunk)
    requires Held(a0, l, f0) && Indices(|a0|, f0) && Distinct(f0)
    requires l != [] ==> a0[l[|l| - 1]].Left() == 0
    requires |a0| <= |a1| && m < |a1| && forall i :: 0 <= i < |a0| && i != m ==> a1[i] == a0[i]
    requires (f0 != [] && m == f0[0] && f1 == f0[1..]) || (f0 == [] && m == |a0| && f1 == [])
    requires c.Valid() && c.Len() > 0
    ensures m !in l
    ensures Held(a1[m := c], l + [m], f1)
    ensures Flatten(a1[m := c], l + [m]) == Flatten(a0, l) + c.Data()
  {
    var b := a1[m := c];
    UnreadAt(a0, l, f0);
    assert m !in l by {
      if f0 != [] { assert m in f0; }
    }
    assert forall k :: 0 <= k < |l| ==> b[l[k]] == a0[l[k]];
    FlattenFrame(a0, b, l);
    FlattenConcat(b, l, [m]);
    DistinctSnoc(l, m);
    assert m !in f1 by {
      if f0 != [] { assert f0[1..] == f1; }
    }
    forall k | 0 <= k < |l| + 1
      ensures (l + [m])[k] !in f1 && b[(l + [m])[k]].Len() > 0
      ensures k < |l| ==> b[(l + [m])[k]].Left() == 0
    {
      if k < |l| {
        assert (l + [m])[k] == l[k];
        assert forall x :: x in f1 ==> x in f0;
      }
    }
    UnreadAt(b, l + [m], f1);
  }

  /** The indices `lo`, `lo + 1`, ..., `hi - 1`: the chunks a pool constructs while its arena grows from `lo` to `hi`. */
  function Fresh(lo: nat, hi: nat): (r: seq<nat>)
    requires lo <= hi
    ensures |r| == hi - lo
    ensures forall i :: 0 <= i < |r| ==> r[i] == lo + i
  {
    seq(hi - lo, i requires 0 <= i < hi - lo => lo + i)
  }

  /**
   * Whether handing out the chunks `gained`, one `get()` each, from a pool
   * whose free list is `f0` and whose arena holds `n0` chunks leaves the
   * free list `free` and an arena of `n` chunks: each chunk is the head of
   * the free list, popped, while the free list has one, and otherwise a
   * newly constructed chunk at the end of the arena.
   */
  ghost predicate Takes(f0: seq<nat>, n0: nat, gained: seq<nat>, free: seq<nat>, n: nat)
    decreases |gained|
  {
    if gained == [] then free == f0 && n == n0
    else if f0 != [] then gained[0] == f0[0] && Takes(f0[1..], n0, gained[1..], free, n)
    else gained[0] == n0 && Takes([], n0 + 1, gained[1..], free, n)
  }

  /** One `get()` hands out the head of the free list, or a new chunk when the free list is empty. */
  lemma TakesOne(f0: seq<nat>, n0: nat)
    ensures f0 != [] ==> Takes(f0, n0, [f0[0]], f0[1..], n0)
    ensures f0 == [] ==> Takes(f0, n0, [n0], [], n0 + 1)
  {
    if f0 != [] { assert [f0[0]][1..] == []; } else { assert [n0][1..] == []; }
  }

  /** Two runs of `get()` in a row are one run handing out both runs' chunks. */
  lemma {:induction false} TakesTrans(f0: seq<nat>, n0: nat, g1: seq<nat>, f1: seq<nat>, n1: nat,
                                      g2: seq<nat>, f2: seq<nat>, n2: nat)
    requires Takes(f0, n0, g1, f1, n1) && Takes(f1, n1, g2, f2, n2)
    ensures Takes(f0, n0, g1 + g2, f2, n2)
    decreases |g1|
  {
    if g1 != [] {
      assert (g1 + g2)[0] == g1[0] && (g1 + g2)[1..] == g1[1..] + g2;
      if f0 != [] {
        TakesTrans(f0[1..], n0, g1[1..], f1, n1, g2, f2, n2);
      } else {
        TakesTrans([], n0 + 1, g1[1..], f1, n1, g2, f2, n2);
      }
    } else {
      assert g1 + g2 == g2;
    }
  }

  /**
   * What a run of `get()` does, in closed form: the chunks handed out are
   * the front of the free list, which is left with the rest, followed by
   * the chunks constructed, in order of construction; and the pool
   * constructs a chunk only once its free list is empty.
   */
  lemma {:induction false} TakesForm(f0: seq<nat>, n0: nat, gained: seq<nat>, free: seq<nat>, n: nat)
    requires Takes(f0, n0, gained, free, n)
    ensures n0 <= n && |free| <= |f0| && free == f0[|f0| - |free|..]
    ensures gained == f0[..|f0| - |free|] + Fresh(n0, n)
    ensures n0 < n ==> free == []
    decreases |gained|
  {
    if gained == [] {
      assert f0[..0] == [] && Fresh(n0, n) == [] && f0[0..] == f0;
    } else if f0 != [] {
      TakesForm(f0[1..], n0, gained[1..], free, n);
      assert f0[1..][|f0| - 1 - |free|..] == f0[|f0| - |free|..];
      assert f0[..|f0| - |free|] == [f0[0]] + f0[1..][..|f0| - 1 - |free|];
      assert gained == [gained[0]] + gained[1..];
    } else {
      TakesForm([], n0 + 1, gained[1..], free, n);
      assert Fresh(n0, n) == [n0] + Fresh(n0 + 1, n);
      assert gained == [gained[0]] + gained[1..];
    }
  }

  /**
   * The state of an append to the held chain `l0` over the arena `a0`
   * (free list `f0`) once the bytes `w` were written: the chain starts
   * with `l0` and holds `w` after what it held; the chunks it gained were
   * handed out by the pool in order (`Takes`: from the head of the free
   * list, then, once it is empty, newly constructed; see `TakesForm`) and
   * are read from the start of their storage; the chunks of `l0` keep their read cursors; and no chunk that
   * was neither on `l0` nor free changed.
   */
  ghost predicate Appended(a0: seq<Chunk>, l0: seq<nat>, f0: seq<nat>,
                           arena: seq<Chunk>, chain: seq<nat>, free: seq<nat>, w: seq<byte>)
    requires InArena(a0, l0) && InArena(arena, chain)
  {
    Flatten(arena, chain) == Flatten(a0, l0) + w &&
    |l0| <= |chain| && chain[..|l0|] == l0 &&
    |a0| <= |arena| <= |a0| + (|chain| - |l0|) && |free| <= |f0| && free == f0[|f0| - |free|..] &&
    Takes(f0, |a0|, chain[|l0|..], free, |arena|) &&
    (forall k :: 0 <= k < |l0| ==> arena[l0[k]].begin == a0[l0[k]].begin) &&
    (forall k :: |l0| <= k < |chain| ==> arena[chain[k]].begin == 0) &&
    (forall i :: 0 <= i < |a0| && i !in l0 && i !in f0 ==> arena[i] == a0[i])
  }

  lemma AppendedStart(a0: seq<Chunk>, l0: seq<nat>, f0: seq<nat>)
    requires InArena(a0, l0)
    ensures Appended(a0, l0, f0, a0, l0, f0, [])
  {
    assert l0[..|l0|] == l0 && f0[|f0| - |f0|..] == f0;
    assert l0[|l0|..] == [];
    assert Flatten(a0, l0) + [] == Flatten(a0, l0);
  }

  /** Every chunk a run of `get()` hands out was free or is newly constructed. */
  lemma TakesFrom(f0: seq<nat>, n0: nat, gained: seq<nat>, free: seq<nat>, n: nat)
    requires Takes(f0, n0, gained, free, n)
    ensures forall x :: x in gained ==> x in f0 || n0 <= x
  {
    TakesForm(f0, n0, gained, free, n);
    var t := |f0| - |free|;
    forall x | x in gained
      ensures x in f0 || n0 <= x
    {
      var j :| 0 <= j < |gained| && gained[j] == x;
      if j < t { assert x == f0[j]; } else { assert x == Fresh(n0, n)[j - t]; }
    }
  }

  /** A chain extended twice starts with the first chain, and what it gained is what each extension gained. */
  lemma ChainTrans(l0: seq<nat>, l1: seq<nat>, l2: seq<nat>)
    requires |l0| <= |l1| <= |l2| && l1[..|l0|] == l0 && l2[..|l1|] == l1
    ensures l2[..|l0|] == l0 && l2[|l0|..] == l1[|l0|..] + l2[|l1|..]
  {
    assert l2[..|l0|] == l2[..|l1|][..|l0|];
    assert l2 == l1 + l2[|l1|..];
    assert l1 == l0 + l1[|l0|..];
  }

  /** A free list that lost its front twice lost its front once. */
  lemma SuffixTrans(f0: seq<nat>, f1: seq<nat>, f2: seq<nat>)
    requires |f2| <= |f1| <= |f0| && f1 == f0[|f0| - |f1|..] && f2 == f1[|f1| - |f2|..]
    ensures f2 == f0[|f0| - |f2|..]
    ensures forall x :: x in f1 ==> x in f0
  {
    assert f1[|f1| - |f2|..] == f0[|f0| - |f1|..][|f1| - |f2|..];
    assert forall j :: 0 <= j < |f1| ==> f1[j] == f0[|f0| - |f1| + j];
  }

  /** Two appends in a row are one append of both byte strings. */
  lemma AppendedTrans(a0: seq<Chunk>, l0: seq<nat>, f0: seq<nat>,
                      a1: seq<Chunk>, l1: seq<nat>, f1: seq<nat>,
                      a2: seq<Chunk>, l2: seq<nat>, f2: seq<nat>, w1: seq<byte>, w2: seq<byte>)
    requires InArena(a0, l0) && InArena(a1, l1) && InArena(a2, l2)
    requires Appended(a0, l0, f0, a1, l1, f1, w1) && Appended(a1, l1, f1, a2, l2, f2, w2)
    ensures Appended(a0, l0, f0, a2, l2, f2, w1 + w2)
  {
    assert Flatten(a2, l2) == Flatten(a0, l0) + (w1 + w2) by {
      assert Flatten(a0, l0) + w1 + w2 == Flatten(a0, l0) + (w1 + w2);
    }
    ChainTrans(l0, l1, l2);
    SuffixTrans(f0, f1, f2);
    assert Takes(f0, |a0|, l2[|l0|..], f2, |a2|) by {
      TakesTrans(f0, |a0|, l1[|l0|..], f1, |a1|, l2[|l1|..], f2, |a2|);
    }
    forall k | 0 <= k < |l0|
      ensures a2[l0[k]].begin == a0[l0[k]].begin
    {
      assert l0[k] == l1[k];
    }
    forall k | |l0| <= k < |l2|
      ensures a2[l2[k]].begin == 0
    {
      if k < |l1| { assert l2[k] == l1[k]; }
    }
    forall i | 0 <= i < |a0| && i !in l0 && i !in f0
      ensures a2[i] == a0[i]
    {
      assert i !in l1 by {
        TakesFrom(f0, |a0|, l1[|l0|..], f1, |a1|);
        assert l1 == l0 + l1[|l0|..];
      }
    }
  }

  /** Appending the next `k` bytes of `src` after its first `off`. */
  lemma AppendedMore(a0: seq<Chunk>, l0: seq<nat>, f0: seq<nat>,
                     a1: seq<Chunk>, l1: seq<nat>, f1: seq<nat>,
                     a2: seq<Chunk>, l2: seq<nat>, f2: seq<nat>, src: seq<byte>, off: nat, k: nat)
    requires InArena(a0, l0) && InArena(a1, l1) && InArena(a2, l2) && off + k <= |src|
    requires Appended(a0, l0, f0, a1, l1, f1, src[..off]) && Appended(a1, l1, f1, a2, l2, f2, src[off..][..k])
    ensures Appended(a0, l0, f0, a2, l2, f2, src[..off + k])
  {
    AppendedTrans(a0, l0, f0, a1, l1, f1, a2, l2, f2, src[..off], src[off..][..k]);
    assert src[..off] + src[off..][..k] == src[..off + k];
  }

  /**
   * The end of the `append` loop: all of `src` was appended, a chunk was
   * added only if `src` overflowed the old tail, and when none was the
   * pool gave nothing.
   */
  lemma AppendedEnd(a0: seq<Chunk>, l0: seq<nat>, f0: seq<nat>,
                    arena: seq<Chunk>, chain: seq<nat>, free: seq<nat>, src: seq<byte>, off: nat, size: nat)
    requires Held(a0, l0, f0) && Held(arena, chain, free) && off == |src|
    requires Appended(a0, l0, f0, arena, chain, free, src[..off])
    requires forall k :: 0 <= k < |l0| ==> |a0[l0[k]].buf| == size && |arena[l0[k]].buf| == size
    ensures Appended(a0, l0, f0, arena, chain, free, src)
    ensures |chain| > |l0| ==> TailRoom(a0, l0) < |src|
    ensures |chain| == |l0| ==> chain == l0 && |arena| == |a0| && free == f0
  {
    assert src[..off] == src;
    AppendedOverflow(a0, l0, f0, arena, chain, free, src, size);
    if |chain| == |l0| {
      AppendedNoChunk(a0, l0, f0, arena, chain, free, src);
    }
  }

  /** An append that gained no chunk took nothing from the pool. */
  lemma AppendedNoChunk(a0: seq<Chunk>, l0: seq<nat>, f0: seq<nat>,
                        arena: seq<Chunk>, chain: seq<nat>, free: seq<nat>, w: seq<byte>)
    requires InArena(a0, l0) && InArena(arena, chain)
    requires Appended(a0, l0, f0, arena, chain, free, w) && |chain| == |l0|
    ensures chain == l0 && |arena| == |a0| && free == f0
  {
    assert chain == chain[..|l0|];
    assert chain[|l0|..] == [];
  }

  /** Writing into the tail chunk's free space is an append. */
  lemma AppendedTail(a: seq<Chunk>, l: seq<nat>, f: seq<nat>, src: seq<byte>)
    requires Held(a, l, f) && l != []
    requires |src| <= a[l[|l| - 1]].Left()
    ensures var t := l[|l| - 1]; var b := a[t := a[t].Write(src)];
      Held(b, l, f) && Appended(a, l, f, b, l, f, src)
  {
    var t := l[|l| - 1];
    WriteTail(a, l, f, src);
    assert l[..|l|] == l && f[|f| - |f|..] == f;
    assert l[|l|..] == [];
  }

  /** Linking a chunk just handed out by the pool, with bytes written into it, is an append. */
  lemma AppendedChunk(a0: seq<Chunk>, l: seq<nat>, f0: seq<nat>, a1: seq<Chunk>, f1: seq<nat>, m: nat, src: seq<byte>)
    requires Held(a0, l, f0) && Indices(|a0|, f0) && Distinct(f0)
    requires l != [] ==> a0[l[|l| - 1]].Left() == 0
    requires |a0| <= |a1| && m < |a1| && forall i :: 0 <= i < |a0| && i != m ==> a1[i] == a0[i]
    requires (f0 != [] && m == f0[0] && f1 == f0[1..] && |a1| == |a0|) ||
             (f0 == [] && m == |a0| && f1 == [] && |a1| == |a0| + 1)
    requires a1[m].Valid() && a1[m].Data() == [] && a1[m].begin == 0
    requires 0 < |src| <= a1[m].Left()
    ensures var b := a1[m := a1[m].Write(src)];
      Held(b, l + [m], f1) && Appended(a0, l, f0, b, l + [m], f1, src)
  {
    var c := a1[m].Write(src);
    var b := a1[m := c];
    assert c.Data() == src;
    PushChunk(a0, l, f0, a1, f1, m, c);
    assert (l + [m])[..|l|] == l && (l + [m])[|l|..] == [m];
    TakesOne(f0, |a0|);
    if f0 != [] {
      assert f0[1..] == f0[|f0| - |f1|..];
    }
    assert forall k :: 0 <= k < |l| ==> l[k] != m && b[l[k]] == a0[l[k]];
    assert forall k :: |l| <= k < |l| + 1 ==> (l + [m])[k] == m;
  }

  /**
   * The layout of a held chain of N-byte chunks that were only ever
   * appended to (every read cursor at the start of its storage): each
   * chunk's unread bytes and free space add up to N, every chunk but the
   * tail holds N bytes, and the tail holds what is left of the stream,
   * between 1 and N bytes.
   */
  lemma {:induction false} FreshLayout(arena: seq<Chunk>, l: seq<nat>, free: seq<nat>, size: nat)
    requires Held(arena, l, free)
    requires forall k :: 0 <= k < |l| ==> |arena[l[k]].buf| == size && arena[l[k]].begin == 0
    ensures forall k :: 0 <= k < |l| ==> arena[l[k]].Len() + arena[l[k]].Left() == size
    ensures forall k :: 0 <= k < |l| - 1 ==> arena[l[k]].Len() == size
    ensures l != [] ==> (0 < arena[l[|l| - 1]].Len() <= size &&
                         |Flatten(arena, l)| == (|l| - 1) * size + arena[l[|l| - 1]].Len())
  {
    if l != [] {
      UnreadAt(arena, l, free);
      assert Held(arena, l[1..], free);
      FreshLayout(arena, l[1..], free, size);
      if |l| > 1 {
        assert l[1..][|l[1..]| - 1] == l[|l| - 1];
        assert (|l| - 1) * size == size + (|l| - 2) * size;
      }
    }
  }

  /** Free space in the tail chunk of the chain `l`, 0 when there is no tail. */
  function TailRoom(arena: seq<Chunk>, l: seq<nat>): nat
    requires InArena(arena, l)
  {
    if l == [] then 0 else arena[l[|l| - 1]].Left()
  }

  /**
   * When only the tail of a chain gains bytes, `r` of them, the chain's
   * stream grows by `r`.
   */
  lemma {:induction false} FlattenGrowTail(a0: seq<Chunk>, a1: seq<Chunk>, l: seq<nat>, r: nat)
    requires InArena(a0, l) && InArena(a1, l) && l != []
    requires forall k :: 0 <= k < |l| - 1 ==> a1[l[k]].Len() == a0[l[k]].Len()
    requires a1[l[|l| - 1]].Len() == a0[l[|l| - 1]].Len() + r
    ensures |Flatten(a1, l)| == |Flatten(a0, l)| + r
  {
    if |l| > 1 {
      var t := l[1..];
      assert forall k :: 0 <= k < |t| - 1 ==> t[k] == l[k + 1];
      assert t[|t| - 1] == l[|l| - 1];
      FlattenGrowTail(a0, a1, t, r);
    }
  }

  /**
   * An append to a held chain starts a new chunk only for bytes that
   * overflow the old tail: whenever the chain gained a chunk, the bytes
   * written were more than the old tail's free space (which they filled).
   */
  lemma AppendedOverflow(a0: seq<Chunk>, l0: seq<nat>, f0: seq<nat>,
                         a1: seq<Chunk>, l1: seq<nat>, f1: seq<nat>, w: seq<byte>, size: nat)
    requires Held(a0, l0, f0) && Held(a1, l1, f1) && Appended(a0, l0, f0, a1, l1, f1, w)
    requires forall k :: 0 <= k < |l0| ==> |a0[l0[k]].buf| == size && |a1[l0[k]].buf| == size
    ensures |l1| > |l0| ==> TailRoom(a0, l0) < |w|
  {
    if |l1| > |l0| {
      var n := |l0|;
      var rest := l1[n..];
      assert l1 == l0 + rest;
      assert InArena(a1, l0) && InArena(a1, rest);
      FlattenConcat(a1, l0, rest);
      UnreadAt(a1, l1, f1);
      assert |Flatten(a1, rest)| >= 1 by {
        assert rest[0] == l1[n];
        assert |a1[rest[0]].Data()| > 0;
      }
      if n > 0 {
        UnreadAt(a0, l0, f0);
        assert forall k :: 0 <= k < n ==> l1[k] == l0[k] && a1[l0[k]].Left() == 0;
        FlattenGrowTail(a0, a1, l0, TailRoom(a0, l0));
      }
    }
  }

  class Memchunks {
    /** The pool this buffer borrows its chunks from, for its whole life. */
    const pool: Pool
    /**
     * The chunks held, from `head` to `tail`: the `next` of each entry is
     * the entry after it, and the tail's is null.
     */
    var chain: seq<nat>

    /** `head`: the first chunk held, null when the buffer holds none. */
    function Head(): (h: Option<nat>)
      reads this
      ensures h == None <==> chain == []
      ensures h.Some? ==> h.value == chain[0]
    {
      if chain == [] then None else Some(chain[0])
    }

    /** `tail`: the last chunk held, null when the buffer holds none. */
    function Tail(): (t: Option<nat>)
      reads this
      ensures t == None <==> chain == []
      ensures t.Some? ==> t.value == chain[|chain| - 1]
    {
      if chain == [] then None else Some(chain[|chain| - 1])
    }

    /** The buffer's chain is held in custody from its pool (see `Held`). */
    ghost predicate Valid()
      reads this, pool
    {
      pool.Valid() && Held(pool.chunks, chain, pool.freelist)
    }

    /** The bytes appended and not yet removed or drained, in order. */
    ghost function Contents(): seq<byte>
      reads this, pool
      requires Valid()
    {
      Flatten(pool.chunks, chain)
    }

    /** Free space in the tail chunk, 0 when there is none. */
    ghost function Room(): nat
      reads this, pool
      requires Valid()
    {
      TailRoom(pool.chunks, chain)
    }

    /** A new buffer bound to `pool` holds no chunk. */
    constructor (pool: Pool)
      requires pool.Valid()
      ensures Valid() && this.pool == pool
      ensures chain == [] && Head() == None && Tail() == None && Contents() == []
    {
      this.pool := pool;
      chain := [];
    }

    /** Every chunk of the chain, and of any slice of it, lies in the arena. */
    lemma ChainInArena(i: nat, j: nat)
      requires Valid() && i <= j <= |chain|
      ensures InArena(pool.chunks, chain) && InArena(pool.chunks, chain[i..j])
    {
    }

    /**
     * The buffer holds no chunk (`head` and `tail` are null) exactly when
     * it holds no byte.
     */
    lemma EmptyIff()
      requires Valid()
      ensures chain == [] <==> Contents() == []
      ensures Head() == None <==> Contents() == []
      ensures Tail() == None <==> Contents() == []
    {
      UnreadAt(pool.chunks, chain, pool.freelist);
      FlattenEmpty(pool.chunks, chain);
    }

    /**
     * A buffer whose chunks were only appended to: see `FreshLayout`.
     */
    lemma FreshChain()
      requires Valid() && forall k :: 0 <= k < |chain| ==> pool.chunks[chain[k]].begin == 0
      ensures forall k :: 0 <= k < |chain| ==> pool.chunks[chain[k]].Len() + pool.chunks[chain[k]].Left() == pool.size
      ensures forall k :: 0 <= k < |chain| - 1 ==> pool.chunks[chain[k]].Len() == pool.size
      ensures chain != [] ==> (0 < pool.chunks[chain[|chain| - 1]].Len() <= pool.size &&
                               |Contents()| == (|chain| - 1) * pool.size + pool.chunks[chain[|chain| - 1]].Len())
    {
      FreshLayout(pool.chunks, chain, pool.freelist, pool.size);
    }

    /** `rleft()`: the unread bytes of the chunks from `head` to `tail`, summed. */
    method RLeft() returns (len: nat)
      requires Valid()
      ensures len == |Contents()|
    {
      ChainInArena(0, |chain|);
      len := 0;
      var k := 0;
      while k < |chain|
        invariant 0 <= k <= |chain|
        invariant InArena(pool.chunks, chain[..k])
        invariant len == |Flatten(pool.chunks, chain[..k])|
      {
        FlattenSplit(pool.chunks, chain, k);
        len := len + pool.chunks[chain[k]].Len();
        k := k + 1;
      }
      assert chain[..k] == chain;
    }

    /**
     * `riovec(iov, iovcnt)`: describe the unread region of each chunk from
     * `head`, one entry per chunk, until `iovcnt` entries are filled or the
     * chain ends; the number filled is returned and the rest of `iov` is
     * left alone.  The filled entries describe, in order, a prefix of the
     * buffered bytes that the chunks not described complete.
     */
    method Riovec(iov: array<IoVec>, iovcnt: int) returns (cnt: nat)
      requires Valid() && iovcnt <= iov.Length
      modifies iov
      ensures cnt == Min(Max(iovcnt, 0), |chain|)
      ensures iov[..cnt] == IoVecs(pool.chunks, chain[..cnt])
      ensures iov[cnt..] == old(iov[cnt..])
      ensures forall k :: 0 <= k < cnt ==> InBounds(pool.chunks, iov[k])
      ensures Gather(pool.chunks, iov[..cnt]) + Flatten(pool.chunks, chain[cnt..]) == Contents()
    {
      cnt := 0;
      while cnt < iovcnt && cnt < |chain|
        invariant 0 <= cnt <= |chain| && cnt <= Max(iovcnt, 0)
        invariant forall k :: 0 <= k < cnt ==> iov[k] == IoVecOf(pool.chunks, chain[k])
        invariant iov[cnt..] == old(iov[cnt..])
      {
        iov[cnt] := IoVecOf(pool.chunks, chain[cnt]);
        cnt := cnt + 1;
      }
      ghost var a, l := pool.chunks, chain;
      assert InArena(a, l) && InArena(a, l[..cnt]) by { ChainInArena(0, cnt); }
      assert iov[..cnt] == IoVecs(a, l[..cnt]);
      GatherPrefix(a, l, cnt);
    }

    /**
     * `~Memchunks()`: walk the chain from `head` to `tail`, recycling every
     * chunk.  The pool's free list then starts with the chain reversed, the
     * former tail on top, in front of what it held before; nothing else in
     * the pool changes.
     */
    method Destroy()
      requires Valid()
      modifies pool`freelist
      ensures pool.Valid()
      ensures pool.freelist == Reverse(chain) + old(pool.freelist)
    {
      ghost var f0 := pool.freelist;
      var k := 0;
      while k < |chain|
        invariant 0 <= k <= |chain|
        invariant pool.Valid() && Held(pool.chunks, chain, f0)
        invariant pool.freelist == Reverse(chain[..k]) + f0
      {
        RecycleStep(pool.chunks, chain, f0, k);
        pool.Recycle(chain[k]);
        k := k + 1;
      }
      assert chain[..k] == chain;
    }

    /**
     * Unlink the head chunk, read to its end, and recycle it: its read
     * cursor meets its write cursor, it goes on top of the free list, and
     * the chain continues from its `next`.  Returns the bytes it held.
     */
    method ReleaseHead() returns (n: nat)
      requires Valid() && chain != []
      modifies this, pool`chunks, pool`freelist
      ensures Valid()
      ensures var h := old(chain[0]); var c := old(pool.chunks[chain[0]]);
        n == c.Len() && chain == old(chain[1..]) &&
        pool.freelist == [h] + old(pool.freelist) &&
        pool.chunks == old(pool.chunks)[h := c.(begin := c.last)]
    {
      var h := chain[0];
      ghost var a0, l0, f0 := pool.chunks, chain, pool.freelist;
      HeadRelease(a0, l0, f0);
      n := pool.chunks[h].Len();
      pool.Store(h, pool.chunks[h].Consume(n));
      pool.Recycle(h);
      chain := chain[1..];
    }

    /** Advance the head chunk's read cursor by `n`, fewer bytes than it holds. */
    method ConsumeHead(n: nat)
      requires Valid() && chain != [] && n < pool.chunks[chain[0]].Len()
      modifies pool`chunks
      ensures Valid()
      ensures pool.chunks == old(pool.chunks)[chain[0] := old(pool.chunks[chain[0]]).Consume(n)]
    {
      ghost var a0, l0, f0 := pool.chunks, chain, pool.freelist;
      var h := chain[0];
      pool.Store(h, pool.chunks[h].Consume(n));
      assert l0[..0] == [] && l0[0..] == l0 && Reverse([]) + f0 == f0;
      HeldRest(a0, pool.chunks, l0, f0, 0);
    }

    /**
     * The first phase of a read of `count` bytes: unlink and recycle, from
     * `head`, every chunk whose unread bytes all fit in what is still
     * wanted.  Returns the bytes they held and (as a proof aid) how many
     * chunks went; the chunk at the head afterwards, if any, holds more
     * than the bytes still wanted.
     */
    method ReleaseWhole(count: nat) returns (ndata: nat, ghost done: seq<nat>)
      requires Valid()
      modifies this, pool`chunks, pool`freelist
      ensures Valid()
      ensures Drained(old(pool.chunks), old(chain), old(pool.freelist), done, pool.chunks, chain, pool.freelist, ndata)
      ensures ndata <= count
      ensures chain != [] ==> chain[0] < |old(pool.chunks)| && old(pool.chunks)[chain[0]].Valid()
      ensures chain != [] ==> count - ndata < old(pool.chunks)[chain[0]].Len()
    {
      ghost var a0, l0, f0 := pool.chunks, chain, pool.freelist;
      done := [];
      ndata := 0;
      DrainedStart(a0, l0, f0);
      while chain != [] && pool.chunks[chain[0]].Len() <= count - ndata
        invariant Valid()
        invariant Drained(a0, l0, f0, done, pool.chunks, chain, pool.freelist, ndata)
        invariant ndata <= count
      {
        ghost var h := chain[0];
        DrainedStep(a0, l0, f0, done, pool.chunks, chain, pool.freelist, ndata);
        var n := ReleaseHead();
        ndata := ndata + n;
        done := done + [h];
      }
      if chain != [] {
        DrainedHead(a0, l0, f0, done, pool.chunks, chain, pool.freelist, ndata);
      }
    }

    /**
     * `drain(count)`: discard up to `count` bytes from the front of the
     * buffer without copying them.  Chunks read to their end are unlinked
     * from `head` and recycled one by one; a chunk left partly unread stays
     * at the head with its read cursor advanced.  Returns the number of
     * bytes discarded, `count` or all there are if fewer; the chunks of
     * the pool outside this buffer do not change, and nothing is allocated.
     */
    method Drain(count: nat) returns (ndata: nat)
      requires Valid()
      modifies this, pool`chunks, pool`freelist
      ensures Valid()
      ensures ReadOutcome(old(pool.chunks), old(chain), old(pool.freelist), pool.chunks, chain, pool.freelist, ndata, count)
    {
      ghost var a0, l0, f0 := pool.chunks, chain, pool.freelist;
      ghost var done;
      ndata, done := ReleaseWhole(count);
      if chain != [] {
        DrainedPartial(a0, l0, f0, done, pool.chunks, chain, pool.freelist, ndata, count);
        ConsumeHead(count - ndata);
        ndata := count;
      } else {
        DrainedAll(a0, l0, f0, done, pool.chunks, pool.freelist, ndata, count);
      }
    }

    /**
     * The first phase of `remove(dest, count)`: take the unread bytes of,
     * then unlink and recycle, every chunk from `head` whose unread bytes
     * all fit in what is still wanted.  Returns the bytes taken, in order,
     * and (as a proof aid) the chunks released.
     */
    method RemoveWhole(count: nat) returns (out: seq<byte>, ghost done: seq<nat>)
      requires Valid()
      modifies this, pool`chunks, pool`freelist
      ensures Valid()
      ensures Drained(old(pool.chunks), old(chain), old(pool.freelist), done, pool.chunks, chain, pool.freelist, |out|)
      ensures |out| <= count && out == Flatten(old(pool.chunks), done)
      ensures chain != [] ==> chain[0] < |old(pool.chunks)| && old(pool.chunks)[chain[0]].Valid()
      ensures chain != [] ==> count - |out| < old(pool.chunks)[chain[0]].Len()
    {
      ghost var a0, l0, f0 := pool.chunks, chain, pool.freelist;
      done := [];
      out := [];
      DrainedStart(a0, l0, f0);
      while chain != [] && pool.chunks[chain[0]].Len() <= count - |out|
        invariant Valid()
        invariant Drained(a0, l0, f0, done, pool.chunks, chain, pool.freelist, |out|)
        invariant |out| <= count && out == Flatten(a0, done)
      {
        var h := chain[0];
        DrainedStep(a0, l0, f0, done, pool.chunks, chain, pool.freelist, |out|);
        out := out + pool.chunks[h].Data();
        var n := ReleaseHead();
        done := done + [h];
      }
      if chain != [] {
        DrainedHead(a0, l0, f0, done, pool.chunks, chain, pool.freelist, |out|);
      }
    }

    /** Store `out` at the start of `dest`; the rest of `dest` stays as it was. */
    static method CopyOut(dest: array<byte>, out: seq<byte>)
      requires |out| <= dest.Length
      modifies dest
      ensures dest[..] == out + old(dest[..])[|out|..]
    {
      forall i | 0 <= i < |out| {
        dest[i] := out[i];
      }
      assert forall i :: 0 <= i < dest.Length ==> dest[..][i] == (out + old(dest[..])[|out|..])[i];
    }

    /**
     * The reading half of `remove(dest, count)`: release the chunks the
     * read uses up and advance the head's read cursor past the rest,
     * returning the bytes read, in order.
     */
    method RemoveBytes(count: nat) returns (out: seq<byte>)
      requires Valid()
      modifies this, pool`chunks, pool`freelist
      ensures Valid()
      ensures ReadOutcome(old(pool.chunks), old(chain), old(pool.freelist), pool.chunks, chain, pool.freelist, |out|, count)
      ensures out == old(Contents())[..|out|]
    {
      ghost var a0, l0, f0 := pool.chunks, chain, pool.freelist;
      ghost var done;
      out, done := RemoveWhole(count);
      if chain != [] {
        DrainedPartial(a0, l0, f0, done, pool.chunks, chain, pool.freelist, |out|, count);
        var h, m := chain[0], count - |out|;
        out := out + pool.chunks[h].Data()[..m];
        ConsumeHead(m);
      } else {
        DrainedAll(a0, l0, f0, done, pool.chunks, pool.freelist, |out|, count);
      }
    }

    /**
     * `remove(dest, count)`: copy up to `count` bytes from the front of
     * the buffer into `dest`, which has room for `count`, in order, and
     * discard them with the chunk release of `drain`.  Returns the number
     * of bytes copied, `count` or all there are if fewer; the rest of
     * `dest` is left alone.
     */
    method Remove(dest: array<byte>, count: nat) returns (nread: nat)
      requires Valid() && count <= dest.Length
      modifies this, pool`chunks, pool`freelist, dest
      ensures Valid()
      ensures ReadOutcome(old(pool.chunks), old(chain), old(pool.freelist), pool.chunks, chain, pool.freelist, nread, count)
      ensures dest[..] == old(Contents())[..nread] + old(dest[..])[nread..]
    {
      var out := RemoveBytes(count);
      CopyOut(dest, out);
      nread := |out|;
    }

    /** Write `src`, which fits in the tail chunk's free space, after the tail chunk's bytes. */
    method WriteToTail(src: seq<byte>)
      requires Valid() && chain != [] && |src| <= Room()
      modifies pool`chunks
      ensures Valid()
      ensures Appended(old(pool.chunks), chain, pool.freelist, pool.chunks, chain, pool.freelist, src)
      ensures var t := chain[|chain| - 1]; pool.chunks == old(pool.chunks)[t := old(pool.chunks[t]).Write(src)]
    {
      ghost var a := pool.chunks;
      var t := chain[|chain| - 1];
      AppendedTail(a, chain, pool.freelist, src);
      pool.Store(t, pool.chunks[t].Write(src));
      assert pool.chunks == a[t := a[t].Write(src)];
    }

    /**
     * Obtain a chunk from the pool, write `src` (at least one byte, at
     * most N) into it and link it after the tail, whose free space is used
     * up, as the new tail.
     */
    method AppendChunk(src: seq<byte>)
      requires Valid() && Room() == 0 && 0 < |src| <= pool.size
      modifies this, pool
      ensures Valid() && |chain| == old(|chain|) + 1
      ensures Appended(old(pool.chunks), old(chain), old(pool.freelist), pool.chunks, chain, pool.freelist, src)
    {
      ghost var a0, l0, f0 := pool.chunks, chain, pool.freelist;
      var m := pool.Get();
      AppendedChunk(a0, l0, f0, pool.chunks, pool.freelist, m, src);
      pool.Store(m, pool.chunks[m].Write(src));
      chain := chain + [m];
    }

    /**
     * `append(src, count)`: write `src` at the end of the buffer.  While
     * bytes remain, when there is no tail or its free space is used up, a
     * chunk obtained from the pool is linked as the new tail; as many of
     * the remaining bytes as fit go into the tail's free space.  So the
     * buffer holds `src` after what it held, every chunk but the tail is
     * filled to capacity (`Valid`), and a new chunk is started only for
     * bytes that do not fit in the old tail.
     */
    method Append(src: seq<byte>)
      requires Valid()
      modifies this, pool
      ensures Valid()
      ensures Appended(old(pool.chunks), old(chain), old(pool.freelist), pool.chunks, chain, pool.freelist, src)
      ensures |chain| > old(|chain|) ==> old(Room()) < |src|
      ensures |src| <= old(Room()) ==>
        chain == old(chain) && |pool.chunks| == old(|pool.chunks|) && pool.freelist == old(pool.freelist)
    {
      ghost var a0, l0, f0 := pool.chunks, chain, pool.freelist;
      AppendedStart(a0, l0, f0);
      var off := 0;
      while off < |src|
        invariant off <= |src| && Valid()
        invariant Appended(a0, l0, f0, pool.chunks, chain, pool.freelist, src[..off])
        decreases |src| - off
      {
        var k := AppendRound(a0, l0, f0, src, off);
        off := off + k;
      }
      AppendedEnd(a0, l0, f0, pool.chunks, chain, pool.freelist, src, off, pool.size);
    }

    /**
     * A round of `append` (`AppendStep`) on the bytes of `src` after the
     * first `off`, which an earlier run already appended: the whole run
     * has then appended the first `off + k`.
     */
    method AppendRound(ghost a0: seq<Chunk>, ghost l0: seq<nat>, ghost f0: seq<nat>, src: seq<byte>, off: nat)
      returns (k: nat)
      requires Valid() && off < |src| && InArena(a0, l0)
      requires Appended(a0, l0, f0, pool.chunks, chain, pool.freelist, src[..off])
      modifies this, pool
      ensures Valid() && 0 < k <= |src| - off
      ensures Appended(a0, l0, f0, pool.chunks, chain, pool.freelist, src[..off + k])
    {
      ghost var a, l, f := pool.chunks, chain, pool.freelist;
      k := AppendStep(src[off..]);
      AppendedMore(a0, l0, f0, a, l, f, pool.chunks, chain, pool.freelist, src, off, k);
    }

    /**
     * One round of `append`: when there is no tail or its free space is
     * used up, link a new chunk from the pool as the tail; then write as
     * many of the bytes `rest` as fit into the tail's free space.  Returns
     * how many were written.
     */
    method AppendStep(rest: seq<byte>) returns (k: nat)
      requires Valid() && rest != []
      modifies this, pool
      ensures Valid() && 0 < k <= |rest|
      ensures Appended(old(pool.chunks), old(chain), old(pool.freelist), pool.chunks, chain, pool.freelist, rest[..k])
      ensures old(Room()) == 0 ==> k == Min(|rest|, pool.size) && |chain| == old(|chain|) + 1
      ensures old(Room()) > 0 ==> k == Min(|rest|, old(Room())) && chain == old(chain)
    {
      if chain == [] || pool.chunks[chain[|chain| - 1]].Left() == 0 {
        k := Min(|rest|, pool.size);
        AppendChunk(rest[..k]);
      } else {
        k := Min(|rest|, pool.chunks[chain[|chain| - 1]].Left());
        WriteToTail(rest[..k]);
      }
    }

    /** `append_cstr(s)`: append the bytes of the NUL-terminated string `s` before its NUL. */
    method AppendCstr(s: seq<byte>)
      requires Valid() && 0 in s
      modifies this, pool
      ensures Valid()
      ensures Appended(old(pool.chunks), old(chain), old(pool.freelist), pool.chunks, chain, pool.freelist, s[..Strlen(s)])
    {
      Append(s[..Strlen(s)]);
    }
  }
}
