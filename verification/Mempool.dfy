/**
  The bump allocator of mempool.h on a 64-bit machine. Addresses are numbers, `mem` is the
  byte contents of the chunks that malloc delivered. The block list records every request
  answered so far; the invariant is about all of them.
 */
module Mempools {
  import opened Octets
  import opened SeqFacts

  const ALIGN: nat := 8
  const POOL_HEADER: nat := 32
  const NODE_HEADER: nat := 8
  const TWO32: nat := 0x1_0000_0000
  const TWO64: nat := 0x1_0000_0000_0000_0000

  /** align_num and align_ptr in 64-bit arithmetic. */
  function Align(n: nat): nat {
    ((n + 7) % TWO64) / ALIGN * ALIGN
  }

  /** The pointer difference `a - b` cast to size_t. */
  function Minus(a: nat, b: nat): nat {
    (a as int - b as int) % TWO64
  }

  lemma AlignIsNext(n: nat)
    requires n + 7 < TWO64
    ensures n <= Align(n) < n + 8 && Align(n) % 8 == 0
    ensures forall m: nat :: m % 8 == 0 && n <= m ==> Align(n) <= m
  {
  }

  /** The padded node size holds `n` bytes past the header exactly when the padding does not wrap. */
  lemma PaddingFits(n: nat)
    requires n < TWO64
    ensures n + NODE_HEADER <= Align((n + NODE_HEADER) % TWO64) <==> n + NODE_HEADER + 7 < TWO64
  {
  }

  /** The same of the pool itself. */
  lemma PoolPaddingFits(n: nat)
    requires n < TWO64
    ensures n + POOL_HEADER <= Align((n + POOL_HEADER) % TWO64) <==> n + POOL_HEADER + 7 < TWO64
  {
  }

  /** Rounding up does not pass an aligned bound. */
  lemma AlignWithin(n: nat, bound: nat)
    requires n <= bound && bound % 8 == 0 && bound + 7 < TWO64
    ensures n <= Align(n) <= bound
  {
    AlignIsNext(n);
  }

  lemma MinusIs(a: nat, b: nat)
    requires b <= a < TWO64
    ensures Minus(a, b) == a - b
  {
  }

  /** A region obtained from malloc; its first `header` bytes are not for callers. */
  datatype Chunk = Chunk(base: nat, size: nat, header: nat)

  /** An answered request, inside chunk number `chunk`. */
  datatype Block = Block(ptr: nat, size: nat, chunk: nat)

  predicate Apart(a: nat, n: nat, b: nat, m: nat) {
    a + n <= b || b + m <= a
  }

  /** What malloc yields: aligned memory inside the address space, apart from all memory in use. */
  ghost predicate Mallocs(chunks: seq<Chunk>, c: Chunk) {
    && c.base > 0 && c.base % 8 == 0 && c.base + c.size < TWO64
    && (forall i :: 0 <= i < |chunks| ==> Apart(chunks[i].base, chunks[i].size, c.base, c.size))
  }

  ghost predicate ChunksOk(chunks: seq<Chunk>) {
    && (forall i :: 0 <= i < |chunks| ==>
          var c := chunks[i];
          c.base > 0 && c.base % 8 == 0 && c.size % 8 == 0 && c.header % 8 == 0 && c.header <= c.size
          && c.base + c.size < TWO64)
    && (forall i, j :: 0 <= i < j < |chunks| ==>
          Apart(chunks[i].base, chunks[i].size, chunks[j].base, chunks[j].size))
  }

  /** Every block is aligned and lies wholly inside its chunk, past the header. */
  ghost predicate Inside(chunks: seq<Chunk>, b: Block) {
    && b.size >= 1 && b.ptr % 8 == 0 && b.chunk < |chunks|
    && chunks[b.chunk].base + chunks[b.chunk].header <= b.ptr
    && b.ptr + b.size <= chunks[b.chunk].base + chunks[b.chunk].size
  }

  ghost predicate BlocksOk(chunks: seq<Chunk>, blocks: seq<Block>) {
    && (forall k :: 0 <= k < |blocks| ==> Inside(chunks, blocks[k]))
    && (forall j, k :: 0 <= j < k < |blocks| ==> Apart(blocks[j].ptr, blocks[j].size, blocks[k].ptr, blocks[k].size))
  }

  /** `last` and `tail` delimit the unused rest of the newest chunk. */
  ghost predicate RestOk(chunks: seq<Chunk>, blocks: seq<Block>, last: nat, tail: nat) {
    && chunks != []
    && (var c := chunks[|chunks| - 1];
        c.base + c.header <= last <= tail && tail == c.base + c.size)
    && (forall k :: 0 <= k < |blocks| && blocks[k].chunk == |chunks| - 1 ==> blocks[k].ptr + blocks[k].size <= last)
  }

  /** The room test of _mp_malloc, with its unsigned subtraction. */
  predicate FitsRest(max: nat, last: nat, tail: nat, size: nat) {
    size < max && Minus(tail, Align(last)) > size
  }

  /** The subtraction never wraps, so the room test means that the block ends before the chunk does. */
  lemma RestNeverWraps(chunks: seq<Chunk>, blocks: seq<Block>, last: nat, tail: nat, max: nat, size: nat)
    requires ChunksOk(chunks) && RestOk(chunks, blocks, last, tail)
    ensures Align(last) <= tail && Minus(tail, Align(last)) == tail - Align(last)
    ensures FitsRest(max, last, tail, size) <==> size < max && Align(last) + size < tail
  {
    var c := chunks[|chunks| - 1];
    AlignedEnd(c.base, c.size);
    AlignWithin(last, tail);
    MinusIs(tail, Align(last));
  }

  lemma AlignedEnd(base: nat, size: nat)
    requires base % 8 == 0 && size % 8 == 0 && base + size < TWO64
    ensures (base + size) % 8 == 0 && base + size + 7 < TWO64
  {
  }

  lemma BumpKeeps(chunks: seq<Chunk>, blocks: seq<Block>, last: nat, tail: nat, size: nat)
    requires ChunksOk(chunks) && BlocksOk(chunks, blocks) && RestOk(chunks, blocks, last, tail)
    requires size >= 1 && Align(last) + size <= tail
    ensures var b := Block(Align(last), size, |chunks| - 1);
            BlocksOk(chunks, blocks + [b]) && RestOk(chunks, blocks + [b], Align(last) + size, tail)
  {
    AlignIsNext(last);
    var b := Block(Align(last), size, |chunks| - 1);
    forall k | 0 <= k < |blocks|
      ensures Apart(blocks[k].ptr, blocks[k].size, b.ptr, b.size)
    {
      assert Inside(chunks, blocks[k]);
      if blocks[k].chunk != |chunks| - 1 {
        assert Apart(chunks[blocks[k].chunk].base, chunks[blocks[k].chunk].size,
                     chunks[|chunks| - 1].base, chunks[|chunks| - 1].size);
      }
    }
  }

  lemma NewChunkKeeps(chunks: seq<Chunk>, blocks: seq<Block>, c: Chunk, size: nat)
    requires ChunksOk(chunks) && BlocksOk(chunks, blocks)
    requires Mallocs(chunks, c) && c.size % 8 == 0 && c.header % 8 == 0 && c.header + size <= c.size && size >= 1
    ensures var cs, b := chunks + [c], Block(c.base + c.header, size, |chunks|);
            && ChunksOk(cs) && BlocksOk(cs, blocks + [b])
            && RestOk(cs, blocks + [b], b.ptr + size, c.base + c.size)
  {
    var cs, b := chunks + [c], Block(c.base + c.header, size, |chunks|);
    forall k | 0 <= k < |blocks|
      ensures Inside(cs, blocks[k]) && Apart(blocks[k].ptr, blocks[k].size, b.ptr, b.size)
    {
      assert Inside(chunks, blocks[k]);
      var d := chunks[blocks[k].chunk];
      assert Apart(d.base, d.size, c.base, c.size);
    }
  }

  // ---------------------------------------------------------------- memory contents

  /** Every byte of every chunk is readable. */
  ghost predicate Covers(mem: map<nat, octet>, chunks: seq<Chunk>) {
    forall i, a :: 0 <= i < |chunks| && chunks[i].base <= a < chunks[i].base + chunks[i].size ==> a in mem
  }

  ghost predicate Readable(mem: map<nat, octet>, ptr: nat, n: nat) {
    forall a :: ptr <= a < ptr + n ==> a in mem
  }

  /** The `n` bytes at `ptr`. */
  function Bytes(mem: map<nat, octet>, ptr: nat, n: nat): (s: seq<octet>)
    requires Readable(mem, ptr, n)
  {
    seq(n, i requires 0 <= i < n => mem[ptr + i])
  }

  /** `mem` after the bytes `s` were written at `ptr`. */
  function Write(mem: map<nat, octet>, ptr: nat, s: seq<octet>): map<nat, octet> {
    mem + (map a: nat | ptr <= a < ptr + |s| && Within(a, ptr, |s|) :: s[a - ptr])
  }

  predicate Within(a: nat, ptr: nat, n: nat) {
    ptr <= a < ptr + n
  }

  lemma WriteThenRead(mem: map<nat, octet>, ptr: nat, s: seq<octet>, p: nat, n: nat)
    ensures Readable(Write(mem, ptr, s), ptr, |s|) && Bytes(Write(mem, ptr, s), ptr, |s|) == s
    ensures Readable(mem, p, n) && Apart(ptr, |s|, p, n) ==>
              Readable(Write(mem, ptr, s), p, n) && Bytes(Write(mem, ptr, s), p, n) == Bytes(mem, p, n)
  {
  }

  function Zeros(n: nat): seq<octet> {
    seq(n, _ => 0)
  }

  lemma BlockReadable(mem: map<nat, octet>, chunks: seq<Chunk>, blocks: seq<Block>, k: nat)
    requires Covers(mem, chunks) && BlocksOk(chunks, blocks) && k < |blocks|
    ensures Readable(mem, blocks[k].ptr, blocks[k].size)
  {
    assert Inside(chunks, blocks[k]);
    var c := chunks[blocks[k].chunk];
    forall a | blocks[k].ptr <= a < blocks[k].ptr + blocks[k].size
      ensures a in mem
    {
      assert c.base <= a < c.base + c.size;
    }
  }

  /** Contents of an earlier block after bytes were written into the newest one. */
  ghost predicate OthersKept(mem: map<nat, octet>, mem': map<nat, octet>, blocks: seq<Block>) {
    forall k :: 0 <= k < |blocks| ==>
                  && Readable(mem, blocks[k].ptr, blocks[k].size)
                  && Readable(mem', blocks[k].ptr, blocks[k].size)
                  && Bytes(mem', blocks[k].ptr, blocks[k].size) == Bytes(mem, blocks[k].ptr, blocks[k].size)
  }

  lemma WriteKeepsOthers(mem: map<nat, octet>, chunks: seq<Chunk>, blocks: seq<Block>, ptr: nat, s: seq<octet>)
    requires Covers(mem, chunks) && BlocksOk(chunks, blocks)
    requires forall k :: 0 <= k < |blocks| ==> Apart(ptr, |s|, blocks[k].ptr, blocks[k].size)
    ensures OthersKept(mem, Write(mem, ptr, s), blocks) && Covers(Write(mem, ptr, s), chunks)
  {
    forall k | 0 <= k < |blocks|
      ensures && Readable(mem, blocks[k].ptr, blocks[k].size)
              && Readable(Write(mem, ptr, s), blocks[k].ptr, blocks[k].size)
              && Bytes(Write(mem, ptr, s), blocks[k].ptr, blocks[k].size)
                 == Bytes(mem, blocks[k].ptr, blocks[k].size)
    {
      BlockReadable(mem, chunks, blocks, k);
      WriteThenRead(mem, ptr, s, blocks[k].ptr, blocks[k].size);
    }
  }

  lemma NewChunkApart(chunks: seq<Chunk>, blocks: seq<Block>, c: Chunk)
    requires BlocksOk(chunks, blocks) && Mallocs(chunks, c)
    ensures forall k :: 0 <= k < |blocks| ==> Apart(c.base, c.size, blocks[k].ptr, blocks[k].size)
  {
    forall k | 0 <= k < |blocks|
      ensures Apart(c.base, c.size, blocks[k].ptr, blocks[k].size)
    {
      assert Inside(chunks, blocks[k]);
      assert Apart(chunks[blocks[k].chunk].base, chunks[blocks[k].chunk].size, c.base, c.size);
    }
  }

  function Larger(max: nat, size: nat): nat {
    if size > max then size else max
  }

  /** A size stored in the 32-bit field `max`. */
  function Low32(n: nat): (r: nat)
    ensures r < TWO32 && (n < TWO32 ==> r == n) && (n - r) % TWO32 == 0
  {
    n % TWO32
  }

  /** The size _mp_alloc_node asks malloc for. */
  function NodeSize(max: nat, size: nat): nat {
    Align((Larger(max, size) + NODE_HEADER) % TWO64)
  }

  lemma NodeSizeHolds(max: nat, size: nat)
    requires max < TWO32 && size < TWO64 - NODE_HEADER - 7
    ensures NodeSize(max, size) % 8 == 0 && NODE_HEADER + size <= NodeSize(max, size)
  {
    AlignIsNext(Larger(max, size) + NODE_HEADER);
  }

  /**
    A node is made for the larger of the request and the largest so far: it holds either past
    its header, and has fewer than eight bytes more than it needs.
   */
  lemma NodeSizeIsLarger(max: nat, size: nat)
    requires max < TWO32 && size < TWO64 - NODE_HEADER - 7
    ensures NODE_HEADER + max <= NodeSize(max, size) && NODE_HEADER + size <= NodeSize(max, size)
    ensures NodeSize(max, size) < NODE_HEADER + max + 8 || NodeSize(max, size) < NODE_HEADER + size + 8
  {
    AlignIsNext(Larger(max, size) + NODE_HEADER);
  }

  /** The node asked for has room for the request exactly when the padding does not wrap, whatever `max` is. */
  lemma NodeHoldsExactly(max: nat, size: nat)
    requires max < TWO32 && size < TWO64
    ensures NODE_HEADER + size <= NodeSize(max, size) <==> size + NODE_HEADER + 7 < TWO64
  {
    PaddingFits(size);
    if size + NODE_HEADER + 7 < TWO64 {
      NodeSizeHolds(max, size);
    }
  }

  lemma AlignedAlready(n: nat)
    requires n % 8 == 0 && n + 7 < TWO64
    ensures Align(n) == n
  {
  }

  lemma NewChunkCovered(mem: map<nat, octet>, chunks: seq<Chunk>, c: Chunk, s: seq<octet>)
    requires Covers(mem, chunks) && |s| == c.size
    ensures Covers(Write(mem, c.base, s), chunks + [c])
  {
  }

  /** Everything a new node with its first block of `n` bytes has to keep. */
  lemma NewNodeKeeps(mem: map<nat, octet>, chunks: seq<Chunk>, blocks: seq<Block>, c: Chunk, n: nat, s: seq<octet>)
    requires ChunksOk(chunks) && BlocksOk(chunks, blocks) && Covers(mem, chunks)
    requires Mallocs(chunks, c) && c.size % 8 == 0 && c.header % 8 == 0 && c.header + n <= c.size && n >= 1
    requires |s| == c.size
    ensures var cs, bs := chunks + [c], blocks + [Block(c.base + c.header, n, |chunks|)];
            && ChunksOk(cs) && BlocksOk(cs, bs)
            && RestOk(cs, bs, c.base + c.header + n, c.base + c.size)
            && Covers(Write(mem, c.base, s), cs)
            && OthersKept(mem, Write(mem, c.base, s), blocks)
  {
    NewChunkKeeps(chunks, blocks, c, n);
    NewChunkApart(chunks, blocks, c);
    WriteKeepsOthers(mem, chunks, blocks, c.base, s);
    NewChunkCovered(mem, chunks, c, s);
  }

  /** What holds of a pool at all times. */
  ghost predicate PoolOk(max: nat, last: nat, tail: nat, mem: map<nat, octet>, chunks: seq<Chunk>, blocks: seq<Block>) {
    && max < TWO32
    && ChunksOk(chunks)
    && BlocksOk(chunks, blocks)
    && RestOk(chunks, blocks, last, tail)
    && Covers(mem, chunks)
  }

  /** The pool after a block of `size` bytes from the rest of the newest chunk. */
  lemma BumpedOk(max: nat, last: nat, tail: nat, mem: map<nat, octet>, chunks: seq<Chunk>, blocks: seq<Block>, size: nat)
    requires PoolOk(max, last, tail, mem, chunks, blocks) && size >= 1 && Align(last) + size <= tail
    ensures PoolOk(max, Align(last) + size, tail, mem, chunks, blocks + [Block(Align(last), size, |chunks| - 1)])
    ensures OthersKept(mem, mem, blocks)
  {
    BumpKeeps(chunks, blocks, last, tail, size);
    AllReadable(mem, chunks, blocks);
  }

  /** The pool after a new node for `n` bytes. */
  lemma NodeAdded(max: nat, last: nat, tail: nat, mem: map<nat, octet>, chunks: seq<Chunk>, blocks: seq<Block>,
                  n: nat, r: Region)
    requires PoolOk(max, last, tail, mem, chunks, blocks) && 1 <= n < TWO64 - NODE_HEADER - 7
    requires |r.contents| == NodeSize(max, n) && Mallocs(chunks, Chunk(r.base, NodeSize(max, n), NODE_HEADER))
    ensures var p, c, m := r.base + NODE_HEADER, Chunk(r.base, NodeSize(max, n), NODE_HEADER), Write(mem, r.base, r.contents);
            && Align(p) == p
            && PoolOk(Low32(Larger(max, n)), p + n, r.base + c.size, m, chunks + [c], blocks + [Block(p, n, |chunks|)])
            && OthersKept(mem, m, blocks)
  {
    NodeSizeHolds(max, n);
    AlignedAlready(r.base + NODE_HEADER);
    NewNodeKeeps(mem, chunks, blocks, Chunk(r.base, NodeSize(max, n), NODE_HEADER), n, r.contents);
  }

  /** The memory malloc yielded happens to be zero where the block of a new node lies. */
  predicate ZeroAlready(size: nat, r: Option<Region>) {
    && r.Some? && NODE_HEADER + size <= |r.value.contents|
    && r.value.contents[NODE_HEADER..NODE_HEADER + size] == Zeros(size)
  }

  /** Exactly when a block that mempool_calloc returns is zero. */
  lemma ZeroedExactly(before: map<nat, octet>, after: map<nat, octet>, p: nat, size: nat, fits: bool, r: Option<Region>)
    requires r.Some? ==> NODE_HEADER + size <= |r.value.contents|
    requires fits ==> after == Write(before, p, Zeros(size))
    requires !fits ==> r.Some? && p == r.value.base + NODE_HEADER && after == Write(before, r.value.base, r.value.contents)
    ensures Readable(after, p, size)
    ensures Bytes(after, p, size) == Zeros(size) <==> fits || ZeroAlready(size, r)
  {
    if fits {
      WriteThenRead(before, p, Zeros(size), 0, 0);
    } else {
      WrittenPart(before, r.value.base, r.value.contents, NODE_HEADER, size);
    }
  }

  /** Memory from malloc: where it is, and what happens to be in it. */
  datatype Region = Region(base: nat, contents: seq<octet>)

  class Mempool {
    var max: nat
    var last: nat
    var tail: nat
    /** The list of extra nodes, newest first. */
    var nodes: seq<nat>
    var mem: map<nat, octet>
    ghost var chunks: seq<Chunk>
    ghost var blocks: seq<Block>

    ghost predicate Valid()
      reads this
    {
      PoolOk(max, last, tail, mem, chunks, blocks)
    }

    constructor (size: nat, r: Region)
      requires 1 <= size < TWO64 - POOL_HEADER - 7
      requires |r.contents| == Align(size + POOL_HEADER)
      requires Mallocs([], Chunk(r.base, |r.contents|, POOL_HEADER))
      ensures Valid() && blocks == [] && nodes == [] && max == Low32(size) && last == r.base + POOL_HEADER
      ensures chunks == [Chunk(r.base, |r.contents|, POOL_HEADER)]
    {
      AlignIsNext(size + POOL_HEADER);
      max := Low32(size);
      last := r.base + POOL_HEADER;
      tail := r.base + |r.contents|;
      nodes, mem := [], Write(map[], r.base, r.contents);
      chunks, blocks := [Chunk(r.base, |r.contents|, POOL_HEADER)], [];
    }

    /** mempool_create; `r` is what malloc yields. */
    static method Create(size: nat, r: Option<Region>) returns (mp: Mempool?)
      requires size < TWO64 - POOL_HEADER - 7
      requires size >= 1 && r.Some? ==> |r.value.contents| == Align(size + POOL_HEADER)
                                        && Mallocs([], Chunk(r.value.base, |r.value.contents|, POOL_HEADER))
      ensures mp == null <==> size < 1 || r.None?
      ensures mp != null ==>
                && fresh(mp) && mp.Valid() && mp.blocks == [] && mp.nodes == []
                && mp.max == Low32(size) && mp.last == r.value.base + POOL_HEADER
                && mp.chunks == [Chunk(r.value.base, |r.value.contents|, POOL_HEADER)]
    {
      if size < 1 || r.None? {
        return null;
      }
      mp := new Mempool(size, r.value);
    }

    /** _mp_alloc_node; `r` is what malloc yields. */
    method AllocNode(n: nat, r: Option<Region>) returns (ptr: Option<nat>)
      requires Valid() && 1 <= n < TWO64 - NODE_HEADER - 7
      requires r.Some? ==> |r.value.contents| == NodeSize(max, n)
                           && Mallocs(chunks, Chunk(r.value.base, NodeSize(max, n), NODE_HEADER))
      modifies this
      ensures Valid() && OthersKept(old(mem), mem, old(blocks))
      ensures r.None? ==> ptr.None? && unchanged(this)
      ensures r.Some? ==>
                && ptr == Some(r.value.base + NODE_HEADER) && last == ptr.value + n
                && blocks == old(blocks) + [Block(ptr.value, n, |old(chunks)|)]
                && chunks == old(chunks) + [Chunk(r.value.base, |r.value.contents|, NODE_HEADER)]
                && nodes == [r.value.base] + old(nodes)
                && max == Low32(Larger(old(max), n))
                && mem == Write(old(mem), r.value.base, r.value.contents)
      ensures r.Some? ==> tail - last >= old(max) - n && (n < TWO32 ==> max >= old(max) && max >= n)
    {
      if r.None? {
        AllReadable(mem, chunks, blocks);
        return None;
      }
      var p := AddNode(n, r.value);
      ptr := Some(p);
    }

    /** _mp_alloc_node once malloc has succeeded. */
    method AddNode(n: nat, r: Region) returns (p: nat)
      requires Valid() && 1 <= n < TWO64 - NODE_HEADER - 7
      requires |r.contents| == NodeSize(max, n) && Mallocs(chunks, Chunk(r.base, NodeSize(max, n), NODE_HEADER))
      modifies this
      ensures Valid() && OthersKept(old(mem), mem, old(blocks))
      ensures p == r.base + NODE_HEADER && last == p + n
      ensures blocks == old(blocks) + [Block(p, n, |old(chunks)|)]
      ensures chunks == old(chunks) + [Chunk(r.base, |r.contents|, NODE_HEADER)]
      ensures nodes == [r.base] + old(nodes) && max == Low32(Larger(old(max), n))
      ensures mem == Write(old(mem), r.base, r.contents)
      ensures tail - last >= old(max) - n && (n < TWO32 ==> max >= old(max) && max >= n)
    {
      var newsize := NodeSize(max, n);
      ghost var c := Chunk(r.base, newsize, NODE_HEADER);
      NodeSizeIsLarger(max, n);
      NodeAdded(max, last, tail, mem, chunks, blocks, n, r);
      mem := Write(mem, r.base, r.contents);
      nodes := [r.base] + nodes;
      p := Align(r.base + NODE_HEADER);
      last := p + n;
      tail := r.base + newsize;
      max := Low32(Larger(max, n));
      blocks := blocks + [Block(p, n, |chunks|)];
      chunks := chunks + [c];
    }

    /** What malloc may yield should this request need a new node. */
    ghost predicate Offers(size: nat, r: Option<Region>)
      reads this
    {
      r.Some? ==> |r.value.contents| == NodeSize(max, size)
                  && Mallocs(chunks, Chunk(r.value.base, NodeSize(max, size), NODE_HEADER))
    }

    /** _mp_malloc; mempool_alloc calls it with `zero` false. */
    method Malloc(size: nat, zero: bool, r: Option<Region>) returns (ptr: Option<nat>)
      requires Valid() && size < TWO64 - NODE_HEADER - 7 && Offers(size, r)
      modifies this
      ensures Valid() && OthersKept(old(mem), mem, old(blocks))
      ensures ptr.None? <==> size < 1 || (!FitsRest(old(max), old(last), old(tail), size) && r.None?)
      ensures ptr.None? ==> unchanged(this)
      ensures ptr.Some? ==> blocks == old(blocks) + [Block(ptr.value, size, |chunks| - 1)] && last == ptr.value + size
      ensures ptr.Some? && FitsRest(old(max), old(last), old(tail), size) ==>
                && ptr.value == Align(old(last))
                && chunks == old(chunks) && nodes == old(nodes) && max == old(max)
                && mem == if zero then Write(old(mem), ptr.value, Zeros(size)) else old(mem)
      ensures ptr.Some? && !FitsRest(old(max), old(last), old(tail), size) ==>
                && ptr.value == r.value.base + NODE_HEADER
                && chunks == old(chunks) + [Chunk(r.value.base, |r.value.contents|, NODE_HEADER)]
                && nodes == [r.value.base] + old(nodes) && max == Low32(Larger(old(max), size))
                && mem == Write(old(mem), r.value.base, r.value.contents)
    {
      if size < 1 {
        AllReadable(mem, chunks, blocks);
        return None;
      }
      if size < max {
        var p := Align(last);
        RestNeverWraps(chunks, blocks, last, tail, max, size);
        if Minus(tail, p) > size {
          Bump(p, size, zero);
          return Some(p);
        }
      }
      ptr := AllocNode(size, r);
    }

    /** The branch of _mp_malloc that stays in the newest chunk. */
    method Bump(p: nat, size: nat, zero: bool)
      requires Valid() && p == Align(last) && size >= 1 && p + size <= tail
      modifies this`last, this`blocks, this`mem
      ensures Valid() && OthersKept(old(mem), mem, old(blocks))
      ensures blocks == old(blocks) + [Block(p, size, |chunks| - 1)] && last == p + size
      ensures mem == if zero then Write(old(mem), p, Zeros(size)) else old(mem)
    {
      Advance(p, size);
      if zero {
        WriteNewest(p, Zeros(size), old(blocks));
      }
    }

    method Advance(p: nat, size: nat)
      requires Valid() && p == Align(last) && size >= 1 && p + size <= tail
      modifies this`last, this`blocks
      ensures Valid() && OthersKept(mem, mem, old(blocks))
      ensures blocks == old(blocks) + [Block(p, size, |chunks| - 1)] && last == p + size
    {
      BumpedOk(max, last, tail, mem, chunks, blocks, size);
      last := p + size;
      blocks := blocks + [Block(p, size, |chunks| - 1)];
    }

    /** Writing inside the newest block changes no other. */
    method WriteNewest(p: nat, s: seq<octet>, ghost others: seq<Block>)
      requires Valid() && blocks != [] && others == blocks[..|blocks| - 1]
      requires var b := blocks[|blocks| - 1]; b.ptr <= p && p + |s| <= b.ptr + b.size
      modifies this`mem
      ensures Valid() && mem == Write(old(mem), p, s) && OthersKept(old(mem), mem, others)
    {
      var b := blocks[|blocks| - 1];
      assert blocks == others + [b];
      OldBlocksOk(chunks, others, b);
      NewestApart(chunks, others, b);
      WriteKeepsOthers(mem, chunks, others, p, s);
      mem := Write(mem, p, s);
    }

    /** mempool_calloc: the block is zeroed unless it came from a new node that was not zero already. */
    method Calloc(size: nat, r: Option<Region>) returns (ptr: Option<nat>)
      requires Valid() && size < TWO64 - NODE_HEADER - 7 && Offers(size, r)
      modifies this
      ensures Valid() && OthersKept(old(mem), mem, old(blocks))
      ensures ptr.None? <==> size < 1 || (!FitsRest(old(max), old(last), old(tail), size) && r.None?)
      ensures ptr.None? ==> unchanged(this)
      ensures ptr.Some? ==>
                && blocks == old(blocks) + [Block(ptr.value, size, |chunks| - 1)]
                && Readable(mem, ptr.value, size)
                && (Bytes(mem, ptr.value, size) == Zeros(size) <==>
                    FitsRest(old(max), old(last), old(tail), size) || ZeroAlready(size, r))
    {
      ghost var fits := FitsRest(max, last, tail, size);
      NodeSizeHolds(max, size);
      ptr := Malloc(size, true, r);
      if ptr.Some? {
        ZeroedExactly(old(mem), mem, ptr.value, size, fits, r);
      }
    }

    /**
      mempool_realloc of the first `oldsize` bytes of block `k`: the new block begins with
      them and is zero after, and no earlier block changes.
     */
    method Realloc(ptr: Option<nat>, oldsize: nat, newsize: nat, r: Option<Region>, ghost k: nat)
      returns (newptr: Option<nat>)
      requires Valid() && newsize < TWO64 - NODE_HEADER - 7 && Offers(newsize, r)
      requires ptr.Some? && oldsize >= 1 ==> k < |blocks| && blocks[k].ptr == ptr.value && oldsize <= blocks[k].size
      modifies this
      ensures Valid() && OthersKept(old(mem), mem, old(blocks))
      ensures newptr.None? ==> unchanged(this)
      ensures newptr.None? <==> || ptr.None? || oldsize < 1 || newsize < 1
                                || (!FitsRest(old(max), old(last), old(tail), newsize) && r.None?)
      ensures newptr.Some? ==>
                var n := if oldsize < newsize then oldsize else newsize;
                && blocks == old(blocks) + [Block(newptr.value, newsize, |chunks| - 1)]
                && Readable(old(mem), ptr.value, n) && Readable(mem, newptr.value, newsize)
                && Bytes(mem, newptr.value, newsize) == Bytes(old(mem), ptr.value, n) + Zeros(newsize - n)
    {
      if ptr.None? || oldsize < 1 || newsize < 1 {
        AllReadable(mem, chunks, blocks);
        return None;
      }
      newptr := Regrow(ptr.value, if oldsize < newsize then oldsize else newsize, newsize, r, k);
    }

    /** mempool_realloc past its argument checks: `n` bytes are copied. */
    method Regrow(ptr: nat, n: nat, newsize: nat, r: Option<Region>, ghost k: nat) returns (newptr: Option<nat>)
      requires Valid() && 1 <= n <= newsize < TWO64 - NODE_HEADER - 7 && Offers(newsize, r)
      requires k < |blocks| && blocks[k].ptr == ptr && n <= blocks[k].size
      modifies this
      ensures Valid() && OthersKept(old(mem), mem, old(blocks))
      ensures newptr.None? ==> unchanged(this)
      ensures newptr.None? <==> !FitsRest(old(max), old(last), old(tail), newsize) && r.None?
      ensures newptr.Some? ==>
                && blocks == old(blocks) + [Block(newptr.value, newsize, |chunks| - 1)]
                && Readable(old(mem), ptr, n) && Readable(mem, newptr.value, newsize)
                && Bytes(mem, newptr.value, newsize) == Bytes(old(mem), ptr, n) + Zeros(newsize - n)
    {
      newptr := Malloc(newsize, false, r);
      if newptr.Some? {
        CopyOver(newptr.value, ptr, n, newsize, k, old(mem), old(blocks));
      }
    }

    /** The new block is filled from block `k` as it was in `before`. */
    method CopyOver(newptr: nat, ptr: nat, n: nat, newsize: nat, ghost k: nat, ghost before: map<nat, octet>,
                    ghost others: seq<Block>)
      requires Valid() && n <= newsize && OthersKept(before, mem, others)
      requires k < |others| && others[k].ptr == ptr && n <= others[k].size
      requires blocks == others + [Block(newptr, newsize, |chunks| - 1)]
      modifies this`mem
      ensures Valid() && OthersKept(before, mem, others)
      ensures Readable(before, ptr, n) && Readable(mem, newptr, newsize)
      ensures Bytes(mem, newptr, newsize) == Bytes(before, ptr, n) + Zeros(newsize - n)
    {
      KeptPart(before, mem, others, k, n);
      CopyInto(newptr, ptr, n, newsize, others);
      KeptTwice(before, old(mem), mem, others);
    }

    /** The memcpy and memset of mempool_realloc. */
    method CopyInto(newptr: nat, ptr: nat, n: nat, newsize: nat, ghost others: seq<Block>)
      requires Valid() && n <= newsize && Readable(mem, ptr, n)
      requires blocks == others + [Block(newptr, newsize, |chunks| - 1)]
      modifies this`mem
      ensures Valid() && OthersKept(old(mem), mem, others)
      ensures Readable(mem, newptr, newsize)
      ensures Bytes(mem, newptr, newsize) == Bytes(old(mem), ptr, n) + Zeros(newsize - n)
    {
      CopyHead(newptr, Bytes(mem, ptr, n), others);
      if newsize > n {
        ghost var m := mem;
        ZeroTail(newptr, n, newsize, others);
        KeptTwice(old(mem), m, mem, others);
      } else {
        assert Zeros(newsize - n) == [];
      }
    }

    method CopyHead(newptr: nat, s: seq<octet>, ghost others: seq<Block>)
      requires Valid() && blocks != [] && others == blocks[..|blocks| - 1]
      requires var b := blocks[|blocks| - 1]; newptr == b.ptr && |s| <= b.size
      modifies this`mem
      ensures Valid() && OthersKept(old(mem), mem, others)
      ensures Readable(mem, newptr, |s|) && Bytes(mem, newptr, |s|) == s
    {
      WriteThenRead(mem, newptr, s, 0, 0);
      WriteNewest(newptr, s, others);
    }

    method ZeroTail(newptr: nat, n: nat, newsize: nat, ghost others: seq<Block>)
      requires Valid() && blocks != [] && others == blocks[..|blocks| - 1]
      requires var b := blocks[|blocks| - 1]; newptr == b.ptr && newsize == b.size
      requires n <= newsize && Readable(mem, newptr, n)
      modifies this`mem
      ensures Valid() && OthersKept(old(mem), mem, others)
      ensures Readable(mem, newptr, newsize)
      ensures Bytes(mem, newptr, newsize) == Bytes(old(mem), newptr, n) + Zeros(newsize - n)
    {
      TailWritten(mem, newptr, n, Zeros(newsize - n));
      WriteNewest(newptr + n, Zeros(newsize - n), others);
    }
  }

  /** A block from mempool_calloc that is not zero: 24 bytes out of a pool of 16, over a node that held ones. */
  method CallocLeavesOnes(base: nat, nodeBase: nat) returns (mp: Mempool, ptr: nat)
    requires base > 0 && base % 8 == 0 && nodeBase % 8 == 0 && base + 48 <= nodeBase && nodeBase + 32 < TWO64
    ensures mp.Valid() && |mp.blocks| == 1 && mp.blocks[0].ptr == ptr && mp.blocks[0].size == 24
    ensures Readable(mp.mem, ptr, 24) && Bytes(mp.mem, ptr, 24) != Zeros(24)
  {
    mp := new Mempool(16, Region(base, Zeros(48)));
    var r := Region(nodeBase, seq(32, _ => 1));
    assert r.contents[NODE_HEADER..NODE_HEADER + 24][0] != Zeros(24)[0];
    var p := mp.Calloc(24, Some(r));
    ptr := p.value;
  }

  lemma KeptTwice(mem: map<nat, octet>, mem': map<nat, octet>, mem'': map<nat, octet>, blocks: seq<Block>)
    requires OthersKept(mem, mem', blocks) && OthersKept(mem', mem'', blocks)
    ensures OthersKept(mem, mem'', blocks)
  {
  }

  lemma AllReadable(mem: map<nat, octet>, chunks: seq<Chunk>, blocks: seq<Block>)
    requires Covers(mem, chunks) && BlocksOk(chunks, blocks)
    ensures OthersKept(mem, mem, blocks)
  {
    forall k | 0 <= k < |blocks|
      ensures Readable(mem, blocks[k].ptr, blocks[k].size)
    {
      BlockReadable(mem, chunks, blocks, k);
    }
  }

  lemma OldBlocksOk(chunks: seq<Chunk>, blocks: seq<Block>, b: Block)
    requires BlocksOk(chunks, blocks + [b])
    ensures BlocksOk(chunks, blocks)
  {
    forall k | 0 <= k < |blocks|
      ensures (blocks + [b])[k] == blocks[k]
    {
    }
  }

  lemma NewestApart(chunks: seq<Chunk>, blocks: seq<Block>, b: Block)
    requires BlocksOk(chunks, blocks + [b])
    ensures forall k :: 0 <= k < |blocks| ==> Apart(b.ptr, b.size, blocks[k].ptr, blocks[k].size)
  {
    var all := blocks + [b];
    forall k | 0 <= k < |blocks|
      ensures Apart(b.ptr, b.size, blocks[k].ptr, blocks[k].size)
    {
      assert Apart(all[k].ptr, all[k].size, all[|blocks|].ptr, all[|blocks|].size);
    }
  }

  lemma WrittenPart(mem: map<nat, octet>, base: nat, s: seq<octet>, from: nat, n: nat)
    requires from + n <= |s|
    ensures Readable(Write(mem, base, s), base + from, n)
    ensures Bytes(Write(mem, base, s), base + from, n) == s[from..from + n]
  {
  }

  lemma KeptPart(mem: map<nat, octet>, mem': map<nat, octet>, blocks: seq<Block>, k: nat, n: nat)
    requires OthersKept(mem, mem', blocks) && k < |blocks| && n <= blocks[k].size
    ensures Readable(mem, blocks[k].ptr, n) && Readable(mem', blocks[k].ptr, n)
    ensures Bytes(mem', blocks[k].ptr, n) == Bytes(mem, blocks[k].ptr, n)
  {
    var p, z := blocks[k].ptr, blocks[k].size;
    assert Bytes(mem, p, n) == Bytes(mem, p, z)[..n];
    assert Bytes(mem', p, n) == Bytes(mem', p, z)[..n];
  }

  lemma TailWritten(mem: map<nat, octet>, ptr: nat, n: nat, t: seq<octet>)
    requires Readable(mem, ptr, n)
    ensures var m := Write(mem, ptr + n, t);
            Readable(m, ptr, n + |t|) && Bytes(m, ptr, n + |t|) == Bytes(mem, ptr, n) + t
  {
  }
}
