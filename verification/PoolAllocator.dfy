/**
 The memory pool of include/rapidjson/allocators.h: a list of chunks, the head one serving requests by
 moving a mark, with addresses and sizes of 64 bits.
 */
module PoolAllocator {
  import opened Basics
  import opened Word
  import opened Wrappers

  /** The aligned size of a chunk's header. */
  const HEADER := 24

  /** Up to the next multiple of eight, in 64 bits. */
  function Align(x: nat): nat {
    (x + 7) % TWO_TO_THE_64 / 8 * 8
  }

  datatype Chunk = Chunk(addr: nat, capacity: nat, size: nat)

  /** Chunks head first, the least capacity of a new one, and the user's buffer or 0. */
  datatype Pool = Pool(chunks: seq<Chunk>, chunkCapacity: nat, userBuffer: nat)

  /** A pool and the pointer returned, 0 for NULL. */
  datatype Answer = Answer(pool: Pool, ptr: nat)

  /** What the base allocator answers to a request for some bytes, 0 for failure. */
  type Base = nat -> nat

  // ---------------------------------------------------------------------------------------------
  // The operations

  function AddChunk(p: Pool, capacity: nat, base: Base): Option<Pool> {
    var chunk := base((HEADER + capacity) % TWO_TO_THE_64);
    if chunk == 0 then None else Some(p.(chunks := [Chunk(chunk, capacity, 0)] + p.chunks))
  }

  predicate HasRoom(p: Pool, size: nat) {
    p.chunks != [] && (p.chunks[0].size + size) % TWO_TO_THE_64 <= p.chunks[0].capacity
  }

  /** Moves the mark of the head chunk. */
  function Bump(p: Pool, size: nat): Pool
    requires p.chunks != []
  {
    p.(chunks := [p.chunks[0].(size := (p.chunks[0].size + size) % TWO_TO_THE_64)] + p.chunks[1..])
  }

  /** The address of the mark. */
  function Mark(c: Chunk): nat {
    c.addr + HEADER + c.size
  }

  function Malloc(p: Pool, size: nat, base: Base): Answer {
    if size == 0 then Answer(p, 0)
    else
      var s := Align(size);
      if HasRoom(p, s) then Answer(Bump(p, s), Mark(p.chunks[0]))
      else
        var q := AddChunk(p, Larger(p.chunkCapacity, s), base);
        if q.None? then Answer(p, 0) else Answer(Bump(q.value, s), Mark(q.value.chunks[0]))
  }

  /** The block ends where the mark of the head chunk is. */
  predicate IsLast(p: Pool, ptr: nat, size: nat) {
    p.chunks != [] && ptr + size == Mark(p.chunks[0])
  }

  function Realloc(p: Pool, ptr: nat, originalSize: nat, newSize: nat, base: Base): Answer {
    if ptr == 0 then Malloc(p, newSize, base)
    else if newSize == 0 then Answer(p, 0)
    else
      var o, n := Align(originalSize), Align(newSize);
      if o >= n then Answer(p, ptr)
      else if IsLast(p, ptr, o) && HasRoom(p, n - o) then Answer(Bump(p, n - o), ptr)
      else Malloc(p, n, base)
  }

  /** Chunks are given back until the user's buffer, which is emptied. */
  function Cleared(chunks: seq<Chunk>, userBuffer: nat): seq<Chunk> {
    if chunks == [] then []
    else if chunks[0].addr != userBuffer then Cleared(chunks[1..], userBuffer)
    else [chunks[0].(size := 0)] + chunks[1..]
  }

  function Clear(p: Pool): Pool {
    p.(chunks := Cleared(p.chunks, p.userBuffer))
  }

  // ---------------------------------------------------------------------------------------------
  // The invariant

  /** A block handed out, its size rounded up. */
  datatype Block = Block(addr: nat, size: nat)

  predicate Disjoint(a: nat, m: nat, b: nat, n: nat) {
    a + m <= b || b + n <= a
  }

  predicate ChunkOk(c: Chunk) {
    && c.addr > 0 && c.addr % 8 == 0 && c.addr + HEADER + c.capacity <= TWO_TO_THE_64
    && c.size <= c.capacity && c.size % 8 == 0
  }

  predicate Apart(c: Chunk, d: Chunk) {
    Disjoint(c.addr, HEADER + c.capacity, d.addr, HEADER + d.capacity)
  }

  predicate ChunksOk(chunks: seq<Chunk>) {
    && (forall i :: 0 <= i < |chunks| ==> ChunkOk(chunks[i]))
    && (forall i, j :: 0 <= i < j < |chunks| ==> Apart(chunks[i], chunks[j]))
  }

  /** In the used part of a chunk. */
  predicate Inside(c: Chunk, b: Block) {
    c.addr + HEADER <= b.addr && b.addr + b.size <= Mark(c)
  }

  predicate BlockOk(chunks: seq<Chunk>, b: Block) {
    && b.size > 0 && b.addr % 8 == 0 && b.size % 8 == 0
    && exists i :: 0 <= i < |chunks| && Inside(chunks[i], b)
  }

  predicate Separate(a: Block, b: Block) {
    Disjoint(a.addr, a.size, b.addr, b.size)
  }

  predicate AllSeparate(live: seq<Block>) {
    forall i, j :: 0 <= i < j < |live| ==> Separate(live[i], live[j])
  }

  predicate BlocksOk(chunks: seq<Chunk>, live: seq<Block>) {
    (forall i :: 0 <= i < |live| ==> BlockOk(chunks, live[i])) && AllSeparate(live)
  }

  /** If there is a user buffer it is the last chunk, and no other chunk is. */
  predicate UserOk(p: Pool) {
    && (p.userBuffer != 0 ==> p.chunks != [] && p.chunks[|p.chunks| - 1].addr == p.userBuffer)
    && (forall i :: 0 <= i < |p.chunks| - 1 ==> p.chunks[i].addr != p.userBuffer)
  }

  function Used(chunks: seq<Chunk>): nat {
    if chunks == [] then 0 else chunks[0].size + Used(chunks[1..])
  }

  function Total(live: seq<Block>): nat {
    if live == [] then 0 else Total(live[..|live| - 1]) + live[|live| - 1].size
  }

  predicate Inv(p: Pool, live: seq<Block>) {
    ChunksOk(p.chunks) && BlocksOk(p.chunks, live) && UserOk(p) && Used(p.chunks) == Total(live)
  }

  /** The base allocator hands out aligned memory that is not in use. */
  ghost predicate Honest(p: Pool, base: Base) {
    forall n :: base(n) != 0 ==>
      && base(n) % 8 == 0 && base(n) + n <= TWO_TO_THE_64
      && forall i :: 0 <= i < |p.chunks| ==> Disjoint(base(n), n, p.chunks[i].addr, HEADER + p.chunks[i].capacity)
  }

  /** None of the sums of a request exceeds 64 bits. */
  predicate NoWrap(p: Pool, size: nat) {
    && size + 7 < TWO_TO_THE_64
    && (p.chunks != [] ==> p.chunks[0].size + Align(size) < TWO_TO_THE_64)
    && (HasRoom(p, Align(size)) || HEADER + Larger(p.chunkCapacity, Align(size)) < TWO_TO_THE_64)
  }

  lemma AlignIs(x: nat)
    requires x + 7 < TWO_TO_THE_64
    ensures x <= Align(x) < x + 8 && Align(x) % 8 == 0
  {
  }

  lemma AlignOfAligned(x: nat)
    requires x % 8 == 0 && x < TWO_TO_THE_64
    ensures Align(x) == x
  {
    var k := x / 8;
    assert x == 8 * k && (8 * k + 7) / 8 == k;
  }

  // ---------------------------------------------------------------------------------------------
  // Allocating

  /** Room that can be taken without wrapping. */
  predicate Fits(p: Pool, size: nat) {
    p.chunks != [] && size % 8 == 0 && p.chunks[0].size + size <= p.chunks[0].capacity
  }

  lemma BumpChunks(p: Pool, s: nat)
    requires ChunksOk(p.chunks) && UserOk(p) && Fits(p, s)
    ensures var q := Bump(p, s);
      && |q.chunks| == |p.chunks| && ChunksOk(q.chunks) && UserOk(q) && Used(q.chunks) == Used(p.chunks) + s
      && Mark(q.chunks[0]) == Mark(p.chunks[0]) + s
  {
    hide ChunksOk;
    hide Bump;
    hide Used;
    ChunkAt(p.chunks, 0);
    BumpHead(p, s);
    BumpUsed(p, s);
    BumpChunksOk(p.chunks, Bump(p, s).chunks, s);
  }

  lemma ChunkAt(chunks: seq<Chunk>, i: nat)
    requires ChunksOk(chunks) && i < |chunks|
    ensures ChunkOk(chunks[i])
  {
  }

  lemma BumpChunksOk(chunks: seq<Chunk>, more: seq<Chunk>, s: nat)
    requires ChunksOk(chunks) && chunks != [] && s % 8 == 0 && chunks[0].size + s <= chunks[0].capacity
    requires |more| == |chunks| && more[0] == chunks[0].(size := chunks[0].size + s)
    requires forall i :: 0 < i < |chunks| ==> more[i] == chunks[i]
    ensures ChunksOk(more)
  {
    hide Apart;
    hide Disjoint;
    forall i, j | 0 <= i < j < |more| ensures Apart(more[i], more[j]) {
      ApartAlike(chunks[i], chunks[j], more[i], more[j]);
    }
  }

  lemma BumpHead(p: Pool, s: nat)
    requires p.chunks != [] && p.chunks[0].size + s < TWO_TO_THE_64
    ensures var q := Bump(p, s);
      && |q.chunks| == |p.chunks| && q.userBuffer == p.userBuffer
      && q.chunks[0] == p.chunks[0].(size := p.chunks[0].size + s)
      && forall i :: 0 < i < |p.chunks| ==> q.chunks[i] == p.chunks[i]
  {
  }

  lemma BumpUsed(p: Pool, s: nat)
    requires p.chunks != [] && p.chunks[0].size + s < TWO_TO_THE_64
    ensures Used(Bump(p, s).chunks) == Used(p.chunks) + s
  {
    assert Bump(p, s).chunks[1..] == p.chunks[1..];
  }

  lemma ApartAlike(c: Chunk, d: Chunk, c1: Chunk, d1: Chunk)
    requires Apart(c, d) && c1.addr == c.addr && d1.addr == d.addr
    requires c1.capacity == c.capacity && d1.capacity == d.capacity
    ensures Apart(c1, d1)
  {
  }

  lemma BumpBlock(p: Pool, s: nat, b: Block)
    requires ChunksOk(p.chunks) && Fits(p, s) && BlockOk(p.chunks, b)
    ensures BlockOk(Bump(p, s).chunks, b)
    ensures Disjoint(b.addr, b.size, Mark(p.chunks[0]), s)
  {
    var i: nat :| i < |p.chunks| && Inside(p.chunks[i], b);
    InsideStays(p, s, b, i);
    assert i < |Bump(p, s).chunks| && Inside(Bump(p, s).chunks[i], b);
  }

  lemma InsideStays(p: Pool, s: nat, b: Block, i: nat)
    requires ChunksOk(p.chunks) && Fits(p, s) && i < |p.chunks| && Inside(p.chunks[i], b)
    ensures Inside(Bump(p, s).chunks[i], b) && Disjoint(b.addr, b.size, Mark(p.chunks[0]), s)
  {
    assert ChunkOk(p.chunks[i]) && ChunkOk(p.chunks[0]);
    if i > 0 {
      assert Apart(p.chunks[0], p.chunks[i]);
    }
  }

  lemma BumpBlocks(p: Pool, live: seq<Block>, s: nat)
    requires ChunksOk(p.chunks) && Fits(p, s) && BlocksOk(p.chunks, live)
    ensures BlocksOk(Bump(p, s).chunks, live)
    ensures forall i :: 0 <= i < |live| ==> Disjoint(live[i].addr, live[i].size, Mark(p.chunks[0]), s)
  {
    hide BlockOk;
    hide ChunksOk;
    hide Bump;
    forall i | 0 <= i < |live|
      ensures BlockOk(Bump(p, s).chunks, live[i]) && Disjoint(live[i].addr, live[i].size, Mark(p.chunks[0]), s)
    {
      BumpBlock(p, s, live[i]);
    }
  }

  /** Taking room from the head chunk hands out one more block. */
  lemma TakeKeeps(p: Pool, live: seq<Block>, s: nat)
    requires Inv(p, live) && Fits(p, s) && s > 0
    ensures Inv(Bump(p, s), live + [Block(Mark(p.chunks[0]), s)])
  {
    hide BlockOk;
    hide ChunksOk;
    hide UserOk;
    hide Used;
    hide Bump;
    var b := Block(Mark(p.chunks[0]), s);
    BumpChunks(p, s);
    BumpBlocks(p, live, s);
    AtMark(p, s);
    assert (live + [b])[..|live|] == live;
  }

  lemma AtMark(p: Pool, s: nat)
    requires ChunksOk(p.chunks) && Fits(p, s) && s > 0
    ensures BlockOk(Bump(p, s).chunks, Block(Mark(p.chunks[0]), s))
  {
    assert ChunkOk(p.chunks[0]);
    assert Inside(Bump(p, s).chunks[0], Block(Mark(p.chunks[0]), s));
  }

  /** Growing the block that ends at the mark. */
  lemma GrowKeeps(p: Pool, live: seq<Block>, k: nat, inc: nat)
    requires Inv(p, live) && Fits(p, inc) && k < |live| && live[k].addr + live[k].size == Mark(p.chunks[0])
    ensures Inv(Bump(p, inc), live[k := Block(live[k].addr, live[k].size + inc)])
  {
    hide BlockOk;
    hide ChunksOk;
    hide UserOk;
    hide Used;
    hide Bump;
    hide Mark;
    hide Total;
    hide AllSeparate;
    var b := Block(live[k].addr, live[k].size + inc);
    BumpChunks(p, inc);
    BumpBlocks(p, live, inc);
    Grown(p, live[k], inc);
    NoneEmpty(p.chunks, live);
    SeparateUpdate(live, k, inc);
    TotalUpdate(live, k, b);
  }

  lemma Grown(p: Pool, b: Block, inc: nat)
    requires ChunksOk(p.chunks) && Fits(p, inc) && BlockOk(p.chunks, b) && b.addr + b.size == Mark(p.chunks[0])
    ensures BlockOk(Bump(p, inc).chunks, Block(b.addr, b.size + inc))
  {
    InHead(p, b);
    assert Inside(Bump(p, inc).chunks[0], Block(b.addr, b.size + inc));
  }

  lemma NoneEmpty(chunks: seq<Chunk>, live: seq<Block>)
    requires BlocksOk(chunks, live)
    ensures forall i :: 0 <= i < |live| ==> live[i].size > 0
  {
  }

  lemma SeparateUpdate(live: seq<Block>, k: nat, inc: nat)
    requires k < |live| && AllSeparate(live) && forall i :: 0 <= i < |live| ==> live[i].size > 0
    requires forall i :: 0 <= i < |live| ==> Disjoint(live[i].addr, live[i].size, live[k].addr + live[k].size, inc)
    ensures AllSeparate(live[k := Block(live[k].addr, live[k].size + inc)])
  {
    var l := live[k := Block(live[k].addr, live[k].size + inc)];
    forall i, j | 0 <= i < j < |l| ensures Separate(l[i], l[j]) {
      assert Separate(live[i], live[j]);
    }
  }

  /** Only a block of the head chunk can end at its mark. */
  lemma InHead(p: Pool, b: Block)
    requires ChunksOk(p.chunks) && p.chunks != [] && BlockOk(p.chunks, b) && b.addr + b.size == Mark(p.chunks[0])
    ensures Inside(p.chunks[0], b)
  {
    var i :| 0 <= i < |p.chunks| && Inside(p.chunks[i], b);
    if i > 0 {
      assert Apart(p.chunks[0], p.chunks[i]) && ChunkOk(p.chunks[i]) && ChunkOk(p.chunks[0]);
    }
  }

  lemma {:induction false} TotalUpdate(live: seq<Block>, k: nat, b: Block)
    requires k < |live|
    ensures Total(live[k := b]) == Total(live) - live[k].size + b.size
    decreases |live|
  {
    var front := live[..|live| - 1];
    if k == |live| - 1 {
      assert live[k := b][..k] == front;
    } else {
      TotalUpdate(front, k, b);
      assert live[k := b][..|live| - 1] == front[k := b];
    }
  }

  /** A new chunk from an honest base allocator keeps everything. */
  lemma AddChunkKeeps(p: Pool, live: seq<Block>, capacity: nat, base: Base)
    requires Inv(p, live) && Honest(p, base) && HEADER + capacity < TWO_TO_THE_64
    ensures var q := AddChunk(p, capacity, base);
      q.Some? ==> Inv(q.value, live) && q.value.chunks[0].size == 0 && q.value.chunks[0].capacity == capacity
  {
    var q := AddChunk(p, capacity, base);
    if q.Some? {
      var chunks := q.value.chunks;
      assert base(HEADER + capacity) != 0;
      assert chunks[1..] == p.chunks;
      forall i, j | 0 <= i < j < |chunks| ensures Apart(chunks[i], chunks[j]) {
        if i > 0 {
          assert Apart(p.chunks[i - 1], p.chunks[j - 1]);
        }
      }
      forall i | 0 <= i < |live| ensures BlockOk(chunks, live[i]) {
        assert BlockOk(p.chunks, live[i]);
        var k :| 0 <= k < |p.chunks| && Inside(p.chunks[k], live[i]);
        assert Inside(chunks[k + 1], live[i]);
      }
      NewIsNotUser(p, base(HEADER + capacity), HEADER + capacity);
    }
  }

  lemma NewIsNotUser(p: Pool, addr: nat, n: nat)
    requires UserOk(p) && addr > 0 && n > 0
    requires forall i :: 0 <= i < |p.chunks| ==> Disjoint(addr, n, p.chunks[i].addr, HEADER + p.chunks[i].capacity)
    ensures p.chunks != [] ==> addr != p.userBuffer
  {
    if p.chunks != [] {
      var c := p.chunks[|p.chunks| - 1];
      assert Disjoint(addr, n, c.addr, HEADER + c.capacity);
    }
  }

  /** An allocation hands out a block of at least the size asked for, or nothing, as long as no sum wraps. */
  lemma MallocKeeps(p: Pool, live: seq<Block>, size: nat, base: Base)
    requires Inv(p, live) && Honest(p, base)
    ensures var a := Malloc(p, size, base);
      && (a.ptr == 0 ==> a.pool == p)
      && (a.ptr != 0 && NoWrap(p, size) ==> Align(size) >= size > 0 && Inv(a.pool, live + [Block(a.ptr, Align(size))]))
  {
    hide Inv;
    hide NoWrap;
    if size > 0 && NoWrap(p, size) {
      MallocFits(p, live, size, base);
    }
  }

  lemma MallocFits(p: Pool, live: seq<Block>, size: nat, base: Base)
    requires Inv(p, live) && Honest(p, base) && size > 0 && NoWrap(p, size)
    ensures var a := Malloc(p, size, base);
      && Align(size) >= size
      && (a.ptr == 0 ==> a.pool == p)
      && (a.ptr != 0 ==> Inv(a.pool, live + [Block(a.ptr, Align(size))]))
  {
    hide Inv;
    hide Align;
    var s := Align(size);
    AlignIs(size);
    HeadOk(p, live);
    if HasRoom(p, s) {
      TakeKeeps(p, live, s);
    } else {
      var capacity := Larger(p.chunkCapacity, s);
      AddChunkKeeps(p, live, capacity, base);
      var q := AddChunk(p, capacity, base);
      if q.Some? {
        TakeKeeps(q.value, live, s);
      }
    }
  }

  lemma HeadOk(p: Pool, live: seq<Block>)
    requires Inv(p, live)
    ensures p.chunks != [] ==> ChunkOk(p.chunks[0])
  {
  }

  predicate Within(start: nat, room: nat, addr: nat, size: nat) {
    start <= addr && addr + size <= start + room
  }

  /** The block lies in the memory it is taken from: the head chunk's, or what the base allocator has just given. */
  predicate InItsChunk(p: Pool, size: nat, base: Base) {
    var a, s := Malloc(p, size, base), Align(size);
    if HasRoom(p, s) then Within(p.chunks[0].addr, HEADER + p.chunks[0].capacity, a.ptr, size)
    else
      var n := (HEADER + Larger(p.chunkCapacity, s)) % TWO_TO_THE_64;
      Within(base(n), n, a.ptr, size)
  }

  /** A pointer that is returned stands for memory of the size asked for exactly when no sum has wrapped. */
  lemma MallocIsExact(p: Pool, live: seq<Block>, size: nat, base: Base)
    requires Inv(p, live) && Honest(p, base) && p.chunkCapacity < TWO_TO_THE_64
    requires 0 < size < TWO_TO_THE_64 && Malloc(p, size, base).ptr != 0
    ensures InItsChunk(p, size, base) <==> NoWrap(p, size)
  {
    hide Inv;
    hide Align;
    var s := Align(size);
    HeadOk(p, live);
    AlignWraps(size);
    if HasRoom(p, s) {
      WrapsOnce(p.chunks[0].size + s);
    } else {
      NewChunkIsExact(p, size, base);
    }
  }

  lemma WrapsOnce(x: nat)
    requires x < 2 * TWO_TO_THE_64
    ensures x % TWO_TO_THE_64 == if x < TWO_TO_THE_64 then x else x - TWO_TO_THE_64
  {
  }

  lemma NewChunkIsExact(p: Pool, size: nat, base: Base)
    requires Honest(p, base) && p.chunkCapacity < TWO_TO_THE_64 && (p.chunks != [] ==> ChunkOk(p.chunks[0]))
    requires 0 < size < TWO_TO_THE_64 && Malloc(p, size, base).ptr != 0 && !HasRoom(p, Align(size))
    ensures InItsChunk(p, size, base) <==> NoWrap(p, size)
  {
    AlignWraps(size);
    hide Align;
    var c := Larger(p.chunkCapacity, Align(size));
    var n := (HEADER + c) % TWO_TO_THE_64;
    WrapsOnce(HEADER + c);
    assert base(n) != 0;
    if p.chunks != [] {
      WrapsOnce(p.chunks[0].size + Align(size));
      assert Disjoint(base(n), n, p.chunks[0].addr, HEADER + p.chunks[0].capacity);
    }
  }

  lemma AlignWraps(x: nat)
    requires x < TWO_TO_THE_64
    ensures Align(x) < TWO_TO_THE_64 && (x + 7 < TWO_TO_THE_64 ==> x <= Align(x) < x + 8)
      && (x + 7 >= TWO_TO_THE_64 ==> Align(x) == 0)
  {
  }

  lemma BlockAndHead(p: Pool, live: seq<Block>, k: nat)
    requires Inv(p, live) && k < |live| && p.chunks != []
    ensures live[k].size > 0 && live[k].addr % 8 == 0 && live[k].size % 8 == 0 && ChunkOk(p.chunks[0])
  {
    assert BlockOk(p.chunks, live[k]);
  }

  /** The head chunk has room for so many bytes, in unbounded numbers. */
  predicate HeadTakes(p: Pool, n: nat) {
    p.chunks != [] && p.chunks[0].size + n <= p.chunks[0].capacity
  }

  /** The capacity a new chunk is given for a request, and what the base allocator is asked for. */
  function NewCapacity(p: Pool, n: nat): nat {
    if p.chunkCapacity > n then p.chunkCapacity else n
  }

  /**
   Where memory comes from: from the head chunk whenever it has room, otherwise from one new chunk, and there is
   none exactly when the base allocator has none.
   */
  lemma MallocServes(p: Pool, live: seq<Block>, size: nat, base: Base)
    requires Inv(p, live) && Honest(p, base) && size > 0 && NoWrap(p, size)
    ensures var a, n := Malloc(p, size, base), Align(size);
      var chunk := base(24 + NewCapacity(p, n));
      && (a.ptr != 0 <==> HeadTakes(p, n) || chunk != 0)
      && (if HeadTakes(p, n) then
            && a.ptr == p.chunks[0].addr + 24 + p.chunks[0].size
            && a.pool.chunks == [p.chunks[0].(size := p.chunks[0].size + n)] + p.chunks[1..]
          else if chunk != 0 then
            a.ptr == chunk + 24 && a.pool.chunks == [Chunk(chunk, NewCapacity(p, n), n)] + p.chunks
          else a.pool.chunks == p.chunks)
      && a.pool.chunkCapacity == p.chunkCapacity && a.pool.userBuffer == p.userBuffer
  {
    hide Align;
    hide Inv;
    HeadOk(p, live);
    AlignWraps(size);
    var n := Align(size);
    RoomIsRoom(p, n);
    if HeadTakes(p, n) {
      WrapsOnce(p.chunks[0].size + n);
    } else {
      WrapsOnce(24 + NewCapacity(p, n));
      WrapsOnce(n);
    }
  }

  lemma RoomIsRoom(p: Pool, n: nat)
    requires p.chunks != [] ==> p.chunks[0].size + n < TWO_TO_THE_64
    ensures HasRoom(p, n) <==> HeadTakes(p, n)
  {
    if p.chunks != [] {
      WrapsOnce(p.chunks[0].size + n);
    }
  }

  /** Nothing is handed out for nothing, and a size of 0 frees nothing. */
  lemma NothingForNothing(p: Pool, ptr: nat, originalSize: nat, base: Base)
    ensures Malloc(p, 0, base) == Answer(p, 0) && Realloc(p, ptr, originalSize, 0, base) == Answer(p, 0)
  {
  }

  /** A block stays as it is if it is large enough, grows in place if it can, and is allocated anew otherwise. */
  lemma ReallocServes(p: Pool, live: seq<Block>, k: nat, originalSize: nat, newSize: nat, base: Base)
    requires Inv(p, live) && Honest(p, base) && k < |live| && live[k].addr > 0 && Align(originalSize) == live[k].size
    requires newSize > 0 && NoWrap(p, newSize)
    ensures var a, o, n := Realloc(p, live[k].addr, originalSize, newSize, base), live[k].size, Align(newSize);
      var last := live[k].addr + o == p.chunks[0].addr + 24 + p.chunks[0].size;
      if n <= o then a == Answer(p, live[k].addr)
      else if last && HeadTakes(p, n - o) then
        && a.ptr == live[k].addr
        && a.pool == p.(chunks := [p.chunks[0].(size := p.chunks[0].size + (n - o))] + p.chunks[1..])
      else
        a == Malloc(p, newSize, base) && (a.ptr != 0 <==> HeadTakes(p, n) || base(24 + NewCapacity(p, n)) != 0)
  {
    hide Inv;
    hide Align;
    SomeChunk(p, live, k);
    BlockAndHead(p, live, k);
    AlignIs(newSize);
    AlignOfAligned(Align(newSize));
    if Align(newSize) > live[k].size {
      WrapsOnce(p.chunks[0].size + (Align(newSize) - live[k].size));
    }
    MallocServes(p, live, newSize, base);
  }

  /** A null pointer is reallocated as a new block. */
  lemma ReallocOfNull(p: Pool, live: seq<Block>, originalSize: nat, newSize: nat, base: Base)
    requires Inv(p, live) && Honest(p, base) && newSize > 0 && NoWrap(p, newSize)
    ensures var a, n := Realloc(p, 0, originalSize, newSize, base), Align(newSize);
      a == Malloc(p, newSize, base) && (a.ptr != 0 <==> HeadTakes(p, n) || base(24 + NewCapacity(p, n)) != 0)
  {
    MallocServes(p, live, newSize, base);
  }

  /** A request for 2^64 - 1 bytes is rounded to none, and answered with the place where the next block begins. */
  lemma HugeRequestTakesNothing(c: Chunk, chunkCapacity: nat, userBuffer: nat, base: Base)
    requires ChunkOk(c)
    ensures var p := Pool([c], chunkCapacity, userBuffer);
      Malloc(p, TWO_TO_THE_64 - 1, base) == Answer(p, Mark(c)) && !NoWrap(p, TWO_TO_THE_64 - 1)
  {
  }

  // ---------------------------------------------------------------------------------------------
  // Reallocating

  /** A block that grows in place is the last of the head chunk, and keeps its address. */
  lemma ReallocInPlace(p: Pool, live: seq<Block>, k: nat, originalSize: nat, newSize: nat, base: Base)
    requires Inv(p, live) && k < |live| && live[k].addr > 0 && Align(originalSize) == live[k].size
    requires newSize > 0 && newSize + 7 < TWO_TO_THE_64 && live[k].size < Align(newSize)
    requires IsLast(p, live[k].addr, live[k].size) && HasRoom(p, Align(newSize) - live[k].size)
    requires p.chunks[0].size + Align(newSize) - live[k].size < TWO_TO_THE_64
    ensures var a := Realloc(p, live[k].addr, originalSize, newSize, base);
      && a.ptr == live[k].addr && Inside(p.chunks[0], live[k])
      && Inv(a.pool, live[k := Block(a.ptr, Align(newSize))])
  {
    hide Inv;
    hide Align;
    var inc := Align(newSize) - live[k].size;
    BlockAndHead(p, live, k);
    AlignIs(newSize);
    EightsApart(Align(newSize), live[k].size);
    GrowKeeps(p, live, k, inc);
    IsInHead(p, live, k);
  }

  lemma EightsApart(x: nat, y: nat)
    requires x % 8 == 0 && y % 8 == 0 && y <= x
    ensures (x - y) % 8 == 0
  {
  }

  lemma IsInHead(p: Pool, live: seq<Block>, k: nat)
    requires Inv(p, live) && k < |live| && IsLast(p, live[k].addr, live[k].size)
    ensures Inside(p.chunks[0], live[k])
  {
    InHead(p, live[k]);
  }

  /** Any other growth is an allocation; the old block stays. */
  lemma ReallocElsewhere(p: Pool, live: seq<Block>, k: nat, originalSize: nat, newSize: nat, base: Base)
    requires Inv(p, live) && Honest(p, base) && k < |live| && live[k].addr > 0 && Align(originalSize) == live[k].size
    requires newSize > 0 && newSize + 7 < TWO_TO_THE_64 && NoWrap(p, Align(newSize)) && live[k].size < Align(newSize)
    requires !(IsLast(p, live[k].addr, live[k].size) && HasRoom(p, Align(newSize) - live[k].size))
    ensures var a := Realloc(p, live[k].addr, originalSize, newSize, base);
      && (a.ptr == 0 ==> a.pool == p)
      && (a.ptr != 0 ==> Inv(a.pool, live + [Block(a.ptr, Align(newSize))]))
  {
    hide Inv;
    hide Align;
    AlignIs(newSize);
    AlignOfAligned(Align(newSize));
    MallocKeeps(p, live, Align(newSize), base);
  }

  /** Memory after copying n bytes. */
  function Copied<T>(memory: nat -> T, dst: nat, src: nat, n: nat): nat -> T {
    (x: nat) => if dst <= x < dst + n then memory(src + (x - dst)) else memory(x)
  }

  /** The bytes of a block. */
  function Contents<T>(memory: nat -> T, addr: nat, size: nat): seq<T> {
    seq(size, k requires 0 <= k < size => memory(addr + k))
  }

  /** Copying into a new block brings the old contents along and disturbs no block handed out before. */
  lemma CopyPreserves<T>(memory: nat -> T, p: Pool, live: seq<Block>, k: nat, b: Block)
    requires Inv(p, live + [b]) && k < |live| && live[k].size <= b.size
    ensures var m := Copied(memory, b.addr, live[k].addr, live[k].size);
      && Contents(m, b.addr, live[k].size) == Contents(memory, live[k].addr, live[k].size)
      && forall i :: 0 <= i < |live| ==>
        Contents(m, live[i].addr, live[i].size) == Contents(memory, live[i].addr, live[i].size)
  {
    var blocks := live + [b];
    forall i | 0 <= i < |live|
      ensures Contents(Copied(memory, b.addr, live[k].addr, live[k].size), live[i].addr, live[i].size)
              == Contents(memory, live[i].addr, live[i].size)
    {
      assert Separate(blocks[i], blocks[|live|]);
    }
  }

  // ---------------------------------------------------------------------------------------------
  // Clearing

  lemma {:induction false} ClearedChunks(chunks: seq<Chunk>, userBuffer: nat)
    requires ChunksOk(chunks)
    requires forall i :: 0 <= i < |chunks| - 1 ==> chunks[i].addr != userBuffer
    ensures var c := Cleared(chunks, userBuffer);
      if chunks != [] && chunks[|chunks| - 1].addr == userBuffer then c == [chunks[|chunks| - 1].(size := 0)]
      else c == []
    decreases |chunks|
  {
    if |chunks| > 1 {
      var rest := chunks[1..];
      forall i, j | 0 <= i < j < |rest| ensures Apart(rest[i], rest[j]) {
        assert Apart(chunks[i + 1], chunks[j + 1]);
      }
      ClearedChunks(chunks[1..], userBuffer);
    }
  }

  /** Clearing keeps the user's buffer only, empty, and forgets all blocks. */
  lemma ClearKeeps(p: Pool, live: seq<Block>)
    requires Inv(p, live)
    ensures Inv(Clear(p), [])
    ensures Clear(p).chunks == if p.userBuffer != 0 then [p.chunks[|p.chunks| - 1].(size := 0)] else []
  {
    ClearedChunks(p.chunks, p.userBuffer);
    if p.chunks != [] {
      assert ChunkOk(p.chunks[|p.chunks| - 1]);
    }
  }

  // ---------------------------------------------------------------------------------------------
  // The allocator as it runs

  class MemoryPoolAllocator<T> {
    var chunks: seq<Chunk>
    const chunkCapacity: nat
    const userBuffer: nat
    /** The bytes of the address space. */
    var memory: nat -> T
    /** The blocks handed out since the last clearing. */
    ghost var live: seq<Block>

    function State(): Pool
      reads this
    {
      Pool(chunks, chunkCapacity, userBuffer)
    }

    ghost predicate Valid()
      reads this
    {
      Inv(State(), live) && chunkCapacity < TWO_TO_THE_64
    }

    /** The request is so large that a sum exceeds 64 bits. */
    predicate Wraps(size: nat)
      reads this
    {
      size > 0 && !NoWrap(State(), size)
    }

    constructor (chunkSize: nat, memory: nat -> T)
      requires chunkSize < TWO_TO_THE_64
      ensures Valid() && chunks == [] && live == [] && this.memory == memory
    {
      chunks, chunkCapacity, userBuffer := [], chunkSize, 0;
      this.memory := memory;
      live := [];
    }

    /** The user's buffer becomes the first chunk; blocks are aligned if it is. */
    constructor WithBuffer(buffer: nat, size: nat, chunkSize: nat, memory: nat -> T)
      requires chunkSize < TWO_TO_THE_64 && buffer > 0 && buffer % 8 == 0 && size > HEADER
        && buffer + size <= TWO_TO_THE_64
      ensures Valid() && chunks == [Chunk(buffer, size - HEADER, 0)] && live == [] && this.memory == memory
    {
      chunks, chunkCapacity, userBuffer := [Chunk(buffer, size - HEADER, 0)], chunkSize, buffer;
      this.memory := memory;
      live := [];
    }

    method AddChunkHere(capacity: nat, base: Base) returns (ok: bool)
      modifies this`chunks
      ensures var q := AddChunk(old(State()), capacity, base);
        ok == q.Some? && (if ok then State() == q.value else State() == old(State()))
    {
      var chunk := base((HEADER + capacity) % TWO_TO_THE_64);
      if chunk == 0 {
        return false;
      }
      chunks := [Chunk(chunk, capacity, 0)] + chunks;
      return true;
    }

    method TakeHere(s: nat) returns (ptr: nat)
      requires chunks != []
      modifies this`chunks
      ensures State() == Bump(old(State()), s) && ptr == Mark(old(chunks)[0])
    {
      ptr := Mark(chunks[0]);
      chunks := [chunks[0].(size := (chunks[0].size + s) % TWO_TO_THE_64)] + chunks[1..];
    }

    /** Hands out a block; as long as no sum wraps, it is a new one. */
    method MallocHere(size: nat, base: Base) returns (ptr: nat)
      requires Valid() && Honest(State(), base)
      modifies this`chunks, this`live
      ensures Malloc(old(State()), size, base) == Answer(State(), ptr)
      ensures live == if ptr == 0 then old(live) else old(live) + [Block(ptr, Align(size))]
      ensures old(Wraps(size)) || Valid()
    {
      hide Inv;
      hide Align;
      hide NoWrap;
      hide Bump;
      hide Honest;
      if size == 0 {
        return 0;
      }
      MallocKeeps(State(), live, size, base);
      var s := Align(size);
      if chunks == [] || (chunks[0].size + s) % TWO_TO_THE_64 > chunks[0].capacity {
        assert !HasRoom(State(), s);
        var ok := AddChunkHere(if chunkCapacity > s then chunkCapacity else s, base);
        if !ok {
          return 0;
        }
      }
      ptr := TakeHere(s);
      live := live + [Block(ptr, s)];
    }

    /**
     Makes a handed-out block larger.  Its bytes come along, no other block changes, and it stays where it
     is only if it was large enough or is the last one of the head chunk with room behind it.
     */
    method Resize(originalPtr: nat, originalSize: nat, newSize: nat, base: Base, ghost k: nat) returns (ptr: nat)
      requires Valid() && Honest(State(), base)
      requires k < |live| && originalPtr == live[k].addr > 0 && Align(originalSize) == live[k].size
      modifies this
      ensures Realloc(old(State()), originalPtr, originalSize, newSize, base) == Answer(State(), ptr)
      ensures old(Wraps(newSize)) || Valid()
      ensures newSize > 0 && Align(newSize) <= Align(originalSize) ==> ptr == originalPtr && live == old(live)
      ensures ptr == originalPtr && live != old(live) && !old(Wraps(newSize)) ==>
        && Inside(old(chunks)[0], old(live)[k]) && IsLast(old(State()), originalPtr, Align(originalSize))
        && live == old(live)[k := Block(ptr, Align(newSize))]
      ensures ptr != originalPtr && !old(Wraps(newSize)) ==>
        live == if ptr == 0 then old(live) else old(live) + [Block(ptr, Align(newSize))]
      ensures old(Wraps(newSize)) || Preserved(old(memory), memory, old(live))
      ensures ptr != 0 && !old(Wraps(newSize)) ==>
        Contents(memory, ptr, Align(originalSize)) == old(Contents(memory, originalPtr, Align(originalSize)))
    {
      hide Inv;
      hide Align;
      hide Contents;
      hide HasRoom;
      hide NoWrap;
      if newSize == 0 {
        return 0;
      }
      var o, n := Align(originalSize), Align(newSize);
      if o >= n {
        return originalPtr;
      }
      ghost var exact := NoWrap(State(), newSize);
      SomeChunk(State(), live, k);
      if exact {
        NoWrapRounded(State(), newSize);
        HeadSum(State(), o, newSize);
      }
      if originalPtr + o == Mark(chunks[0]) {
        var increment := n - o;
        if HasRoom(State(), increment) {
          if exact {
            ReallocInPlace(State(), live, k, originalSize, newSize, base);
          }
          chunks := Bump(State(), increment).chunks;
          live := live[k := Block(originalPtr, n)];
          return originalPtr;
        }
      }
      ghost var was, blocks := State(), live;
      if exact {
        ReallocElsewhere(was, blocks, k, originalSize, newSize, base);
      }
      ptr := MallocHere(n, base);
      if ptr != 0 {
        if exact {
          NewIsElsewhere(State(), blocks, k, Block(ptr, n));
          CopyPreserves(memory, State(), blocks, k, Block(ptr, n));
        }
        memory := Copied(memory, ptr, originalPtr, o);
      }
    }

    /** A null pointer is allocated, any other block (the k-th handed out) resized. */
    method ReallocHere(originalPtr: nat, originalSize: nat, newSize: nat, base: Base, ghost k: nat) returns (ptr: nat)
      requires Valid() && Honest(State(), base)
      requires originalPtr != 0 ==> k < |live| && originalPtr == live[k].addr && Align(originalSize) == live[k].size
      modifies this
      ensures Realloc(old(State()), originalPtr, originalSize, newSize, base) == Answer(State(), ptr)
      ensures old(Wraps(newSize)) || (Valid() && Preserved(old(memory), memory, old(live)))
      ensures originalPtr != 0 && ptr != 0 && !old(Wraps(newSize)) ==>
        Contents(memory, ptr, Align(originalSize)) == old(Contents(memory, originalPtr, Align(originalSize)))
    {
      hide Inv;
      hide Align;
      hide Contents;
      hide NoWrap;
      if originalPtr == 0 {
        ptr := MallocHere(newSize, base);
      } else {
        ptr := Resize(originalPtr, originalSize, newSize, base, k);
      }
    }

    /** Gives everything back but the user's buffer. */
    method ClearHere()
      requires Valid()
      modifies this`chunks, this`live
      ensures Valid() && State() == Clear(old(State())) && live == []
    {
      ClearKeeps(State(), live);
      ghost var goal := Cleared(chunks, userBuffer);
      while chunks != [] && chunks[0].addr != userBuffer
        invariant Cleared(chunks, userBuffer) == goal
        decreases |chunks|
      {
        chunks := chunks[1..];
      }
      if chunks != [] && chunks[0].addr == userBuffer {
        chunks := [chunks[0].(size := 0)] + chunks[1..];
      }
      live := [];
    }

    /** Counts the bytes in use: the handed-out blocks, each rounded up. */
    method Size() returns (size: nat)
      requires Valid()
      ensures size == Total(live)
    {
      size := 0;
      var c := 0;
      assert chunks[0..] == chunks;
      while c < |chunks|
        invariant 0 <= c <= |chunks|
        invariant size + Used(chunks[c..]) == Used(chunks)
      {
        assert chunks[c..][1..] == chunks[c + 1..];
        size := size + chunks[c].size;
        c := c + 1;
      }
    }
  }

  /** The bytes of all blocks are as before. */
  ghost predicate Preserved<T>(before: nat -> T, memory: nat -> T, live: seq<Block>) {
    forall i :: 0 <= i < |live| ==>
      Contents(memory, live[i].addr, live[i].size) == Contents(before, live[i].addr, live[i].size)
  }

  lemma HeadSum(p: Pool, o: nat, newSize: nat)
    requires p.chunks != [] && NoWrap(p, newSize) && o <= Align(newSize)
    ensures newSize + 7 < TWO_TO_THE_64 && p.chunks[0].size + Align(newSize) - o < TWO_TO_THE_64
  {
  }

  /** Rounding a size twice is rounding it once. */
  lemma NoWrapRounded(p: Pool, size: nat)
    requires NoWrap(p, size)
    ensures Align(Align(size)) == Align(size) && NoWrap(p, Align(size))
  {
    AlignIs(size);
    AlignOfAligned(Align(size));
  }

  lemma SomeChunk(p: Pool, live: seq<Block>, k: nat)
    requires Inv(p, live) && k < |live|
    ensures p.chunks != []
  {
    assert BlockOk(p.chunks, live[k]);
  }

  lemma NewIsElsewhere(p: Pool, live: seq<Block>, k: nat, b: Block)
    requires Inv(p, live + [b]) && k < |live|
    ensures b.addr != live[k].addr
  {
    var blocks := live + [b];
    assert Separate(blocks[k], blocks[|live|]) && BlockOk(p.chunks, blocks[k]) && BlockOk(p.chunks, blocks[|live|]);
  }
}
