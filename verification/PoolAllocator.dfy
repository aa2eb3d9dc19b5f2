/**
 `MemoryPoolAllocator`: blocks are cut from the head of a list of chunks; a new chunk is added when the head
 is too full. Addresses and sizes are 64-bit numbers, and 0 is the null pointer. Which address a new chunk gets
 is up to the base allocator; it may also refuse.
 */
module PoolAllocator {

  /** size_t is a 64-bit unsigned integer: sums wrap. */
  const SIZE_T := 0x1_0000_0000_0000_0000

  function Wrap(n: nat): nat {
    n % SIZE_T
  }

  /** RAPIDJSON_ALIGN: add seven, clear the low three bits. */
  function Align(n: nat): nat {
    var m := Wrap(n + 7);
    m - m % 8
  }

  /** The chunk header: capacity, size, next. */
  const HEADER := 24

  datatype Chunk = Chunk(base: nat, capacity: nat, size: nat)

  /** The chunks, the head first, and the blocks handed out since the last clear: from address to requested size. */
  datatype Pool = Pool(chunks: seq<Chunk>, blocks: map<nat, nat>, chunkCapacity: nat, userBuffer: nat)

  /** Where the next block of a chunk begins. */
  function Next(c: Chunk): nat {
    c.base + HEADER + c.size
  }

  function Limit(c: Chunk): nat {
    c.base + HEADER + c.capacity
  }

  datatype Result = Result(pool: Pool, ptr: nat)

  /** The bytes `AddChunk` asks the base allocator for: the sum wraps. */
  function Requested(capacity: nat): nat {
    Wrap(HEADER + capacity)
  }

  /** `AddChunk`; `base` is what the base allocator returns. */
  function AddChunk(s: Pool, capacity: nat, base: nat): Pool {
    s.(chunks := [Chunk(base, capacity, 0)] + s.chunks)
  }

  /** Must `Malloc` add a chunk for an aligned size? */
  predicate NeedsChunk(s: Pool, size: nat) {
    s.chunks == [] || Wrap(s.chunks[0].size + size) > s.chunks[0].capacity
  }

  function NewCapacity(s: Pool, size: nat): nat {
    if s.chunkCapacity > size then s.chunkCapacity else size
  }

  /** Cut an aligned size from the head. */
  function Cut(s: Pool, aligned: nat, size: nat): Result
    requires s.chunks != []
  {
    var head := s.chunks[0];
    var ptr := Next(head);
    Result(s.(chunks := s.chunks[0 := head.(size := head.size + aligned)], blocks := s.blocks[ptr := size]), ptr)
  }

  function Malloc(s: Pool, size: nat, base: nat): Result {
    if size == 0 then Result(s, 0)
    else
      var aligned := Align(size);
      if !NeedsChunk(s, aligned) then Cut(s, aligned, size)
      else if base == 0 then Result(s, 0)
      else Cut(AddChunk(s, NewCapacity(s, aligned), base), aligned, size)
  }

  /** Is the block the last of the head, with room behind it for an aligned increment? */
  predicate Expands(s: Pool, ptr: nat, originalSize: nat, newSize: nat)
    requires originalSize <= newSize
  {
    && s.chunks != []
    && ptr == Next(s.chunks[0]) - originalSize
    && Wrap(s.chunks[0].size + (newSize - originalSize)) <= s.chunks[0].capacity
  }

  /** `Realloc`. A block that is moved stays allocated: nothing is freed. */
  function Realloc(s: Pool, ptr: nat, originalSize: nat, newSize: nat, base: nat): Result {
    if ptr == 0 then Malloc(s, newSize, base)
    else if newSize == 0 then Result(s, 0)
    else
      var a, b := Align(originalSize), Align(newSize);
      if a >= b then Result(s.(blocks := s.blocks[ptr := newSize]), ptr)
      else if Expands(s, ptr, a, b) then
        var head := s.chunks[0];
        Result(s.(chunks := s.chunks[0 := head.(size := head.size + (b - a))], blocks := s.blocks[ptr := newSize]), ptr)
      else
        var r := Malloc(s, b, base);
        if r.ptr == 0 then r else Result(r.pool.(blocks := r.pool.blocks[r.ptr := newSize]), r.ptr)
  }

  /** `Clear`: free chunks down to the user's buffer, and empty that. */
  function Clear(s: Pool): Pool {
    s.(chunks := Drop(s.chunks, s.userBuffer), blocks := map[])
  }

  function Drop(chunks: seq<Chunk>, userBuffer: nat): seq<Chunk> {
    if chunks == [] then []
    else if chunks[0].base == userBuffer then chunks[0 := chunks[0].(size := 0)]
    else Drop(chunks[1..], userBuffer)
  }

  // What is kept

  /** A chunk is aligned, lies in the address space, and is not filled beyond its capacity. */
  predicate ChunkFits(c: Chunk) {
    0 < c.base && c.base % 8 == 0 && c.size % 8 == 0 && c.size <= c.capacity && Limit(c) <= SIZE_T
  }

  predicate Apart(a: Chunk, b: Chunk) {
    Limit(a) <= b.base || Limit(b) <= a.base
  }

  /** The block at `ptr`, with its padding, lies in the used part of the chunk. */
  predicate Inside(ptr: nat, size: nat, c: Chunk) {
    c.base + HEADER <= ptr && ptr + Align(size) <= Next(c)
  }

  predicate BlockFits(s: Pool, ptr: nat) {
    && ptr in s.blocks && ptr % 8 == 0 && 0 < s.blocks[ptr] && s.blocks[ptr] + 7 < SIZE_T
    && exists k | 0 <= k < |s.chunks| :: Inside(ptr, s.blocks[ptr], s.chunks[k])
  }

  /** Blocks do not overlap, paddings included. */
  predicate Disjoint(s: Pool) {
    forall p <- s.blocks, q <- s.blocks :: p < q ==> p + Align(s.blocks[p]) <= q
  }

  predicate Invariant(s: Pool) {
    && (forall k | 0 <= k < |s.chunks| :: ChunkFits(s.chunks[k]))
    && (forall j, k | 0 <= j < k < |s.chunks| :: Apart(s.chunks[j], s.chunks[k]))
    && (forall p <- s.blocks :: BlockFits(s, p))
    && Disjoint(s)
  }

  /** Do the `n` bytes from `base` on lie apart from a chunk? */
  predicate Beside(base: nat, n: nat, c: Chunk) {
    base + n <= c.base || Limit(c) <= base
  }

  /**
   What the base allocator promises about the bytes it was asked for: aligned, in the address space, apart from all
   chunks.
   */
  predicate BaseFits(s: Pool, base: nat, capacity: nat) {
    base != 0 ==>
      && base % 8 == 0 && base + Requested(capacity) <= SIZE_T
      && forall k | 0 <= k < |s.chunks| :: Beside(base, Requested(capacity), s.chunks[k])
  }

  /**
   Requests for which nothing wraps: the aligned size, its sum with what the head holds, the sum of a new chunk with
   its header.
   */
  predicate NoWrap(s: Pool, size: nat) {
    && size + 7 < SIZE_T
    && (s.chunks != [] ==> s.chunks[0].size + Align(size) < SIZE_T)
    && (NeedsChunk(s, Align(size)) ==> HEADER + NewCapacity(s, Align(size)) < SIZE_T)
  }

  /** What a caller of `Malloc` has to check; see `MallocKeepsExactly`. */
  predicate MallocFits(s: Pool, size: nat) {
    size == 0 || NoWrap(s, size)
  }

  /** What a caller of `Realloc` has to check; see `ReallocKeepsExactly`. */
  predicate ReallocFits(s: Pool, ptr: nat, originalSize: nat, newSize: nat) {
    if ptr == 0 || newSize == 0 then MallocFits(s, newSize)
    else
      var a, b := Align(originalSize), Align(newSize);
      newSize + 7 < SIZE_T && (a >= b || HasRoom(s, ptr, a, b) || NoWrap(s, newSize))
  }

  /** Is the block the last of the head, with room behind it indeed? */
  predicate HasRoom(s: Pool, ptr: nat, a: nat, b: nat)
    requires a <= b
  {
    s.chunks != [] && ptr == Next(s.chunks[0]) - a && s.chunks[0].size + (b - a) <= s.chunks[0].capacity
  }

  // Runs

  datatype Op =
    | MallocOp(size: nat, base: nat)
    | ReallocOp(ptr: nat, originalSize: nat, newSize: nat, base: nat)
    | ClearOp

  /** Truthful calls that do not wrap, and a base allocator that keeps its promise. */
  predicate Legal(s: Pool, op: Op) {
    match op
    case MallocOp(size, base) => MallocFits(s, size) && BaseFits(s, base, NewCapacity(s, Align(size)))
    case ReallocOp(ptr, originalSize, newSize, base) =>
      && (ptr != 0 ==> ptr in s.blocks && s.blocks[ptr] == originalSize)
      && ReallocFits(s, ptr, originalSize, newSize) && BaseFits(s, base, NewCapacity(s, Align(newSize)))
    case ClearOp => true
  }

  function Do(s: Pool, op: Op): Pool {
    match op
    case MallocOp(size, base) => Malloc(s, size, base).pool
    case ReallocOp(ptr, originalSize, newSize, base) => Realloc(s, ptr, originalSize, newSize, base).pool
    case ClearOp => Clear(s)
  }

  /** The pool behind a run; legal at every step. */
  predicate LegalRun(s: Pool, ops: seq<Op>)
    decreases |ops|
  {
    ops == [] || (Legal(s, ops[0]) && LegalRun(Do(s, ops[0]), ops[1..]))
  }

  function DoAll(s: Pool, ops: seq<Op>): Pool
    decreases |ops|
  {
    if ops == [] then s else DoAll(Do(s, ops[0]), ops[1..])
  }
}
