/**
 What every run of the allocator keeps: blocks are aligned, lie in their chunks and do not overlap; no
 chunk is filled beyond its capacity.
 */
module PoolAllocatorProof {
  import opened PoolAllocator

  lemma Aligns(n: nat)
    requires n + 7 < SIZE_T
    ensures Align(n) % 8 == 0 && n <= Align(n) < n + 8
    ensures n > 0 ==> Align(n) >= 8
  {
  }

  lemma AlignAgain(n: nat)
    requires n + 7 < SIZE_T
    ensures Align(Align(n)) == Align(n)
  {
    Aligns(n);
    assert Align(n) + 7 < SIZE_T;
  }

  lemma AlignMonotone(a: nat, b: nat)
    requires a <= b && b + 7 < SIZE_T
    ensures Align(a) <= Align(b)
  {
  }

  /** Blocks lie below the next free address of the head or in other chunks. */
  lemma NothingBehind(s: Pool, p: nat)
    requires Invariant(s) && s.chunks != [] && p in s.blocks
    ensures var head := s.chunks[0];
            (head.base + HEADER <= p && p + Align(s.blocks[p]) <= Next(head))
            || p + Align(s.blocks[p]) <= head.base || Limit(head) < p
  {
    assert BlockFits(s, p);
    var k :| 0 <= k < |s.chunks| && Inside(p, s.blocks[p], s.chunks[k]);
    if k > 0 {
      assert Apart(s.chunks[0], s.chunks[k]);
      assert ChunkFits(s.chunks[k]);
    }
  }

  /** The head's size grows. */
  function Grown(s: Pool, aligned: nat): Pool
    requires s.chunks != []
  {
    s.(chunks := s.chunks[0 := s.chunks[0].(size := s.chunks[0].size + aligned)])
  }

  lemma GrownKeeps(s: Pool, aligned: nat)
    requires Invariant(s) && s.chunks != [] && aligned % 8 == 0 && s.chunks[0].size + aligned <= s.chunks[0].capacity
    ensures Invariant(Grown(s, aligned))
  {
    hide Align;
    var s' := Grown(s, aligned);
    forall j, k | 0 <= j < k < |s'.chunks| ensures Apart(s'.chunks[j], s'.chunks[k]) {
      assert Apart(s.chunks[j], s.chunks[k]);
    }
    forall p | p in s'.blocks ensures BlockFits(s', p) {
      assert BlockFits(s, p);
      var k :| 0 <= k < |s.chunks| && Inside(p, s.blocks[p], s.chunks[k]);
      assert Inside(p, s.blocks[p], s'.chunks[k]);
    }
    forall k | 0 <= k < |s'.chunks| ensures ChunkFits(s'.chunks[k]) {
      assert ChunkFits(s.chunks[k]);
    }
  }

  /** A block is handed out, or changed, at the end of the head. */
  lemma BlockAtEnd(s: Pool, ptr: nat, size: nat)
    requires Invariant(s) && s.chunks != [] && 0 < size && size + 7 < SIZE_T
    requires s.chunks[0].base + HEADER <= ptr && ptr % 8 == 0 && ptr + Align(size) == Next(s.chunks[0])
    requires forall p <- s.blocks :: p != ptr ==> p + Align(s.blocks[p]) <= ptr || Next(s.chunks[0]) <= p
    ensures Invariant(s.(blocks := s.blocks[ptr := size]))
  {
    hide Align;
    Aligns(size);
    var s' := s.(blocks := s.blocks[ptr := size]);
    forall p | p in s'.blocks ensures BlockFits(s', p) {
      if p == ptr {
        assert Inside(ptr, size, s'.chunks[0]);
      } else {
        assert BlockFits(s, p);
        var k :| 0 <= k < |s.chunks| && Inside(p, s.blocks[p], s.chunks[k]);
        assert Inside(p, s'.blocks[p], s'.chunks[k]);
      }
    }
    forall p | p in s.blocks ensures Align(s.blocks[p]) > 0 {
      assert BlockFits(s, p);
      Aligns(s.blocks[p]);
    }
  }

  /** Cutting a block from the head. */
  lemma CutKeeps(s: Pool, size: nat)
    requires Invariant(s) && s.chunks != [] && 0 < size && size + 7 < SIZE_T
    requires s.chunks[0].size + Align(size) <= s.chunks[0].capacity
    ensures Invariant(Cut(s, Align(size), size).pool)
  {
    hide Align;
    var aligned := Align(size);
    Aligns(size);
    var ptr := Next(s.chunks[0]);
    assert ChunkFits(s.chunks[0]);
    forall p | p in s.blocks ensures p + Align(s.blocks[p]) <= ptr || Next(s.chunks[0]) + aligned <= p {
      NothingBehind(s, p);
    }
    GrownKeeps(s, aligned);
    BlockAtEnd(Grown(s, aligned), ptr, size);
  }

  lemma AddChunkKeeps(s: Pool, capacity: nat, base: nat)
    requires Invariant(s) && base != 0 && BaseFits(s, base, capacity) && HEADER + capacity < SIZE_T
    ensures Invariant(AddChunk(s, capacity, base))
  {
    hide Align;
    var s' := AddChunk(s, capacity, base);
    forall k | 0 <= k < |s'.chunks| ensures ChunkFits(s'.chunks[k]) {
      if k > 0 { assert s'.chunks[k] == s.chunks[k - 1]; }
    }
    forall j, k | 0 <= j < k < |s'.chunks| ensures Apart(s'.chunks[j], s'.chunks[k]) {
      assert s'.chunks[k] == s.chunks[k - 1];
      if j > 0 {
        assert s'.chunks[j] == s.chunks[j - 1];
      } else {
        assert Beside(base, Requested(capacity), s.chunks[k - 1]);
      }
    }
    forall p | p in s'.blocks ensures BlockFits(s', p) {
      assert BlockFits(s, p);
      var k :| 0 <= k < |s.chunks| && Inside(p, s.blocks[p], s.chunks[k]);
      assert s'.chunks[k + 1] == s.chunks[k];
    }
  }

  /** `Malloc` keeps the invariant, and returns null or a new block of the requested size. */
  lemma MallocKeeps(s: Pool, size: nat, base: nat)
    requires Invariant(s) && MallocFits(s, size) && BaseFits(s, base, NewCapacity(s, Align(size)))
    ensures var r := Malloc(s, size, base);
            && Invariant(r.pool)
            && (r.ptr == 0 ==> r.pool == s)
            && (r.ptr != 0 ==> r.ptr !in s.blocks && r.pool.blocks == s.blocks[r.ptr := size] && size > 0)
  {
    hide Align, Invariant;
    if size > 0 {
      var aligned := Align(size);
      Aligns(size);
      if !NeedsChunk(s, aligned) {
        CutKeeps(s, size);
        NewBlock(s);
      } else if base != 0 {
        var s1 := AddChunk(s, NewCapacity(s, aligned), base);
        AddChunkKeeps(s, NewCapacity(s, aligned), base);
        CutKeeps(s1, size);
        NewBlock(s1);
      }
    }
  }

  /** No block begins at the next free address. */
  lemma NewBlock(s: Pool)
    requires Invariant(s) && s.chunks != []
    ensures Next(s.chunks[0]) !in s.blocks && Next(s.chunks[0]) != 0
  {
    hide Align;
    assert ChunkFits(s.chunks[0]);
    forall p | p in s.blocks ensures p != Next(s.chunks[0]) {
      assert BlockFits(s, p);
      Aligns(s.blocks[p]);
      NothingBehind(s, p);
    }
  }

  // Realloc

  /** A block shrinks, or keeps its padded size. */
  lemma ShrinkKeeps(s: Pool, ptr: nat, size: nat)
    requires Invariant(s) && ptr in s.blocks && 0 < size && size + 7 < SIZE_T && Align(size) <= Align(s.blocks[ptr])
    ensures Invariant(s.(blocks := s.blocks[ptr := size]))
  {
    hide Align;
    var s' := s.(blocks := s.blocks[ptr := size]);
    forall p | p in s'.blocks ensures BlockFits(s', p) {
      assert BlockFits(s, p);
      var k :| 0 <= k < |s.chunks| && Inside(p, s.blocks[p], s.chunks[k]);
      assert Inside(p, s'.blocks[p], s'.chunks[k]);
    }
  }

  lemma Fits(s: Pool, ptr: nat)
    requires Invariant(s) && s.chunks != [] && ptr in s.blocks
    ensures BlockFits(s, ptr) && ChunkFits(s.chunks[0])
  {
    hide BlockFits, ChunkFits, Align;
  }

  /** Every other block ends before the last block of the head, or begins behind the head's limit. */
  lemma BesideLast(s: Pool, ptr: nat, p: nat)
    requires Invariant(s) && s.chunks != [] && ptr in s.blocks && p in s.blocks && p != ptr
    requires ptr + Align(s.blocks[ptr]) == Next(s.chunks[0])
    ensures p + Align(s.blocks[p]) <= ptr || Limit(s.chunks[0]) <= p
  {
    hide Align;
    assert BlockFits(s, p) && BlockFits(s, ptr);
    Aligns(s.blocks[p]);
    Aligns(s.blocks[ptr]);
    NothingBehind(s, p);
  }

  lemma ExpandKeeps(s: Pool, ptr: nat, newSize: nat)
    requires Invariant(s) && ptr in s.blocks && 0 < newSize && newSize + 7 < SIZE_T && s.chunks != []
    requires Align(s.blocks[ptr]) < Align(newSize) && HasRoom(s, ptr, Align(s.blocks[ptr]), Align(newSize))
    ensures Invariant(Grown(s, Align(newSize) - Align(s.blocks[ptr])).(blocks := s.blocks[ptr := newSize]))
  {
    hide Align, Invariant;
    Fits(s, ptr);
    var increment := Align(newSize) - Align(s.blocks[ptr]);
    Aligns(newSize);
    Aligns(s.blocks[ptr]);
    NothingBehind(s, ptr);
    var s1 := Grown(s, increment);
    GrownKeeps(s, increment);
    forall p | p in s.blocks && p != ptr ensures p + Align(s.blocks[p]) <= ptr || Next(s1.chunks[0]) <= p {
      BesideLast(s, ptr, p);
    }
    BlockAtEnd(s1, ptr, newSize);
  }

  /**
   `Realloc`, told the truth about the block, keeps the invariant. It returns the same block, resized; or a
   new block, the old one staying as it is; or null.
   */
  lemma ReallocKeeps(s: Pool, ptr: nat, originalSize: nat, newSize: nat, base: nat)
    requires Invariant(s) && Legal(s, ReallocOp(ptr, originalSize, newSize, base))
    ensures var r := Realloc(s, ptr, originalSize, newSize, base);
            && Invariant(r.pool)
            && (r.ptr != 0 ==> r.pool.blocks == s.blocks[r.ptr := newSize] && (r.ptr == ptr || r.ptr !in s.blocks))
            && (r.ptr == 0 ==> r.pool == s)
  {
    hide Align, Invariant;
    if ptr == 0 {
      MallocKeeps(s, newSize, base);
    } else if newSize > 0 {
      Positive(s, ptr);
      var a, b := Align(originalSize), Align(newSize);
      if a >= b {
        ShrinkKeeps(s, ptr, newSize);
      } else if Expands(s, ptr, a, b) {
        RoomIsReal(s, ptr, originalSize, newSize);
        ExpandKeeps(s, ptr, newSize);
      } else {
        if s.chunks != [] { RoomIsReal(s, ptr, originalSize, newSize); }
        MoveKeeps(s, newSize, base);
      }
    }
  }

  /** Without a wrap, the test for room behind the last block tells the truth. */
  lemma RoomIsReal(s: Pool, ptr: nat, originalSize: nat, newSize: nat)
    requires Invariant(s) && s.chunks != [] && ptr in s.blocks && s.blocks[ptr] == originalSize
    requires Align(originalSize) < Align(newSize)
    requires HasRoom(s, ptr, Align(originalSize), Align(newSize)) || NoWrap(s, newSize)
    ensures HasRoom(s, ptr, Align(originalSize), Align(newSize))
            <==> Expands(s, ptr, Align(originalSize), Align(newSize))
  {
    hide Align;
    assert ChunkFits(s.chunks[0]) && BlockFits(s, ptr);
  }

  lemma Positive(s: Pool, ptr: nat)
    requires Invariant(s) && ptr in s.blocks
    ensures ptr != 0
  {
    hide Align;
    assert BlockFits(s, ptr);
  }

  lemma MoveKeeps(s: Pool, newSize: nat, base: nat)
    requires Invariant(s) && newSize > 0 && NoWrap(s, newSize) && BaseFits(s, base, NewCapacity(s, Align(newSize)))
    ensures var r := Malloc(s, Align(newSize), base);
            && (r.ptr == 0 ==> r.pool == s)
            && (r.ptr != 0 ==> r.ptr !in s.blocks && r.pool.blocks == s.blocks[r.ptr := Align(newSize)]
                               && Invariant(r.pool.(blocks := r.pool.blocks[r.ptr := newSize])))
  {
    hide Align, Invariant;
    Aligns(newSize);
    AlignAgain(newSize);
    var r := Malloc(s, Align(newSize), base);
    MallocKeeps(s, Align(newSize), base);
    if r.ptr != 0 {
      ShrinkKeeps(r.pool, r.ptr, newSize);
    }
  }

  // Clear

  predicate ChunksFit(chunks: seq<Chunk>) {
    && (forall j | 0 <= j < |chunks| :: ChunkFits(chunks[j]))
    && (forall i, j | 0 <= i < j < |chunks| :: Apart(chunks[i], chunks[j]))
  }

  lemma {:induction false} DropKeeps(chunks: seq<Chunk>, userBuffer: nat)
    requires ChunksFit(chunks)
    ensures ChunksFit(Drop(chunks, userBuffer))
    decreases |chunks|
  {
    if chunks == [] {
    } else if chunks[0].base == userBuffer {
      var r := chunks[0 := chunks[0].(size := 0)];
      assert ChunkFits(chunks[0]);
      forall j | 0 <= j < |r| ensures ChunkFits(r[j]) { assert ChunkFits(chunks[j]); }
      forall i, j | 0 <= i < j < |r| ensures Apart(r[i], r[j]) { assert Apart(chunks[i], chunks[j]); }
    } else {
      var rest := chunks[1..];
      forall j | 0 <= j < |rest| ensures ChunkFits(rest[j]) { assert rest[j] == chunks[j + 1]; }
      forall i, j | 0 <= i < j < |rest| ensures Apart(rest[i], rest[j]) {
        assert rest[i] == chunks[i + 1] && rest[j] == chunks[j + 1];
      }
      DropKeeps(rest, userBuffer);
    }
  }

  lemma ClearKeeps(s: Pool)
    requires Invariant(s)
    ensures Invariant(Clear(s)) && Clear(s).blocks == map[]
  {
    hide Drop;
    assert ChunksFit(s.chunks);
    DropKeeps(s.chunks, s.userBuffer);
    assert ChunksFit(Clear(s).chunks);
  }

  /** A new allocator, with or without a buffer of the user's. */
  lemma NewKeeps(chunkCapacity: nat, buffer: nat, size: nat)
    requires buffer != 0 ==> buffer % 8 == 0 && size > HEADER && buffer + size <= SIZE_T
    ensures Invariant(Pool(if buffer == 0 then [] else [Chunk(buffer, size - HEADER, 0)], map[], chunkCapacity, buffer))
  {
  }

  lemma StepKeeps(s: Pool, op: Op)
    requires Invariant(s) && Legal(s, op)
    ensures Invariant(Do(s, op))
  {
    hide Invariant, Malloc, Realloc, Align;
    match op
    case MallocOp(size, base) => MallocKeeps(s, size, base);
    case ReallocOp(ptr, originalSize, newSize, base) => ReallocKeeps(s, ptr, originalSize, newSize, base);
    case ClearOp => ClearKeeps(s);
  }

  /** The theorem about all runs of truthful calls, of any length. */
  lemma {:induction false} EveryRun(s: Pool, ops: seq<Op>)
    requires Invariant(s) && LegalRun(s, ops)
    ensures Invariant(DoAll(s, ops))
    decreases |ops|
  {
    if ops != [] {
      hide Invariant, Do, Legal;
      StepKeeps(s, ops[0]);
      EveryRun(Do(s, ops[0]), ops[1..]);
    }
  }

  /** What the invariant means for two blocks: no address belongs to both. */
  lemma NoSharedAddress(s: Pool, p: nat, q: nat, a: nat)
    requires Invariant(s) && p in s.blocks && q in s.blocks && p != q
    requires p <= a < p + s.blocks[p]
    ensures !(q <= a < q + s.blocks[q])
  {
    hide Align;
    assert BlockFits(s, p) && BlockFits(s, q);
    Aligns(s.blocks[p]);
    Aligns(s.blocks[q]);
  }

  // Exactly when

  /** A request that wraps breaks the invariant, whatever `Malloc` hands out for it. */
  lemma MallocKeepsExactly(s: Pool, size: nat, base: nat)
    requires Invariant(s) && size < SIZE_T && BaseFits(s, base, NewCapacity(s, Align(size)))
    ensures var r := Malloc(s, size, base); Invariant(r.pool) <==> MallocFits(s, size) || r.ptr == 0
  {
    hide Align, Invariant, Malloc, NoWrap;
    var r := Malloc(s, size, base);
    if MallocFits(s, size) {
      MallocKeeps(s, size, base);
    } else if r.ptr == 0 {
      RefusalChangesNothing(s, size, base);
    } else if size + 7 >= SIZE_T {
      Registered(s, size, base);
      TooLarge(r.pool, r.ptr);
    } else {
      Overfills(s, size, base);
      Unfit(r.pool);
    }
  }

  lemma Registered(s: Pool, size: nat, base: nat)
    ensures var r := Malloc(s, size, base); r.ptr != 0 ==> r.ptr in r.pool.blocks && r.pool.blocks[r.ptr] == size
  {
    hide Align;
  }

  lemma Unfit(s: Pool)
    requires s.chunks != [] && !ChunkFits(s.chunks[0])
    ensures !Invariant(s)
  {
    hide ChunkFits, Align;
  }

  /** A sum that wraps leaves a head filled beyond its capacity, or one that does not fit the bytes it was made in. */
  lemma Overfills(s: Pool, size: nat, base: nat)
    requires Invariant(s) && 0 < size && size + 7 < SIZE_T && !NoWrap(s, size) && Malloc(s, size, base).ptr != 0
    ensures var r := Malloc(s, size, base); r.pool.chunks != [] && !ChunkFits(r.pool.chunks[0])
  {
    hide Align;
    var aligned := Align(size);
    Aligns(size);
    if NeedsChunk(s, aligned) {
      if s.chunks != [] { assert ChunkFits(s.chunks[0]); }
      if s.chunks != [] && s.chunks[0].size + aligned >= SIZE_T { SumWraps(s, aligned); }
    } else {
      assert ChunkFits(s.chunks[0]);
      SumWraps(s, aligned);
    }
  }

  /** A sum that wraps looks as if there were room. */
  lemma SumWraps(s: Pool, aligned: nat)
    requires s.chunks != [] && ChunkFits(s.chunks[0]) && aligned < SIZE_T && s.chunks[0].size + aligned >= SIZE_T
    ensures !NeedsChunk(s, aligned) && s.chunks[0].size + aligned > s.chunks[0].capacity
  {
    assert Wrap(s.chunks[0].size + aligned) == s.chunks[0].size + aligned - SIZE_T;
  }

  /** So does a new size that wraps, unless null is returned. */
  lemma ReallocKeepsExactly(s: Pool, ptr: nat, originalSize: nat, newSize: nat, base: nat)
    requires Invariant(s) && newSize < SIZE_T && BaseFits(s, base, NewCapacity(s, Align(newSize)))
    requires ptr != 0 ==> ptr in s.blocks && s.blocks[ptr] == originalSize
    ensures var r := Realloc(s, ptr, originalSize, newSize, base);
            Invariant(r.pool) <==> ReallocFits(s, ptr, originalSize, newSize) || r.ptr == 0
  {
    hide Align, Invariant, Malloc, NoWrap;
    var r := Realloc(s, ptr, originalSize, newSize, base);
    if ReallocFits(s, ptr, originalSize, newSize) {
      ReallocKeeps(s, ptr, originalSize, newSize, base);
    } else if ptr == 0 || newSize == 0 {
      MallocKeepsExactly(s, newSize, base);
    } else if r.ptr == 0 {
      RefusalChangesNothing(s, Align(newSize), base);
    } else if newSize + 7 >= SIZE_T {
      TooLarge(r.pool, r.ptr);
    } else if s.chunks != [] && Expands(s, ptr, Align(originalSize), Align(newSize)) {
      GrowthWraps(s, ptr, originalSize, newSize, base);
    } else {
      Aligns(newSize);
      AlignAgain(newSize);
      NoWrapAligned(s, newSize);
      Overfills(s, Align(newSize), base);
      Unfit(r.pool);
    }
  }

  lemma NoWrapAligned(s: Pool, size: nat)
    requires size + 7 < SIZE_T
    ensures NoWrap(s, Align(size)) <==> NoWrap(s, size)
    ensures Align(size) + 7 < SIZE_T
  {
    hide Align;
    Aligns(size);
    AlignAgain(size);
  }

  lemma RefusalChangesNothing(s: Pool, size: nat, base: nat)
    ensures Malloc(s, size, base).ptr == 0 ==> Malloc(s, size, base).pool == s
  {
    hide Align;
  }

  lemma TooLarge(s: Pool, ptr: nat)
    requires ptr in s.blocks && s.blocks[ptr] + 7 >= SIZE_T
    ensures !Invariant(s)
  {
    hide Align;
    assert !BlockFits(s, ptr);
  }

  /** A last block that grows by a sum that wraps leaves the head filled beyond its capacity. */
  lemma GrowthWraps(s: Pool, ptr: nat, originalSize: nat, newSize: nat, base: nat)
    requires Invariant(s) && ptr != 0 && ptr in s.blocks && s.blocks[ptr] == originalSize && 0 < newSize
             && newSize + 7 < SIZE_T
    requires !ReallocFits(s, ptr, originalSize, newSize)
    requires s.chunks != [] && Align(originalSize) < Align(newSize)
             && Expands(s, ptr, Align(originalSize), Align(newSize))
    ensures !Invariant(Realloc(s, ptr, originalSize, newSize, base).pool)
  {
    hide Align, NoWrap;
    Aligns(newSize);
    var r := Realloc(s, ptr, originalSize, newSize, base);
    assert ChunkFits(s.chunks[0]);
    assert !ChunkFits(r.pool.chunks[0]);
  }

  /**
   Three such requests: the largest is aligned to nothing, one whose sum with the head's size wraps passes the test for
   room, and one that an empty allocator makes a chunk of eight bytes for.
   */
  lemma WrappingRequests()
    ensures Align(SIZE_T - 1) == 0
    ensures var s := Pool([Chunk(8, 64, 8)], map[], 64, 0);
            !NeedsChunk(s, Align(SIZE_T - 8)) && s.chunks[0].size + Align(SIZE_T - 8) > s.chunks[0].capacity
    ensures var s := Pool([], map[], 65536, 0);
            Invariant(s) && !MallocFits(s, SIZE_T - 16) && Requested(NewCapacity(s, Align(SIZE_T - 16))) == 8
  {
  }
}
