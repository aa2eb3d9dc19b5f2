/**
 What each call of the allocator answers, in arithmetic that does not wrap: when it returns null, where a block
 lies, and what becomes of the chunks.
 */
module PoolAllocatorAnswers {
  import opened PoolAllocator
  import opened PoolAllocatorProof

  /** The next multiple of eight. */
  function RoundUp(n: nat): nat {
    (n + 7) / 8 * 8
  }

  /** The head exists and has `n` bytes left. */
  predicate HeadTakes(s: Pool, n: nat) {
    s.chunks != [] && s.chunks[0].size + n <= s.chunks[0].capacity
  }

  /** The block is cut from what chunk `c` has left; `behind` are the other chunks. */
  predicate IsCut(s: Pool, c: Chunk, behind: seq<Chunk>, size: nat, r: Result) {
    && r.ptr == c.base + 24 + c.size
    && r.pool.chunks == [Chunk(c.base, c.capacity, c.size + RoundUp(size))] + behind
    && r.pool == s.(chunks := r.pool.chunks, blocks := s.blocks[r.ptr := size])
  }

  /**
   `Malloc`: null exactly when nothing is asked for, or the head has no room and the base allocator refuses; else a
   block of the head if that has room, and the first block of a new chunk, large enough, if not.
   */
  predicate MallocAnswer(s: Pool, size: nat, base: nat, r: Result) {
    var n := RoundUp(size);
    && (r.ptr == 0 <==> size == 0 || (!HeadTakes(s, n) && base == 0))
    && (r.ptr == 0 ==> r.pool == s)
    && (size > 0 && HeadTakes(s, n) ==> IsCut(s, s.chunks[0], s.chunks[1..], size, r))
    && (size > 0 && !HeadTakes(s, n) && base != 0 ==>
          exists capacity | capacity >= n && capacity >= s.chunkCapacity && capacity in {n, s.chunkCapacity} ::
            IsCut(s, Chunk(base, capacity, 0), s.chunks, size, r))
  }

  lemma AlignIsRoundUp(n: nat)
    requires n + 7 < SIZE_T
    ensures Align(n) == RoundUp(n)
  {
  }

  lemma MallocAnswers(s: Pool, size: nat, base: nat)
    requires Invariant(s) && MallocFits(s, size)
    ensures MallocAnswer(s, size, base, Malloc(s, size, base))
  {
    if size > 0 {
      AlignIsRoundUp(size);
      hide Align, RoundUp;
      if s.chunks != [] { assert ChunkFits(s.chunks[0]); }
      var n := Align(size);
      assert NeedsChunk(s, n) <==> !HeadTakes(s, n);
      var r := Malloc(s, size, base);
      if NeedsChunk(s, n) {
        if base != 0 { assert IsCut(s, Chunk(base, NewCapacity(s, n), 0), s.chunks, size, r); }
      } else {
        assert s.chunks == [s.chunks[0]] + s.chunks[1..];
      }
    }
  }

  /** For every request, wrapping ones included: null exactly in these cases, all sums being 64-bit sums. */
  lemma NullExactly(s: Pool, size: nat, base: nat)
    requires Invariant(s) && size < SIZE_T
    ensures Malloc(s, size, base).ptr == 0 <==>
              || size == 0
              || (base == 0 && (s.chunks == []
                                || (s.chunks[0].size + (size + 7) % SIZE_T / 8 * 8) % SIZE_T > s.chunks[0].capacity))
  {
    assert Align(size) == (size + 7) % SIZE_T / 8 * 8;
    hide Align;
    if s.chunks != [] { assert ChunkFits(s.chunks[0]); }
  }

  /** The block ends where the head's next one would begin. */
  predicate IsLast(s: Pool, ptr: nat, size: nat) {
    s.chunks != [] && ptr + RoundUp(size) == s.chunks[0].base + 24 + s.chunks[0].size
  }

  /** A block that has to move, because it grows and is not the last of the head with room behind it. */
  predicate Moves(s: Pool, ptr: nat, originalSize: nat, newSize: nat) {
    && RoundUp(originalSize) < RoundUp(newSize)
    && !(IsLast(s, ptr, originalSize) && HeadTakes(s, RoundUp(newSize) - RoundUp(originalSize)))
  }

  /**
   `Realloc` of a block: null exactly when nothing is asked for, or the block has to move, the head has no room for
   it and the base allocator refuses. The block stays where it is exactly when it need not move; the head grows then
   by what the block grows. A block that moves is one `Malloc` makes.
   */
  predicate ReallocAnswer(s: Pool, ptr: nat, originalSize: nat, newSize: nat, base: nat, r: Result) {
    var a, b := RoundUp(originalSize), RoundUp(newSize);
    && (r.ptr == 0 <==>
          newSize == 0 || (Moves(s, ptr, originalSize, newSize) && !HeadTakes(s, b) && base == 0))
    && (r.ptr == ptr <==> newSize > 0 && !Moves(s, ptr, originalSize, newSize))
    && (newSize == 0 ==> r.pool == s)
    && (newSize > 0 && b <= a ==> r.pool == s.(blocks := s.blocks[ptr := newSize]))
    && (r.ptr == ptr && a < b ==>
          && s.chunks != []
          && r.pool.chunks == [Chunk(s.chunks[0].base, s.chunks[0].capacity, s.chunks[0].size + (b - a))]
            + s.chunks[1..]
          && r.pool == s.(chunks := r.pool.chunks, blocks := s.blocks[ptr := newSize]))
    && (newSize > 0 && Moves(s, ptr, originalSize, newSize) ==> MallocAnswer(s, newSize, base, r))
  }

  lemma ReallocAnswers(s: Pool, ptr: nat, originalSize: nat, newSize: nat, base: nat)
    requires Invariant(s) && ptr in s.blocks && s.blocks[ptr] == originalSize
    requires ReallocFits(s, ptr, originalSize, newSize) && BaseFits(s, base, NewCapacity(s, Align(newSize)))
    ensures ReallocAnswer(s, ptr, originalSize, newSize, base, Realloc(s, ptr, originalSize, newSize, base))
  {
    hide Align, RoundUp, Malloc, MallocAnswer, Invariant, BlockFits, BaseFits, NoWrap;
    Positive(s, ptr);
    if newSize > 0 {
      Fits7(s, ptr);
      AlignIsRoundUp(originalSize);
      AlignIsRoundUp(newSize);
      var a, b := Align(originalSize), Align(newSize);
      if a < b {
        HeadOf(s, ptr);
        RoomIsReal(s, ptr, originalSize, newSize);
        if Expands(s, ptr, a, b) {
          assert s.chunks == [s.chunks[0]] + s.chunks[1..];
        } else {
          MoveAnswers(s, newSize, base);
          MallocKeeps(s, newSize, base);
        }
      }
    }
  }

  lemma Fits7(s: Pool, ptr: nat)
    requires Invariant(s) && ptr in s.blocks
    ensures s.blocks[ptr] + 7 < SIZE_T
  {
    assert BlockFits(s, ptr);
  }

  lemma HeadOf(s: Pool, ptr: nat)
    requires Invariant(s) && ptr in s.blocks
    ensures s.chunks != []
  {
    assert BlockFits(s, ptr);
  }

  /** Asking for the rounded size and then noting the size itself is asking for the size. */
  lemma MoveAnswers(s: Pool, newSize: nat, base: nat)
    requires Invariant(s) && newSize > 0 && NoWrap(s, newSize)
    ensures var r := Malloc(s, Align(newSize), base);
            var r' := if r.ptr == 0 then r else Result(r.pool.(blocks := r.pool.blocks[r.ptr := newSize]), r.ptr);
            && r' == Malloc(s, newSize, base) && MallocAnswer(s, newSize, base, r')
            && (r'.ptr == 0 <==> !HeadTakes(s, RoundUp(newSize)) && base == 0)
  {
    hide Align, Invariant;
    Aligns(newSize);
    AlignAgain(newSize);
    MallocAnswers(s, newSize, base);
  }

  /** `Clear` keeps of the chunks the user's buffer, emptied, and what lies behind it; nothing if there is none. */
  lemma {:induction false} ClearAnswers(s: Pool, k: nat)
    requires k <= |s.chunks| && (forall j | 0 <= j < k :: s.chunks[j].base != s.userBuffer)
    requires k < |s.chunks| ==> s.chunks[k].base == s.userBuffer
    ensures Clear(s) == Pool(if k == |s.chunks| then []
                             else [Chunk(s.userBuffer, s.chunks[k].capacity, 0)] + s.chunks[k + 1..],
                             map[], s.chunkCapacity, s.userBuffer)
  {
    DropsDownTo(s.chunks, s.userBuffer, k);
  }

  lemma {:induction false} DropsDownTo(chunks: seq<Chunk>, userBuffer: nat, k: nat)
    requires k <= |chunks| && (forall j | 0 <= j < k :: chunks[j].base != userBuffer)
    requires k < |chunks| ==> chunks[k].base == userBuffer
    ensures Drop(chunks, userBuffer)
            == if k == |chunks| then [] else [Chunk(userBuffer, chunks[k].capacity, 0)] + chunks[k + 1..]
  {
    if k > 0 {
      DropsDownTo(chunks[1..], userBuffer, k - 1);
      assert k < |chunks| ==> chunks[1..][k..] == chunks[k + 1..];
    } else if chunks != [] {
      assert chunks == [chunks[0]] + chunks[1..];
    }
  }
}
