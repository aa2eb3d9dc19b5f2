/**
 `MemoryPoolAllocator` as an object, and the memory its blocks lie in. The list of chunks is a sequence whose
 head changes in place; what the base allocator returns is a parameter.
 */
module PoolAllocatorObject {
  import opened PoolAllocator
  import opened PoolAllocatorProof
  import Answers = PoolAllocatorAnswers

  /** The bytes capacity and size add up to. */
  function TotalCapacity(chunks: seq<Chunk>): nat {
    if chunks == [] then 0 else TotalCapacity(chunks[..|chunks| - 1]) + chunks[|chunks| - 1].capacity
  }

  function TotalSize(chunks: seq<Chunk>): nat {
    if chunks == [] then 0 else TotalSize(chunks[..|chunks| - 1]) + chunks[|chunks| - 1].size
  }

  /** No more is used than there is. */
  lemma {:induction false} UsedWithinCapacity(chunks: seq<Chunk>)
    requires forall k | 0 <= k < |chunks| :: ChunkFits(chunks[k])
    ensures TotalSize(chunks) <= TotalCapacity(chunks)
  {
    if chunks != [] {
      UsedWithinCapacity(chunks[..|chunks| - 1]);
      assert ChunkFits(chunks[|chunks| - 1]);
    }
  }

  /** The `n` bytes from address `p` on. */
  function BytesAt(memory: int -> int, p: nat, n: nat): seq<int> {
    seq(n, i requires 0 <= i < n => memory(p + i))
  }

  class MemoryPoolAllocator {
    const chunkCapacity: nat
    const userBuffer: nat
    var chunks: seq<Chunk>
    ghost var blocks: map<nat, nat>
    var memory: int -> int

    ghost function Current(): Pool
      reads this
    {
      Pool(chunks, blocks, chunkCapacity, userBuffer)
    }

    constructor (chunkCapacity: nat, buffer: nat, size: nat)
      requires buffer != 0 ==> buffer % 8 == 0 && size > HEADER && buffer + size <= SIZE_T
      ensures Invariant(Current()) && blocks == map[]
      ensures this.chunkCapacity == chunkCapacity && this.userBuffer == buffer
    {
      this.chunkCapacity, this.userBuffer := chunkCapacity, buffer;
      chunks := if buffer == 0 then [] else [Chunk(buffer, size - HEADER, 0)];
      blocks := map[];
      memory := _ => 0;
      new;
      NewKeeps(chunkCapacity, buffer, size);
    }

    method Capacity() returns (capacity: nat)
      ensures capacity == TotalCapacity(chunks)
    {
      capacity := 0;
      var c := 0;
      assert chunks[..0] == [];
      while c < |chunks|
        invariant c <= |chunks| && capacity == TotalCapacity(chunks[..c])
      {
        assert chunks[..c + 1][..c] == chunks[..c];
        capacity := capacity + chunks[c].capacity;
        c := c + 1;
      }
      assert chunks[..c] == chunks;
    }

    /** The bytes in use; never more than the capacity. */
    method Size() returns (size: nat)
      requires Invariant(Current())
      ensures size == TotalSize(chunks) <= TotalCapacity(chunks)
    {
      size := 0;
      var c := 0;
      assert chunks[..0] == [];
      while c < |chunks|
        invariant c <= |chunks| && size == TotalSize(chunks[..c])
      {
        assert chunks[..c + 1][..c] == chunks[..c];
        size := size + chunks[c].size;
        c := c + 1;
      }
      assert chunks[..c] == chunks;
      UsedWithinCapacity(chunks);
    }

    /** False when the base allocator refuses. */
    method AddNewChunk(capacity: nat, base: nat) returns (ok: bool)
      modifies this`chunks
      ensures ok == (base != 0)
      ensures chunks == if ok then [Chunk(base, capacity, 0)] + old(chunks) else old(chunks)
    {
      ok := base != 0;
      if ok {
        chunks := [Chunk(base, capacity, 0)] + chunks;
      }
    }

    method Malloc(size: nat, base: nat) returns (ptr: nat)
      requires Invariant(Current()) && Legal(Current(), MallocOp(size, base))
      modifies this`chunks, this`blocks
      ensures Result(Current(), ptr) == PoolAllocator.Malloc(old(Current()), size, base)
      ensures Answers.MallocAnswer(old(Current()), size, base, Result(Current(), ptr))
      ensures Invariant(Current())
      ensures ptr != 0 ==> ptr !in old(blocks) && blocks == old(blocks)[ptr := size]
      ensures ptr == 0 ==> blocks == old(blocks)
    {
      hide Invariant, Align, Answers.MallocAnswer;
      MallocKeeps(Current(), size, base);
      Answers.MallocAnswers(Current(), size, base);
      if size == 0 {
        return 0;
      }
      var aligned := Align(size);
      if |chunks| == 0 || Wrap(chunks[0].size + aligned) > chunks[0].capacity {
        var ok := AddNewChunk(if chunkCapacity > aligned then chunkCapacity else aligned, base);
        if !ok {
          return 0;
        }
      }
      ptr := chunks[0].base + HEADER + chunks[0].size;
      chunks := chunks[0 := chunks[0].(size := chunks[0].size + aligned)];
      blocks := blocks[ptr := size];
    }

    /**
     `Realloc`. The bytes of the block, up to its original size or the new one, are where the returned pointer
     points; no other block's bytes have changed.
     */
    method Realloc(originalPtr: nat, originalSize: nat, newSize: nat, base: nat) returns (ptr: nat)
      requires Invariant(Current()) && Legal(Current(), ReallocOp(originalPtr, originalSize, newSize, base))
      modifies this
      ensures Result(Current(), ptr) == PoolAllocator.Realloc(old(Current()), originalPtr, originalSize, newSize, base)
      ensures originalPtr == 0 ==> Answers.MallocAnswer(old(Current()), newSize, base, Result(Current(), ptr))
      ensures originalPtr != 0 ==>
                Answers.ReallocAnswer(old(Current()), originalPtr, originalSize, newSize, base, Result(Current(), ptr))
      ensures Invariant(Current())
      ensures ptr != 0 && originalPtr != 0 ==>
                var n := if originalSize < newSize then originalSize else newSize;
                BytesAt(memory, ptr, n) == BytesAt(old(memory), originalPtr, n)
      ensures forall p <- old(blocks) :: BytesAt(memory, p, old(blocks)[p]) == BytesAt(old(memory), p, old(blocks)[p])
    {
      hide Invariant, Align, NoWrap, BaseFits, BytesAt, Answers.MallocAnswer, Answers.ReallocAnswer;
      ReallocKeeps(Current(), originalPtr, originalSize, newSize, base);
      if originalPtr == 0 {
        ptr := Malloc(newSize, base);
        return;
      }
      Answers.ReallocAnswers(Current(), originalPtr, originalSize, newSize, base);
      if newSize == 0 {
        return 0;
      }
      var a, b := Align(originalSize), Align(newSize);
      if a >= b {
        blocks := blocks[originalPtr := newSize];
        return originalPtr;
      }
      if |chunks| > 0 && originalPtr == chunks[0].base + HEADER + chunks[0].size - a {
        var increment := b - a;
        if Wrap(chunks[0].size + increment) <= chunks[0].capacity {
          chunks := chunks[0 := chunks[0].(size := chunks[0].size + increment)];
          blocks := blocks[originalPtr := newSize];
          return originalPtr;
        }
      }
      LegalMove(Current(), originalPtr, originalSize, newSize, base);
      ptr := Malloc(b, base);
      if ptr != 0 {
        ghost var before := old(blocks);
        CopyApart(Current(), before, originalPtr, ptr, b, originalSize);
        MemCpy(ptr, originalPtr, a);
        BytesCopied(old(memory), memory, before, ptr, originalPtr, a);
        blocks := blocks[ptr := newSize];
      }
    }

    /** What `Realloc` asks of `Malloc` when the block must move. */
    lemma LegalMove(s: Pool, ptr: nat, originalSize: nat, newSize: nat, base: nat)
      requires Invariant(s) && Legal(s, ReallocOp(ptr, originalSize, newSize, base)) && ptr != 0 && newSize > 0
      requires Align(originalSize) < Align(newSize) && !Expands(s, ptr, Align(originalSize), Align(newSize))
      ensures Legal(s, MallocOp(Align(newSize), base)) && Align(newSize) > 0 && originalSize < newSize
    {
      hide Align;
      assert BlockFits(s, ptr);
      if newSize <= originalSize { AlignMonotone(newSize, originalSize); }
      Aligns(newSize);
      AlignAgain(newSize);
      if s.chunks != [] { RoomIsReal(s, ptr, originalSize, newSize); }
    }

    /** The new block lies apart from the padded old one, and from all others. */
    lemma CopyApart(s: Pool, before: map<nat, nat>, originalPtr: nat, ptr: nat, b: nat, originalSize: nat)
      requires Invariant(s) && ptr !in before && s.blocks == before[ptr := b]
      requires originalPtr in before && before[originalPtr] == originalSize && Align(originalSize) < b
      ensures originalSize <= Align(originalSize)
      ensures originalPtr + Align(originalSize) <= ptr || ptr + Align(originalSize) <= originalPtr
      ensures forall p <- before :: p + before[p] <= ptr || ptr + Align(originalSize) <= p
    {
      hide Align;
      assert BlockFits(s, originalPtr) && BlockFits(s, ptr);
      Aligns(originalSize);
      Aligns(b);
      forall p | p in before ensures p + before[p] <= ptr || ptr + Align(originalSize) <= p {
        assert BlockFits(s, p);
        Aligns(before[p]);
      }
    }

    lemma BytesCopied(m: int -> int, m': int -> int, before: map<nat, nat>, ptr: nat, originalPtr: nat, a: nat)
      requires forall x: int | ptr <= x < ptr + a :: m'(x) == m(x - ptr + originalPtr)
      requires forall x: int | x < ptr || ptr + a <= x :: m'(x) == m(x)
      requires forall p <- before :: p + before[p] <= ptr || ptr + a <= p
      requires originalPtr in before && before[originalPtr] <= a
      ensures BytesAt(m', ptr, before[originalPtr]) == BytesAt(m, originalPtr, before[originalPtr])
      ensures forall p <- before :: BytesAt(m', p, before[p]) == BytesAt(m, p, before[p])
    {
    }

    /** `memcpy` between stretches that do not overlap. */
    method MemCpy(target: nat, source: nat, n: nat)
      requires source + n <= target || target + n <= source
      modifies this`memory
      ensures forall x: int | target <= x < target + n :: memory(x) == old(memory)(x - target + source)
      ensures forall x: int | x < target || target + n <= x :: memory(x) == old(memory)(x)
    {
      var i := 0;
      while i < n
        invariant i <= n
        invariant forall x: int | target <= x < target + i :: memory(x) == old(memory)(x - target + source)
        invariant forall x: int | x < target || target + i <= x :: memory(x) == old(memory)(x)
      {
        var m, c := memory, memory(source + i);
        memory := x => if x == target + i then c else m(x);
        i := i + 1;
      }
    }

    /** The loop of `Clear`. */
    method Clear()
      requires Invariant(Current())
      modifies this`chunks, this`blocks
      ensures Current() == PoolAllocator.Clear(old(Current())) && Invariant(Current()) && blocks == map[]
    {
      ClearKeeps(Current());
      while chunks != [] && chunks[0].base != userBuffer
        invariant Drop(old(chunks), userBuffer) == Drop(chunks, userBuffer)
        decreases |chunks|
      {
        chunks := chunks[1..];
      }
      if chunks != [] && chunks[0].base == userBuffer {
        chunks := chunks[0 := chunks[0].(size := 0)];
      }
      blocks := map[];
    }
  }
}
