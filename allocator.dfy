/**
 * The linear (bump) allocator of SimpleTiling.cpp:272-289 and the sequence of
 * allocations setup carves from its pool (SimpleTiling.cpp:341-363).
 * Addresses are byte offsets; contents of the memory are not modelled here.
 */
module Allocator {
  import opened Arith

  /** mem_budget: the size of the pool setup obtains. */
  const MemBudget: nat := 100000000

  /** sizeof(color_batch): eight 32-bit lanes. */
  const ColorBatchBytes: nat := 32

  /** sizeof(uint32_t). */
  const Uint32Bytes: nat := 4

  /** A range of bytes handed out by one allocation. */
  datatype Block = Block(start: nat, size: nat) {
    function End(): nat {
      start + size
    }
  }

  /** The blocks lie back to back, in order, from address from up to address to. */
  ghost predicate Chained(blocks: seq<Block>, from: nat, to: nat)
    decreases |blocks|
  {
    if blocks == [] then from == to
    else blocks[0].start == from && Chained(blocks[1..], blocks[0].End(), to)
  }

  lemma {:induction false} ChainExtend(blocks: seq<Block>, from: nat, to: nat, size: nat)
    requires Chained(blocks, from, to)
    ensures Chained(blocks + [Block(to, size)], from, to + size)
    decreases |blocks|
  {
    if blocks != [] {
      ChainExtend(blocks[1..], blocks[0].End(), to, size);
      assert (blocks + [Block(to, size)])[1..] == blocks[1..] + [Block(to, size)];
    }
  }

  /**
   * Chained blocks are increasing and pairwise non-overlapping, and all lie
   * in [from, to).
   */
  lemma {:induction false} ChainedDisjoint(blocks: seq<Block>, from: nat, to: nat)
    requires Chained(blocks, from, to)
    ensures forall i :: 0 <= i < |blocks| ==> from <= blocks[i].start && blocks[i].End() <= to
    ensures forall i, j :: 0 <= i < j < |blocks| ==> blocks[i].End() <= blocks[j].start
    decreases |blocks|
  {
    if blocks != [] {
      var tail := blocks[1..];
      ChainedDisjoint(tail, blocks[0].End(), to);
      forall i, j | 0 <= i < j < |blocks| ensures blocks[i].End() <= blocks[j].start {
        assert blocks[j] == tail[j - 1];
        if i > 0 {
          assert blocks[i] == tail[i - 1];
        }
      }
      forall i | 0 <= i < |blocks| ensures from <= blocks[i].start && blocks[i].End() <= to {
        if i > 0 {
          assert blocks[i] == tail[i - 1];
        }
      }
    }
  }

  class Arena {
    /** tiling_pool: the first address of the pool. */
    const pool: nat
    /** alloc_front: the next free address. */
    var front: nat
    /** Every allocation made since the pool was obtained, in order. */
    ghost var blocks: seq<Block>

    ghost predicate Valid()
      reads this
    {
      Chained(blocks, pool, front) && front <= pool + MemBudget
    }

    /** setup obtains the pool and points alloc_front at its start (SimpleTiling.cpp:341-342). */
    constructor (pool: nat)
      ensures Valid() && this.pool == pool && front == pool && blocks == []
    {
      this.pool := pool;
      front := pool;
      blocks := [];
    }

    /**
     * alloc<t>: hand out size = sizeof(t) bytes at the front. The source never
     * compares against mem_budget; staying inside the pool is the caller's
     * obligation, stated as the precondition.
     */
    method Alloc(size: nat) returns (ptr: nat)
      requires Valid() && front + size <= pool + MemBudget
      modifies this
      ensures Valid()
      ensures ptr == old(front) && front == old(front) + size
      ensures blocks == old(blocks) + [Block(ptr, size)]
    {
      ChainExtend(blocks, pool, front, size);
      ptr := front;
      front := front + size;
      blocks := blocks + [Block(ptr, size)];
    }

    /** alloc_array<t>(count): hand out eltSize * count bytes at the front, unchecked as Alloc. */
    method AllocArray(eltSize: nat, count: nat) returns (ptr: nat)
      requires Valid() && front + eltSize * count <= pool + MemBudget
      modifies this
      ensures Valid()
      ensures ptr == old(front) && front == old(front) + eltSize * count
      ensures blocks == old(blocks) + [Block(ptr, eltSize * count)]
    {
      ChainExtend(blocks, pool, front, eltSize * count);
      ptr := front;
      front := front + eltSize * count;
      blocks := blocks + [Block(ptr, eltSize * count)];
    }
  }

  /** Bytes setup takes from the pool for one tile: its buffer, its staging buffer and its strip list. */
  function PerTileBytes(areaVectors: nat): nat {
    2 * ColorBatchBytes * areaVectors + Uint32Bytes * areaVectors
  }

  /** Bytes setup takes from the pool in all: every tile, then the canvas back buffer. */
  function PoolBytes(numTiles: nat, areaVectors: nat, canvasWidth: nat, canvasHeight: nat): nat {
    numTiles * PerTileBytes(areaVectors) + Uint32Bytes * (canvasWidth * canvasHeight)
  }

  /** Where setup's allocations land: per tile three arrays, then the back buffer. */
  datatype PoolMap = PoolMap(tileBuffers: seq<nat>, stagingBuffers: seq<nat>, strips: seq<nat>, backBuffer: nat)

  /**
   * One iteration of setup's allocation loop (SimpleTiling.cpp:352-360): a
   * tile buffer, a staging buffer and a strip list, back to back.
   */
  method AllocTile(arena: Arena, areaVectors: nat) returns (buffer: nat, staging: nat, strip: nat)
    requires arena.Valid() && arena.front + PerTileBytes(areaVectors) <= arena.pool + MemBudget
    modifies arena
    ensures arena.Valid()
    ensures buffer == old(arena.front)
    ensures staging == buffer + ColorBatchBytes * areaVectors
    ensures strip == staging + ColorBatchBytes * areaVectors
    ensures arena.front == old(arena.front) + PerTileBytes(areaVectors)
    ensures |arena.blocks| == |old(arena.blocks)| + 3
  {
    buffer := arena.AllocArray(ColorBatchBytes, areaVectors);
    staging := arena.AllocArray(ColorBatchBytes, areaVectors);
    strip := arena.AllocArray(Uint32Bytes, areaVectors);
  }

  /** The offset of the next tile stays within the space of all tiles. */
  lemma NextTileOffset(i: nat, n: nat, per: nat)
    requires i < n
    ensures (i + 1) * per == i * per + per <= n * per
  {
    MulMono(i + 1, n, per);
  }

  /**
   * The allocation loop of setup (SimpleTiling.cpp:350-363) on a freshly
   * reset arena: tile i's buffer, staging buffer and strip list come at
   * pool + i * PerTileBytes, in that order, and the back buffer follows the
   * last tile.
   */
  method SetupAllocations(arena: Arena, numTiles: nat, areaVectors: nat, canvasWidth: nat, canvasHeight: nat)
    returns (m: PoolMap)
    requires arena.Valid() && arena.front == arena.pool && arena.blocks == []
    requires PoolBytes(numTiles, areaVectors, canvasWidth, canvasHeight) <= MemBudget
    modifies arena
    ensures arena.Valid()
    ensures arena.front == arena.pool + PoolBytes(numTiles, areaVectors, canvasWidth, canvasHeight)
    ensures |m.tileBuffers| == |m.stagingBuffers| == |m.strips| == numTiles
    ensures forall i :: 0 <= i < numTiles ==>
      && m.tileBuffers[i] == arena.pool + i * PerTileBytes(areaVectors)
      && m.stagingBuffers[i] == m.tileBuffers[i] + ColorBatchBytes * areaVectors
      && m.strips[i] == m.stagingBuffers[i] + ColorBatchBytes * areaVectors
    ensures m.backBuffer == arena.pool + numTiles * PerTileBytes(areaVectors)
    ensures |arena.blocks| == 3 * numTiles + 1
  {
    var per := PerTileBytes(areaVectors);
    var tileBuffers, stagingBuffers, strips := [], [], [];
    var i := 0;
    while i < numTiles
      invariant 0 <= i <= numTiles
      invariant arena.Valid()
      invariant arena.front == arena.pool + i * per
      invariant |arena.blocks| == 3 * i
      invariant |tileBuffers| == |stagingBuffers| == |strips| == i
      invariant forall k :: 0 <= k < i ==>
        && tileBuffers[k] == arena.pool + k * per
        && stagingBuffers[k] == tileBuffers[k] + ColorBatchBytes * areaVectors
        && strips[k] == stagingBuffers[k] + ColorBatchBytes * areaVectors
    {
      NextTileOffset(i, numTiles, per);
      var t, s, v := AllocTile(arena, areaVectors);
      tileBuffers, stagingBuffers, strips := tileBuffers + [t], stagingBuffers + [s], strips + [v];
      i := i + 1;
    }
    var back := arena.AllocArray(Uint32Bytes, canvasWidth * canvasHeight);
    m := PoolMap(tileBuffers, stagingBuffers, strips, back);
  }

  /** A 3840x2160 canvas in four tiles needs more than the fixed budget. */
  lemma BudgetTooSmallForUhd()
    ensures PoolBytes(4, 1920 / 8 * 1080, 3840, 2160) > MemBudget
  {
  }
}
