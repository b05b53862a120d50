/**
 * The fixed-size block pool: a LIFO free list of 4096-byte blocks and a byte counter
 * that grows each time a block has to be taken from the system.
 *
 * The source keeps the list, its lock and the counter in static storage; here they are
 * the fields of one pool object. A block is a handle; a block fresh from the system
 * gets the next unused handle.
 */
module MemoryManager {

  const BLOCK_SIZE: int := 4096

  class MemoryPool {
    var freeList: seq<nat>
    /** The handle the next block taken from the system will get. */
    var nextBlock: nat
    /** g_memory_usage: bytes ever taken from the system. */
    var usage: int

    /** Usage counts exactly the blocks taken from the system. */
    ghost predicate Valid()
      reads this
    {
      usage == BLOCK_SIZE * nextBlock
    }

    constructor()
      ensures Valid() && freeList == [] && usage == 0
    {
      freeList := [];
      nextBlock := 0;
      usage := 0;
    }

    /**
     * Reuses the most recently freed block if there is one, usage unchanged;
     * otherwise takes a new block and adds BLOCK_SIZE to usage.
     */
    method Allocate() returns (block: nat)
      requires Valid()
      modifies this
      ensures Valid()
      ensures old(freeList) != [] ==>
        block == old(freeList)[|old(freeList)| - 1] &&
        freeList == old(freeList)[..|old(freeList)| - 1] &&
        usage == old(usage) && nextBlock == old(nextBlock)
      ensures old(freeList) == [] ==>
        block == old(nextBlock) && freeList == [] &&
        usage == old(usage) + BLOCK_SIZE && nextBlock == old(nextBlock) + 1
    {
      if freeList != [] {
        block := freeList[|freeList| - 1];
        freeList := freeList[..|freeList| - 1];
        return;
      }
      usage := usage + BLOCK_SIZE;
      block := nextBlock;
      nextBlock := nextBlock + 1;
    }

    /** Pushes the block on the free list; usage never goes down. */
    method Deallocate(block: nat)
      requires Valid()
      modifies this
      ensures Valid()
      ensures freeList == old(freeList) + [block]
      ensures usage == old(usage) && nextBlock == old(nextBlock)
    {
      freeList := freeList + [block];
    }

    /** getUsageKB: usage in KiB, always a multiple of four (one block is 4 KiB). */
    function UsageKB(): (kb: int)
      reads this
      requires Valid()
      ensures kb * 1024 == usage
      ensures kb % 4 == 0 && kb >= 0
    {
      KiBOfBlocks(nextBlock);
      usage / 1024
    }
  }

  /** n blocks are exactly 4n KiB. */
  lemma KiBOfBlocks(n: nat)
    ensures (BLOCK_SIZE * n) / 1024 == 4 * n
  {
    assert BLOCK_SIZE * n == 4 * n * 1024;
  }

  /** Freeing a block and allocating again hands back that very block, at no cost. */
  method ReuseAfterFree(pool: MemoryPool, block: nat) returns (again: nat)
    requires pool.Valid()
    modifies pool
    ensures pool.Valid()
    ensures again == block
    ensures pool.freeList == old(pool.freeList) && pool.usage == old(pool.usage)
  {
    pool.Deallocate(block);
    again := pool.Allocate();
  }
}
