// The block heap: first-fit search over the block table, taking and freeing.
module Heap {
  import opened Status
  import opened Words
  import opened HeapTable

  const BLOCK_SIZE := 4096

  // Rounds up to whole blocks in 32-bit arithmetic: within one block of 2^32 it wraps to 0.
  function AlignSize(val: Word): Word {
    if val % BLOCK_SIZE == 0 then val
    else ((val - val % BLOCK_SIZE) + BLOCK_SIZE) % WORD_LIMIT
  }

  function BlocksOf(size: Word): nat { AlignSize(size) / BLOCK_SIZE }

  lemma BlocksAreCeiling(size: Word)
    ensures size <= WORD_LIMIT - BLOCK_SIZE ==> BlocksOf(size) == (size + BLOCK_SIZE - 1) / BLOCK_SIZE
    ensures size > WORD_LIMIT - BLOCK_SIZE ==> BlocksOf(size) == 0
  {
  }

  // Division of C: toward zero.
  function TruncDiv(a: int, b: nat): int
    requires b > 0
  {
    if a >= 0 then a / b else -((-a) / b)
  }

  // The blocks that a free can reach: those less than 2 GB above the start of the heap.
  const REACH := 0x8_0000

  // What the search for n blocks returns. Without a run of n free blocks it still returns
  // the free run at the end of the table, if there is one.
  ghost predicate SearchResult(t: Table, n: nat, start: int) {
    if n >= 1 && Fits(t, n) then start >= 0 && IsFirstFit(t, n, start)
    else if |t| == 0 || !IsFree(t[|t| - 1]) then start == -ENOMEM
    else
      && 0 <= start < |t|
      && FreeRun(t, start, |t| - start)
      && (start == 0 || !IsFree(t[start - 1]))
  }

  // Whether the answer is a run that is long enough or none at all.
  ghost predicate Answered(t: Table, n: nat) {
    n >= 1 && (Fits(t, n) || |t| == 0 || !IsFree(t[|t| - 1]))
  }

  lemma SearchIsUnique(t: Table, n: nat, a: int, b: int)
    requires SearchResult(t, n, a) && SearchResult(t, n, b)
    ensures a == b
  {
  }

  // Without a run of n the trailing run is too short, so taking n blocks there leaves the table.
  lemma TrailingRunIsShort(t: Table, n: nat, start: int)
    requires n >= 1 && !Fits(t, n) && SearchResult(t, n, start) && start >= 0
    ensures start + n > |t|
  {
    assert start + n <= |t| ==> FreeRun(t, start, n);
  }

  // The blocks the search answers with stay inside the table exactly if it could answer with a
  // run that is long enough, or with none.
  lemma InsideExactlyIfAnswered(t: Table, n: nat, start: int)
    requires n >= 1 && SearchResult(t, n, start)
    ensures start < 0 || start + n <= |t| <==> Answered(t, n)
  {
    if !Fits(t, n) && start >= 0 {
      TrailingRunIsShort(t, n, start);
    }
  }

  // One free block, and two asked for.
  lemma OneBlockForTwo()
    ensures SearchResult([FREE], 2, 0) && !Answered([FREE], 2)
  {
    assert !Fits([FREE], 2);
    assert FreeRun([FREE], 0, 1);
  }

  class Heap {
    const startAddress: nat
    const total: nat
    // The table, and whatever lies behind it in memory.
    const entries: array<bv8>
    ghost var live: Live

    ghost predicate Placed()
    {
      && total <= entries.Length
      && startAddress % BLOCK_SIZE == 0
      && startAddress + total * BLOCK_SIZE <= WORD_LIMIT
    }

    ghost function GetTable(): Table
      requires Placed()
      reads entries
    {
      entries[..total]
    }

    ghost predicate Valid()
      reads this, entries
    {
      Placed() && Represents(GetTable(), live)
    }

    lemma ValidExtents()
      requires Valid()
      ensures Placed() && Extents(live, total) && |GetTable()| == total
    {
    }

    constructor (entries: array<bv8>, total: nat, start: nat)
      requires total <= entries.Length
      requires start % BLOCK_SIZE == 0 && start + total * BLOCK_SIZE <= WORD_LIMIT
      modifies entries
      ensures Valid() && live == map[]
      ensures this.entries == entries && this.total == total && startAddress == start
      ensures entries[total..] == old(entries[total..])
    {
      this.entries := entries;
      this.total := total;
      startAddress := start;
      live := map[];
      new;
      for i := 0 to total
        modifies entries
        invariant forall k :: 0 <= k < i ==> entries[k] == FREE
        invariant entries[total..] == old(entries[total..])
      {
        entries[i] := FREE;
      }
    }

    // The kernel's check of the heap region before the table is cleared.
    static method Create(entries: array<bv8>, total: nat, start: nat, end: nat) returns (heap: Heap?, res: int)
      requires total <= entries.Length && start <= end <= WORD_LIMIT
      modifies entries
      ensures res == (if start % BLOCK_SIZE == 0 && end % BLOCK_SIZE == 0 && (end - start) / BLOCK_SIZE == total
                      then 0 else -EINVARG)
      ensures (heap != null) == (res == 0)
      ensures heap != null ==> fresh(heap) && heap.Valid() && heap.live == map[] && heap.entries == entries && heap.total == total
      ensures heap == null ==> entries[..] == old(entries[..])
    {
      if !(start % BLOCK_SIZE == 0) || !(end % BLOCK_SIZE == 0) {
        return null, -EINVARG;
      }
      if total != (end - start) / BLOCK_SIZE {
        return null, -EINVARG;
      }
      heap := new Heap(entries, total, start);
      res := 0;
    }

    function BlockToAddress(block: nat): nat { startAddress + BLOCK_SIZE * block }

    // The block an address lies in, or how far it lies before the heap.
    function BlockOf(ptr: int): int { TruncDiv(ptr - startAddress, BLOCK_SIZE) }

    // The same as the code computes it: a difference of 2 GB and more is negative.
    function AddressToBlock(ptr: Word): int { TruncDiv(Signed(ptr - startAddress), BLOCK_SIZE) }

    // An address leads back to its block exactly for blocks less than 2 GB above the start.
    lemma AddressRoundTrip(block: nat)
      requires Placed() && block < total
      ensures BlockToAddress(block) < WORD_LIMIT && BlockOf(BlockToAddress(block)) == block
      ensures AddressToBlock(BlockToAddress(block)) == if block < REACH then block else block - 2 * REACH
      ensures AddressToBlock(BlockToAddress(block)) == block <==> block < REACH
    {
    }

    // Which pointers a free takes for an address in the heap: those into its blocks less than
    // 2 GB above the start, each for its block, and also those less than a block below the start,
    // for block 0, because the division rounds toward zero.
    lemma BlockOfPointer(ptr: Word)
      requires Placed()
      ensures var d := ptr - startAddress;
              var inside := 0 <= d < 4096 * total && d < 0x8000_0000;
              var below := d % WORD_LIMIT > WORD_LIMIT - 4096;
              && (0 <= AddressToBlock(ptr) < total <==> total > 0 && (inside || below))
              && (inside ==> AddressToBlock(ptr) == d / 4096)
              && (below ==> AddressToBlock(ptr) == 0)
    {
    }

    method GetStartBlock(totalBlocks: nat) returns (startBlock: int)
      requires Placed()
      ensures SearchResult(GetTable(), totalBlocks, startBlock)
    {
      var currentBlock := 0;
      startBlock := -1;
      ghost var t := GetTable();
      for i := 0 to total
        invariant startBlock == -1 ==> currentBlock == 0 && (i == 0 || !IsFree(t[i - 1]))
        invariant startBlock != -1 ==>
          && 0 <= startBlock < i && startBlock + currentBlock == i && FreeRun(t, startBlock, currentBlock)
          && (startBlock == 0 || !IsFree(t[startBlock - 1]))
        invariant totalBlocks >= 1 ==>
          && currentBlock < totalBlocks
          && forall s: nat :: s + totalBlocks <= i ==> !FreeRun(t, s, totalBlocks)
      {
        var entry := entries[i];
        assert entry == t[i];
        if entry & 0x0f != FREE {
          currentBlock := 0;
          startBlock := -1;
          continue;
        }
        if startBlock == -1 {
          startBlock := i;
        }
        currentBlock := currentBlock + 1;
        if currentBlock == totalBlocks {
          assert FreeRun(t, startBlock, totalBlocks);
          break;
        }
      }
      if startBlock == -1 {
        return -ENOMEM;
      }
    }

    method MarkBlocksTaken(startBlock: nat, totalBlocks: nat)
      requires startBlock + totalBlocks <= entries.Length
      modifies entries
      ensures entries[..] == Taken(old(entries[..]), startBlock, totalBlocks)
    {
      for i := 0 to totalBlocks
        invariant forall k :: 0 <= k < entries.Length ==>
          entries[k] == if startBlock <= k < startBlock + i then Taken(old(entries[..]), startBlock, totalBlocks)[k]
                        else old(entries[k])
      {
        entries[startBlock + i] := entries[startBlock + i] | TAKEN;
        if i + 1 < totalBlocks {
          entries[startBlock + i] := entries[startBlock + i] | HAS_NEXT;
        }
      }
    }

    // A negative block number is far behind the table once it is a size_t.
    method MarkBlocksFree(startBlock: int)
      requires Placed()
      modifies entries
      ensures GetTable() == if startBlock < 0 then old(GetTable()) else Freed(old(GetTable()), startBlock)
      ensures entries[total..] == old(entries[total..])
    {
      var i: nat := if startBlock < 0 then total else startBlock;
      ghost var done := if startBlock < 0 then old(GetTable()) else Freed(old(GetTable()), startBlock);
      while i < total
        invariant Freed(GetTable(), i) == done
        invariant entries[total..] == old(entries[total..])
      {
        var entry := entries[i];
        ghost var before := GetTable();
        entries[i] := FREE;
        assert GetTable() == before[i := FREE];
        if entry & HAS_NEXT == 0 {
          return;
        }
        i := i + 1;
      }
    }

    // Allocates at the lowest run of free blocks that is long enough. When there is none, the
    // pointer is null or the blocks marked run past the end of the table.
    method Malloc(size: Word) returns (ptr: nat, ghost start: int)
      requires Valid()
      requires BlocksOf(size) == 0 || Answered(GetTable(), BlocksOf(size)) || total + BlocksOf(size) <= entries.Length
      modifies this`live, entries
      ensures SearchResult(old(GetTable()), BlocksOf(size), start)
      ensures ptr == if start < 0 then 0 else BlockToAddress(start)
      ensures entries[..] == if start < 0 then old(entries[..]) else Taken(old(entries[..]), start, BlocksOf(size))
      ensures BlocksOf(size) >= 1 && Fits(old(GetTable()), BlocksOf(size)) ==>
        && Valid()
        && GetTable() == Taken(old(GetTable()), start, BlocksOf(size))
        && entries[total..] == old(entries[total..])
        && start !in old(live) && live == old(live)[start := BlocksOf(size)]
      ensures BlocksOf(size) >= 1 && !Fits(old(GetTable()), BlocksOf(size)) && start >= 0 ==>
        total < entries.Length && entries[total] & TAKEN != 0
      ensures BlocksOf(size) == 0 || start < 0 ==> Valid() && live == old(live) && entries[..] == old(entries[..])
    {
      hide Represents, Freed;
      var alignedSize := AlignSize(size);
      var totalBlocks := alignedSize / BLOCK_SIZE;
      ghost var t := GetTable();
      var startBlock := GetStartBlock(totalBlocks);
      start := startBlock;
      if startBlock < 0 {
        return 0, startBlock;
      }
      ptr := BlockToAddress(startBlock);
      if totalBlocks >= 1 && !Fits(t, totalBlocks) {
        TrailingRunIsShort(t, totalBlocks, startBlock);
      }
      MarkBlocksTaken(startBlock, totalBlocks);
      if totalBlocks >= 1 {
        if Fits(t, totalBlocks) {
          assert GetTable() == Taken(t, startBlock, totalBlocks);
          TakeKeeps(t, live, startBlock, totalBlocks);
          live := live[startBlock := totalBlocks];
        } else {
          assert entries[..][total] & TAKEN != 0;
        }
      } else {
        assert entries[..] == old(entries[..]);
      }
    }

    // Frees the allocation that starts at the pointer, if it is less than 2 GB above the start
    // of the heap; further up nothing happens, and the blocks stay taken. A pointer to a block
    // that is free, or that leads to no block of the heap, does nothing.
    method Free(ptr: Word)
      requires Valid()
      modifies this`live, entries
      ensures entries[total..] == old(entries[total..])
      ensures GetTable() == if AddressToBlock(ptr) < 0 then old(GetTable()) else Freed(old(GetTable()), AddressToBlock(ptr))
      ensures AddressToBlock(ptr) in old(live) ==> Valid() && live == old(live) - {AddressToBlock(ptr)}
      ensures AddressToBlock(ptr) < 0 || !Covered(old(live), AddressToBlock(ptr)) ==>
        Valid() && live == old(live) && GetTable() == old(GetTable())
      ensures forall block: nat :: block in old(live) && ptr == BlockToAddress(block) ==>
        && Valid()
        && (block < REACH ==> live == old(live) - {block} && GetTable() == Freed(old(GetTable()), block))
        && (block >= REACH ==> live == old(live) && GetTable() == old(GetTable()))
    {
      var block := AddressToBlock(ptr);
      ghost var t := GetTable();
      forall b: nat | b in live && ptr == BlockToAddress(b)
        ensures block == if b < REACH then b else b - 2 * REACH
      {
        assert b + live[b] <= total;
        AddressRoundTrip(b);
      }
      MarkBlocksFree(block);
      if block in live {
        FreeKeeps(t, live, block);
        CoveredIsTaken(t, live, block);
        live := live - {block};
      } else if block >= 0 && !Covered(live, block) {
        FreeOfFree(t, live, block);
      }
    }
  }
}
