// The kernel's memory: physical memory with the block heap in it, zeroed allocations, and
// the paging functions, whose directories and tables are heap blocks.
module KernelMemory {
  import opened Status
  import opened Words
  import opened HeapTable
  import opened Heap
  import opened Ram
  import opened PageTables
  import opened Paging

  // A chunk is a frame of its own that holds the address of a well-formed directory.
  ghost predicate ChunkOk(m: Memory, chunk: nat) {
    && IsFrame(chunk)
    && WellFormed(m, WordIn(m, chunk))
    && chunk != WordIn(m, chunk)
    && forall i: nat :: i < ENTRIES ==> TableAt(m, WordIn(m, chunk), i) != chunk
  }

  lemma ChunkKept(m: Memory, m': Memory, chunk: nat, page: nat)
    requires ChunkOk(m, chunk) && page < PAGES
    requires var a := EntryAddress(m, WordIn(m, chunk), page); SameOutside(m, m', a, a + 4)
    ensures ChunkOk(m', chunk) && WordIn(m', chunk) == WordIn(m, chunk)
  {
    var dir := WordIn(m, chunk);
    EntryWritten(m, m', dir, page);
    var a := EntryAddress(m, dir, page);
    FramesApart(chunk, TableAt(m, dir, page / ENTRIES), 0, page % ENTRIES);
    WordKept(m, m', a, a + 4, chunk);
  }

  // The address i pages behind start, in 32 bits.
  function Stepped(start: Word, i: nat): Word { (start + i * PAGE_SIZE) % WORD_LIMIT }

  lemma StepAddress(start: Word, i: nat)
    requires i < PAGES
    ensures var a := Stepped(start, i);
            && a % PAGE_SIZE == start % PAGE_SIZE
            && (start % PAGE_SIZE == 0 ==> a == (start / PAGE_SIZE + i) % PAGES * PAGE_SIZE)
            && (a + PAGE_SIZE) % WORD_LIMIT == Stepped(start, i + 1)
    ensures Stepped(start, 0) == start
  {
    var p, r := start / PAGE_SIZE, start % PAGE_SIZE;
    assert start == p * PAGE_SIZE + r && p < PAGES;
    var sum := start + i * PAGE_SIZE;
    var wrapped := if p + i < PAGES then p + i else p + i - PAGES;
    assert sum == (p + i) * PAGE_SIZE + r;
    assert sum % WORD_LIMIT == wrapped * PAGE_SIZE + r;
    assert (p + i) % PAGES == wrapped;
  }

  // Where the mapping loop stands after i passes.
  ghost predicate MapState(m0: Memory, m: Memory, chunk: nat, virt: Word, phys: Word, i: nat, flags: Word) {
    && ChunkOk(m0, chunk) && ChunkOk(m, chunk) && WordIn(m, chunk) == WordIn(m0, chunk)
    && Mapped(m0, m, WordIn(m0, chunk), virt / PAGE_SIZE, phys / PAGE_SIZE, i, flags)
    && OnlyTables(m0, m, WordIn(m0, chunk))
  }

  lemma MapStart(m: Memory, chunk: nat, virt: Word, phys: Word, flags: Word)
    requires ChunkOk(m, chunk)
    ensures MapState(m, m, chunk, virt, phys, 0, flags)
  {
  }

  lemma MapStateMeans(m0: Memory, m: Memory, chunk: nat, virt: Word, phys: Word, i: nat, flags: Word)
    requires MapState(m0, m, chunk, virt, phys, i, flags)
    ensures ChunkOk(m0, chunk) && ChunkOk(m, chunk) && WordIn(m, chunk) == WordIn(m0, chunk)
    ensures Mapped(m0, m, WordIn(m0, chunk), virt / PAGE_SIZE, phys / PAGE_SIZE, i, flags)
    ensures OnlyTables(m0, m, WordIn(m0, chunk))
  {
  }

  lemma MapPass(m0: Memory, m: Memory, m': Memory, chunk: nat, virt: Word, phys: Word, i: nat, flags: Word, v: Word, p: Word)
    requires MapState(m0, m, chunk, virt, phys, i, flags) && i < PAGES
    requires virt % PAGE_SIZE == 0 && phys % PAGE_SIZE == 0
    requires v == (virt / PAGE_SIZE + i) % PAGES * PAGE_SIZE && p == (phys / PAGE_SIZE + i) % PAGES * PAGE_SIZE
    requires var a := EntryAddress(m, WordIn(m, chunk), v / PAGE_SIZE);
             SameOutside(m, m', a, a + 4) && WordIn(m', a) == BitOr(p, flags)
    ensures MapState(m0, m', chunk, virt, phys, i + 1, flags)
  {
    hide TableAt, BitOr;
    MapOneMore(m0, m, m', WordIn(m, chunk), virt / PAGE_SIZE, phys / PAGE_SIZE, i, flags);
    ChunkKept(m, m', chunk, v / PAGE_SIZE);
  }

  // The free blocks that a free could reach again.
  function NearFree(t: Table): nat {
    var near := if |t| <= REACH then t else t[..REACH];
    |near| - CountTaken(near)
  }

  // A block taken at the lowest free place is near exactly as long as there is a near one.
  ghost predicate NearStep(t: Table, t': Table, block: int) {
    && (block < REACH <==> NearFree(t) > 0)
    && NearFree(t') == NearFree(t) - (if block < REACH then 1 else 0)
  }

  lemma NearTake(t: Table, s: nat)
    requires IsFirstFit(t, 1, s)
    ensures NearStep(t, Taken(t, s, 1), s)
  {
    var n := if |t| <= REACH then |t| else REACH;
    var t' := Taken(t, s, 1);
    assert t[..|t|] == t && t'[..|t|] == t';
    if s < n {
      assert t'[s] == t[s] | TAKEN && !IsFree(t'[s]);
      CountChanges(t[..n], t'[..n], s, 1);
    } else {
      CountChanges(t[..n], t'[..n], 0, 0);
      if CountTaken(t[..n]) < n {
        RoomForOne(t[..n]);
        var r: nat :| FreeRun(t[..n], r, 1);
        assert t[..n][r] == t[r] && FreeRun(t, r, 1);
      }
    }
  }

  class Kernel {
    const heap: Heap
    const ram: array<Byte>

    ghost predicate Valid()
      reads heap, heap.entries
    {
      heap.Valid() && heap.startAddress > 0 && ram.Length == WORD_LIMIT && ram as object != heap.entries as object
    }

    constructor (heap: Heap, ram: array<Byte>)
      requires heap.Valid() && heap.startAddress > 0 && ram.Length == WORD_LIMIT
      requires ram as object != heap.entries as object
      ensures Valid() && this.heap == heap && this.ram == ram
    {
      this.heap := heap;
      this.ram := ram;
    }

    // ----- Heap blocks as page frames -----

    function BlockAt(frame: nat): int { heap.BlockOf(frame) }

    // The frame is a live allocation of one block.
    ghost predicate IsOwned(live: Live, frame: nat)
    {
      && frame >= heap.startAddress && frame % PAGE_SIZE == 0 && frame + PAGE_SIZE <= WORD_LIMIT
      && BlockAt(frame) in live && live[BlockAt(frame)] == 1
    }

    // The address lies outside the heap, or in a block that is allocated.
    ghost predicate InUse(live: Live, a: nat)
    {
      a < heap.startAddress || a >= heap.startAddress + heap.total * BLOCK_SIZE
      || Covered(live, (a - heap.startAddress) / BLOCK_SIZE)
    }

    ghost predicate Kept(live: Live, m: Memory, m': Memory)
    {
      forall a: nat :: a < WORD_LIMIT && InUse(live, a) ==> m'[a] == m[a]
    }

    lemma OwnedApart(live: Live, f: nat, g: nat)
      requires IsOwned(live, f) && IsOwned(live, g) && f != g
      requires heap.startAddress % PAGE_SIZE == 0
      ensures BlockAt(f) != BlockAt(g)
    {
    }

    // A change inside blocks that were free before keeps everything that was in use.
    lemma FreshKept(live: Live, block: nat, n: nat, m: Memory, m': Memory)
      requires heap.Placed() && block + n <= heap.total
      requires forall i :: block <= i < block + n ==> !Covered(live, i)
      requires var p := heap.BlockToAddress(block); SameOutside(m, m', p, p + n * BLOCK_SIZE)
      ensures Kept(live, m, m')
    {
      forall a: nat | a < WORD_LIMIT && InUse(live, a)
        ensures m'[a] == m[a]
      {
        InRun(a, block, n);
      }
    }

    lemma InRun(a: nat, block: nat, n: nat)
      requires heap.Placed() && block + n <= heap.total
      ensures var p := heap.BlockToAddress(block);
              p <= a < p + n * BLOCK_SIZE ==>
                a >= heap.startAddress && block <= (a - heap.startAddress) / BLOCK_SIZE < block + n
    {
    }

    // ----- kmalloc and kzalloc -----

    // The run that the search finds is apart from every live block and inside the heap.
    lemma RunIsFresh(t: Table, live: Live, start: nat, n: nat)
      requires Represents(t, live) && n >= 1 && FreeRun(t, start, n)
      ensures forall i :: start <= i < start + n ==> !Covered(live, i)
    {
      forall i | start <= i < start + n
        ensures !Covered(live, i)
      {
        CoveredIsTaken(t, live, i);
      }
    }

    // Allocates and zeroes, or returns null and changes nothing.
    method KzAlloc(size: Word) returns (ptr: nat, ghost start: int)
      requires Valid()
      requires Answered(heap.GetTable(), BlocksOf(size))
      modifies heap`live, heap.entries, ram
      ensures Valid()
      ensures !Fits(old(heap.GetTable()), BlocksOf(size)) ==>
        ptr == 0 && heap.GetTable() == old(heap.GetTable()) && heap.live == old(heap.live) && ram[..] == old(ram[..])
      ensures Fits(old(heap.GetTable()), BlocksOf(size)) ==>
        && start >= 0 && IsFirstFit(old(heap.GetTable()), BlocksOf(size), start) && ptr == heap.BlockToAddress(start)
        && heap.GetTable() == Taken(old(heap.GetTable()), start, BlocksOf(size))
        && start !in old(heap.live) && heap.live == old(heap.live)[start := BlocksOf(size)]
        && (forall i :: start <= i < start + BlocksOf(size) ==> !Covered(old(heap.live), i))
        && SameOutside(old(ram[..]), ram[..], ptr, ptr + size)
        && (forall a :: ptr <= a < ptr + size ==> ram[a] == 0)
      ensures heap.entries[heap.total..] == old(heap.entries[heap.total..])
    {
      hide Represents, BlocksOf, Fits;
      ptr, start := heap.Malloc(size);
      if ptr == 0 {
        return;
      }
      RunIsFresh(old(heap.GetTable()), old(heap.live), start, BlocksOf(size));
      BlocksAreCeiling(size);
      assert ptr + size <= WORD_LIMIT;
      MemSet(ram, ptr, 0, size);
    }

    // One block of the heap for a page table, a directory or a chunk.
    method AllocFrame(size: Word) returns (frame: nat)
      requires Valid() && 1 <= size <= PAGE_SIZE
      requires CountTaken(heap.GetTable()) < heap.total
      modifies heap`live, heap.entries, ram
      ensures Valid()
      ensures frame > 0 && IsOwned(heap.live, frame) && BlockAt(frame) !in old(heap.live)
      ensures heap.live == old(heap.live)[BlockAt(frame) := 1]
      ensures !Covered(old(heap.live), BlockAt(frame))
      ensures CountTaken(heap.GetTable()) == old(CountTaken(heap.GetTable())) + 1
      ensures NearStep(old(heap.GetTable()), heap.GetTable(), BlockAt(frame))
      ensures SameOutside(old(ram[..]), ram[..], frame, frame + PAGE_SIZE)
      ensures Kept(old(heap.live), old(ram[..]), ram[..])
    {
      ghost var t, live: Live, m: Memory := heap.GetTable(), heap.live, ram[..];
      hide NearStep, NearFree, CountTaken, Taken, Represents, IsFirstFit, Fits, Covered, FreeRun, SameOutside;
      hide Kernel.Kept, Kernel.IsOwned, Heap.BlockOf, Heap.BlockToAddress;
      BlocksAreCeiling(size);
      RoomForOne(t);
      ghost var start;
      frame, start := KzAlloc(size);
      FrameTaken(t, live, start, m, ram[..], frame, size);
    }

    lemma FrameTaken(t: Table, live: Live, start: nat, m: Memory, m': Memory, frame: nat, size: Word)
      requires heap.Placed() && heap.startAddress > 0 && |t| == heap.total && size <= PAGE_SIZE
      requires IsFirstFit(t, 1, start) && frame == heap.BlockToAddress(start)
      requires !Covered(live, start) && SameOutside(m, m', frame, frame + size)
      ensures frame > 0 && BlockAt(frame) == start && IsOwned(live[start := 1], frame)
      ensures CountTaken(Taken(t, start, 1)) == CountTaken(t) + 1
      ensures NearStep(t, Taken(t, start, 1), start)
      ensures SameOutside(m, m', frame, frame + PAGE_SIZE)
      ensures Kept(live, m, m')
    {
      FirstFitInside(t, start);
      hide NearStep, NearFree, CountTaken, Taken, IsFirstFit, Covered, FreeRun, Kernel.Kept;
      heap.AddressRoundTrip(start);
      TakenCount(t, start);
      NearTake(t, start);
      Wider(m, m', frame, size);
      FreshKept(live, start, 1, m, m');
    }

    lemma FirstFitInside(t: Table, s: nat)
      requires IsFirstFit(t, 1, s)
      ensures FreeRun(t, s, 1) && s < |t|
    {
    }

    lemma Wider(m: Memory, m': Memory, a: nat, size: nat)
      requires size <= PAGE_SIZE && SameOutside(m, m', a, a + size)
      ensures SameOutside(m, m', a, a + PAGE_SIZE)
    {
    }

    lemma TakenCount(t: Table, s: nat)
      requires FreeRun(t, s, 1)
      ensures CountTaken(Taken(t, s, 1)) == CountTaken(t) + 1
    {
      var t' := Taken(t, s, 1);
      assert t'[s] == t[s] | TAKEN && !IsFree(t'[s]);
      CountChanges(t, t', s, 1);
    }

    // ----- Reading and writing entries -----

    method GetIndexes(va: Word) returns (res: int, directoryIndex: nat, tableIndex: nat)
      ensures res == (if va % PAGE_SIZE == 0 then 0 else -EINVARG)
      ensures res == 0 ==>
        directoryIndex == va / PAGE_SIZE / ENTRIES < ENTRIES && tableIndex == va / PAGE_SIZE % ENTRIES
    {
      if va % PAGE_SIZE != 0 {
        return -EINVARG, 0, 0;
      }
      directoryIndex := va / (ENTRIES * PAGE_SIZE);
      tableIndex := va % (ENTRIES * PAGE_SIZE) / PAGE_SIZE;
      res := 0;
    }

    method SetPage(dir: nat, va: Word, value: Word) returns (res: int)
      requires ram.Length == WORD_LIMIT && dir + PAGE_SIZE <= WORD_LIMIT
      modifies ram
      ensures va % PAGE_SIZE != 0 ==> res == -EINVARG && ram[..] == old(ram[..])
      ensures va % PAGE_SIZE == 0 ==>
        var a := EntryAddress(old(ram[..]), dir, va / PAGE_SIZE);
        res == 0 && SameOutside(old(ram[..]), ram[..], a, a + 4) && WordIn(ram[..], a) == value
    {
      if va % PAGE_SIZE != 0 {
        return -EINVARG;
      }
      var directoryIndex, tableIndex;
      res, directoryIndex, tableIndex := GetIndexes(va);
      if res < 0 {
        return;
      }
      var entry := ReadWord(ram, dir + 4 * directoryIndex);
      var table := PageFrame(entry);
      WriteWord(ram, table + 4 * tableIndex, value);
      res := 0;
    }

    // An address that is not page-aligned reads as the error code in 32 bits.
    method GetPage(dir: nat, va: Word) returns (entry: Word)
      requires ram.Length == WORD_LIMIT && dir + PAGE_SIZE <= WORD_LIMIT
      ensures entry == if va % PAGE_SIZE == 0 then Entry(ram[..], dir, va / PAGE_SIZE) else 0xFFFF_FFFE
    {
      if va % PAGE_SIZE != 0 {
        return WORD_LIMIT - EINVARG;
      }
      var res, directoryIndex, tableIndex := GetIndexes(va);
      var tableEntry := ReadWord(ram, dir + 4 * directoryIndex);
      var table := PageFrame(tableEntry);
      entry := ReadWord(ram, table + 4 * tableIndex);
    }

    // ----- Mapping ranges -----

    method Map(chunk: nat, virt: Word, phys: Word, flags: Word) returns (res: int)
      requires ram.Length == WORD_LIMIT && ChunkOk(ram[..], chunk)
      modifies ram
      ensures virt % PAGE_SIZE != 0 || phys % PAGE_SIZE != 0 ==> res == -EINVARG && ram[..] == old(ram[..])
      ensures virt % PAGE_SIZE == 0 && phys % PAGE_SIZE == 0 ==>
        var a := EntryAddress(old(ram[..]), WordIn(old(ram[..]), chunk), virt / PAGE_SIZE);
        res == 0 && SameOutside(old(ram[..]), ram[..], a, a + 4) && WordIn(ram[..], a) == BitOr(phys, flags)
    {
      if virt % PAGE_SIZE != 0 || phys % PAGE_SIZE != 0 {
        return -EINVARG;
      }
      OrIsWord(phys, flags);
      var dir := ReadWord(ram, chunk);
      res := SetPage(dir, virt, BitOr(phys, flags));
    }

    // Both addresses count on through the end of the address space to 0.
    method MapRange(chunk: nat, virt: Word, phys: Word, count: nat, flags: Word) returns (res: int)
      requires ram.Length == WORD_LIMIT && ChunkOk(ram[..], chunk) && count <= PAGES
      modifies ram
      ensures ChunkOk(ram[..], chunk) && WordIn(ram[..], chunk) == old(WordIn(ram[..], chunk))
      ensures count > 0 && (virt % PAGE_SIZE != 0 || phys % PAGE_SIZE != 0) ==>
        res == -EINVARG && ram[..] == old(ram[..])
      ensures count == 0 || (virt % PAGE_SIZE == 0 && phys % PAGE_SIZE == 0) ==>
        var dir := WordIn(old(ram[..]), chunk);
        && res == 0
        && Mapped(old(ram[..]), ram[..], dir, virt / PAGE_SIZE, phys / PAGE_SIZE, count, flags)
        && OnlyTables(old(ram[..]), ram[..], dir)
    {
      hide MapState, Stepped, ChunkOk, EntryAddress, BitOr, WordIn, Mapped, OnlyTables;
      res := 0;
      ghost var m0: Memory := ram[..];
      MapStart(m0, chunk, virt, phys, flags);
      StepAddress(virt, 0);
      StepAddress(phys, 0);
      var v, p := virt, phys;
      for i := 0 to count
        invariant res == 0 && (i > 0 ==> virt % PAGE_SIZE == 0 && phys % PAGE_SIZE == 0)
        invariant v == Stepped(virt, i) && p == Stepped(phys, i)
        invariant i == 0 ==> ram[..] == m0
        invariant MapState(m0, ram[..], chunk, virt, phys, i, flags)
      {
        ghost var m: Memory := ram[..];
        StepAddress(virt, i);
        StepAddress(phys, i);
        MapStateMeans(m0, m, chunk, virt, phys, i, flags);
        res := Map(chunk, v, p, flags);
        if res < 0 {
          return;
        }
        MapPass(m0, m, ram[..], chunk, virt, phys, i, flags, v, p);
        v := (v + PAGE_SIZE) % WORD_LIMIT;
        p := (p + PAGE_SIZE) % WORD_LIMIT;
      }
      MapStateMeans(m0, ram[..], chunk, virt, phys, count, flags);
    }

    method MapTo(chunk: nat, va: Word, pa: Word, pend: Word, flags: Word) returns (res: int)
      requires ram.Length == WORD_LIMIT && ChunkOk(ram[..], chunk)
      modifies ram
      ensures ChunkOk(ram[..], chunk) && WordIn(ram[..], chunk) == old(WordIn(ram[..], chunk))
      ensures va % PAGE_SIZE != 0 || pa % PAGE_SIZE != 0 || pend % PAGE_SIZE != 0 || pend < pa ==>
        res == -EINVARG && ram[..] == old(ram[..])
      ensures !(va % PAGE_SIZE != 0 || pa % PAGE_SIZE != 0 || pend % PAGE_SIZE != 0 || pend < pa) ==>
        var dir := WordIn(old(ram[..]), chunk);
        && res == 0
        && Mapped(old(ram[..]), ram[..], dir, va / PAGE_SIZE, pa / PAGE_SIZE, (pend - pa) / PAGE_SIZE, flags)
        && OnlyTables(old(ram[..]), ram[..], dir)
    {
      if va % PAGE_SIZE != 0 {
        return -EINVARG;
      }
      if pa % PAGE_SIZE != 0 {
        return -EINVARG;
      }
      if pend % PAGE_SIZE != 0 {
        return -EINVARG;
      }
      if pend < pa {
        return -EINVARG;
      }
      var totalBytes := pend - pa;
      var totalPages := totalBytes / PAGE_SIZE;
      res := MapRange(chunk, va, pa, totalPages, flags);
    }

    // ----- The frames of a directory -----

    function Tables(m: Memory, dir: nat): (tables: seq<nat>)
      requires dir + PAGE_SIZE <= WORD_LIMIT
      ensures |tables| == ENTRIES
    {
      seq(ENTRIES, i requires 0 <= i < ENTRIES => TableAt(m, dir, i))
    }

    // Everything a chunk stands for: the tables, the directory and the chunk itself.
    function FramesOf(m: Memory, chunk: nat): (frames: seq<nat>)
      requires chunk + PAGE_SIZE <= WORD_LIMIT && WordIn(m, chunk) + PAGE_SIZE <= WORD_LIMIT
      ensures |frames| == ENTRIES + 2
    {
      Tables(m, WordIn(m, chunk)) + [WordIn(m, chunk), chunk]
    }

    ghost function Blocks(frames: seq<nat>): set<int> { set f | f in frames :: BlockAt(f) }

    // Those of the blocks that a free reaches, and how many they are.
    ghost function NearBlocks(frames: seq<nat>): set<int> {
      set f | f in frames && BlockAt(f) < REACH :: BlockAt(f)
    }

    function NearCount(frames: seq<nat>): (n: nat)
      ensures n <= |frames|
    {
      if frames == [] then 0
      else NearCount(frames[..|frames| - 1]) + (if BlockAt(frames[|frames| - 1]) < REACH then 1 else 0)
    }

    lemma {:induction false} NearCountBoth(a: seq<nat>, b: seq<nat>)
      ensures NearCount(a + b) == NearCount(a) + NearCount(b)
    {
      if b == [] {
        assert a + b == a;
      } else {
        NearCountBoth(a, b[..|b| - 1]);
        assert (a + b)[..|a + b| - 1] == a + b[..|b| - 1];
      }
    }

    // Frames are taken near the start of the heap as long as there are any free.
    ghost predicate NearFirst(t0: Table, t: Table, frames: seq<nat>) {
      && NearFree(t) + NearCount(frames) == NearFree(t0)
      && (NearCount(frames) == |frames| || NearFree(t) == 0)
    }

    lemma NearOneMore(t0: Table, t: Table, t': Table, frames: seq<nat>, frame: nat)
      requires NearFirst(t0, t, frames) && NearStep(t, t', BlockAt(frame))
      ensures NearFirst(t0, t', frames + [frame])
    {
      assert (frames + [frame])[..|frames|] == frames;
    }

    lemma NearAtEnd(t0: Table, t: Table, dir: nat, tables: seq<nat>, chunk: nat)
      requires NearFirst(t0, t, [dir] + tables + [chunk])
      ensures NearCount(tables + [dir, chunk]) == if NearFree(t0) < |tables| + 2 then NearFree(t0) else |tables| + 2
    {
      NearCountBoth([dir] + tables, [chunk]);
      NearCountBoth([dir], tables);
      NearCountBoth(tables, [dir, chunk]);
      NearCountBoth([dir], [chunk]);
      assert [dir] + [chunk] == [dir, chunk];
    }

    lemma {:induction false} AllNear(frames: seq<nat>)
      requires NearCount(frames) == |frames|
      ensures NearBlocks(frames) == Blocks(frames)
    {
      if frames != [] {
        var k := |frames| - 1;
        AllNear(frames[..k]);
        assert frames == frames[..k] + [frames[k]];
        forall f | f in frames
          ensures BlockAt(f) < REACH
        {
          if f in frames[..k] {
            assert BlockAt(f) in Blocks(frames[..k]);
          }
        }
      }
    }

    // Different frames, each a live allocation of one block.
    ghost predicate Owns(live: Live, frames: seq<nat>)
    {
      && (forall k :: 0 <= k < |frames| ==> IsOwned(live, frames[k]))
      && (forall k, l :: 0 <= k < l < |frames| ==> frames[k] != frames[l])
    }

    // The live blocks are those of before and, apart from them, the frames.
    ghost predicate Grown(before: Live, live: Live, frames: seq<nat>)
    {
      Owns(live, frames) && Blocks(frames) !! before.Keys && live - Blocks(frames) == before
    }

    lemma GrownStart(live: Live)
      ensures Grown(live, live, [])
    {
    }

    lemma GrownOneMore(before: Live, live: Live, frames: seq<nat>, frame: nat)
      requires Grown(before, live, frames) && BlockAt(frame) !in live
      requires frame >= heap.startAddress && IsOwned(live[BlockAt(frame) := 1], frame)
      ensures frame !in frames
      ensures Grown(before, live[BlockAt(frame) := 1], frames + [frame])
    {
      var live', all := live[BlockAt(frame) := 1], frames + [frame];
      assert Blocks(all) == Blocks(frames) + {BlockAt(frame)};
      assert live' - Blocks(all) == before;
    }

    lemma GrownReorder(before: Live, live: Live, frames: seq<nat>, frames': seq<nat>)
      requires Grown(before, live, frames)
      requires (forall f :: f in frames <==> f in frames')
      requires (forall k, l :: 0 <= k < l < |frames'| ==> frames'[k] != frames'[l])
      ensures Grown(before, live, frames')
    {
      assert Blocks(frames) == Blocks(frames');
      forall k | 0 <= k < |frames'|
        ensures IsOwned(live, frames'[k])
      {
        assert frames'[k] in frames;
      }
    }

    lemma OwnedNotCovered(before: Live, live: Live, frames: seq<nat>, f: nat)
      requires Grown(before, live, frames) && Extents(live, heap.total) && f in frames
      ensures !Covered(before, BlockAt(f)) && 0 <= BlockAt(f) < heap.total
    {
      assert BlockAt(f) in Blocks(frames);
      assert forall s :: s in before ==> s in live - Blocks(frames) && live[s] == before[s];
    }

    // A change inside one of the new frames keeps what was in use before.
    lemma KeptInFrame(before: Live, live: Live, frames: seq<nat>, f: nat, m: Memory, m': Memory)
      requires heap.Placed() && Grown(before, live, frames) && Extents(live, heap.total) && f in frames
      requires SameOutside(m, m', f, f + PAGE_SIZE)
      ensures Kept(before, m, m')
    {
      OwnedNotCovered(before, live, frames, f);
      assert heap.BlockToAddress(BlockAt(f)) == f;
      FreshKept(before, BlockAt(f), 1, m, m');
    }

    // ----- Building a directory -----

    lemma TableAdded(live0: Live, live: Live, live': Live, m0: Memory, m: Memory, m1: Memory, m2: Memory,
                     dir: nat, tables: seq<nat>, table: nat, flags: Word)
      requires heap.Placed() && Extents(live', heap.total)
      requires Built(m, dir, tables, flags) && |tables| < ENTRIES
      requires Grown(live0, live, [dir] + tables) && Kept(live0, m0, m)
      requires BlockAt(table) !in live && BlockAt(table) >= 0 && live' == live[BlockAt(table) := 1] && IsOwned(live', table)
      requires SameOutside(m, m1, table, table + PAGE_SIZE) && TableHolds(m1, table, |tables|, flags)
      requires SameOutside(m1, m2, dir + 4 * |tables|, dir + 4 * |tables| + 4)
      requires WordIn(m2, dir + 4 * |tables|) == DirectoryEntry(table, flags)
      ensures Built(m2, dir, tables + [table], flags)
      ensures Grown(live0, live', [dir] + (tables + [table]))
      ensures Kept(live0, m0, m2)
    {
      hide WordIn, DirectoryEntry, TableHolds, BitOr;
      var frames := [dir] + tables;
      GrownOneMore(live0, live, frames, table);
      assert frames + [table] == [dir] + (tables + [table]);
      assert dir == frames[0] && forall k :: 0 <= k < |tables| ==> tables[k] == frames[k + 1];
      BuiltKept(m, m1, dir, tables, flags, table);
      BuiltOneMore(m1, m2, dir, tables, flags, table);
      KeptInFrame(live0, live', frames + [table], table, m, m1);
      assert SameOutside(m1, m2, dir, dir + PAGE_SIZE);
      KeptInFrame(live0, live', frames + [table], dir, m1, m2);
    }

    lemma DirectoryDone(live0: Live, live: Live, live': Live, m0: Memory, m: Memory, m': Memory,
                        dir: nat, tables: seq<nat>, chunk: nat, flags: Word)
      requires heap.Placed() && Extents(live', heap.total)
      requires Built(m, dir, tables, flags) && |tables| == ENTRIES
      requires Grown(live0, live, [dir] + tables) && Kept(live0, m0, m)
      requires BlockAt(chunk) !in live && BlockAt(chunk) >= 0 && live' == live[BlockAt(chunk) := 1] && IsOwned(live', chunk)
      requires SameOutside(m, m', chunk, chunk + PAGE_SIZE) && WordIn(m', chunk) == dir
      ensures ChunkOk(m', chunk)
      ensures Grown(live0, live', FramesOf(m', chunk)) && FramesOf(m', chunk) == tables + [dir, chunk]
      ensures forall page: nat :: page < PAGES ==> Entry(m', dir, page) == BitOr(page * PAGE_SIZE, flags)
      ensures forall i: nat :: i < ENTRIES ==> FlagsAt(m', dir, i) == BitOr(flags, 2)
      ensures Kept(live0, m0, m')
    {
      hide WordIn, DirectoryEntry, TableHolds, BitOr;
      var frames := [dir] + tables;
      GrownOneMore(live0, live, frames, chunk);
      assert dir == frames[0] && forall k :: 0 <= k < |tables| ==> tables[k] == frames[k + 1];
      BuiltKept(m, m', dir, tables, flags, chunk);
      BuiltDone(m', dir, tables, flags);
      KeptInFrame(live0, live', frames + [chunk], chunk, m, m');
      assert Tables(m', dir) == tables;
      GrownReorder(live0, live', frames + [chunk], tables + [dir, chunk]);
    }

    // The inner loop: a table that maps its pages to themselves.
    method FillTable(table: nat, k: nat, offset: Word, flags: Word)
      requires ram.Length == WORD_LIMIT && IsFrame(table) && k < ENTRIES && flags < 0x100
      requires offset == k * TABLE_SPAN
      modifies ram
      ensures SameOutside(old(ram[..]), ram[..], table, table + PAGE_SIZE)
      ensures TableHolds(ram[..], table, k, flags)
    {
      hide BitOr, WordIn;
      for j := 0 to ENTRIES
        invariant SameOutside(old(ram[..]), ram[..], table, table + PAGE_SIZE)
        invariant forall l: nat :: l < j ==>
          WordIn(ram[..], table + 4 * l) == BitOr((k * ENTRIES + l) * PAGE_SIZE, flags)
      {
        ghost var m: Memory := ram[..];
        var page := offset + j * PAGE_SIZE;
        assert page == (k * ENTRIES + j) * PAGE_SIZE < WORD_LIMIT;
        OrIsWord(page, flags);
        WriteWord(ram, table + 4 * j, BitOr(page, flags));
        forall l: nat | l < j
          ensures WordIn(ram[..], table + 4 * l) == WordIn(m, table + 4 * l)
        {
          WordKept(m, ram[..], table + 4 * j, table + 4 * j + 4, table + 4 * l);
        }
      }
    }

    // Where building a directory stands: what memory holds, which blocks it took, and that
    // the rest is as before.
    ghost predicate Building(live0: Live, live: Live, m0: Memory, m: Memory, dir: nat, tables: seq<nat>, flags: Word)
    {
      Built(m, dir, tables, flags) && Grown(live0, live, [dir] + tables) && Kept(live0, m0, m)
    }

    // The outer loop's body: one more table, entered in the directory.
    method AddTable(dir: nat, i: nat, offset: Word, flags: Byte, ghost live0: Live, ghost m0: Memory, ghost tables: seq<nat>)
      returns (table: nat)
      requires Valid() && CountTaken(heap.GetTable()) < heap.total
      requires i == |tables| < ENTRIES && offset == i * TABLE_SPAN
      requires Building(live0, heap.live, m0, ram[..], dir, tables, flags)
      modifies heap`live, heap.entries, ram
      ensures Valid() && CountTaken(heap.GetTable()) == old(CountTaken(heap.GetTable())) + 1
      ensures NearStep(old(heap.GetTable()), heap.GetTable(), BlockAt(table))
      ensures table >= 0 && Building(live0, heap.live, m0, ram[..], dir, tables + [table], flags)
    {
      hide BitOr, WordIn, DirectoryEntry, TableHolds, Built, Grown, Kept, NearStep;
      ghost var m: Memory, live: Live := ram[..], heap.live;
      BuildingFrame(live0, live, m0, m, dir, tables, flags);
      table := AllocFrame(4 * ENTRIES);
      FillTable(table, i, offset, flags);
      ghost var m1: Memory := ram[..];
      assert SameOutside(m, m1, table, table + PAGE_SIZE);
      DirectoryEntryFrame(table, flags);
      WriteWord(ram, dir + 4 * i, DirectoryEntry(table, flags));
      TableAdded(live0, live, heap.live, m0, m, m1, ram[..], dir, tables, table, flags);
    }

    // A new directory maps every page to itself. It takes 1026 blocks that were free, the near
    // ones first, and nothing that was in use before changes.
    method NewDirectory(flags: Byte) returns (chunk: nat)
      requires Valid() && CountTaken(heap.GetTable()) + ENTRIES + 2 <= heap.total
      modifies heap`live, heap.entries, ram
      ensures Valid()
      ensures ChunkOk(ram[..], chunk)
      ensures Grown(old(heap.live), heap.live, FramesOf(ram[..], chunk))
      ensures CountTaken(heap.GetTable()) == old(CountTaken(heap.GetTable())) + ENTRIES + 2
      ensures NearCount(FramesOf(ram[..], chunk)) ==
        if NearFree(old(heap.GetTable())) < ENTRIES + 2 then NearFree(old(heap.GetTable())) else ENTRIES + 2
      ensures forall page: nat :: page < PAGES ==>
        Entry(ram[..], WordIn(ram[..], chunk), page) == BitOr(page * PAGE_SIZE, flags)
      ensures forall i: nat :: i < ENTRIES ==> FlagsAt(ram[..], WordIn(ram[..], chunk), i) == BitOr(flags, 2)
      ensures Kept(old(heap.live), old(ram[..]), ram[..])
    {
      hide Building, ChunkOk, Grown, BitOr, WordIn, Represents, CountTaken, SameOutside, TableAt, FlagsAt, Entry, Built, Kept;
      hide NearStep, NearFree, Kernel.NearFirst, Kernel.NearCount;
      ghost var m0: Memory, live0: Live, t0 := ram[..], heap.live, heap.GetTable();
      var dir, tables := NewTables(flags);
      ghost var m: Memory, live: Live, t := ram[..], heap.live, heap.GetTable();
      chunk := AllocFrame(4);
      NearOneMore(t0, t, heap.GetTable(), [dir] + tables, chunk);
      NearAtEnd(t0, heap.GetTable(), dir, tables, chunk);
      BuildingFrame(live0, live, m0, m, dir, tables, flags);
      ghost var m1: Memory := ram[..];
      WriteWord(ram, chunk, dir);
      SameOutsideTwice(m, m1, ram[..], chunk, chunk + PAGE_SIZE, chunk, chunk + 4);
      heap.ValidExtents();
      DirectoryDone(live0, live, heap.live, m0, m, ram[..], dir, tables, chunk, flags);
    }

    // The directory and its tables.
    method NewTables(flags: Byte) returns (dir: nat, ghost tables: seq<nat>)
      requires Valid() && CountTaken(heap.GetTable()) + ENTRIES + 2 <= heap.total
      modifies heap`live, heap.entries, ram
      ensures Valid() && |tables| == ENTRIES
      ensures Building(old(heap.live), heap.live, old(ram[..]), ram[..], dir, tables, flags)
      ensures CountTaken(heap.GetTable()) == old(CountTaken(heap.GetTable())) + ENTRIES + 1
      ensures NearFirst(old(heap.GetTable()), heap.GetTable(), [dir] + tables)
    {
      hide Building, ChunkOk, Grown, BitOr, WordIn, Represents, CountTaken, SameOutside, TableAt, Entry, Built, Kept;
      hide NearStep, NearFree;
      ghost var m0: Memory, live0: Live, t0 := ram[..], heap.live, heap.GetTable();
      dir := AllocFrame(4 * ENTRIES);
      tables := [];
      BuildingStart(live0, heap.live, m0, ram[..], dir, flags);
      NearOneMore(t0, t0, heap.GetTable(), [], dir);
      assert [] + [dir] == [dir] + tables;
      hide Kernel.NearFirst, Kernel.NearCount;
      var offset: Word := 0;
      for i := 0 to ENTRIES
        invariant Valid() && CountTaken(heap.GetTable()) == CountTaken(t0) + 1 + i
        invariant |tables| == i && Building(live0, heap.live, m0, ram[..], dir, tables, flags)
        invariant NearFirst(t0, heap.GetTable(), [dir] + tables)
        invariant offset == i * TABLE_SPAN % WORD_LIMIT
      {
        ghost var t := heap.GetTable();
        var table := AddTable(dir, i, offset, flags, live0, m0, tables);
        NearOneMore(t0, t, heap.GetTable(), [dir] + tables, table);
        assert [dir] + tables + [table] == [dir] + (tables + [table]);
        tables := tables + [table];
        offset := (offset + TABLE_SPAN) % WORD_LIMIT;
      }
    }

    lemma BuildingStart(live0: Live, live: Live, m0: Memory, m: Memory, dir: nat, flags: Word)
      requires BlockAt(dir) >= 0 && BlockAt(dir) !in live0 && live == live0[BlockAt(dir) := 1] && IsOwned(live, dir)
      requires flags < 0x100 && Kept(live0, m0, m)
      ensures Building(live0, live, m0, m, dir, [], flags)
    {
      GrownStart(live0);
      GrownOneMore(live0, live0, [], dir);
      BuiltStart(m, dir, flags);
      assert [] + [dir] == [dir] + [];
    }

    lemma BuildingFrame(live0: Live, live: Live, m0: Memory, m: Memory, dir: nat, tables: seq<nat>, flags: Word)
      requires Building(live0, live, m0, m, dir, tables, flags)
      ensures IsFrame(dir) && Built(m, dir, tables, flags) && Grown(live0, live, [dir] + tables) && Kept(live0, m0, m)
    {
    }

    // ----- Giving a directory back -----

    // Frees every table through its directory entry, then the directory and the chunk. Those
    // 2 GB and more above the start of the heap stay taken.
    method FreeDirectory(chunk: nat)
      requires Valid() && ChunkOk(ram[..], chunk) && Owns(heap.live, FramesOf(ram[..], chunk))
      modifies heap`live, heap.entries
      ensures Valid()
      ensures heap.live == old(heap.live) - NearBlocks(FramesOf(ram[..], chunk))
      ensures CountTaken(heap.GetTable()) == old(CountTaken(heap.GetTable())) - NearCount(FramesOf(ram[..], chunk))
    {
      hide WordIn, Represents, Owns, Kernel.NearBlocks, Kernel.NearCount, CountTaken;
      ghost var m: Memory, live: Live, t := ram[..], heap.live, heap.GetTable();
      ghost var frames := FramesOf(m, chunk);
      var dir := ReadWord(ram, chunk);
      NoneFreed(live, frames);
      for i := 0 to ENTRIES
        invariant Valid() && ram[..] == m
        invariant heap.live == live - NearBlocks(frames[..i])
        invariant CountTaken(heap.GetTable()) == CountTaken(t) - NearCount(frames[..i])
      {
        var entry := ReadWord(ram, dir + 4 * i);
        var table := PageFrame(entry);
        assert frames[i] == table;
        FreeFrame(table, live, frames, i);
      }
      assert frames[ENTRIES] == dir && frames[ENTRIES + 1] == chunk;
      FreeFrame(dir, live, frames, ENTRIES);
      FreeFrame(chunk, live, frames, ENTRIES + 1);
      assert frames[..ENTRIES + 2] == frames;
    }

    lemma NoneFreed(live: Live, frames: seq<nat>)
      ensures live - NearBlocks(frames[..0]) == live && NearCount(frames[..0]) == 0
    {
    }

    method FreeFrame(frame: nat, ghost live: Live, ghost frames: seq<nat>, ghost i: nat)
      requires Valid() && Owns(live, frames) && i < |frames| && frames[i] == frame
      requires heap.live == live - NearBlocks(frames[..i])
      modifies heap`live, heap.entries
      ensures Valid()
      ensures heap.live == live - NearBlocks(frames[..i + 1])
      ensures CountTaken(heap.GetTable()) + NearCount(frames[..i + 1])
              == old(CountTaken(heap.GetTable())) + NearCount(frames[..i])
    {
      StillOwned(live, frames, i);
      OneLess(live, frames, i);
      ghost var t, b := heap.GetTable(), BlockAt(frame);
      heap.ValidExtents();
      assert frame == heap.BlockToAddress(b);
      FreedCount(t, heap.live, b);
      hide Owns, Represents, Kernel.NearBlocks, Kernel.NearCount, CountTaken, Freed;
      heap.Free(frame);
    }

    lemma FreedCount(t: Table, live: Live, b: nat)
      requires Represents(t, live) && b in live && live[b] == 1
      ensures CountTaken(t) == CountTaken(Freed(t, b)) + 1
    {
      FreeKeeps(t, live, b);
      Conservation(t, live);
      Conservation(Freed(t, b), live - {b});
      SumWithout(live, b);
    }

    lemma StillOwned(live: Live, frames: seq<nat>, i: nat)
      requires Owns(live, frames) && i < |frames| && heap.startAddress % PAGE_SIZE == 0
      ensures IsOwned(live - NearBlocks(frames[..i]), frames[i])
    {
      forall k | 0 <= k < i
        ensures BlockAt(frames[k]) != BlockAt(frames[i])
      {
        OwnedApart(live, frames[k], frames[i]);
      }
      assert BlockAt(frames[i]) !in NearBlocks(frames[..i]);
    }

    lemma OneLess(live: Live, frames: seq<nat>, i: nat)
      requires i < |frames|
      ensures var b := BlockAt(frames[i]);
              && live - NearBlocks(frames[..i + 1])
                 == (if b < REACH then live - NearBlocks(frames[..i]) - {b} else live - NearBlocks(frames[..i]))
              && NearCount(frames[..i + 1]) == NearCount(frames[..i]) + (if b < REACH then 1 else 0)
    {
      var b := BlockAt(frames[i]);
      assert frames[..i + 1] == frames[..i] + [frames[i]];
      assert frames[..i + 1][..i] == frames[..i];
      assert NearBlocks(frames[..i + 1]) == NearBlocks(frames[..i]) + (if b < REACH then {b} else {});
    }

    // Mapping leaves the frames of a directory what they are.
    lemma MappingKeepsFrames(m: Memory, m': Memory, chunk: nat)
      requires ChunkOk(m, chunk) && ChunkOk(m', chunk) && WordIn(m', chunk) == WordIn(m, chunk)
      requires OnlyTables(m, m', WordIn(m, chunk))
      ensures FramesOf(m', chunk) == FramesOf(m, chunk)
    {
      hide TableAt;
      assert Tables(m', WordIn(m, chunk)) == Tables(m, WordIn(m, chunk));
    }

    // A directory that is created, mapped into any number of times and freed leaves the
    // block table of the heap byte for byte as it was, exactly if there were enough near
    // blocks free. As many blocks as were missing stay taken.
    method DirectoryLifetime(flags: Byte, requests: seq<MapRequest>)
      requires Valid() && CountTaken(heap.GetTable()) + ENTRIES + 2 <= heap.total
      modifies heap`live, heap.entries, ram
      ensures Valid()
      ensures heap.GetTable() == old(heap.GetTable()) <==> NearFree(old(heap.GetTable())) >= ENTRIES + 2
      ensures heap.live == old(heap.live) <==> NearFree(old(heap.GetTable())) >= ENTRIES + 2
      ensures var near := NearFree(old(heap.GetTable()));
              CountTaken(heap.GetTable()) ==
                old(CountTaken(heap.GetTable())) + (if near < ENTRIES + 2 then ENTRIES + 2 - near else 0)
    {
      hide ChunkOk, WordIn, Represents, CountTaken, NearFree, Grown, Owns;
      hide Kernel.FramesOf, Kernel.NearCount, Kernel.NearBlocks, Kernel.Blocks;
      ghost var t, live0: Live := heap.GetTable(), heap.live;
      var chunk := NewDirectory(flags);
      ChunkFrames(ram[..], chunk);
      ghost var live1: Live, frames := heap.live, FramesOf(ram[..], chunk);
      MapAll(chunk, requests);
      ChunkFrames(ram[..], chunk);
      GrownOwns(live0, live1, frames);
      FreeDirectory(chunk);
      Restored(t, live0, live1, heap.GetTable(), heap.live, frames);
    }

    lemma ChunkFrames(m: Memory, chunk: nat)
      requires ChunkOk(m, chunk)
      ensures chunk + PAGE_SIZE <= WORD_LIMIT && WordIn(m, chunk) + PAGE_SIZE <= WORD_LIMIT
    {
    }

    lemma GrownOwns(before: Live, live: Live, frames: seq<nat>)
      requires Grown(before, live, frames)
      ensures Owns(live, frames)
    {
    }

    method MapAll(chunk: nat, requests: seq<MapRequest>)
      requires Valid() && ChunkOk(ram[..], chunk)
      modifies ram
      ensures ChunkOk(ram[..], chunk) && FramesOf(ram[..], chunk) == old(FramesOf(ram[..], chunk))
    {
      ghost var frames := FramesOf(ram[..], chunk);
      for i := 0 to |requests|
        invariant ChunkOk(ram[..], chunk) && FramesOf(ram[..], chunk) == frames
      {
        ghost var m: Memory := ram[..];
        var r := requests[i];
        var _ := MapTo(chunk, r.va, r.pa, r.pend, r.flags);
        if r.Accepted() {
          MappingKeepsFrames(m, ram[..], chunk);
        }
      }
    }

    // What is left when the near ones of some new frames have been freed.
    lemma Restored(t: Table, live: Live, live1: Live, t': Table, live': Live, frames: seq<nat>)
      requires Represents(t, live) && Represents(t', live') && |t| == |t'|
      requires Grown(live, live1, frames) && live' == live1 - NearBlocks(frames)
      requires CountTaken(t') == CountTaken(t) + |frames| - NearCount(frames)
      ensures t' == t <==> NearCount(frames) == |frames|
      ensures live' == live <==> NearCount(frames) == |frames|
    {
      if NearCount(frames) == |frames| {
        AllNear(frames);
        UniqueEncoding(t, t', live);
      } else if live' == live {
        UniqueEncoding(t, t', live);
      }
    }
  }

  datatype MapRequest = MapRequest(va: Word, pa: Word, pend: Word, flags: Word)
  {
    predicate Accepted() { va % PAGE_SIZE == 0 && pa % PAGE_SIZE == 0 && pend % PAGE_SIZE == 0 && pa <= pend }
  }
}
