// Giving a process its memory: tracked allocations, and mapping the segments of its ELF
// image and its stack.
module ProcessMemory {
  import opened Status
  import opened Words
  import opened Wrappers
  import opened HeapTable
  import opened Heap
  import opened Ram
  import opened PageTables
  import opened Paging
  import opened KernelMemory
  import opened LoadPlan

  const MAX_ALLOCATIONS := 1024

  // A bss segment that has been given its buffer.
  datatype Loaded = Loaded(h: ProgramHeader, buf: nat)

  // Remembering a pointer in the first free slot.
  function FillSlot(slots: seq<nat>, ptr: nat): seq<nat> {
    if slots == [] then []
    else if slots[0] == 0 then [ptr] + slots[1..]
    else [slots[0]] + FillSlot(slots[1..], ptr)
  }

  function FreeSlots(slots: seq<nat>): nat {
    if slots == [] then 0 else (if slots[0] == 0 then 1 else 0) + FreeSlots(slots[1..])
  }

  lemma {:induction false} FillSlotAt(slots: seq<nat>, i: nat, ptr: nat)
    requires i < |slots| && slots[i] == 0 && 0 !in slots[..i]
    ensures FillSlot(slots, ptr) == slots[i := ptr]
  {
    if i > 0 {
      assert slots[0] == slots[..i][0] && slots[1..][..i - 1] == slots[..i][1..];
      FillSlotAt(slots[1..], i - 1, ptr);
    }
  }

  lemma {:induction false} FillSlotCount(slots: seq<nat>, ptr: nat)
    requires 0 in slots && ptr > 0
    ensures FreeSlots(FillSlot(slots, ptr)) == FreeSlots(slots) - 1
  {
    if slots[0] != 0 {
      FillSlotCount(slots[1..], ptr);
    }
  }

  lemma {:induction false} HasFreeSlot(slots: seq<nat>)
    ensures FreeSlots(slots) > 0 <==> 0 in slots
  {
    if slots != [] {
      HasFreeSlot(slots[1..]);
    }
  }

  class Process {
    const kernel: Kernel
    const chunk: nat
    const stack: nat
    const elf: nat
    const allocations: array<nat>

    ghost predicate Valid()
      reads kernel.heap, kernel.heap.entries, kernel.ram
    {
      && kernel.Valid()
      && kernel.heap.startAddress + kernel.heap.total * BLOCK_SIZE < WORD_LIMIT
      && ChunkOk(kernel.ram[..], chunk)
      && kernel.Owns(kernel.heap.live, kernel.FramesOf(kernel.ram[..], chunk))
      && allocations.Length == MAX_ALLOCATIONS
      && allocations as object != kernel.ram as object && allocations as object != kernel.heap.entries as object
    }

    constructor (kernel: Kernel, chunk: nat, stack: nat, elf: nat, allocations: array<nat>)
      ensures this.kernel == kernel && this.chunk == chunk && this.stack == stack && this.elf == elf
      ensures this.allocations == allocations
    {
      this.kernel := kernel;
      this.chunk := chunk;
      this.stack := stack;
      this.elf := elf;
      this.allocations := allocations;
    }

    // ----- Tracked allocations -----

    method NextAllocationIndex() returns (index: int)
      requires allocations.Length == MAX_ALLOCATIONS
      ensures 0 !in allocations[..] ==> index == -ENOMEM
      ensures 0 in allocations[..] ==> 0 <= index < 1024 && allocations[index] == 0 && 0 !in allocations[..index]
    {
      for i := 0 to MAX_ALLOCATIONS
        invariant 0 !in allocations[..i]
      {
        if allocations[i] == 0 {
          return i;
        }
      }
      assert allocations[..MAX_ALLOCATIONS] == allocations[..];
      return -ENOMEM;
    }

    // Allocates a buffer, maps it to itself in the process and remembers it in the first free
    // slot. With no slot free the result is null and nothing happens. Without memory it is null
    // as well, but the pages from address 0 on have been mapped to themselves.
    method MallocFlags(size: Word, flags: Word) returns (ptr: nat)
      requires Valid() && flags < 0x1000
      requires Answered(kernel.heap.GetTable(), BlocksOf(size))
      modifies kernel.heap`live, kernel.heap.entries, kernel.ram, allocations
      ensures Valid()
      ensures 0 !in old(allocations[..]) ==>
        && ptr == 0 && kernel.heap.live == old(kernel.heap.live) && kernel.ram[..] == old(kernel.ram[..])
        && allocations[..] == old(allocations[..]) && kernel.heap.GetTable() == old(kernel.heap.GetTable())
      ensures ptr == 0 <==> 0 !in old(allocations[..]) || !Fits(old(kernel.heap.GetTable()), BlocksOf(size))
      ensures 0 in old(allocations[..]) ==> MappedToItself(old(kernel.ram[..]), kernel.ram[..], ptr, size, flags)
      ensures 0 in old(allocations[..]) && Fits(old(kernel.heap.GetTable()), BlocksOf(size)) ==>
        && NewBuffer(old(kernel.heap.GetTable()), old(kernel.heap.live),
                     kernel.heap.GetTable(), kernel.heap.live, size, ptr)
        && allocations[..] == FillSlot(old(allocations[..]), ptr)
      ensures 0 in old(allocations[..]) && !Fits(old(kernel.heap.GetTable()), BlocksOf(size)) ==>
        && ptr == 0 && allocations[..] == old(allocations[..])
        && kernel.heap.GetTable() == old(kernel.heap.GetTable()) && kernel.heap.live == old(kernel.heap.live)
    {
      hide WordIn, Mapped, OnlyTables, ChunkOk, Represents, NewBuffer, Fits, FillSlot, BlocksOf, Span, AlignUp, Answered;
      var nextAllocIdx := NextAllocationIndex();
      if nextAllocIdx == -ENOMEM {
        return 0;
      }
      ghost var m: Memory := kernel.ram[..];
      ptr := KMalloc(size);
      FillSlotAt(allocations[..], nextAllocIdx, ptr);
      FillWithNull(allocations[..], nextAllocIdx);
      allocations[nextAllocIdx] := ptr;
      SpanFromAligned(ptr, size);
      var res := kernel.MapTo(chunk, ptr, ptr, AlignUp(ptr + size), flags);
      if res < 0 {
        assert false;
      }
      kernel.MappingKeepsFrames(m, kernel.ram[..], chunk);
      ptr := allocations[nextAllocIdx];
    }

    lemma FillWithNull(slots: seq<nat>, i: nat)
      requires i < |slots| && slots[i] == 0
      ensures slots[i := 0] == slots
    {
    }

    // kmalloc, as seen by a process: the new blocks are apart from its page directory.
    method KMalloc(size: Word) returns (ptr: nat)
      requires Valid()
      requires Answered(kernel.heap.GetTable(), BlocksOf(size))
      modifies kernel.heap`live, kernel.heap.entries
      ensures Valid()
      ensures Fits(old(kernel.heap.GetTable()), BlocksOf(size)) ==>
        NewBuffer(old(kernel.heap.GetTable()), old(kernel.heap.live),
                  kernel.heap.GetTable(), kernel.heap.live, size, ptr)
      ensures ptr == 0 <==> !Fits(old(kernel.heap.GetTable()), BlocksOf(size))
      ensures !Fits(old(kernel.heap.GetTable()), BlocksOf(size)) ==>
        && kernel.heap.GetTable() == old(kernel.heap.GetTable()) && kernel.heap.live == old(kernel.heap.live)
      ensures ptr % PAGE_SIZE == 0 && ptr + size + PAGE_SIZE <= WORD_LIMIT
    {
      ghost var t, live: Live, frames := kernel.heap.GetTable(), kernel.heap.live, kernel.FramesOf(kernel.ram[..], chunk);
      hide WordIn, ChunkOk, Represents, Fits, IsFirstFit, Taken;
      ghost var start;
      BlocksAreCeiling(size);
      ptr, start := kernel.heap.Malloc(size);
      if ptr == 0 {
        return;
      }
      hide SearchResult;
      BufferIsNew(t, live, kernel.heap.GetTable(), kernel.heap.live, size, ptr, start);
      StillOwnsFrames(t, live, kernel.heap.GetTable(), kernel.heap.live, size, ptr, frames);
    }

    // The pages of the buffer show the buffer itself, and nothing but page tables has changed.
    ghost predicate MappedToItself(m: Memory, m': Memory, ptr: nat, size: Word, flags: Word)
    {
      && ChunkOk(m, chunk) && ptr % PAGE_SIZE == 0 && ptr + size + PAGE_SIZE <= WORD_LIMIT
      && WordIn(m', chunk) == WordIn(m, chunk)
      && Mapped(m, m', WordIn(m, chunk), ptr / PAGE_SIZE, ptr / PAGE_SIZE, Span(ptr, size), flags)
      && OnlyTables(m, m', WordIn(m, chunk))
    }

    // The heap has grown by one run of blocks, at the lowest place where it fits.
    ghost predicate NewBuffer(t: Table, live: Live, t': Table, live': Live, size: Word, ptr: nat)
    {
      var b := kernel.BlockAt(ptr);
      && b >= 0 && kernel.heap.BlockToAddress(b) == ptr && ptr > 0
      && BlocksOf(size) >= 1 && IsFirstFit(t, BlocksOf(size), b) && t' == Taken(t, b, BlocksOf(size))
      && b !in live && live' == live[b := BlocksOf(size)]
      && forall i :: b <= i < b + BlocksOf(size) ==> !Covered(live, i)
    }

    lemma BufferIsNew(t: Table, live: Live, t': Table, live': Live, size: Word, ptr: nat, start: int)
      requires kernel.heap.Placed() && kernel.heap.startAddress > 0 && Represents(t, live) && |t| == kernel.heap.total
      requires kernel.heap.startAddress + kernel.heap.total * BLOCK_SIZE < WORD_LIMIT
      requires BlocksOf(size) >= 1 && Fits(t, BlocksOf(size)) && SearchResult(t, BlocksOf(size), start)
      requires ptr == kernel.heap.BlockToAddress(start)
      requires t' == Taken(t, start, BlocksOf(size)) && start !in live && live' == live[start := BlocksOf(size)]
      ensures NewBuffer(t, live, t', live', size, ptr)
      ensures ptr % PAGE_SIZE == 0 && ptr + size + PAGE_SIZE <= WORD_LIMIT
    {
      kernel.heap.AddressRoundTrip(start);
      kernel.RunIsFresh(t, live, start, BlocksOf(size));
      BlocksAreCeiling(size);
    }

    lemma StillOwnsFrames(t: Table, live: Live, t': Table, live': Live, size: Word, ptr: nat, frames: seq<nat>)
      requires NewBuffer(t, live, t', live', size, ptr) && kernel.Owns(live, frames)
      ensures kernel.Owns(live', frames)
    {
    }

    // ----- Loading -----

    // What is in one of the frames of the process's page directory.
    ghost predicate InFramesOf(frames: seq<nat>, a: nat) { FrameOf(a) in frames }

    // A buffer that was not live before and is not a frame of the directory.
    ghost predicate BufferOk(live0: Live, live: Live, frames: seq<nat>, s: Loaded)
    {
      var b := kernel.BlockAt(s.buf);
      && b >= 0 && kernel.heap.BlockToAddress(b) == s.buf && b < kernel.heap.total
      && s.buf + s.h.memsz <= WORD_LIMIT && elf + s.h.offset + s.h.filesz <= WORD_LIMIT && s.h.HasBss()
      && s.h.memsz <= BlocksOf(s.h.memsz) * BLOCK_SIZE
      && b in live && live[b] == BlocksOf(s.h.memsz) && b !in live0 && b !in kernel.Blocks(frames)
    }

    // The buffer holds the segment's bytes of the image; behind them it holds what the heap
    // blocks held before: nothing clears them.
    ghost predicate Filled(m0: Memory, m: Memory, s: Loaded)
      requires s.buf + s.h.memsz <= WORD_LIMIT && elf + s.h.offset + s.h.filesz <= WORD_LIMIT
    {
      && s.h.filesz <= s.h.memsz
      && m[s.buf..s.buf + s.h.filesz] == m0[elf + s.h.offset..elf + s.h.offset + s.h.filesz]
      && forall a: nat :: s.buf + s.h.filesz <= a < s.buf + s.h.memsz ==> m[a] == m0[a]
    }

    // The image bytes of a header are in use and not in the directory's frames.
    ghost predicate ImageOk(m0: Memory, live0: Live, h: ProgramHeader)
    {
      && ChunkOk(m0, chunk)
      && elf + h.offset + h.filesz + PAGE_SIZE <= WORD_LIMIT
      && forall a: nat :: elf + h.offset <= a < elf + h.offset + h.filesz ==>
           kernel.InUse(live0, a) && !InFramesOf(kernel.FramesOf(m0, chunk), a)
    }

    // The directory is the one of before, and its frames are still its own.
    ghost predicate SameDirectory(m0: Memory, live0: Live, m: Memory, live: Live)
      requires chunk + PAGE_SIZE <= WORD_LIMIT && WordIn(m0, chunk) + PAGE_SIZE <= WORD_LIMIT
    {
      var frames := kernel.FramesOf(m0, chunk);
      && ChunkOk(m, chunk) && WordIn(m, chunk) == WordIn(m0, chunk) && kernel.FramesOf(m, chunk) == frames
      && SameFlags(m0, m, WordIn(m0, chunk))
      && kernel.Owns(live, frames)
      && Extents(live, kernel.heap.total)
      && (forall b :: b in live0 ==> b in live && live[b] == live0[b])
    }

    ghost predicate BuffersOk(m0: Memory, live0: Live, m: Memory, live: Live, frames: seq<nat>, segs: seq<Loaded>)
    {
      forall s :: s in segs ==> BufferOk(live0, live, frames, s) && Filled(m0, m, s)
    }

    // What was in use before is unchanged outside the directory's frames, and so is what is
    // still free.
    ghost predicate Undisturbed(m0: Memory, live0: Live, m: Memory, live: Live, frames: seq<nat>)
    {
      && (forall a: nat :: a < WORD_LIMIT && kernel.InUse(live0, a) && !InFramesOf(frames, a) ==> m[a] == m0[a])
      && (forall a: nat :: a < WORD_LIMIT && !kernel.InUse(live, a) ==> m[a] == m0[a])
    }

    // Where a load stands: the flat map, the filled buffers, and everything else as before.
    ghost predicate Loading(m0: Memory, live0: Live, m: Memory, live: Live, us: seq<Update>, segs: seq<Loaded>)
    {
      && ChunkOk(m0, chunk)
      && SameDirectory(m0, live0, m, live)
      && Follows(m0, m, WordIn(m0, chunk), us)
      && BuffersOk(m0, live0, m, live, kernel.FramesOf(m0, chunk), segs)
      && Undisturbed(m0, live0, m, live, kernel.FramesOf(m0, chunk))
    }

    lemma LoadingStart(m: Memory, live: Live)
      requires ChunkOk(m, chunk) && kernel.Owns(live, kernel.FramesOf(m, chunk)) && Extents(live, kernel.heap.total)
      ensures Loading(m, live, m, live, [], [])
    {
    }

    lemma InUseGrows(live0: Live, live: Live, a: nat)
      requires forall b :: b in live0 ==> b in live && live[b] == live0[b]
      requires kernel.InUse(live0, a)
      ensures kernel.InUse(live, a)
    {
      if a >= kernel.heap.startAddress && a < kernel.heap.startAddress + kernel.heap.total * BLOCK_SIZE {
        var i := (a - kernel.heap.startAddress) / BLOCK_SIZE;
        var b :| b in live0 && b <= i < b + live0[b];
        assert b in live;
      }
    }

    lemma OwnedElsewhere(live: Live, frames: seq<nat>, b: nat, f: nat)
      requires kernel.Owns(live, frames) && Extents(live, kernel.heap.total)
      requires b in live && b !in kernel.Blocks(frames) && f in frames
      ensures !(b <= kernel.BlockAt(f) < b + live[b])
    {
      assert kernel.BlockAt(f) in kernel.Blocks(frames);
      assert kernel.IsOwned(live, f);
    }

    // An address in a buffer is not in a frame of the directory.
    lemma BufferApart(live0: Live, live: Live, frames: seq<nat>, s: Loaded, a: nat)
      requires kernel.heap.Placed() && Extents(live, kernel.heap.total) && kernel.Owns(live, frames)
      requires BufferOk(live0, live, frames, s) && s.buf <= a < s.buf + s.h.memsz
      ensures !InFramesOf(frames, a)
      ensures a < kernel.heap.startAddress + kernel.heap.total * BLOCK_SIZE
      ensures var b, c := kernel.BlockAt(s.buf), (a - kernel.heap.startAddress) / BLOCK_SIZE;
              b <= c < b + live[b]
    {
      var b, f := kernel.BlockAt(s.buf), FrameOf(a);
      assert kernel.BlockAt(f) == (a - kernel.heap.startAddress) / BLOCK_SIZE;
      if f in frames {
        OwnedElsewhere(live, frames, b, f);
      }
    }

    // Growing the heap changes nothing of what is loaded.
    lemma LoadingGrows(m0: Memory, live0: Live, m: Memory, live: Live, us: seq<Update>, segs: seq<Loaded>,
                       t: Table, t': Table, live': Live, size: Word, ptr: nat)
      requires Loading(m0, live0, m, live, us, segs)
      requires NewBuffer(t, live, t', live', size, ptr) && Extents(live', kernel.heap.total)
      ensures Loading(m0, live0, m, live', us, segs)
    {
      hide ChunkOk, WordIn, Follows, Filled;
      forall a: nat | a < WORD_LIMIT && kernel.InUse(live, a)
        ensures kernel.InUse(live', a)
      {
        InUseGrows(live, live', a);
      }
    }

    // Mapping adds one update and touches nothing that is loaded.
    lemma LoadingMaps(m0: Memory, live0: Live, m: Memory, live: Live, us: seq<Update>, segs: seq<Loaded>,
                      m': Memory, u: Update)
      requires kernel.heap.Placed() && ChunkOk(m0, chunk)
      requires Loading(m0, live0, m, live, us, segs) && u.Valid()
      requires ChunkOk(m', chunk) && WordIn(m', chunk) == WordIn(m, chunk)
      requires Mapped(m, m', WordIn(m, chunk), u.v, u.p, u.n, u.flags) && OnlyTables(m, m', WordIn(m, chunk))
      ensures Loading(m0, live0, m', live, us + [u], segs)
    {
      var dir, frames := WordIn(m0, chunk), kernel.FramesOf(m0, chunk);
      kernel.MappingKeepsFrames(m, m', chunk);
      MappingKeepsFlags(m, m', dir);
      FollowsOneMore(m0, m, m', dir, us, u);
      TablesAreFrames(m, m', live, frames);
      hide ChunkOk, WordIn, Follows, Mapped, OnlyTables, InFramesOf, FlagsAt;
      BuffersKept(m0, live0, m, live, frames, segs, m');
    }

    // A change that stays in the frames of the directory keeps the buffers as they are filled.
    lemma BuffersKept(m0: Memory, live0: Live, m: Memory, live: Live, frames: seq<nat>, segs: seq<Loaded>, m': Memory)
      requires kernel.heap.Placed() && Extents(live, kernel.heap.total) && kernel.Owns(live, frames)
      requires BuffersOk(m0, live0, m, live, frames, segs)
      requires forall a: nat :: a < WORD_LIMIT && m'[a] != m[a] ==> InFramesOf(frames, a)
      ensures BuffersOk(m0, live0, m', live, frames, segs)
    {
      hide InFramesOf;
      forall s, a: nat | s in segs && s.buf <= a < s.buf + s.h.memsz
        ensures m'[a] == m[a]
      {
        BufferApart(live0, live, frames, s, a);
      }
      forall s | s in segs
        ensures m'[s.buf..s.buf + s.h.filesz] == m[s.buf..s.buf + s.h.filesz]
      {
        assert Filled(m0, m, s);
      }
    }

    // A mapping changes memory only in frames of the directory, which are in use.
    lemma TablesAreFrames(m: Memory, m': Memory, live: Live, frames: seq<nat>)
      requires kernel.heap.Placed() && ChunkOk(m, chunk) && frames == kernel.FramesOf(m, chunk)
      requires OnlyTables(m, m', WordIn(m, chunk)) && kernel.Owns(live, frames) && Extents(live, kernel.heap.total)
      ensures forall a: nat :: a < WORD_LIMIT && m'[a] != m[a] ==> InFramesOf(frames, a) && kernel.InUse(live, a)
    {
      hide WordIn;
      assert forall i: nat :: i < ENTRIES ==> frames[i] == TableAt(m, WordIn(m, chunk), i);
      forall a: nat | a < WORD_LIMIT && m'[a] != m[a]
        ensures InFramesOf(frames, a) && kernel.InUse(live, a)
      {
        var i: nat :| i < ENTRIES && TableAt(m, WordIn(m, chunk), i) == FrameOf(a);
        FrameInUse(live, frames[i], a);
      }
    }

    lemma FrameInUse(live: Live, frame: nat, a: nat)
      requires kernel.heap.Placed() && kernel.IsOwned(live, frame) && FrameOf(a) == frame
      ensures kernel.InUse(live, a)
    {
      if a < kernel.heap.startAddress + kernel.heap.total * BLOCK_SIZE {
        var b := kernel.BlockAt(frame);
        assert (a - kernel.heap.startAddress) / BLOCK_SIZE == b;
        assert b <= b < b + live[b];
      }
    }

    // ----- Filling a bss buffer -----

    lemma NewBufferOk(live0: Live, live: Live, frames: seq<nat>, t: Table, t': Table, live': Live, h: ProgramHeader, buf: nat)
      requires kernel.heap.Placed() && |t| == kernel.heap.total && Extents(live', kernel.heap.total)
      requires NewBuffer(t, live, t', live', h.memsz, buf) && kernel.Owns(live, frames)
      requires forall b :: b in live0 ==> b in live && live[b] == live0[b]
      requires h.HasBss() && buf + h.memsz <= WORD_LIMIT && elf + h.offset + h.filesz <= WORD_LIMIT
      ensures BufferOk(live0, live', frames, Loaded(h, buf))
    {
      BlocksAreCeiling(h.memsz);
      forall f | f in frames
        ensures kernel.BlockAt(f) != kernel.BlockAt(buf)
      {
        assert kernel.IsOwned(live, f);
      }
    }

    // The blocks of a new buffer were not in use.
    lemma NewBufferWasFree(t: Table, live: Live, t': Table, live': Live, h: ProgramHeader, buf: nat, a: nat)
      requires kernel.heap.Placed() && |t| == kernel.heap.total
      requires NewBuffer(t, live, t', live', h.memsz, buf) && buf <= a < buf + h.memsz
      ensures !kernel.InUse(live, a) && kernel.InUse(live', a)
    {
      BlocksAreCeiling(h.memsz);
      var b, i := kernel.BlockAt(buf), (a - kernel.heap.startAddress) / BLOCK_SIZE;
      assert b <= i < b + live'[b];
    }

    // A change outside the directory's frames keeps the directory and its flat map.
    lemma DirectoryKept(m0: Memory, live0: Live, m: Memory, m': Memory, live: Live, us: seq<Update>)
      requires ChunkOk(m0, chunk) && SameDirectory(m0, live0, m, live) && Follows(m0, m, WordIn(m0, chunk), us)
      requires forall a: nat :: a < WORD_LIMIT && m'[a] != m[a] ==> !InFramesOf(kernel.FramesOf(m0, chunk), a)
      ensures SameDirectory(m0, live0, m', live) && Follows(m0, m', WordIn(m0, chunk), us)
    {
      var dir, frames := WordIn(m0, chunk), kernel.FramesOf(m0, chunk);
      assert frames == kernel.FramesOf(m, chunk);
      assert frames[ENTRIES] == dir && frames[ENTRIES + 1] == chunk;
      assert forall i: nat :: i < ENTRIES ==> frames[i] == TableAt(m, dir, i);
      FramesKept(m, m', dir);
      FlagsKept(m, m', dir);
      ChunkWordKept(m, m');
      assert kernel.Tables(m', dir) == kernel.Tables(m, dir);
    }

    lemma ChunkWordKept(m: Memory, m': Memory)
      requires IsFrame(chunk)
      requires forall a: nat :: a < WORD_LIMIT && FrameOf(a) == chunk ==> m'[a] == m[a]
      ensures WordIn(m', chunk) == WordIn(m, chunk)
    {
      InFrame(chunk, 0);
      InFrame(chunk, 1);
      InFrame(chunk, 2);
      InFrame(chunk, 3);
    }

    lemma LoadingFills(m0: Memory, live0: Live, live: Live, m: Memory, live': Live, us: seq<Update>, segs: seq<Loaded>,
                       t: Table, t': Table, h: ProgramHeader, buf: nat, m': Memory)
      requires kernel.heap.Placed() && |t| == kernel.heap.total && ChunkOk(m0, chunk)
      requires Loading(m0, live0, m, live', us, segs)
      requires var frames := kernel.FramesOf(m0, chunk);
               && kernel.Owns(live, frames) && ImageOk(m0, live0, h)
               && forall s :: s in segs ==> BufferOk(live0, live, frames, s)
      requires forall b :: b in live0 ==> b in live && live[b] == live0[b]
      requires NewBuffer(t, live, t', live', h.memsz, buf) && h.HasBss() && buf + h.memsz <= WORD_LIMIT
      requires forall a: nat :: buf <= a < buf + h.memsz ==> m[a] == m0[a]
      requires SameOutside(m, m', buf, buf + h.filesz)
      requires m'[buf..buf + h.filesz] == m[elf + h.offset..elf + h.offset + h.filesz]
      ensures Loading(m0, live0, m', live', us, segs + [Loaded(h, buf)])
    {
      var frames, s := kernel.FramesOf(m0, chunk), Loaded(h, buf);
      NewBufferOk(live0, live, frames, t, t', live', h, buf);
      forall a: nat | buf <= a < buf + h.memsz
        ensures !kernel.InUse(live, a) && kernel.InUse(live', a) && !kernel.InUse(live0, a) && !InFramesOf(frames, a)
      {
        NewBufferWasFree(t, live, t', live', h, buf, a);
        BufferApart(live0, live', frames, s, a);
        if kernel.InUse(live0, a) {
          InUseGrows(live0, live, a);
        }
      }
      DirectoryKept(m0, live0, m, m', live', us);
      FilledNew(m0, live0, m, m', frames, h, buf);
      OldBuffersKept(m0, live0, live, m, m', live', frames, segs, buf, h);
      hide ChunkOk, WordIn, Follows, InFramesOf, SameOutside, ImageOk;
      assert Undisturbed(m0, live0, m', live', frames) by {
        UndisturbedStill(m0, live0, m, m', live', frames, buf, h);
      }
    }

    lemma UndisturbedStill(m0: Memory, live0: Live, m: Memory, m': Memory, live': Live, frames: seq<nat>, buf: nat, h: ProgramHeader)
      requires Undisturbed(m0, live0, m, live', frames) && h.HasBss() && buf + h.memsz <= WORD_LIMIT
      requires SameOutside(m, m', buf, buf + h.filesz)
      requires forall a: nat :: buf <= a < buf + h.memsz ==> kernel.InUse(live', a) && !kernel.InUse(live0, a)
      ensures Undisturbed(m0, live0, m', live', frames)
    {
      hide InFramesOf, Kernel.InUse;
    }

    lemma FilledNew(m0: Memory, live0: Live, m: Memory, m': Memory, frames: seq<nat>, h: ProgramHeader, buf: nat)
      requires h.HasBss() && buf + h.memsz <= WORD_LIMIT && ImageOk(m0, live0, h) && frames == kernel.FramesOf(m0, chunk)
      requires forall a: nat :: buf <= a < buf + h.memsz ==> m[a] == m0[a]
      requires forall a: nat :: a < WORD_LIMIT && kernel.InUse(live0, a) && !InFramesOf(frames, a) ==> m[a] == m0[a]
      requires SameOutside(m, m', buf, buf + h.filesz)
      requires m'[buf..buf + h.filesz] == m[elf + h.offset..elf + h.offset + h.filesz]
      ensures Filled(m0, m', Loaded(h, buf))
    {
      hide InFramesOf, Kernel.InUse;
      var source := elf + h.offset;
      forall a: nat | source <= a < source + h.filesz
        ensures m[a] == m0[a]
      {
        assert m[a] == m[a];
      }
      assert m[source..source + h.filesz] == m0[source..source + h.filesz];
    }

    // Buffers filled earlier lie in blocks that were in use already.
    lemma OldBuffersKept(m0: Memory, live0: Live, live: Live, m: Memory, m': Memory, live': Live, frames: seq<nat>,
                         segs: seq<Loaded>, buf: nat, h: ProgramHeader)
      requires kernel.heap.Placed()
      requires BuffersOk(m0, live0, m, live', frames, segs) && h.HasBss() && buf + h.memsz <= WORD_LIMIT
      requires forall s :: s in segs ==> BufferOk(live0, live, frames, s)
      requires forall a: nat :: buf <= a < buf + h.memsz ==> !kernel.InUse(live, a)
      requires SameOutside(m, m', buf, buf + h.filesz)
      ensures BuffersOk(m0, live0, m', live', frames, segs)
    {
      forall s, a: nat | s in segs && s.buf <= a < s.buf + s.h.memsz
        ensures m'[a] == m[a]
      {
        BufferInUse(live0, live, frames, s, a);
      }
      forall s | s in segs
        ensures m'[s.buf..s.buf + s.h.filesz] == m[s.buf..s.buf + s.h.filesz]
      {
        assert Filled(m0, m, s);
      }
    }

    lemma BufferInUse(live0: Live, live: Live, frames: seq<nat>, s: Loaded, a: nat)
      requires kernel.heap.Placed() && BufferOk(live0, live, frames, s) && s.buf <= a < s.buf + s.h.memsz
      ensures kernel.InUse(live, a)
    {
      var b, i := kernel.BlockAt(s.buf), (a - kernel.heap.startAddress) / BLOCK_SIZE;
      assert b <= i < b + live[b];
    }

    // ----- One program header -----

    // A buffer that has been allocated and mapped, and still holds what it held before.
    ghost predicate Pending(m0: Memory, live0: Live, live: Live, m: Memory, live': Live, us: seq<Update>, segs: seq<Loaded>,
                            t: Table, t': Table, h: ProgramHeader, buf: nat)
    {
      && ChunkOk(m0, chunk) && Loading(m0, live0, m, live', us, segs)
      && kernel.Owns(live, kernel.FramesOf(m0, chunk)) && ImageOk(m0, live0, h)
      && (forall s :: s in segs ==> BufferOk(live0, live, kernel.FramesOf(m0, chunk), s))
      && (forall b :: b in live0 ==> b in live && live[b] == live0[b])
      && |t| == kernel.heap.total && NewBuffer(t, live, t', live', h.memsz, buf)
      && h.HasBss() && buf + h.memsz <= WORD_LIMIT
      && (forall a: nat :: buf <= a < buf + h.memsz ==> m[a] == m0[a])
    }

    lemma BufferMapped(m0: Memory, live0: Live, live: Live, m: Memory, live': Live, us: seq<Update>, segs: seq<Loaded>,
                       t: Table, t': Table, h: ProgramHeader, buf: nat, m': Memory)
      requires kernel.heap.Placed() && |t| == kernel.heap.total && Extents(live', kernel.heap.total)
      requires ChunkOk(m0, chunk) && ChunkOk(m', chunk) && h.HasBss()
      requires Loading(m0, live0, m, live, us, segs) && ImageOk(m0, live0, h)
      requires NewBuffer(t, live, t', live', h.memsz, buf) && MappedToItself(m, m', buf, h.memsz, h.PageFlags())
      ensures buf % PAGE_SIZE == 0 && buf + h.memsz + PAGE_SIZE <= WORD_LIMIT
      ensures Pending(m0, live0, live, m', live', us + [BufferUpdate(h, buf)], segs, t, t', h, buf)
      ensures elf + h.offset + h.filesz <= WORD_LIMIT && (buf <= elf + h.offset || elf + h.offset + h.filesz <= buf)
    {
      hide WordIn, Mapped, OnlyTables, Follows, Filled;
      var frames := kernel.FramesOf(m0, chunk);
      LoadingGrows(m0, live0, m, live, us, segs, t, t', live', h.memsz, buf);
      LoadingMaps(m0, live0, m, live', us, segs, m', BufferUpdate(h, buf));
      TablesAreFrames(m, m', live, frames);
      forall a: nat | buf <= a < buf + h.memsz
        ensures m'[a] == m0[a] && !kernel.InUse(live, a) && !kernel.InUse(live0, a)
      {
        NewBufferWasFree(t, live, t', live', h, buf, a);
        if kernel.InUse(live0, a) {
          InUseGrows(live0, live, a);
        }
      }
      assert !kernel.InUse(live0, buf);
    }

    lemma BufferFilled(m0: Memory, live0: Live, live: Live, m: Memory, live': Live, us: seq<Update>, segs: seq<Loaded>,
                       t: Table, t': Table, h: ProgramHeader, buf: nat, m': Memory)
      requires kernel.heap.Placed()
      requires Pending(m0, live0, live, m, live', us, segs, t, t', h, buf)
      requires elf + h.offset + h.filesz <= WORD_LIMIT && buf + h.filesz <= WORD_LIMIT
      requires CopiedTo(m, m', buf, elf + h.offset, h.filesz)
      ensures Loading(m0, live0, m', live', us, segs + [Loaded(h, buf)])
      ensures ChunkOk(m', chunk) && kernel.Owns(live', kernel.FramesOf(m', chunk))
    {
      hide ChunkOk, WordIn, Follows, Filled;
      LoadingFills(m0, live0, live, m, live', us, segs, t, t', h, buf, m');
    }

    // The bss branch: allocate, map the buffer to itself, copy the bytes of the image.
    method LoadBss(h: ProgramHeader, ghost m0: Memory, ghost live0: Live, ghost us: seq<Update>, ghost segs: seq<Loaded>)
      returns (mem: nat)
      requires Valid() && ChunkOk(m0, chunk) && h.HasBss() && 0 in allocations[..]
      requires Loading(m0, live0, kernel.ram[..], kernel.heap.live, us, segs)
      requires ImageOk(m0, live0, h)
      requires BlocksOf(h.memsz) >= 1 && Fits(kernel.heap.GetTable(), BlocksOf(h.memsz))
      modifies kernel.heap`live, kernel.heap.entries, kernel.ram, allocations
      ensures Valid()
      ensures mem % PAGE_SIZE == 0 && mem + h.memsz + PAGE_SIZE <= WORD_LIMIT
      ensures Loading(m0, live0, kernel.ram[..], kernel.heap.live, us + [BufferUpdate(h, mem)], segs + [Loaded(h, mem)])
      ensures NewBuffer(old(kernel.heap.GetTable()), old(kernel.heap.live), kernel.heap.GetTable(), kernel.heap.live, h.memsz, mem)
      ensures allocations[..] == FillSlot(old(allocations[..]), mem)
    {
      ghost var t, live: Live := kernel.heap.GetTable(), kernel.heap.live;
      hide Loading, ChunkOk, WordIn, NewBuffer, Fits, BlocksOf, ImageOk, FillSlot, Pending, BufferUpdate;
      hide Represents, Heap.Placed, Heap.GetTable;
      mem := AllocBss(h, m0, live0, us, segs);
      CopyBss(h, mem, m0, live0, live, us + [BufferUpdate(h, mem)], segs, t);
    }

    method AllocBss(h: ProgramHeader, ghost m0: Memory, ghost live0: Live, ghost us: seq<Update>, ghost segs: seq<Loaded>)
      returns (mem: nat)
      requires Valid() && ChunkOk(m0, chunk) && h.HasBss() && 0 in allocations[..]
      requires Loading(m0, live0, kernel.ram[..], kernel.heap.live, us, segs)
      requires ImageOk(m0, live0, h)
      requires BlocksOf(h.memsz) >= 1 && Fits(kernel.heap.GetTable(), BlocksOf(h.memsz))
      modifies kernel.heap`live, kernel.heap.entries, kernel.ram, allocations
      ensures Valid()
      ensures mem % PAGE_SIZE == 0 && mem + h.memsz + PAGE_SIZE <= WORD_LIMIT
      ensures elf + h.offset + h.filesz <= WORD_LIMIT && (mem <= elf + h.offset || elf + h.offset + h.filesz <= mem)
      ensures Pending(m0, live0, old(kernel.heap.live), kernel.ram[..], kernel.heap.live, us + [BufferUpdate(h, mem)], segs,
                      old(kernel.heap.GetTable()), kernel.heap.GetTable(), h, mem)
      ensures NewBuffer(old(kernel.heap.GetTable()), old(kernel.heap.live), kernel.heap.GetTable(), kernel.heap.live, h.memsz, mem)
      ensures allocations[..] == FillSlot(old(allocations[..]), mem)
    {
      ghost var t, live: Live, m: Memory := kernel.heap.GetTable(), kernel.heap.live, kernel.ram[..];
      kernel.heap.ValidExtents();
      hide Loading, ChunkOk, WordIn, NewBuffer, Fits, BlocksOf, ImageOk, FillSlot, MappedToItself, Pending, BufferUpdate;
      hide Represents, Extents, TableAt, Span, AlignUp, Answered, SameOutside;
      hide Kernel.Owns, Kernel.FramesOf, Heap.BlockToAddress, Heap.Placed, Heap.GetTable, Heap.BlockOf;
      mem := MallocFlags(h.memsz, h.PageFlags());
      kernel.heap.ValidExtents();
      BufferMapped(m0, live0, live, m, kernel.heap.live, us, segs, t, kernel.heap.GetTable(), h, mem, kernel.ram[..]);
    }

    method CopyBss(h: ProgramHeader, mem: nat, ghost m0: Memory, ghost live0: Live, ghost live: Live,
                   ghost us: seq<Update>, ghost segs: seq<Loaded>, ghost t: Table)
      requires Valid() && mem + h.memsz + PAGE_SIZE <= WORD_LIMIT && h.HasBss()
      requires elf + h.offset + h.filesz <= WORD_LIMIT && (mem <= elf + h.offset || elf + h.offset + h.filesz <= mem)
      requires Pending(m0, live0, live, kernel.ram[..], kernel.heap.live, us, segs, t, kernel.heap.GetTable(), h, mem)
      modifies kernel.ram
      ensures Valid()
      ensures Loading(m0, live0, kernel.ram[..], kernel.heap.live, us, segs + [Loaded(h, mem)])
    {
      ghost var m: Memory := kernel.ram[..];
      hide Loading, ChunkOk, WordIn, Pending, Represents, CopiedTo, Kernel.Owns, Kernel.FramesOf, Heap.GetTable;
      MemCpy(kernel.ram, mem, elf + h.offset, h.filesz);
      BufferFilled(m0, live0, live, m, kernel.heap.live, us, segs, t, kernel.heap.GetTable(), h, mem, kernel.ram[..]);
    }

    // The header loop's body for a bss segment without a free slot or without memory, which
    // are the cases in which the buffer is null: the bytes of the image are copied to address 0,
    // the pages of the segment show the memory from address 0 on, and the result is 0 all the
    // same. The copy is taken to end below the heap.
    method LoadWithoutBuffer(h: ProgramHeader) returns (res: int)
      requires Valid() && h.HasBss() && Answered(kernel.heap.GetTable(), BlocksOf(h.memsz))
      requires 0 !in allocations[..] || !Fits(kernel.heap.GetTable(), BlocksOf(h.memsz))
      requires ImageOk(kernel.ram[..], kernel.heap.live, h) && h.filesz <= kernel.heap.startAddress
      modifies kernel.heap`live, kernel.heap.entries, kernel.ram, allocations
      ensures Valid() && res == 0
      ensures allocations[..] == old(allocations[..])
      ensures kernel.heap.live == old(kernel.heap.live) && kernel.heap.GetTable() == old(kernel.heap.GetTable())
      ensures elf + h.offset + h.filesz <= WORD_LIMIT
      ensures kernel.ram[..h.filesz] == old(kernel.ram[elf + h.offset..elf + h.offset + h.filesz])
      ensures ShowsLow(kernel.ram[..], h)
    {
      kernel.heap.ValidExtents();
      hide ChunkOk, WordIn, Fits, BlocksOf, Represents, TableAt, Mapped, OnlyTables, ImageOk, Kernel.Owns;
      hide Kernel.FramesOf, Heap.GetTable, ShowsLow, AlignUp, AlignDown, Span;
      var mem := CopyToNull(h);
      ghost var m: Memory, live: Live := kernel.ram[..], kernel.heap.live;
      kernel.heap.ValidExtents();
      LowAligned(h);
      res := kernel.MapTo(chunk, AlignDown(h.vaddr), AlignDown(mem), AlignUp(mem + h.memsz), h.PageFlags());
      LowMapped(m, kernel.ram[..], live, h);
    }

    method CopyToNull(h: ProgramHeader) returns (mem: nat)
      requires Valid() && h.HasBss() && Answered(kernel.heap.GetTable(), BlocksOf(h.memsz))
      requires 0 !in allocations[..] || !Fits(kernel.heap.GetTable(), BlocksOf(h.memsz))
      requires ImageOk(kernel.ram[..], kernel.heap.live, h) && h.filesz <= kernel.heap.startAddress
      modifies kernel.heap`live, kernel.heap.entries, kernel.ram, allocations
      ensures Valid() && mem == 0 && h.memsz + PAGE_SIZE <= WORD_LIMIT
      ensures allocations[..] == old(allocations[..])
      ensures kernel.heap.live == old(kernel.heap.live) && kernel.heap.GetTable() == old(kernel.heap.GetTable())
      ensures elf + h.offset + h.filesz <= WORD_LIMIT
      ensures kernel.ram[..h.filesz] == old(kernel.ram[elf + h.offset..elf + h.offset + h.filesz])
    {
      kernel.heap.ValidExtents();
      BlocksAreCeiling(h.memsz);
      hide ChunkOk, WordIn, Fits, BlocksOf, MappedToItself, Represents, ImageOk, Kernel.Owns;
      hide Kernel.FramesOf, Heap.GetTable, CopiedTo;
      ghost var live: Live, m: Memory := kernel.heap.live, kernel.ram[..];
      ImageInside(m, live, h);
      mem := MallocFlags(h.memsz, h.PageFlags());
      ghost var m1: Memory := kernel.ram[..];
      NullMapped(m, m1, live, h);
      MemCpy(kernel.ram, mem, elf + h.offset, h.filesz);
      LowCopyKept(m1, kernel.ram[..], live, h.filesz, elf + h.offset);
    }

    // The pages of a segment show the frames from address 0 on.
    ghost predicate ShowsLow(m: Memory, h: ProgramHeader) {
      && IsFrame(chunk) && WordIn(m, chunk) + PAGE_SIZE <= WORD_LIMIT && h.memsz + PAGE_SIZE <= WORD_LIMIT
      && forall page: nat :: page < PAGES && Behind(page, AlignDown(h.vaddr) / PAGE_SIZE) < Span(0, h.memsz) ==>
           Entry(m, WordIn(m, chunk), page)
           == Behind(page, AlignDown(h.vaddr) / PAGE_SIZE) * PAGE_SIZE + if h.writable then 1 + 2 + 4 else 1 + 4
    }

    lemma ImageInside(m: Memory, live: Live, h: ProgramHeader)
      requires ImageOk(m, live, h)
      ensures elf + h.offset + h.filesz + PAGE_SIZE <= WORD_LIMIT && ChunkOk(m, chunk)
    {
    }

    // Mapping pages changes nothing below the heap and nothing of the image.
    lemma MappingKeepsLow(m: Memory, m': Memory, live: Live)
      requires kernel.heap.Placed() && ChunkOk(m, chunk) && kernel.Owns(live, kernel.FramesOf(m, chunk))
      requires Extents(live, kernel.heap.total) && OnlyTables(m, m', WordIn(m, chunk))
      ensures forall a: nat :: a < WORD_LIMIT && m'[a] != m[a] ==>
        a >= kernel.heap.startAddress && InFramesOf(kernel.FramesOf(m, chunk), a)
    {
      var frames := kernel.FramesOf(m, chunk);
      TablesAreFrames(m, m', live, frames);
      hide ChunkOk, WordIn, Kernel.FramesOf, OnlyTables;
      forall a: nat | a < WORD_LIMIT && m'[a] != m[a]
        ensures a >= kernel.heap.startAddress
      {
        var k :| 0 <= k < |frames| && frames[k] == FrameOf(a);
        assert kernel.IsOwned(live, frames[k]);
      }
    }

    lemma NullMapped(m: Memory, m': Memory, live: Live, h: ProgramHeader)
      requires kernel.heap.Placed() && ImageOk(m, live, h)
      requires kernel.Owns(live, kernel.FramesOf(m, chunk)) && Extents(live, kernel.heap.total)
      requires m' == m || MappedToItself(m, m', 0, h.memsz, h.PageFlags())
      ensures elf + h.offset + h.filesz <= WORD_LIMIT
      ensures m'[elf + h.offset..elf + h.offset + h.filesz] == m[elf + h.offset..elf + h.offset + h.filesz]
    {
      hide WordIn, Mapped, OnlyTables, Span, ChunkOk, Kernel.Owns, Kernel.FramesOf, Kernel.InUse, Extents;
      if m' != m {
        MappingKeepsLow(m, m', live);
        hide InFramesOf;
        forall a: nat | elf + h.offset <= a < elf + h.offset + h.filesz
          ensures m'[a] == m[a]
        {
        }
        SameSlice(m, m', elf + h.offset, h.filesz);
      }
    }

    lemma SameSlice(m: Memory, m': Memory, a: nat, n: nat)
      requires a + n <= WORD_LIMIT && forall i: nat :: a <= i < a + n ==> m'[i] == m[i]
      ensures m'[a..a + n] == m[a..a + n]
    {
    }

    // A copy that ends below the heap leaves the directory alone.
    lemma LowCopyKept(m: Memory, m': Memory, live: Live, n: nat, source: nat)
      requires kernel.heap.Placed() && ChunkOk(m, chunk) && kernel.Owns(live, kernel.FramesOf(m, chunk))
      requires n <= kernel.heap.startAddress && source + n <= WORD_LIMIT && CopiedTo(m, m', 0, source, n)
      ensures ChunkOk(m', chunk) && kernel.FramesOf(m', chunk) == kernel.FramesOf(m, chunk)
      ensures m'[..n] == m[source..source + n]
    {
      var dir, frames := WordIn(m, chunk), kernel.FramesOf(m, chunk);
      forall a: nat | a < WORD_LIMIT && InFramesOf(frames, a)
        ensures m'[a] == m[a]
      {
        var k :| 0 <= k < |frames| && frames[k] == FrameOf(a);
        assert kernel.IsOwned(live, frames[k]);
      }
      hide WordIn, Kernel.Owns, CopiedTo;
      assert frames[ENTRIES] == dir && frames[ENTRIES + 1] == chunk;
      assert forall i: nat :: i < ENTRIES ==> frames[i] == TableAt(m, dir, i);
      FramesKept(m, m', dir);
      ChunkWordKept(m, m');
      assert kernel.Tables(m', dir) == kernel.Tables(m, dir);
      LowBytes(m, m', n, source);
    }

    lemma LowBytes(m: Memory, m': Memory, n: nat, source: nat)
      requires n <= WORD_LIMIT && source + n <= WORD_LIMIT && CopiedTo(m, m', 0, source, n)
      ensures m'[..n] == m[source..source + n]
    {
    }

    lemma LowAligned(h: ProgramHeader)
      requires h.memsz + PAGE_SIZE <= WORD_LIMIT
      ensures AlignDown(h.vaddr) % PAGE_SIZE == 0 && AlignDown(0) == 0
      ensures AlignUp(h.memsz) % PAGE_SIZE == 0 && Span(0, h.memsz) == AlignUp(h.memsz) / PAGE_SIZE
    {
      AlignUpIsCeiling(h.memsz);
    }

    lemma LowMapped(m: Memory, m': Memory, live: Live, h: ProgramHeader)
      requires kernel.heap.Placed() && Extents(live, kernel.heap.total) && h.memsz + PAGE_SIZE <= WORD_LIMIT
      requires ChunkOk(m, chunk) && kernel.Owns(live, kernel.FramesOf(m, chunk))
      requires ChunkOk(m', chunk) && WordIn(m', chunk) == WordIn(m, chunk)
      requires Mapped(m, m', WordIn(m, chunk), AlignDown(h.vaddr) / PAGE_SIZE, 0, Span(0, h.memsz), h.PageFlags())
      requires OnlyTables(m, m', WordIn(m, chunk)) && h.filesz <= kernel.heap.startAddress
      ensures ShowsLow(m', h) && m'[..h.filesz] == m[..h.filesz]
      ensures kernel.Owns(live, kernel.FramesOf(m', chunk))
    {
      MappingKeepsLow(m, m', live);
      SameBytes(m, m', h.filesz);
      kernel.MappingKeepsFrames(m, m', chunk);
      hide OnlyTables, Entry, WordIn, Kernel.Owns, Kernel.FramesOf, TableAt, BitOr, Span, AlignDown, Behind, ProgramHeader.PageFlags;
      forall page: nat | page < PAGES && Behind(page, AlignDown(h.vaddr) / PAGE_SIZE) < Span(0, h.memsz)
        ensures Entry(m', WordIn(m', chunk), page)
                == Behind(page, AlignDown(h.vaddr) / PAGE_SIZE) * PAGE_SIZE + if h.writable then 1 + 2 + 4 else 1 + 4
      {
        FrameWithFlags(Behind(page, AlignDown(h.vaddr) / PAGE_SIZE), h);
      }
    }

    lemma FrameWithFlags(frame: nat, h: ProgramHeader)
      requires frame < PAGES
      ensures BitOr((0 + frame) % PAGES * PAGE_SIZE, h.PageFlags()) == frame * PAGE_SIZE + if h.writable then 1 + 2 + 4 else 1 + 4
    {
      SmallMod(frame, PAGES);
      hide BitOr;
      PageOr(frame * PAGE_SIZE, h.PageFlags());
    }

    lemma SameBytes(m: Memory, m': Memory, n: nat)
      requires n <= kernel.heap.startAddress && n <= WORD_LIMIT
      requires forall a: nat :: a < WORD_LIMIT && m'[a] != m[a] ==> a >= kernel.heap.startAddress
      ensures m'[..n] == m[..n]
    {
    }

    function SegmentsAfter(segs: seq<Loaded>, h: ProgramHeader, buf: nat): seq<Loaded> {
      if h.HasBss() then segs + [Loaded(h, buf)] else segs
    }

    // The body of the header loop.
    method LoadSegment(h: ProgramHeader, ghost m0: Memory, ghost live0: Live, ghost us: seq<Update>, ghost segs: seq<Loaded>)
      returns (res: int, ghost buf: nat)
      requires Valid() && ChunkOk(m0, chunk)
      requires Loading(m0, live0, kernel.ram[..], kernel.heap.live, us, segs)
      requires ImageOk(m0, live0, h)
      requires h.HasBss() ==>
        0 in allocations[..] && BlocksOf(h.memsz) >= 1 && Fits(kernel.heap.GetTable(), BlocksOf(h.memsz))
      modifies kernel.heap`live, kernel.heap.entries, kernel.ram, allocations
      ensures Valid() && res == 0
      ensures PlaceFits(h, elf, buf) && (h.HasBss() ==> buf % PAGE_SIZE == 0)
      ensures Loading(m0, live0, kernel.ram[..], kernel.heap.live, us + HeaderUpdates(h, elf, buf), SegmentsAfter(segs, h, buf))
      ensures h.HasBss() ==>
        && NewBuffer(old(kernel.heap.GetTable()), old(kernel.heap.live), kernel.heap.GetTable(), kernel.heap.live, h.memsz, buf)
        && allocations[..] == FillSlot(old(allocations[..]), buf)
      ensures !h.HasBss() ==>
        && kernel.heap.GetTable() == old(kernel.heap.GetTable()) && allocations[..] == old(allocations[..])
    {
      hide Loading, ChunkOk, WordIn, NewBuffer, Fits, BlocksOf, FillSlot, Represents, Extents, TableAt;
      hide Mapped, OnlyTables, AlignUp, AlignDown, Span, Heap.GetTable;
      var physical: nat;
      buf := 0;
      ghost var before := us;
      if h.memsz > h.filesz {
        physical := LoadBss(h, m0, live0, us, segs);
        buf := physical;
        before := us + [BufferUpdate(h, buf)];
      } else {
        physical := elf + h.offset;
      }
      var physicalEnd := physical + h.memsz;
      SegmentAligned(h, elf, buf);
      ghost var m: Memory := kernel.ram[..];
      res := kernel.MapTo(chunk, AlignDown(h.vaddr), AlignDown(physical), AlignUp(physicalEnd), h.PageFlags());
      SegmentMapped(m0, live0, m, kernel.heap.live, before, SegmentsAfter(segs, h, buf), h, buf, kernel.ram[..]);
      assert us + HeaderUpdates(h, elf, buf) == before + [SegmentUpdate(h, elf, buf)];
    }

    lemma SegmentAligned(h: ProgramHeader, elf: nat, buf: nat)
      requires PlaceFits(h, elf, buf)
      ensures var pa := Place(h, elf, buf);
              && AlignDown(h.vaddr) % PAGE_SIZE == 0 && AlignDown(pa) % PAGE_SIZE == 0
              && AlignUp(pa + h.memsz) % PAGE_SIZE == 0 && AlignDown(pa) <= AlignUp(pa + h.memsz)
              && Span(pa, h.memsz) == (AlignUp(pa + h.memsz) - AlignDown(pa)) / PAGE_SIZE
    {
      AlignUpIsCeiling(Place(h, elf, buf) + h.memsz);
      hide AlignUp;
    }

    lemma SegmentMapped(m0: Memory, live0: Live, m: Memory, live: Live, us: seq<Update>, segs: seq<Loaded>,
                        h: ProgramHeader, buf: nat, m': Memory)
      requires kernel.heap.Placed() && ChunkOk(m0, chunk) && ChunkOk(m, chunk) && PlaceFits(h, elf, buf)
      requires Loading(m0, live0, m, live, us, segs)
      requires ChunkOk(m', chunk) && WordIn(m', chunk) == WordIn(m, chunk)
      requires var pa := Place(h, elf, buf);
               && Mapped(m, m', WordIn(m, chunk), AlignDown(h.vaddr) / PAGE_SIZE, AlignDown(pa) / PAGE_SIZE,
                         Span(pa, h.memsz), h.PageFlags())
               && OnlyTables(m, m', WordIn(m, chunk))
      ensures Loading(m0, live0, m', live, us + [SegmentUpdate(h, elf, buf)], segs)
      ensures kernel.Owns(live, kernel.FramesOf(m', chunk))
    {
      LoadingMaps(m0, live0, m, live, us, segs, m', SegmentUpdate(h, elf, buf));
    }

    // ----- The whole image -----

    // Enough contiguous blocks for every bss segment, one after the other.
    ghost predicate FitsAll(t: Table, headers: seq<ProgramHeader>)
      decreases headers
    {
      headers == [] ||
      if headers[0].HasBss() then
        var n := BlocksOf(headers[0].memsz);
        n >= 1 && Fits(t, n) && forall s: nat :: IsFirstFit(t, n, s) ==> FitsAll(Taken(t, s, n), headers[1..])
      else FitsAll(t, headers[1..])
    }

    function BssCount(headers: seq<ProgramHeader>): nat {
      if headers == [] then 0 else (if headers[0].HasBss() then 1 else 0) + BssCount(headers[1..])
    }

    // Every bss segment loaded so far has its buffer.
    ghost predicate AllIn(headers: seq<ProgramHeader>, bufs: seq<nat>, segs: seq<Loaded>) {
      && |bufs| <= |headers|
      && forall i :: 0 <= i < |bufs| && headers[i].HasBss() ==> Loaded(headers[i], bufs[i]) in segs
    }

    // What a load leaves: the flat map after all updates, the filled buffers, and the rest as before.
    ghost predicate LoadedAs(m0: Memory, live0: Live, m: Memory, live: Live, headers: seq<ProgramHeader>, bufs: seq<nat>)
    {
      && ChunkOk(m0, chunk) && PlanOk(headers, elf, bufs)
      && WordIn(m, chunk) == WordIn(m0, chunk)
      && SameFlags(m0, m, WordIn(m0, chunk))
      && Follows(m0, m, WordIn(m0, chunk), LoadUpdates(headers, elf, bufs, stack))
      && (forall i :: 0 <= i < |headers| && headers[i].HasBss() ==>
            && BufferOk(live0, live, kernel.FramesOf(m0, chunk), Loaded(headers[i], bufs[i]))
            && Filled(m0, m, Loaded(headers[i], bufs[i])))
      && Undisturbed(m0, live0, m, live, kernel.FramesOf(m0, chunk))
    }

    lemma AllStart(headers: seq<ProgramHeader>)
      ensures PlanOk(headers[..0], elf, []) && Plan(headers[..0], elf, []) == []
      ensures AllIn(headers, [], []) && headers[0..] == headers
    {
    }

    lemma AllInGrows(headers: seq<ProgramHeader>, bufs: seq<nat>, segs: seq<Loaded>, buf: nat, i: nat)
      requires i == |bufs| < |headers| && AllIn(headers, bufs, segs)
      ensures AllIn(headers, bufs + [buf], SegmentsAfter(segs, headers[i], buf))
    {
    }

    lemma PlanGrows(headers: seq<ProgramHeader>, bufs: seq<nat>, buf: nat, i: nat)
      requires i == |bufs| < |headers| && PlanOk(headers[..i], elf, bufs)
      requires PlaceFits(headers[i], elf, buf) && (headers[i].HasBss() ==> buf % PAGE_SIZE == 0)
      ensures PlanOk(headers[..i + 1], elf, bufs + [buf])
      ensures Plan(headers[..i + 1], elf, bufs + [buf]) == Plan(headers[..i], elf, bufs) + HeaderUpdates(headers[i], elf, buf)
    {
      hide HeaderUpdates, PlaceFits;
      assert headers[..i + 1][..i] == headers[..i] && (bufs + [buf])[..i] == bufs;
    }

    lemma FitsNow(t: Table, slots: seq<nat>, headers: seq<ProgramHeader>)
      requires headers != [] && FitsAll(t, headers) && FreeSlots(slots) >= BssCount(headers)
      ensures headers[0].HasBss() ==>
        0 in slots && BlocksOf(headers[0].memsz) >= 1 && Fits(t, BlocksOf(headers[0].memsz))
    {
      HasFreeSlot(slots);
    }

    lemma FitsStill(t: Table, t': Table, slots: seq<nat>, slots': seq<nat>, headers: seq<ProgramHeader>, buf: nat)
      requires headers != [] && FitsAll(t, headers) && FreeSlots(slots) >= BssCount(headers)
      requires headers[0].HasBss() ==>
        && (exists live: Live, live': Live :: NewBuffer(t, live, t', live', headers[0].memsz, buf))
        && slots' == FillSlot(slots, buf)
      requires !headers[0].HasBss() ==> t' == t && slots' == slots
      ensures FitsAll(t', headers[1..]) && FreeSlots(slots') >= BssCount(headers[1..])
    {
      if headers[0].HasBss() {
        HasFreeSlot(slots);
        FillSlotCount(slots, buf);
      }
    }

    lemma StackAligned(stack: nat)
      requires stack % PAGE_SIZE == 0 && stack + STACK_SIZE + PAGE_SIZE <= WORD_LIMIT
      ensures AlignUp(stack + STACK_SIZE) == stack + STACK_SIZE && (stack + STACK_SIZE) % PAGE_SIZE == 0
      ensures STACK_END % PAGE_SIZE == 0 && STACK_SIZE / PAGE_SIZE == 4
    {
    }

    lemma StackMapped(m0: Memory, live0: Live, m: Memory, live: Live, headers: seq<ProgramHeader>, bufs: seq<nat>,
                      segs: seq<Loaded>, m': Memory)
      requires kernel.heap.Placed() && ChunkOk(m0, chunk) && ChunkOk(m, chunk) && PlanOk(headers, elf, bufs)
      requires stack % PAGE_SIZE == 0 && stack + STACK_SIZE + PAGE_SIZE <= WORD_LIMIT
      requires Loading(m0, live0, m, live, Plan(headers, elf, bufs), segs) && AllIn(headers, bufs, segs)
      requires ChunkOk(m', chunk) && WordIn(m', chunk) == WordIn(m, chunk)
      requires Mapped(m, m', WordIn(m, chunk), STACK_END / PAGE_SIZE, stack / PAGE_SIZE, STACK_SIZE / PAGE_SIZE, USER_WRITE)
      requires OnlyTables(m, m', WordIn(m, chunk))
      ensures LoadedAs(m0, live0, m', live, headers, bufs)
      ensures kernel.Owns(live, kernel.FramesOf(m', chunk))
    {
      LoadingMaps(m0, live0, m, live, Plan(headers, elf, bufs), segs, m', StackUpdate(stack));
    }

    // Loads the headers in order, then maps the stack. bufs are the buffers of the bss segments.
    method MapMemory(headers: seq<ProgramHeader>) returns (res: int, ghost bufs: seq<nat>)
      requires Valid() && stack % PAGE_SIZE == 0 && stack + STACK_SIZE + PAGE_SIZE <= WORD_LIMIT
      requires forall h :: h in headers ==> ImageOk(kernel.ram[..], kernel.heap.live, h)
      requires FitsAll(kernel.heap.GetTable(), headers) && FreeSlots(allocations[..]) >= BssCount(headers)
      modifies kernel.heap`live, kernel.heap.entries, kernel.ram, allocations
      ensures Valid() && res == 0
      ensures PlanOk(headers, elf, bufs)
      ensures LoadedAs(old(kernel.ram[..]), old(kernel.heap.live), kernel.ram[..], kernel.heap.live, headers, bufs)
    {
      hide Loading, ChunkOk, WordIn, NewBuffer, Fits, BlocksOf, FillSlot, FreeSlots, BssCount, FitsAll, Represents, Extents, TableAt;
      hide PlanOk, HeaderUpdates, Plan, ImageOk, PlaceFits, SegmentsAfter;
      ghost var m0: Memory, live0: Live := kernel.ram[..], kernel.heap.live;
      ghost var segs: seq<Loaded> := [];
      bufs := [];
      kernel.heap.ValidExtents();
      LoadingStart(m0, live0);
      AllStart(headers);
      for i := 0 to |headers|
        invariant Valid() && ChunkOk(m0, chunk)
        invariant |bufs| == i && PlanOk(headers[..i], elf, bufs)
        invariant Loading(m0, live0, kernel.ram[..], kernel.heap.live, Plan(headers[..i], elf, bufs), segs)
        invariant AllIn(headers, bufs, segs)
        invariant FitsAll(kernel.heap.GetTable(), headers[i..]) && FreeSlots(allocations[..]) >= BssCount(headers[i..])
      {
        ghost var t, slots := kernel.heap.GetTable(), allocations[..];
        ghost var us := Plan(headers[..i], elf, bufs);
        FitsNow(t, slots, headers[i..]);
        ghost var buf;
        res, buf := LoadSegment(headers[i], m0, live0, us, segs);
        if res < 0 {
          return;
        }
        FitsStill(t, kernel.heap.GetTable(), slots, allocations[..], headers[i..], buf);
        PlanGrows(headers, bufs, buf, i);
        AllInGrows(headers, bufs, segs, buf, i);
        bufs := bufs + [buf];
        segs := SegmentsAfter(segs, headers[i], buf);
        assert headers[i..][1..] == headers[i + 1..];
      }
      assert headers[..|headers|] == headers;
      ghost var m: Memory := kernel.ram[..];
      StackAligned(stack);
      res := kernel.MapTo(chunk, STACK_END, stack, AlignUp(stack + STACK_SIZE), USER_WRITE);
      StackMapped(m0, live0, m, kernel.heap.live, headers, bufs, segs, kernel.ram[..]);
    }

    // ----- What the process sees -----

    // At place lie n bytes that were at source, and behind them what was there before.
    ghost predicate HoldsBytes(m0: Memory, m: Memory, place: nat, source: nat, n: nat, size: nat)
      requires n <= size && place + size <= WORD_LIMIT && source + n <= WORD_LIMIT
    {
      && m[place..place + n] == m0[source..source + n]
      && forall a: nat :: place + n <= a < place + size ==> m[a] == m0[a]
    }

    // After the load the place of a segment holds its bytes of the file; what lies behind them
    // in a bss segment is as before.
    lemma PlaceHolds(m0: Memory, live0: Live, m: Memory, live: Live, headers: seq<ProgramHeader>, bufs: seq<nat>, i: nat)
      requires LoadedAs(m0, live0, m, live, headers, bufs) && i < |headers|
      requires ImageOk(m0, live0, headers[i])
      ensures PlaceFits(headers[i], elf, bufs[i]) && elf + headers[i].offset + headers[i].filesz <= WORD_LIMIT
      ensures Place(headers[i], elf, bufs[i]) + headers[i].memsz <= WORD_LIMIT
      ensures var h, place := headers[i], Place(headers[i], elf, bufs[i]);
              HoldsBytes(m0, m, place, elf + h.offset, h.FilePart(), h.memsz)
    {
      hide Follows, InFramesOf, Kernel.InUse, Kernel.FramesOf, WordIn, LoadUpdates;
      var h, place := headers[i], Place(headers[i], elf, bufs[i]);
      assert PlaceFits(h, elf, bufs[i]);
      if h.HasBss() {
        assert Filled(m0, m, Loaded(h, bufs[i]));
      } else {
        forall a: nat | place <= a < place + h.memsz
          ensures m[a] == m0[a]
        {
          assert kernel.InUse(live0, a) && !InFramesOf(kernel.FramesOf(m0, chunk), a);
        }
        assert m[place..place + h.memsz] == m0[place..place + h.memsz];
      }
    }

    lemma SegmentPlaced(m0: Memory, live0: Live, m: Memory, live: Live, headers: seq<ProgramHeader>, bufs: seq<nat>, i: nat)
      requires stack % PAGE_SIZE == 0 && stack + STACK_SIZE + PAGE_SIZE <= WORD_LIMIT
      requires LoadedAs(m0, live0, m, live, headers, bufs) && i < |headers| && headers[i].memsz > 0
      requires PlanOk(headers[i + 1..], elf, bufs[i + 1..])
      requires Untouched(headers[i], LoadUpdates(headers[i + 1..], elf, bufs[i + 1..], stack))
      ensures IsFrame(chunk) && WordIn(m0, chunk) + PAGE_SIZE <= WORD_LIMIT
      ensures var h, place := headers[i], Place(headers[i], elf, bufs[i]);
              Translated(m, WordIn(m0, chunk), h, place) <==> h.vaddr % PAGE_SIZE == place % PAGE_SIZE
    {
      LoadedSegmentRight(m0, m, WordIn(m0, chunk), headers, elf, bufs, stack, i);
    }

    // A segment whose address and place agree modulo the page size, and on whose pages nothing
    // that is mapped later lands: at its virtual address k the process sees byte k of the
    // file's part, and behind that, in a bss segment, whatever the heap blocks held before.
    lemma SegmentSeen(m0: Memory, live0: Live, m: Memory, live: Live, headers: seq<ProgramHeader>, bufs: seq<nat>, i: nat, k: nat)
      requires stack % PAGE_SIZE == 0 && stack + STACK_SIZE + PAGE_SIZE <= WORD_LIMIT
      requires LoadedAs(m0, live0, m, live, headers, bufs) && i < |headers| && k < headers[i].memsz
      requires ImageOk(m0, live0, headers[i])
      requires PlanOk(headers[i + 1..], elf, bufs[i + 1..])
      requires Untouched(headers[i], LoadUpdates(headers[i + 1..], elf, bufs[i + 1..], stack))
      requires headers[i].vaddr % PAGE_SIZE == Place(headers[i], elf, bufs[i]) % PAGE_SIZE
      ensures Shows(m0, m, WordIn(m0, chunk), headers[i], Place(headers[i], elf, bufs[i]), elf + headers[i].offset, k)
    {
      var h, place := headers[i], Place(headers[i], elf, bufs[i]);
      hide LoadedAs, ImageOk, Untouched, PlanOk, Translate, Address, WordIn, Place, ChunkOk, LoadUpdates, PlaceFits, HoldsBytes;
      hide Translated, Shows, ProgramHeader.FilePart, ProgramHeader.HasBss;
      SegmentPlaced(m0, live0, m, live, headers, bufs, i);
      PlaceHolds(m0, live0, m, live, headers, bufs, i);
      SeenByte(m0, m, WordIn(m0, chunk), h, place, elf + h.offset, k);
    }

    // What the program may do with it, in a directory that keeps no user program out, as a new
    // one does with flags 5: read it, and write it exactly if the segment is writable.
    lemma SegmentAccess(m0: Memory, live0: Live, m: Memory, live: Live, headers: seq<ProgramHeader>, bufs: seq<nat>,
                        i: nat, k: nat, write: bool)
      requires stack % PAGE_SIZE == 0 && stack + STACK_SIZE + PAGE_SIZE <= WORD_LIMIT
      requires LoadedAs(m0, live0, m, live, headers, bufs) && i < |headers| && k < headers[i].memsz
      requires PlanOk(headers[i + 1..], elf, bufs[i + 1..])
      requires Untouched(headers[i], LoadUpdates(headers[i + 1..], elf, bufs[i + 1..], stack))
      requires headers[i].vaddr % PAGE_SIZE == Place(headers[i], elf, bufs[i]) % PAGE_SIZE
      requires AllOpen(m0, WordIn(m0, chunk))
      ensures IsFrame(chunk) && WordIn(m, chunk) + PAGE_SIZE <= WORD_LIMIT
      ensures UserAccess(m, WordIn(m, chunk), Address(headers[i], k), write)
              == if write && !headers[i].writable then None else Some(Place(headers[i], elf, bufs[i]) + k)
    {
      hide UserAccess, Address, WordIn, Place, FlagsAt, Permits, Untouched;
      LoadedSegmentAccess(m0, m, WordIn(m0, chunk), headers, elf, bufs, stack, i, k, write);
    }

    // The same for the stack.
    lemma StackAccess(m0: Memory, live0: Live, m: Memory, live: Live, headers: seq<ProgramHeader>, bufs: seq<nat>,
                      va: Word, write: bool)
      requires stack % PAGE_SIZE == 0 && stack + STACK_SIZE + PAGE_SIZE <= WORD_LIMIT
      requires LoadedAs(m0, live0, m, live, headers, bufs) && 0x3F_B000 <= va < 0x3F_F000
      requires AllOpen(m0, WordIn(m0, chunk))
      ensures IsFrame(chunk) && WordIn(m, chunk) + PAGE_SIZE <= WORD_LIMIT
      ensures UserAccess(m, WordIn(m, chunk), va, write) == Some(stack + (va - 0x3F_B000))
    {
      hide UserAccess, WordIn, FlagsAt, Permits;
      LoadedStackRight(m0, m, WordIn(m0, chunk), headers, elf, bufs, stack, va);
    }

    // Virtual address k of a segment leads to its place and to its byte.
    ghost predicate Shows(m0: Memory, m: Memory, dir: nat, h: ProgramHeader, place: nat, source: nat, k: nat) {
      && dir + PAGE_SIZE <= WORD_LIMIT && place + k < WORD_LIMIT && source + h.filesz <= WORD_LIMIT
      && Translate(m, dir, Address(h, k)) == place + k
      && m[place + k] == if k < h.filesz then m0[source + k] else m0[place + k]
    }

    lemma SeenByte(m0: Memory, m: Memory, dir: nat, h: ProgramHeader, place: nat, source: nat, k: nat)
      requires dir + PAGE_SIZE <= WORD_LIMIT && Translated(m, dir, h, place) && k < h.memsz
      requires place + h.memsz <= WORD_LIMIT && source + h.filesz <= WORD_LIMIT
      requires source + h.FilePart() <= WORD_LIMIT
      requires HoldsBytes(m0, m, place, source, h.FilePart(), h.memsz)
      ensures Shows(m0, m, dir, h, place, source, k)
    {
      hide Translate, Address;
      ByteOf(m0, m, place, source, h.FilePart(), h.memsz, k);
    }

    lemma ByteOf(m0: Memory, m: Memory, place: nat, source: nat, n: nat, size: nat, k: nat)
      requires n <= size && k < size && place + size <= WORD_LIMIT && source + n <= WORD_LIMIT
      requires HoldsBytes(m0, m, place, source, n, size)
      ensures m[place + k] == if k < n then m0[source + k] else m0[place + k]
    {
      if k < n {
        assert m[place..place + n][k] == m0[source..source + n][k];
      }
    }

    // So a bss segment starts out zero exactly when its heap blocks were.
    lemma BssIsWhatTheHeapHeld(m0: Memory, live0: Live, m: Memory, live: Live, headers: seq<ProgramHeader>, bufs: seq<nat>, i: nat)
      requires LoadedAs(m0, live0, m, live, headers, bufs) && i < |headers| && headers[i].HasBss()
      requires bufs[i] + headers[i].memsz <= WORD_LIMIT
      ensures var h, buf := headers[i], bufs[i];
              (forall a: nat :: buf + h.filesz <= a < buf + h.memsz ==> m[a] == 0)
              <==> (forall a: nat :: buf + h.filesz <= a < buf + h.memsz ==> m0[a] == 0)
    {
      hide Follows, ChunkOk, Kernel.FramesOf, WordIn, LoadUpdates, Undisturbed;
      var h, buf := headers[i], bufs[i];
      assert Filled(m0, m, Loaded(h, buf));
      assert forall a: nat :: buf + h.filesz <= a < buf + h.memsz ==> m[a] == m0[a];
    }
  }
}
