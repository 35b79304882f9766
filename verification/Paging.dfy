// Page directories: building one on the heap, mapping ranges into it, giving it back.
module Paging {
  import opened Words
  import opened Wrappers
  import opened Ram
  import opened PageTables

  // ----- Mapping a range, on the flat map -----

  // How far a page lies behind page v, counting on through the end of the address space.
  function Behind(page: nat, v: nat): nat
    requires page < PAGES && v < PAGES
  {
    if page >= v then page - v else page + PAGES - v
  }

  // n pages from v on show n page frames from p on; every other page is as before.
  ghost predicate Mapped(m: Memory, m': Memory, dir: nat, v: nat, p: nat, n: nat, flags: Word)
    requires dir + PAGE_SIZE <= WORD_LIMIT && v < PAGES && p < PAGES
  {
    forall page: nat :: page < PAGES ==>
      Entry(m', dir, page) == if Behind(page, v) < n then BitOr((p + Behind(page, v)) % PAGES * PAGE_SIZE, flags)
                              else Entry(m, dir, page)
  }

  // Only the tables of the directory have changed, not the directory and nothing else.
  ghost predicate OnlyTables(m: Memory, m': Memory, dir: nat)
    requires dir + PAGE_SIZE <= WORD_LIMIT
  {
    && (forall i: nat :: i < ENTRIES ==> TableAt(m', dir, i) == TableAt(m, dir, i))
    && (forall a: nat :: a < WORD_LIMIT && m'[a] != m[a] ==>
          exists i: nat :: i < ENTRIES && TableAt(m, dir, i) == FrameOf(a))
  }

  lemma MapOneMore(m0: Memory, m: Memory, m': Memory, dir: nat, v: nat, p: nat, i: nat, flags: Word)
    requires WellFormed(m, dir) && v < PAGES && p < PAGES && i < PAGES
    requires Mapped(m0, m, dir, v, p, i, flags) && OnlyTables(m0, m, dir)
    requires var a := EntryAddress(m, dir, (v + i) % PAGES);
             && SameOutside(m, m', a, a + 4)
             && WordIn(m', a) == BitOr((p + i) % PAGES * PAGE_SIZE, flags)
    ensures WellFormed(m', dir)
    ensures Mapped(m0, m', dir, v, p, i + 1, flags) && OnlyTables(m0, m', dir)
  {
    EntryWritten(m, m', dir, (v + i) % PAGES);
    OnlyOneTable(m, m', dir, (v + i) % PAGES);
    hide EntryAddress, BitOr, WordIn, TableAt, OnlyTables, Mapped, Entry;
    OnlyTablesTwice(m0, m, m', dir);
    MappedOneMore(m0, m, m', dir, v, p, i, flags);
  }

  lemma MappedOneMore(m0: Memory, m: Memory, m': Memory, dir: nat, v: nat, p: nat, i: nat, flags: Word)
    requires dir + PAGE_SIZE <= WORD_LIMIT && v < PAGES && p < PAGES && i < PAGES
    requires Mapped(m0, m, dir, v, p, i, flags)
    requires Entry(m', dir, (v + i) % PAGES) == BitOr((p + i) % PAGES * PAGE_SIZE, flags)
    requires forall q: nat :: q < PAGES && q != (v + i) % PAGES ==> Entry(m', dir, q) == Entry(m, dir, q)
    ensures Mapped(m0, m', dir, v, p, i + 1, flags)
  {
    hide BitOr, Entry;
    forall page: nat | page < PAGES
      ensures Behind(page, v) == i <==> page == (v + i) % PAGES
    {
    }
  }

  lemma OnlyOneTable(m: Memory, m': Memory, dir: nat, page: nat)
    requires WellFormed(m, dir) && page < PAGES
    requires SameOutside(m, m', EntryAddress(m, dir, page), EntryAddress(m, dir, page) + 4)
    ensures OnlyTables(m, m', dir)
  {
    EntryWritten(m, m', dir, page);
    var table := TableAt(m, dir, page / ENTRIES);
    var d := 4 * (page % ENTRIES);
    forall a: nat | a < WORD_LIMIT && m'[a] != m[a]
      ensures FrameOf(a) == table
    {
      InFrame(table, a - table);
    }
  }

  lemma OnlyTablesTwice(m0: Memory, m: Memory, m': Memory, dir: nat)
    requires dir + PAGE_SIZE <= WORD_LIMIT
    requires OnlyTables(m0, m, dir) && OnlyTables(m, m', dir)
    ensures OnlyTables(m0, m', dir)
  {
    hide TableAt, FrameOf;
  }

  // Mapping leaves the flags of the directory entries as they are.
  lemma MappingKeepsFlags(m: Memory, m': Memory, dir: nat)
    requires WellFormed(m, dir) && OnlyTables(m, m', dir)
    ensures SameFlags(m, m', dir)
  {
    hide FrameOf;
    FlagsKept(m, m', dir);
  }

  // A directory whose frames are not tables of this one does not change.
  lemma OtherDirectoryKept(m: Memory, m': Memory, dir: nat, other: nat)
    requires dir + PAGE_SIZE <= WORD_LIMIT && OnlyTables(m, m', dir)
    requires WellFormed(m, other)
    requires forall i: nat :: i < ENTRIES ==> !InFrames(m, other, TableAt(m, dir, i))
    ensures WellFormed(m', other)
    ensures forall page: nat :: page < PAGES ==> Entry(m', other, page) == Entry(m, other, page)
  {
    FramesKept(m, m', other);
  }

  // What an address in a mapped range translates to.
  lemma MappedTranslates(m: Memory, m': Memory, dir: nat, v: nat, p: nat, n: nat, flags: Word, va: Word)
    requires dir + PAGE_SIZE <= WORD_LIMIT && v < PAGES && p < PAGES && flags < 0x1000
    requires Mapped(m, m', dir, v, p, n, flags) && Behind(va / PAGE_SIZE, v) < n
    ensures Translate(m', dir, va) == (p + Behind(va / PAGE_SIZE, v)) % PAGES * PAGE_SIZE + va % PAGE_SIZE
  {
    EntryFrame((p + Behind(va / PAGE_SIZE, v)) % PAGES, flags);
  }

  lemma EntryFrame(frame: nat, flags: Word)
    requires frame < PAGES && flags < 0x1000
    ensures BitOr(frame * PAGE_SIZE, flags) < WORD_LIMIT
    ensures PageFrame(BitOr(frame * PAGE_SIZE, flags)) == frame * PAGE_SIZE
  {
    hide BitOr, BitAnd;
    PageOrMask(frame * PAGE_SIZE, flags, 0);
  }

  // ----- A directory under construction -----

  function DirectoryEntry(table: Word, flags: Word): nat {
    BitOr(BitOr(table, flags), IS_WRITEABLE)
  }

  // Table number k maps its 1024 pages to themselves.
  ghost predicate TableHolds(m: Memory, table: nat, k: nat, flags: Word)
    requires table + PAGE_SIZE <= WORD_LIMIT
  {
    forall j: nat :: j < ENTRIES ==> WordIn(m, table + 4 * j) == BitOr((k * ENTRIES + j) * PAGE_SIZE, flags)
  }

  predicate IsFrame(a: nat) { a % PAGE_SIZE == 0 && a + PAGE_SIZE <= WORD_LIMIT }

  ghost predicate Built(m: Memory, dir: nat, tables: seq<nat>, flags: Word) {
    && IsFrame(dir) && |tables| <= ENTRIES && flags < 0x100
    && (forall k :: 0 <= k < |tables| ==> IsFrame(tables[k]) && tables[k] != dir)
    && (forall k, l :: 0 <= k < l < |tables| ==> tables[k] != tables[l])
    && (forall k: nat :: k < |tables| ==>
          && WordIn(m, dir + 4 * k) == DirectoryEntry(tables[k], flags)
          && TableHolds(m, tables[k], k, flags))
  }

  lemma BuiltStart(m: Memory, dir: nat, flags: Word)
    requires IsFrame(dir) && flags < 0x100
    ensures Built(m, dir, [], flags)
  {
  }

  lemma FrameKept(m: Memory, m': Memory, frame: nat, lo: nat, hi: nat)
    requires IsFrame(frame) && SameOutside(m, m', lo, hi) && (frame + PAGE_SIZE <= lo || hi <= frame)
    ensures forall j: nat :: j < ENTRIES ==> WordIn(m', frame + 4 * j) == WordIn(m, frame + 4 * j)
  {
    forall j: nat | j < ENTRIES
      ensures WordIn(m', frame + 4 * j) == WordIn(m, frame + 4 * j)
    {
      WordKept(m, m', lo, hi, frame + 4 * j);
    }
  }

  lemma ApartFrames(f: nat, g: nat)
    requires IsFrame(f) && IsFrame(g) && f != g
    ensures f + PAGE_SIZE <= g || g + PAGE_SIZE <= f
  {
  }

  // A change inside another frame leaves what is built alone.
  lemma BuiltKept(m: Memory, m': Memory, dir: nat, tables: seq<nat>, flags: Word, other: nat)
    requires Built(m, dir, tables, flags) && IsFrame(other) && other != dir && other !in tables
    requires SameOutside(m, m', other, other + PAGE_SIZE)
    ensures Built(m', dir, tables, flags)
  {
    hide BitOr, WordIn, DirectoryEntry;
    ApartFrames(dir, other);
    FrameKept(m, m', dir, other, other + PAGE_SIZE);
    forall k: nat | k < |tables|
      ensures TableHolds(m', tables[k], k, flags)
    {
      ApartFrames(tables[k], other);
      FrameKept(m, m', tables[k], other, other + PAGE_SIZE);
    }
  }

  // Entering the next table in the directory.
  lemma BuiltOneMore(m: Memory, m': Memory, dir: nat, tables: seq<nat>, flags: Word, table: nat)
    requires Built(m, dir, tables, flags) && |tables| < ENTRIES
    requires IsFrame(table) && table != dir && table !in tables && TableHolds(m, table, |tables|, flags)
    requires SameOutside(m, m', dir + 4 * |tables|, dir + 4 * |tables| + 4)
    requires WordIn(m', dir + 4 * |tables|) == DirectoryEntry(table, flags)
    ensures Built(m', dir, tables + [table], flags)
  {
    hide BitOr, WordIn, DirectoryEntry;
    var n, all := |tables|, tables + [table];
    forall k: nat | k < |all|
      ensures WordIn(m', dir + 4 * k) == DirectoryEntry(all[k], flags)
      ensures TableHolds(m', all[k], k, flags)
    {
      if k < n {
        WordKept(m, m', dir + 4 * n, dir + 4 * n + 4, dir + 4 * k);
      }
      ApartFrames(all[k], dir);
      FrameKept(m, m', all[k], dir + 4 * n, dir + 4 * n + 4);
    }
  }

  // The finished directory is the identity on every page.
  lemma BuiltDone(m: Memory, dir: nat, tables: seq<nat>, flags: Word)
    requires Built(m, dir, tables, flags) && |tables| == ENTRIES
    ensures forall i: nat :: i < ENTRIES ==> TableAt(m, dir, i) == tables[i]
    ensures WellFormed(m, dir)
    ensures forall page: nat :: page < PAGES ==> Entry(m, dir, page) == BitOr(page * PAGE_SIZE, flags)
    ensures forall i: nat :: i < ENTRIES ==> FlagsAt(m, dir, i) == BitOr(flags, 2)
  {
    hide BitOr, BitAnd;
    forall i: nat | i < ENTRIES
      ensures TableAt(m, dir, i) == tables[i] && FlagsAt(m, dir, i) == BitOr(flags, 2)
    {
      DirectoryEntryFrame(tables[i], flags);
      DirectoryEntryFlags(tables[i], flags);
    }
    forall page: nat | page < PAGES
      ensures Entry(m, dir, page) == BitOr(page * PAGE_SIZE, flags)
    {
      IdentityPage(m, dir, tables[page / ENTRIES], flags, page);
    }
  }

  lemma IdentityPage(m: Memory, dir: nat, table: nat, flags: Word, page: nat)
    requires dir + PAGE_SIZE <= WORD_LIMIT && table + PAGE_SIZE <= WORD_LIMIT && page < PAGES
    requires TableAt(m, dir, page / ENTRIES) == table && TableHolds(m, table, page / ENTRIES, flags)
    ensures Entry(m, dir, page) == BitOr(page * PAGE_SIZE, flags)
  {
    hide BitOr, WordIn, TableAt;
    var k, j := page / ENTRIES, page % ENTRIES;
    assert WordIn(m, table + 4 * j) == BitOr((k * ENTRIES + j) * PAGE_SIZE, flags);
    assert k * ENTRIES + j == page;
  }

  lemma DirectoryEntryFrame(table: nat, flags: Word)
    requires IsFrame(table) && flags < 0x100
    ensures DirectoryEntry(table, flags) < WORD_LIMIT && PageFrame(DirectoryEntry(table, flags)) == table
  {
    hide BitOr, BitAnd;
    PageOrMask(table, flags, IS_WRITEABLE);
  }

  // The flags of a directory entry: those asked for, and writable.
  lemma DirectoryEntryFlags(table: nat, flags: Word)
    requires IsFrame(table) && flags < 0x100
    ensures DirectoryEntry(table, flags) % PAGE_SIZE == BitOr(flags, 2)
  {
    PageOr(table, flags);
    OrLowBits(table / PAGE_SIZE, flags, 2);
    hide BitOr;
    LowPart(table / PAGE_SIZE, BitOr(flags, 2));
  }

  lemma OrLowBits(frame: nat, low: nat, bits: nat)
    requires low < PAGE_SIZE && bits < PAGE_SIZE
    ensures BitOr(frame * PAGE_SIZE + low, bits) == frame * PAGE_SIZE + BitOr(low, bits)
    ensures BitOr(low, bits) < PAGE_SIZE
  {
    PowersUsed();
    OrKeepsHigh(frame, low, bits, 12);
  }

  lemma LowPart(frame: nat, low: nat)
    requires low < PAGE_SIZE
    ensures (frame * PAGE_SIZE + low) % PAGE_SIZE == low
  {
  }

  // What a new directory allows a user program: to reach every address, at itself, exactly as
  // far as the flags permit it.
  lemma IdentityAccess(m: Memory, dir: nat, flags: Word, va: Word, write: bool)
    requires dir + PAGE_SIZE <= WORD_LIMIT && flags < 0x100
    requires forall i: nat :: i < ENTRIES ==> FlagsAt(m, dir, i) == BitOr(flags, 2)
    requires forall page: nat :: page < PAGES ==> Entry(m, dir, page) == BitOr(page * PAGE_SIZE, flags)
    ensures UserAccess(m, dir, va, write) == if Permits(flags, write) then Some(va as nat) else None
  {
    OpenDirectory(flags, write);
    AccessTranslates(m, dir, va, write);
    IdentityTranslates(m, dir, flags, va);
    hide BitOr, FlagsAt, UserAccess, Permits, Entry, Translate;
  }

  lemma IdentityTranslates(m: Memory, dir: nat, flags: Word, va: Word)
    requires dir + PAGE_SIZE <= WORD_LIMIT && flags < 0x1000
    requires Entry(m, dir, va / PAGE_SIZE) == BitOr(va / PAGE_SIZE * PAGE_SIZE, flags)
    ensures Entry(m, dir, va / PAGE_SIZE) % PAGE_SIZE == flags && Translate(m, dir, va) == va
  {
    hide BitOr, Entry;
    EntryFrame(va / PAGE_SIZE, flags);
    PageOr(va / PAGE_SIZE * PAGE_SIZE, flags);
    LowPart(va / PAGE_SIZE, flags);
  }

  // The directory entry permits what the flags permit.
  lemma OpenDirectory(flags: nat, write: bool)
    ensures Permits(flags, write) ==> Permits(BitOr(flags, 2), write)
  {
    BitOfOr(flags, 2, 0);
    BitOfOr(flags, 2, 1);
    BitOfOr(flags, 2, 2);
  }

  // As task_init asks for it, with flags 5, every program can read all of memory and write none.
  lemma UserDirectory(m: Memory, dir: nat, va: Word)
    requires dir + PAGE_SIZE <= WORD_LIMIT
    requires forall i: nat :: i < ENTRIES ==> FlagsAt(m, dir, i) == BitOr(5, 2)
    requires forall page: nat :: page < PAGES ==> Entry(m, dir, page) == BitOr(page * PAGE_SIZE, 5)
    ensures UserAccess(m, dir, va, false) == Some(va as nat) && UserAccess(m, dir, va, true) == None
    ensures AllOpen(m, dir)
  {
    IdentityAccess(m, dir, 5, va, false);
    IdentityAccess(m, dir, 5, va, true);
    assert BitOr(5, 2) == 7;
    assert Bit(5, 2) && Bit(7, 2);
  }
}
