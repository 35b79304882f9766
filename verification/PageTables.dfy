// The two-level page tables as a structure in memory, and the flat map they encode.
module PageTables {
  import opened Words
  import opened Wrappers
  import opened Ram

  const ENTRIES := 1024
  const TABLE_SPAN := 0x40_0000
  const PAGES := 0x10_0000
  const IS_WRITEABLE := 2

  // The table a directory entry points to: the entry without its flag bits.
  function TableAt(m: Memory, dir: nat, i: nat): (table: nat)
    requires dir + PAGE_SIZE <= WORD_LIMIT && i < ENTRIES
    ensures table % PAGE_SIZE == 0 && table + PAGE_SIZE <= WORD_LIMIT
  {
    PageFrame(WordIn(m, dir + 4 * i))
  }

  // A directory and its tables are 1025 different page frames.
  ghost predicate WellFormed(m: Memory, dir: nat) {
    && dir % PAGE_SIZE == 0 && dir + PAGE_SIZE <= WORD_LIMIT
    && (forall i: nat :: i < ENTRIES ==> TableAt(m, dir, i) != dir)
    && (forall i: nat, j: nat :: i < j < ENTRIES ==> TableAt(m, dir, i) != TableAt(m, dir, j))
  }

  lemma FourAligned(table: nat, i: nat)
    requires table % PAGE_SIZE == 0
    ensures (table + 4 * i) % 4 == 0
  {
    var q := table / PAGE_SIZE;
    assert table + 4 * i == 4 * (ENTRIES * q + i);
  }

  function EntryAddress(m: Memory, dir: nat, page: nat): (a: nat)
    requires dir + PAGE_SIZE <= WORD_LIMIT && page < PAGES
    ensures a % 4 == 0 && a + 4 <= WORD_LIMIT
  {
    FourAligned(TableAt(m, dir, page / ENTRIES), page % ENTRIES);
    TableAt(m, dir, page / ENTRIES) + 4 * (page % ENTRIES)
  }

  // The flat map: the entry of every one of the 2^20 pages.
  function Entry(m: Memory, dir: nat, page: nat): Word
    requires dir + PAGE_SIZE <= WORD_LIMIT && page < PAGES
  {
    WordIn(m, EntryAddress(m, dir, page))
  }

  // The physical address behind a virtual one.
  function Translate(m: Memory, dir: nat, va: Word): nat
    requires dir + PAGE_SIZE <= WORD_LIMIT
  {
    PageFrame(Entry(m, dir, va / PAGE_SIZE)) + va % PAGE_SIZE
  }

  // The flag bits of a directory entry.
  function FlagsAt(m: Memory, dir: nat, i: nat): nat
    requires dir + PAGE_SIZE <= WORD_LIMIT && i < ENTRIES
  {
    WordIn(m, dir + 4 * i) % PAGE_SIZE
  }

  // ----- The walk of the processor -----

  // What an entry of a directory or of a table allows a user program: its page or pages have to
  // be present (bit 0), open to user programs (bit 2) and, for a write, writable (bit 1).
  predicate Permits(entry: nat, write: bool) {
    Bit(entry, 0) && Bit(entry, 2) && (write ==> Bit(entry, 1))
  }

  // The access of a user program to an address, as the processor makes it (sections 4.3 and 4.6
  // of volume 3A of the Intel 64 and IA-32 Architectures Software Developer's Manual): address
  // bits 31 to 22 choose the directory entry, bits 21 to 12 the table entry, and both have to
  // permit the access. None is a page fault.
  function UserAccess(m: Memory, dir: nat, va: Word, write: bool): (pa: Option<nat>)
    requires dir + 0x1000 <= WORD_LIMIT
  {
    var d := WordIn(m, dir + va / 0x40_0000 * 4);
    var e := WordIn(m, d / 0x1000 * 0x1000 + va / 0x1000 % 0x400 * 4);
    if Permits(d, write) && Permits(e, write) then Some(e / 0x1000 * 0x1000 + va % 0x1000) else None
  }

  // No directory entry stands in the way of a user program.
  ghost predicate AllOpen(m: Memory, dir: nat)
    requires dir + PAGE_SIZE <= WORD_LIMIT
  {
    forall i: nat :: i < ENTRIES ==> Permits(FlagsAt(m, dir, i), true)
  }

  // It is the flat map, where the entries on both levels permit it.
  lemma AccessTranslates(m: Memory, dir: nat, va: Word, write: bool)
    requires dir + PAGE_SIZE <= WORD_LIMIT
    ensures UserAccess(m, dir, va, write) ==
      if Permits(FlagsAt(m, dir, va / TABLE_SPAN), write) && Permits(Entry(m, dir, va / PAGE_SIZE) % PAGE_SIZE, write)
      then Some(Translate(m, dir, va)) else None
  {
    hide Permits, WordIn;
    var page := va / PAGE_SIZE;
    assert page / ENTRIES == va / TABLE_SPAN;
    PermitsLow(WordIn(m, dir + 4 * (page / ENTRIES)), write);
    PermitsLow(Entry(m, dir, page), write);
  }

  // With an open directory the entry of the page decides.
  lemma EntryDecides(m: Memory, dir: nat, va: Word, write: bool)
    requires dir + PAGE_SIZE <= WORD_LIMIT && AllOpen(m, dir)
    ensures UserAccess(m, dir, va, write) ==
      if Permits(Entry(m, dir, va / PAGE_SIZE) % PAGE_SIZE, write) then Some(Translate(m, dir, va)) else None
  {
    AccessTranslates(m, dir, va, write);
    assert Permits(FlagsAt(m, dir, va / TABLE_SPAN), true);
    hide UserAccess, FlagsAt, Entry, Translate, Bit;
  }

  // The flags are among the low bits.
  lemma PermitsLow(entry: Word, write: bool)
    ensures Permits(entry, write) <==> Permits(entry % PAGE_SIZE, write)
  {
    PowersUsed();
    BitOfLow(entry / PAGE_SIZE, entry % PAGE_SIZE, 12, 0);
    BitOfLow(entry / PAGE_SIZE, entry % PAGE_SIZE, 12, 1);
    BitOfLow(entry / PAGE_SIZE, entry % PAGE_SIZE, 12, 2);
    hide Bit, Pow2;
  }

  // The page frames of one directory.
  ghost predicate InFrames(m: Memory, dir: nat, frame: nat)
    requires dir + PAGE_SIZE <= WORD_LIMIT
  {
    frame == dir || exists i: nat :: i < ENTRIES && TableAt(m, dir, i) == frame
  }

  // The entries of the directory have kept their flags.
  ghost predicate SameFlags(m: Memory, m': Memory, dir: nat)
    requires dir + PAGE_SIZE <= WORD_LIMIT
  {
    forall i: nat :: i < ENTRIES ==> FlagsAt(m', dir, i) == FlagsAt(m, dir, i)
  }

  // A change outside the directory's own frames leaves its structure and its flat map alone.
  lemma FramesKept(m: Memory, m': Memory, dir: nat)
    requires dir % PAGE_SIZE == 0 && dir + PAGE_SIZE <= WORD_LIMIT
    requires forall a: nat :: a < WORD_LIMIT && InFrames(m, dir, FrameOf(a)) ==> m'[a] == m[a]
    ensures forall i: nat :: i < ENTRIES ==> TableAt(m', dir, i) == TableAt(m, dir, i)
    ensures WellFormed(m, dir) ==> WellFormed(m', dir)
    ensures forall page: nat :: page < PAGES ==> Entry(m', dir, page) == Entry(m, dir, page)
  {
    TablesKept(m, m', dir);
    forall page: nat | page < PAGES
      ensures Entry(m', dir, page) == Entry(m, dir, page)
    {
      EntryKept(m, m', dir, page);
    }
    hide InFrames, Entry, TableAt;
  }

  lemma TablesKept(m: Memory, m': Memory, dir: nat)
    requires dir % PAGE_SIZE == 0 && dir + PAGE_SIZE <= WORD_LIMIT
    requires forall a: nat :: a < WORD_LIMIT && InFrames(m, dir, FrameOf(a)) ==> m'[a] == m[a]
    ensures forall i: nat :: i < ENTRIES ==> TableAt(m', dir, i) == TableAt(m, dir, i)
  {
    assert InFrames(m, dir, dir);
    hide InFrames, WordIn, FrameOf;
    forall i: nat | i < ENTRIES
      ensures TableAt(m', dir, i) == TableAt(m, dir, i)
    {
      FrameWord(m, m', dir, dir, i);
    }
  }

  lemma EntryKept(m: Memory, m': Memory, dir: nat, page: nat)
    requires dir % PAGE_SIZE == 0 && dir + PAGE_SIZE <= WORD_LIMIT && page < PAGES
    requires forall a: nat :: a < WORD_LIMIT && InFrames(m, dir, FrameOf(a)) ==> m'[a] == m[a]
    requires TableAt(m', dir, page / ENTRIES) == TableAt(m, dir, page / ENTRIES)
    ensures Entry(m', dir, page) == Entry(m, dir, page)
  {
    var table := TableAt(m, dir, page / ENTRIES);
    assert InFrames(m, dir, table);
    hide InFrames, WordIn, FrameOf, TableAt;
    FrameWord(m, m', dir, table, page % ENTRIES);
  }

  // Also its flags.
  lemma FlagsKept(m: Memory, m': Memory, dir: nat)
    requires dir % PAGE_SIZE == 0 && dir + PAGE_SIZE <= WORD_LIMIT
    requires forall a: nat :: a < WORD_LIMIT && FrameOf(a) == dir ==> m'[a] == m[a]
    ensures SameFlags(m, m', dir)
  {
    hide FrameOf;
    forall i: nat | i < ENTRIES
      ensures FlagsAt(m', dir, i) == FlagsAt(m, dir, i)
    {
      InFrame(dir, 4 * i);
      InFrame(dir, 4 * i + 1);
      InFrame(dir, 4 * i + 2);
      InFrame(dir, 4 * i + 3);
      assert dir + 4 * i + 1 == dir + (4 * i + 1) && dir + 4 * i + 2 == dir + (4 * i + 2);
    }
  }

  lemma FrameWord(m: Memory, m': Memory, dir: nat, frame: nat, i: nat)
    requires dir % PAGE_SIZE == 0 && dir + PAGE_SIZE <= WORD_LIMIT
    requires forall a: nat :: a < WORD_LIMIT && InFrames(m, dir, FrameOf(a)) ==> m'[a] == m[a]
    requires frame % PAGE_SIZE == 0 && frame + PAGE_SIZE <= WORD_LIMIT && InFrames(m, dir, frame) && i < ENTRIES
    ensures WordIn(m', frame + 4 * i) == WordIn(m, frame + 4 * i)
  {
    hide FrameOf, InFrames;
    InFrame(frame, 4 * i);
    InFrame(frame, 4 * i + 1);
    InFrame(frame, 4 * i + 2);
    InFrame(frame, 4 * i + 3);
    assert frame + 4 * i + 1 == frame + (4 * i + 1) && frame + 4 * i + 2 == frame + (4 * i + 2);
  }

  // Writing the entry of one page changes that page of the flat map and no other.
  lemma EntryWritten(m: Memory, m': Memory, dir: nat, page: nat)
    requires WellFormed(m, dir) && page < PAGES
    requires SameOutside(m, m', EntryAddress(m, dir, page), EntryAddress(m, dir, page) + 4)
    ensures forall i: nat :: i < ENTRIES ==> TableAt(m', dir, i) == TableAt(m, dir, i)
    ensures WellFormed(m', dir)
    ensures Entry(m', dir, page) == WordIn(m', EntryAddress(m, dir, page))
    ensures forall q: nat :: q < PAGES && q != page ==> Entry(m', dir, q) == Entry(m, dir, q)
  {
    hide WordIn;
    TablesStay(m, m', dir, page);
    forall q: nat | q < PAGES && q != page
      ensures Entry(m', dir, q) == Entry(m, dir, q)
    {
      OtherEntryStays(m, m', dir, page, q);
    }
  }

  lemma TablesStay(m: Memory, m': Memory, dir: nat, page: nat)
    requires WellFormed(m, dir) && page < PAGES
    requires SameOutside(m, m', EntryAddress(m, dir, page), EntryAddress(m, dir, page) + 4)
    ensures forall i: nat :: i < ENTRIES ==> TableAt(m', dir, i) == TableAt(m, dir, i)
  {
    var a, table := EntryAddress(m, dir, page), TableAt(m, dir, page / ENTRIES);
    hide WordIn;
    forall i: nat | i < ENTRIES
      ensures TableAt(m', dir, i) == TableAt(m, dir, i)
    {
      FramesApart(dir, table, i, page % ENTRIES);
      WordKept(m, m', a, a + 4, dir + 4 * i);
    }
  }

  lemma OtherEntryStays(m: Memory, m': Memory, dir: nat, page: nat, q: nat)
    requires WellFormed(m, dir) && page < PAGES && q < PAGES && q != page
    requires SameOutside(m, m', EntryAddress(m, dir, page), EntryAddress(m, dir, page) + 4)
    requires forall i: nat :: i < ENTRIES ==> TableAt(m', dir, i) == TableAt(m, dir, i)
    ensures Entry(m', dir, q) == Entry(m, dir, q)
  {
    var a, table, table' := EntryAddress(m, dir, page), TableAt(m, dir, page / ENTRIES), TableAt(m, dir, q / ENTRIES);
    if q / ENTRIES != page / ENTRIES {
      TablesDiffer(m, dir, q / ENTRIES, page / ENTRIES);
      FramesApart(table', table, q % ENTRIES, page % ENTRIES);
    }
    hide WordIn, TableAt;
    WordKept(m, m', a, a + 4, EntryAddress(m, dir, q));
  }

  lemma TablesDiffer(m: Memory, dir: nat, i: nat, j: nat)
    requires WellFormed(m, dir) && i < ENTRIES && j < ENTRIES && i != j
    ensures TableAt(m, dir, i) != TableAt(m, dir, j)
  {
  }

  lemma FramesApart(f: nat, g: nat, i: nat, j: nat)
    requires f % PAGE_SIZE == 0 && g % PAGE_SIZE == 0 && f != g && i < ENTRIES && j < ENTRIES
    ensures f + 4 * i + 4 <= g + 4 * j || g + 4 * j + 4 <= f + 4 * i
  {
  }
}
