// What loading an ELF image does to the flat page map: a list of range updates, of which
// the last one that covers a page decides; and when a segment comes out right.
module LoadPlan {
  import opened Words
  import opened Wrappers
  import opened Arithmetic
  import opened Ram
  import opened PageTables
  import opened Paging

  const STACK_SIZE: nat := 1024 * 16
  const STACK_START: nat := 0x3F_F000
  const STACK_END: nat := STACK_START - STACK_SIZE
  const USER_READ: Word := 5
  const USER_WRITE: Word := 7

  datatype ProgramHeader = ProgramHeader(offset: Word, vaddr: Word, filesz: Word, memsz: Word, writable: bool)
  {
    predicate HasBss() { memsz > filesz }

    // How many bytes of the segment come from the file.
    function FilePart(): nat { if HasBss() then filesz else memsz }

    function PageFlags(): Word { if writable then USER_WRITE else USER_READ }
  }

  // Rounds up in 32-bit arithmetic.
  function AlignUp(a: Word): Word {
    if a % PAGE_SIZE != 0 then (a + PAGE_SIZE - a % PAGE_SIZE) % WORD_LIMIT else a
  }

  function AlignDown(a: Word): Word { a - a % PAGE_SIZE }

  lemma AlignUpIsCeiling(a: Word)
    requires a + PAGE_SIZE <= WORD_LIMIT
    ensures AlignUp(a) % PAGE_SIZE == 0 && a <= AlignUp(a) < a + PAGE_SIZE
  {
  }

  // How many page frames hold the bytes pa..pa+size.
  function Span(pa: nat, size: nat): nat
    requires pa + size + PAGE_SIZE <= WORD_LIMIT
  {
    AlignUpIsCeiling(pa + size);
    (AlignUp(pa + size) - AlignDown(pa)) / PAGE_SIZE
  }

  lemma SpanFromAligned(pa: nat, size: nat)
    requires pa % PAGE_SIZE == 0 && pa + size + PAGE_SIZE <= WORD_LIMIT
    ensures AlignUp(pa + size) % PAGE_SIZE == 0 && pa <= AlignUp(pa + size)
    ensures Span(pa, size) == (AlignUp(pa + size) - pa) / PAGE_SIZE
  {
    AlignUpIsCeiling(pa + size);
    hide AlignUp;
  }

  // Pages v..v+n show frames p..p+n.
  datatype Update = Update(v: nat, p: nat, n: nat, flags: Word)
  {
    predicate Valid() { v < PAGES && p < PAGES && flags < 0x1000 }

    predicate Covers(page: nat)
      requires Valid() && page < PAGES
    {
      Behind(page, v) < n
    }

    function Frame(page: nat): nat
      requires Valid() && page < PAGES
    {
      (p + Behind(page, v)) % PAGES
    }
  }

  // The entry of a page after the updates have been made one after the other.
  ghost function EntryAfter(m: Memory, dir: nat, us: seq<Update>, page: nat): nat
    requires dir + PAGE_SIZE <= WORD_LIMIT && page < PAGES
    requires forall u :: u in us ==> u.Valid()
  {
    if us == [] then Entry(m, dir, page)
    else
      var u := us[|us| - 1];
      if u.Covers(page) then BitOr(u.Frame(page) * PAGE_SIZE, u.flags)
      else EntryAfter(m, dir, us[..|us| - 1], page)
  }

  // The flat map of m' is the one of m after the updates.
  ghost predicate Follows(m: Memory, m': Memory, dir: nat, us: seq<Update>)
    requires dir + PAGE_SIZE <= WORD_LIMIT
  {
    && (forall u :: u in us ==> u.Valid())
    && (forall page: nat :: page < PAGES ==> Entry(m', dir, page) == EntryAfter(m, dir, us, page))
  }

  lemma FollowsOneMore(m: Memory, m': Memory, m'': Memory, dir: nat, us: seq<Update>, u: Update)
    requires dir + PAGE_SIZE <= WORD_LIMIT && Follows(m, m', dir, us) && u.Valid()
    requires Mapped(m', m'', dir, u.v, u.p, u.n, u.flags)
    ensures Follows(m, m'', dir, us + [u])
  {
    hide BitOr, Entry;
    var all := us + [u];
    assert all[..|all| - 1] == us;
  }

  // Where a header's segment lies in physical memory: in its bss buffer, or in the image.
  function Place(h: ProgramHeader, elf: nat, buf: nat): nat {
    if h.HasBss() then buf else elf + h.offset
  }

  function PlaceFits(h: ProgramHeader, elf: nat, buf: nat): bool {
    Place(h, elf, buf) + h.memsz + PAGE_SIZE <= WORD_LIMIT
  }

  // The mapping of the segment itself.
  function SegmentUpdate(h: ProgramHeader, elf: nat, buf: nat): (u: Update)
    requires PlaceFits(h, elf, buf)
    ensures u.Valid()
  {
    var pa := Place(h, elf, buf);
    Update(AlignDown(h.vaddr) / PAGE_SIZE, AlignDown(pa) / PAGE_SIZE, Span(pa, h.memsz), h.PageFlags())
  }

  // The identity mapping that comes with the allocation of a bss buffer.
  function BufferUpdate(h: ProgramHeader, buf: nat): (u: Update)
    requires buf + h.memsz + PAGE_SIZE <= WORD_LIMIT && buf % PAGE_SIZE == 0
    ensures u.Valid()
  {
    Update(buf / PAGE_SIZE, buf / PAGE_SIZE, Span(buf, h.memsz), h.PageFlags())
  }

  function StackUpdate(stack: nat): Update { Update(STACK_END / PAGE_SIZE, stack / PAGE_SIZE, STACK_SIZE / PAGE_SIZE, USER_WRITE) }

  predicate PlanOk(headers: seq<ProgramHeader>, elf: nat, bufs: seq<nat>) {
    && |bufs| == |headers|
    && forall i :: 0 <= i < |headers| ==> PlaceFits(headers[i], elf, bufs[i]) && (headers[i].HasBss() ==> bufs[i] % PAGE_SIZE == 0)
  }

  function HeaderUpdates(h: ProgramHeader, elf: nat, buf: nat): seq<Update>
    requires PlaceFits(h, elf, buf) && (h.HasBss() ==> buf % PAGE_SIZE == 0)
  {
    (if h.HasBss() then [BufferUpdate(h, buf)] else []) + [SegmentUpdate(h, elf, buf)]
  }

  // The updates in program order, for the headers loaded so far.
  function Plan(headers: seq<ProgramHeader>, elf: nat, bufs: seq<nat>): (us: seq<Update>)
    requires PlanOk(headers, elf, bufs)
    ensures forall u :: u in us ==> u.Valid()
  {
    if headers == [] then []
    else
      var k := |headers| - 1;
      Plan(headers[..k], elf, bufs[..k]) + HeaderUpdates(headers[k], elf, bufs[k])
  }

  // ----- When a segment comes out right -----

  // None of the given updates touches a page of the segment.
  ghost predicate Untouched(h: ProgramHeader, us: seq<Update>)
    requires forall u :: u in us ==> u.Valid()
  {
    forall k: nat, u :: k < h.memsz && u in us ==> !u.Covers(Page(h, k))
  }

  // The virtual address of byte k of the segment, and its page.
  function Address(h: ProgramHeader, k: nat): Word { (h.vaddr + k) % WORD_LIMIT }

  function Page(h: ProgramHeader, k: nat): (page: nat)
    ensures page < PAGES
  {
    Address(h, k) / PAGE_SIZE
  }

  // Every byte of the segment translates to its place in physical memory.
  ghost predicate Translated(m: Memory, dir: nat, h: ProgramHeader, pa: nat)
    requires dir + PAGE_SIZE <= WORD_LIMIT
  {
    forall k: nat :: k < h.memsz ==> Translate(m, dir, Address(h, k)) == pa + k
  }

  // Updates that do not cover a page do not change it.
  lemma {:induction false} UncoveredSkips(m: Memory, dir: nat, us: seq<Update>, later: seq<Update>, page: nat)
    requires dir + PAGE_SIZE <= WORD_LIMIT && page < PAGES
    requires (forall u :: u in us ==> u.Valid()) && (forall u :: u in later ==> u.Valid() && !u.Covers(page))
    ensures EntryAfter(m, dir, us + later, page) == EntryAfter(m, dir, us, page)
    decreases |later|
  {
    hide BitOr, Entry;
    if later == [] {
      assert us + later == us;
    } else {
      var k := |later| - 1;
      assert later[k] in later;
      assert (us + later)[..|us + later| - 1] == us + later[..k];
      UncoveredSkips(m, dir, us, later[..k], page);
    }
  }

  // Number of pages behind the first one, and place in the page, of byte k.
  lemma PageOfByte(h: ProgramHeader, k: nat)
    requires k < h.memsz
    ensures var r := h.vaddr % PAGE_SIZE;
            && Behind(Page(h, k), h.vaddr / PAGE_SIZE) == (r + k) / PAGE_SIZE % PAGES
            && Address(h, k) % PAGE_SIZE == (r + k) % PAGE_SIZE
  {
  }

  lemma TranslateThrough(m': Memory, dir: nat, u: Update, va: Word)
    requires dir + PAGE_SIZE <= WORD_LIMIT && u.Valid()
    requires Entry(m', dir, va / PAGE_SIZE) == BitOr(u.Frame(va / PAGE_SIZE) * PAGE_SIZE, u.flags)
    ensures Translate(m', dir, va) == u.Frame(va / PAGE_SIZE) * PAGE_SIZE + va % PAGE_SIZE
  {
    EntryFrame(u.Frame(va / PAGE_SIZE), u.flags);
  }

  // Byte k behind place pa, in pages.
  lemma PlaceInPages(pa: nat, k: nat, end: nat)
    requires pa + k < end <= WORD_LIMIT && end % PAGE_SIZE == 0
    ensures var q := (pa % PAGE_SIZE + k) / PAGE_SIZE;
            && q < (end - AlignDown(pa)) / PAGE_SIZE
            && pa / PAGE_SIZE + q < PAGES
            && (pa / PAGE_SIZE + q) * PAGE_SIZE + (pa % PAGE_SIZE + k) % PAGE_SIZE == pa + k
  {
    var r, p := pa % PAGE_SIZE, pa / PAGE_SIZE;
    var q, d := (r + k) / PAGE_SIZE, (r + k) % PAGE_SIZE;
    assert pa == p * PAGE_SIZE + r && r + k == q * PAGE_SIZE + d;
    assert (p + q) * PAGE_SIZE + d < end;
    assert AlignDown(pa) == p * PAGE_SIZE;
  }

  // The numbers behind one byte of a segment whose address and place agree modulo the page size.
  lemma ByteInRange(h: ProgramHeader, elf: nat, buf: nat, k: nat)
    requires PlaceFits(h, elf, buf) && k < h.memsz
    requires h.vaddr % PAGE_SIZE == Place(h, elf, buf) % PAGE_SIZE
    ensures var u := SegmentUpdate(h, elf, buf);
            && u.Covers(Page(h, k))
            && u.Frame(Page(h, k)) * PAGE_SIZE + Address(h, k) % PAGE_SIZE == Place(h, elf, buf) + k
  {
    var pa, r := Place(h, elf, buf), h.vaddr % PAGE_SIZE;
    PageOfByte(h, k);
    AlignUpIsCeiling(pa + h.memsz);
    PlaceInPages(pa, k, AlignUp(pa + h.memsz));
    AlignDownPage(h.vaddr);
    AlignDownPage(pa);
    hide Page, Address, AlignUp, AlignDown, Behind;
    var q := (r + k) / PAGE_SIZE;
    SmallMod(q, PAGES);
    SmallMod(pa / PAGE_SIZE + q, PAGES);
  }

  lemma AlignDownPage(a: Word)
    ensures AlignDown(a) / PAGE_SIZE == a / PAGE_SIZE
  {
  }

  lemma SmallMod(a: nat, n: nat)
    requires a < n
    ensures a % n == a
  {
    DivModUnique(a, n, 0, a);
  }

  // A segment that no later update touches is mapped right exactly when its virtual address
  // and its place agree modulo the page size.
  lemma SegmentRight(m: Memory, m': Memory, dir: nat, us: seq<Update>, later: seq<Update>,
                     h: ProgramHeader, elf: nat, buf: nat)
    requires dir + PAGE_SIZE <= WORD_LIMIT && PlaceFits(h, elf, buf)
    requires (forall u :: u in us ==> u.Valid()) && (forall u :: u in later ==> u.Valid()) && Untouched(h, later)
    requires Follows(m, m', dir, us + [SegmentUpdate(h, elf, buf)] + later)
    requires h.memsz > 0
    ensures Translated(m', dir, h, Place(h, elf, buf)) <==> h.vaddr % PAGE_SIZE == Place(h, elf, buf) % PAGE_SIZE
  {
    hide Page, Address, SegmentUpdate, Translate, Follows, Untouched;
    var pa := Place(h, elf, buf);
    if h.vaddr % PAGE_SIZE == pa % PAGE_SIZE {
      forall k: nat | k < h.memsz
        ensures Translate(m', dir, Address(h, k)) == pa + k
      {
        ByteInRange(h, elf, buf, k);
        SegmentByte(m, m', dir, us, later, h, elf, buf, k);
      }
    } else {
      FirstByteCovered(h, elf, buf);
      SegmentByte(m, m', dir, us, later, h, elf, buf, 0);
    }
  }

  lemma SegmentByte(m: Memory, m': Memory, dir: nat, us: seq<Update>, later: seq<Update>,
                    h: ProgramHeader, elf: nat, buf: nat, k: nat)
    requires dir + PAGE_SIZE <= WORD_LIMIT && PlaceFits(h, elf, buf) && k < h.memsz
    requires (forall u :: u in us ==> u.Valid()) && (forall u :: u in later ==> u.Valid()) && Untouched(h, later)
    requires Follows(m, m', dir, us + [SegmentUpdate(h, elf, buf)] + later)
    requires SegmentUpdate(h, elf, buf).Covers(Page(h, k))
    ensures Translate(m', dir, Address(h, k))
            == SegmentUpdate(h, elf, buf).Frame(Page(h, k)) * PAGE_SIZE + Address(h, k) % PAGE_SIZE
  {
    hide BitOr, Entry, SegmentUpdate, Translate;
    SegmentEntry(m, m', dir, us, later, h, elf, buf, k);
    TranslateThrough(m', dir, SegmentUpdate(h, elf, buf), Address(h, k));
  }

  lemma FirstByteCovered(h: ProgramHeader, elf: nat, buf: nat)
    requires PlaceFits(h, elf, buf) && h.memsz > 0
    ensures SegmentUpdate(h, elf, buf).Covers(Page(h, 0))
    ensures Address(h, 0) == h.vaddr
    ensures h.vaddr % PAGE_SIZE != Place(h, elf, buf) % PAGE_SIZE ==>
      SegmentUpdate(h, elf, buf).Frame(Page(h, 0)) * PAGE_SIZE + h.vaddr % PAGE_SIZE != Place(h, elf, buf)
  {
    var pa := Place(h, elf, buf);
    FirstPage(h);
    SpanOfSome(pa, h.memsz);
    AlignDownPage(h.vaddr);
    AlignDownPage(pa);
    if h.vaddr % PAGE_SIZE != pa % PAGE_SIZE {
      OtherPlace(SegmentUpdate(h, elf, buf).Frame(Page(h, 0)), h.vaddr % PAGE_SIZE, pa);
    }
    hide Page, Address, AlignUp, AlignDown, Behind, Span;
  }

  lemma FirstPage(h: ProgramHeader)
    ensures Address(h, 0) == h.vaddr && Page(h, 0) == h.vaddr / PAGE_SIZE
    ensures Behind(Page(h, 0), h.vaddr / PAGE_SIZE) == 0
  {
  }

  // Any bytes at all need a page.
  lemma SpanOfSome(pa: nat, size: nat)
    requires size > 0 && pa + size + PAGE_SIZE <= WORD_LIMIT
    ensures Span(pa, size) > 0
  {
    AlignUpIsCeiling(pa + size);
    PlaceInPages(pa, 0, AlignUp(pa + size));
    hide AlignUp, AlignDown;
  }

  lemma OtherPlace(f: nat, d: nat, place: nat)
    requires d < PAGE_SIZE && d != place % PAGE_SIZE
    ensures f * PAGE_SIZE + d != place
  {
  }

  // The segment's own update decides the page of a byte it covers.
  lemma SegmentEntry(m: Memory, m': Memory, dir: nat, us: seq<Update>, later: seq<Update>,
                     h: ProgramHeader, elf: nat, buf: nat, k: nat)
    requires dir + PAGE_SIZE <= WORD_LIMIT && PlaceFits(h, elf, buf) && k < h.memsz
    requires (forall u :: u in us ==> u.Valid()) && (forall u :: u in later ==> u.Valid()) && Untouched(h, later)
    requires Follows(m, m', dir, us + [SegmentUpdate(h, elf, buf)] + later)
    requires SegmentUpdate(h, elf, buf).Covers(Page(h, k))
    ensures var u := SegmentUpdate(h, elf, buf);
            Entry(m', dir, Page(h, k)) == BitOr(u.Frame(Page(h, k)) * PAGE_SIZE, u.flags)
  {
    hide BitOr, Entry, SegmentUpdate, Page;
    DecidedBy(m, m', dir, us, SegmentUpdate(h, elf, buf), later, Page(h, k));
  }

  // The last update that covers a page decides its frame and its flags.
  lemma DecidedBy(m: Memory, m': Memory, dir: nat, us: seq<Update>, u: Update, later: seq<Update>, page: nat)
    requires dir + PAGE_SIZE <= WORD_LIMIT && page < PAGES
    requires (forall w :: w in us ==> w.Valid()) && u.Valid() && u.Covers(page)
    requires forall w :: w in later ==> w.Valid() && !w.Covers(page)
    requires Follows(m, m', dir, us + [u] + later)
    ensures Entry(m', dir, page) == BitOr(u.Frame(page) * PAGE_SIZE, u.flags)
  {
    hide BitOr, Entry;
    var all := us + [u];
    UncoveredSkips(m, dir, all, later, page);
    assert all[..|all| - 1] == us;
  }

  // ----- The whole image -----

  lemma {:induction false} PlanSplits(headers: seq<ProgramHeader>, elf: nat, bufs: seq<nat>, i: nat)
    requires PlanOk(headers, elf, bufs) && i <= |headers|
    ensures PlanOk(headers[..i], elf, bufs[..i]) && PlanOk(headers[i..], elf, bufs[i..])
    ensures Plan(headers, elf, bufs) == Plan(headers[..i], elf, bufs[..i]) + Plan(headers[i..], elf, bufs[i..])
    decreases |headers| - i
  {
    hide HeaderUpdates, PlaceFits;
    if i == |headers| {
      assert headers[..i] == headers && bufs[..i] == bufs;
    } else {
      PlanSplits(headers, elf, bufs, i + 1);
      PlanBack(headers, elf, bufs, i);
      PlanFront(headers[i..], elf, bufs[i..]);
      assert headers[i..][1..] == headers[i + 1..] && bufs[i..][1..] == bufs[i + 1..];
    }
  }

  lemma PlanBack(headers: seq<ProgramHeader>, elf: nat, bufs: seq<nat>, i: nat)
    requires PlanOk(headers, elf, bufs) && i < |headers|
    ensures PlanOk(headers[..i], elf, bufs[..i]) && PlanOk(headers[..i + 1], elf, bufs[..i + 1])
    ensures Plan(headers[..i + 1], elf, bufs[..i + 1])
            == Plan(headers[..i], elf, bufs[..i]) + HeaderUpdates(headers[i], elf, bufs[i])
  {
    hide HeaderUpdates, PlaceFits;
    assert headers[..i + 1][..i] == headers[..i] && bufs[..i + 1][..i] == bufs[..i];
  }

  lemma {:induction false} PlanFront(headers: seq<ProgramHeader>, elf: nat, bufs: seq<nat>)
    requires PlanOk(headers, elf, bufs) && headers != []
    ensures Plan(headers, elf, bufs) == HeaderUpdates(headers[0], elf, bufs[0]) + Plan(headers[1..], elf, bufs[1..])
    decreases headers
  {
    hide HeaderUpdates;
    var k := |headers| - 1;
    if k > 0 {
      PlanFront(headers[..k], elf, bufs[..k]);
      assert headers[..k][1..] == headers[1..][..k - 1] && bufs[..k][1..] == bufs[1..][..k - 1];
    }
  }

  // All updates of a load: the headers in order, then the stack.
  function LoadUpdates(headers: seq<ProgramHeader>, elf: nat, bufs: seq<nat>, stack: nat): seq<Update>
    requires PlanOk(headers, elf, bufs)
  {
    Plan(headers, elf, bufs) + [StackUpdate(stack)]
  }

  // Segment i after the whole load: if nothing that is mapped later lands on its pages, its
  // bytes translate to its place exactly when address and place agree modulo the page size.
  lemma LoadedSegmentRight(m: Memory, m': Memory, dir: nat, headers: seq<ProgramHeader>, elf: nat, bufs: seq<nat>,
                           stack: nat, i: nat)
    requires dir + PAGE_SIZE <= WORD_LIMIT && PlanOk(headers, elf, bufs) && i < |headers| && headers[i].memsz > 0
    requires stack / PAGE_SIZE < PAGES && Follows(m, m', dir, LoadUpdates(headers, elf, bufs, stack))
    requires PlanOk(headers[i + 1..], elf, bufs[i + 1..])
    requires Untouched(headers[i], LoadUpdates(headers[i + 1..], elf, bufs[i + 1..], stack))
    ensures var place := Place(headers[i], elf, bufs[i]);
            Translated(m', dir, headers[i], place) <==> headers[i].vaddr % PAGE_SIZE == place % PAGE_SIZE
  {
    hide Follows, Untouched, BufferUpdate, SegmentUpdate, Translated;
    var later := LoadUpdates(headers[i + 1..], elf, bufs[i + 1..], stack);
    var us := LoadSplits(headers, elf, bufs, stack, i);
    SegmentRight(m, m', dir, us, later, headers[i], elf, bufs[i]);
  }

  // The updates before and after the one of segment i. The one of its buffer comes just before.
  lemma LoadSplits(headers: seq<ProgramHeader>, elf: nat, bufs: seq<nat>, stack: nat, i: nat) returns (us: seq<Update>)
    requires PlanOk(headers, elf, bufs) && i < |headers| && PlanOk(headers[i + 1..], elf, bufs[i + 1..])
    ensures PlaceFits(headers[i], elf, bufs[i]) && forall u :: u in us ==> u.Valid()
    ensures LoadUpdates(headers, elf, bufs, stack)
            == us + [SegmentUpdate(headers[i], elf, bufs[i])] + LoadUpdates(headers[i + 1..], elf, bufs[i + 1..], stack)
    ensures headers[i].HasBss() ==>
      && bufs[i] + headers[i].memsz + PAGE_SIZE <= WORD_LIMIT && bufs[i] % PAGE_SIZE == 0
      && us != [] && us[|us| - 1] == BufferUpdate(headers[i], bufs[i])
  {
    hide BufferUpdate, SegmentUpdate;
    var h, buf := headers[i], bufs[i];
    var before, later := Plan(headers[..i], elf, bufs[..i]), LoadUpdates(headers[i + 1..], elf, bufs[i + 1..], stack);
    PlanSplits(headers, elf, bufs, i);
    PlanFront(headers[i..], elf, bufs[i..]);
    assert headers[i..][1..] == headers[i + 1..] && bufs[i..][1..] == bufs[i + 1..];
    us := before + (if h.HasBss() then [BufferUpdate(h, buf)] else []);
    assert LoadUpdates(headers, elf, bufs, stack) == us + [SegmentUpdate(h, elf, buf)] + later;
  }

  // The flags of a decided page, in the low bits of its entry.
  lemma DecidedFlags(u: Update, page: nat)
    requires u.Valid() && page < PAGES
    ensures BitOr(u.Frame(page) * PAGE_SIZE, u.flags) == u.Frame(page) * PAGE_SIZE + u.flags
    ensures BitOr(u.Frame(page) * PAGE_SIZE, u.flags) % PAGE_SIZE == u.flags
  {
    hide BitOr;
    PageOr(u.Frame(page) * PAGE_SIZE, u.flags);
    LowPart(u.Frame(page), u.flags);
  }

  // After the load every page that segment i maps, and nothing after it, is present and open to
  // the program (bits 0 and 2), and writable (bit 1) exactly if the segment is.
  lemma LoadedSegmentFlags(m: Memory, m': Memory, dir: nat, headers: seq<ProgramHeader>, elf: nat, bufs: seq<nat>,
                           stack: nat, i: nat, page: nat)
    requires dir + PAGE_SIZE <= WORD_LIMIT && PlanOk(headers, elf, bufs) && i < |headers| && page < PAGES
    requires stack / PAGE_SIZE < PAGES && Follows(m, m', dir, LoadUpdates(headers, elf, bufs, stack))
    requires PlanOk(headers[i + 1..], elf, bufs[i + 1..])
    requires PlaceFits(headers[i], elf, bufs[i]) && SegmentUpdate(headers[i], elf, bufs[i]).Covers(page)
    requires Uncovered(LoadUpdates(headers[i + 1..], elf, bufs[i + 1..], stack), page)
    ensures Entry(m', dir, page) % 0x1000 == if headers[i].writable then 1 + 2 + 4 else 1 + 4
  {
    var u, later := SegmentUpdate(headers[i], elf, bufs[i]), LoadUpdates(headers[i + 1..], elf, bufs[i + 1..], stack);
    assert u.flags == headers[i].PageFlags();
    hide BitOr, Entry, SegmentUpdate, LoadUpdates, Follows;
    var us := LoadSplits(headers, elf, bufs, stack, i);
    DecidedBy(m, m', dir, us, u, later, page);
    DecidedFlags(u, page);
  }

  // None of the updates touches the page.
  ghost predicate Uncovered(us: seq<Update>, page: nat)
    requires page < PAGES
  {
    forall u :: u in us ==> u.Valid() && !u.Covers(page)
  }

  // The same for the pages of its buffer, which show the buffer itself.
  lemma LoadedBufferFlags(m: Memory, m': Memory, dir: nat, headers: seq<ProgramHeader>, elf: nat, bufs: seq<nat>,
                          stack: nat, i: nat, page: nat)
    requires dir + PAGE_SIZE <= WORD_LIMIT && PlanOk(headers, elf, bufs) && i < |headers| && headers[i].HasBss()
    requires stack / PAGE_SIZE < PAGES && Follows(m, m', dir, LoadUpdates(headers, elf, bufs, stack))
    requires PlanOk(headers[i + 1..], elf, bufs[i + 1..]) && PlaceFits(headers[i], elf, bufs[i])
    requires bufs[i] / PAGE_SIZE <= page && page * PAGE_SIZE < bufs[i] + headers[i].memsz
    requires page < PAGES && Uncovered([SegmentUpdate(headers[i], elf, bufs[i])], page)
    requires Uncovered(LoadUpdates(headers[i + 1..], elf, bufs[i + 1..], stack), page)
    ensures Entry(m', dir, page) == page * 0x1000 + if headers[i].writable then 1 + 2 + 4 else 1 + 4
  {
    var h, buf := headers[i], bufs[i];
    var rest := LoadUpdates(headers[i + 1..], elf, bufs[i + 1..], stack);
    var us := LoadSplits(headers, elf, bufs, stack, i);
    BufferCovers(h, buf, page);
    var u, s := BufferUpdate(h, buf), SegmentUpdate(h, elf, buf);
    assert u.flags == h.PageFlags();
    hide BitOr, Entry, SegmentUpdate, BufferUpdate, LoadUpdates, Follows;
    var k := |us| - 1;
    assert us + [s] + rest == us[..k] + [u] + ([s] + rest);
    DecidedBy(m, m', dir, us[..k], u, [s] + rest, page);
    DecidedFlags(u, page);
  }

  lemma BufferCovers(h: ProgramHeader, buf: nat, page: nat)
    requires buf + h.memsz + PAGE_SIZE <= WORD_LIMIT && buf % PAGE_SIZE == 0 && page < PAGES
    requires buf / PAGE_SIZE <= page && page * PAGE_SIZE < buf + h.memsz
    ensures BufferUpdate(h, buf).Covers(page) && BufferUpdate(h, buf).Frame(page) == page
  {
    AlignUpIsCeiling(buf + h.memsz);
    SpanFromAligned(buf, h.memsz);
    hide AlignUp, Span;
    var end := AlignUp(buf + h.memsz);
    assert end == end / PAGE_SIZE * PAGE_SIZE && buf == buf / PAGE_SIZE * PAGE_SIZE;
  }

  // What the program may do at byte k of a segment: read it and, exactly if the segment is
  // writable, write it.
  lemma LoadedSegmentAccess(m: Memory, m': Memory, dir: nat, headers: seq<ProgramHeader>, elf: nat, bufs: seq<nat>,
                            stack: nat, i: nat, k: nat, write: bool)
    requires dir + PAGE_SIZE <= WORD_LIMIT && PlanOk(headers, elf, bufs) && i < |headers| && k < headers[i].memsz
    requires stack / PAGE_SIZE < PAGES && Follows(m, m', dir, LoadUpdates(headers, elf, bufs, stack))
    requires PlanOk(headers[i + 1..], elf, bufs[i + 1..])
    requires Untouched(headers[i], LoadUpdates(headers[i + 1..], elf, bufs[i + 1..], stack))
    requires PlaceFits(headers[i], elf, bufs[i])
    requires headers[i].vaddr % PAGE_SIZE == Place(headers[i], elf, bufs[i]) % PAGE_SIZE
    requires AllOpen(m', dir)
    ensures UserAccess(m', dir, Address(headers[i], k), write)
            == if write && !headers[i].writable then None else Some(Place(headers[i], elf, bufs[i]) + k)
  {
    var h, buf := headers[i], bufs[i];
    var later := LoadUpdates(headers[i + 1..], elf, bufs[i + 1..], stack);
    hide Follows, AllOpen, Permits, UserAccess, Translate, Entry, SegmentUpdate, LoadUpdates, Place, PlaceFits;
    assert Uncovered(later, Page(h, k));
    ByteInRange(h, elf, buf, k);
    LoadedSegmentRight(m, m', dir, headers, elf, bufs, stack, i);
    LoadedSegmentFlags(m, m', dir, headers, elf, bufs, stack, i, Page(h, k));
    EntryDecides(m', dir, Address(h, k), write);
    UserFlags(write);
    hide Address;
  }

  lemma UserFlags(write: bool)
    ensures Permits(1 + 2 + 4, write) && (Permits(1 + 4, write) <==> !write)
  {
    assert Bit(7, 2) && Bit(7, 1) && Bit(5, 2) && !Bit(5, 1);
  }

  // The 16 KB below the initial stack pointer are the process stack, whatever the headers say,
  // and the program may read and write them.
  lemma LoadedStackRight(m: Memory, m': Memory, dir: nat, headers: seq<ProgramHeader>, elf: nat, bufs: seq<nat>,
                         stack: nat, va: Word)
    requires dir + PAGE_SIZE <= WORD_LIMIT && PlanOk(headers, elf, bufs) && 0x3F_B000 <= va < 0x3F_F000
    requires stack % PAGE_SIZE == 0 && stack + STACK_SIZE <= WORD_LIMIT
    requires Follows(m, m', dir, LoadUpdates(headers, elf, bufs, stack))
    ensures Translate(m', dir, va) == stack + (va - 0x3F_B000)
    ensures Entry(m', dir, va / PAGE_SIZE) % 0x1000 == 1 + 2 + 4
    ensures AllOpen(m', dir) ==> forall write :: UserAccess(m', dir, va, write) == Some(stack + (va - 0x3F_B000))
  {
    var u := StackUpdate(stack);
    StackPage(stack, va);
    hide Entry, BitOr, Plan, Translate, UserAccess, AllOpen, Permits, Follows;
    assert LoadUpdates(headers, elf, bufs, stack) == Plan(headers, elf, bufs) + [u] + [];
    DecidedBy(m, m', dir, Plan(headers, elf, bufs), u, [], va / PAGE_SIZE);
    DecidedFlags(u, va / PAGE_SIZE);
    TranslateThrough(m', dir, u, va);
    if AllOpen(m', dir) {
      forall write
        ensures UserAccess(m', dir, va, write) == Some(stack + (va - 0x3F_B000))
      {
        EntryDecides(m', dir, va, write);
        UserFlags(write);
      }
    }
  }

  lemma StackPage(stack: nat, va: Word)
    requires 0x3F_B000 <= va < 0x3F_F000 && stack % PAGE_SIZE == 0 && stack + STACK_SIZE <= WORD_LIMIT
    ensures var u := StackUpdate(stack);
            && u.Valid() && u.Covers(va / PAGE_SIZE) && u.flags == 7
            && u.Frame(va / PAGE_SIZE) * PAGE_SIZE + va % PAGE_SIZE == stack + (va - 0x3F_B000)
  {
    var d, q := va / PAGE_SIZE - 0x3FB, stack / PAGE_SIZE;
    assert stack == q * PAGE_SIZE && q + 4 <= PAGES;
    assert va == (0x3FB + d) * PAGE_SIZE + va % PAGE_SIZE && 0 <= d < 4;
  }
}
