/** The loader of user programs: maps, copies and zero-fills one segment after the other. */
module ElfLoader {
  import opened Outcome
  import opened Bytes
  import opened PageFrames
  import opened PhysicalMemory
  import opened UserMemory
  import opened VirtualMemory
  import opened ElfImage

  datatype ElfError =
    | TooSmall
    | InvalidMagic
    | NotElf64
    | NotAmd64
    | ProgramHeaderOutOfBounds
    | SegmentDataOutOfBounds
    | Memory(error: MapError)

  const ELF_MAGIC: seq<byte> := [0x7f, 0x45, 0x4c, 0x46]

  ghost predicate SegmentsInside(elf: seq<byte>, n: nat) {
    |elf| >= HEADER_SIZE && (forall i: nat :: i < n ==> HeaderInside(elf, i)) && DataInside(elf, Segments(elf, n))
  }

  /** The pages of a segment, mapped where they are not yet. */
  method MapSegment(space: AddressSpace, s: Segment) returns (r: Result<(), MapError>)
    requires space.Valid() && s.vaddr + s.memsz <= USER_END
    modifies space`pages, space.ram.bytes, space.ram.pmm`freePages, space.ram.pmm.bitmap
    ensures space.Valid() && Confined(old(space.State()), space.State())
    ensures r.Ok? ==> space.View() == WithPages(old(space.View()), s.FirstPage(), s.EndPage())
    ensures r.Err? ==> |space.State().free| < 4
  {
    hide ClearPages, FrameBytes, ByteOf, Confined, SpaceOk, ImageOf, WithPages, WithPage;
    var startPage := s.vaddr - s.vaddr % PAGE_SIZE;
    var endAddr := s.vaddr + s.memsz;
    var endPage := endAddr + 0xFFF - (endAddr + 0xFFF) % PAGE_SIZE;
    WritesStart(space.State(), 0);
    var addr := startPage;
    ghost var page := s.FirstPage();
    WithPagesNone(space.View(), page);
    while addr < endPage
      invariant space.Valid() && Confined(old(space.State()), space.State())
      invariant addr == page * PAGE_SIZE && s.FirstPage() <= page && (page <= s.EndPage() || page == s.FirstPage())
      invariant space.View() == WithPages(old(space.View()), s.FirstPage(), page)
    {
      ghost var mid := space.State();
      var mapped := space.IsMapped(addr);
      WithPagesStep(old(space.View()), s.FirstPage(), page);
      if !mapped {
        var got := space.MapPageAlloc(addr);
        ConfinedTwice(old(space.State()), mid, space.State());
        if got.Err? {
          FewerFree(mid, space.State());
          return Err(got.error);
        }
      } else {
        MappedPageThere(mid, page);
      }
      addr, page := addr + 4096, page + 1;
    }
    WithPagesEnd(old(space.View()), s.FirstPage(), page, s.EndPage());
    return Ok(());
  }

  lemma FewerFree(s: Space, s': Space)
    requires Confined(s, s')
    ensures |s'.free| <= |s.free|
  {
    SubsetSize(s'.free, s.free);
  }

  lemma SubsetSize(a: set<nat>, b: set<nat>)
    requires a <= b
    ensures |a| <= |b|
  {
    assert b == a + (b - a);
  }

  lemma MappedPageThere(s: Space, page: nat)
    requires page in s.pages
    ensures WithPage(ImageOf(s.phys, s.pages), page) == ImageOf(s.phys, s.pages)
  {
    hide ByteOf, Translate;
  }

  lemma WithPagesEnd(m: Image, lo: nat, page: nat, hi: nat)
    requires page == hi || (page == lo && hi <= lo)
    ensures WithPages(m, lo, page) == WithPages(m, lo, hi)
  {
  }

  /** What a segment's stores leave, from the writing and zeroing steps. */
  lemma SegmentStored(m: Image, elf: seq<byte>, s: Segment, copied: Image, final: Image)
    requires s.segType == PT_LOAD && s.offset + s.filesz <= |elf|
    requires copied == Written(WithPages(m, s.FirstPage(), s.EndPage()), s.vaddr, elf[s.offset..s.offset + s.filesz])
    requires final == if s.memsz > s.filesz then Written(copied, s.vaddr + s.filesz, Zeros(s.memsz - s.filesz)) else copied
    ensures final == LoadedSegment(m, elf, s)
  {
  }

  lemma CopiedMapped(s: Space, seg: Segment)
    requires AllMapped(s.pages, seg.vaddr, seg.filesz)
    requires seg.memsz > seg.filesz ==> AllMapped(s.pages, seg.vaddr + seg.filesz, seg.memsz - seg.filesz)
    ensures forall va: nat :: seg.Covers(va) ==> va in ImageOf(s.phys, s.pages)
  {
    forall va: nat | seg.Covers(va) ensures va in ImageOf(s.phys, s.pages) {
      assert Mapped(s.pages, va);
    }
  }

  /** The memory bytes of a segment are mapped once its pages are. */
  lemma CoveredMapped(sp: Space, m: Image, s: Segment, a: nat)
    requires ImageOf(sp.phys, sp.pages) == WithPages(m, s.FirstPage(), s.EndPage())
    requires s.vaddr <= a < s.vaddr + s.memsz
    ensures Mapped(sp.pages, a)
  {
    PageBounds(a / PAGE_SIZE, s.vaddr + s.memsz);
    assert a in WithPages(m, s.FirstPage(), s.EndPage());
  }

  /** One PT_LOAD segment. */
  method LoadSegment(elf: seq<byte>, space: AddressSpace, s: Segment) returns (r: Result<(), ElfError>)
    requires space.Valid() && s.segType == PT_LOAD && s.vaddr + s.Extent() <= USER_END
    modifies space`pages, space.ram.bytes, space.ram.pmm`freePages, space.ram.pmm.bitmap
    ensures space.Valid() && Confined(old(space.State()), space.State())
    ensures r.Ok? ==> s.offset + s.filesz <= |elf| && space.View() == LoadedSegment(old(space.View()), elf, s)
    ensures r.Ok? ==> forall va: nat :: s.Covers(va) ==> va in space.View()
    ensures r.Err? ==> match r.error
      case SegmentDataOutOfBounds => s.offset + s.filesz > |elf|
      case Memory(_) => |space.State().free| < 4 || s.filesz > s.memsz
      case _ => false
  {
    hide ClearPages, FrameBytes, ByteOf, Confined, SpaceOk, ImageOf, WithPages, Written, LoadedSegment, AllMapped;
    ghost var start := space.State();
    var mapped := MapSegment(space, s);
    if mapped.Err? {
      return Err(Memory(mapped.error));
    }
    var fileStart := s.offset;
    var fileEnd := fileStart + s.filesz;
    if fileEnd > |elf| {
      return Err(SegmentDataOutOfBounds);
    }
    ghost var mid := space.State();
    WritesStart(mid, s.vaddr);
    assert elf[fileStart..fileEnd] == [] <==> s.filesz == 0;
    if s.filesz > 0 {
      var data := elf[fileStart..fileEnd];
      var copied, done := space.Write(s.vaddr, data);
      ConfinedTwice(start, mid, space.State());
      if copied.Err? {
        if s.filesz <= s.memsz {
          CoveredMapped(mid, ImageOf(start.phys, start.pages), s, s.vaddr + done);
        }
        return Err(Memory(copied.error));
      }
      assert data[..done] == data;
    }
    ghost var image, later := space.View(), space.State();
    if s.memsz > s.filesz {
      var zeroed, done := space.Zero(s.vaddr + s.filesz, s.memsz - s.filesz);
      ConfinedTwice(start, later, space.State());
      if zeroed.Err? {
        CoveredMapped(mid, ImageOf(start.phys, start.pages), s, s.vaddr + s.filesz + done);
        return Err(Memory(zeroed.error));
      }
      assert Zeros(s.memsz - s.filesz)[..done] == Zeros(s.memsz - s.filesz);
    }
    SegmentStored(ImageOf(start.phys, start.pages), elf, s, image, space.View());
    CopiedMapped(space.State(), s);
    return Ok(());
  }

  lemma MoreSegments(elf: seq<byte>, n: nat)
    requires |elf| >= HEADER_SIZE && forall i: nat :: i < n + 1 ==> HeaderInside(elf, i)
    ensures Segments(elf, n + 1)[..n] == Segments(elf, n) && Segments(elf, n + 1)[n] == SegmentAt(elf, n)
  {
  }

  /** One more program header handled. */
  lemma LoadedMore(m: Image, elf: seq<byte>, n: nat, view: Image)
    requires SegmentsInside(elf, n) && HeaderInside(elf, n)
    requires var s := SegmentAt(elf, n); s.segType == PT_LOAD ==> s.offset + s.filesz <= |elf|
    requires view == LoadedSegment(Loaded(m, elf, Segments(elf, n)), elf, SegmentAt(elf, n))
    requires Stored(m, elf, Segments(elf, n)) && forall va: nat :: SegmentAt(elf, n).Covers(va) ==> va in view
    ensures SegmentsInside(elf, n + 1) && view == Loaded(m, elf, Segments(elf, n + 1)) && Stored(m, elf, Segments(elf, n + 1))
  {
    hide LoadedSegment, HeaderInside, SegmentAt, Segment.Covers;
    MoreSegments(elf, n);
  }

  lemma NothingLoaded(m: Image, elf: seq<byte>)
    requires |elf| >= HEADER_SIZE
    ensures SegmentsInside(elf, 0) && Loaded(m, elf, Segments(elf, 0)) == m && Stored(m, elf, Segments(elf, 0))
  {
  }

  lemma StartWithin(h: Header, i: nat)
    ensures h.Start(i) == h.phOffset + i * h.phSize
  {
  }

  lemma NonLoadSegment(m: Image, elf: seq<byte>, s: Segment)
    requires s.segType != PT_LOAD
    ensures LoadedSegment(m, elf, s) == m && forall va: nat :: !s.Covers(va)
  {
  }

  ghost predicate HeaderAccepted(elf: seq<byte>) {
    && |elf| >= HEADER_SIZE && ReadHeader(elf).magic == ELF_MAGIC && ReadHeader(elf).class_ == 2
    && ReadHeader(elf).machine == 0x3E
  }

  /** The files accepted: 0x7F "ELF", 64 bits, AMD64. */
  lemma AcceptedExactly(elf: seq<byte>)
    ensures HeaderAccepted(elf) <==>
      && |elf| >= 64 && elf[0] == 0x7F && elf[1] == 'E' as int && elf[2] == 'L' as int && elf[3] == 'F' as int
      && elf[4] == 2 && LeValue(elf[18..20]) == 62
  {
    hide LeValue, ReadHeader;
    if |elf| >= 64 {
      HeaderIsBytes(elf);
      assert elf[..4] == [elf[0], elf[1], elf[2], elf[3]];
    }
  }

  /** The cause of each error, with `free` frames left. */
  ghost predicate LoadFails(elf: seq<byte>, e: ElfError, free: nat) {
    match e
    case TooSmall => |elf| < HEADER_SIZE
    case InvalidMagic => |elf| >= HEADER_SIZE && ReadHeader(elf).magic != ELF_MAGIC
    case NotElf64 => |elf| >= HEADER_SIZE && ReadHeader(elf).class_ != 2
    case NotAmd64 => |elf| >= HEADER_SIZE && ReadHeader(elf).machine != 0x3E
    case ProgramHeaderOutOfBounds => HeaderAccepted(elf) && exists i: nat :: i < ReadHeader(elf).phNum && !HeaderInside(elf, i)
    case SegmentDataOutOfBounds => HeaderAccepted(elf) && !SegmentsInside(elf, ReadHeader(elf).phNum)
    case Memory(_) =>
      HeaderAccepted(elf) &&
      (free < 4 ||
       exists i: nat :: i < ReadHeader(elf).phNum && HeaderInside(elf, i)
         && SegmentAt(elf, i).segType == PT_LOAD && SegmentAt(elf, i).filesz > SegmentAt(elf, i).memsz)
  }

  /**
    Loads an executable. On success the user's memory is the one built from the segments in
    order; whatever happens, only this address space and free frames change.
   */
  method LoadInto(elf: seq<byte>, space: AddressSpace) returns (r: Result<nat, ElfError>)
    requires Sane(elf) && space.Valid()
    modifies space`pages, space.ram.bytes, space.ram.pmm`freePages, space.ram.pmm.bitmap
    ensures space.Valid() && Confined(old(space.State()), space.State())
    ensures r.Ok? ==>
      && HeaderAccepted(elf) && r.value == ReadHeader(elf).entry && SegmentsInside(elf, ReadHeader(elf).phNum)
      && space.View() == Loaded(old(space.View()), elf, Segments(elf, ReadHeader(elf).phNum))
      && Stored(old(space.View()), elf, Segments(elf, ReadHeader(elf).phNum))
    ensures r.Err? ==> LoadFails(elf, r.error, |space.State().free|)
  {
    hide ClearPages, FrameBytes, ByteOf, Confined, SpaceOk, ImageOf, LoadedSegment, Loaded, Stored, ReadSegment, Field16, Field32, Field64;
    WritesStart(space.State(), 0);
    if |elf| < HEADER_SIZE {
      return Err(TooSmall);
    }
    var header := ReadHeader(elf);
    if header.magic != ELF_MAGIC {
      return Err(InvalidMagic);
    }
    if header.class_ != 2 {
      return Err(NotElf64);
    }
    if header.machine != 0x3E {
      return Err(NotAmd64);
    }
    ghost var m := space.View();
    NothingLoaded(m, elf);
    for i := 0 to header.phNum
      invariant space.Valid() && Confined(old(space.State()), space.State())
      invariant SegmentsInside(elf, i) && space.View() == Loaded(m, elf, Segments(elf, i)) && Stored(m, elf, Segments(elf, i))
    {
      StartWithin(header, i);
      var phStart := header.phOffset + i * header.phSize;
      if phStart + header.phSize > |elf| {
        assert !HeaderInside(elf, i);
        return Err(ProgramHeaderOutOfBounds);
      }
      assert HeaderInside(elf, i);
      var ph := ReadSegment(elf, phStart);
      if ph.segType != PT_LOAD {
        NonLoadSegment(space.View(), elf, ph);
        LoadedMore(m, elf, i, space.View());
        continue;
      }
      ghost var mid := space.State();
      var loaded := LoadSegment(elf, space, ph);
      ConfinedTwice(old(space.State()), mid, space.State());
      if loaded.Err? {
        DataNotInside(elf, i, header.phNum);
        return Err(loaded.error);
      }
      LoadedMore(m, elf, i, space.View());
    }
    return Ok(header.entry);
  }

  lemma DataNotInside(elf: seq<byte>, i: nat, n: nat)
    requires |elf| >= HEADER_SIZE && i < n && HeaderInside(elf, i)
    ensures SegmentAt(elf, i).segType == PT_LOAD && SegmentAt(elf, i).offset + SegmentAt(elf, i).filesz > |elf| ==> !SegmentsInside(elf, n)
  {
    if SegmentsInside(elf, n) {
      assert Segments(elf, n)[i] == SegmentAt(elf, i);
    }
  }

  lemma TakesShrinks(s: Space, s': Space)
    requires Takes(s, s')
    ensures s'.free <= s.free && |s'.free| <= |s.free|
  {
    SubsetSize(s'.free, s.free);
  }

  // ---- a process image ---------------------------------------------------------------------

  datatype SpawnError =
    | NoSpace(e: MapError)
    | NotLoaded(elfError: ElfError)
    | EntryNotCanonical  // the kernel panics when it makes an address of the entry point
    | EntryNotMapped
    | NoStack(stackError: MapError)

  datatype Spawned = Spawned(space: AddressSpace, entry: nat, stackTop: nat)

  const STACK_TOP_PAGE: nat := 0x7F_FFFF
  const STACK_PAGES: nat := 4

  /** The user stack: the last four pages below the top, all zeros. */
  ghost function WithStack(m: Image): Image {
    WithPages(m, STACK_TOP_PAGE + 1 - STACK_PAGES, STACK_TOP_PAGE + 1)
  }

  predicate InStack(a: nat) {
    STACK_TOP_PAGE + 1 - STACK_PAGES <= a / PAGE_SIZE <= STACK_TOP_PAGE
  }

  /** One more stack page, which nothing had mapped. */
  lemma StackStep(m: Image, sp: Space, n: nat)
    requires n < STACK_PAGES && STACK_TOP_PAGE - n !in sp.pages
    requires ImageOf(sp.phys, sp.pages) == WithPages(m, STACK_TOP_PAGE + 1 - n, STACK_TOP_PAGE + 1)
    ensures WithPage(ImageOf(sp.phys, sp.pages), STACK_TOP_PAGE - n) == WithPages(m, STACK_TOP_PAGE - n, STACK_TOP_PAGE + 1)
    ensures forall a: nat :: a / PAGE_SIZE == STACK_TOP_PAGE - n ==> a !in m
  {
    hide ByteOf;
    forall a: nat | a / PAGE_SIZE == STACK_TOP_PAGE - n ensures a !in m {
      assert a !in ImageOf(sp.phys, sp.pages);
      assert a !in WithPages(m, STACK_TOP_PAGE + 1 - n, STACK_TOP_PAGE + 1);
    }
  }

  /** A stack page that is mapped before its turn was mapped by the executable. */
  lemma StackTaken(m: Image, sp: Space, n: nat)
    requires n < STACK_PAGES && STACK_TOP_PAGE - n in sp.pages
    requires ImageOf(sp.phys, sp.pages) == WithPages(m, STACK_TOP_PAGE + 1 - n, STACK_TOP_PAGE + 1)
    ensures InStack((STACK_TOP_PAGE - n) * PAGE_SIZE) && (STACK_TOP_PAGE - n) * PAGE_SIZE in m
  {
    hide ByteOf;
    PageOfAddress(STACK_TOP_PAGE - n);
    assert (STACK_TOP_PAGE - n) * PAGE_SIZE in ImageOf(sp.phys, sp.pages);
  }

  method MapStack(space: AddressSpace) returns (r: Result<(), SpawnError>)
    requires space.Valid()
    modifies space`pages, space.ram.bytes, space.ram.pmm`freePages, space.ram.pmm.bitmap
    ensures space.Valid() && Confined(old(space.State()), space.State())
    ensures r.Ok? ==> space.View() == WithStack(old(space.View()))
    ensures r.Ok? ==> forall a: nat :: InStack(a) ==> a !in old(space.View())
    ensures r.Err? ==> r.error.NoStack?
    ensures r.Err? ==> |space.State().free| < 4 || exists a: nat :: InStack(a) && a in old(space.View())
  {
    hide ClearPages, Confined, SpaceOk, ImageOf, WithPages, WithPage;
    ghost var start, m := space.State(), space.View();
    WritesStart(start, 0);
    WithPagesNone(m, STACK_TOP_PAGE + 1);
    for i := 0 to STACK_PAGES
      invariant space.Valid() && Confined(start, space.State())
      invariant space.View() == WithPages(m, STACK_TOP_PAGE + 1 - i, STACK_TOP_PAGE + 1)
      invariant forall a: nat :: STACK_TOP_PAGE - i < a / PAGE_SIZE <= STACK_TOP_PAGE ==> a !in m
    {
      ghost var mid := space.State();
      PageOfAddress(STACK_TOP_PAGE - i);
      var page := space.MapPageAlloc((STACK_TOP_PAGE - i) * PAGE_SIZE);
      ConfinedTwice(start, mid, space.State());
      if page.Err? {
        FewerFree(mid, space.State());
        if STACK_TOP_PAGE - i in mid.pages {
          StackTaken(m, mid, i);
        }
        return Err(NoStack(page.error));
      }
      StackStep(m, mid, i);
    }
    return Ok(());
  }

  lemma FreshView(phys: seq<byte>)
    ensures ImageOf(phys, map[]) == imap[]
  {
  }

  /** What the loaded image tells about addresses in it and about the stack's place. */
  lemma SpawnedImage(elf: seq<byte>, segments: seq<Segment>)
    requires DataInside(elf, segments) && Stored(imap[], elf, segments)
    ensures STACK_TOP_PAGE * PAGE_SIZE + 4096 - 8 in WithStack(Loaded(imap[], elf, segments))
    ensures forall a: nat :: a in Loaded(imap[], elf, segments) <==> InPages(segments, a)
  {
    hide Loaded, Stored, InPages;
    forall a: nat ensures a in Loaded(imap[], elf, segments) <==> InPages(segments, a) {
      LoadedBytes(imap[], elf, segments, a);
    }
  }

  /** The stack as addresses: sixteen kilobytes, the last eight of them from the first stack pointer on. */
  lemma StackPlace(a: nat)
    ensures InStack(a) <==> 0x7_FFFF_FFF8 + 8 - 16384 <= a < 0x7_FFFF_FFF8 + 8
  {
  }

  lemma StackIsZero(m: Image, a: nat)
    requires InStack(a) && a !in m
    ensures a in WithStack(m) && WithStack(m)[a] == 0
  {
  }

  /** Looking up the page of the entry point. */
  lemma EntryPage(s: Space, a: nat)
    requires a < U64
    ensures Canonical(a - a % PAGE_SIZE) <==> Canonical(a)
    ensures (a - a % PAGE_SIZE) / PAGE_SIZE == a / PAGE_SIZE
    ensures a / PAGE_SIZE in s.pages <==> a in ImageOf(s.phys, s.pages)
  {
    hide ByteOf, Translate;
  }

  /** The cause of each failure to start a process, with `free` frames left. */
  ghost predicate SpawnFails(elf: seq<byte>, kernel: Option<KernelTable>, e: SpawnError, free: nat) {
    match e
    case NoSpace(cause) => (cause == OutOfMemoryForPml4 && free == 0) || (cause == KernelPml4NotInitialized && kernel.None?)
    case NotLoaded(cause) => LoadFails(elf, cause, free)
    case EntryNotCanonical => HeaderAccepted(elf) && !Canonical(ReadHeader(elf).entry)
    case EntryNotMapped => Started(elf) && Canonical(ReadHeader(elf).entry) && !EntryMapped(elf, kernel)
    case NoStack(_) => Started(elf) && (free < 4 || exists a: nat :: InStack(a) && InPages(Segments(elf, ReadHeader(elf).phNum), a))
  }

  ghost predicate Started(elf: seq<byte>) {
    HeaderAccepted(elf) && SegmentsInside(elf, ReadHeader(elf).phNum)
  }

  /** The entry point lies in a page of a segment, or in one that the kernel's half maps. */
  ghost predicate EntryMapped(elf: seq<byte>, kernel: Option<KernelTable>)
    requires Started(elf)
  {
    || InPages(Segments(elf, ReadHeader(elf).phNum), ReadHeader(elf).entry)
    || (kernel.Some? && ReadHeader(elf).entry / PAGE_SIZE in kernel.value.pages)
  }

  /** With fewer frames left a failure has the same cause. */
  lemma StillFails(elf: seq<byte>, kernel: Option<KernelTable>, e: SpawnError, free: nat, fewer: nat)
    requires SpawnFails(elf, kernel, e, free) && fewer <= free
    ensures SpawnFails(elf, kernel, e, fewer)
  {
    hide ReadHeader, HeaderInside, SegmentAt, SegmentsInside, HeaderAccepted, InPages;
  }

  /** From a fresh address space on, every other frame in use keeps its bytes. */
  lemma SpawnedApart(s: Space, fresh_: Space, s': Space)
    requires s.pages == map[] && fresh_.pages == map[] && Takes(s, fresh_) && Confined(fresh_, s')
    ensures Takes(s, s'.(pages := map[]))
    ensures forall p :: p in s'.pages ==> s'.pages[p] in s.free
  {
  }

  /** The entry point in the user half lies in a segment's page, one in the kernel half in a page of the kernel's. */
  lemma EntryHalf(elf: seq<byte>, kernel: KernelTable)
    requires Started(elf) && EntryMapped(elf, Some(kernel))
    requires forall p :: p in kernel.pages ==> KERNEL_START / PAGE_SIZE <= p
    ensures ReadHeader(elf).entry < USER_END ==> InPages(Segments(elf, ReadHeader(elf).phNum), ReadHeader(elf).entry)
  {
    hide ReadHeader, InPages, Segments, SegmentsInside, HeaderAccepted;
  }

  /**
    Builds the memory of a new process: a fresh address space, the executable, four stack pages.
    Whatever happens, no frame that was in use before changes. An entry point in the kernel half
    is let through when the kernel maps its page.
   */
  method SpawnElf(elf: seq<byte>, ram: Ram, kernel: Option<KernelTable>) returns (r: Result<Spawned, SpawnError>)
    requires Sane(elf) && ram.Valid() && KernelTableOk(ram, kernel)
    modifies ram.bytes, ram.pmm`freePages, ram.pmm.bitmap
    ensures ram.Valid() && Takes(old(ram.Bare()), ram.Bare())
    ensures r.Err? ==> SpawnFails(elf, kernel, r.error, |ram.pmm.Pages()|)
    ensures r.Ok? ==>
      && var space := r.value.space;
      fresh(space) && space.ram == ram && space.Valid() && Started(elf)
      && space.View() == WithStack(Loaded(imap[], elf, Segments(elf, ReadHeader(elf).phNum)))
      && Stored(imap[], elf, Segments(elf, ReadHeader(elf).phNum))
      && r.value.stackTop in space.View()
      && (forall p :: p in space.pages ==> space.pages[p] in old(ram.pmm.Pages()))
    ensures r.Ok? ==>
      && r.value.entry == ReadHeader(elf).entry && Canonical(r.value.entry) && EntryMapped(elf, kernel)
      && (r.value.entry < USER_END ==> InPages(Segments(elf, ReadHeader(elf).phNum), r.value.entry))
      && (forall a: nat :: InStack(a) ==> !InPages(Segments(elf, ReadHeader(elf).phNum), a))
    ensures r.Ok? ==>
      && r.value.stackTop == 0x7_FFFF_FFF8
      && forall a: nat :: r.value.stackTop + 8 - 16384 <= a < r.value.stackTop + 8 ==>
           a in r.value.space.View() && r.value.space.View()[a] == 0
           && !InPages(Segments(elf, ReadHeader(elf).phNum), a)
  {
    hide ClearPages, FrameBytes, ByteOf, Confined, SpaceOk, ImageOf, LoadedSegment, Loaded, Stored, HeaderInside;
    hide InPages, Takes, WithPages, WithPage, SegmentAt, Field16, Field32, LoadFails, WithStack, Segments, InStack;
    ghost var s := ram.Bare();
    var made := NewAddressSpace(ram, kernel);
    if made.Err? {
      TakesShrinks(s, ram.Bare());
      return Err(NoSpace(made.error));
    }
    var space := made.value;
    ghost var start := space.State();
    FreshView(start.phys);
    var loaded := LoadInto(elf, space);
    SpawnedApart(s, start, space.State());
    if loaded.Err? {
      return Err(NotLoaded(loaded.error));
    }
    var entry := loaded.value;
    ghost var segments := Segments(elf, ReadHeader(elf).phNum);
    ghost var mid := space.State();
    SpawnedImage(elf, segments);
    EntryPage(mid, entry);
    if !Canonical(entry - entry % PAGE_SIZE) {
      return Err(EntryNotCanonical);
    }
    var entryMapped := space.IsMapped(entry - entry % PAGE_SIZE);
    if !entryMapped {
      return Err(EntryNotMapped);
    }
    EntryHalf(elf, kernel.value);
    var stack := MapStack(space);
    ConfinedTwice(start, mid, space.State());
    SpawnedApart(s, start, space.State());
    if stack.Err? {
      return Err(stack.error);
    }
    forall a: nat | 0x7_FFFF_FFF8 + 8 - 16384 <= a < 0x7_FFFF_FFF8 + 8
      ensures InStack(a) && a in space.View() && space.View()[a] == 0
    {
      StackPlace(a);
      StackIsZero(Loaded(imap[], elf, segments), a);
    }
    return Ok(Spawned(space, entry, STACK_TOP_PAGE * PAGE_SIZE + 4096 - 8));
  }

  // ---- many processes ----------------------------------------------------------------------

  /** The memory of a process started from this file. */
  ghost function ProcessImage(elf: seq<byte>): Image
    requires HeaderAccepted(elf) && SegmentsInside(elf, ReadHeader(elf).phNum)
  {
    WithStack(Loaded(imap[], elf, Segments(elf, ReadHeader(elf).phNum)))
  }

  /** An address space that was there before sees the same bytes after frames are taken. */
  lemma TakesKeepsOther(s: Space, s': Space, pages: map<nat, nat>, total: nat)
    requires Takes(s, s') && SpaceOk(s.(pages := pages), total)
    ensures SpaceOk(s'.(pages := pages), total) && ImageOf(s'.phys, pages) == ImageOf(s.phys, pages)
  {
    TakesKeepsImage(s.(pages := pages), s'.(pages := pages), total);
  }

  /** Two address spaces share no frame. */
  ghost predicate FramesApart(a: map<nat, nat>, b: map<nat, nat>) {
    forall p, q :: p in a && q in b ==> a[p] != b[q]
  }

  lemma OldFramesApart(s: Space, total: nat, pages: map<nat, nat>)
    requires SpaceOk(s, total) && forall p :: p in pages ==> pages[p] in s.free
    ensures FramesApart(s.pages, pages)
  {
  }

  /** A started process has the memory its file describes. */
  ghost predicate HasImage(elf: seq<byte>, space: AddressSpace)
    reads space, space.ram, space.ram.bytes, space.ram.pmm, space.ram.pmm.bitmap
  {
    && space.Valid() && HeaderAccepted(elf) && SegmentsInside(elf, ReadHeader(elf).phNum)
    && space.View() == ProcessImage(elf)
  }

  /**
    Starting any number of processes: at the end each one that started has exactly the memory its
    own file describes, no two share a frame, and each that did not failed for its own cause.
   */
  method SpawnAll(elves: seq<seq<byte>>, ram: Ram, kernel: Option<KernelTable>)
      returns (results: seq<Result<Spawned, SpawnError>>)
    requires ram.Valid() && KernelTableOk(ram, kernel) && forall i :: 0 <= i < |elves| ==> Sane(elves[i])
    modifies ram.bytes, ram.pmm`freePages, ram.pmm.bitmap
    ensures ram.Valid() && |results| == |elves|
    ensures forall k :: 0 <= k < |results| && results[k].Ok? ==>
      HasImage(elves[k], results[k].value.space) && results[k].value.entry == ReadHeader(elves[k]).entry
    ensures forall k :: 0 <= k < |results| && results[k].Err? ==>
      SpawnFails(elves[k], kernel, results[k].error, |ram.pmm.Pages()|)
    ensures forall i, k :: 0 <= i < k < |results| && results[i].Ok? && results[k].Ok? ==>
      FramesApart(results[i].value.space.pages, results[k].value.space.pages)
  {
    hide ClearPages, FrameBytes, ByteOf, Confined, ImageOf, Loaded, Stored, ReadHeader, HeaderInside;
    hide InPages, Takes, WithPages, SegmentsInside, SpaceOk, SpawnFails, EntryMapped;
    results := [];
    for n := 0 to |elves|
      invariant ram.Valid() && KernelTableOk(ram, kernel) && |results| == n
      invariant forall k :: 0 <= k < n && results[k].Ok? ==>
        fresh(results[k].value.space) && results[k].value.space.ram == ram
        && HasImage(elves[k], results[k].value.space) && results[k].value.entry == ReadHeader(elves[k]).entry
      invariant forall k :: 0 <= k < n && results[k].Err? ==> SpawnFails(elves[k], kernel, results[k].error, |ram.pmm.Pages()|)
      invariant forall i, k :: 0 <= i < k < n && results[i].Ok? && results[k].Ok? ==>
        FramesApart(results[i].value.space.pages, results[k].value.space.pages)
    {
      ghost var s := ram.Bare();
      var made := SpawnElf(elves[n], ram, kernel);
      TakesShrinks(s, ram.Bare());
      forall k | 0 <= k < n && results[k].Ok? ensures HasImage(elves[k], results[k].value.space) {
        TakesKeepsOther(s, ram.Bare(), results[k].value.space.pages, ram.pmm.totalPages);
      }
      forall k | 0 <= k < n && results[k].Err? ensures SpawnFails(elves[k], kernel, results[k].error, |ram.pmm.Pages()|) {
        StillFails(elves[k], kernel, results[k].error, |s.free|, |ram.pmm.Pages()|);
      }
      if made.Ok? {
        forall k | 0 <= k < n && results[k].Ok? ensures FramesApart(results[k].value.space.pages, made.value.space.pages) {
          OldFramesApart(s.(pages := results[k].value.space.pages), ram.pmm.totalPages, made.value.space.pages);
        }
      }
      results := results + [made];
    }
  }
}
