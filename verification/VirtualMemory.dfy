/** Address spaces over physical memory: mapping zeroed frames, and writing through translation a page at a time. */
module VirtualMemory {
  import opened Outcome
  import opened Bytes
  import opened PageFrames
  import opened PhysicalMemory
  import opened UserMemory

  datatype MapError = OutOfMemory | OutOfMemoryForPml4 | KernelPml4NotInitialized | MapFailed | PageNotMapped

  /** Physical memory with its allocator; shared by all address spaces. */
  class Ram {
    const bytes: array<byte>
    const pmm: BitmapAllocator

    constructor (memory: array<byte>, allocator: BitmapAllocator)
      ensures bytes == memory && pmm == allocator
    {
      bytes, pmm := memory, allocator;
    }

    ghost predicate Valid()
      reads this, bytes, pmm, pmm.bitmap
    {
      pmm.Valid() && bytes.Length == pmm.totalPages * PAGE_SIZE && bytes as object != pmm.bitmap
    }

    /** Memory and free frames, with no address space in view. */
    ghost function Bare(): Space
      requires Valid()
      reads this, bytes, pmm, pmm.bitmap
    {
      Space(bytes[..], pmm.Pages(), map[])
    }

    method Store(at: nat, data: seq<byte>)
      requires at + |data| <= bytes.Length
      modifies bytes
      ensures bytes[..] == Splice(old(bytes[..]), at, data)
    {
      forall i | 0 <= i < |data| {
        bytes[at + i] := data[i];
      }
      assert bytes[..] == Splice(old(bytes[..]), at, data);
    }

    method Fill(at: nat, n: nat)
      requires at + n <= bytes.Length
      modifies bytes
      ensures bytes[..] == Splice(old(bytes[..]), at, Zeros(n))
    {
      forall i | at <= i < at + n {
        bytes[i] := 0;
      }
      assert bytes[..] == Splice(old(bytes[..]), at, Zeros(n));
    }
  }

  class AddressSpace {
    const ram: Ram
    const pml4: nat
    /** What the kernel's half of the top-level table maps. */
    const kernelPages: set<nat>
    /** The frames behind the mapped pages of the user half. */
    var pages: map<nat, nat>

    ghost function State(): Space
      requires ram.Valid()
      reads this, ram, ram.bytes, ram.pmm, ram.pmm.bitmap
    {
      Space(ram.bytes[..], ram.pmm.Pages(), pages)
    }

    ghost predicate Valid()
      reads this, ram, ram.bytes, ram.pmm, ram.pmm.bitmap
    {
      && ram.Valid() && SpaceOk(State(), ram.pmm.totalPages)
      && (forall p :: p in kernelPages ==> p >= KERNEL_START / PAGE_SIZE)
    }

    /** The user's view of its memory. */
    ghost function View(): Image
      requires ram.Valid()
      reads this, ram, ram.bytes, ram.pmm, ram.pmm.bitmap
    {
      ImageOf(ram.bytes[..], pages)
    }

    constructor (memory: Ram, pml4Addr: nat, kernelHalf: set<nat>)
      ensures ram == memory && pml4 == pml4Addr && kernelPages == kernelHalf && pages == map[]
    {
      ram, pml4, kernelPages, pages := memory, pml4Addr, kernelHalf, map[];
    }

    /** Takes a frame and zeroes it. */
    method ZeroedFrame() returns (addr: Option<nat>)
      requires Valid()
      modifies ram.bytes, ram.pmm`freePages, ram.pmm.bitmap
      ensures Valid() && Takes(old(State()), State())
      ensures addr.None? <==> old(State().free) == {}
      ensures addr.None? ==> State() == old(State())
      ensures addr.Some? ==> Zeroed(old(State()), State(), addr.value / PAGE_SIZE) && addr.value % PAGE_SIZE == 0
    {
      hide Splice, Zeros, ClearPages, FrameBytes;
      ghost var s := State();
      addr := ram.pmm.AllocPage();
      match addr {
        case None =>
        case Some(a) =>
          WholePage(a);
          FrameInRange(a / PAGE_SIZE, ram.pmm.totalPages, PAGE_SIZE);
          ram.Fill(a, PAGE_SIZE);
          TakenZeroed(s, ram.pmm.totalPages, a / PAGE_SIZE, State());
      }
    }

    /**
      What a page-table walk that inserts a mapping amounts to: up to three tables are missing on
      the way and are taken and zeroed, and then the last entry must be unused.
     */
    method MapTo(page: nat, frame: nat) returns (ok: bool)
      requires Valid() && frame < ram.pmm.totalPages && frame !in State().free && frame !in pages.Values
      modifies this`pages, ram.bytes, ram.pmm`freePages, ram.pmm.bitmap
      ensures Valid()
      ensures pages == if ok then old(pages)[page := frame] else old(pages)
      ensures Takes(old(State()), State().(pages := old(pages)))
      ensures ok ==> page !in old(pages)
      ensures !ok ==> page in old(pages) || |old(State().free)| < 3
    {
      hide ClearPages, FrameBytes, Splice;
      var missing: nat :| missing <= 3;
      ghost var s := State();
      for k := 0 to missing
        invariant Valid() && pages == old(pages)
        invariant Takes(s, State()) && |State().free| == |s.free| - k
      {
        ghost var mid := State();
        var table := ZeroedFrame();
        if table.None? {
          return false;
        }
        TakesTwice(s, mid, State());
      }
      if page in pages {
        return false;
      }
      ghost var t := State();
      assert frame !in t.free;
      pages := pages[page := frame];
      return true;
    }

    method MapPageAlloc(va: nat) returns (r: Result<nat, MapError>)
      requires Valid() && va < USER_END
      modifies this`pages, ram.bytes, ram.pmm`freePages, ram.pmm.bitmap
      ensures Valid() && Confined(old(State()), State())
      ensures r.Ok? ==> va / PAGE_SIZE !in old(pages) && View() == WithPage(old(View()), va / PAGE_SIZE)
      ensures r.Err? ==> View() == old(View()) && (va / PAGE_SIZE in old(pages) || |old(State().free)| < 4)
      ensures pages.Keys == old(pages.Keys) + (if r.Ok? then {va / PAGE_SIZE} else {})
    {
      hide ClearPages, FrameBytes, Splice, ByteOf, Zeros;
      ghost var s, total := State(), ram.pmm.totalPages;
      var addr := ZeroedFrame();
      match addr {
        case None => return Err(OutOfMemory);
        case Some(a) =>
          ghost var z, f := State(), a / PAGE_SIZE;
          var ok := MapTo(va / PAGE_SIZE, a / PAGE_SIZE);
          if !ok {
            TakesTwice(s, z, State());
            TakesKeepsImage(s, State(), total);
            return Err(MapFailed);
          }
          MappedZeroed(s, z, State(), va / PAGE_SIZE, f, total);
          return Ok(a);
      }
    }

    /** Copies `data` to `va`, page by page; stops at the first page that is not mapped. */
    method Write(va: nat, data: seq<byte>) returns (r: Result<(), MapError>, ghost done: nat)
      requires Valid() && va + |data| <= USER_END
      modifies ram.bytes
      ensures Valid() && Confined(old(State()), State()) && pages == old(pages)
      ensures Reaches(pages, va, |data|, done) && View() == Written(old(View()), va, data[..done])
      ensures r.Ok? <==> done == |data|
    {
      hide ClearPages, Splice, ImageOf, Written, Confined, AllMapped, SpaceOk;
      ghost var s, total := State(), ram.pmm.totalPages;
      WritesStart(s, va);
      var offset := 0;
      while offset < |data|
        invariant 0 <= offset <= |data|
        invariant Valid() && Confined(s, State())
        invariant AllMapped(pages, va, offset) && View() == Written(old(View()), va, data[..offset])
      {
        var current := va + offset;
        var pageOffset := current % PAGE_SIZE;
        var bytesInPage := if PAGE_SIZE - pageOffset < |data| - offset then PAGE_SIZE - pageOffset else |data| - offset;
        if current / PAGE_SIZE !in pages {
          return Err(PageNotMapped), offset;
        }
        var phys := Translate(pages, current);
        ghost var mid := State();
        ChunkStep(s, mid, total, va, data, offset, bytesInPage);
        ram.Store(phys, data[offset..offset + bytesInPage]);
        assert State() == mid.(phys := Splice(mid.phys, phys, data[offset..offset + bytesInPage]));
        offset := offset + bytesInPage;
      }
      return Ok(()), offset;
    }

    /** Zeroes `len` bytes at `va`, page by page; stops at the first page that is not mapped. */
    method Zero(va: nat, len: nat) returns (r: Result<(), MapError>, ghost done: nat)
      requires Valid() && va + len <= USER_END
      modifies ram.bytes
      ensures Valid() && Confined(old(State()), State()) && pages == old(pages)
      ensures Reaches(pages, va, len, done) && View() == Written(old(View()), va, Zeros(len)[..done])
      ensures r.Ok? <==> done == len
    {
      hide ClearPages, Splice, ImageOf, Written, Confined, AllMapped, SpaceOk;
      ghost var s, total := State(), ram.pmm.totalPages;
      WritesStart(s, va);
      var offset := 0;
      while offset < len
        invariant 0 <= offset <= len
        invariant Valid() && Confined(s, State())
        invariant AllMapped(pages, va, offset) && View() == Written(old(View()), va, Zeros(len)[..offset])
      {
        var current := va + offset;
        var pageOffset := current % PAGE_SIZE;
        var bytesInPage := if PAGE_SIZE - pageOffset < len - offset then PAGE_SIZE - pageOffset else len - offset;
        if current / PAGE_SIZE !in pages {
          return Err(PageNotMapped), offset;
        }
        var phys := Translate(pages, current);
        ghost var mid := State();
        ChunkStep(s, mid, total, va, Zeros(len), offset, bytesInPage);
        ram.Fill(phys, bytesInPage);
        assert Zeros(len)[offset..offset + bytesInPage] == Zeros(bytesInPage);
        assert State() == mid.(phys := Splice(mid.phys, phys, Zeros(bytesInPage)));
        offset := offset + bytesInPage;
      }
      return Ok(()), offset;
    }

    /** Either half counts. */
    method IsMapped(va: nat) returns (mapped: bool)
      requires Canonical(va)
      ensures mapped <==> va / PAGE_SIZE in pages || va / PAGE_SIZE in kernelPages
    {
      return va / PAGE_SIZE in pages || va / PAGE_SIZE in kernelPages;
    }
  }

  lemma WritesStart(s: Space, va: nat)
    ensures Confined(s, s) && AllMapped(s.pages, va, 0)
    ensures ImageOf(s.phys, s.pages) == Written(ImageOf(s.phys, s.pages), va, [])
  {
    WrittenNothing(ImageOf(s.phys, s.pages), va);
  }

  lemma WholePage(a: nat)
    requires a % PAGE_SIZE == 0
    ensures a == a / PAGE_SIZE * PAGE_SIZE
  {
  }

  lemma OtherFrameKept(phys: seq<byte>, f: nat, g: nat)
    requires (f + 1) * PAGE_SIZE <= |phys| && f != g
    ensures FrameBytes(Splice(phys, f * PAGE_SIZE, Zeros(PAGE_SIZE)), g) == FrameBytes(phys, g)
  {
  }

  /** Frame `f` was free, and is taken and all zeros. */
  ghost predicate Zeroed(s: Space, s': Space, f: nat) {
    && f in s.free && (f + 1) * PAGE_SIZE <= |s.phys|
    && s' == Space(Splice(s.phys, f * PAGE_SIZE, Zeros(PAGE_SIZE)), s.free - {f}, s.pages)
  }

  lemma TakenZeroed(s: Space, total: nat, f: nat, s': Space)
    requires SpaceOk(s, total) && Zeroed(s, s', f)
    ensures SpaceOk(s', total) && Takes(s, s')
  {
    hide FrameBytes, Splice;
    forall g: nat | g !in s.free ensures FrameBytes(s'.phys, g) == FrameBytes(s.phys, g) {
      OtherFrameKept(s.phys, f, g);
    }
    assert |s'.phys| == |s.phys| by { SpliceLength(s.phys, f * PAGE_SIZE); }
  }

  lemma SpliceLength(phys: seq<byte>, at: nat)
    requires at + PAGE_SIZE <= |phys|
    ensures |Splice(phys, at, Zeros(PAGE_SIZE))| == |phys|
  {
  }

  /** A frame zeroed in `z` and then mapped in `s'`. */
  lemma MappedZeroed(s: Space, z: Space, s': Space, page: nat, f: nat, total: nat)
    requires SpaceOk(s, total) && Zeroed(s, z, f) && SpaceOk(z, total) && Takes(s, z)
    requires Takes(z, s'.(pages := z.pages)) && s'.pages == z.pages[page := f] && page !in z.pages
    ensures Confined(s, s') && ImageOf(s'.phys, s'.pages) == WithPage(ImageOf(s.phys, s.pages), page)
  {
    hide FrameBytes, Splice, ByteOf, Zeros;
    TakesTwice(s, z, s'.(pages := z.pages));
    PageAdded(s, total, page, f);
    forall va: nat | va / PAGE_SIZE in s'.pages ensures ImageOf(s'.phys, s'.pages)[va] == ImageOf(z.phys, s'.pages)[va] {
      FrameInRange(s'.pages[va / PAGE_SIZE], total, PAGE_SIZE);
      SameFrameByte(z.phys, s'.phys, s'.pages[va / PAGE_SIZE], va % PAGE_SIZE);
    }
  }

  // ---- a new address space -----------------------------------------------------------------

  const HALF: nat := 2048  // 256 entries of 8 bytes

  lemma SpliceAppend(s: seq<byte>, at: nat, a: seq<byte>, b: seq<byte>)
    requires at + |a| + |b| <= |s|
    ensures Splice(Splice(s, at, a), at + |a|, b) == Splice(s, at, a + b)
  {
  }

  /** A frame that was free holds zeros and then the kernel's half of the top-level table. */
  lemma KernelHalfCopied(s: Space, total: nat, z: Space, f: nat, kernel: seq<byte>, s': Space)
    requires SpaceOk(s, total) && Zeroed(s, z, f) && SpaceOk(z, total) && Takes(s, z) && |kernel| == HALF
    requires s' == z.(phys := Splice(z.phys, f * PAGE_SIZE + HALF, kernel))
    ensures SpaceOk(s', total) && Takes(s, s') && FrameBytes(s'.phys, f) == Zeros(HALF) + kernel
  {
    hide SpaceOk;
    SpaceOkOfSize(z, s', total);
    assert Takes(s, s') by {
      hide FrameBytes;
      forall g: nat | g !in s.free ensures FrameBytes(s'.phys, g) == FrameBytes(s.phys, g) {
        SplicedFrameKept(z.phys, f, HALF, kernel, g);
      }
    }
    forall i: nat | i < PAGE_SIZE ensures FrameBytes(s'.phys, f)[i] == (Zeros(HALF) + kernel)[i] {
      SpliceAt(z.phys, f * PAGE_SIZE + HALF, kernel, f * PAGE_SIZE + i);
    }
  }

  lemma SpaceOkOfSize(z: Space, s': Space, total: nat)
    requires SpaceOk(z, total) && s'.free == z.free && s'.pages == z.pages && |s'.phys| == |z.phys|
    ensures SpaceOk(s', total)
  {
  }

  /** Copies the kernel's 256 entries, one at a time, behind the zeroed first half. */
  method CopyKernelHalf(ram: Ram, pml4: nat, kernel: nat, ghost f: nat)
    requires ram.Valid() && pml4 == f * PAGE_SIZE && f < ram.pmm.totalPages && kernel < ram.pmm.totalPages && f != kernel
    modifies ram.bytes
    ensures ram.Valid() && ram.pmm.Pages() == old(ram.pmm.Pages())
    ensures pml4 + PAGE_SIZE <= ram.bytes.Length && |FrameBytes(old(ram.bytes[..]), kernel)| == PAGE_SIZE
    ensures ram.bytes[..] == Splice(old(ram.bytes[..]), pml4 + HALF, FrameBytes(old(ram.bytes[..]), kernel)[HALF..])
  {
    hide ClearPages, Splice, FrameBytes;
    FrameInRange(f, ram.pmm.totalPages, PAGE_SIZE);
    FrameInRange(kernel, ram.pmm.totalPages, PAGE_SIZE);
    ghost var was := ram.bytes[..];
    ghost var table := FrameBytes(was, kernel);
    FrameSize(was, kernel);
    SpliceNothing(was, pml4 + HALF);
    for i := 256 to 512
      invariant ram.Valid() && ram.pmm.Pages() == old(ram.pmm.Pages())
      invariant ram.bytes[..] == Splice(was, pml4 + HALF, table[HALF..i * 8])
    {
      EntryCopied(was, f, kernel, ram.bytes[..], i);
      var entry := ram.bytes[kernel * PAGE_SIZE + i * 8..kernel * PAGE_SIZE + i * 8 + 8];
      assert entry == ram.bytes[..][kernel * PAGE_SIZE + i * 8..kernel * PAGE_SIZE + i * 8 + 8];
      ram.Store(pml4 + i * 8, entry);
    }
    assert table[HALF..512 * 8] == table[HALF..];
  }

  lemma FrameSlice(phys: seq<byte>, f: nat, lo: nat, hi: nat)
    requires (f + 1) * PAGE_SIZE <= |phys| && lo <= hi <= PAGE_SIZE
    ensures |FrameBytes(phys, f)| == PAGE_SIZE
    ensures FrameBytes(phys, f)[lo..hi] == phys[f * PAGE_SIZE + lo..f * PAGE_SIZE + hi]
  {
  }

  lemma FrameSize(phys: seq<byte>, f: nat)
    requires (f + 1) * PAGE_SIZE <= |phys|
    ensures |FrameBytes(phys, f)| == PAGE_SIZE
  {
  }

  /** The kernel's top-level table: its frame, and the pages that its upper half maps. */
  datatype KernelTable = KernelTable(frame: nat, pages: set<nat>)

  ghost predicate KernelTableOk(ram: Ram, kernel: Option<KernelTable>)
    requires ram.Valid()
    reads ram, ram.bytes, ram.pmm, ram.pmm.bitmap
  {
    kernel.Some? ==>
      && kernel.value.frame < ram.pmm.totalPages && kernel.value.frame !in ram.pmm.Pages()
      && (forall p :: p in kernel.value.pages ==> KERNEL_START / PAGE_SIZE <= p < U64 / PAGE_SIZE)
  }

  /**
    A fresh address space: no user page is mapped, and its top-level table has an empty user half
    and the kernel's entries in the other half.
   */
  method NewAddressSpace(ram: Ram, kernel: Option<KernelTable>) returns (r: Result<AddressSpace, MapError>)
    requires ram.Valid()
    requires KernelTableOk(ram, kernel)
    modifies ram.bytes, ram.pmm`freePages, ram.pmm.bitmap
    ensures ram.Valid() && Takes(old(ram.Bare()), ram.Bare())
    ensures r.Err? <==> old(ram.pmm.Pages()) == {} || kernel.None?
    ensures r.Err? ==> r.error == if old(ram.pmm.Pages()) == {} then OutOfMemoryForPml4 else KernelPml4NotInitialized
    ensures r.Ok? ==>
      && fresh(r.value) && r.value.ram == ram && r.value.Valid() && r.value.pages == map[]
      && r.value.kernelPages == kernel.value.pages
      && r.value.pml4 % PAGE_SIZE == 0 && r.value.pml4 / PAGE_SIZE in old(ram.pmm.Pages()) - ram.pmm.Pages()
      && |FrameBytes(old(ram.bytes[..]), kernel.value.frame)| == PAGE_SIZE
      && FrameBytes(ram.bytes[..], r.value.pml4 / PAGE_SIZE) ==
         Zeros(HALF) + FrameBytes(old(ram.bytes[..]), kernel.value.frame)[HALF..]
  {
    hide ClearPages, Splice, FrameBytes, SpaceOk, Takes;
    ghost var s, total := ram.Bare(), ram.pmm.totalPages;
    BareOk(s, ram.pmm.bitmap[..], total);
    TakesStart(s);
    var addr := ram.pmm.AllocPage();
    match addr {
      case None => return Err(OutOfMemoryForPml4);
      case Some(pml4) =>
        ghost var f := pml4 / PAGE_SIZE;
        WholePage(pml4);
        FreeBelow(s, total, f);
        FrameInRange(f, total, PAGE_SIZE);
        ram.Fill(pml4, PAGE_SIZE);
        ghost var z := ram.Bare();
        TakenZeroed(s, total, f, z);
        if kernel.None? {
          return Err(KernelPml4NotInitialized);
        }
        CopyKernelHalf(ram, pml4, kernel.value.frame, f);
        TakesFrame(s, z, total, kernel.value.frame);
        KernelHalfCopied(s, total, z, f, FrameBytes(z.phys, kernel.value.frame)[HALF..], ram.Bare());
        var space := new AddressSpace(ram, pml4, kernel.value.pages);
        return Ok(space);
    }
  }

  lemma BareOk(s: Space, bitmap: seq<bv8>, total: nat)
    requires total <= |bitmap| * 8 && s.free == ClearPages(bitmap, total) && s.pages == map[] && |s.phys| == total * PAGE_SIZE
    ensures SpaceOk(s, total)
  {
  }

  lemma TakesStart(s: Space)
    ensures Takes(s, s)
  {
  }

  lemma FreeBelow(s: Space, total: nat, f: nat)
    requires SpaceOk(s, total) && f in s.free
    ensures f < total
  {
  }

  lemma SpliceNothing(s: seq<byte>, at: nat)
    requires at <= |s|
    ensures Splice(s, at, []) == s
  {
  }

  lemma TakesFrame(s: Space, s': Space, total: nat, f: nat)
    requires Takes(s, s') && f !in s.free && f < total && |s.phys| == total * PAGE_SIZE
    ensures FrameBytes(s'.phys, f) == FrameBytes(s.phys, f)
    ensures (f + 1) * PAGE_SIZE <= |s.phys| && |s'.phys| == |s.phys|
    ensures FrameBytes(s'.phys, f) == s'.phys[f * PAGE_SIZE..(f + 1) * PAGE_SIZE]
  {
    FrameInRange(f, total, PAGE_SIZE);
  }

  lemma EntryKept(phys: seq<byte>, f: nat, kernel: nat, done: seq<byte>, i: nat)
    requires f != kernel && (f + 1) * PAGE_SIZE <= |phys| && (kernel + 1) * PAGE_SIZE <= |phys|
    requires 256 <= i < 512 && |done| == i * 8 - HALF
    ensures var at := kernel * PAGE_SIZE + i * 8;
      Splice(phys, f * PAGE_SIZE + HALF, done)[at..at + 8] == phys[at..at + 8]
  {
  }

  /** The kernel's entries are still there while the new table fills up, and one more is copied. */
  lemma EntryCopied(was: seq<byte>, f: nat, kernel: nat, now: seq<byte>, i: nat)
    requires f != kernel && (f + 1) * PAGE_SIZE <= |was| && (kernel + 1) * PAGE_SIZE <= |was| && 256 <= i < 512
    requires now == Splice(was, f * PAGE_SIZE + HALF, FrameBytes(was, kernel)[HALF..i * 8])
    ensures var at, entry := kernel * PAGE_SIZE + i * 8, FrameBytes(was, kernel)[i * 8..i * 8 + 8];
      && at + 8 <= |now| && now[at..at + 8] == entry
      && Splice(now, f * PAGE_SIZE + i * 8, entry) == Splice(was, f * PAGE_SIZE + HALF, FrameBytes(was, kernel)[HALF..(i + 1) * 8])
  {
    hide Splice, FrameBytes;
    var table := FrameBytes(was, kernel);
    FrameSlice(was, kernel, i * 8, i * 8 + 8);
    SpliceSize(was, f * PAGE_SIZE + HALF, table[HALF..i * 8]);
    SpliceAppend(was, f * PAGE_SIZE + HALF, table[HALF..i * 8], table[i * 8..i * 8 + 8]);
    assert table[HALF..i * 8] + table[i * 8..i * 8 + 8] == table[HALF..(i + 1) * 8];
    EntryKept(was, f, kernel, table[HALF..i * 8], i);
  }
}
