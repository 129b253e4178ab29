/** The bitmap allocator of physical pages: one bit a page, set when the page is taken. */
module PhysicalMemory {
  import opened Bytes
  import opened Outcome
  import opened PageFrames

  // ---- bits -------------------------------------------------------------------------------

  function Mask(i: nat): bv8
    requires i < 8
  {
    1 << i
  }

  predicate BitOf(b: bv8, i: nat)
    requires i < 8
  {
    b & Mask(i) != 0
  }

  lemma MaskValue(i: nat)
    requires i < 8
    ensures Mask(i) == [1, 2, 4, 8, 16, 32, 64, 128][i]
  {
  }

  lemma OrSets(b: bv8, i: nat, j: nat)
    requires i < 8 && j < 8
    ensures BitOf(b | Mask(i), j) <==> i == j || BitOf(b, j)
  {
    hide Mask;
    MaskValue(i);
    MaskValue(j);
  }

  lemma AndClears(b: bv8, i: nat, j: nat)
    requires i < 8 && j < 8
    ensures BitOf(b & !Mask(i), j) <==> i != j && BitOf(b, j)
  {
    hide Mask;
    MaskValue(i);
    MaskValue(j);
  }

  lemma AllOnes(i: nat)
    requires i < 8
    ensures BitOf(0xff, i)
  {
    hide Mask;
    MaskValue(i);
  }

  predicate PageBit(bitmap: seq<bv8>, page: nat)
    requires page / 8 < |bitmap|
  {
    BitOf(bitmap[page / 8], page % 8)
  }

  /** Setting or clearing one bit changes that bit only. */
  lemma OneBitChanged(before: seq<bv8>, after: seq<bv8>, bit: nat, page: nat, isSet: bool)
    requires bit / 8 < |before| && page / 8 < |before|
    requires after == before[bit / 8 := if isSet then before[bit / 8] | Mask(bit % 8) else before[bit / 8] & !Mask(bit % 8)]
    ensures PageBit(after, page) <==> if page == bit then isSet else PageBit(before, page)
  {
    hide BitOf, Mask;
    OrSets(before[bit / 8], bit % 8, page % 8);
    AndClears(before[bit / 8], bit % 8, page % 8);
    assert page == bit <==> page / 8 == bit / 8 && page % 8 == bit % 8;
  }

  /** The pages below `total` whose bit is clear. */
  ghost function ClearPages(bitmap: seq<bv8>, total: nat): set<nat>
    requires total <= |bitmap| * 8
  {
    set p: nat | p < total && !PageBit(bitmap, p)
  }

  lemma SetTakes(before: seq<bv8>, after: seq<bv8>, total: nat, bit: nat)
    requires total <= |before| * 8 && bit / 8 < |before|
    requires after == before[bit / 8 := before[bit / 8] | Mask(bit % 8)]
    ensures ClearPages(after, total) == ClearPages(before, total) - {bit}
  {
    hide PageBit, Mask;
    forall p: nat | p < total ensures PageBit(after, p) <==> p == bit || PageBit(before, p) {
      OneBitChanged(before, after, bit, p, true);
    }
  }

  lemma ClearFrees(before: seq<bv8>, after: seq<bv8>, total: nat, bit: nat)
    requires total <= |before| * 8 && bit < total
    requires after == before[bit / 8 := before[bit / 8] & !Mask(bit % 8)]
    ensures ClearPages(after, total) == ClearPages(before, total) + {bit}
  {
    hide PageBit, Mask;
    forall p: nat | p < total ensures PageBit(after, p) <==> p != bit && PageBit(before, p) {
      OneBitChanged(before, after, bit, p, false);
    }
  }

  lemma FullBitmapHasNone(bitmap: seq<bv8>, total: nat)
    requires total <= |bitmap| * 8 && forall i :: 0 <= i < |bitmap| ==> bitmap[i] == 0xff
    ensures ClearPages(bitmap, total) == {}
  {
    hide BitOf;
    forall p: nat | p < total ensures PageBit(bitmap, p) {
      AllOnes(p % 8);
    }
  }

  // ---- the allocator ----------------------------------------------------------------------

  class BitmapAllocator {
    const bitmap: array<bv8>
    const totalPages: nat
    var usablePages: nat
    var freePages: nat

    ghost predicate Sized()
      reads this
    {
      totalPages <= bitmap.Length * 8
    }

    /** The free pages. */
    ghost function Pages(): set<nat>
      requires Sized()
      reads this, bitmap
    {
      ClearPages(bitmap[..], totalPages)
    }

    /** The counter is the number of clear bits below `totalPages`. */
    ghost predicate Valid()
      reads this, bitmap
    {
      Sized() && freePages == |Pages()|
    }

    /** A bitmap with every page taken. */
    constructor (pages: nat, size: nat)
      requires pages <= size * 8
      ensures Valid() && fresh(bitmap) && totalPages == pages && bitmap.Length == size && Pages() == {}
      ensures usablePages == 0
    {
      bitmap := new bv8[size](_ => 0xff);
      totalPages, usablePages, freePages := pages, 0, 0;
      new;
      FullBitmapHasNone(bitmap[..], totalPages);
    }

    method SetBit(bit: nat)
      requires Sized() && bit / 8 < bitmap.Length
      modifies bitmap
      ensures Pages() == old(Pages()) - {bit}
    {
      var byteIdx, bitIdx := bit / 8, bit % 8;
      ghost var before := bitmap[..];
      bitmap[byteIdx] := bitmap[byteIdx] | (1 << bitIdx);
      SetTakes(before, bitmap[..], totalPages, bit);
    }

    method ClearBit(bit: nat)
      requires Sized() && bit < totalPages
      modifies bitmap
      ensures Pages() == old(Pages()) + {bit}
    {
      var byteIdx, bitIdx := bit / 8, bit % 8;
      ghost var before := bitmap[..];
      bitmap[byteIdx] := bitmap[byteIdx] & !(1 << bitIdx);
      ClearFrees(before, bitmap[..], totalPages, bit);
    }

    method TestBit(bit: nat) returns (taken: bool)
      requires Sized() && bit < totalPages
      ensures taken <==> bit !in Pages()
    {
      var byteIdx, bitIdx := bit / 8, bit % 8;
      var byte := bitmap[byteIdx];
      taken := byte & (1 << bitIdx) != 0;
    }

    /** Hands out the lowest free page; fails only when there is none. */
    method AllocPage() returns (addr: Option<nat>)
      requires Valid()
      modifies this`freePages, bitmap
      ensures Valid()
      ensures addr.Some? ==> addr.value % PAGE_SIZE == 0
      ensures Step(totalPages, old(Pages()), Alloc, Pages(), if addr.Some? then Some(addr.value / PAGE_SIZE) else None)
    {
      hide ClearPages;
      var i := 0;
      while i < totalPages
        invariant 0 <= i <= totalPages
        invariant Valid() && Pages() == old(Pages())
        invariant forall p: nat :: p < i ==> p !in Pages()
      {
        var taken := TestBit(i);
        if !taken {
          PagesBelow(bitmap[..], totalPages);
          PageOfAddress(i);
          assert i in Pages();
          SetBit(i);
          freePages := freePages - 1;
          return Some(i * PAGE_SIZE);
        }
        i := i + 1;
      }
      PagesBelow(bitmap[..], totalPages);
      assert Pages() == {};
      return None;
    }

    /** Clears the bit of any page in range whose bit is set. */
    method FreePage(addr: nat)
      requires Valid()
      modifies this`freePages, bitmap
      ensures Valid()
      ensures Step(totalPages, old(Pages()), Free(addr), Pages(), None)
    {
      hide ClearPages;
      var page := addr / PAGE_SIZE;
      if page < totalPages {
        var taken := TestBit(page);
        if taken {
          ClearBit(page);
          freePages := freePages + 1;
        }
      }
    }

    /** Any run of calls is a run of the model, with the counter right at every moment. */
    method Run(calls: seq<Call>) returns (pages: seq<Option<nat>>, ghost frees: seq<set<nat>>)
      requires Valid()
      modifies this`freePages, bitmap
      ensures Valid() && IsRun(totalPages, calls, frees, pages)
      ensures frees[0] == old(Pages()) && frees[|calls|] == Pages()
    {
      hide ClearPages;
      pages, frees := [], [Pages()];
      for n := 0 to |calls|
        invariant Valid() && |pages| == n && |frees| == n + 1
        invariant frees[0] == old(Pages()) && frees[n] == Pages()
        invariant forall k :: 0 <= k < n ==> Step(totalPages, frees[k], calls[k], frees[k + 1], pages[k])
      {
        var page: Option<nat> := None;
        match calls[n] {
          case Alloc =>
            var addr := AllocPage();
            match addr {
              case Some(a) => page := Some(a / PAGE_SIZE);
              case None =>
            }
          case Free(addr) =>
            FreePage(addr);
        }
        pages, frees := pages + [page], frees + [Pages()];
      }
    }
  }

  lemma PagesBelow(bitmap: seq<bv8>, total: nat)
    requires total <= |bitmap| * 8
    ensures forall p :: p in ClearPages(bitmap, total) ==> p < total
  {
  }

  // ---- initialising from a memory map -----------------------------------------------------

  datatype InitError = NoSpaceForBitmap

  /** The highest end address of the entries. */
  ghost predicate IsHighest(entries: seq<MemEntry>, addr: nat) {
    && (forall i :: 0 <= i < |entries| ==> entries[i].End() <= addr)
    && (addr == 0 || exists i :: 0 <= i < |entries| && entries[i].End() == addr)
  }

  /** The first usable entry that is large enough for the bitmap. */
  ghost predicate IsBitmapEntry(entries: seq<MemEntry>, size: nat, i: nat) {
    && i < |entries| && entries[i].usable && entries[i].length >= size
    && forall k :: 0 <= k < i ==> !(entries[k].usable && entries[k].length >= size)
  }

  /** The pages that `entries[..n]` set free. */
  ghost function UsablePages(entries: seq<MemEntry>, n: nat, total: nat): set<nat>
    requires n <= |entries|
  {
    set p: nat | p < total && WhollyUsable(entries[..n], p)
  }

  lemma UsablePagesStep(entries: seq<MemEntry>, n: nat, total: nat, p: nat)
    requires n < |entries|
    ensures p in UsablePages(entries, n + 1, total) <==>
      p in UsablePages(entries, n, total) || (p < total && entries[n].usable && entries[n].Holds(p))
  {
    hide MemEntry.Holds;
    if p < total && WhollyUsable(entries[..n], p) {
      var i :| 0 <= i < n && entries[..n][i].usable && entries[..n][i].Holds(p);
      assert entries[..n + 1][i].Holds(p);
    }
    if p < total && entries[n].usable && entries[n].Holds(p) {
      assert entries[..n + 1][n].Holds(p);
    }
    if p < total && WhollyUsable(entries[..n + 1], p) {
      var i :| 0 <= i < n + 1 && entries[..n + 1][i].usable && entries[..n + 1][i].Holds(p);
      if i < n {
        assert entries[..n][i].Holds(p);
      }
    }
  }

  method HighestAddress(entries: seq<MemEntry>) returns (highest: nat)
    ensures IsHighest(entries, highest)
  {
    highest := 0;
    for n := 0 to |entries|
      invariant IsHighest(entries[..n], highest)
    {
      var end := entries[n].base + entries[n].length;
      if end > highest {
        highest := end;
        assert entries[..n + 1][n].End() == highest;
      } else if highest > 0 {
        var i :| 0 <= i < n && entries[..n][i].End() == highest;
        assert entries[..n + 1][i].End() == highest;
      }
    }
    assert entries[..|entries|] == entries;
  }

  method FindBitmapSpace(entries: seq<MemEntry>, size: nat) returns (at: Option<nat>)
    ensures match at
      case Some(i) => IsBitmapEntry(entries, size, i)
      case None => forall i :: 0 <= i < |entries| ==> !(entries[i].usable && entries[i].length >= size)
  {
    for n := 0 to |entries|
      invariant forall k :: 0 <= k < n ==> !(entries[k].usable && entries[k].length >= size)
    {
      if entries[n].usable && entries[n].length >= size {
        return Some(n);
      }
    }
    return None;
  }

  function PageCount(e: MemEntry): nat {
    if e.usable && e.FirstPage() < e.EndPage() then e.EndPage() - e.FirstPage() else 0
  }

  function Counted(entries: seq<MemEntry>, n: nat): nat
    requires n <= |entries|
  {
    if n == 0 then 0 else Counted(entries, n - 1) + PageCount(entries[n - 1])
  }

  ghost function PagesOf(e: MemEntry, total: nat): set<nat> {
    set p: nat | p < total && e.usable && e.Holds(p)
  }

  lemma {:induction false} RangeSize(pages: set<nat>, lo: nat, hi: nat)
    requires lo <= hi && forall p: nat :: p in pages <==> lo <= p < hi
    ensures |pages| == hi - lo
    decreases hi - lo
  {
    if lo < hi {
      RangeSize(pages - {lo}, lo + 1, hi);
    } else {
      assert pages == {};
    }
  }

  lemma EntryPagesBelow(entries: seq<MemEntry>, highest: nat, i: nat, p: nat)
    requires IsHighest(entries, highest) && i < |entries| && p < entries[i].EndPage()
    ensures p < CeilDiv(highest, PAGE_SIZE)
  {
    PageBounds(p, entries[i].End());
    PageBounds(p, highest);
  }

  lemma EntryPageCount(entries: seq<MemEntry>, highest: nat, i: nat)
    requires IsHighest(entries, highest) && i < |entries|
    ensures |PagesOf(entries[i], CeilDiv(highest, PAGE_SIZE))| == PageCount(entries[i])
  {
    hide MemEntry.Holds, MemEntry.FirstPage, MemEntry.EndPage;
    var e, total := entries[i], CeilDiv(highest, PAGE_SIZE);
    forall p: nat ensures p in PagesOf(e, total) <==> e.usable && e.FirstPage() <= p < e.EndPage() {
      HoldsIsRange(e, p);
      if p < e.EndPage() {
        EntryPagesBelow(entries, highest, i, p);
      }
    }
    if e.usable && e.FirstPage() < e.EndPage() {
      RangeSize(PagesOf(e, total), e.FirstPage(), e.EndPage());
    } else {
      assert PagesOf(e, total) == {};
    }
  }

  lemma UsablePagesUnion(entries: seq<MemEntry>, n: nat, total: nat)
    requires n < |entries|
    ensures UsablePages(entries, n + 1, total) == UsablePages(entries, n, total) + PagesOf(entries[n], total)
  {
    hide MemEntry.Holds, WhollyUsable;
    forall p: nat ensures p in UsablePages(entries, n + 1, total) <==>
        p in UsablePages(entries, n, total) + PagesOf(entries[n], total)
    {
      UsablePagesStep(entries, n, total, p);
    }
  }

  /** No page of `entries[..n]` is also in entry `n`. */
  lemma TwiceStep(entries: seq<MemEntry>, n: nat, total: nat)
    requires n < |entries|
    requires forall i: nat, p: nat :: i < |entries| && entries[i].Holds(p) ==> p < total
    ensures NoPageTwice(entries[..n + 1]) <==>
      NoPageTwice(entries[..n]) && UsablePages(entries, n, total) !! PagesOf(entries[n], total)
  {
    hide MemEntry.Holds;
    var es, es' := entries[..n], entries[..n + 1];
    if NoPageTwice(es') {
      forall i, j, page: nat | 0 <= i < j < |es| && es[i].usable && es[j].usable && es[i].Holds(page)
        ensures !es[j].Holds(page)
      {
        assert es'[i].Holds(page);
      }
      forall p: nat | p < total && WhollyUsable(es, p) ensures p !in PagesOf(entries[n], total) {
        var i :| 0 <= i < n && es[i].usable && es[i].Holds(p);
        assert es'[i].Holds(p) && es'[n] == entries[n];
      }
    }
    if NoPageTwice(es) && UsablePages(entries, n, total) !! PagesOf(entries[n], total) {
      forall i, j, page: nat | 0 <= i < j < |es'| && es'[i].usable && es'[j].usable && es'[i].Holds(page)
        ensures !es'[j].Holds(page)
      {
        assert es[i].Holds(page);
        if j == n {
          assert page in UsablePages(entries, n, total);
        }
      }
    }
  }

  /** The pages are counted right exactly when none of them is counted twice. */
  lemma {:induction false} CountedRight(entries: seq<MemEntry>, highest: nat, n: nat)
    requires IsHighest(entries, highest) && n <= |entries|
    ensures var usable := UsablePages(entries, n, CeilDiv(highest, PAGE_SIZE));
      |usable| <= Counted(entries, n) && (|usable| == Counted(entries, n) <==> NoPageTwice(entries[..n]))
  {
    hide MemEntry.Holds, NoPageTwice, CeilDiv, IsHighest, WhollyUsable, PageCount, UsablePages, PagesOf;
    var total := CeilDiv(highest, PAGE_SIZE);
    if n == 0 {
      NoneTwice(entries, total);
    } else {
      CountedRight(entries, highest, n - 1);
      EntryPageCount(entries, highest, n - 1);
      HeldBelow(entries, highest);
      TwiceStep(entries, n - 1, total);
      UsablePagesUnion(entries, n - 1, total);
      UnionSize(UsablePages(entries, n - 1, total), PagesOf(entries[n - 1], total));
    }
  }

  lemma UnionSize(a: set<nat>, b: set<nat>)
    ensures |a + b| <= |a| + |b| && (|a + b| == |a| + |b| <==> a !! b)
  {
    assert |a + b| == |a| + |b| - |a * b|;
    if x :| x in a && x in b {
      assert x in a * b;
    } else {
      assert a * b == {};
    }
  }

  lemma NoneTwice(entries: seq<MemEntry>, total: nat)
    ensures NoPageTwice(entries[..0]) && UsablePages(entries, 0, total) == {}
  {
  }

  lemma HeldBelow(entries: seq<MemEntry>, highest: nat)
    requires IsHighest(entries, highest)
    ensures forall i: nat, p: nat :: i < |entries| && entries[i].Holds(p) ==> p < CeilDiv(highest, PAGE_SIZE)
  {
    forall i: nat, p: nat | i < |entries| && entries[i].Holds(p) ensures p < CeilDiv(highest, PAGE_SIZE) {
      HoldsIsRange(entries[i], p);
      EntryPagesBelow(entries, highest, i, p);
    }
  }

  /** The pages free after initialisation: wholly in a usable entry, and not touched by the bitmap. */
  ghost function FreeAtStart(entries: seq<MemEntry>, total: nat, bitmapAddr: nat, size: nat): set<nat> {
    set p: nat | p < total && WhollyUsable(entries, p) && !Touches(p, bitmapAddr, size)
  }

  method FreeEntryPages(allocator: BitmapAllocator, entries: seq<MemEntry>, n: nat, ghost highest: nat)
    requires allocator.Sized() && n < |entries| && IsHighest(entries, highest)
    requires allocator.totalPages == CeilDiv(highest, PAGE_SIZE)
    modifies allocator`freePages, allocator.bitmap
    ensures allocator.Pages() == old(allocator.Pages()) + PagesOf(entries[n], allocator.totalPages)
    ensures allocator.freePages == old(allocator.freePages) + PageCount(entries[n])
  {
    hide ClearPages, MemEntry.Holds;
    var entry := entries[n];
    if entry.usable {
      var startPage := (entry.base + PAGE_SIZE - 1) / PAGE_SIZE;
      var endPage := (entry.base + entry.length) / PAGE_SIZE;
      var page := startPage;
      while page < endPage
        invariant startPage <= page && (page <= endPage || page == startPage)
        invariant forall p: nat :: p in allocator.Pages() <==> p in old(allocator.Pages()) || startPage <= p < page
        invariant allocator.freePages == old(allocator.freePages) + page - startPage
      {
        EntryPagesBelow(entries, highest, n, page);
        allocator.ClearBit(page);
        allocator.freePages := allocator.freePages + 1;
        page := page + 1;
      }
      forall p: nat ensures p in PagesOf(entry, allocator.totalPages) <==> startPage <= p < page {
        HoldsIsRange(entry, p);
        if p < endPage {
          EntryPagesBelow(entries, highest, n, p);
        }
      }
    }
  }

  /** Takes the pages the bitmap lies in, discounting those that were free. */
  method TakeBitmapPages(allocator: BitmapAllocator, bitmapAddr: nat, size: nat)
    requires allocator.Sized() && CeilDiv(bitmapAddr + size, PAGE_SIZE) <= allocator.totalPages
    requires allocator.freePages >= |allocator.Pages()|
    modifies allocator`freePages, allocator.bitmap
    ensures forall p: nat :: p in allocator.Pages() <==> p in old(allocator.Pages()) && !Touches(p, bitmapAddr, size)
    ensures allocator.freePages - |allocator.Pages()| == old(allocator.freePages - |allocator.Pages()|)
  {
    hide ClearPages, Touches;
    var startPage := bitmapAddr / PAGE_SIZE;
    var endPage := (bitmapAddr + size + PAGE_SIZE - 1) / PAGE_SIZE;
    for page := startPage to endPage
      invariant forall p: nat :: p in allocator.Pages() <==> p in old(allocator.Pages()) && !(startPage <= p < page)
      invariant allocator.freePages - |allocator.Pages()| == old(allocator.freePages - |allocator.Pages()|)
    {
      var taken := allocator.TestBit(page);
      if !taken {
        ghost var before := allocator.Pages();
        allocator.SetBit(page);
        assert |before| == |allocator.Pages()| + 1;
        allocator.freePages := allocator.freePages - 1;
      }
    }
    forall p: nat ensures Touches(p, bitmapAddr, size) <==> startPage <= p < endPage {
      TouchesIsRange(p, bitmapAddr, size);
    }
  }

  lemma BitmapFits(entries: seq<MemEntry>, highest: nat, size: nat, i: nat)
    requires IsHighest(entries, highest) && IsBitmapEntry(entries, size, i)
    ensures entries[i].base / PAGE_SIZE <= CeilDiv(entries[i].base + size, PAGE_SIZE) <= CeilDiv(highest, PAGE_SIZE)
  {
  }

  /**
    Sets the allocator up from a memory map. The free pages are right for every map, and the
    counter exactly when no page lies wholly in two usable entries.
   */
  method Init(entries: seq<MemEntry>)
      returns (r: Result<BitmapAllocator, InitError>, ghost bitmapAddr: nat, ghost highest: nat)
    ensures IsHighest(entries, highest)
    ensures r.Err? <==>
      forall i :: 0 <= i < |entries| ==>
        !(entries[i].usable && entries[i].length >= CeilDiv(CeilDiv(highest, PAGE_SIZE), 8))
    ensures r.Ok? ==>
      && fresh(r.value) && r.value.Sized() && r.value.totalPages == CeilDiv(highest, PAGE_SIZE)
      && (exists i: nat :: IsBitmapEntry(entries, r.value.bitmap.Length, i) && entries[i].base == bitmapAddr)
      && r.value.bitmap.Length == CeilDiv(r.value.totalPages, 8)
    ensures r.Ok? ==> r.value.Pages() == FreeAtStart(entries, r.value.totalPages, bitmapAddr, r.value.bitmap.Length)
    ensures r.Ok? ==> r.value.usablePages == r.value.freePages && (r.value.Valid() <==> NoPageTwice(entries))
  {
    hide ClearPages, WhollyUsable, MemEntry.Holds, Touches, NoPageTwice;
    var highestAddr := HighestAddress(entries);
    highest := highestAddr;
    var totalPages := (highestAddr + PAGE_SIZE - 1) / PAGE_SIZE;
    var bitmapSize := (totalPages + 7) / 8;
    bitmapAddr := 0;
    var at := FindBitmapSpace(entries, bitmapSize);
    match at {
      case None => return Err(NoSpaceForBitmap), 0, highest;
      case Some(i) =>
        var allocator := new BitmapAllocator(totalPages, bitmapSize);
        NoneTwice(entries, totalPages);
        for n := 0 to |entries|
          invariant allocator.Sized() && fresh(allocator) && fresh(allocator.bitmap)
          invariant allocator.Pages() == UsablePages(entries, n, totalPages)
          invariant allocator.freePages == Counted(entries, n)
        {
          FreeEntryPages(allocator, entries, n, highest);
          UsablePagesUnion(entries, n, totalPages);
        }
        CountedRight(entries, highest, |entries|);
        assert entries[..|entries|] == entries;
        BitmapFits(entries, highest, bitmapSize, i);
        TakeBitmapPages(allocator, entries[i].base, bitmapSize);
        allocator.usablePages := allocator.freePages;
        return Ok(allocator), entries[i].base, highest;
    }
  }
}
