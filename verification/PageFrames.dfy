/**
  Physical page frames as a set of free ones: which frames a memory map leaves free, and what
  holds over every run of allocations and releases.
 */
module PageFrames {
  import opened Bytes
  import opened Outcome

  const PAGE_SIZE: nat := 4096

  lemma PageBounds(p: nat, x: nat)
    ensures p < x / PAGE_SIZE <==> (p + 1) * PAGE_SIZE <= x
    ensures p < CeilDiv(x, PAGE_SIZE) <==> p * PAGE_SIZE < x
  {
  }

  // ---- the memory map ---------------------------------------------------------------------

  datatype MemEntry = MemEntry(base: nat, length: nat, usable: bool) {
    function End(): nat { base + length }

    /** The page lies wholly in the entry. */
    predicate Holds(page: nat) {
      base <= page * PAGE_SIZE && (page + 1) * PAGE_SIZE <= End()
    }

    function FirstPage(): nat { CeilDiv(base, PAGE_SIZE) }

    function EndPage(): nat { End() / PAGE_SIZE }
  }

  lemma HoldsIsRange(e: MemEntry, page: nat)
    ensures e.Holds(page) <==> e.FirstPage() <= page < e.EndPage()
  {
    PageBounds(page, e.base);
    PageBounds(page, e.End());
  }

  ghost predicate WhollyUsable(entries: seq<MemEntry>, page: nat) {
    exists i :: 0 <= i < |entries| && entries[i].usable && entries[i].Holds(page)
  }

  /** The page shares a byte with `size` bytes at `addr`. */
  predicate Touches(page: nat, addr: nat, size: nat) {
    page * PAGE_SIZE < addr + size && addr < (page + 1) * PAGE_SIZE
  }

  lemma TouchesIsRange(page: nat, addr: nat, size: nat)
    ensures Touches(page, addr, size) <==> addr / PAGE_SIZE <= page < CeilDiv(addr + size, PAGE_SIZE)
  {
    PageBounds(page, addr);
    PageBounds(page, addr + size);
  }

  /** No page lies wholly in two usable entries. */
  ghost predicate NoPageTwice(entries: seq<MemEntry>) {
    forall i, j, page: nat ::
      0 <= i < j < |entries| && entries[i].usable && entries[j].usable && entries[i].Holds(page) ==> !entries[j].Holds(page)
  }

  /** Entries that share no byte share no page. */
  lemma DisjointEntriesNoPageTwice(entries: seq<MemEntry>)
    requires forall i, j :: 0 <= i < j < |entries| ==> entries[i].End() <= entries[j].base || entries[j].End() <= entries[i].base
    ensures NoPageTwice(entries)
  {
    forall i, j, page: nat | 0 <= i < j < |entries| && entries[i].usable && entries[j].usable && entries[i].Holds(page)
      ensures !entries[j].Holds(page)
    {
      assert page * PAGE_SIZE < (page + 1) * PAGE_SIZE;
    }
  }

  // ---- allocating and releasing -----------------------------------------------------------

  ghost predicate IsLowest(free: set<nat>, page: nat) {
    page in free && forall q :: q in free ==> page <= q
  }

  datatype Call = Alloc | Free(addr: nat)

  /** What a call does to the free frames, and the page it hands out. */
  ghost predicate Step(total: nat, free: set<nat>, call: Call, free': set<nat>, page: Option<nat>) {
    match call
    case Alloc =>
      (match page
       case None => free == {} && free' == free
       case Some(p) => IsLowest(free, p) && free' == free - {p})
    case Free(addr) =>
      page == None && free' == if addr / PAGE_SIZE < total then free + {addr / PAGE_SIZE} else free
  }

  /** A run: the free frames before each call and at the end, and the pages handed out. */
  ghost predicate IsRun(total: nat, calls: seq<Call>, frees: seq<set<nat>>, pages: seq<Option<nat>>) {
    && |frees| == |calls| + 1 && |pages| == |calls|
    && forall k :: 0 <= k < |calls| ==> Step(total, frees[k], calls[k], frees[k + 1], pages[k])
  }

  lemma LowestUnique(free: set<nat>, p: nat, q: nat)
    requires IsLowest(free, p) && IsLowest(free, q)
    ensures p == q
  {
  }

  /** The calls decide the run. */
  lemma {:induction false} RunsAgree(total: nat, calls: seq<Call>, frees: seq<set<nat>>, pages: seq<Option<nat>>,
                                     frees2: seq<set<nat>>, pages2: seq<Option<nat>>, k: nat)
    requires IsRun(total, calls, frees, pages) && IsRun(total, calls, frees2, pages2) && frees[0] == frees2[0]
    requires k <= |calls|
    ensures frees[k] == frees2[k] && (k < |calls| ==> pages[k] == pages2[k])
  {
    if k > 0 {
      RunsAgree(total, calls, frees, pages, frees2, pages2, k - 1);
    }
    if k < |calls| {
      assert Step(total, frees[k], calls[k], frees[k + 1], pages[k]);
      assert Step(total, frees2[k], calls[k], frees2[k + 1], pages2[k]);
      if pages[k].Some? && pages2[k].Some? {
        LowestUnique(frees[k], pages[k].value, pages2[k].value);
      }
    }
  }

  /** A page that is taken stays taken until a call releases it. */
  lemma {:induction false} TakenUntilReleased(total: nat, calls: seq<Call>, frees: seq<set<nat>>, pages: seq<Option<nat>>,
                                              page: nat, i: nat, j: nat)
    requires IsRun(total, calls, frees, pages) && i <= j <= |calls| && page !in frees[i]
    requires forall k :: i <= k < j && calls[k].Free? ==> calls[k].addr / PAGE_SIZE != page
    ensures page !in frees[j]
  {
    if i < j {
      TakenUntilReleased(total, calls, frees, pages, page, i, j - 1);
      assert Step(total, frees[j - 1], calls[j - 1], frees[j], pages[j - 1]);
    }
  }

  /** A page handed out twice was released in between. */
  lemma NotHandedOutTwice(total: nat, calls: seq<Call>, frees: seq<set<nat>>, pages: seq<Option<nat>>, i: nat, j: nat)
    requires IsRun(total, calls, frees, pages) && i < j < |calls|
    requires pages[i].Some? && pages[j] == pages[i]
    ensures exists k :: i < k < j && calls[k].Free? && calls[k].addr / PAGE_SIZE == pages[i].value
  {
    assert Step(total, frees[i], calls[i], frees[i + 1], pages[i]);
    assert Step(total, frees[j], calls[j], frees[j + 1], pages[j]);
    if forall k :: i < k < j && calls[k].Free? ==> calls[k].addr / PAGE_SIZE != pages[i].value {
      TakenUntilReleased(total, calls, frees, pages, pages[i].value, i + 1, j);
    }
  }

  /** The pages a run has handed out and not got back. */
  ghost function Held(calls: seq<Call>, pages: seq<Option<nat>>, n: nat): set<nat>
    requires |pages| == |calls| && n <= |calls|
  {
    if n == 0 then {}
    else match calls[n - 1]
      case Alloc => Held(calls, pages, n - 1) + (if pages[n - 1].Some? then {pages[n - 1].value} else {})
      case Free(addr) => Held(calls, pages, n - 1) - {addr / PAGE_SIZE}
  }

  /** At every moment up to the `n`-th call the free frames and the held ones partition those free at the start. */
  ghost predicate Conserves(calls: seq<Call>, frees: seq<set<nat>>, pages: seq<Option<nat>>, n: nat)
    requires |pages| == |calls| && |frees| == |calls| + 1 && n <= |calls|
  {
    forall k :: 0 <= k <= n ==> frees[k] + Held(calls, pages, k) == frees[0] && frees[k] !! Held(calls, pages, k)
  }

  /** Each release is of a page that was free at the start, or of none that the allocator keeps. */
  ghost predicate ReleasesOwn(total: nat, calls: seq<Call>, free: set<nat>, n: nat)
    requires n <= |calls|
  {
    forall k :: 0 <= k < n && calls[k].Free? ==> calls[k].addr / PAGE_SIZE in free || calls[k].addr / PAGE_SIZE >= total
  }

  /**
    Conservation: no frame is lost or handed out that was not free at the start, exactly when
    every release is of a page that was, or is out of range. Releasing a page twice does no harm.
   */
  lemma {:induction false} FramesConserved(total: nat, calls: seq<Call>, frees: seq<set<nat>>, pages: seq<Option<nat>>, n: nat)
    requires IsRun(total, calls, frees, pages) && n <= |calls|
    requires forall p :: p in frees[0] ==> p < total
    ensures Conserves(calls, frees, pages, n) <==> ReleasesOwn(total, calls, frees[0], n)
  {
    if n > 0 {
      FramesConserved(total, calls, frees, pages, n - 1);
      if Conserves(calls, frees, pages, n - 1) {
        ConservesStep(total, calls, frees, pages, n - 1);
      }
    }
  }

  lemma ConservesStep(total: nat, calls: seq<Call>, frees: seq<set<nat>>, pages: seq<Option<nat>>, k: nat)
    requires IsRun(total, calls, frees, pages) && k < |calls| && Conserves(calls, frees, pages, k)
    requires forall p :: p in frees[0] ==> p < total
    ensures var after := frees[k + 1] + Held(calls, pages, k + 1) == frees[0] && frees[k + 1] !! Held(calls, pages, k + 1);
      after <==> (calls[k].Free? ==> calls[k].addr / PAGE_SIZE in frees[0] || calls[k].addr / PAGE_SIZE >= total)
  {
    assert Step(total, frees[k], calls[k], frees[k + 1], pages[k]);
    assert frees[k] + Held(calls, pages, k) == frees[0];
    if calls[k].Free? {
      var page := calls[k].addr / PAGE_SIZE;
      assert page < total ==> page in frees[k + 1];
    }
  }

  /** A run that breaks conservation: a page that was never free is released, and then handed out. */
  lemma ReleasesUnheld(total: nat, page: nat)
    requires page < total
    ensures var calls, frees, pages := [Free(page * PAGE_SIZE), Alloc], [{}, {page}, {}], [None, Some(page)];
      IsRun(total, calls, frees, pages) && !Conserves(calls, frees, pages, 2)
  {
    var calls, frees, pages := [Free(page * PAGE_SIZE), Alloc], [{}, {page}, {}], [None, Some(page)];
    PageOfAddress(page);
    assert IsLowest({page}, page) && {page} - {page} == {};
    assert frees[1] + Held(calls, pages, 1) != frees[0] by {
      assert page in frees[1];
    }
  }

  lemma PageOfAddress(page: nat)
    ensures page * PAGE_SIZE / PAGE_SIZE == page
  {
  }

  /** Releasing the page just handed out undoes the allocation. */
  lemma FreeUndoesAlloc(total: nat, free: set<nat>, taken: set<nat>, after: set<nat>, page: nat)
    requires forall p :: p in free ==> p < total
    requires Step(total, free, Alloc, taken, Some(page)) && Step(total, taken, Free(page * PAGE_SIZE), after, None)
    ensures after == free && |taken| == |free| - 1
  {
    PageOfAddress(page);
  }
}
