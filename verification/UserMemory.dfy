/**
  User memory as a process sees it: the bytes of physical memory behind the mapped pages, and how
  mapping and writing change it for one address space and leave it alone for the others.
 */
module UserMemory {
  import opened Bytes
  import opened PageFrames

  /** Where the user half of the address range ends and the kernel half starts; nothing between is canonical. */
  const USER_END: nat := 0x8000_0000_0000
  const KERNEL_START: nat := U64 - USER_END

  predicate Canonical(va: nat) {
    va < USER_END || KERNEL_START <= va < U64
  }

  /** The seventeen bits from 47 on are all clear or all set. */
  lemma CanonicalBits(va: nat)
    requires va < 0x1_0000_0000_0000_0000
    ensures Canonical(va) <==> va / 0x8000_0000_0000 == 0 || va / 0x8000_0000_0000 == 0x1_FFFF
  {
  }

  /** Physical memory, its free frames, and the page map of one address space. */
  datatype Space = Space(phys: seq<byte>, free: set<nat>, pages: map<nat, nat>)

  /** A byte for each mapped virtual address. */
  type Image = imap<nat, byte>

  ghost predicate SpaceOk(s: Space, total: nat) {
    && |s.phys| == total * PAGE_SIZE
    && (forall f :: f in s.free ==> f < total)
    && (forall p :: p in s.pages ==> s.pages[p] < total && s.pages[p] !in s.free)
    && (forall p, q :: p in s.pages && q in s.pages && s.pages[p] == s.pages[q] ==> p == q)
  }

  /** The physical address behind a mapped virtual one. */
  function Translate(pages: map<nat, nat>, va: nat): nat
    requires va / PAGE_SIZE in pages
  {
    pages[va / PAGE_SIZE] * PAGE_SIZE + va % PAGE_SIZE
  }

  function ByteOf(phys: seq<byte>, at: nat): byte {
    if at < |phys| then phys[at] else 0
  }

  ghost function ImageOf(phys: seq<byte>, pages: map<nat, nat>): Image {
    imap va: nat | va / PAGE_SIZE in pages :: ByteOf(phys, Translate(pages, va))
  }

  /** The bytes `data` stored from `va` on, where mapped. */
  ghost function Written(m: Image, va: nat, data: seq<byte>): Image {
    imap a: nat | a in m :: if va <= a < va + |data| then data[a - va] else m[a]
  }

  /** A page of zeros added. */
  ghost function WithPage(m: Image, page: nat): Image {
    imap a: nat | a in m || a / PAGE_SIZE == page :: if a in m then m[a] else 0
  }

  lemma WrittenNothing(m: Image, va: nat)
    ensures Written(m, va, []) == m
  {
  }

  lemma WrittenAppend(m: Image, va: nat, a: seq<byte>, b: seq<byte>)
    ensures Written(Written(m, va, a), va + |a|, b) == Written(m, va, a + b)
  {
  }

  lemma SpliceByte(phys: seq<byte>, at: nat, chunk: seq<byte>, i: nat)
    requires at + |chunk| <= |phys|
    ensures ByteOf(Splice(phys, at, chunk), i) == if at <= i < at + |chunk| then chunk[i - at] else ByteOf(phys, i)
  {
  }

  lemma FrameInRange(f: nat, total: nat, o: nat)
    requires f < total && o <= PAGE_SIZE
    ensures f * PAGE_SIZE + o <= total * PAGE_SIZE
  {
  }

  /** Two addresses of one address space meet in physical memory only when they are the same. */
  lemma TranslateMeets(s: Space, total: nat, va: nat, n: nat, a: nat)
    requires SpaceOk(s, total) && va / PAGE_SIZE in s.pages && a / PAGE_SIZE in s.pages && va % PAGE_SIZE + n <= PAGE_SIZE
    ensures Translate(s.pages, va) <= Translate(s.pages, a) < Translate(s.pages, va) + n <==> va <= a < va + n
    ensures va <= a < va + n ==> Translate(s.pages, a) - Translate(s.pages, va) == a - va
  {
    var p, q := va / PAGE_SIZE, a / PAGE_SIZE;
    if p == q {
    } else {
      assert s.pages[p] != s.pages[q];
    }
  }

  /** Bytes stored within one page, through its frame. */
  lemma ChunkWritten(s: Space, total: nat, va: nat, chunk: seq<byte>)
    requires SpaceOk(s, total) && va / PAGE_SIZE in s.pages && va % PAGE_SIZE + |chunk| <= PAGE_SIZE
    ensures Translate(s.pages, va) + |chunk| <= |s.phys|
    ensures ImageOf(Splice(s.phys, Translate(s.pages, va), chunk), s.pages) == Written(ImageOf(s.phys, s.pages), va, chunk)
  {
    hide Translate, ByteOf, Splice;
    ChunkInRange(s, total, va, |chunk|);
    var at := Translate(s.pages, va);
    var before, after := ImageOf(s.phys, s.pages), ImageOf(Splice(s.phys, at, chunk), s.pages);
    forall a: nat | a / PAGE_SIZE in s.pages ensures after[a] == Written(before, va, chunk)[a] {
      TranslateMeets(s, total, va, |chunk|, a);
      SpliceByte(s.phys, at, chunk, Translate(s.pages, a));
    }
  }

  lemma ChunkInRange(s: Space, total: nat, va: nat, n: nat)
    requires SpaceOk(s, total) && va / PAGE_SIZE in s.pages && va % PAGE_SIZE + n <= PAGE_SIZE
    ensures Translate(s.pages, va) + n <= |s.phys|
  {
    FrameInRange(s.pages[va / PAGE_SIZE], total, va % PAGE_SIZE + n);
  }

  /** A frame that was free, zeroed and mapped, is a page of zeros; the other pages keep their bytes. */
  lemma PageAdded(s: Space, total: nat, page: nat, frame: nat)
    requires SpaceOk(s, total) && page !in s.pages && frame in s.free
    ensures (frame + 1) * PAGE_SIZE <= |s.phys|
    ensures var phys := Splice(s.phys, frame * PAGE_SIZE, Zeros(PAGE_SIZE));
      ImageOf(phys, s.pages[page := frame]) == WithPage(ImageOf(s.phys, s.pages), page)
  {
    hide Splice, Zeros;
    FrameInRange(frame, total, PAGE_SIZE);
    var phys := Splice(s.phys, frame * PAGE_SIZE, Zeros(PAGE_SIZE));
    var pages := s.pages[page := frame];
    forall a: nat | a / PAGE_SIZE in pages ensures ImageOf(phys, pages)[a] == WithPage(ImageOf(s.phys, s.pages), page)[a] {
      AddedByte(s, total, page, frame, a);
    }
  }

  lemma AddedByte(s: Space, total: nat, page: nat, frame: nat, a: nat)
    requires SpaceOk(s, total) && page !in s.pages && frame in s.free && (frame + 1) * PAGE_SIZE <= |s.phys|
    requires a / PAGE_SIZE in s.pages[page := frame]
    ensures var phys := Splice(s.phys, frame * PAGE_SIZE, Zeros(PAGE_SIZE));
      ByteOf(phys, Translate(s.pages[page := frame], a)) ==
      if a / PAGE_SIZE == page then 0 else ByteOf(s.phys, Translate(s.pages, a))
  {
    hide Splice, Zeros, ByteOf;
    SpliceByte(s.phys, frame * PAGE_SIZE, Zeros(PAGE_SIZE), Translate(s.pages[page := frame], a));
    if a / PAGE_SIZE != page {
      assert s.pages[a / PAGE_SIZE] != frame;
    } else {
      ZeroByte(PAGE_SIZE, a % PAGE_SIZE);
    }
  }

  lemma ZeroByte(n: nat, i: nat)
    requires i < n
    ensures Zeros(n)[i] == 0
  {
  }

  // ---- what one address space may change ---------------------------------------------------

  function FrameBytes(phys: seq<byte>, f: nat): seq<byte> {
    if (f + 1) * PAGE_SIZE <= |phys| then phys[f * PAGE_SIZE..(f + 1) * PAGE_SIZE] else []
  }

  /**
    The change takes frames from the free ones only, keeps the mappings there were, and leaves
    the bytes of every frame that was neither free nor mapped here.
   */
  ghost predicate Confined(s: Space, s': Space) {
    && |s'.phys| == |s.phys| && s'.free <= s.free
    && (forall p :: p in s.pages ==> p in s'.pages && s'.pages[p] == s.pages[p])
    && (forall p :: p in s'.pages && p !in s.pages ==> s'.pages[p] in s.free - s'.free)
    && (forall f: nat :: f !in s.free && f !in s.pages.Values ==> FrameBytes(s'.phys, f) == FrameBytes(s.phys, f))
  }

  lemma ConfinedTwice(a: Space, b: Space, c: Space)
    requires Confined(a, b) && Confined(b, c)
    ensures Confined(a, c)
  {
    forall f: nat | f !in a.free && f !in a.pages.Values ensures FrameBytes(c.phys, f) == FrameBytes(a.phys, f) {
      assert forall p :: p in b.pages ==> p in a.pages || b.pages[p] in a.free;
      assert f !in b.pages.Values;
    }
  }

  /** Frames are taken from the free ones, and the bytes of every other frame are left. */
  ghost predicate Takes(s: Space, s': Space) {
    && s'.pages == s.pages && |s'.phys| == |s.phys| && s'.free <= s.free
    && (forall f: nat :: f !in s.free ==> FrameBytes(s'.phys, f) == FrameBytes(s.phys, f))
  }

  lemma TakesTwice(a: Space, b: Space, c: Space)
    requires Takes(a, b) && Takes(b, c)
    ensures Takes(a, c) && Confined(a, c)
  {
  }

  lemma TakesKeepsImage(s: Space, s': Space, total: nat)
    requires SpaceOk(s, total) && Takes(s, s')
    ensures ImageOf(s'.phys, s.pages) == ImageOf(s.phys, s.pages)
  {
    hide FrameBytes, ByteOf;
    forall va: nat | va / PAGE_SIZE in s.pages ensures ImageOf(s'.phys, s.pages)[va] == ImageOf(s.phys, s.pages)[va] {
      FrameInRange(s.pages[va / PAGE_SIZE], total, PAGE_SIZE);
      SameFrameByte(s.phys, s'.phys, s.pages[va / PAGE_SIZE], va % PAGE_SIZE);
    }
  }

  /** The mappings belong to taken frames that `s` does not use. */
  ghost predicate Apart(s: Space, others: map<nat, nat>) {
    forall p :: p in others ==> others[p] !in s.free && others[p] !in s.pages.Values && (others[p] + 1) * PAGE_SIZE <= |s.phys|
  }

  lemma SameFrameByte(phys: seq<byte>, phys': seq<byte>, f: nat, o: nat)
    requires |phys| == |phys'| && (f + 1) * PAGE_SIZE <= |phys| && o < PAGE_SIZE
    requires FrameBytes(phys', f) == FrameBytes(phys, f)
    ensures ByteOf(phys', f * PAGE_SIZE + o) == ByteOf(phys, f * PAGE_SIZE + o)
  {
    assert FrameBytes(phys, f)[o] == phys[f * PAGE_SIZE + o];
    assert FrameBytes(phys', f)[o] == phys'[f * PAGE_SIZE + o];
  }

  /** Another address space keeps its memory, and stays apart. */
  lemma OthersKept(s: Space, s': Space, others: map<nat, nat>)
    requires Confined(s, s') && Apart(s, others)
    ensures ImageOf(s'.phys, others) == ImageOf(s.phys, others) && Apart(s', others)
  {
    hide FrameBytes, ByteOf;
    forall va: nat | va / PAGE_SIZE in others ensures ImageOf(s'.phys, others)[va] == ImageOf(s.phys, others)[va] {
      SameFrameByte(s.phys, s'.phys, others[va / PAGE_SIZE], va % PAGE_SIZE);
    }
    forall p | p in others ensures others[p] !in s'.pages.Values {
      assert forall q :: q in s'.pages ==> q in s.pages || s'.pages[q] in s.free;
    }
  }

  // ---- writing through translation ---------------------------------------------------------

  predicate Mapped(pages: map<nat, nat>, a: nat) {
    a / PAGE_SIZE in pages
  }

  /** Every address of `[va, va + n)` is mapped. */
  ghost predicate AllMapped(pages: map<nat, nat>, va: nat, n: nat) {
    forall a: nat :: va <= a < va + n ==> Mapped(pages, a)
  }

  /** How far a write of `n` bytes gets: to its end, or to the first unmapped address. */
  ghost predicate Reaches(pages: map<nat, nat>, va: nat, n: nat, done: nat) {
    AllMapped(pages, va, done) && (done == n || (done < n && !Mapped(pages, va + done)))
  }

  /** The bytes from an address to the end of its page lie in one page. */
  lemma SamePage(va: nat, a: nat)
    requires va <= a < va - va % PAGE_SIZE + PAGE_SIZE
    ensures a / PAGE_SIZE == va / PAGE_SIZE
  {
  }

  lemma MappedFurther(pages: map<nat, nat>, va: nat, done: nat, n: nat)
    requires AllMapped(pages, va, done) && Mapped(pages, va + done) && (va + done) % PAGE_SIZE + n <= PAGE_SIZE
    ensures AllMapped(pages, va, done + n)
  {
    forall a: nat | va <= a < va + done + n ensures Mapped(pages, a) {
      if a >= va + done {
        SamePage(va + done, a);
      }
    }
  }

  lemma SplicedFrameKept(phys: seq<byte>, f: nat, o: nat, chunk: seq<byte>, g: nat)
    requires o + |chunk| <= PAGE_SIZE && f * PAGE_SIZE + o + |chunk| <= |phys| && f != g
    ensures FrameBytes(Splice(phys, f * PAGE_SIZE + o, chunk), g) == FrameBytes(phys, g)
  {
    hide Splice;
    var at := f * PAGE_SIZE + o;
    forall i: nat | i < |phys| && g * PAGE_SIZE <= i < (g + 1) * PAGE_SIZE ensures Splice(phys, at, chunk)[i] == phys[i] {
      SpliceAt(phys, at, chunk, i);
    }
    SpliceSize(phys, at, chunk);
  }

  lemma SpliceAt(phys: seq<byte>, at: nat, chunk: seq<byte>, i: nat)
    requires at + |chunk| <= |phys| && i < |phys|
    ensures |Splice(phys, at, chunk)| == |phys|
    ensures Splice(phys, at, chunk)[i] == if at <= i < at + |chunk| then chunk[i - at] else phys[i]
  {
  }

  lemma SpliceSize(phys: seq<byte>, at: nat, chunk: seq<byte>)
    requires at + |chunk| <= |phys|
    ensures |Splice(phys, at, chunk)| == |phys|
  {
  }

  /** A chunk stored through the translation of its first address. */
  lemma ChunkStored(s: Space, total: nat, va: nat, chunk: seq<byte>)
    requires SpaceOk(s, total) && va / PAGE_SIZE in s.pages && va % PAGE_SIZE + |chunk| <= PAGE_SIZE
    ensures Translate(s.pages, va) + |chunk| <= |s.phys|
    ensures var s' := s.(phys := Splice(s.phys, Translate(s.pages, va), chunk));
      && SpaceOk(s', total) && Confined(s, s')
      && ImageOf(s'.phys, s'.pages) == Written(ImageOf(s.phys, s.pages), va, chunk)
  {
    hide FrameBytes, Splice, ByteOf;
    ChunkWritten(s, total, va, chunk);
    var s' := s.(phys := Splice(s.phys, Translate(s.pages, va), chunk));
    SpliceSize(s.phys, Translate(s.pages, va), chunk);
    forall g: nat | g !in s.free && g !in s.pages.Values ensures FrameBytes(s'.phys, g) == FrameBytes(s.phys, g) {
      assert s.pages[va / PAGE_SIZE] in s.pages.Values;
      SplicedFrameKept(s.phys, s.pages[va / PAGE_SIZE], va % PAGE_SIZE, chunk, g);
    }
  }

  /** One more chunk of `data` stored. */
  lemma ChunkStep(s: Space, mid: Space, total: nat, va: nat, data: seq<byte>, offset: nat, n: nat)
    requires SpaceOk(mid, total) && Confined(s, mid) && mid.pages == s.pages && offset + n <= |data|
    requires AllMapped(s.pages, va, offset) && Mapped(s.pages, va + offset) && (va + offset) % PAGE_SIZE + n <= PAGE_SIZE
    requires ImageOf(mid.phys, mid.pages) == Written(ImageOf(s.phys, s.pages), va, data[..offset])
    ensures Translate(mid.pages, va + offset) + n <= |mid.phys|
    ensures var s' := mid.(phys := Splice(mid.phys, Translate(mid.pages, va + offset), data[offset..offset + n]));
      && SpaceOk(s', total) && Confined(s, s') && AllMapped(s.pages, va, offset + n)
      && ImageOf(s'.phys, s'.pages) == Written(ImageOf(s.phys, s.pages), va, data[..offset + n])
  {
    hide Splice, ImageOf, Written, Confined, SpaceOk, Translate, AllMapped;
    var chunk := data[offset..offset + n];
    ChunkStored(mid, total, va + offset, chunk);
    ConfinedTwice(s, mid, mid.(phys := Splice(mid.phys, Translate(mid.pages, va + offset), chunk)));
    MappedFurther(s.pages, va, offset, n);
    WrittenAppend(ImageOf(s.phys, s.pages), va, data[..offset], chunk);
    assert data[..offset] + chunk == data[..offset + n];
  }
}
