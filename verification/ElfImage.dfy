/**
  ELF64 headers, and the memory image that loading the PT_LOAD segments one after the other leaves:
  System V gABI chapter 5, "Program Header".
 */
module ElfImage {
  import opened Bytes
  import opened PageFrames
  import opened UserMemory

  const HEADER_SIZE: nat := 64
  const PROGRAM_HEADER_SIZE: nat := 56
  const PT_LOAD: nat := 1

  function Field16(d: seq<byte>, at: nat): nat
    requires at + 2 <= |d|
  {
    Le16(d[at], d[at + 1])
  }

  function Field32(d: seq<byte>, at: nat): (v: nat)
    requires at + 4 <= |d|
    ensures v < 0x1_0000_0000
  {
    Le32(d[at], d[at + 1], d[at + 2], d[at + 3])
  }

  function Field64(d: seq<byte>, at: nat): (v: nat)
    requires at + 8 <= |d|
    ensures v < U64
  {
    Field32(d, at) + 0x1_0000_0000 * Field32(d, at + 4)
  }

  datatype Header = Header(magic: seq<byte>, class_: byte, machine: nat, entry: nat, phOffset: nat, phSize: nat, phNum: nat) {
    /** Where program header `i` starts. */
    function Start(i: nat): nat { phOffset + i * phSize }
  }

  function ReadHeader(elf: seq<byte>): Header
    requires |elf| >= HEADER_SIZE
  {
    Header(elf[..4], elf[4], Field16(elf, 18), Field64(elf, 24), Field64(elf, 32), Field16(elf, 54), Field16(elf, 56))
  }

  lemma LeValue8(d: seq<byte>, at: nat)
    requires at + 8 <= |d|
    ensures LeValue(d[at..at + 8]) == Field64(d, at)
  {
    LeValueFour(d[at..at + 8]);
    LeValue4(d, at + 4);
    hide LeValue;
    assert d[at..at + 8][4..] == d[at + 4..at + 8];
  }

  lemma LeValueFour(b: seq<byte>)
    requires |b| >= 4
    ensures LeValue(b) == Le32(b[0], b[1], b[2], b[3]) + 0x1_0000_0000 * LeValue(b[4..])
  {
    assert b[1..][1..] == b[2..] && b[2..][1..] == b[3..] && b[3..][1..] == b[4..];
    assert LeValue(b[1..]) == b[1] + 0x100 * LeValue(b[2..]);
    assert LeValue(b[2..]) == b[2] + 0x100 * LeValue(b[3..]);
    assert LeValue(b[3..]) == b[3] + 0x100 * LeValue(b[4..]);
  }

  /** The fields of an ELF64 header by their places in the file, little-endian. */
  lemma HeaderIsBytes(elf: seq<byte>)
    requires |elf| >= 64
    ensures var h := ReadHeader(elf);
      && h.magic == elf[..4] && h.class_ == elf[4] && h.machine == LeValue(elf[18..20]) && h.entry == LeValue(elf[24..32])
      && h.phOffset == LeValue(elf[32..40]) && h.phSize == LeValue(elf[54..56]) && h.phNum == LeValue(elf[56..58])
  {
    hide LeValue, Field64;
    LeValue2(elf, 18);
    LeValue8(elf, 24);
    LeValue8(elf, 32);
    LeValue2(elf, 54);
    LeValue2(elf, 56);
  }

  datatype Segment = Segment(segType: nat, flags: nat, offset: nat, vaddr: nat, filesz: nat, memsz: nat) {
    function FirstPage(): nat { vaddr / PAGE_SIZE }

    /** The page after the last one touched by the memory size. */
    function EndPage(): nat { CeilDiv(vaddr + memsz, PAGE_SIZE) }

    /** How many bytes loading stores. */
    function Extent(): nat { if filesz > memsz then filesz else memsz }

    predicate Covers(va: nat) { segType == PT_LOAD && vaddr <= va < vaddr + Extent() }
  }

  function ReadSegment(elf: seq<byte>, at: nat): Segment
    requires at + PROGRAM_HEADER_SIZE <= |elf|
  {
    Segment(Field32(elf, at), Field32(elf, at + 4), Field64(elf, at + 8), Field64(elf, at + 16), Field64(elf, at + 32), Field64(elf, at + 40))
  }

  /** The fields of program header `i` by their places in the file, little-endian. */
  lemma SegmentIsBytes(elf: seq<byte>, i: nat, at: nat)
    requires |elf| >= 64 && HeaderInside(elf, i) && at == LeValue(elf[32..40]) + i * LeValue(elf[54..56])
    ensures var s := SegmentAt(elf, i);
      && at + 56 <= |elf| && s.segType == LeValue(elf[at..at + 4]) && s.flags == LeValue(elf[at + 4..at + 8])
      && s.offset == LeValue(elf[at + 8..at + 16]) && s.vaddr == LeValue(elf[at + 16..at + 24])
      && s.filesz == LeValue(elf[at + 32..at + 40]) && s.memsz == LeValue(elf[at + 40..at + 48])
  {
    hide LeValue, Field64, Field32, Field16;
    HeaderIsBytes(elf);
    HeaderStart(elf, i);
    hide HeaderInside, ReadHeader;
    SegmentFields(elf, at);
  }

  lemma HeaderStart(elf: seq<byte>, i: nat)
    requires |elf| >= 64 && HeaderInside(elf, i)
    ensures var at := ReadHeader(elf).phOffset + i * ReadHeader(elf).phSize;
      ReadHeader(elf).Start(i) == at && at + 56 <= |elf| && SegmentAt(elf, i) == ReadSegment(elf, at)
  {
  }

  lemma SegmentFields(elf: seq<byte>, at: nat)
    requires at + 56 <= |elf|
    ensures var s := ReadSegment(elf, at);
      && s.segType == LeValue(elf[at..at + 4]) && s.flags == LeValue(elf[at + 4..at + 8])
      && s.offset == LeValue(elf[at + 8..at + 16]) && s.vaddr == LeValue(elf[at + 16..at + 24])
      && s.filesz == LeValue(elf[at + 32..at + 40]) && s.memsz == LeValue(elf[at + 40..at + 48])
  {
    hide LeValue, Field64;
    LeValue4(elf, at);
    LeValue4(elf, at + 4);
    LeValue8(elf, at + 8);
    LeValue8(elf, at + 16);
    LeValue8(elf, at + 32);
    LeValue8(elf, at + 40);
  }

  /**
    What the loader takes for granted: program headers are not shorter than their layout, the
    sums it forms do not wrap, and the segments lie in the user half.
   */
  ghost predicate Sane(elf: seq<byte>) {
    |elf| >= HEADER_SIZE ==>
      var h := ReadHeader(elf);
      && (h.phNum > 0 ==> h.phSize >= PROGRAM_HEADER_SIZE)
      && h.phOffset + h.phNum * h.phSize < U64
      && forall i: nat :: i < h.phNum && HeaderInside(elf, i) && SegmentAt(elf, i).segType == PT_LOAD ==>
           SegmentAt(elf, i).offset + SegmentAt(elf, i).filesz < U64 && SegmentAt(elf, i).vaddr + SegmentAt(elf, i).Extent() <= USER_END
  }

  predicate HeaderInside(elf: seq<byte>, i: nat)
    requires |elf| >= HEADER_SIZE
  {
    ReadHeader(elf).Start(i) + ReadHeader(elf).phSize <= |elf| && ReadHeader(elf).Start(i) + PROGRAM_HEADER_SIZE <= |elf|
  }

  function SegmentAt(elf: seq<byte>, i: nat): Segment
    requires |elf| >= HEADER_SIZE && HeaderInside(elf, i)
  {
    ReadSegment(elf, ReadHeader(elf).Start(i))
  }

  /** The segments of the first `n` program headers, when those are inside the file. */
  ghost function Segments(elf: seq<byte>, n: nat): seq<Segment>
    requires |elf| >= HEADER_SIZE && forall i: nat :: i < n ==> HeaderInside(elf, i)
  {
    seq(n, i requires 0 <= i < n => SegmentAt(elf, i))
  }

  ghost predicate DataInside(elf: seq<byte>, segments: seq<Segment>) {
    forall i :: 0 <= i < |segments| && segments[i].segType == PT_LOAD ==> segments[i].offset + segments[i].filesz <= |elf|
  }

  // ---- the image as the loader builds it ---------------------------------------------------

  /** Pages `lo` to `hi` mapped, those that were not yet as zeros. */
  ghost function WithPages(m: Image, lo: nat, hi: nat): Image {
    imap a: nat | a in m || lo <= a / PAGE_SIZE < hi :: if a in m then m[a] else 0
  }

  lemma WithPagesNone(m: Image, lo: nat)
    ensures WithPages(m, lo, lo) == m
  {
  }

  lemma WithPagesStep(m: Image, lo: nat, hi: nat)
    requires lo <= hi
    ensures WithPages(m, lo, hi + 1) == WithPage(WithPages(m, lo, hi), hi)
  {
  }

  ghost function LoadedSegment(m: Image, elf: seq<byte>, s: Segment): Image
    requires s.segType == PT_LOAD ==> s.offset + s.filesz <= |elf|
  {
    if s.segType != PT_LOAD then m
    else
      var mapped := WithPages(m, s.FirstPage(), s.EndPage());
      var copied := Written(mapped, s.vaddr, elf[s.offset..s.offset + s.filesz]);
      if s.memsz > s.filesz then Written(copied, s.vaddr + s.filesz, Zeros(s.memsz - s.filesz)) else copied
  }

  ghost function Loaded(m: Image, elf: seq<byte>, segments: seq<Segment>): Image
    requires DataInside(elf, segments)
  {
    if segments == [] then m
    else
      var last := |segments| - 1;
      LoadedSegment(Loaded(m, elf, segments[..last]), elf, segments[last])
  }

  // ---- the image as the standard describes it ----------------------------------------------

  /** Byte `k` of a segment: from the file, and zero beyond it. */
  function SegmentByte(elf: seq<byte>, s: Segment, k: nat): byte {
    if k < s.filesz && s.offset + k < |elf| then elf[s.offset + k] else 0
  }

  /** The byte at `va`: that of the last segment over it, else what was there before. */
  ghost function LastByte(m: Image, elf: seq<byte>, segments: seq<Segment>, va: nat): byte {
    if segments == [] then if va in m then m[va] else 0
    else
      var s := segments[|segments| - 1];
      if s.Covers(va) then SegmentByte(elf, s, va - s.vaddr) else LastByte(m, elf, segments[..|segments| - 1], va)
  }

  ghost predicate InPages(segments: seq<Segment>, va: nat) {
    exists i :: 0 <= i < |segments| && segments[i].segType == PT_LOAD
      && segments[i].FirstPage() <= va / PAGE_SIZE < segments[i].EndPage()
  }

  lemma LoadedSegmentByte(m: Image, elf: seq<byte>, s: Segment, va: nat)
    requires s.segType == PT_LOAD ==> s.offset + s.filesz <= |elf|
    ensures va in LoadedSegment(m, elf, s) <==>
      va in m || (s.segType == PT_LOAD && s.FirstPage() <= va / PAGE_SIZE < s.EndPage())
    ensures va in LoadedSegment(m, elf, s) ==>
      LoadedSegment(m, elf, s)[va] ==
        if s.Covers(va) then SegmentByte(elf, s, va - s.vaddr) else if va in m then m[va] else 0
  {
  }

  /** Each segment's bytes went to mapped pages: true of every load that succeeds. */
  ghost predicate Stored(m: Image, elf: seq<byte>, segments: seq<Segment>)
    requires DataInside(elf, segments)
  {
    segments == [] ||
    (var last := |segments| - 1;
     Stored(m, elf, segments[..last]) && forall va: nat :: segments[last].Covers(va) ==> va in Loaded(m, elf, segments))
  }

  /** Outside the mapped pages there is nothing to read. */
  lemma {:induction false} NoByteOutside(m: Image, elf: seq<byte>, segments: seq<Segment>, va: nat)
    requires DataInside(elf, segments) && Stored(m, elf, segments) && va !in Loaded(m, elf, segments)
    ensures LastByte(m, elf, segments, va) == 0
  {
    hide LoadedSegment, Segment.Covers, SegmentByte, Segment.FirstPage, Segment.EndPage;
    if segments != [] {
      var last := |segments| - 1;
      LoadedSegmentByte(Loaded(m, elf, segments[..last]), elf, segments[last], va);
      NoByteOutside(m, elf, segments[..last], va);
    }
  }

  /** Loading the segments one after the other is the same, byte by byte, as letting the last one decide. */
  lemma {:induction false} LoadedBytes(m: Image, elf: seq<byte>, segments: seq<Segment>, va: nat)
    requires DataInside(elf, segments) && Stored(m, elf, segments)
    ensures va in Loaded(m, elf, segments) <==> va in m || InPages(segments, va)
    ensures va in Loaded(m, elf, segments) ==> Loaded(m, elf, segments)[va] == LastByte(m, elf, segments, va)
  {
    hide LoadedSegment, Segment.Covers, SegmentByte, Segment.FirstPage, Segment.EndPage, InPages;
    if segments == [] {
      NoPages(va);
    } else {
      var last := |segments| - 1;
      LoadedBytes(m, elf, segments[..last], va);
      LoadedSegmentByte(Loaded(m, elf, segments[..last]), elf, segments[last], va);
      PagesOneMore(segments, va);
      if va !in Loaded(m, elf, segments[..last]) {
        NoByteOutside(m, elf, segments[..last], va);
      }
    }
  }

  lemma NoPages(va: nat)
    ensures !InPages([], va)
  {
  }

  lemma PagesOneMore(segments: seq<Segment>, va: nat)
    requires segments != []
    ensures var last := |segments| - 1;
      InPages(segments, va) <==>
        (InPages(segments[..last], va) ||
         (segments[last].segType == PT_LOAD && segments[last].FirstPage() <= va / PAGE_SIZE < segments[last].EndPage()))
  {
    hide Segment.FirstPage, Segment.EndPage;
    var last := |segments| - 1;
    if InPages(segments[..last], va) {
      var i :| 0 <= i < last && segments[..last][i].segType == PT_LOAD
        && segments[..last][i].FirstPage() <= va / PAGE_SIZE < segments[..last][i].EndPage();
      assert segments[i] == segments[..last][i];
    }
    if InPages(segments, va) {
      var i :| 0 <= i < |segments| && segments[i].segType == PT_LOAD
        && segments[i].FirstPage() <= va / PAGE_SIZE < segments[i].EndPage();
      if i < last {
        assert segments[i] == segments[..last][i];
      }
    }
  }

  // ---- well-formed files -------------------------------------------------------------------

  ghost predicate FileFits(segments: seq<Segment>) {
    forall i :: 0 <= i < |segments| && segments[i].segType == PT_LOAD ==> segments[i].filesz <= segments[i].memsz
  }

  ghost predicate NoOverlap(segments: seq<Segment>) {
    forall i, j, va: nat :: 0 <= i < j < |segments| && segments[i].Covers(va) ==> !segments[j].Covers(va)
  }

  lemma CoveredInPages(s: Segment, va: nat)
    requires s.Covers(va) && s.filesz <= s.memsz
    ensures s.FirstPage() <= va / PAGE_SIZE < s.EndPage()
  {
    PageBounds(va / PAGE_SIZE, s.vaddr + s.memsz);
  }

  /** With no segment longer in the file than in memory, all bytes go to mapped pages. */
  lemma {:induction false} FittingIsStored(m: Image, elf: seq<byte>, segments: seq<Segment>)
    requires DataInside(elf, segments) && FileFits(segments)
    ensures Stored(m, elf, segments)
  {
    hide LoadedSegment, Segment.Covers, Segment.FirstPage, Segment.EndPage;
    if segments != [] {
      var last := |segments| - 1;
      FittingIsStored(m, elf, segments[..last]);
      forall va: nat | segments[last].Covers(va) ensures va in Loaded(m, elf, segments) {
        CoversLoads(segments[last], va);
        LoadedSegmentByte(Loaded(m, elf, segments[..last]), elf, segments[last], va);
      }
    }
  }

  lemma CoversLoads(s: Segment, va: nat)
    requires s.Covers(va) && (s.segType == PT_LOAD ==> s.filesz <= s.memsz)
    ensures s.segType == PT_LOAD && s.FirstPage() <= va / PAGE_SIZE < s.EndPage()
  {
    CoveredInPages(s, va);
  }

  /** With no overlap the last segment over an address is the only one. */
  lemma {:induction false} OnlySegment(m: Image, elf: seq<byte>, segments: seq<Segment>, i: nat, va: nat)
    requires NoOverlap(segments) && i < |segments| && segments[i].Covers(va)
    ensures LastByte(m, elf, segments, va) == SegmentByte(elf, segments[i], va - segments[i].vaddr)
  {
    hide Segment.Covers, SegmentByte;
    var last := |segments| - 1;
    if i < last {
      assert !segments[last].Covers(va);
      forall a, b, x: nat | 0 <= a < b < last && segments[..last][a].Covers(x) ensures !segments[..last][b].Covers(x) {
        assert segments[a].Covers(x);
      }
      OnlySegment(m, elf, segments[..last], i, va);
    }
  }

  lemma {:induction false} NoSegment(m: Image, elf: seq<byte>, segments: seq<Segment>, va: nat)
    requires forall i :: 0 <= i < |segments| ==> !segments[i].Covers(va)
    ensures LastByte(m, elf, segments, va) == if va in m then m[va] else 0
  {
    hide Segment.Covers, SegmentByte;
    if segments != [] {
      NoSegment(m, elf, segments[..|segments| - 1], va);
    }
  }

  /**
    The image of a well-formed executable in a new address space: each segment's file bytes at
    its address, zeros up to its memory size, and zeros everywhere else in the mapped pages, also
    where segments share a page.
   */
  lemma LoadedImage(elf: seq<byte>, segments: seq<Segment>, va: nat)
    requires DataInside(elf, segments) && FileFits(segments) && NoOverlap(segments)
    ensures var m := Loaded(imap[], elf, segments);
      && (va in m <==> InPages(segments, va))
      && (forall i :: 0 <= i < |segments| && segments[i].segType == 1 && segments[i].vaddr <= va < segments[i].vaddr + segments[i].memsz ==>
            va in m && m[va] == if va - segments[i].vaddr < segments[i].filesz then elf[segments[i].offset + (va - segments[i].vaddr)] else 0)
      && (va in m && (forall i :: 0 <= i < |segments| ==> !segments[i].Covers(va)) ==> m[va] == 0)
  {
    hide Loaded, LastByte, Stored, NoOverlap;
    FittingIsStored(imap[], elf, segments);
    LoadedBytes(imap[], elf, segments, va);
    forall i | 0 <= i < |segments| && segments[i].Covers(va)
      ensures va in Loaded(imap[], elf, segments)
      ensures Loaded(imap[], elf, segments)[va] == SegmentByte(elf, segments[i], va - segments[i].vaddr)
    {
      CoversLoads(segments[i], va);
      OnlySegment(imap[], elf, segments, i, va);
    }
    if forall i :: 0 <= i < |segments| ==> !segments[i].Covers(va) {
      NoSegment(imap[], elf, segments, va);
    }
  }
}
