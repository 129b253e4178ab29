/** The driver proper: cells, clusters and chains on a device of 512-byte sectors. */
module Fat32Driver {
  import opened Bytes
  import opened Outcome
  import opened FatVolume
  import opened FatLayout
  import opened ShortNames
  import opened DirEntries
  import opened DirScan
  import opened DirEdit
  import opened DirAdd
  import opened DirBytes
  import opened FatObjects
  import opened FatPaths
  import opened Paths

  class Fat32Inner {
    const bpb: Bpb
    /** The block device. */
    var disk: seq<Sector>
    /** Whether the FAT copies agreed when the volume was mounted; they do from then on. */
    ghost const mirrored: bool
    /** The device when the volume was mounted: before the FAT and behind the volume it stays that way. */
    ghost const mounted: seq<Sector>

    constructor (bpb: Bpb, disk: seq<Sector>)
      requires DiskOk(bpb, disk)
      ensures this.bpb == bpb && this.disk == disk && Valid()
      ensures mirrored == Mirrored(bpb, disk) && mounted == disk
    {
      this.bpb := bpb;
      this.disk := disk;
      this.mirrored := Mirrored(bpb, disk);
      this.mounted := disk;
    }

    ghost predicate Valid()
      reads this
    {
      DiskOk(bpb, disk) && (mirrored ==> Mirrored(bpb, disk)) && OutsideKept(bpb, mounted, disk)
    }

    ghost function Volume(): Vol
      reads this
      requires Valid()
    {
      View(bpb, disk)
    }

    ghost function Size(): nat { bpb.BytesPerCluster() }

    // ---- cells ----------------------------------------------------------------------------

    method GetFatEntry(cluster: nat) returns (entry: nat)
      requires Valid() && cluster < |Volume().fat|
      ensures entry == Volume().fat[cluster]
      ensures 4 * cluster + 4 <= |FatArea(bpb, disk, 0)|
      ensures entry == LeValue(FatArea(bpb, disk, 0)[4 * cluster..4 * cluster + 4]) % 0x1000_0000
    {
      ViewOk(bpb, disk);
      hide FatArea, View, LeValue, Mirrored, OutsideKept, DiskOk;
      ViewIsBytes(bpb, disk, cluster);
      ViewIsCell(bpb, disk, cluster);
      var fatOffset := cluster * 4;
      var fatSector := bpb.FatStart() + fatOffset / SECTOR_SIZE;
      var offset := fatOffset % SECTOR_SIZE;
      var sector := disk[fatSector];
      entry := Le32(sector[offset], sector[offset + 1], sector[offset + 2], sector[offset + 3]) % CELL;
    }

    method SetFatEntry(cluster: nat, value: nat)
      requires Valid() && cluster < |Volume().fat| && value < 0x1_0000_0000
      modifies this`disk
      ensures Valid() && Volume() == old(Volume()).(fat := old(Volume()).fat[cluster := value % CELL])
      ensures CellWritten(bpb, old(disk), disk, cluster, value, bpb.numFats)
      ensures OnlyCellSet(bpb, old(disk), disk, cluster, value)
    {
      ViewOk(bpb, disk);
      hide View, Mirrored, CellWritten, SectorsPatched, OutsideKept, OnlyCellSet;
      var fatOffset := cluster * 4;
      ghost var disk0 := disk;
      CellWrittenStart(bpb, disk, cluster, value);
      for fatNum := 0 to bpb.numFats
        invariant DiskOk(bpb, disk) && CellWritten(bpb, disk0, disk, cluster, value, fatNum)
        invariant SectorsPatched(bpb, disk0, disk, cluster, value, fatNum)
      {
        FatSectorInFat(bpb, fatNum, cluster);
        var fatSector := bpb.FatStart() + fatNum * bpb.sectorsPerFat + fatOffset / SECTOR_SIZE;
        var patched := PatchCell(disk[fatSector], cluster, value);
        CellWrittenStep(bpb, disk0, disk, cluster, value, fatNum, fatSector, patched);
        SectorsPatchedStep(bpb, disk0, disk, cluster, value, fatNum, fatSector, patched);
        disk := disk[fatSector := patched];
      }
      CellWrittenView(bpb, disk0, disk, cluster, value);
      CellWrittenOutside(bpb, disk0, disk, cluster, value);
      OutsideKeptTwice(bpb, mounted, disk0, disk);
      CellIsSet(bpb, disk0, disk, cluster, value);
      if mirrored {
        CellWrittenMirrors(bpb, disk0, disk, cluster, value);
      }
    }

    // ---- clusters -------------------------------------------------------------------------

    method ZeroCluster(cluster: nat)
      requires Valid() && InRange(Volume().fat, cluster)
      modifies this`disk
      ensures Valid() && Volume() == old(Volume()).(data := old(Volume()).data[cluster := Zeros(Size())])
    {
      var startSector := bpb.ClusterToSector(cluster);
      ghost var disk0 := disk;
      ghost var zeros := Zeros(Size());
      ClusterInVolume(bpb, cluster);
      for i := 0 to bpb.sectorsPerCluster
        invariant DiskOk(bpb, disk) && ClusterWritten(bpb, disk0, disk, cluster, zeros, i)
      {
        SliceBounds(i, bpb.sectorsPerCluster, SECTOR_SIZE);
        assert Block(zeros, i, SECTOR_SIZE) == Zeros(SECTOR_SIZE);
        disk := disk[startSector + i := Zeros(SECTOR_SIZE)];
      }
      ClusterWrittenView(bpb, disk0, disk, cluster, zeros);
      ClusterWrittenOutside(bpb, disk0, disk, cluster, zeros);
      OutsideKeptTwice(bpb, mounted, disk0, disk);
    }

    method ReadCluster(cluster: nat) returns (buf: seq<byte>)
      requires Valid() && InRange(Volume().fat, cluster)
      ensures buf == Volume().data[cluster] && |buf| == Size()
    {
      var startSector := bpb.ClusterToSector(cluster);
      ClusterInVolume(bpb, cluster);
      ghost var sectors := ClusterSectors(bpb, disk, cluster);
      buf := [];
      for i := 0 to bpb.sectorsPerCluster
        invariant buf == Concat(sectors[..i])
      {
        assert sectors[..i + 1][..i] == sectors[..i];
        assert sectors[i] == disk[startSector + i];
        buf := buf + disk[startSector + i];
      }
      assert sectors[..|sectors|] == sectors;
      ClusterDataLength(bpb, disk, cluster);
    }

    method WriteCluster(cluster: nat, buf: seq<byte>) returns (r: Result<(), FatError>)
      requires Valid() && InRange(Volume().fat, cluster)
      modifies this`disk
      ensures r.Ok? <==> |buf| >= Size()
      ensures r.Err? ==> r.error == BufferTooSmall && disk == old(disk)
      ensures Valid() && (r.Ok? ==> Volume() == old(Volume()).(data := old(Volume()).data[cluster := buf[..Size()]]))
    {
      var startSector := bpb.ClusterToSector(cluster);
      var clusterSize := bpb.BytesPerCluster();
      if |buf| < clusterSize {
        return Err(BufferTooSmall);
      }
      ghost var disk0 := disk;
      ghost var bytes := buf[..clusterSize];
      ClusterInVolume(bpb, cluster);
      for i := 0 to bpb.sectorsPerCluster
        invariant DiskOk(bpb, disk) && ClusterWritten(bpb, disk0, disk, cluster, bytes, i)
      {
        SliceBounds(i, bpb.sectorsPerCluster, SECTOR_SIZE);
        var sector := buf[i * SECTOR_SIZE..(i + 1) * SECTOR_SIZE];
        assert Block(bytes, i, SECTOR_SIZE) == sector;
        disk := disk[startSector + i := sector];
      }
      ClusterWrittenView(bpb, disk0, disk, cluster, bytes);
      ClusterWrittenOutside(bpb, disk0, disk, cluster, bytes);
      OutsideKeptTwice(bpb, mounted, disk0, disk);
      return Ok(());
    }

    // ---- allocation -----------------------------------------------------------------------

    /** Takes the lowest free cluster, or fails, changing nothing, exactly when none is free. */
    method AllocateCluster() returns (r: Result<nat, FatError>)
      requires Valid()
      modifies this`disk
      ensures Valid()
      ensures r.Ok? ==> Allocated(old(Volume()), Volume(), r.value, Size())
      ensures r.Ok? ==> old(Volume()).fat[r.value] == 0 && Volume().fat[r.value] == 0x0FFF_FFF8
      ensures r.Err? ==> r.error == NoFreeClusters && disk == old(disk) && FreeSet(old(Volume()).fat) == {}
    {
      hide OutsideKept, Mirrored, FatArea, OnlyCellSet, CellWritten, LeValue;
      var total := bpb.TotalClusters() + 2;
      for cluster := 2 to total
        invariant disk == old(disk)
        invariant forall b :: 2 <= b < cluster ==> Volume().fat[b] != FREE
      {
        var entry := GetFatEntry(cluster);
        if entry == FREE {
          SetFatEntry(cluster, EOC);
          ZeroCluster(cluster);
          return Ok(cluster);
        }
      }
      return Err(NoFreeClusters);
    }

    /**
      Allocates a zeroed chain of `count` clusters, all free before; `ch` is that chain, or what
      had been taken when the clusters ran out. It fails exactly when fewer than `count` are free.
     */
    method AllocateChain(count: nat) returns (r: Result<nat, FatError>, ghost ch: seq<nat>)
      requires Valid()
      modifies this`disk
      ensures Valid()
      ensures r.Ok? <==> count <= |FreeSet(old(Volume()).fat)|
      ensures r.Ok? ==> |ch| == count
      ensures r.Ok? && count == 0 ==> r.value == 0 && disk == old(disk)
      ensures r.Ok? && count > 0 ==> r.value == ch[0]
      ensures ch == [] ==> disk == old(disk)
      ensures ch != [] ==> AllocatedChain(old(Volume()), Volume(), ch, Size())
    {
      hide View, DiskOk, Mirrored, OutsideKept, IsChain, AllocatedChain, Extended, FreeSet;
      ch := [];
      if count == 0 {
        return Ok(0), ch;
      }
      ghost var v0 := Volume();
      ViewOk(bpb, disk);
      var head := AllocateCluster();
      if head.Err? {
        return Err(head.error), ch;
      }
      AllocatedIsChain(v0, Volume(), head.value, Size());
      AllocatedFreeSet(v0, Volume(), head.value, Size());
      ch := [head.value];
      var prev := head.value;
      for i := 1 to count
        invariant Valid()
        invariant VolOk(v0, Size()) && |Volume().fat| == |v0.fat|
        invariant |ch| == i && ch[0] == head.value && prev == ch[i - 1]
        invariant AllocatedChain(v0, Volume(), ch, Size())
        invariant |FreeSet(Volume().fat)| + i == |FreeSet(v0.fat)|
      {
        ghost var v1 := Volume();
        ViewOk(bpb, disk);
        AllocatedChainEnd(v0, v1, ch, Size());
        var next := ExtendChain(prev);
        if next.Err? {
          return Err(next.error), ch;
        }
        AllocatedChainGrows(v0, v1, Volume(), ch, next.value, Size());
        ch := ch + [next.value];
        prev := next.value;
      }
      return Ok(head.value), ch;
    }

    /** Appends one cluster, free before, to the chain that ends in `last`. */
    method ExtendChain(last: nat) returns (r: Result<nat, FatError>)
      requires Valid() && InRange(Volume().fat, last)
      modifies this`disk
      ensures Valid()
      ensures r.Ok? ==> Extended(old(Volume()), Volume(), last, r.value, Size())
      ensures r.Err? ==> r.error == NoFreeClusters && disk == old(disk) && FreeSet(old(Volume()).fat) == {}
    {
      hide FatArea, OnlyCellSet, CellWritten, LeValue;
      hide View, DiskOk, Mirrored, OutsideKept;
      ViewOk(bpb, disk);
      r := AllocateCluster();
      if r.Ok? {
        assert r.value % CELL == r.value;
        SetFatEntry(last, r.value);
      }
    }

    /**
      Frees every cell on the walk from `start`, on any FAT whose links from there stay on the
      volume: also when they run in a circle.
     */
    method FreeChain(start: nat)
      requires Valid() && LinkOk(Volume().fat, start)
      requires forall c :: c in ChainOf(Volume().fat, start) && c < |Volume().fat| ==> LinkOk(Volume().fat, Volume().fat[c])
      modifies this`disk
      ensures Valid() && Freed(old(Volume()), Volume(), start)
      ensures forall c :: c in ChainOf(old(Volume()).fat, start) && c < |Volume().fat| ==> Volume().fat[c] == 0
    {
      hide FatArea, OnlyCellSet, CellWritten, LeValue;
      hide View, DiskOk, Mirrored, OutsideKept, FreeingAt, ChainOf, Freed;
      ViewOk(bpb, disk);
      var cluster: nat := start;
      ghost var v0 := Volume();
      ghost var left := Clusters(v0.fat);
      FreeingStarts(v0, start);
      while cluster >= 2 && cluster < EOC
        invariant Valid()
        invariant FreeingAt(v0, Volume(), start, cluster, left)
        decreases left, if cluster >= 2 && cluster < EOC then 1 else 0
      {
        FreeingInRange(v0, Volume(), start, cluster, left);
        var next := GetFatEntry(cluster);
        ghost var v := Volume();
        SetFatEntry(cluster, FREE);
        FreeingStep(v0, v, Volume(), start, cluster, left);
        left := left - {cluster};
        cluster := next;
      }
      FreeingDone(v0, Volume(), start, cluster, left);
      assert forall c :: c in ChainOf(v0.fat, start) && c < |Volume().fat| ==> Volume().fat[c] == 0 by {
        FreedCells(v0, Volume(), start);
      }
    }

    method GetLastCluster(start: nat) returns (last: nat)
      requires Valid() && IsChain(Volume().fat, ChainOf(Volume().fat, start)) && ChainOf(Volume().fat, start)[0] == start
      ensures var ch := ChainOf(Volume().fat, start); last == ch[|ch| - 1]
      ensures last < |Volume().fat| && Volume().fat[last] >= 0x0FFF_FFF8
    {
      hide FatArea, OnlyCellSet, CellWritten, LeValue;
      hide View, DiskOk, Mirrored, OutsideKept, Walk, ChainOf;
      ViewOk(bpb, disk);
      ghost var ch := ChainOf(Volume().fat, start);
      ghost var i := 0;
      var cluster := start;
      while true
        invariant 0 <= i < |ch| && cluster == ch[i]
        decreases |ch| - i
      {
        var next := GetFatEntry(cluster);
        assert i < |ch| - 1 ==> next == ch[i + 1] && InRange(Volume().fat, ch[i + 1]);
        if next >= EOC {
          return cluster;
        }
        cluster := next;
        i := i + 1;
      }
      assert false;
    }

    /** Reads from `start` to the first stop mark; it ends exactly when the links lead to one. */
    method ReadChain(start: nat) returns (data: seq<byte>)
      requires Valid() && Readable(Volume().fat, start)
      ensures data == ReadFrom(Volume(), start)
    {
      hide FatArea, OnlyCellSet, CellWritten, LeValue;
      hide View, DiskOk, Mirrored, OutsideKept, ChainBytes;
      ViewOk(bpb, disk);
      ChainBytesEmpty(Volume());
      data := [];
      var cluster: nat := start;
      ghost var v := Volume();
      ghost var left := Clusters(v.fat);
      ghost var seen: seq<nat> := [];
      while true
        invariant Stops(v.fat, cluster, left) && left <= Clusters(v.fat)
        invariant ChainOf(v.fat, start) == seen + Walk(v.fat, cluster, left)
        invariant data == ChainBytes(v, seen)
        decreases left
      {
        if cluster < 2 || cluster >= EOC {
          break;
        }
        var buf := ReadCluster(cluster);
        ChainBytesSnoc(v, seen, cluster);
        seen := seen + [cluster];
        data := data + buf;
        left := left - {cluster};
        cluster := GetFatEntry(cluster);
      }
      assert Walk(v.fat, cluster, left) == [];
      assert seen == ChainOf(v.fat, start);
    }

    /** One turn of the loop of `write_chain`: block `i` of `data`, zero-padded, into `cluster`. */
    method WriteBlock(cluster: nat, data: seq<byte>, i: nat, ghost v0: Vol, ghost ch0: seq<nat>, ghost ch: seq<nat>)
      requires Valid() && Size() > 0 && i < CeilDiv(|data|, Size())
      requires Writing(v0, Volume(), ch0, ch, i, i, data, Size()) && cluster == ch[i]
      modifies this`disk
      ensures Valid() && |Volume().fat| == old(|Volume().fat|)
      ensures Writing(v0, Volume(), ch0, ch, i, i + 1, data, Size())
    {
      hide View, DiskOk, Mirrored, OutsideKept, Writing;
      var clusterSize := bpb.BytesPerCluster();
      ViewOk(bpb, disk);
      ghost var v := Volume();
      var offset := i * clusterSize;
      var end := if offset + clusterSize < |data| then offset + clusterSize else |data|;
      BufferIsBlock(data, i, clusterSize, end);
      var buf := Splice(Zeros(clusterSize), 0, data[offset..end]);
      WritingInRange(v0, v, ch0, ch, i, i, data, Size());
      var _ := WriteCluster(cluster, buf);
      assert buf[..clusterSize] == buf;
      WriteHere(v0, v, Volume(), ch0, ch, i, data, Size());
    }

    /** The cluster after `cluster`: the one it links to, or a new one appended to the chain. */
    method NextCluster(cluster: nat, ghost data: seq<byte>, ghost i: nat, ghost v0: Vol, ghost ch0: seq<nat>, ghost ch: seq<nat>)
      returns (r: Result<nat, FatError>, ghost ch': seq<nat>)
      requires Valid() && Size() > 0 && i + 1 < CeilDiv(|data|, Size())
      requires Writing(v0, Volume(), ch0, ch, i, i + 1, data, Size()) && cluster == ch[i]
      modifies this`disk
      ensures Valid() && |Volume().fat| == old(|Volume().fat|)
      ensures r.Ok? ==> Writing(v0, Volume(), ch0, ch', i + 1, i + 1, data, Size())
      ensures r.Ok? ==> i + 1 < |ch'| && r.value == ch'[i + 1] && ch'[0] == ch[0]
      ensures r.Err? ==> r.error == NoFreeClusters && ch' == ch && Grew(v0, Volume(), ch0, ch, data, Size())
      ensures r.Err? ==> CeilDiv(|data|, Size()) > |ch0| + |FreeSet(v0.fat)| == |ch'| && FreeSet(Volume().fat) == {}
    {
      hide FatArea, OnlyCellSet, CellWritten, LeValue;
      hide View, DiskOk, Mirrored, OutsideKept, Grew, FreeSet, Extended;
      ViewOk(bpb, disk);
      ghost var v := Volume();
      WriteNotAtEnd(v0, v, ch0, ch, i, data, Size());
      ch' := ch;
      var next := GetFatEntry(cluster);
      if next >= EOC {
        var e := ExtendChain(cluster);
        if e.Err? {
          WriteFails(v0, v, ch0, ch, i, data, Size());
          return Err(e.error), ch;
        }
        WriteGrows(v0, v, Volume(), ch0, ch, i, e.value, data, Size());
        return Ok(e.value), ch + [e.value];
      }
      WriteMovesOn(v0, v, ch0, ch, i, data, Size());
      return Ok(next), ch;
    }

    /** The loop of `write_chain`: all blocks, from the head of the chain on. */
    method WriteBlocks(head: nat, data: seq<byte>, ghost v0: Vol, ghost ch0: seq<nat>, ghost ch: seq<nat>)
      returns (r: Result<nat, FatError>, ghost ch': seq<nat>)
      requires Valid() && Size() > 0 && CeilDiv(|data|, Size()) > 0
      requires Writing(v0, Volume(), ch0, ch, 0, 0, data, Size()) && head == ch[0]
      modifies this`disk
      ensures Valid()
      ensures r.Ok? ==> Writing(v0, Volume(), ch0, ch', CeilDiv(|data|, Size()) - 1, CeilDiv(|data|, Size()), data, Size())
      ensures r.Ok? ==> CeilDiv(|data|, Size()) <= |ch'| && r.value == ch'[CeilDiv(|data|, Size()) - 1] && head == ch'[0]
      ensures r.Err? ==> r.error == NoFreeClusters && Grew(v0, Volume(), ch0, ch', data, Size())
      ensures r.Err? ==> CeilDiv(|data|, Size()) > |ch0| + |FreeSet(v0.fat)| == |ch'| && FreeSet(Volume().fat) == {}
    {
      hide View, DiskOk, Mirrored, OutsideKept, Writing, Grew, FreeSet, VolOk;
      var clustersNeeded := CeilDiv(|data|, bpb.BytesPerCluster());
      var cluster := head;
      ghost var at := 0;
      ch' := ch;
      WritingInRange(v0, Volume(), ch0, ch, 0, 0, data, Size());
      for i := 0 to clustersNeeded
        invariant Valid()
        invariant at == (if i < clustersNeeded then i else i - 1)
        invariant Writing(v0, Volume(), ch0, ch', at, i, data, Size())
        invariant at < |ch'| && cluster == ch'[at] && head == ch'[0]
      {
        WriteBlock(cluster, data, i, v0, ch0, ch');
        if i + 1 < clustersNeeded {
          var next;
          next, ch' := NextCluster(cluster, data, i, v0, ch0, ch');
          if next.Err? {
            return Err(next.error), ch';
          }
          cluster := next.value;
          at := i + 1;
        }
      }
      return Ok(cluster), ch';
    }

    /** The cluster that writing starts at: the given one, or a new one when there is none. */
    method FirstCluster(start: nat, ghost data: seq<byte>) returns (r: Result<nat, FatError>, ghost ch: seq<nat>)
      requires Valid() && StartOk(Volume().fat, start)
      modifies this`disk
      ensures Valid()
      ensures r.Ok? ==> Writing(old(Volume()), Volume(), OldChain(old(Volume()).fat, start), ch, 0, 0, data, Size())
      ensures r.Ok? ==> |ch| > 0 && r.value == ch[0]
      ensures r.Err? ==> r.error == NoFreeClusters && start < 2 && disk == old(disk) && FreeSet(old(Volume()).fat) == {}
    {
      hide View, DiskOk, Mirrored, OutsideKept, Writing, ChainOf, Allocated, FreeSet, StartOk, IsChain;
      ViewOk(bpb, disk);
      ghost var v0 := Volume();
      OldChainStarts(v0.fat, start);
      if start < 2 {
        r := AllocateCluster();
        if r.Ok? {
          ch := [r.value];
          WritingStartsFresh(v0, Volume(), r.value, data, Size());
        } else {
          ch := [];
        }
      } else {
        r, ch := Ok(start), OldChain(v0.fat, start);
        WritingStarts(v0, ch, data, Size());
      }
    }

    /**
      Writes `data` over the chain of `start` (none when `start < 2`), which becomes `ch`. It
      fails exactly when the clusters of the chain and the free ones do not suffice.
     */
    method WriteChain(start: nat, data: seq<byte>) returns (r: Result<nat, FatError>, ghost ch: seq<nat>)
      requires Valid() && StartOk(Volume().fat, start)
      modifies this`disk
      ensures Valid()
      ensures data == [] ==> r == Ok(start) && disk == old(disk)
      ensures r.Ok? && data != [] ==> Wrote(old(Volume()), Volume(), OldChain(old(Volume()).fat, start), ch, data, Size())
      ensures r.Ok? && data != [] ==> |ch| > 0 && r.value == ch[0]
      ensures r.Err? ==> r.error == NoFreeClusters && FreeSet(Volume().fat) == {}
      ensures r.Err? ==> |ch| == |OldChain(old(Volume()).fat, start)| + |FreeSet(old(Volume()).fat)|
      ensures r.Err? ==> Grew(old(Volume()), Volume(), OldChain(old(Volume()).fat, start), ch, data, Size())
      ensures r.Ok? <==> (data == [] ||
        CeilDiv(|data|, Size()) <= |OldChain(old(Volume()).fat, start)| + |FreeSet(old(Volume()).fat)|)
    {
      hide FatArea, OnlyCellSet, CellWritten, LeValue;
      hide View, DiskOk, Mirrored, OutsideKept, Writing, Wrote, Grew, ChainOf, FreeSet, StartOk, IsChain, VolOk, Extended, CeilDiv;
      ghost var v0 := Volume();
      ghost var ch0 := OldChain(v0.fat, start);
      ViewOk(bpb, disk);
      VolSizePositive(v0, Size());
      CeilDivBounds(|data|, Size());
      ch := [];
      var clustersNeeded := CeilDiv(|data|, bpb.BytesPerCluster());
      if clustersNeeded == 0 {
        return Ok(start), ch;
      }
      var first;
      first, ch := FirstCluster(start, data);
      if first.Err? {
        NothingGrew(v0, data, Size());
        return first, [];
      }
      var last;
      last, ch := WriteBlocks(first.value, data, v0, ch0, ch);
      if last.Err? {
        return last, ch;
      }
      ghost var v := Volume();
      ViewOk(bpb, disk);
      VolSizePositive(v, Size());
      WritingInRange(v0, v, ch0, ch, clustersNeeded - 1, clustersNeeded, data, Size());
      SetFatEntry(last.value, EOC);
      WriteFinishes(v0, v, Volume(), ch0, ch, clustersNeeded - 1, data, Size());
      return first, ch[..clustersNeeded];
    }

    // ---- directories ----------------------------------------------------------------------

    method ReadDirectory(dirCluster: nat) returns (entries: seq<FatDirEntry>)
      requires Valid() && Readable(Volume().fat, dirCluster)
      ensures entries == DirListing(Volume(), dirCluster)
    {
      var data := ReadChain(dirCluster);
      entries := ScanData(data);
    }

    /** The scanning loop over the bytes of a directory. */
    static method ScanData(data: seq<byte>) returns (entries: seq<FatDirEntry>)
      ensures entries == Listing(SlotsOf(data))
    {
      ghost var slots := SlotsOf(data);
      BeforeAll(slots);
      hide Scan, Before, ScanStep;
      entries := [];
      var lfnParts: seq<LfnEntry> := [];
      var lfnStartOffset: nat := 0;
      var i: nat := 0;
      while i + ENTRY_SIZE <= |data|
        invariant i % ENTRY_SIZE == 0 && i <= |data|
        invariant Before(slots, i / ENTRY_SIZE) == ScanState(entries, lfnParts, lfnStartOffset, false)
      {
        ghost var k := i / ENTRY_SIZE;
        SlotAt(data, k);
        BeforeNext(slots, k);
        var entryData: Slot := data[i..i + ENTRY_SIZE];
        if entryData[0] == 0x00 {
          EndMarkerStep(Before(slots, k), slots[k], k);
          EntriesGrow(slots, k + 1, |slots|);
          return;
        }
        entries, lfnParts, lfnStartOffset := ScanSlot(entryData, i, entries, lfnParts, lfnStartOffset);
        i := i + ENTRY_SIZE;
      }
      assert i / ENTRY_SIZE == |slots|;
    }

    /** The body of the scanning loop, for a slot that is not the end marker. */
    static method ScanSlot(d: Slot, i: nat, entries: seq<FatDirEntry>, lfnParts: seq<LfnEntry>, lfnStartOffset: nat)
      returns (entries': seq<FatDirEntry>, lfnParts': seq<LfnEntry>, lfnStartOffset': nat)
      requires d[0] != 0x00 && i % ENTRY_SIZE == 0
      ensures ScanState(entries', lfnParts', lfnStartOffset', false)
        == ScanStep(ScanState(entries, lfnParts, lfnStartOffset, false), d, i / ENTRY_SIZE)
    {
      entries', lfnParts', lfnStartOffset' := entries, lfnParts, lfnStartOffset;
      if d[0] == DELETED {
        lfnParts' := [];
      } else if d[11] == ATTR_LFN {
        var lfn := ParseLfn(d);
        if lfn.IsLast() {
          lfnParts' := [];
          lfnStartOffset' := i;
        }
        lfnParts' := lfnParts' + [lfn];
      } else {
        var short := ParseShort(d);
        if short.IsVolumeLabel() {
          lfnParts' := [];
          return;
        }
        var shortName := ShownName(short.name);
        var name := shortName;
        if lfnParts != [] {
          var expectedChecksum := LfnChecksum(short.name);
          if forall p :: 0 <= p < |lfnParts| ==> lfnParts[p].checksum == expectedChecksum {
            name := AssembleLfn(lfnParts);
          }
        }
        if shortName != "." && shortName != ".." {
          var entryOffset := if lfnParts != [] then lfnStartOffset else i;
          entries' := entries + [FatDirEntry(name, short, entryOffset, |lfnParts| + 1)];
        }
        lfnParts' := [];
      }
    }

    method FindInDirectory(dirCluster: nat, name: string) returns (r: Option<FatDirEntry>)
      requires Valid() && Readable(Volume().fat, dirCluster)
      ensures r == Lookup(Volume(), dirCluster, name)
      ensures FirstCalled(DirListing(Volume(), dirCluster), name, r)
    {
      hide View, DiskOk, Mirrored, OutsideKept, DirListing;
      var entries := ReadDirectory(dirCluster);
      FoundIsFirst(entries, name);
      r := FindByName(entries, name);
    }

    static method FindByName(entries: seq<FatDirEntry>, name: string) returns (r: Option<FatDirEntry>)
      ensures r == var i := FindIndex(entries, name); if i < |entries| then Some(entries[i]) else None
    {
      hide Lower;
      var nameLower := Lower(name);
      for i := 0 to |entries|
        invariant forall k :: 0 <= k < i ==> Lower(entries[k].name) != nameLower
      {
        if Lower(entries[i].name) == nameLower {
          FirstMatch(entries, name, i);
          return Some(entries[i]);
        }
      }
      FirstMatch(entries, name, |entries|);
      return None;
    }

    /** The loop of `find_free_dir_slots`: where the free run ends, or the one at the end of the data. */
    static method FindRun(data: seq<byte>, slotsNeeded: nat) returns (found: bool, startOffset: nat, consecutiveFree: nat)
      requires slotsNeeded > 0 && |data| % ENTRY_SIZE == 0
      ensures startOffset % ENTRY_SIZE == 0
      ensures found ==> FreeRun(SlotsOf(data), startOffset / ENTRY_SIZE, slotsNeeded)
      ensures found ==> startOffset / ENTRY_SIZE == FirstRoom(SlotsOf(data), slotsNeeded)
      ensures found <==> HasRoom(SlotsOf(data), slotsNeeded)
      ensures !found ==> consecutiveFree < slotsNeeded && consecutiveFree <= |SlotsOf(data)|
      ensures !found ==> FreeRun(SlotsOf(data), |SlotsOf(data)| - consecutiveFree, consecutiveFree)
      ensures !found && consecutiveFree > 0 ==> startOffset == (|SlotsOf(data)| - consecutiveFree) * ENTRY_SIZE
    {
      hide SlotsOf, FreeRun, FirstRoom;
      ghost var slots := SlotsOf(data);
      SlotCount(data);
      EmptyRun(slots);
      consecutiveFree := 0;
      startOffset := 0;
      var i: nat := 0;
      while i + ENTRY_SIZE <= |data|
        invariant i % ENTRY_SIZE == 0 && i <= |data| && consecutiveFree < slotsNeeded
        invariant startOffset % ENTRY_SIZE == 0
        invariant consecutiveFree > 0 ==> startOffset + consecutiveFree * ENTRY_SIZE == i
        invariant consecutiveFree <= i / ENTRY_SIZE <= |slots|
        invariant FreeRun(slots, i / ENTRY_SIZE - consecutiveFree, consecutiveFree)
        invariant forall o: nat :: RoomAt(slots, o, slotsNeeded) ==> o + slotsNeeded > i / ENTRY_SIZE
      {
        RunNext(data, i / ENTRY_SIZE, consecutiveFree);
        if data[i] == 0x00 || data[i] == DELETED {
          if consecutiveFree == 0 {
            startOffset := i;
          }
          consecutiveFree := consecutiveFree + 1;
          if consecutiveFree >= slotsNeeded {
            RunIsRoom(slots, startOffset / ENTRY_SIZE, slotsNeeded);
            FirstRoomIs(slots, slotsNeeded, startOffset / ENTRY_SIZE);
            return true, startOffset, consecutiveFree;
          }
        } else {
          consecutiveFree := 0;
        }
        i := i + ENTRY_SIZE;
        NoRoomEnds(slots, i / ENTRY_SIZE, consecutiveFree, slotsNeeded);
      }
      assert i / ENTRY_SIZE == |slots|;
      found := false;
    }

    /**
      The bytes of the directory and the offset of its first run of free slots that is long
      enough, the slot before which is in use. When no run is long enough (`grown`) a cluster of zeros is appended, and the run
      goes to the end.
     */
    method FindFreeDirSlots(dirCluster: nat, slotsNeeded: nat) returns (data: seq<byte>, offset: nat, ghost grown: bool)
      requires Valid() && slotsNeeded > 0 && |ReadFrom(Volume(), dirCluster)| % ENTRY_SIZE == 0
      requires IsChain(Volume().fat, ChainOf(Volume().fat, dirCluster)) && ChainOf(Volume().fat, dirCluster)[0] == dirCluster
      ensures offset % ENTRY_SIZE == 0
      ensures grown <==> !HasRoom(SlotsOf(ReadFrom(Volume(), dirCluster)), slotsNeeded)
      ensures !grown ==> data == ReadFrom(Volume(), dirCluster) && FreeRun(SlotsOf(data), offset / ENTRY_SIZE, slotsNeeded)
      ensures !grown ==> offset / ENTRY_SIZE == FirstRoom(SlotsOf(data), slotsNeeded)
      ensures grown ==> data == ReadFrom(Volume(), dirCluster) + Zeros(Size())
      ensures grown ==> GrownRun(ReadFrom(Volume(), dirCluster), data, offset, slotsNeeded)
    {
      hide View, DiskOk, Mirrored, OutsideKept, IsChain, FreeRun, ReadFrom, HasRoom, FirstRoom;
      ViewOk(bpb, disk);
      ChainReadable(Volume(), dirCluster);
      data := ReadChain(dirCluster);
      var found, startOffset, consecutiveFree := FindRun(data, slotsNeeded);
      if found {
        return data, startOffset, false;
      }
      var currentSize := |data|;
      var clusterSize := bpb.BytesPerCluster();
      var _ := GetLastCluster(dirCluster);
      offset := if consecutiveFree > 0 then startOffset else currentSize;
      GrownRunHolds(data, clusterSize, offset, consecutiveFree, slotsNeeded);
      data := data + Zeros(clusterSize);
      grown := true;
    }

    /** The copying of `add_dir_entry`: the fragments and the short entry, slot after slot from `offset`. */
    static method PlaceGroup(data: seq<byte>, offset: nat, name: string, lfnEntries: seq<LfnEntry>, short: ShortDirEntry)
      returns (data': seq<byte>)
      requires offset % ENTRY_SIZE == 0 && lfnEntries == LfnsFor(name)
      requires offset + SlotsNeeded(name) * ENTRY_SIZE <= |data|
      ensures |data'| == |data| && Placed(SlotsOf(data), SlotsOf(data'), offset / ENTRY_SIZE, name, short)
    {
      hide LfnsFor, LfnEntry.Serialize, ShortDirEntry.Serialize, SlotsOf;
      ghost var o := offset / ENTRY_SIZE;
      data' := data;
      assert |SlotsOf(data)| == |data| / ENTRY_SIZE by { SlotCount(data); }
      for i := 0 to |lfnEntries|
        invariant |data'| == |data| && |SlotsOf(data')| == |SlotsOf(data)|
        invariant PartPlaced(SlotsOf(data), SlotsOf(data'), o, name, short, i)
      {
        var entryOffset := offset + i * ENTRY_SIZE;
        PatchSlot(data', o + i, lfnEntries[i].Serialize());
        PartPlacedNext(SlotsOf(data), SlotsOf(data'), o, name, short, i);
        data' := Splice(data', entryOffset, lfnEntries[i].Serialize());
      }
      var shortOffset := offset + |lfnEntries| * ENTRY_SIZE;
      PatchSlot(data', o + |lfnEntries|, short.Serialize());
      PartPlacedNext(SlotsOf(data), SlotsOf(data'), o, name, short, |lfnEntries|);
      data' := Splice(data', shortOffset, short.Serialize());
    }

    /**
      Writes a new entry into the first run of free slots that is long enough, growing the
      directory by one cluster if there is none: `base` is what it read, `data` what it wrote.
     */
    method AddDirEntry(dirCluster: nat, name: string, attr: byte, cluster: u32, size: u32)
      returns (r: Result<(), FatError>, ghost base: seq<byte>, ghost data: seq<byte>, ghost o: nat, ghost ch: seq<nat>)
      requires Valid() && |ReadFrom(Volume(), dirCluster)| % ENTRY_SIZE == 0
      requires dirCluster >= 2 && StartOk(Volume().fat, dirCluster)
      modifies this`disk
      ensures Valid()
      ensures base == ReadFrom(old(Volume()), dirCluster) || base == ReadFrom(old(Volume()), dirCluster) + Zeros(Size())
      ensures r == Err(OutOfBounds) ==> disk == old(disk) && SlotsNeeded(name) * ENTRY_SIZE > Size()
      ensures r == Err(OutOfBounds) <==> !HasRoom(SlotsOf(ReadFrom(old(Volume()), dirCluster) + Zeros(Size())), SlotsNeeded(name))
      ensures r == Err(NoFreeClusters) <==>
        (!HasRoom(SlotsOf(ReadFrom(old(Volume()), dirCluster)), SlotsNeeded(name))
         && HasRoom(SlotsOf(ReadFrom(old(Volume()), dirCluster) + Zeros(Size())), SlotsNeeded(name))
         && FreeSet(old(Volume()).fat) == {})
      ensures r != Err(OutOfBounds) ==> AddedTo(base, data, o, name, NewShort(name, attr, cluster, size))
      ensures r != Err(OutOfBounds) ==>
        o == FirstRoom(SlotsOf(ReadFrom(old(Volume()), dirCluster) + Zeros(Size())), SlotsNeeded(name))
      ensures r.Err? && r != Err(OutOfBounds) ==>
        GrownRun(ReadFrom(old(Volume()), dirCluster), base, o * ENTRY_SIZE, SlotsNeeded(name))
      ensures r.Ok? ==> Wrote(old(Volume()), Volume(), ChainOf(old(Volume()).fat, dirCluster), ch, data, Size())
      ensures r.Err? && r != Err(OutOfBounds) ==>
        r == Err(NoFreeClusters) && Grew(old(Volume()), Volume(), ChainOf(old(Volume()).fat, dirCluster), ch, data, Size())
    {
      hide View, DiskOk, Mirrored, OutsideKept, IsChain, ReadFrom, NeedsLfn, FreeRun, Wrote, Grew, Placed, SlotsOf, HasRoom;
      hide FirstRoom, CeilDiv, FreeSet;
      hide GrownRun, ShortNameOf, ChecksumOf, LfnEntriesOf, NewShort, ChainOf, Whole;
      base, data, o, ch := ReadFrom(Volume(), dirCluster), [], 0, [];
      var shortName := MakeShortName(name);
      var lfnEntries: seq<LfnEntry> := [];
      if NeedsLfn(name) {
        lfnEntries := CreateLfnEntries(name, shortName);
      }
      var slotsNeeded := |lfnEntries| + 1;
      var bytes, offset;
      ghost var grown;
      bytes, offset, grown := FindFreeDirSlots(dirCluster, slotsNeeded);
      base, o := bytes, offset / ENTRY_SIZE;
      RunFits(ReadFrom(Volume(), dirCluster), bytes, offset, slotsNeeded, Size(), grown);
      FitsExactly(ReadFrom(Volume(), dirCluster), bytes, offset, slotsNeeded, Size(), grown);
      if offset + slotsNeeded * ENTRY_SIZE > |bytes| {
        return Err(OutOfBounds), base, data, o, ch;
      }
      var bytes' := PlaceGroup(bytes, offset, name, lfnEntries, NewShort(name, attr, cluster, size));
      data := bytes';
      ghost var v := Volume();
      ViewOk(bpb, disk);
      if !grown {
        SameLengthFits(v, dirCluster, bytes', Size());
      } else {
        OneClusterMore(v, dirCluster, bytes', Size());
      }
      var w;
      w, ch := WriteChain(dirCluster, bytes');
      r := if w.Ok? then Ok(()) else Err(w.error);
    }

    /** Rewrites the short entry of `entry` in place. */
    method UpdateDirEntry(dirCluster: nat, entry: FatDirEntry)
      returns (r: Result<(), FatError>, ghost data: seq<byte>, ghost ch: seq<nat>)
      requires Valid() && entry.entryCount > 0
      requires dirCluster >= 2 && StartOk(Volume().fat, dirCluster)
      modifies this`disk
      ensures Valid()
      ensures var at := entry.entryOffset + (entry.entryCount - 1) * ENTRY_SIZE;
        var before := ReadFrom(old(Volume()), dirCluster);
        if at + ENTRY_SIZE > |before| then r == Err(InvalidEntryOffset) && disk == old(disk)
        else r.Ok? && data == Splice(before, at, entry.short.Serialize())
      ensures r.Ok? ==> Wrote(old(Volume()), Volume(), ChainOf(old(Volume()).fat, dirCluster), ch, data, Size())
    {
      hide View, DiskOk, Mirrored, OutsideKept, IsChain, ReadFrom, Wrote, Grew, ShortDirEntry.Serialize;
      ghost var v := Volume();
      ViewOk(bpb, disk);
      ChainStartReadable(v, dirCluster);
      ch := [];
      var bytes := ReadChain(dirCluster);
      data := bytes;
      var shortOffset := entry.entryOffset + (entry.entryCount - 1) * ENTRY_SIZE;
      if shortOffset + ENTRY_SIZE > |bytes| {
        return Err(InvalidEntryOffset), data, ch;
      }
      bytes := Splice(bytes, shortOffset, entry.short.Serialize());
      data := bytes;
      SameLengthFits(v, dirCluster, bytes, Size());
      var w;
      w, ch := WriteChain(dirCluster, bytes);
      r := Ok(());
    }

    /** Marks `entryCount` slots deleted, from the one at `entryOffset` on. */
    static method MarkDeleted(data: seq<byte>, entryOffset: nat, entryCount: nat) returns (data': seq<byte>)
      requires entryOffset % ENTRY_SIZE == 0 && |data| % ENTRY_SIZE == 0
      ensures |data'| == |data|
      ensures SlotsOf(data') == Marked(SlotsOf(data), entryOffset / ENTRY_SIZE, entryOffset / ENTRY_SIZE + entryCount)
    {
      hide SlotsOf;
      ghost var o := entryOffset / ENTRY_SIZE;
      ghost var slots := SlotsOf(data);
      SlotCount(data);
      data' := data;
      for i := 0 to entryCount
        invariant |data'| == |data| && SlotsOf(data') == Marked(slots, o, o + i)
      {
        var offset := entryOffset + i * ENTRY_SIZE;
        if offset < |data'| {
          PatchFirstByte(data', o + i, DELETED);
          data' := data'[offset := DELETED];
        }
      }
    }

    /** Marks the slots of `entry` deleted. */
    method RemoveDirEntry(dirCluster: nat, entry: FatDirEntry)
      returns (r: Result<(), FatError>, ghost data: seq<byte>, ghost ch: seq<nat>)
      requires Valid() && entry.entryOffset % ENTRY_SIZE == 0 && |ReadFrom(Volume(), dirCluster)| % ENTRY_SIZE == 0
      requires dirCluster >= 2 && StartOk(Volume().fat, dirCluster)
      modifies this`disk
      ensures Valid() && r.Ok?
      ensures |data| == |ReadFrom(old(Volume()), dirCluster)|
      ensures SlotsOf(data) == Marked(SlotsOf(ReadFrom(old(Volume()), dirCluster)),
        entry.entryOffset / ENTRY_SIZE, entry.entryOffset / ENTRY_SIZE + entry.entryCount)
      ensures Wrote(old(Volume()), Volume(), ChainOf(old(Volume()).fat, dirCluster), ch, data, Size())
    {
      hide View, DiskOk, Mirrored, OutsideKept, IsChain, ReadFrom, Wrote, Grew;
      ghost var v := Volume();
      ViewOk(bpb, disk);
      ChainStartReadable(v, dirCluster);
      var bytes := ReadChain(dirCluster);
      bytes := MarkDeleted(bytes, entry.entryOffset, entry.entryCount);
      data := bytes;
      SameLengthFits(v, dirCluster, bytes, Size());
      var w;
      w, ch := WriteChain(dirCluster, bytes);
      r := Ok(());
    }

    // ---- paths ----------------------------------------------------------------------------

    ghost predicate WellFormed(g: Objs)
      reads this
    {
      Valid() && WF(Volume(), g, bpb.rootCluster, Size(), None)
    }

    method ResolvePath(path: string, ghost g: Objs) returns (r: Result<(nat, Option<FatDirEntry>), FatError>)
      requires WellFormed(g)
      ensures Components(path) == [] ==> r == Ok((bpb.rootCluster, None))
      ensures Components(path) != [] ==>
        r == match Resolve(Volume(), bpb.rootCluster, Components(path))
             case Ok(found) => Ok((found.0, Some(found.1)))
             case Err(e) => Err(e)
    {
      hide View, DiskOk, Mirrored, OutsideKept, WF, Resolve, FatDirEntry.Cluster, FatDirEntry.IsDirectory, RefOk;
      var parts := Components(path);
      if parts == [] {
        return Ok((bpb.rootCluster, None));
      }
      ghost var v := Volume();
      var currentCluster: nat := bpb.rootCluster;
      RootIsDir(v, g, bpb.rootCluster, Size());
      assert parts[0..] == parts;
      for i := 0 to |parts|
        invariant IsDir(g, currentCluster) && i < |parts|
        invariant Resolve(v, bpb.rootCluster, parts) == Resolve(v, currentCluster, parts[i..])
      {
        ObjReadable(v, g, bpb.rootCluster, Size(), currentCluster);
        ResolveStep(v, currentCluster, parts[i..]);
        var entry := FindInDirectory(currentCluster, parts[i]);
        if entry.None? {
          return Err(PathNotFound);
        }
        if i == |parts| - 1 {
          return Ok((currentCluster, entry));
        }
        if !entry.value.IsDirectory() {
          return Err(NotADirectory);
        }
        DirKnown(v, g, bpb.rootCluster, Size(), currentCluster, FindIndex(DirListing(v, currentCluster), parts[i]));
        assert parts[i..][1..] == parts[i + 1..];
        currentCluster := entry.value.Cluster();
      }
      assert false;
    }

    /** The directory that the last component of `path` is in, and that component. */
    method SplitPath(path: string, ghost g: Objs) returns (r: Result<(nat, string), FatError>)
      requires WellFormed(g)
      ensures Components(path) == [] ==> r == Err(InvalidPath)
      ensures r.Err? ==> forall d :: !IsParent(Volume(), bpb.rootCluster, Components(path), d)
      ensures r.Ok? ==> Components(path) != [] && r.value.1 == Components(path)[|Components(path)| - 1]
      ensures r.Ok? ==> r.value.1 != "" && IsDir(g, r.value.0)
      ensures r.Ok? ==> IsParent(Volume(), bpb.rootCluster, Components(path), r.value.0)
      ensures r.Err? && Components(path) != [] ==> Resolve(Volume(), bpb.rootCluster, Components(path)).Err?
    {
      hide View, DiskOk, Mirrored, OutsideKept, WF, Resolve, FatDirEntry.Cluster, FatDirEntry.IsDirectory, RefOk, Components;
      ghost var v := Volume();
      RootIsDir(v, g, bpb.rootCluster, Size());
      TrimComponents(path);
      var p := Trim(path);
      if p == "" {
        ComponentsOfName("");
        return Err(InvalidPath);
      }
      LastComponent(p);
      var pos := LastSlash(p);
      if pos < 0 {
        assert p[pos + 1..] == p && Components(p) == [p];
        return Ok((bpb.rootCluster, p));
      }
      ghost var parts := Components(p);
      assert parts[..|parts| - 1] == Components(p[..pos]) && |parts| > 1;
      ResolveSplit(v, bpb.rootCluster, parts);
      var parent := ResolvePath(p[..pos], g);
      if parent.Err? {
        return Err(parent.error);
      }
      Resolved(v, g, bpb.rootCluster, Size(), bpb.rootCluster, Components(p[..pos]));
      var e := parent.value.1.value;
      if !e.IsDirectory() {
        return Err(ParentNotADirectory);
      }
      RefIsDir(g, parent.value.0, e);
      return Ok((e.Cluster(), p[pos + 1..]));
    }
  }
}
