/**
  Where the FAT copies and the clusters lie on the volume, and what a volume of sectors means
  as a `Vol`: the masked cells of the first FAT copy, and the bytes of each cluster.
 */
module FatLayout {
  import opened Bytes
  import opened FatVolume

  const SECTOR_SIZE: nat := 512

  type Sector = s: seq<byte> | |s| == 512 witness seq(512, _ => 0)

  /** The fields of the boot sector that the driver computes with. */
  datatype Bpb = Bpb(
    bytesPerSector: u16,
    sectorsPerCluster: byte,
    reservedSectors: u16,
    numFats: byte,
    totalSectors: u32,
    sectorsPerFat: u32,
    rootCluster: u32
  ) {
    function FatStart(): nat { reservedSectors }

    function DataStart(): nat { reservedSectors + numFats * sectorsPerFat }

    function BytesPerCluster(): nat { bytesPerSector * sectorsPerCluster }

    function TotalClusters(): nat
      requires sectorsPerCluster > 0 && DataStart() <= totalSectors
    {
      (totalSectors - DataStart()) / sectorsPerCluster
    }

    /** One more than the highest cluster number. */
    function Cells(): nat
      requires sectorsPerCluster > 0 && DataStart() <= totalSectors
    {
      TotalClusters() + 2
    }

    function ClusterToSector(c: nat): nat
      requires c >= 2
    {
      DataStart() + (c - 2) * sectorsPerCluster
    }

    function FatSector(copy: nat, c: nat): nat {
      FatStart() + copy * sectorsPerFat + c * 4 / SECTOR_SIZE
    }

    /** A layout the driver's arithmetic is right for; the source does not check all of it. */
    ghost predicate Valid() {
      && bytesPerSector == SECTOR_SIZE
      && sectorsPerCluster > 0 && numFats > 0
      && DataStart() <= totalSectors
      && Cells() <= MAX_CELLS
      && Cells() * 4 <= sectorsPerFat * SECTOR_SIZE
    }
  }

  /** The sectors of FAT copy `copy` lie between the reserved sectors and the data area, after copy `copy - 1`. */
  lemma FatSectorInFat(b: Bpb, copy: nat, c: nat)
    requires b.Valid() && copy < b.numFats && c < b.Cells()
    ensures b.FatStart() + copy * b.sectorsPerFat <= b.FatSector(copy, c) < b.FatStart() + (copy + 1) * b.sectorsPerFat
    ensures b.FatStart() <= b.FatSector(copy, c) < b.DataStart() <= b.totalSectors
  {
    assert c * 4 / SECTOR_SIZE < b.sectorsPerFat;
    SliceBounds(copy, b.numFats, b.sectorsPerFat);
  }

  lemma FatCopiesApart(b: Bpb, copy: nat, other: nat, c: nat, d: nat)
    requires b.Valid() && copy < b.numFats && other < b.numFats && c < b.Cells() && d < b.Cells()
    requires copy != other
    ensures b.FatSector(copy, c) != b.FatSector(other, d)
  {
    FatSectorInFat(b, copy, c);
    FatSectorInFat(b, other, d);
    if copy < other {
      SliceBounds(copy, other, b.sectorsPerFat);
    } else {
      SliceBounds(other, copy, b.sectorsPerFat);
    }
  }

  /** Every cluster lies in the data area, and inside the volume. */
  lemma ClusterInVolume(b: Bpb, c: nat)
    requires b.Valid() && 2 <= c < b.Cells()
    ensures b.DataStart() <= b.ClusterToSector(c)
    ensures b.ClusterToSector(c) + b.sectorsPerCluster <= b.totalSectors
  {
    var spc, n := b.sectorsPerCluster, b.TotalClusters();
    SliceBounds(c - 2, n, spc);
    assert n * spc <= b.totalSectors - b.DataStart();
  }

  /** Two clusters share no sector. */
  lemma ClustersApart(b: Bpb, c: nat, d: nat)
    requires 2 <= c < d
    ensures b.ClusterToSector(c) + b.sectorsPerCluster <= b.ClusterToSector(d)
  {
    SliceBounds(c - 2, d - 2, b.sectorsPerCluster);
  }

  // ---- what the sectors mean --------------------------------------------------------------

  ghost predicate DiskOk(b: Bpb, disk: seq<Sector>) {
    b.Valid() && |disk| >= b.totalSectors
  }

  /** Where the cell of cluster `c` starts in its sector. */
  function CellOffset(c: nat): (offset: nat)
    ensures offset + 4 <= SECTOR_SIZE && offset == c * 4 % SECTOR_SIZE
    ensures offset == c % 128 * 4
  {
    assert c * 4 == c / 128 * SECTOR_SIZE + c % 128 * 4;
    c * 4 % SECTOR_SIZE
  }

  function CellAt(s: Sector, c: nat): u32 {
    var offset := CellOffset(c);
    Le32(s[offset], s[offset + 1], s[offset + 2], s[offset + 3])
  }

  /** The whole 32-bit cell of cluster `c` in one FAT copy. */
  function RawCell(b: Bpb, disk: seq<Sector>, copy: nat, c: nat): u32 {
    if b.FatSector(copy, c) < |disk| then CellAt(disk[b.FatSector(copy, c)], c) else 0
  }

  function ClusterSectors(b: Bpb, disk: seq<Sector>, c: nat): seq<Sector> {
    if c >= 2 && b.ClusterToSector(c) + b.sectorsPerCluster <= |disk|
    then disk[b.ClusterToSector(c)..b.ClusterToSector(c) + b.sectorsPerCluster] else []
  }

  function ClusterData(b: Bpb, disk: seq<Sector>, c: nat): seq<byte> {
    Concat(ClusterSectors(b, disk, c))
  }

  ghost function View(b: Bpb, disk: seq<Sector>): Vol
    requires DiskOk(b, disk)
  {
    Vol(seq(b.Cells(), c requires 0 <= c < b.Cells() => RawCell(b, disk, 0, c) % CELL),
        seq(b.Cells(), c requires 0 <= c < b.Cells() => ClusterData(b, disk, c)))
  }

  // ---- where on the volume ----------------------------------------------------------------

  /** The bytes of one FAT copy. */
  function FatArea(b: Bpb, disk: seq<Sector>, copy: nat): seq<byte> {
    var first := b.reservedSectors + copy * b.sectorsPerFat;
    if first + b.sectorsPerFat <= |disk| then Concat(disk[first..first + b.sectorsPerFat]) else []
  }

  /** The copies follow the reserved sectors, one after the other, before the data. */
  lemma FatAreaInside(b: Bpb, disk: seq<Sector>, copy: nat)
    requires DiskOk(b, disk) && copy < b.numFats
    ensures b.reservedSectors + copy * b.sectorsPerFat + b.sectorsPerFat <= b.DataStart() <= |disk|
    ensures |FatArea(b, disk, copy)| == b.sectorsPerFat * SECTOR_SIZE
  {
    SliceBounds(copy, b.numFats, b.sectorsPerFat);
    var first := b.reservedSectors + copy * b.sectorsPerFat;
    ConcatLength(disk[first..first + b.sectorsPerFat], SECTOR_SIZE);
  }

  /** Byte `r` of sector `q` of a copy, whose first sector is `first`. */
  lemma FatAreaByte(b: Bpb, disk: seq<Sector>, copy: nat, first: nat, q: nat, r: nat)
    requires DiskOk(b, disk) && copy < b.numFats && first == b.reservedSectors + copy * b.sectorsPerFat
    requires q < b.sectorsPerFat && r < SECTOR_SIZE
    ensures first + b.sectorsPerFat <= |disk| && q * SECTOR_SIZE + r < |FatArea(b, disk, copy)|
    ensures FatArea(b, disk, copy)[q * SECTOR_SIZE + r] == disk[first + q][r]
  {
    FatAreaInside(b, disk, copy);
    hide Concat, DiskOk;
    SectorsElement(disk, first, b.sectorsPerFat, q, r);
  }

  lemma SectorsElement(disk: seq<Sector>, first: nat, n: nat, q: nat, r: nat)
    requires first + n <= |disk| && q < n && r < SECTOR_SIZE
    ensures q * SECTOR_SIZE + r < |Concat(disk[first..first + n])|
    ensures Concat(disk[first..first + n])[q * SECTOR_SIZE + r] == disk[first + q][r]
  {
    hide Concat;
    ConcatElement(disk[first..first + n], SECTOR_SIZE, q, r);
  }

  lemma CellInArea(fat: seq<byte>, s: Sector, c: nat, at: nat)
    requires 4 * c == at + CellOffset(c) && 4 * c + 4 <= |fat|
    requires var o := CellOffset(c);
      fat[at + o] == s[o] && fat[at + (o + 1)] == s[o + 1] && fat[at + (o + 2)] == s[o + 2] && fat[at + (o + 3)] == s[o + 3]
    ensures LeValue(fat[4 * c..4 * c + 4]) == CellAt(s, c)
  {
    hide LeValue, Le32;
    LeValue4(fat, 4 * c);
  }

  /** The cell of cluster `c` is the little-endian number in bytes `4 * c` to `4 * c + 3` of its FAT copy. */
  lemma CellIsBytes(b: Bpb, disk: seq<Sector>, copy: nat, c: nat)
    requires DiskOk(b, disk) && copy < b.numFats && c < b.Cells()
    ensures 4 * c + 4 <= |FatArea(b, disk, copy)|
    ensures RawCell(b, disk, copy, c) == LeValue(FatArea(b, disk, copy)[4 * c..4 * c + 4])
  {
    hide FatArea, LeValue, CellAt;
    FatSectorInFat(b, copy, c);
    CellPlace(c);
    CellOfSector(b, disk, copy, c, b.reservedSectors + copy * b.sectorsPerFat, c * 4 / SECTOR_SIZE);
  }

  lemma CellOfSector(b: Bpb, disk: seq<Sector>, copy: nat, c: nat, first: nat, q: nat)
    requires DiskOk(b, disk) && copy < b.numFats && first == b.reservedSectors + copy * b.sectorsPerFat
    requires q < b.sectorsPerFat && 4 * c == q * SECTOR_SIZE + CellOffset(c)
    ensures first + q < |disk| && 4 * c + 4 <= |FatArea(b, disk, copy)|
    ensures CellAt(disk[first + q], c) == LeValue(FatArea(b, disk, copy)[4 * c..4 * c + 4])
  {
    hide FatArea, LeValue, DiskOk, CellAt;
    var o := CellOffset(c);
    FatAreaByte(b, disk, copy, first, q, o);
    FatAreaByte(b, disk, copy, first, q, o + 1);
    FatAreaByte(b, disk, copy, first, q, o + 2);
    FatAreaByte(b, disk, copy, first, q, o + 3);
    CellInArea(FatArea(b, disk, copy), disk[first + q], c, q * SECTOR_SIZE);
  }

  /** The volume's cells are those of the first copy, without their top four bits. */
  lemma ViewIsBytes(b: Bpb, disk: seq<Sector>, c: nat)
    requires DiskOk(b, disk) && c < b.Cells()
    ensures 4 * c + 4 <= |FatArea(b, disk, 0)|
    ensures View(b, disk).fat[c] == LeValue(FatArea(b, disk, 0)[4 * c..4 * c + 4]) % 0x1000_0000
  {
    CellIsBytes(b, disk, 0, c);
  }

  lemma ViewIsCell(b: Bpb, disk: seq<Sector>, c: nat)
    requires DiskOk(b, disk) && c < b.Cells()
    ensures var s, o := b.FatStart() + c * 4 / SECTOR_SIZE, c * 4 % SECTOR_SIZE;
      && s < |disk| && o + 4 <= SECTOR_SIZE
      && View(b, disk).fat[c] == Le32(disk[s][o], disk[s][o + 1], disk[s][o + 2], disk[s][o + 3]) % CELL
  {
    hide Le32;
    FatSectorInFat(b, 0, c);
    assert b.FatSector(0, c) == b.FatStart() + c * 4 / SECTOR_SIZE;
    assert CellOffset(c) == c * 4 % SECTOR_SIZE;
  }

  /** There are as many clusters as fit behind the FAT copies, and each is its sectors in order. */
  lemma ClusterIsSectors(b: Bpb, disk: seq<Sector>, c: nat)
    requires DiskOk(b, disk) && c >= 2
    ensures var last := b.reservedSectors + b.numFats * b.sectorsPerFat + (c - 1) * b.sectorsPerCluster;
      && (c < |View(b, disk).data| <==> last <= b.totalSectors)
      && (c < |View(b, disk).data| ==>
            0 <= last - b.sectorsPerCluster <= last <= |disk| && View(b, disk).data[c] == Concat(disk[last - b.sectorsPerCluster..last]))
  {
    hide Concat, RawCell, Bpb.Cells, Bpb.TotalClusters, Bpb.ClusterToSector, Bpb.DataStart;
    ClusterCount(b, c);
    ClusterEnd(b, c);
  }

  lemma ClusterEnd(b: Bpb, c: nat)
    requires c >= 2
    ensures b.DataStart() == b.reservedSectors + b.numFats * b.sectorsPerFat
    ensures b.ClusterToSector(c) + b.sectorsPerCluster == b.DataStart() + (c - 1) * b.sectorsPerCluster
  {
  }

  lemma ClusterCount(b: Bpb, c: nat)
    requires b.Valid() && c >= 2
    ensures c < b.Cells() <==> b.DataStart() + (c - 1) * b.sectorsPerCluster <= b.totalSectors
  {
    var n, spc, room := b.TotalClusters(), b.sectorsPerCluster, b.totalSectors - b.DataStart();
    hide Bpb.DataStart;
    QuotientBound(room, spc, c - 1);
  }

  lemma QuotientBound(x: nat, d: nat, k: nat)
    requires d > 0
    ensures k <= x / d <==> k * d <= x
  {
    var q := x / d;
    assert x == q * d + x % d;
    if k <= q {
      assert (q - k) * d >= 0;
    } else {
      SliceBounds(q, k, d);
    }
  }

  /** Nothing before the FAT copies or behind the volume is different. */
  ghost predicate OutsideKept(b: Bpb, disk: seq<Sector>, disk': seq<Sector>) {
    && |disk'| == |disk|
    && forall s :: 0 <= s < |disk| && (s < b.reservedSectors || b.totalSectors <= s) ==> disk'[s] == disk[s]
  }

  /** What is kept from the mount on is kept from then on. */
  lemma OutsideKeptAlways(b: Bpb, mounted: seq<Sector>, disk: seq<Sector>)
    requires OutsideKept(b, mounted, disk)
    ensures forall disk' :: OutsideKept(b, mounted, disk') ==> OutsideKept(b, disk, disk')
  {
    forall disk' | OutsideKept(b, mounted, disk') ensures OutsideKept(b, disk, disk') {
      OutsideKeptTwice(b, mounted, disk, disk');
    }
  }

  lemma OutsideKeptTwice(b: Bpb, mounted: seq<Sector>, disk: seq<Sector>, disk': seq<Sector>)
    requires OutsideKept(b, mounted, disk)
    ensures OutsideKept(b, disk, disk') <==> OutsideKept(b, mounted, disk')
  {
  }

  lemma ClusterDataLength(b: Bpb, disk: seq<Sector>, c: nat)
    requires DiskOk(b, disk) && 2 <= c < b.Cells()
    ensures |ClusterData(b, disk, c)| == b.BytesPerCluster()
  {
    ClusterInVolume(b, c);
    ConcatLength(ClusterSectors(b, disk, c), SECTOR_SIZE);
    assert b.sectorsPerCluster * SECTOR_SIZE == b.BytesPerCluster();
  }

  lemma ViewOk(b: Bpb, disk: seq<Sector>)
    requires DiskOk(b, disk)
    ensures VolOk(View(b, disk), b.BytesPerCluster()) && |View(b, disk).fat| == b.Cells()
  {
    forall c | 2 <= c < b.Cells() ensures |ClusterData(b, disk, c)| == b.BytesPerCluster() {
      ClusterDataLength(b, disk, c);
    }
  }

  lemma ClusterHoldsDots(b: Bpb)
    requires b.Valid()
    ensures b.BytesPerCluster() >= 64
  {
    SliceBounds(0, b.sectorsPerCluster, SECTOR_SIZE);
  }

  // ---- writing cells ----------------------------------------------------------------------

  /** The low 28 bits of `value` under the top four bits of `existing`. */
  function Merge(existing: u32, value: u32): u32 {
    var top := existing / CELL;
    assert 0 <= top <= 15;
    top * CELL + value % CELL
  }

  lemma CellsApart(c: nat, d: nat)
    requires c != d && c * 4 / SECTOR_SIZE == d * 4 / SECTOR_SIZE
    ensures CellOffset(c) + 4 <= CellOffset(d) || CellOffset(d) + 4 <= CellOffset(c)
  {
  }

  /** Read-modify-write of the four bytes of a cell. */
  function PatchCell(s: Sector, c: nat, value: u32): Sector {
    Splice(s, CellOffset(c), ToLe32(Merge(CellAt(s, c), value)))
  }

  lemma PatchCellReads(s: Sector, c: nat, d: nat, value: u32)
    requires c * 4 / SECTOR_SIZE == d * 4 / SECTOR_SIZE
    ensures CellAt(PatchCell(s, c, value), d) == if d == c then Merge(CellAt(s, c), value) else CellAt(s, d)
  {
    if d != c {
      CellsApart(c, d);
    }
  }

  /**
    `disk'` is `disk` with the cell of `cluster` set in the first `copies` FAT copies: their top
    four bits, every other cell and every sector outside the FATs are untouched.
   */
  ghost predicate CellWritten(b: Bpb, disk: seq<Sector>, disk': seq<Sector>, cluster: nat, value: u32, copies: nat)
    requires b.Valid()
  {
    && |disk'| == |disk|
    && (forall copy: nat, c: nat :: copy < b.numFats && c < b.Cells() ==>
          RawCell(b, disk', copy, c) ==
            if copy < copies && c == cluster then Merge(RawCell(b, disk, copy, c), value) else RawCell(b, disk, copy, c))
    && (forall s :: 0 <= s < |disk| && !(b.FatStart() <= s < b.DataStart()) ==> disk'[s] == disk[s])
  }

  /** `disk'` is `disk` with the sector of the cell patched in the first `copies` FAT copies. */
  ghost predicate SectorsPatched(b: Bpb, disk: seq<Sector>, disk': seq<Sector>, cluster: nat, value: u32, copies: nat) {
    && |disk'| == |disk|
    && forall s: nat :: s < |disk| ==>
         disk'[s] == if IsCellSector(b, s, cluster, copies) then PatchCell(disk[s], cluster, value) else disk[s]
  }

  ghost predicate IsCellSector(b: Bpb, s: nat, cluster: nat, copies: nat) {
    exists copy: nat :: copy < copies && s == b.FatSector(copy, cluster)
  }

  lemma SectorsPatchedStep(b: Bpb, disk: seq<Sector>, before: seq<Sector>, cluster: nat, value: u32, copy: nat, s: nat, sector: Sector)
    requires DiskOk(b, disk) && cluster < b.Cells() && copy < b.numFats
    requires SectorsPatched(b, disk, before, cluster, value, copy)
    requires s == b.FatSector(copy, cluster) < |before| && sector == PatchCell(before[s], cluster, value)
    ensures SectorsPatched(b, disk, before[s := sector], cluster, value, copy + 1)
  {
    hide PatchCell;
    var after := before[s := sector];
    if IsCellSector(b, s, cluster, copy) {
      var other: nat :| other < copy && s == b.FatSector(other, cluster);
      FatCopiesApart(b, other, copy, cluster, cluster);
    }
    assert IsCellSector(b, s, cluster, copy + 1);
    forall t: nat | t < |disk|
      ensures after[t] == if IsCellSector(b, t, cluster, copy + 1) then PatchCell(disk[t], cluster, value) else disk[t]
    {
      if t != s && IsCellSector(b, t, cluster, copy + 1) {
        var other: nat :| other < copy + 1 && t == b.FatSector(other, cluster);
        assert IsCellSector(b, t, cluster, copy);
      }
    }
  }

  /**
    In the bytes of a FAT copy the low 28 bits of one cell have become those of `value`; its top
    four bits and every other byte are as they were.
   */
  ghost predicate CellSet(fat: seq<byte>, fat': seq<byte>, c: nat, value: u32) {
    && |fat'| == |fat| && 4 * c + 4 <= |fat|
    && (forall i :: 0 <= i < |fat| && !(4 * c <= i < 4 * c + 4) ==> fat'[i] == fat[i])
    && LeValue(fat'[4 * c..4 * c + 4]) == LeValue(fat[4 * c..4 * c + 4]) / 0x1000_0000 * 0x1000_0000 + value % 0x1000_0000
  }

  /** The cell is set in every FAT copy, and no sector outside the copies is different. */
  ghost predicate OnlyCellSet(b: Bpb, disk: seq<Sector>, disk': seq<Sector>, c: nat, value: u32) {
    && |disk'| == |disk|
    && (forall copy: nat :: copy < b.numFats ==> CellSet(FatArea(b, disk, copy), FatArea(b, disk', copy), c, value))
    && (forall s :: 0 <= s < |disk| && !(0 <= s - b.reservedSectors < b.numFats * b.sectorsPerFat) ==> disk'[s] == disk[s])
  }

  lemma PatchedByte(s: Sector, c: nat, value: u32, r: nat)
    requires r < SECTOR_SIZE && !(CellOffset(c) <= r < CellOffset(c) + 4)
    ensures PatchCell(s, c, value)[r] == s[r]
  {
  }

  /** A sector of one copy belongs to no other. */
  lemma SectorOfCopy(b: Bpb, copy: nat, q: nat, other: nat, c: nat)
    requires b.Valid() && copy < b.numFats && other < b.numFats && q < b.sectorsPerFat && c < b.Cells()
    requires b.reservedSectors + copy * b.sectorsPerFat + q == b.FatSector(other, c)
    ensures other == copy && q == c * 4 / SECTOR_SIZE
  {
    FatSectorInFat(b, other, c);
    if copy < other {
      SliceBounds(copy, other, b.sectorsPerFat);
    } else if other < copy {
      SliceBounds(other, copy, b.sectorsPerFat);
    }
  }

  lemma OtherByteKept(b: Bpb, disk: seq<Sector>, disk': seq<Sector>, cluster: nat, value: u32, copy: nat, i: nat)
    requires DiskOk(b, disk) && DiskOk(b, disk') && cluster < b.Cells() && copy < b.numFats
    requires SectorsPatched(b, disk, disk', cluster, value, b.numFats)
    requires i < b.sectorsPerFat * SECTOR_SIZE && !(4 * cluster <= i < 4 * cluster + 4)
    ensures i < |FatArea(b, disk, copy)| && i < |FatArea(b, disk', copy)|
    ensures FatArea(b, disk', copy)[i] == FatArea(b, disk, copy)[i]
  {
    hide FatArea, PatchCell, Bpb.DataStart, Bpb.Cells, Bpb.FatSector, CellOffset;
    var q, r := i / SECTOR_SIZE, i % SECTOR_SIZE;
    var first := b.reservedSectors + copy * b.sectorsPerFat;
    FatAreaByte(b, disk, copy, first, q, r);
    FatAreaByte(b, disk', copy, first, q, r);
    var s := first + q;
    if IsCellSector(b, s, cluster, b.numFats) {
      var other: nat :| other < b.numFats && s == b.FatSector(other, cluster);
      SectorOfCopy(b, copy, q, other, cluster);
      assert i == q * SECTOR_SIZE + r && 4 * cluster == q * SECTOR_SIZE + CellOffset(cluster) by { CellPlace(cluster); }
      PatchedByte(disk[s], cluster, value, r);
    }
  }

  lemma CellPlace(c: nat)
    ensures 4 * c == c * 4 / SECTOR_SIZE * SECTOR_SIZE + CellOffset(c)
  {
  }

  lemma CellMerged(b: Bpb, disk: seq<Sector>, disk': seq<Sector>, cluster: nat, value: u32, copy: nat)
    requires DiskOk(b, disk) && cluster < b.Cells() && copy < b.numFats
    requires CellWritten(b, disk, disk', cluster, value, b.numFats)
    ensures RawCell(b, disk', copy, cluster) == RawCell(b, disk, copy, cluster) / 0x1000_0000 * 0x1000_0000 + value % 0x1000_0000
  {
    hide RawCell;
  }

  /** Setting a cell, seen in the bytes of every FAT copy. */
  lemma CellSetInCopy(b: Bpb, disk: seq<Sector>, disk': seq<Sector>, cluster: nat, value: u32, copy: nat)
    requires DiskOk(b, disk) && DiskOk(b, disk') && cluster < b.Cells() && copy < b.numFats
    requires SectorsPatched(b, disk, disk', cluster, value, b.numFats) && CellWritten(b, disk, disk', cluster, value, b.numFats)
    ensures CellSet(FatArea(b, disk, copy), FatArea(b, disk', copy), cluster, value)
  {
    hide FatArea, RawCell, SectorsPatched, CellWritten, LeValue, Merge, DiskOk, Bpb.DataStart, Bpb.Cells;
    FatAreaInside(b, disk, copy);
    FatAreaInside(b, disk', copy);
    CellIsBytes(b, disk, copy, cluster);
    CellIsBytes(b, disk', copy, cluster);
    CellMerged(b, disk, disk', cluster, value, copy);
    var fat, fat' := FatArea(b, disk, copy), FatArea(b, disk', copy);
    forall i: nat | i < |fat| && !(4 * cluster <= i < 4 * cluster + 4) ensures fat'[i] == fat[i] {
      OtherByteKept(b, disk, disk', cluster, value, copy, i);
    }
  }

  lemma CellWrittenStart(b: Bpb, disk: seq<Sector>, cluster: nat, value: u32)
    requires b.Valid()
    ensures CellWritten(b, disk, disk, cluster, value, 0) && SectorsPatched(b, disk, disk, cluster, value, 0)
  {
  }

  lemma CellWrittenSize(b: Bpb, disk: seq<Sector>, disk': seq<Sector>, cluster: nat, value: u32)
    requires b.Valid() && CellWritten(b, disk, disk', cluster, value, b.numFats)
    ensures |disk'| == |disk|
  {
  }

  lemma CellIsSet(b: Bpb, disk: seq<Sector>, disk': seq<Sector>, cluster: nat, value: u32)
    requires DiskOk(b, disk) && DiskOk(b, disk') && cluster < b.Cells()
    requires SectorsPatched(b, disk, disk', cluster, value, b.numFats) && CellWritten(b, disk, disk', cluster, value, b.numFats)
    ensures OnlyCellSet(b, disk, disk', cluster, value)
  {
    CellWrittenOutside(b, disk, disk', cluster, value);
    hide FatArea, CellSet, SectorsPatched, CellWritten;
    forall copy: nat | copy < b.numFats ensures CellSet(FatArea(b, disk, copy), FatArea(b, disk', copy), cluster, value) {
      CellSetInCopy(b, disk, disk', cluster, value, copy);
    }
  }

  /** Outside the FAT copies nothing has changed. */
  lemma CellWrittenOutside(b: Bpb, disk: seq<Sector>, disk': seq<Sector>, cluster: nat, value: u32)
    requires DiskOk(b, disk) && CellWritten(b, disk, disk', cluster, value, b.numFats)
    ensures OutsideKept(b, disk, disk')
    ensures forall s :: 0 <= s < |disk'| && !(0 <= s - b.reservedSectors < b.numFats * b.sectorsPerFat) ==> disk'[s] == disk[s]
  {
    hide RawCell;
  }

  lemma MergeParts(existing: u32, value: u32)
    ensures Merge(existing, value) % CELL == value % CELL
    ensures Merge(existing, value) / CELL == existing / CELL
  {
  }

  lemma CellAfterUpdate(b: Bpb, disk: seq<Sector>, s: nat, sector: Sector, copy: nat, c: nat)
    requires s < |disk|
    ensures RawCell(b, disk[s := sector], copy, c) ==
      if b.FatSector(copy, c) == s then CellAt(sector, c) else RawCell(b, disk, copy, c)
  {
  }

  lemma SameFatSector(b: Bpb, copy: nat, c: nat, d: nat)
    ensures b.FatSector(copy, c) == b.FatSector(copy, d) <==> c * 4 / SECTOR_SIZE == d * 4 / SECTOR_SIZE
  {
  }

  /** Writing one FAT sector back changes one cell of one copy. */
  lemma CellAfterPatch(b: Bpb, disk: seq<Sector>, cluster: nat, value: u32, copy: nat, other: nat, c: nat, sector: Sector)
    requires DiskOk(b, disk) && cluster < b.Cells() && copy < b.numFats && other < b.numFats && c < b.Cells()
    requires b.FatSector(copy, cluster) < |disk| && sector == PatchCell(disk[b.FatSector(copy, cluster)], cluster, value)
    ensures RawCell(b, disk[b.FatSector(copy, cluster) := sector], other, c) ==
      if other == copy && c == cluster then Merge(RawCell(b, disk, copy, cluster), value) else RawCell(b, disk, other, c)
  {
    var s := b.FatSector(copy, cluster);
    CellAfterUpdate(b, disk, s, sector, other, c);
    if other != copy {
      FatCopiesApart(b, copy, other, cluster, c);
    } else {
      SameFatSector(b, copy, c, cluster);
      if b.FatSector(copy, c) == s {
        PatchCellReads(disk[s], cluster, c, value);
      }
    }
  }

  /** Patching one more copy. */
  lemma CellWrittenStep(b: Bpb, disk: seq<Sector>, before: seq<Sector>, cluster: nat, value: u32, copy: nat, s: nat, sector: Sector)
    requires DiskOk(b, disk) && cluster < b.Cells() && copy < b.numFats
    requires CellWritten(b, disk, before, cluster, value, copy)
    requires s == b.FatSector(copy, cluster) < |before| && sector == PatchCell(before[s], cluster, value)
    ensures CellWritten(b, disk, before[s := sector], cluster, value, copy + 1)
  {
    FatSectorInFat(b, copy, cluster);
    var after := before[s := sector];
    forall other: nat, c: nat | other < b.numFats && c < b.Cells()
      ensures RawCell(b, after, other, c) ==
        if other < copy + 1 && c == cluster then Merge(RawCell(b, disk, other, c), value) else RawCell(b, disk, other, c)
    {
      CellAfterPatch(b, before, cluster, value, copy, other, c, sector);
    }
  }

  /** Writing the FAT sectors leaves every cluster as it was. */
  lemma CellWrittenData(b: Bpb, disk: seq<Sector>, disk': seq<Sector>, cluster: nat, value: u32, c: nat)
    requires DiskOk(b, disk) && c < b.Cells()
    requires CellWritten(b, disk, disk', cluster, value, b.numFats)
    ensures ClusterData(b, disk', c) == ClusterData(b, disk, c)
  {
    hide RawCell, Concat;
    if c >= 2 {
      ClusterInVolume(b, c);
    }
    assert ClusterSectors(b, disk', c) == ClusterSectors(b, disk, c);
  }

  lemma CellWrittenCell(b: Bpb, disk: seq<Sector>, disk': seq<Sector>, cluster: nat, value: u32, c: nat)
    requires DiskOk(b, disk) && cluster < b.Cells() && c < b.Cells()
    requires CellWritten(b, disk, disk', cluster, value, b.numFats)
    ensures RawCell(b, disk', 0, c) % CELL == if c == cluster then value % CELL else RawCell(b, disk, 0, c) % CELL
  {
    hide RawCell, Merge;
    MergeParts(RawCell(b, disk, 0, cluster), value);
  }

  /** Setting a cell in every copy changes one 28-bit cell of the view, and no cluster. */
  lemma CellWrittenView(b: Bpb, disk: seq<Sector>, disk': seq<Sector>, cluster: nat, value: u32)
    requires DiskOk(b, disk) && cluster < b.Cells()
    requires CellWritten(b, disk, disk', cluster, value, b.numFats)
    ensures View(b, disk') == View(b, disk).(fat := View(b, disk).fat[cluster := value % CELL])
  {
    hide RawCell, ClusterData, CellWritten;
    assert |disk'| == |disk| by { CellWrittenSize(b, disk, disk', cluster, value); }
    var v, v' := View(b, disk), View(b, disk');
    forall c: nat | c < b.Cells() ensures v'.fat[c] == v.fat[cluster := value % CELL][c] && v'.data[c] == v.data[c] {
      CellWrittenData(b, disk, disk', cluster, value, c);
      CellWrittenCell(b, disk, disk', cluster, value, c);
    }
    assert v'.fat == v.fat[cluster := value % CELL];
    assert v'.data == v.data;
  }

  /** The FAT copies hold the same 28-bit cells. */
  ghost predicate Mirrored(b: Bpb, disk: seq<Sector>)
    requires b.Valid()
  {
    forall copy: nat, c: nat :: copy < b.numFats && c < b.Cells() ==>
      RawCell(b, disk, copy, c) % CELL == RawCell(b, disk, 0, c) % CELL
  }

  lemma CellWrittenMirrors(b: Bpb, disk: seq<Sector>, disk': seq<Sector>, cluster: nat, value: u32)
    requires DiskOk(b, disk) && cluster < b.Cells() && Mirrored(b, disk)
    requires CellWritten(b, disk, disk', cluster, value, b.numFats)
    ensures Mirrored(b, disk')
  {
    forall copy: nat, c: nat | copy < b.numFats && c < b.Cells()
      ensures RawCell(b, disk', copy, c) % CELL == RawCell(b, disk', 0, c) % CELL
    {
      MergeParts(RawCell(b, disk, copy, c), value);
      MergeParts(RawCell(b, disk, 0, c), value);
    }
  }

  // ---- writing clusters -------------------------------------------------------------------

  /** `disk'` is `disk` with the first `done` sectors of cluster `c` taken from `bytes`. */
  ghost predicate ClusterWritten(b: Bpb, disk: seq<Sector>, disk': seq<Sector>, c: nat, bytes: seq<byte>, done: nat)
    requires c >= 2
  {
    && |disk'| == |disk|
    && forall s: nat :: s < |disk| ==>
         disk'[s] == if b.ClusterToSector(c) <= s < b.ClusterToSector(c) + done
                     then Block(bytes, s - b.ClusterToSector(c), SECTOR_SIZE) else disk[s]
  }

  lemma ClusterWrittenOutside(b: Bpb, disk: seq<Sector>, disk': seq<Sector>, c: nat, bytes: seq<byte>)
    requires DiskOk(b, disk) && 2 <= c < b.Cells()
    requires ClusterWritten(b, disk, disk', c, bytes, b.sectorsPerCluster)
    ensures OutsideKept(b, disk, disk')
  {
    hide Block, Bpb.ClusterToSector, Bpb.Cells;
    ClusterInVolume(b, c);
  }

  /** Rewriting a whole cluster changes the bytes of that cluster only, and no FAT cell of any copy. */
  lemma ClusterWrittenView(b: Bpb, disk: seq<Sector>, disk': seq<Sector>, c: nat, bytes: seq<byte>)
    requires DiskOk(b, disk) && 2 <= c < b.Cells() && |bytes| == b.BytesPerCluster()
    requires ClusterWritten(b, disk, disk', c, bytes, b.sectorsPerCluster)
    ensures View(b, disk') == View(b, disk).(data := View(b, disk).data[c := bytes])
    ensures Mirrored(b, disk) ==> Mirrored(b, disk')
  {
    ClusterInVolume(b, c);
    forall copy: nat, d: nat | copy < b.numFats && d < b.Cells()
      ensures RawCell(b, disk', copy, d) == RawCell(b, disk, copy, d)
    {
      FatSectorInFat(b, copy, d);
    }
    forall d | 2 <= d < b.Cells() ensures ClusterData(b, disk', d) == if d == c then bytes else ClusterData(b, disk, d) {
      ClusterInVolume(b, d);
      var start := b.ClusterToSector(d);
      if d == c {
        var sectors := ClusterSectors(b, disk', c);
        forall j: nat | j < |sectors| ensures sectors[j] == Block(bytes, j, SECTOR_SIZE) {
          assert sectors[j] == disk'[start + j];
        }
        ConcatBlocks(sectors, bytes, SECTOR_SIZE);
      } else {
        if d < c { ClustersApart(b, d, c); } else { ClustersApart(b, c, d); }
        assert ClusterSectors(b, disk', d) == ClusterSectors(b, disk, d);
      }
    }
    var v, v' := View(b, disk), View(b, disk');
    assert v'.fat == v.fat;
    assert v'.data == v.data[c := bytes];
  }
}
