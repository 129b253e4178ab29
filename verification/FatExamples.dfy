/** Concrete well-formed volumes, with clusters of one sector, on which the driver does less than one might expect. */
module FatExamples {
  import opened Bytes
  import opened Outcome
  import opened FatVolume
  import opened ShortNames
  import opened DirEntries
  import opened DirScan
  import opened DirAdd
  import opened DirBytes
  import opened FatObjects
  import opened FatLosses
  import opened FatPaths
  import opened FatOps
  import opened FatTree
  import opened FatTheorems

  // ---- directories from slots -------------------------------------------------------------

  /** The bytes of a directory with these slots. */
  lemma SlotsOfConcat(slots: seq<Slot>)
    ensures |Concat(slots)| == |slots| * ENTRY_SIZE && SlotsOf(Concat(slots)) == slots
  {
    ConcatLength(slots, ENTRY_SIZE);
    forall i: nat | i < |slots| ensures SlotsOf(Concat(slots))[i] == slots[i] {
      ConcatAt(slots, ENTRY_SIZE, i);
      SlotAt(Concat(slots), i);
    }
  }

  /** A scan over a listed slot, when no fragments are pending. */
  lemma ListedStep(slots: seq<Slot>, i: nat)
    requires i < |slots| && IsListed(slots[i]) && !Before(slots, i).ended && Before(slots, i).parts == []
    ensures Before(slots, i + 1) == ScanState(Before(slots, i).entries + [FatDirEntry(ShownName(ParseShort(slots[i]).name),
      ParseShort(slots[i]), i * ENTRY_SIZE, 1)], [], Before(slots, i).start, false)
    ensures SlotOk(slots, i)
  {
    BeforeNext(slots, i);
    hide Scan, Before, ParseShort, ShownName;
  }

  /** The slot of a file whose name needs no long one. */
  lemma PlainFile(name: string, cluster: u32, size: u32)
    requires name != "" && !NeedsLfn(name)
    ensures var s := NewShort(name, ATTR_ARCHIVE, cluster, size);
      && IsListed(s.Serialize()) && ParseShort(s.Serialize()) == s
      && s.Cluster() == cluster && !s.IsDirectory() && s.name == ShortNameOf(name) && s.size == size
  {
    hide NeedsLfn, ShortNameOf, ShortDirEntry.Serialize, ParseShort, IsListed;
    ShortSlotListed(name, NewShort(name, ATTR_ARCHIVE, cluster, size));
  }

  lemma OneRoot(v: Vol, root: nat, size: nat, slots: seq<Slot>)
    requires VolOk(v, size) && InRange(v.fat, root) && v.fat[root] >= EOC && v.data[root] == Concat(slots)
    ensures IsChain(v.fat, [root]) && ChainBytes(v, [root]) == ReadFrom(v, root) == Concat(slots)
    ensures SlotsOf(ReadFrom(v, root)) == slots && DirListing(v, root) == Listing(slots)
  {
    OneChain(v, root, size);
    ChainIsWalked(v.fat, [root]);
    SlotsOfConcat(slots);
  }

  // ---- a file of two clusters -------------------------------------------------------------

  const FILE: ShortDirEntry := NewShort("A_B.C", ATTR_ARCHIVE, 3, 1024)

  const NO_ENTRY: Slot := Zeros(32)
  const GIVEN_BACK: Slot := Zeros(32)[0 := DELETED]

  /** A slot given back, then the file "A_B.C". */
  function FileDir(): (slots: seq<Slot>)
    ensures |slots| == 16
  {
    [GIVEN_BACK, FILE.Serialize()] + seq(14, _ => NO_ENTRY)
  }

  /** The root directory at cluster 2, the file at 3 and 4, and 5 free. */
  ghost function FileVolume(): Vol {
    Vol([0, 0, EOC, 4, EOC, 0], [[], [], Concat(FileDir()), seq(512, _ => 7), seq(512, _ => 7), Zeros(512)])
  }

  ghost function FileObjs(): Objs {
    map[2 := Obj([2], true, 0, 0), 3 := Obj([3, 4], false, 2, 1)]
  }

  function FileEntry(): FatDirEntry {
    FatDirEntry(ShownName(FILE.name), FILE, 32, 1)
  }

  lemma PlainName()
    ensures !NeedsLfn("A_B.C") && DotsOk("A_B.C")
  {
    hide Utf8Len, LastDot;
    var name := "A_B.C";
    assert name[3] == '.' && LastDot(name) == 3;
    assert Base(name) == ['A', '_', 'B'] && Ext(name) == ['C'];
    AsciiLen(name);
    AsciiLen(Base(name));
    AsciiLen(Ext(name));
  }

  lemma FileSlot()
    ensures IsListed(FILE.Serialize()) && ParseShort(FILE.Serialize()) == FILE
    ensures FILE.Cluster() == 3 && !FILE.IsDirectory() && FILE.name == ShortNameOf("A_B.C") && FILE.size == 1024
    ensures FileEntry().Cluster() == 3 && !FileEntry().IsDirectory() && FileEntry().ShortSlot() == 1
  {
    hide NewShort, IsListed, ParseShort, ShortDirEntry.Serialize, ShortDirEntry.Cluster, ShortDirEntry.IsDirectory, NeedsLfn;
    hide DotsOk, ShortNameOf;
    PlainName();
    PlainFile("A_B.C", 3, 1024);
  }

  lemma FileDirSlots()
    ensures FileDir()[0][0] == DELETED && FileDir()[1] == FILE.Serialize()
    ensures forall i :: 2 <= i < 16 ==> FileDir()[i][0] == 0x00
  {
    hide ShortDirEntry.Serialize, NewShort;
  }

  lemma FileScan()
    ensures Listing(FileDir()) == [FileEntry()] && Shaped(FileDir()) && Tidy(FileDir())
  {
    hide FileDir, Scan, Before, ParseLfn, ParseShort, IsListed, ShortDirEntry.Serialize, ShownName, EntryHere, NewShort;
    var slots := FileDir();
    FileDirSlots();
    FileSlot();
    BeforeAll(slots);
    BeforeNext(slots, 0);
    ListedStep(slots, 1);
    assert Before(slots, 2).entries == [FileEntry()] && Before(slots, 2).parts == [];
    assert Before(slots, 1).parts == [];
    forall i: nat | 2 < i <= |slots| ensures Before(slots, i) == Before(slots, 2).(ended := true) {
      BeforeNext(slots, 2);
      EntriesGrow(slots, 3, i);
    }
  }

  lemma FileVolumeOk()
    ensures VolOk(FileVolume(), 512)
  {
    hide FileDir, Concat;
    SlotsOfConcat(FileDir());
  }

  lemma FileVolumeReads()
    ensures IsChain(FileVolume().fat, [2]) && IsChain(FileVolume().fat, [3, 4])
    ensures ReadFrom(FileVolume(), 2) == ChainBytes(FileVolume(), [2]) && SlotsOf(ReadFrom(FileVolume(), 2)) == FileDir()
    ensures ChainOf(FileVolume().fat, 3) == [3, 4] && DirListing(FileVolume(), 2) == [FileEntry()]
  {
    FileVolumeOk();
    hide FileDir, Concat, Walk, ChainBytes, Scan, VolOk, Listing, SlotsOf, ReadFrom;
    var v := FileVolume();
    OneRoot(v, 2, 512, FileDir());
    FileScan();
    ChainIsWalked(v.fat, [3, 4]);
  }

  lemma FileVolumeWellFormed()
    ensures WF(FileVolume(), FileObjs(), 2, 512, None) && InTree(FileVolume(), FileObjs(), 2)
    ensures DirsTidy(FileVolume(), FileObjs())
  {
    var v, g := FileVolume(), FileObjs();
    FileVolumeOk();
    FileVolumeReads();
    FileScan();
    FileSlot();
    hide FileVolume, FileDir, Concat, Walk, ChainBytes, VolOk, SlotsOf, ReadFrom, Listing, Shaped, Tidy, ChainOf, IsChain;
    hide ShownName, FileEntry, ShortDirEntry.Cluster, NewShort;
    assert RefOk(g, 2, FileEntry());
    assert DirOk(g, 2, ObjSlots(v, g[2]), None);
    assert ObjOk(v, 2, g[2]) && ObjOk(v, 3, g[3]);
    assert Apart(g[2].chain, g[3].chain) && Apart(g[3].chain, g[2].chain);
    assert DirListing(v, 2)[0].Cluster() as nat == 3;
    assert Climbs(g, 3, 2, 1);
  }

  /** The path "A_B.C" leads to the file. */
  lemma FilePath()
    ensures Resolve(FileVolume(), 2, ["A_B.C"]) == Ok((2, FileEntry()))
    ensures Lower(FileEntry().name) == Lower("A_B.C") && FileEntry().name == StoredName("A.B.C")
    ensures Lookup(FileVolume(), 2, "A.B.C") == None
  {
    hide FileVolume, DirListing, Lower, Resolve, FileEntry, StoredName, Lookup;
    FileVolumeReads();
    FileName();
    OneFile(FileVolume(), 2, FileEntry(), "A_B.C");
    OneFile(FileVolume(), 2, FileEntry(), "A.B.C");
  }

  /** A directory with one entry. */
  lemma OneFile(v: Vol, d: nat, e: FatDirEntry, name: string)
    requires DirListing(v, d) == [e]
    ensures if Lower(e.name) == Lower(name) then Resolve(v, d, [name]) == Ok((d, e)) else Lookup(v, d, name) == None
  {
    hide DirListing, Lower, Resolve;
    FirstMatch([e], name, if Lower(e.name) == Lower(name) then 0 else 1);
    ResolveOne(v, d, name);
  }

  lemma FileName()
    ensures Lower(FileEntry().name) == Lower("A_B.C") && FileEntry().name == StoredName("A.B.C")
    ensures Lower(FileEntry().name) != Lower("A.B.C")
  {
    hide NeedsLfn, DotsOk, Lower, ShownName, ShortNameOf, NewShort, ShortDirEntry.Cluster, ShortDirEntry.IsDirectory;
    PlainName();
    KeptNameMatches("A_B.C");
    TwoDotsPlain();
    TwoDotsNotFound();
    SameShortName();
    FileSlot();
  }

  lemma SameShortName()
    ensures ShortNameOf("A.B.C") == ShortNameOf("A_B.C")
  {
    hide FieldByte;
    var a, b := "A.B.C", "A_B.C";
    assert Upper(a) == a && Upper(b) == b;
    assert a[3] == '.' && LastDot(a) == 3;
    assert b[3] == '.' && LastDot(b) == 3;
    assert Base(a) == "A.B" && Base(b) == "A_B" && Ext(a) == "C" && Ext(b) == "C";
    forall i: nat | i < 8 ensures FieldByte("A.B", i) == FieldByte("A_B", i) {
      SameFieldByte(i);
    }
  }

  lemma SameFieldByte(i: nat)
    ensures FieldByte("A.B", i) == FieldByte("A_B", i)
  {
  }

  /** The file of two clusters written over with one byte: there is room, and its second cluster is lost. */
  lemma SecondClusterLost(v: Vol, data: seq<byte>)
    requires v == FileVolume() && |data| == 1
    ensures WF(v, FileObjs(), 2, 512, None) && InTree(v, FileObjs(), 2)
    ensures Resolve(v, 2, ["A_B.C"]) == Ok((2, FileEntry())) && FileEntry().Cluster() == 3
    ensures Fits(v, 3, data, 512) && TailLost(v, 3, data, 512) == {4}
  {
    hide FileVolume, FileEntry, FileObjs, WF, InTree, Resolve, ChainOf, Fits, TailLost, Lookup, ReadFrom, Lower, StoredName;
    FileVolumeWellFormed();
    FileLeadsTo();
    FileChain();
    OneByteOverTwo(v, 3, 3, 4, data);
  }

  lemma FileLeadsTo()
    ensures Resolve(FileVolume(), 2, ["A_B.C"]) == Ok((2, FileEntry())) && FileEntry().Cluster() == 3
  {
    hide FileVolume, FileEntry, Resolve, Lookup, Lower, StoredName;
    FilePath();
    FileSlot();
  }

  lemma FileChain()
    ensures OldChain(FileVolume().fat, 3) == [3, 4]
  {
    hide FileVolume, FileEntry, ChainOf, ReadFrom, IsChain, DirListing, SlotsOf;
    FileVolumeReads();
  }

  lemma OneByteOverTwo(v: Vol, c: nat, first: nat, second: nat, data: seq<byte>)
    requires OldChain(v.fat, c) == [first, second] && |data| == 1
    ensures Fits(v, c, data, 512) && TailLost(v, c, data, 512) == {second}
  {
    hide OldChain, FreeSet;
    assert [first, second][1..] == [second] && CeilDiv(1, 512) == 1;
    assert second in [second];
  }

  /**
    Making the directory "A.B.C": there is room, the lookup finds nothing, but the new entry is
    listed first under the name of the file, whose path leads to the new, empty directory then.
   */
  lemma NewDirectoryHidesFile()
    ensures var v, d := FileVolume(), 2;
      && WF(v, FileObjs(), d, 512, None) && InTree(v, FileObjs(), d) && DirsTidy(v, FileObjs())
      && Lookup(v, d, "A.B.C") == None && MkdirFits(v, d, "A.B.C", 512)
      && MkdirIndex(v, d, "A.B.C", 512) == 0 && Hidden(DirListing(v, d), 0, MkdirName(v, d, "A.B.C", 512))
    ensures forall v': Vol, n: FatDirEntry :: Made(FileVolume(), v', 2, 2, 0, n) && n.name == MkdirName(FileVolume(), 2, "A.B.C", 512) ==>
      Resolve(v', 2, ["A_B.C"]) == Ok((2, n)) && DirListing(v', n.Cluster()) == []
  {
    FileVolumeWellFormed();
    FilePath();
    HidingPlace();
    hide FileVolume, FileObjs, FileEntry, WF, InTree, DirsTidy, Lookup, Resolve, MkdirFits, MkdirIndex, MkdirName, DirListing;
    hide FilesSame, OtherListingsSame, PathsKept, Inserted, Lower, StoredName;
    FileVolumeReads();
    forall v': Vol, n: FatDirEntry | Made(FileVolume(), v', 2, 2, 0, n) && n.name == MkdirName(FileVolume(), 2, "A.B.C", 512)
      ensures Resolve(v', 2, ["A_B.C"]) == Ok((2, n))
    {
      LookupSameCase(v', 2, n.name, "A_B.C");
      ResolveOne(v', 2, "A_B.C");
    }
  }

  lemma LookupSameCase(v: Vol, d: nat, a: string, b: string)
    requires Lower(a) == Lower(b)
    ensures Lookup(v, d, a) == Lookup(v, d, b)
  {
    SameCase(DirListing(v, d), a, b);
  }

  lemma HidingPlace()
    ensures MkdirFits(FileVolume(), 2, "A.B.C", 512) && MkdirIndex(FileVolume(), 2, "A.B.C", 512) == 0
    ensures MkdirName(FileVolume(), 2, "A.B.C", 512) == FileEntry().name == StoredName("A.B.C")
  {
    hide FileVolume, FileEntry, FileDir, ReadFrom, FreeSet, SlotsOf, ChainBytes, StoredName, NeedsLfn, MkdirFits, MkdirIndex, MkdirName;
    FileVolumeFree();
    FileVolumeReads();
    FileDirSlots();
    FileName();
    TwoDotsPlain();
    FileDirLength();
    RoomAtStart(FileVolume(), 2, "A.B.C", 512);
  }

  lemma FileVolumeFree()
    ensures FreeSet(FileVolume().fat) != {}
  {
    assert 5 in FreeSet(FileVolume().fat);
  }

  lemma FileDirLength()
    ensures |ReadFrom(FileVolume(), 2)| % ENTRY_SIZE == 0
  {
    hide FileVolume, ReadFrom, WF, InTree;
    FileVolumeWellFormed();
    ObjRead(FileVolume(), FileObjs(), 2, 512, None, 2);
  }

  /** A directory whose first slot was given back, and a name that takes one slot. */
  lemma RoomAtStart(v: Vol, d: nat, name: string, size: nat)
    requires |ReadFrom(v, d)| % ENTRY_SIZE == 0 && SlotsOf(ReadFrom(v, d)) != [] && IsFree(SlotsOf(ReadFrom(v, d))[0])
    requires !NeedsLfn(name) && FreeSet(v.fat) != {}
    ensures MkdirFits(v, d, name, size) && MkdirIndex(v, d, name, size) == 0
    ensures MkdirName(v, d, name, size) == StoredName(name)
  {
    hide NeedsLfn, ShownName, ShortNameOf, SlotsOf, ReadFrom, FreeSet, HasRoom, FirstRoom, Before, Scan;
    SlotsOfPadded(ReadFrom(v, d), size);
    var a, b := SlotsOf(ReadFrom(v, d)), SlotsOf(ReadFrom(v, d) + Zeros(size));
    assert RoomAt(a, 0, 1) && RoomAt(b, 0, 1);
    OneRoom(a);
    OneRoom(b);
    FirstRoomIs(b, 1, 0);
    BeforeAll(b);
  }

  lemma OneRoom(slots: seq<Slot>)
    requires RoomAt(slots, 0, 1)
    ensures HasRoom(slots, 1)
  {
  }

  // ---- a full directory -------------------------------------------------------------------

  function Letter(i: nat): string
    requires i < 16
  {
    [('A' as int + i) as char]
  }

  function EmptyFile(i: nat): ShortDirEntry
    requires i < 16
  {
    NewShort(Letter(i), ATTR_ARCHIVE, 0, 0)
  }

  /** Sixteen empty files, "A" to "P", one after the other. */
  function FullDir(): (slots: seq<Slot>)
    ensures |slots| == 16
  {
    seq(16, i requires 0 <= i < 16 => EmptyFile(i).Serialize())
  }

  /** The root directory at cluster 2, and 3 free. */
  ghost function FullVolume(): Vol {
    Vol([0, 0, EOC, 0], [[], [], Concat(FullDir()), Zeros(512)])
  }

  lemma LetterPlain(i: nat)
    requires i < 16
    ensures !NeedsLfn(Letter(i)) && Letter(i) != ""
  {
    hide Utf8Len;
    AsciiLen(Letter(i));
  }

  lemma FullDirSlot(i: nat)
    requires i < 16
    ensures var d := FullDir()[i];
      && IsListed(d) && !IsFree(d) && !ParseShort(d).IsDirectory() && ParseShort(d).Cluster() == 0
  {
    hide NeedsLfn, NewShort, ParseShort, ShortDirEntry.Serialize, ShortDirEntry.IsDirectory, ShortDirEntry.Cluster, Letter;
    LetterPlain(i);
    PlainFile(Letter(i), 0, 0);
  }

  /** The scan of a directory that starts with `m` listed slots. */
  lemma {:induction false} ListedScan(slots: seq<Slot>, m: nat)
    requires m <= |slots| && forall i :: 0 <= i < m ==> IsListed(slots[i])
    ensures var s := Before(slots, m);
      && !s.ended && s.parts == [] && |s.entries| == m
      && (forall i: nat :: i < m ==> SlotOk(slots, i))
      && forall i: nat :: i < m ==>
           s.entries[i] == FatDirEntry(ShownName(ParseShort(slots[i]).name), ParseShort(slots[i]), i * ENTRY_SIZE, 1)
  {
    BeforeAll(slots);
    hide Scan, Before, ParseShort, ParseLfn, ShownName, IsListed, SlotOk;
    if m > 0 {
      ListedScan(slots, m - 1);
      ListedStep(slots, m - 1);
    }
  }

  lemma FullDirScan()
    ensures Shaped(FullDir()) && |Listing(FullDir())| == 16
    ensures forall i: nat :: i < 16 ==>
      var e := Listing(FullDir())[i]; !e.IsDirectory() && e.Cluster() == 0 && |e.name| <= 12
  {
    hide FullDir, Scan, Before, ParseShort, ShownName, IsListed, SlotOk, ShortDirEntry.IsDirectory, ShortDirEntry.Cluster;
    var slots := FullDir();
    forall i: nat | i < 16
      ensures IsListed(slots[i]) && !ParseShort(slots[i]).IsDirectory() && ParseShort(slots[i]).Cluster() == 0
      ensures |ShownName(ParseShort(slots[i]).name)| <= 12
    {
      FullDirSlot(i);
      ShownNameLength(ParseShort(slots[i]).name);
    }
    ListedScan(slots, 16);
    BeforeAll(slots);
  }

  lemma {:induction false} ShownLength(field: seq<byte>)
    ensures |Shown(field)| <= |field|
  {
    if field != [] {
      ShownLength(field[1..]);
    }
  }

  lemma ShownNameLength(n: Name11)
    ensures |ShownName(n)| <= 12
  {
    ShownLength(n[..8]);
    ShownLength(n[8..]);
  }

  /** A volume with one directory, whose files have no clusters. */
  lemma OneDirectory(v: Vol, root: nat, size: nat, slots: seq<Slot>)
    requires VolOk(v, size) && size % ENTRY_SIZE == 0 && Shaped(slots)
    requires InRange(v.fat, root) && v.fat[root] >= EOC && v.data[root] == Concat(slots)
    requires forall i: nat :: i < |Listing(slots)| ==> !Listing(slots)[i].IsDirectory() && Listing(slots)[i].Cluster() == 0
    ensures var g: Objs := map[root := Obj([root], true, 0, 0)]; WF(v, g, root, size, None) && InTree(v, g, root)
    ensures SlotsOf(ReadFrom(v, root)) == slots && DirListing(v, root) == Listing(slots)
    ensures |ReadFrom(v, root)| == |slots| * ENTRY_SIZE
  {
    hide Listing, SlotsOf, Concat, Shaped, ReadFrom, IsChain, WF, InTree, FatDirEntry.Cluster, FatDirEntry.IsDirectory, VolOk;
    SlotsOfConcat(slots);
    OneRoot(v, root, size, slots);
    RootAlone(v, root, Obj([root], true, 0, 0));
    RootWellFormed(v, root, size, slots);
  }

  lemma RootWellFormed(v: Vol, root: nat, size: nat, slots: seq<Slot>)
    requires VolOk(v, size) && size % ENTRY_SIZE == 0 && IsChain(v.fat, [root])
    requires SlotsOf(ChainBytes(v, [root])) == slots && Shaped(slots)
    requires forall i: nat :: i < |Listing(slots)| ==> !Listing(slots)[i].IsDirectory() && Listing(slots)[i].Cluster() == 0
    ensures WF(v, map[root := Obj([root], true, 0, 0)], root, size, None)
  {
    hide Listing, SlotsOf, Shaped, IsChain, ChainBytes, FatDirEntry.Cluster, FatDirEntry.IsDirectory, VolOk;
    var g: Objs := map[root := Obj([root], true, 0, 0)];
    assert [root][0] == root;
    assert ObjOk(v, root, g[root]);
    assert DirOk(g, root, slots, None);
  }

  /** A name longer than the names listed is not found. */
  lemma LongNameNotFound(v: Vol, d: nat, name: string)
    requires forall i: nat :: i < |DirListing(v, d)| ==> |DirListing(v, d)[i].name| < |name|
    ensures Lookup(v, d, name) == None
  {
    hide DirListing, Listing;
    var entries := DirListing(v, d);
    forall k: nat | k < |entries| ensures Lower(entries[k].name) != Lower(name) {
      assert |Lower(entries[k].name)| != |Lower(name)|;
    }
    FirstMatch(entries, name, |entries|);
  }

  ghost function FullObjs(): Objs {
    map[2 := Obj([2], true, 0, 0)]
  }

  /** Root directory at cluster 2 with these sixteen slots, all of them files without clusters, and a free cluster. */
  ghost predicate IsFull(v: Vol, slots: seq<Slot>) {
    && VolOk(v, 512) && Shaped(slots) && |slots| == 16 && |Listing(slots)| == 16
    && InRange(v.fat, 2) && v.fat[2] >= EOC && v.data[2] == Concat(slots) && FreeSet(v.fat) != {}
    && (forall i: nat :: i < 16 ==> var e := Listing(slots)[i]; !e.IsDirectory() && e.Cluster() == 0 && |e.name| <= 12)
    && (forall i: nat :: i < 16 ==> !IsFree(slots[i]))
  }

  lemma FullIsFull()
    ensures IsFull(FullVolume(), FullDir())
  {
    hide FullVolume, FullDir, Listing, VolOk, Shaped, FreeSet, Concat, IsFree, FatDirEntry.Cluster, FatDirEntry.IsDirectory;
    FullVolumeOk();
    FullDirScan();
    forall i: nat | i < 16 ensures !IsFree(FullDir()[i]) {
      FullDirSlot(i);
    }
  }

  lemma FullWellFormed(v: Vol, slots: seq<Slot>)
    requires IsFull(v, slots)
    ensures WF(v, FullObjs(), 2, 512, None) && InTree(v, FullObjs(), 2)
    ensures SlotsOf(ReadFrom(v, 2)) == slots && DirListing(v, 2) == Listing(slots) && |ReadFrom(v, 2)| == 512
  {
    hide Listing, DirListing, SlotsOf, ReadFrom, WF, InTree, VolOk, Shaped, Concat, FatDirEntry.Cluster, FatDirEntry.IsDirectory;
    OneDirectory(v, 2, 512, slots);
  }

  /** No entry for a name of 208 letters fits a directory of a full sector, nor one more sector. */
  lemma NoRoomInFull(v: Vol, d: nat, name: string)
    requires |name| == 208 && |ReadFrom(v, d)| == 512
    requires forall i: nat :: i < |SlotsOf(ReadFrom(v, d))| ==> !IsFree(SlotsOf(ReadFrom(v, d))[i])
    ensures !GroupFits(v, d, name, 512)
  {
    hide SlotsOf, ReadFrom, SlotsNeeded, HasRoom;
    LongNameSlots(name);
    LongNameNoRoom(ReadFrom(v, d), 512, SlotsNeeded(name));
  }

  lemma FullPanics(v: Vol, slots: seq<Slot>, name: string)
    requires IsFull(v, slots) && |name| == 208
    ensures FreeSet(v.fat) != {} && Lookup(v, 2, name) == None && !GroupFits(v, 2, name, 512)
  {
    FullWellFormed(v, slots);
    hide Listing, DirListing, SlotsOf, ReadFrom, FreeSet, Lookup, GroupFits, FatDirEntry.Cluster, FatDirEntry.IsDirectory;
    LongNameNotFound(v, 2, name);
    NoRoomInFull(v, 2, name);
  }

  /** On a volume with a free cluster and sixteen files in its root, making a directory with a name of 208 letters panics. */
  lemma FullDirectoryPanics(name: string)
    requires |name| == 208
    ensures WF(FullVolume(), FullObjs(), 2, 512, None) && InTree(FullVolume(), FullObjs(), 2)
    ensures FreeSet(FullVolume().fat) != {} && Lookup(FullVolume(), 2, name) == None && !GroupFits(FullVolume(), 2, name, 512)
  {
    hide FullVolume, FullDir, FullObjs, IsFull, Listing, DirListing, SlotsOf, ReadFrom, WF, InTree, FreeSet, Lookup, GroupFits;
    FullIsFull();
    FullWellFormed(FullVolume(), FullDir());
    FullPanics(FullVolume(), FullDir(), name);
  }

  lemma FullVolumeOk()
    ensures VolOk(FullVolume(), 512) && FreeSet(FullVolume().fat) != {}
    ensures InRange(FullVolume().fat, 2) && FullVolume().fat[2] >= EOC && FullVolume().data[2] == Concat(FullDir())
  {
    hide FullDir, Concat;
    SlotsOfConcat(FullDir());
    assert 3 in FreeSet(FullVolume().fat);
  }
}
