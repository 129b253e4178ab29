/** The operations of the file system as a whole: what a user of paths sees before and after. */
module FatTheorems {
  import opened Bytes
  import opened Outcome
  import opened FatVolume
  import opened ShortNames
  import opened DirEntries
  import opened DirScan
  import opened DirAdd
  import opened DirBytes
  import opened FatObjects
  import opened FatLosses
  import opened FatPaths
  import opened FatOps
  import opened FatTree

  const SIZE_LIMIT: nat := 0x1_0000_0000

  // ---- sync_file --------------------------------------------------------------------------

  /** The entry that `sync_file` writes: another cluster, and the length cut to 32 bits. */
  function SyncedEntry(e: FatDirEntry, cluster: u32, length: nat): FatDirEntry {
    e.(short := e.short.WithCluster(cluster).(size := length % SIZE_LIMIT))
  }

  /** Every path leads where it led, but that to the file leads to its new entry. */
  ghost predicate PathsUpdated(v: Vol, v': Vol, root: nat, d: nat, e: FatDirEntry, e': FatDirEntry) {
    forall parts: seq<string> :: parts != [] ==>
      Resolve(v', root, parts) == if Resolve(v, root, parts) == Ok((d, e)) then Ok((d, e')) else Resolve(v, root, parts)
  }

  /** Entry `e` of directory `d` has become `e'` where it was listed. */
  ghost predicate EntryReplaced(v: Vol, v': Vol, d: nat, e: FatDirEntry, e': FatDirEntry) {
    exists j: nat :: j < |DirListing(v, d)| && DirListing(v, d)[j] == e && DirListing(v', d) == DirListing(v, d)[j := e']
  }

  /**
    Writing `data` back to the file of entry `e` succeeded: opening it gives the data (the part
    that 32 bits can count), of its entry only the cluster and the size have changed, and nothing
    else has changed for anyone.
   */
  ghost predicate Synced(v: Vol, v': Vol, root: nat, d: nat, e: FatDirEntry, e': FatDirEntry, data: seq<byte>) {
    && FileData(v', e') == data[..|data| % SIZE_LIMIT]
    && e' == e.(short := e.short.(clusterHigh := e'.short.clusterHigh, clusterLow := e'.short.clusterLow,
                                  size := |data| % 0x1_0000_0000))
    && EntryReplaced(v, v', d, e, e') && OtherListingsSame(v, v', root, {d})
    && PathsUpdated(v, v', root, d, e, e')
    && OtherFilesSame(v, v', root, d, e)
  }

  lemma PathsAreUpdated(v: Vol, v': Vol, g: Objs, root: nat, size: nat, d: nat, j: nat, e': FatDirEntry)
    requires WF(v, g, root, size, None) && IsDir(g, d) && j < |DirListing(v, d)|
    requires DirListing(v', d) == DirListing(v, d)[j := e'] && OtherDirsSame(v, v', g, d)
    requires e'.name == DirListing(v, d)[j].name && !e'.IsDirectory() && !DirListing(v, d)[j].IsDirectory()
    ensures PathsUpdated(v, v', root, d, DirListing(v, d)[j], e')
  {
    RootIsDir(v, g, root, size);
    hide WF, DirListing, Resolve, FatDirEntry.IsDirectory, OtherDirsSame;
    forall parts: seq<string> | parts != []
      ensures Resolve(v', root, parts) ==
        if Resolve(v, root, parts) == Ok((d, DirListing(v, d)[j])) then Ok((d, e')) else Resolve(v, root, parts)
    {
      ResolveUpdated(v, v', g, root, size, d, j, e', root, parts);
    }
  }

  lemma SyncedEntryPlain(e: FatDirEntry, cluster: u32, length: nat)
    ensures SameEntryBut(e, SyncedEntry(e, cluster, length)) && SyncedEntry(e, cluster, length).Cluster() == cluster
    ensures SyncedEntry(e, cluster, length).short.size == length % SIZE_LIMIT
  {
  }

  /** Every directory is tidy. */
  ghost predicate DirsTidy(v: Vol, g: Objs) {
    forall k :: IsDir(g, k) ==> Tidy(SlotsOf(ReadFrom(v, k)))
  }

  /**
    Between the two steps of `sync_file`: the file's clusters are written or freed, its entry in
    directory `d` still is the old one, and `e'` is what it has to become.
   */
  ghost predicate HalfSynced(v0: Vol, v1: Vol, g: Objs, g1: Objs, root: nat, size: nat, hole: Hole, d: nat, j: nat, e': FatDirEntry) {
    && j < |DirListing(v0, d)|
    && WF(v1, g1, root, size, hole)
    && (hole == None || hole == Some((d, DirListing(v0, d)[j].ShortSlot())))
    && SameEntryBut(DirListing(v0, d)[j], e') && RefOk(g1, d, e')
    && ReadFrom(v1, d) == ReadFrom(v0, d)
    && (forall l :: l in g && l != DirListing(v0, d)[j].Cluster() ==> l in g1 && ReadFrom(v1, l) == ReadFrom(v0, l))
    && (forall k :: IsDir(g1, k) <==> IsDir(g, k))
  }

  /** The clusters of a file written; its entry is next. */
  lemma HalfSyncedWritten(v0: Vol, v1: Vol, g: Objs, root: nat, size: nat, d: nat, j: nat, c: nat,
                          data: seq<byte>, ch: seq<nat>)
    requires WF(v0, g, root, size, None) && VolOk(v1, size) && FileAt(v0, g, d, j, c)
    requires |ch| > 0 && Wrote(v0, v1, OldChain(v0.fat, c), ch, data, size)
    ensures ch[0] < SIZE_LIMIT && ReadFrom(v1, ch[0]) == Whole(data, size) && 2 <= ch[0] != d
    ensures HalfSynced(v0, v1, g, g[ch[0] := FileObj(v0, d, j, ch)], root, size, None, d, j,
      SyncedEntry(DirListing(v0, d)[j], ch[0], |data|))
  {
    hide VolOk, ReadFrom, DirListing, Wrote, Whole, OldChain;
    VolSizePositive(v0, size);
    hide WF;
    HandleChain(v0, g, root, size, d, j, c);
    FileDataWritten(v0, v1, g, root, size, d, j, c, data, ch);
    SyncedEntryPlain(DirListing(v0, d)[j], ch[0], |data|);
  }

  /** The clusters of a file freed, if it had any; its entry is next. */
  lemma HalfSyncedFreed(v0: Vol, v1: Vol, g: Objs, root: nat, size: nat, d: nat, j: nat, c: nat)
    requires WF(v0, g, root, size, None) && VolOk(v1, size) && FileAt(v0, g, d, j, c)
    requires if c >= 2 then Freed(v0, v1, c) else v1 == v0
    ensures HalfSynced(v0, v1, g, g - {c}, root, size,
      if c >= 2 then Some((d, DirListing(v0, d)[j].ShortSlot())) else None, d, j, SyncedEntry(DirListing(v0, d)[j], 0, 0))
  {
    hide WF, VolOk, ReadFrom, DirListing, Freed;
    HandleChain(v0, g, root, size, d, j, c);
    SyncedEntryPlain(DirListing(v0, d)[j], 0, 0);
    if c >= 2 {
      FileDataFreed(v0, v1, g, root, size, d, j, c);
    } else {
      assert g - {c} == g;
    }
  }

  /** The directory can be read and rewritten between the two steps. */
  lemma HalfSyncedDir(v0: Vol, v1: Vol, g: Objs, g1: Objs, root: nat, size: nat, hole: Hole, d: nat, j: nat, e': FatDirEntry)
    requires IsDir(g, d) && HalfSynced(v0, v1, g, g1, root, size, hole, d, j, e')
    ensures d >= 2 && StartOk(v1.fat, d) && ReadFrom(v1, d) == ReadFrom(v0, d)
  {
    DirShaped(v1, g1, root, size, hole, d);
  }

  /** A file's chain can be freed, and its entry lies inside its directory. */
  lemma EmptyFileReady(v: Vol, g: Objs, root: nat, size: nat, d: nat, j: nat, c: nat)
    requires WF(v, g, root, size, None) && FileAt(v, g, d, j, c)
    ensures c >= 2 ==> LinkOk(v.fat, c)
    ensures c >= 2 ==> forall l :: l in ChainOf(v.fat, c) && l < |v.fat| ==> LinkOk(v.fat, v.fat[l])
    ensures var e := DirListing(v, d)[j]; e.entryCount > 0 && e.entryOffset + e.entryCount * ENTRY_SIZE <= |ReadFrom(v, d)|
  {
    hide WF, ReadFrom, DirListing;
    HandleChain(v, g, root, size, d, j, c);
    EntryInside(v, g, root, size, None, d, j);
    if c >= 2 {
      ChainLinksOk(v, g, root, size, None, c);
    }
  }

  /** When writing failed, paths lead where they led, and other files read as they did. */
  lemma FailedFrames(v0: Vol, v1: Vol, g: Objs, root: nat, size: nat, d: nat, j: nat, c: nat)
    requires WF(v0, g, root, size, None) && FileAt(v0, g, d, j, c)
    requires forall l :: l in g && l != c ==> ReadFrom(v1, l) == ReadFrom(v0, l)
    ensures PathsKept(v0, v1, root) && OtherFilesSame(v0, v1, root, d, DirListing(v0, d)[j])
    ensures OtherListingsSame(v0, v1, root, {}) && (forall k :: IsDir(g, k) ==> DirListing(v1, k) == DirListing(v0, k))
  {
    HandleChain(v0, g, root, size, d, j, c);
    hide WF, OtherFilesSame, PathsUpdated, OtherListingsSame, Listing, SlotsOf, RefOk;
    forall k | IsDir(g, k) ensures DirListing(v1, k) == DirListing(v0, k) {
      ListingSame(v0, v1, k);
    }
    hide ReadFrom, DirListing, Resolve;
    ListingsKept(v0, v1, g, root, size, {});
    var e := DirListing(v0, d)[j];
    assert DirListing(v0, d)[j := e] == DirListing(v0, d);
    PathsAreUpdated(v0, v1, g, root, size, d, j, e);
    UpdatedPathsKept(v0, v1, root, d, e);
    FilesKept(v0, v1, g, root, size, d, j);
  }

  lemma UpdatedPathsKept(v: Vol, v': Vol, root: nat, d: nat, e: FatDirEntry)
    requires PathsUpdated(v, v', root, d, e, e)
    ensures PathsKept(v, v', root)
  {
    hide Resolve;
  }

  lemma ListingSame(v: Vol, v': Vol, d: nat)
    requires ReadFrom(v', d) == ReadFrom(v, d)
    ensures DirListing(v', d) == DirListing(v, d)
  {
  }

  /** The second step of `sync_file` closes the hole and changes nothing but the entry. */
  lemma SyncEntry(v0: Vol, v1: Vol, v2: Vol, g: Objs, g1: Objs, root: nat, size: nat, hole: Hole, d: nat, j: nat,
                  e': FatDirEntry, bytes: seq<byte>, dch: seq<nat>)
    requires IsDir(g, d) && HalfSynced(v0, v1, g, g1, root, size, hole, d, j, e') && VolOk(v2, size)
    requires EntryRewritten(v1, v2, d, DirListing(v0, d)[j], e'.short, bytes, dch, size)
    ensures WF(v2, g1, root, size, None)
    ensures DirListing(v2, d) == DirListing(v0, d)[j := e']
    ensures Tidy(SlotsOf(ReadFrom(v0, d))) ==> Tidy(SlotsOf(ReadFrom(v2, d)))
    ensures forall l :: l in g1 && l != d ==> ReadFrom(v2, l) == ReadFrom(v1, l)
    ensures forall l :: l in g && l != d && l != DirListing(v0, d)[j].Cluster() ==> ReadFrom(v2, l) == ReadFrom(v0, l)
  {
    ListingSame(v0, v1, d);
    hide WF, VolOk, ReadFrom, DirListing, EntryRewritten, RefOk, SameEntryBut, Tidy;
    EntryUpdated(v1, v2, g1, root, size, hole, d, j, e', bytes, dch);
  }

  /** What stays the same around a file that was written back. */
  lemma SyncFrames(v0: Vol, v2: Vol, g: Objs, root: nat, size: nat, d: nat, j: nat, e': FatDirEntry)
    requires WF(v0, g, root, size, None) && IsDir(g, d) && j < |DirListing(v0, d)|
    requires DirListing(v2, d) == DirListing(v0, d)[j := e'] && SameEntryBut(DirListing(v0, d)[j], e')
    requires !DirListing(v0, d)[j].IsDirectory()
    requires forall l :: l in g && l != d && l != DirListing(v0, d)[j].Cluster() ==> ReadFrom(v2, l) == ReadFrom(v0, l)
    ensures PathsUpdated(v0, v2, root, d, DirListing(v0, d)[j], e')
    ensures OtherFilesSame(v0, v2, root, d, DirListing(v0, d)[j])
    ensures EntryReplaced(v0, v2, d, DirListing(v0, d)[j], e') && OtherListingsSame(v0, v2, root, {d})
    ensures OtherDirsSame(v0, v2, g, d)
  {
    hide WF, OtherListingsSame;
    DirKnown(v0, g, root, size, d, j);
    forall k | IsDir(g, k) && k != d ensures DirListing(v2, k) == DirListing(v0, k) {
      ListingSame(v0, v2, k);
    }
    hide ReadFrom, DirListing;
    ListingsKept(v0, v2, g, root, size, {d});
    PathsAreUpdated(v0, v2, g, root, size, d, j, e');
    FilesKept(v0, v2, g, root, size, d, j);
  }

  lemma SyncTidy(v0: Vol, v2: Vol, g: Objs, g': Objs, root: nat, size: nat, d: nat, j: nat)
    requires WF(v0, g, root, size, None) && IsDir(g, d) && j < |DirListing(v0, d)| && DirsTidy(v0, g)
    requires forall l :: l in g && l != d && l != DirListing(v0, d)[j].Cluster() ==> ReadFrom(v2, l) == ReadFrom(v0, l)
    requires Tidy(SlotsOf(ReadFrom(v0, d))) ==> Tidy(SlotsOf(ReadFrom(v2, d)))
    requires (forall k :: IsDir(g', k) ==> IsDir(g, k)) && !DirListing(v0, d)[j].IsDirectory()
    ensures DirsTidy(v2, g')
  {
    hide WF, ReadFrom, DirListing, Tidy, SlotsOf;
    DirKnown(v0, g, root, size, d, j);
    forall k | IsDir(g', k) ensures Tidy(SlotsOf(ReadFrom(v2, k))) {
      ObjReadable(v0, g, root, size, k);
      assert Tidy(SlotsOf(ReadFrom(v0, k)));
    }
  }

  lemma WholePrefix(data: seq<byte>, size: nat, n: nat)
    requires size > 0 && n <= |data|
    ensures n <= |Whole(data, size)| && Whole(data, size)[..n] == data[..n]
  {
  }

  /** Opening the file gives back what was written to its chain, cut to the length in its entry. */
  lemma SyncedData(v2: Vol, e': FatDirEntry, data: seq<byte>, size: nat)
    requires size > 0 && e'.short.size == |data| % SIZE_LIMIT
    requires if e'.Cluster() >= 2 then ReadFrom(v2, e'.Cluster()) == Whole(data, size) else data == []
    ensures FileData(v2, e') == data[..|data| % SIZE_LIMIT]
  {
    hide ReadFrom, Whole;
    WholePrefix(data, size, |data| % SIZE_LIMIT);
  }

  /** A file of at least one byte was written back: first its chain, then its entry. */
  lemma SyncNonEmpty(v0: Vol, v1: Vol, v2: Vol, g: Objs, root: nat, size: nat, d: nat, j: nat, c: nat,
                     data: seq<byte>, ch: seq<nat>, bytes: seq<byte>, dch: seq<nat>, e': FatDirEntry)
    requires WF(v0, g, root, size, None) && VolOk(v1, size) && VolOk(v2, size) && FileAt(v0, g, d, j, c)
    requires |ch| > 0 && Wrote(v0, v1, OldChain(v0.fat, c), ch, data, size) && ch[0] < SIZE_LIMIT
    requires e' == SyncedEntry(DirListing(v0, d)[j], ch[0], |data|)
    requires EntryRewritten(v1, v2, d, DirListing(v0, d)[j], e'.short, bytes, dch, size)
    ensures WF(v2, g[ch[0] := FileObj(v0, d, j, ch)], root, size, None)
    ensures Synced(v0, v2, root, d, DirListing(v0, d)[j], e', data)
    ensures DirsTidy(v0, g) ==> DirsTidy(v2, g[ch[0] := FileObj(v0, d, j, ch)])
    ensures InTree(v0, g, root) ==> InTree(v2, g[ch[0] := FileObj(v0, d, j, ch)], root)
  {
    hide VolOk, ReadFrom, DirListing, Wrote, OldChain, EntryRewritten, PathsUpdated, OtherFilesSame, FileData, Tidy, DirsTidy, Whole;
    hide EntryReplaced, OtherListingsSame, OtherDirsSame, InTree;
    VolSizePositive(v0, size);
    hide WF;
    var g1 := g[ch[0] := FileObj(v0, d, j, ch)];
    HalfSyncedWritten(v0, v1, g, root, size, d, j, c, data, ch);
    SyncEntry(v0, v1, v2, g, g1, root, size, None, d, j, e', bytes, dch);
    SyncedEntryPlain(DirListing(v0, d)[j], ch[0], |data|);
    SyncedData(v2, e', data, size);
    SyncFrames(v0, v2, g, root, size, d, j, e');
    if DirsTidy(v0, g) { SyncTidy(v0, v2, g, g1, root, size, d, j); }
    FileDataWritten(v0, v1, g, root, size, d, j, c, data, ch);
    if InTree(v0, g, root) { TreeFilled(v0, v2, g, root, size, d, j, c, ch[0], ch, e'); }
  }

  /** A file was emptied: its chain was freed if it had one, then its entry was rewritten. */
  lemma SyncEmpty(v0: Vol, v1: Vol, v2: Vol, g: Objs, root: nat, size: nat, d: nat, j: nat, c: nat,
                  bytes: seq<byte>, dch: seq<nat>, e': FatDirEntry)
    requires WF(v0, g, root, size, None) && VolOk(v1, size) && VolOk(v2, size) && FileAt(v0, g, d, j, c)
    requires if c >= 2 then Freed(v0, v1, c) else v1 == v0
    requires e' == SyncedEntry(DirListing(v0, d)[j], 0, 0)
    requires EntryRewritten(v1, v2, d, DirListing(v0, d)[j], e'.short, bytes, dch, size)
    ensures WF(v2, g - {c}, root, size, None)
    ensures Synced(v0, v2, root, d, DirListing(v0, d)[j], e', [])
    ensures DirsTidy(v0, g) ==> DirsTidy(v2, g - {c})
    ensures InTree(v0, g, root) ==> InTree(v2, g - {c}, root)
  {
    hide VolOk, ReadFrom, DirListing, Freed, EntryRewritten, PathsUpdated, OtherFilesSame, FileData, Tidy, DirsTidy;
    hide EntryReplaced, OtherListingsSame, OtherDirsSame, InTree;
    VolSizePositive(v0, size);
    hide WF;
    var hole: Hole := if c >= 2 then Some((d, DirListing(v0, d)[j].ShortSlot())) else None;
    HalfSyncedFreed(v0, v1, g, root, size, d, j, c);
    SyncEntry(v0, v1, v2, g, g - {c}, root, size, hole, d, j, e', bytes, dch);
    SyncedEntryPlain(DirListing(v0, d)[j], 0, 0);
    SyncedData(v2, e', [], size);
    SyncFrames(v0, v2, g, root, size, d, j, e');
    if DirsTidy(v0, g) { SyncTidy(v0, v2, g, g - {c}, root, size, d, j); }
    if InTree(v0, g, root) { TreeEmptied(v0, v2, g, root, size, d, j, c, e'); }
  }

  // ---- remove and rmdir -------------------------------------------------------------------

  /** Every path that led somewhere other than to `e` leads there still. */
  ghost predicate OtherPathsKept(v: Vol, v': Vol, root: nat, d: nat, e: FatDirEntry) {
    forall parts: seq<string> :: parts != [] && Resolve(v, root, parts).Ok? && Resolve(v, root, parts) != Ok((d, e)) ==>
      Resolve(v', root, parts) == Resolve(v, root, parts)
  }

  /** Entry `j` of directory `d` is gone, and nothing else has changed for anyone. */
  ghost predicate Removed(v: Vol, v': Vol, root: nat, d: nat, j: nat) {
    && j < |DirListing(v, d)|
    && DirListing(v', d) == DirListing(v, d)[..j] + DirListing(v, d)[j + 1..]
    && OtherListingsSame(v, v', root, {d, DirListing(v, d)[j].Cluster() as nat})
    && OtherPathsKept(v, v', root, d, DirListing(v, d)[j])
    && OtherFilesSame(v, v', root, d, DirListing(v, d)[j])
  }

  /** A file, or an empty directory. */
  ghost predicate Removable(v: Vol, g: Objs, d: nat, j: nat) {
    && IsDir(g, d) && j < |DirListing(v, d)|
    && (DirListing(v, d)[j].IsDirectory() ==> DirListing(v, DirListing(v, d)[j].Cluster()) == [])
  }

  /** Between the two steps of `remove`: the clusters are free, the entry is still there. */
  ghost predicate HalfRemoved(v0: Vol, v1: Vol, g: Objs, g1: Objs, root: nat, size: nat, hole: Hole, d: nat, j: nat) {
    && j < |DirListing(v0, d)|
    && WF(v1, g1, root, size, hole) && IsDir(g1, d)
    && (hole == None || hole == Some((d, DirListing(v0, d)[j].ShortSlot())))
    && ReadFrom(v1, d) == ReadFrom(v0, d)
    && (forall l :: l in g && l != DirListing(v0, d)[j].Cluster() ==> l in g1 && ReadFrom(v1, l) == ReadFrom(v0, l))
    && (forall k :: IsDir(g1, k) ==> IsDir(g, k) && k != DirListing(v0, d)[j].Cluster())
  }

  lemma RemovableObject(v: Vol, g: Objs, root: nat, size: nat, d: nat, j: nat)
    requires WF(v, g, root, size, None) && Removable(v, g, d, j)
    ensures var e := DirListing(v, d)[j]; var c := e.Cluster();
      if c >= 2 then c in g && c != root && c != d && g[c].parent == d && g[c].slot == e.ShortSlot()
      else c !in g && !e.IsDirectory()
  {
    DirKnown(v, g, root, size, d, j);
    var c := DirListing(v, d)[j].Cluster();
    ObjReadable(v, g, root, size, d);
    if c in g {
      ObjReadable(v, g, root, size, c);
    }
  }

  lemma HalfRemovedFreed(v0: Vol, v1: Vol, g: Objs, root: nat, size: nat, d: nat, j: nat)
    requires WF(v0, g, root, size, None) && VolOk(v1, size) && Removable(v0, g, d, j)
    requires var c := DirListing(v0, d)[j].Cluster(); if c >= 2 then Freed(v0, v1, c) else v1 == v0
    ensures var c := DirListing(v0, d)[j].Cluster();
      HalfRemoved(v0, v1, g, g - {c}, root, size,
        if c >= 2 then Some((d, DirListing(v0, d)[j].ShortSlot())) else None, d, j)
  {
    hide WF, VolOk, ReadFrom, DirListing, Freed, Resolve;
    RemovableObject(v0, g, root, size, d, j);
    var c := DirListing(v0, d)[j].Cluster();
    if c >= 2 {
      ObjFreed(v0, v1, g, root, size, c);
    } else {
      assert g - {c} == g;
    }
  }

  lemma RemoveEntry(v0: Vol, v1: Vol, v2: Vol, g: Objs, g1: Objs, root: nat, size: nat, hole: Hole, d: nat, j: nat,
                    data: seq<byte>, ch: seq<nat>)
    requires HalfRemoved(v0, v1, g, g1, root, size, hole, d, j) && VolOk(v2, size)
    requires EntryErased(v1, v2, d, DirListing(v0, d)[j], data, ch, size)
    ensures WF(v2, g1, root, size, None)
    ensures DirListing(v2, d) == DirListing(v0, d)[..j] + DirListing(v0, d)[j + 1..]
    ensures Tidy(SlotsOf(ReadFrom(v0, d))) ==> Tidy(SlotsOf(ReadFrom(v2, d)))
    ensures forall l :: l in g && l != d && l != DirListing(v0, d)[j].Cluster() ==> ReadFrom(v2, l) == ReadFrom(v0, l)
  {
    ListingSame(v0, v1, d);
    hide WF, VolOk, ReadFrom, DirListing, EntryErased, Tidy;
    EntryRemoved(v1, v2, g1, root, size, hole, d, j, data, ch);
  }

  lemma RemovePaths(v0: Vol, v2: Vol, g: Objs, root: nat, size: nat, d: nat, j: nat)
    requires WF(v0, g, root, size, None) && Removable(v0, g, d, j)
    requires DirListing(v2, d) == DirListing(v0, d)[..j] + DirListing(v0, d)[j + 1..]
    requires forall k :: IsDir(g, k) && k != d && DirListing(v0, k) != [] ==> DirListing(v2, k) == DirListing(v0, k)
    ensures OtherPathsKept(v0, v2, root, d, DirListing(v0, d)[j])
  {
    hide WF, ReadFrom, DirListing, Resolve;
    RootIsDir(v0, g, root, size);
    forall parts: seq<string> | parts != [] && Resolve(v0, root, parts).Ok? && Resolve(v0, root, parts) != Ok((d, DirListing(v0, d)[j]))
      ensures Resolve(v2, root, parts) == Resolve(v0, root, parts)
    {
      ResolveRemoved(v0, v2, g, root, size, d, j, root, parts);
    }
  }

  lemma RemoveFrames(v0: Vol, v2: Vol, g: Objs, root: nat, size: nat, d: nat, j: nat)
    requires WF(v0, g, root, size, None) && Removable(v0, g, d, j)
    requires DirListing(v2, d) == DirListing(v0, d)[..j] + DirListing(v0, d)[j + 1..]
    requires forall l :: l in g && l != d && l != DirListing(v0, d)[j].Cluster() ==> ReadFrom(v2, l) == ReadFrom(v0, l)
    ensures Removed(v0, v2, root, d, j)
    ensures forall k :: IsDir(g, k) && k != d && k != DirListing(v0, d)[j].Cluster() ==> DirListing(v2, k) == DirListing(v0, k)
  {
    hide WF, OtherPathsKept, OtherFilesSame, OtherListingsSame, Listing, SlotsOf;
    RemovableObject(v0, g, root, size, d, j);
    DirKnown(v0, g, root, size, d, j);
    var c: nat := DirListing(v0, d)[j].Cluster();
    forall k | IsDir(g, k) && k !in {d, c} ensures DirListing(v2, k) == DirListing(v0, k) {
      ListingSame(v0, v2, k);
    }
    forall k | IsDir(g, k) && k != d && DirListing(v0, k) != [] ensures DirListing(v2, k) == DirListing(v0, k) {
      ListingSame(v0, v2, k);
    }
    hide ReadFrom, DirListing;
    ListingsKept(v0, v2, g, root, size, {d, c});
    FilesKept(v0, v2, g, root, size, d, j);
    RemovePaths(v0, v2, g, root, size, d, j);
  }

  /** A file or empty directory was removed: its chain was freed if it had one, then its entry was deleted. */
  lemma RemoveDone(v0: Vol, v1: Vol, v2: Vol, g: Objs, root: nat, size: nat, d: nat, j: nat, data: seq<byte>, ch: seq<nat>)
    requires WF(v0, g, root, size, None) && VolOk(v1, size) && VolOk(v2, size) && Removable(v0, g, d, j)
    requires var c := DirListing(v0, d)[j].Cluster(); if c >= 2 then Freed(v0, v1, c) else v1 == v0
    requires EntryErased(v1, v2, d, DirListing(v0, d)[j], data, ch, size)
    ensures WF(v2, g - {DirListing(v0, d)[j].Cluster() as nat}, root, size, None)
    ensures Removed(v0, v2, root, d, j)
    ensures DirsTidy(v0, g) ==> DirsTidy(v2, g - {DirListing(v0, d)[j].Cluster() as nat})
    ensures InTree(v0, g, root) ==> InTree(v2, g - {DirListing(v0, d)[j].Cluster() as nat}, root)
  {
    hide WF, VolOk, ReadFrom, DirListing, Freed, EntryErased, Removed, Tidy, InTree, StayBeside;
    var e := DirListing(v0, d)[j];
    var c: nat := e.Cluster();
    var hole: Hole := if c >= 2 then Some((d, e.ShortSlot())) else None;
    HalfRemovedFreed(v0, v1, g, root, size, d, j);
    RemoveEntry(v0, v1, v2, g, g - {c}, root, size, hole, d, j, data, ch);
    RemoveFrames(v0, v2, g, root, size, d, j);
    if InTree(v0, g, root) {
      RemovedStay(DirListing(v0, d), j);
      TreeWithout(v0, v2, g, root, size, d, j, c);
    }
  }

  /** When no other entry of the directory has its name, the removed one is not found again. */
  lemma RemovedNotFound(v: Vol, v': Vol, root: nat, d: nat, j: nat, name: string)
    requires Removed(v, v', root, d, j) && Lower(DirListing(v, d)[j].name) == Lower(name)
    requires forall i :: 0 <= i < |DirListing(v, d)| && i != j ==> Lower(DirListing(v, d)[i].name) != Lower(name)
    ensures Lookup(v', d, name) == None
  {
    hide DirListing, OtherPathsKept, OtherFilesSame, OtherListingsSame;
    var after := DirListing(v', d);
    forall k | 0 <= k < |after| ensures Lower(after[k].name) != Lower(name) {
      assert after[k] == DirListing(v, d)[if k < j then k else k + 1];
    }
    FirstMatch(after, name, |after|);
  }

  // ---- mkdir ------------------------------------------------------------------------------

  const DOT: Name11 := [0x2E, 0x20, 0x20, 0x20, 0x20, 0x20, 0x20, 0x20, 0x20, 0x20, 0x20]
  const DOTDOT: Name11 := [0x2E, 0x2E, 0x20, 0x20, 0x20, 0x20, 0x20, 0x20, 0x20, 0x20, 0x20]

  function DotEntry(name: Name11, cluster: u32): ShortDirEntry {
    ShortDirEntry(name, ATTR_DIRECTORY, 0, 0, 0, 0, 0, cluster / 0x1_0000, 0, 0, cluster % 0x1_0000, 0)
  }

  /** The first cluster of a new directory: "." and "..", then zeros. */
  function NewDirData(size: nat, self: u32, parent: u32): seq<byte>
    requires size >= 64
  {
    Splice(Splice(Zeros(size), 0, DotEntry(DOT, self).Serialize()), 32, DotEntry(DOTDOT, parent).Serialize())
  }

  lemma DotSlotsHidden(cluster: u32)
    ensures var a := DotEntry(DOT, cluster).Serialize();
      !IsFree(a) && !IsListed(a) && a[11] != ATTR_LFN
    ensures var b := DotEntry(DOTDOT, cluster).Serialize();
      !IsFree(b) && !IsListed(b) && b[11] != ATTR_LFN
  {
    ShortRoundTrip(DotEntry(DOT, cluster));
    ShortRoundTrip(DotEntry(DOTDOT, cluster));
    hide ShortDirEntry.Serialize, ParseShort;
    assert DOT[..8][1..][0] == SPACE;
    assert Shown(DOT[..8][1..]) == "" && Shown(DOT[8..]) == "";
    assert ShownName(DOT) == ".";
    assert DOTDOT[..8][1..][1..][0] == SPACE && DOTDOT[..8][1..][0] == 0x2E;
    assert Shown(DOTDOT[..8][1..][1..]) == "" && Shown(DOTDOT[8..]) == "";
    assert Shown(DOTDOT[..8][1..]) == ".";
    assert ShownName(DOTDOT) == "..";
  }

  lemma NewDirSlots(size: nat, self: u32, parent: u32)
    requires size >= 64 && size % ENTRY_SIZE == 0
    ensures var slots := SlotsOf(NewDirData(size, self, parent));
      && |slots| >= 2 && slots[0] == DotEntry(DOT, self).Serialize() && slots[1] == DotEntry(DOTDOT, parent).Serialize()
      && forall i :: 2 <= i < |slots| ==> slots[i][0] == 0x00
  {
    hide ShortDirEntry.Serialize, SlotsOf, DotEntry, Splice, Zeros;
    ZeroSlots(size);
    TwoPatched(Zeros(size), DotEntry(DOT, self).Serialize(), DotEntry(DOTDOT, parent).Serialize());
  }

  lemma TwoPatched(data: seq<byte>, a: Slot, b: Slot)
    requires |data| >= 64
    ensures |SlotsOf(data)| >= 2 && SlotsOf(Splice(Splice(data, 0, a), 32, b)) == SlotsOf(data)[0 := a][1 := b]
  {
    hide SlotsOf, Splice;
    PatchSlot(data, 0, a);
    PatchSlot(Splice(data, 0, a), 1, b);
  }

  lemma ZeroSlots(size: nat)
    requires size % ENTRY_SIZE == 0
    ensures var slots := SlotsOf(Zeros(size)); |slots| == size / ENTRY_SIZE && forall i :: 0 <= i < |slots| ==> slots[i][0] == 0x00
  {
    hide SlotsOf;
    SlotCount(Zeros(size));
    forall i: nat | i < |SlotsOf(Zeros(size))| ensures SlotsOf(Zeros(size))[i][0] == 0x00 {
      SlotAt(Zeros(size), i);
    }
  }

  /**
    The bytes of a new directory: "." with its own first cluster, ".." with its parent's, both
    marked as directories, and zeros.
   */
  ghost predicate HasDots(data: seq<byte>, self: nat, parent: nat) {
    && |data| >= 64
    && data[..11] == [0x2E] + seq(10, _ => 0x20) && data[11] == 0x10
    && LeValue(data[26..28]) + 0x1_0000 * LeValue(data[20..22]) == self
    && data[32..43] == [0x2E, 0x2E] + seq(9, _ => 0x20) && data[43] == 0x10
    && LeValue(data[58..60]) + 0x1_0000 * LeValue(data[52..54]) == parent
    && forall i :: 64 <= i < |data| ==> data[i] == 0
  }

  lemma DotEntryBytes(name: Name11, cluster: u32)
    ensures var d := DotEntry(name, cluster).Serialize();
      && d[..11] == name && d[11] == 0x10 && LeValue(d[26..28]) + 0x1_0000 * LeValue(d[20..22]) == cluster
  {
    hide ShortDirEntry.Serialize;
    SerializedBytes(DotEntry(name, cluster));
  }

  lemma NewDirHasDots(size: nat, self: u32, parent: u32)
    requires size >= 64
    ensures HasDots(NewDirData(size, self, parent), self, parent)
  {
    DotEntryBytes(DOT, self);
    DotEntryBytes(DOTDOT, parent);
    hide ShortDirEntry.Serialize, DotEntry, LeValue;
    var a: seq<byte>, b: seq<byte> := DotEntry(DOT, self).Serialize(), DotEntry(DOTDOT, parent).Serialize();
    var data := NewDirData(size, self, parent);
    assert data == a + b + Zeros(size)[64..];
    assert data[..32] == a && data[32..64] == b;
    assert data[..11] == a[..11] && data[26..28] == a[26..28] && data[20..22] == a[20..22];
    assert data[32..43] == b[..11] && data[58..60] == b[26..28] && data[52..54] == b[20..22];
  }

  /** A new directory lists nothing and is tidy. */
  lemma NewDirEmpty(size: nat, self: u32, parent: u32)
    requires size >= 64 && size % ENTRY_SIZE == 0
    ensures var slots := SlotsOf(NewDirData(size, self, parent));
      Listing(slots) == [] && Shaped(slots) && Tidy(slots)
  {
    var slots := SlotsOf(NewDirData(size, self, parent));
    NewDirSlots(size, self, parent);
    DotSlotsHidden(self);
    DotSlotsHidden(parent);
    hide NewDirData, SlotsOf, ShortDirEntry.Serialize, DotEntry, Scan, Before, ParseLfn, IsListed;
    BeforeAll(slots);
    BeforeNext(slots, 0);
    BeforeNext(slots, 1);
    forall i: nat | 2 <= i <= |slots|
      ensures Before(slots, i).entries == [] && Before(slots, i).parts == []
    {
      NothingAfter(slots, 2, i);
    }
  }

  lemma {:induction false} NothingAfter(slots: seq<Slot>, m: nat, i: nat)
    requires m <= i <= |slots| && Before(slots, m).entries == [] && Before(slots, m).parts == []
    requires forall k :: m <= k < |slots| ==> slots[k][0] == 0x00
    ensures Before(slots, i).entries == [] && Before(slots, i).parts == []
  {
    if m < i {
      NothingAfter(slots, m, i - 1);
      BeforeNext(slots, i - 1);
      hide Scan, Before;
    }
  }

  /** Every path that led somewhere leads there still. */
  ghost predicate PathsKept(v: Vol, v': Vol, root: nat) {
    forall parts: seq<string> :: parts != [] && Resolve(v, root, parts).Ok? ==>
      Resolve(v', root, parts) == Resolve(v, root, parts)
  }

  /** Every file that a path led to reads as it did. */
  ghost predicate FilesSame(v: Vol, v': Vol, root: nat) {
    forall parts: seq<string> ::
      parts != [] && Resolve(v, root, parts).Ok? && !Resolve(v, root, parts).value.1.IsDirectory()
      ==> FileData(v', Resolve(v, root, parts).value.1) == FileData(v, Resolve(v, root, parts).value.1)
  }

  /**
    Directory `d` has one more entry, `n`, at position `j`: an empty directory, whose "." and ".."
    lead to itself and to `d`. Files read and
    other directories list as they did. It is found under the name it is listed under unless an
    entry before it has that name; and unless one behind it had it first, every path that led
    somewhere leads there still.
   */
  ghost predicate Made(v: Vol, v': Vol, root: nat, d: nat, j: nat, n: FatDirEntry) {
    && j <= |DirListing(v, d)| && DirListing(v', d) == Inserted(DirListing(v, d), j, n)
    && n.short == ShortDirEntry(n.short.name, 0x10, 0, 0, 0, 0, 0, n.short.clusterHigh, 0, 0, n.short.clusterLow, 0)
    && n.IsDirectory() && DirListing(v', n.Cluster()) == [] && n !in DirListing(v, d)
    && HasDots(ReadFrom(v', n.Cluster()), n.Cluster(), d)
    && FilesSame(v, v', root) && OtherListingsSame(v, v', root, {d})
    && Lookup(v', d, n.name) == (if FindIndex(DirListing(v, d), n.name) < j then Lookup(v, d, n.name) else Some(n))
    && (!Hidden(DirListing(v, d), j, n.name) ==> PathsKept(v, v', root))
  }

  lemma NewShortPlain(name: string, attr: byte, cluster: u32, size: u32)
    ensures var s := NewShort(name, attr, cluster, size);
      s.Cluster() == cluster && s.attr == attr && s.name == ShortNameOf(name) && s.size == size
    ensures NewShort(name, ATTR_DIRECTORY, cluster, size).IsDirectory()
  {
  }

  /** The new directory's cluster, filled before anything refers to it. */
  lemma NewDirUnreferenced(v0: Vol, v2: Vol, g: Objs, root: nat, size: nat, d: nat, c: nat, slot: int)
    requires WF(v0, g, root, size, None) && VolOk(v2, size) && IsDir(g, d) && size >= 64
    requires c < SIZE_LIMIT && d < SIZE_LIMIT && InRange(v0.fat, c) && v0.fat[c] == FREE
    requires v2 == Vol(v0.fat[c := EOC], v0.data[c := NewDirData(size, c, d)])
    ensures WF(v2, g[c := Obj([c], true, d, slot)], root, size, None)
    ensures c !in g && c >= 2 && DirListing(v2, c) == [] && Tidy(SlotsOf(ReadFrom(v2, c)))
    ensures HasDots(ReadFrom(v2, c), c, d)
    ensures forall l :: l in g ==> ReadFrom(v2, l) == ReadFrom(v0, l)
  {
    var o := Obj([c], true, d, slot);
    var g' := g[c := o];
    assert size % ENTRY_SIZE == 0;
    FreeNotOwned(v0, g, root, size, None, c);
    FreeClusterUsed(v0, v2, g, root, size, None, c);
    NewDirEmpty(size, c, d);
    NewDirReads(v2, c, NewDirData(size, c, d));
    NewDirHasDots(size, c, d);
    hide HasDots, VolOk, NewDirData, ReadFrom, SlotsOf, Listing, Shaped, Tidy;
    forall l | l in g ensures IsChain(v2.fat, g[l].chain) && Apart(g[l].chain, [c]) {
      assert ObjOk(v2, l, g[l]);
    }
    hide WF, IsChain, Apart;
    ReplaceObj(v2, v2, g, root, size, None, None, c, o);
  }

  lemma NewDirReads(v: Vol, c: nat, bytes: seq<byte>)
    requires |v.fat| == |v.data| <= MAX_CELLS && InRange(v.fat, c) && v.fat[c] == EOC && v.data[c] == bytes
    ensures IsChain(v.fat, [c]) && ReadFrom(v, c) == ChainBytes(v, [c]) == bytes
  {
    ChainIsWalked(v.fat, [c]);
    ChainBytesEmpty(v);
    ChainBytesSnoc(v, [], c);
    assert [] + [c] == [c];
  }

  lemma MadePaths(v0: Vol, v3: Vol, g: Objs, root: nat, size: nat, d: nat, j: nat, n: FatDirEntry)
    requires WF(v0, g, root, size, None) && IsDir(g, d) && j <= |DirListing(v0, d)|
    requires DirListing(v3, d) == Inserted(DirListing(v0, d), j, n) && OtherDirsSame(v0, v3, g, d)
    requires !Hidden(DirListing(v0, d), j, n.name)
    ensures PathsKept(v0, v3, root)
  {
    hide WF, DirListing, Resolve, Hidden;
    RootIsDir(v0, g, root, size);
    forall parts: seq<string> | parts != [] && Resolve(v0, root, parts).Ok?
      ensures Resolve(v3, root, parts) == Resolve(v0, root, parts)
    {
      ResolveInserted(v0, v3, g, root, size, d, j, n, root, parts);
    }
  }

  lemma MadeLookup(v0: Vol, v3: Vol, d: nat, j: nat, n: FatDirEntry)
    requires j <= |DirListing(v0, d)| && DirListing(v3, d) == Inserted(DirListing(v0, d), j, n)
    ensures Lookup(v3, d, n.name) == (if FindIndex(DirListing(v0, d), n.name) < j then Lookup(v0, d, n.name) else Some(n))
  {
    hide DirListing, Lower;
    FindInserted(DirListing(v0, d), j, n, n.name);
  }

  /** An entry that refers to a new object was not listed before. */
  lemma EntryIsNew(v: Vol, g: Objs, root: nat, size: nat, d: nat, n: FatDirEntry)
    requires WF(v, g, root, size, None) && IsDir(g, d) && n.Cluster() >= 2 && n.Cluster() as nat !in g
    ensures n !in DirListing(v, d)
  {
    hide WF, DirListing, FatDirEntry.Cluster;
    if n in DirListing(v, d) {
      var i: nat :| i < |DirListing(v, d)| && DirListing(v, d)[i] == n;
      DirKnown(v, g, root, size, d, i);
    }
  }

  lemma MadeFiles(v0: Vol, v3: Vol, g: Objs, root: nat, size: nat, d: nat)
    requires WF(v0, g, root, size, None) && IsDir(g, d)
    requires forall l :: l in g && l != d ==> ReadFrom(v3, l) == ReadFrom(v0, l)
    ensures FilesSame(v0, v3, root)
  {
    RootIsDir(v0, g, root, size);
    hide WF, DirListing, Resolve, ReadFrom, FatDirEntry.IsDirectory;
    forall parts: seq<string> |
      parts != [] && Resolve(v0, root, parts).Ok? && !Resolve(v0, root, parts).value.1.IsDirectory()
      ensures FileData(v3, Resolve(v0, root, parts).value.1) == FileData(v0, Resolve(v0, root, parts).value.1)
    {
      Resolved(v0, g, root, size, root, parts);
      var (d2, e2) := Resolve(v0, root, parts).value;
      assert e2.Cluster() >= 2 ==> e2.Cluster() in g && !g[e2.Cluster()].dir;
    }
  }

  /** The entry that `mkdir` adds. */
  ghost function MadeEntry(base: seq<byte>, name: string, c: u32, o: nat): FatDirEntry {
    NewEntry(base, name, NewShort(name, ATTR_DIRECTORY, c, 0), o)
  }

  lemma MadeEntryRef(g: Objs, d: nat, base: seq<byte>, name: string, c: u32, o: nat)
    requires NewEntryFor(name, NewShort(name, ATTR_DIRECTORY, c, 0)) && c >= 2
    ensures var n := MadeEntry(base, name, c, o);
      && n.short == NewShort(name, ATTR_DIRECTORY, c, 0) && n.Cluster() == c && n.IsDirectory()
      && RefOk(g[c as nat := Obj([c], true, d, n.ShortSlot())], d, n)
  {
    NewShortPlain(name, ATTR_DIRECTORY, c, 0);
    AddedEntryShort(Before(SlotsOf(base), o), name, NewShort(name, ATTR_DIRECTORY, c, 0), o);
  }

  /** The objects after `mkdir`. */
  ghost function MadeObjs(g: Objs, d: nat, c: nat, slot: int, ch: seq<nat>): Objs
    requires d in g
  {
    var g1 := g[c := Obj([c], true, d, slot)];
    g1[d := g[d].(chain := ch)]
  }

  /** A directory was made: its cluster was taken and filled, then the entry was added. */
  lemma MkdirDone(v0: Vol, v2: Vol, v3: Vol, g: Objs, root: nat, size: nat, d: nat, c: nat, name: string,
                  base: seq<byte>, data: seq<byte>, o: nat, ch: seq<nat>)
    requires WF(v0, g, root, size, None) && VolOk(v2, size) && VolOk(v3, size) && IsDir(g, d) && size >= 64
    requires 2 <= c < SIZE_LIMIT && d < SIZE_LIMIT && InRange(v0.fat, c) && v0.fat[c] == FREE
    requires v2 == Vol(v0.fat[c := EOC], v0.data[c := NewDirData(size, c, d)])
    requires NewEntryFor(name, NewShort(name, ATTR_DIRECTORY, c, 0))
    requires IsBase(base, ReadFrom(v2, d), size) && AddedTo(base, data, o, name, NewShort(name, ATTR_DIRECTORY, c, 0))
    requires Wrote(v2, v3, ChainOf(v2.fat, d), ch, data, size)
    ensures WF(v3, MadeObjs(g, d, c, MadeEntry(base, name, c, o).ShortSlot(), ch), root, size, None)
    ensures Made(v0, v3, root, d, NewIndex(base, o), MadeEntry(base, name, c, o))
    ensures (exists parts :: IsParent(v0, root, parts, d)) ==>
      (PathsKept(v0, v3, root) <==> !Hidden(DirListing(v0, d), NewIndex(base, o), MadeEntry(base, name, c, o).name))
    ensures DirsTidy(v0, g) ==> DirsTidy(v3, MadeObjs(g, d, c, MadeEntry(base, name, c, o).ShortSlot(), ch))
    ensures InTree(v0, g, root) ==> InTree(v3, MadeObjs(g, d, c, MadeEntry(base, name, c, o).ShortSlot(), ch), root)
  {
    hide WF, VolOk, ReadFrom, DirListing, NewDirData, NewEntryFor, AddedTo, Wrote, IsBase;
    hide Tidy, SlotsOf, MadeEntry, NewEntry, NewIndex, Inserted, Lower, PathsKept, FilesSame, OtherListingsSame, Lookup;
    hide InTree, OtherDirsSame, Hidden, IsParent, HasDots;
    var n := MadeEntry(base, name, c, o);
    var g1 := g[c := Obj([c], true, d, n.ShortSlot())];
    NewDirUnreferenced(v0, v2, g, root, size, d, c, n.ShortSlot());
    MadeEntryRef(g, d, base, name, c, o);
    AddMadeEntry(v2, v3, g1, root, size, d, name, base, data, o, c, ch);
    ListingSame(v0, v2, d);
    ListingSame(v2, v3, c);
    MadeFrames(v0, v3, g, root, size, d, NewIndex(base, o), n);
    EntryIsNew(v0, g, root, size, d, n);
    forall parts | IsParent(v0, root, parts, d)
      ensures PathsKept(v0, v3, root) <==> !Hidden(DirListing(v0, d), NewIndex(base, o), n.name)
    {
      PathsKeptExactly(v0, v3, root, d, NewIndex(base, o), n, parts);
    }
    if InTree(v0, g, root) {
      TreeMade(v0, v3, g, MadeObjs(g, d, c, n.ShortSlot(), ch), root, size, d, NewIndex(base, o), n);
    }
  }

  lemma AddMadeEntry(v2: Vol, v3: Vol, g1: Objs, root: nat, size: nat, d: nat, name: string,
                     base: seq<byte>, data: seq<byte>, o: nat, c: u32, ch: seq<nat>)
    requires WF(v2, g1, root, size, None) && VolOk(v3, size) && IsDir(g1, d) && c >= 2
    requires NewEntryFor(name, NewShort(name, ATTR_DIRECTORY, c, 0))
    requires IsBase(base, ReadFrom(v2, d), size) && AddedTo(base, data, o, name, NewShort(name, ATTR_DIRECTORY, c, 0))
    requires RefOk(g1, d, MadeEntry(base, name, c, o))
    requires Wrote(v2, v3, ChainOf(v2.fat, d), ch, data, size)
    ensures WF(v3, g1[d := g1[d].(chain := ch)], root, size, None)
    ensures NewIndex(base, o) <= |DirListing(v2, d)|
    ensures DirListing(v3, d) == Inserted(DirListing(v2, d), NewIndex(base, o), MadeEntry(base, name, c, o))
    ensures Tidy(SlotsOf(ReadFrom(v2, d))) ==> Tidy(SlotsOf(ReadFrom(v3, d)))
    ensures forall l :: l in g1 && l != d ==> ReadFrom(v3, l) == ReadFrom(v2, l)
  {
    hide WF, VolOk, ReadFrom, DirListing, NewEntryFor, AddedTo, Wrote, IsBase, Tidy, SlotsOf, NewEntry, NewIndex, Inserted, RefOk;
    EntryAdded(v2, v3, g1, root, size, d, base, data, name, NewShort(name, ATTR_DIRECTORY, c, 0), o, ch);
  }

  lemma MadeFrames(v0: Vol, v3: Vol, g: Objs, root: nat, size: nat, d: nat, j: nat, n: FatDirEntry)
    requires WF(v0, g, root, size, None) && IsDir(g, d) && j <= |DirListing(v0, d)|
    requires DirListing(v3, d) == Inserted(DirListing(v0, d), j, n)
    requires forall l :: l in g && l != d ==> ReadFrom(v3, l) == ReadFrom(v0, l)
    ensures FilesSame(v0, v3, root) && OtherListingsSame(v0, v3, root, {d}) && OtherDirsSame(v0, v3, g, d)
    ensures Lookup(v3, d, n.name) == (if FindIndex(DirListing(v0, d), n.name) < j then Lookup(v0, d, n.name) else Some(n))
    ensures !Hidden(DirListing(v0, d), j, n.name) ==> PathsKept(v0, v3, root)
  {
    hide WF, FilesSame, PathsKept, OtherListingsSame, Lookup, Inserted, Lower, Listing, SlotsOf, Hidden;
    forall k | IsDir(g, k) && k != d ensures DirListing(v3, k) == DirListing(v0, k) {
      ListingSame(v0, v3, k);
    }
    hide ReadFrom, DirListing;
    ListingsKept(v0, v3, g, root, size, {d});
    MadeFiles(v0, v3, g, root, size, d);
    MadeLookup(v0, v3, d, j, n);
    if !Hidden(DirListing(v0, d), j, n.name) {
      MadePaths(v0, v3, g, root, size, d, j, n);
    }
  }

  // ---- what gets lost ---------------------------------------------------------------------

  /** Writing a file back loses the part of its old chain behind the clusters its data needs. */
  lemma LostWhenSynced(v0: Vol, v1: Vol, v2: Vol, g: Objs, root: nat, size: nat, d: nat, j: nat, c: nat,
                       data: seq<byte>, ch: seq<nat>, bytes: seq<byte>, dch: seq<nat>, e': FatDirEntry)
    requires WF(v0, g, root, size, None) && VolOk(v1, size) && FileAt(v0, g, d, j, c)
    requires |ch| > 0 && Wrote(v0, v1, OldChain(v0.fat, c), ch, data, size)
    requires EntryRewritten(v1, v2, d, DirListing(v0, d)[j], e'.short, bytes, dch, size)
    ensures Lost(v2, g[ch[0] := FileObj(v0, d, j, ch)]) == Lost(v0, g) + CutTail(OldChain(v0.fat, c), CeilDiv(|data|, size))
  {
    hide VolOk, ReadFrom, DirListing, Wrote, OldChain, Lost, CutTail, Elems, FreeSet, Whole;
    assert size > 0 by { VolSizePositive(v0, size); }
    hide WF;
    var g1 := g[ch[0] := FileObj(v0, d, j, ch)];
    HandleChain(v0, g, root, size, d, j, c);
    FileDataWritten(v0, v1, g, root, size, d, j, c, data, ch);
    LostWhenWritten(v0, v1, g, root, size, None, ch[0], FileObj(v0, d, j, ch), data);
    LostWhenRewritten(v1, v2, g1, root, size, None, d, dch, bytes);
  }

  /** What writing `data` back over a chain loses: the part behind the clusters it needs, unless the file is emptied. */
  ghost function TailLost(v: Vol, oldCluster: nat, data: seq<byte>, size: nat): set<nat> {
    if data == [] || size == 0 then {} else CutTail(OldChain(v.fat, oldCluster), CeilDiv(|data|, size))
  }

  /** Something is lost exactly when a file that is not emptied needs fewer clusters than it has. */
  lemma TailLostExactly(v: Vol, oldCluster: nat, data: seq<byte>, size: nat)
    requires size > 0
    ensures TailLost(v, oldCluster, data, size) != {} <==> data != [] && CeilDiv(|data|, size) < |OldChain(v.fat, oldCluster)|
  {
    hide OldChain, CeilDiv;
    var ch, n := OldChain(v.fat, oldCluster), CeilDiv(|data|, size);
    if n < |ch| {
      assert ch[n..][0] in Elems(ch[n..]);
    }
  }

  /** One cluster has gone from the free ones to the lost ones. */
  ghost predicate OneLost(v: Vol, v': Vol, lost: set<nat>, lost': set<nat>) {
    exists c :: c in FreeSet(v.fat) && c !in lost && FreeSet(v'.fat) == FreeSet(v.fat) - {c} && lost' == lost + {c}
  }

  /** Emptying a file loses nothing. */
  lemma LostWhenEmptied(v0: Vol, v1: Vol, v2: Vol, g: Objs, root: nat, size: nat, d: nat, j: nat, c: nat,
                        bytes: seq<byte>, dch: seq<nat>, e': FatDirEntry)
    requires WF(v0, g, root, size, None) && VolOk(v1, size) && FileAt(v0, g, d, j, c)
    requires if c >= 2 then Freed(v0, v1, c) else v1 == v0
    requires EntryRewritten(v1, v2, d, DirListing(v0, d)[j], e'.short, bytes, dch, size)
    ensures Lost(v2, g - {c}) == Lost(v0, g)
  {
    hide WF, VolOk, ReadFrom, DirListing, Wrote, Lost, Elems, FreeSet, Freed;
    var hole: Hole := if c >= 2 then Some((d, DirListing(v0, d)[j].ShortSlot())) else None;
    HandleChain(v0, g, root, size, d, j, c);
    if c >= 2 {
      FileDataFreed(v0, v1, g, root, size, d, j, c);
      LostWhenFreed(v0, v1, g, root, size, c);
    } else {
      assert g - {c} == g;
    }
    LostWhenRewritten(v1, v2, g - {c}, root, size, hole, d, dch, bytes);
  }

  /** Removing a file or directory loses nothing. */
  lemma LostWhenRemoved(v0: Vol, v1: Vol, v2: Vol, g: Objs, root: nat, size: nat, d: nat, j: nat, data: seq<byte>, ch: seq<nat>)
    requires WF(v0, g, root, size, None) && VolOk(v1, size) && Removable(v0, g, d, j)
    requires var c := DirListing(v0, d)[j].Cluster(); if c >= 2 then Freed(v0, v1, c) else v1 == v0
    requires EntryErased(v1, v2, d, DirListing(v0, d)[j], data, ch, size)
    ensures Lost(v2, g - {DirListing(v0, d)[j].Cluster() as nat}) == Lost(v0, g)
  {
    hide WF, VolOk, ReadFrom, DirListing, Wrote, Lost, Elems, FreeSet, Freed, SlotsOf;
    var c: nat := DirListing(v0, d)[j].Cluster();
    var hole: Hole := if c >= 2 then Some((d, DirListing(v0, d)[j].ShortSlot())) else None;
    HalfRemovedFreed(v0, v1, g, root, size, d, j);
    RemovableObject(v0, g, root, size, d, j);
    if c >= 2 {
      LostWhenFreed(v0, v1, g, root, size, c);
    } else {
      assert g - {c} == g;
    }
    LostWhenRewritten(v1, v2, g - {c}, root, size, hole, d, ch, data);
  }

  /** Making a directory loses nothing: its cluster has an owner in the end. */
  lemma LostWhenMade(v0: Vol, v2: Vol, v3: Vol, g: Objs, root: nat, size: nat, d: nat, c: nat, slot: int,
                     base: seq<byte>, data: seq<byte>, ch: seq<nat>)
    requires WF(v0, g, root, size, None) && VolOk(v2, size) && IsDir(g, d) && size >= 64
    requires 2 <= c < SIZE_LIMIT && d < SIZE_LIMIT && InRange(v0.fat, c) && v0.fat[c] == FREE
    requires v2 == Vol(v0.fat[c := EOC], v0.data[c := NewDirData(size, c, d)])
    requires IsBase(base, ReadFrom(v2, d), size) && |data| == |base| && Wrote(v2, v3, ChainOf(v2.fat, d), ch, data, size)
    ensures Lost(v3, MadeObjs(g, d, c, slot, ch)) == Lost(v0, g)
  {
    hide VolOk, ReadFrom, DirListing, Wrote, Lost, Elems, FreeSet, SlotsOf, NewDirData, Tidy, IsBase, Apart, CeilDiv;
    WFChains(v0, g, root, size, None);
    hide WF;
    var o := Obj([c], true, d, slot);
    var g1 := g[c := o];
    NewDirUnreferenced(v0, v2, g, root, size, d, c, slot);
    LostWhenTaken(v0, v2, g, root, size, c);
    LostUntilOwned(v2, g, c, o);
    assert Lost(v2, g1) == Lost(v0, g);
    ObjReadable(v2, g1, root, size, d);
    DirChain(v2, g1, root, size, d);
    BaseWhole(v2, g1, root, size, d, base, data);
    LostWhenWritten(v2, v3, g1, root, size, None, d, g1[d].(chain := ch), data);
    assert CutTail(g1[d].chain, CeilDiv(|data|, size)) == {};
  }

  lemma DirChain(v: Vol, g: Objs, root: nat, size: nat, d: nat)
    requires WF(v, g, root, size, None) && d in g
    ensures ChainOf(v.fat, d) == g[d].chain && ChainNow(g, d) == g[d].chain && size > 0
  {
    ObjRead(v, g, root, size, None, d);
  }

  /** When the entry of a new directory cannot be written, its cluster is lost, and no other. */
  lemma LostWhenNotMade(v0: Vol, v2: Vol, v3: Vol, g: Objs, root: nat, size: nat, d: nat, c: nat,
                        panics: bool, base: seq<byte>, data: seq<byte>, ch: seq<nat>)
    requires WF(v0, g, root, size, None) && WF(v2, g, root, size, None) && IsDir(g, d)
    requires InRange(v0.fat, c) && v0.fat[c] == FREE && v2.fat == v0.fat[c := EOC]
    requires panics ==> v3 == v2
    requires !panics ==>
      IsBase(base, ReadFrom(v2, d), size) && |data| == |base| && Grew(v2, v3, ChainOf(v2.fat, d), ch, data, size)
    ensures c in FreeSet(v0.fat) && FreeSet(v3.fat) == FreeSet(v0.fat) - {c}
    ensures Lost(v3, g) == Lost(v0, g) + {c} && c !in Lost(v0, g)
  {
    hide WF, VolOk, ReadFrom, Lost, Elems, FreeSet, SlotsOf, CeilDiv, IsBase;
    LostWhenTaken(v0, v2, g, root, size, c);
    if !panics {
      DirChain(v2, g, root, size, d);
      BaseWhole(v2, g, root, size, d, base, data);
      assert |ch| == |g[d].chain| && ch == ch[..|g[d].chain|];
      assert g[d := g[d].(chain := ch)] == g;
      LostWhenGrown(v2, v3, g, root, size, None, d, ch, data);
      NothingTaken(v2, g, root, size, d);
    }
  }

  lemma NothingTaken(v: Vol, g: Objs, root: nat, size: nat, d: nat)
    requires WF(v, g, root, size, None) && d in g
    ensures FreeSet(v.fat) - Elems(g[d].chain) == FreeSet(v.fat)
  {
    WFChains(v, g, root, size, None);
    ChainInClusters(v.fat, g[d].chain);
  }

  /** All that holds after a file of at least one byte was written back. */
  lemma FillDone(v0: Vol, v1: Vol, v2: Vol, g: Objs, root: nat, size: nat, d: nat, j: nat, c: nat,
                 data: seq<byte>, ch: seq<nat>, bytes: seq<byte>, dch: seq<nat>, e': FatDirEntry)
    requires WF(v0, g, root, size, None) && VolOk(v1, size) && VolOk(v2, size) && FileAt(v0, g, d, j, c) && data != []
    requires |ch| > 0 && Wrote(v0, v1, OldChain(v0.fat, c), ch, data, size) && ch[0] < SIZE_LIMIT
    requires e' == SyncedEntry(DirListing(v0, d)[j], ch[0], |data|)
    requires EntryRewritten(v1, v2, d, DirListing(v0, d)[j], e'.short, bytes, dch, size)
    ensures var g1 := g[ch[0] := FileObj(v0, d, j, ch)];
      && WF(v2, g1, root, size, None) && Synced(v0, v2, root, d, DirListing(v0, d)[j], e', data)
      && (DirsTidy(v0, g) ==> DirsTidy(v2, g1)) && (InTree(v0, g, root) ==> InTree(v2, g1, root)) && Lost(v2, g1) == Lost(v0, g) + TailLost(v0, c, data, size)
  {
    hide VolOk, ReadFrom, DirListing, Wrote, OldChain, Lost, CutTail, Synced, EntryRewritten, DirsTidy, InTree;
    VolSizePositive(v0, size);
    hide WF;
    SyncNonEmpty(v0, v1, v2, g, root, size, d, j, c, data, ch, bytes, dch, e');
    LostWhenSynced(v0, v1, v2, g, root, size, d, j, c, data, ch, bytes, dch, e');
  }

  lemma AllTaken(free: set<nat>, taken: set<nat>)
    requires taken <= free && free - taken == {}
    ensures taken == free
  {
    forall c | c in free ensures c in taken {
      assert c !in free - taken;
    }
  }

  /**
    What the file of entry `e` reads as when `data` did not fit: all clusters there were hold the
    front part of it, and the entry still counts the old length. Nothing, when it had no cluster.
   */
  ghost function CutOffData(v: Vol, e: FatDirEntry, data: seq<byte>, size: nat): seq<byte> {
    if e.Cluster() < 2 then []
    else Front(Front(data, (|OldChain(v.fat, e.Cluster())| + |FreeSet(v.fat)|) * size), e.short.size)
  }

  /** Clusters too few for the data hold its front part. */
  lemma GrewFront(v: Vol, v': Vol, ch: seq<nat>, ch': seq<nat>, data: seq<byte>, size: nat, room: nat)
    requires |v.fat| <= MAX_CELLS && Grew(v, v', ch, ch', data, size) && ch' != [] && room == |ch'| * size
    ensures ReadFrom(v', ch'[0]) == Front(data, room)
  {
    GrewReadsBack(v, v', ch, ch', data, size);
    ChainIsWalked(v'.fat, ch');
    var n := CeilDiv(|data|, size);
    CeilDivBounds(|data|, size);
    SliceBounds(|ch'|, n, size);
    SliceBounds(n - 1, n, size);
    assert |ch'| * size <= (n - 1) * size by {
      if |ch'| < n - 1 { SliceBounds(|ch'|, n - 1, size); }
    }
    assert |ch'| * size < |data|;
  }

  lemma FailedData(v0: Vol, v1: Vol, g: Objs, root: nat, size: nat, d: nat, j: nat, c: nat, data: seq<byte>, ch: seq<nat>)
    requires WF(v0, g, root, size, None) && FileAt(v0, g, d, j, c)
    requires Grew(v0, v1, OldChain(v0.fat, c), ch, data, size) && |ch| == |OldChain(v0.fat, c)| + |FreeSet(v0.fat)|
    ensures FileData(v1, DirListing(v0, d)[j]) == CutOffData(v0, DirListing(v0, d)[j], data, size)
  {
    hide WF, ReadFrom, Grew, DirListing, FreeSet, OldChain, ChainOf;
    HandleChain(v0, g, root, size, d, j, c);
    if c >= 2 {
      ChainHead(v0, g, root, size, c);
      GrewHead(v0, v1, g[c].chain, ch, data, size);
      GrewFront(v0, v1, g[c].chain, ch, data, size, |ch| * size);
    }
  }

  lemma ChainHead(v: Vol, g: Objs, root: nat, size: nat, k: nat)
    requires WF(v, g, root, size, None) && k in g
    ensures g[k].chain != [] && g[k].chain[0] == k && |v.fat| <= MAX_CELLS
  {
    assert ObjOk(v, k, g[k]);
  }

  lemma GrewHead(v: Vol, v': Vol, ch: seq<nat>, ch': seq<nat>, data: seq<byte>, size: nat)
    requires Grew(v, v', ch, ch', data, size) && ch != []
    ensures ch' != [] && ch'[0] == ch[0]
  {
    assert ch'[..|ch|][0] == ch'[0];
  }

  /** All that holds after the clusters ran out while a file was written back. */
  lemma FillFailed(v0: Vol, v1: Vol, g: Objs, root: nat, size: nat, d: nat, j: nat, c: nat, data: seq<byte>, ch: seq<nat>)
      returns (g': Objs)
    requires WF(v0, g, root, size, None) && VolOk(v1, size) && FileAt(v0, g, d, j, c)
    requires Grew(v0, v1, OldChain(v0.fat, c), ch, data, size) && FreeSet(v1.fat) == {}
    requires |ch| == |OldChain(v0.fat, c)| + |FreeSet(v0.fat)|
    ensures WF(v1, g', root, size, None)
    ensures FileData(v1, DirListing(v0, d)[j]) == CutOffData(v0, DirListing(v0, d)[j], data, size)
    ensures PathsKept(v0, v1, root) && OtherFilesSame(v0, v1, root, d, DirListing(v0, d)[j]) && OtherListingsSame(v0, v1, root, {})
    ensures InTree(v0, g, root) ==> InTree(v1, g', root)
    ensures Lost(v1, g') == Lost(v0, g) + if c < 2 then FreeSet(v0.fat) else {}
  {
    hide WF, VolOk, ReadFrom, DirListing, Grew, OldChain, Lost, Elems, PathsKept, OtherFilesSame, OtherListingsSame, FreeSet;
    hide FileData, CutOffData, InTree, KeepsRefs;
    FailedData(v0, v1, g, root, size, d, j, c, data, ch);
    g' := FileDataGrew(v0, v1, g, root, size, d, j, c, data, ch);
    FailedFrames(v0, v1, g, root, size, d, j, c);
    if InTree(v0, g, root) { TreeSame(v0, v1, g, g', root); }
    if c < 2 {
      AllTaken(FreeSet(v0.fat), Elems(ch));
    }
  }

  /** What adding the entry of a new directory finds: its cluster taken, its parent as it was. */
  ghost predicate ParentReady(v0: Vol, v2: Vol, g: Objs, root: nat, size: nat, d: nat, c: nat) {
    && c in FreeSet(v0.fat) && WF(v2, g, root, size, None) && ReadFrom(v2, d) == ReadFrom(v0, d)
    && (FreeSet(v2.fat) == {} <==> |FreeSet(v0.fat)| < 2)
    && d >= 2 && StartOk(v2.fat, d) && |ReadFrom(v2, d)| % ENTRY_SIZE == 0
    && (forall l :: l in g ==> ReadFrom(v2, l) == ReadFrom(v0, l))
  }

  lemma ParentIsReady(v0: Vol, v2: Vol, g: Objs, root: nat, size: nat, d: nat, c: nat)
    requires WF(v0, g, root, size, None) && VolOk(v2, size) && IsDir(g, d) && size >= 64
    requires 2 <= c < SIZE_LIMIT && d < SIZE_LIMIT && InRange(v0.fat, c) && v0.fat[c] == FREE
    requires v2 == Vol(v0.fat[c := EOC], v0.data[c := NewDirData(size, c, d)])
    ensures ParentReady(v0, v2, g, root, size, d, c)
  {
    assert |v0.data| == |v0.fat|;
    hide WF, VolOk, ReadFrom, Lost, NewDirData, FreeSet, PathsKept, FilesSame, OtherListingsSame;
    NewDirUnseen(v0, v2, g, root, size, d, c);
    LostWhenTaken(v0, v2, g, root, size, c);
    OneTaken(FreeSet(v0.fat), c);
  }

  /** What the scan of directory `d` has met before the first slots in a row that an entry for `name` fits, grown or not. */
  ghost function AddState(v: Vol, d: nat, name: string, size: nat): ScanState {
    var slots := SlotsOf(ReadFrom(v, d) + Zeros(size));
    Before(slots, FirstRoom(slots, SlotsNeeded(name)))
  }

  /** Where in the listing of `d` the entry of a new directory `name` comes to stand. */
  ghost function MkdirIndex(v: Vol, d: nat, name: string, size: nat): nat {
    |AddState(v, d, name, size).entries|
  }

  /** The name it is listed under; in a directory that is not tidy, fragments left over may belong to it. */
  ghost function MkdirName(v: Vol, d: nat, name: string, size: nat): string {
    if NeedsLfn(name) then StoredName(name)
    else EntryName(NewShort(name, ATTR_DIRECTORY, 0, 0), AddState(v, d, name, size).parts)
  }

  lemma AddedName(s: ScanState, name: string, c: u32, o: nat)
    requires NewEntryFor(name, NewShort(name, ATTR_DIRECTORY, c, 0))
    ensures AddedEntry(s, name, NewShort(name, ATTR_DIRECTORY, c, 0), o).name ==
      if NeedsLfn(name) then StoredName(name) else EntryName(NewShort(name, ATTR_DIRECTORY, 0, 0), s.parts)
  {
    hide NeedsLfn, StoredName, ShortNameOf, ParseShort, ShortDirEntry.Serialize, NewEntryFor;
    ShortSlotListed(name, NewShort(name, ATTR_DIRECTORY, c, 0));
  }

  /** Place and name of the new entry are known before the call. */
  lemma MadeWhere(v0: Vol, v2: Vol, g: Objs, root: nat, size: nat, d: nat, base: seq<byte>, data: seq<byte>,
                  name: string, c: u32, o: nat)
    requires WF(v0, g, root, size, None) && IsDir(g, d) && ReadFrom(v2, d) == ReadFrom(v0, d)
    requires IsBase(base, ReadFrom(v2, d), size) && NewEntryFor(name, NewShort(name, ATTR_DIRECTORY, c, 0))
    requires AddedTo(base, data, o, name, NewShort(name, ATTR_DIRECTORY, c, 0))
    requires o == FirstRoom(SlotsOf(ReadFrom(v2, d) + Zeros(size)), SlotsNeeded(name))
    ensures NewIndex(base, o) == MkdirIndex(v0, d, name, size) && MadeEntry(base, name, c, o).name == MkdirName(v0, d, name, size)
  {
    hide WF, ReadFrom, SlotsOf, Before, FirstRoom, NewEntryFor, IsBase, AddedEntry, EntryName, StoredName, NeedsLfn;
    DirShaped(v0, g, root, size, None, d);
    BaseState(base, ReadFrom(v0, d), size, o);
    AddedName(Before(SlotsOf(base), o), name, c, o);
  }

  /** What holds after a directory was made. */
  ghost predicate MadeAll(v0: Vol, v3: Vol, g: Objs, g': Objs, root: nat, size: nat, d: nat, j: nat, n: FatDirEntry, name: string) {
    && WF(v3, g', root, size, None) && Made(v0, v3, root, d, j, n)
    && j == MkdirIndex(v0, d, name, size) && n.name == MkdirName(v0, d, name, size)
    && (DirsTidy(v0, g) ==> DirsTidy(v3, g') && n.name == StoredName(name)) && (InTree(v0, g, root) ==> InTree(v3, g', root))
    && Lost(v3, g') == Lost(v0, g)
  }

  lemma MkdirAll(v0: Vol, v2: Vol, v3: Vol, g: Objs, root: nat, size: nat, d: nat, c: nat, name: string,
                 base: seq<byte>, data: seq<byte>, o: nat, ch: seq<nat>)
    requires WF(v0, g, root, size, None) && VolOk(v2, size) && VolOk(v3, size) && IsDir(g, d) && size >= 64
    requires 2 <= c < SIZE_LIMIT && d < SIZE_LIMIT && InRange(v0.fat, c) && v0.fat[c] == FREE
    requires v2 == Vol(v0.fat[c := EOC], v0.data[c := NewDirData(size, c, d)])
    requires NewEntryFor(name, NewShort(name, ATTR_DIRECTORY, c, 0)) && ParentReady(v0, v2, g, root, size, d, c)
    requires IsBase(base, ReadFrom(v2, d), size) && AddedTo(base, data, o, name, NewShort(name, ATTR_DIRECTORY, c, 0))
    requires Wrote(v2, v3, ChainOf(v2.fat, d), ch, data, size)
    requires o == FirstRoom(SlotsOf(ReadFrom(v2, d) + Zeros(size)), SlotsNeeded(name))
    ensures var n := MadeEntry(base, name, c, o);
      MadeAll(v0, v3, g, MadeObjs(g, d, c, n.ShortSlot(), ch), root, size, d, NewIndex(base, o), n, name)
  {
    assert |data| == |base| && ReadFrom(v2, d) == ReadFrom(v0, d);
    hide WF, VolOk, ReadFrom, DirListing, NewDirData, NewEntryFor, AddedTo, Wrote, IsBase, ParentReady;
    hide Tidy, DirsTidy, SlotsOf, MadeEntry, NewIndex, Made, MadeObjs, Lost, StoredName, InTree, FirstRoom, MkdirIndex, MkdirName;
    MkdirDone(v0, v2, v3, g, root, size, d, c, name, base, data, o, ch);
    MadeEntryName(v0, v2, g, root, size, d, base, data, name, c, o);
    MadeWhere(v0, v2, g, root, size, d, base, data, name, c, o);
    LostWhenMade(v0, v2, v3, g, root, size, d, c, MadeEntry(base, name, c, o).ShortSlot(), base, data, ch);
  }

  /** What holds when a directory could not be made for want of room. */
  ghost predicate NotMadeAll(v0: Vol, v3: Vol, g: Objs, root: nat, size: nat) {
    && WF(v3, g, root, size, None) && PathsKept(v0, v3, root) && FilesSame(v0, v3, root)
    && OtherListingsSame(v0, v3, root, {}) && OneLost(v0, v3, Lost(v0, g), Lost(v3, g))
    && (InTree(v0, g, root) ==> InTree(v3, g, root))
  }

  lemma MkdirNone(v0: Vol, v2: Vol, v3: Vol, g: Objs, root: nat, size: nat, d: nat, c: nat, name: string,
                  a: Result<(), FatError>, base: seq<byte>, data: seq<byte>, o: nat, ch: seq<nat>)
    requires WF(v0, g, root, size, None) && VolOk(v3, size) && IsDir(g, d) && 2 <= c < SIZE_LIMIT
    requires InRange(v0.fat, c) && v0.fat[c] == FREE && v2.fat == v0.fat[c := EOC] && ParentReady(v0, v2, g, root, size, d, c)
    requires NewEntryFor(name, NewShort(name, ATTR_DIRECTORY, c, 0))
    requires a == Err(OutOfBounds) ==> v3 == v2
    requires a != Err(OutOfBounds) ==>
      && IsBase(base, ReadFrom(v2, d), size) && AddedTo(base, data, o, name, NewShort(name, ATTR_DIRECTORY, c, 0))
      && GrownRun(ReadFrom(v2, d), base, o * ENTRY_SIZE, SlotsNeeded(name))
      && Grew(v2, v3, ChainOf(v2.fat, d), ch, data, size)
    ensures NotMadeAll(v0, v3, g, root, size)
  {
    assert a != Err(OutOfBounds) ==> |data| == |base|;
    hide WF, VolOk, ReadFrom, AddedTo, GrownRun, Grew, NewEntryFor, IsBase, SlotsOf, Listing, Lost, PathsKept, FilesSame, OtherListingsSame;
    hide StartOk, FreeSet, InTree;
    MkdirFailed(v0, v2, v3, g, root, size, d, c, name, a, base, data, o, ch);
    LostWhenNotMade(v0, v2, v3, g, root, size, d, c, a == Err(OutOfBounds), base, data, ch);
  }

  // ---- when there is room for a directory -------------------------------------------------

  /** The entry of a new directory fits its parent, with one more cluster at most. */
  ghost predicate GroupFits(v: Vol, d: nat, name: string, size: nat) {
    HasRoom(SlotsOf(ReadFrom(v, d) + Zeros(size)), SlotsNeeded(name))
  }

  /**
    There is a cluster for the directory, its entry fits its parent, and if the parent has to grow
    for that there is a second free cluster.
   */
  ghost predicate MkdirFits(v: Vol, d: nat, name: string, size: nat) {
    && FreeSet(v.fat) != {} && GroupFits(v, d, name, size)
    && (HasRoom(SlotsOf(ReadFrom(v, d)), SlotsNeeded(name)) || |FreeSet(v.fat)| >= 2)
  }

  lemma OneTaken(free: set<nat>, c: nat)
    requires c in free
    ensures free - {c} == {} <==> |free| < 2
  {
    assert free == free - {c} + {c};
  }

  // ---- glue for the operations ------------------------------------------------------------

  /** There is room for `data`: the clusters of the old chain and the free ones suffice. */
  ghost predicate Fits(v: Vol, oldCluster: nat, data: seq<byte>, size: nat) {
    data == [] || (size > 0 && CeilDiv(|data|, size) <= |OldChain(v.fat, oldCluster)| + |FreeSet(v.fat)|)
  }

  lemma FitsEmpty(v: Vol, oldCluster: nat, size: nat)
    ensures Fits(v, oldCluster, [], size)
  {
  }

  lemma SyncedPath(v: Vol, v': Vol, root: nat, d: nat, e: FatDirEntry, e': FatDirEntry, data: seq<byte>, parts: seq<string>)
    requires Synced(v, v', root, d, e, e', data) && parts != [] && Resolve(v, root, parts) == Ok((d, e))
    ensures Resolve(v', root, parts) == Ok((d, e')) && e'.IsDirectory() == e.IsDirectory()
  {
    hide Resolve;
  }

  /** A removable object's chain can be freed, and its entry lies inside its directory. */
  lemma RemoveReady(v: Vol, g: Objs, root: nat, size: nat, d: nat, j: nat)
    requires WF(v, g, root, size, None) && Removable(v, g, d, j)
    ensures var c := DirListing(v, d)[j].Cluster();
      c >= 2 ==> LinkOk(v.fat, c) && forall l :: l in ChainOf(v.fat, c) && l < |v.fat| ==> LinkOk(v.fat, v.fat[l])
    ensures DirListing(v, d)[j].entryOffset % ENTRY_SIZE == 0
  {
    RemovableObject(v, g, root, size, d, j);
    hide WF, ReadFrom, DirListing;
    EntryInside(v, g, root, size, None, d, j);
    var c := DirListing(v, d)[j].Cluster();
    if c >= 2 {
      ChainLinksOk(v, g, root, size, None, c);
    }
  }

  lemma HalfRemovedDir(v0: Vol, v1: Vol, g: Objs, g1: Objs, root: nat, size: nat, hole: Hole, d: nat, j: nat)
    requires HalfRemoved(v0, v1, g, g1, root, size, hole, d, j)
    ensures d >= 2 && StartOk(v1.fat, d) && |ReadFrom(v1, d)| % ENTRY_SIZE == 0
  {
    DirShaped(v1, g1, root, size, hole, d);
  }

  lemma SameVolumeFrames(v: Vol, root: nat)
    ensures PathsKept(v, v, root) && FilesSame(v, v, root) && OtherListingsSame(v, v, root, {})
  {
  }

  lemma ObjSmall(v: Vol, g: Objs, root: nat, size: nat, k: nat)
    requires WF(v, g, root, size, None) && k in g
    ensures 2 <= k < SIZE_LIMIT
  {
    ObjRead(v, g, root, size, None, k);
  }

  /** Taking and filling a cluster that nothing refers to changes nothing for anyone. */
  lemma NewDirUnseen(v0: Vol, v2: Vol, g: Objs, root: nat, size: nat, d: nat, c: nat)
    requires WF(v0, g, root, size, None) && VolOk(v2, size) && IsDir(g, d)
    requires |v2.fat| == |v0.fat| && InRange(v0.fat, c) && v0.fat[c] == FREE
    requires forall l :: 0 <= l < |v0.fat| && l != c ==> v2.fat[l] == v0.fat[l] && v2.data[l] == v0.data[l]
    ensures WF(v2, g, root, size, None) && ReadFrom(v2, d) == ReadFrom(v0, d)
    ensures d >= 2 && StartOk(v2.fat, d) && |ReadFrom(v2, d)| % ENTRY_SIZE == 0
    ensures forall l :: l in g ==> ReadFrom(v2, l) == ReadFrom(v0, l)
    ensures PathsKept(v0, v2, root) && FilesSame(v0, v2, root) && OtherListingsSame(v0, v2, root, {})
  {
    FreeClusterUsed(v0, v2, g, root, size, None, c);
    DirShaped(v2, g, root, size, None, d);
    hide WF, VolOk;
    AllSameFrames(v0, v2, g, root, size);
  }

  /** When every directory lists and every file reads the same, nothing has changed for anyone. */
  lemma AllSameFrames(v0: Vol, v: Vol, g: Objs, root: nat, size: nat)
    requires WF(v0, g, root, size, None)
    requires forall k :: IsDir(g, k) ==> DirListing(v, k) == DirListing(v0, k)
    requires forall l :: l in g && !g[l].dir ==> ReadFrom(v, l) == ReadFrom(v0, l)
    ensures PathsKept(v0, v, root) && FilesSame(v0, v, root) && OtherListingsSame(v0, v, root, {})
  {
    RootIsDir(v0, g, root, size);
    hide WF, DirListing, Resolve, ReadFrom, OtherListingsSame;
    ListingsKept(v0, v, g, root, size, {});
    forall parts: seq<string> | parts != [] && Resolve(v0, root, parts).Ok?
      ensures Resolve(v, root, parts) == Resolve(v0, root, parts)
      ensures !Resolve(v0, root, parts).value.1.IsDirectory() ==>
        FileData(v, Resolve(v0, root, parts).value.1) == FileData(v0, Resolve(v0, root, parts).value.1)
    {
      ResolveAllSame(v0, v, g, root, size, root, parts);
      Resolved(v0, g, root, size, root, parts);
    }
  }

  lemma {:induction false} ResolveAllSame(v0: Vol, v: Vol, g: Objs, root: nat, size: nat, dir: nat, parts: seq<string>)
    requires WF(v0, g, root, size, None) && IsDir(g, dir) && parts != []
    requires forall k :: IsDir(g, k) ==> DirListing(v, k) == DirListing(v0, k)
    ensures Resolve(v, dir, parts) == Resolve(v0, dir, parts)
    decreases |parts|
  {
    hide DirListing, WF, RefOk, FatDirEntry.Cluster, FatDirEntry.IsDirectory, Resolve;
    ResolveStep(v0, dir, parts);
    ResolveStep(v, dir, parts);
    var entries := DirListing(v0, dir);
    var i := FindIndex(entries, parts[0]);
    if i < |entries| {
      DirKnown(v0, g, root, size, dir, i);
      if |parts| > 1 && entries[i].IsDirectory() {
        ResolveAllSame(v0, v, g, root, size, entries[i].Cluster(), parts[1..]);
      }
    }
  }

  /** When `add_dir_entry` failed the new cluster is lost, but the volume is well-formed and looks the same. */
  lemma MkdirFailed(v0: Vol, v2: Vol, v3: Vol, g: Objs, root: nat, size: nat, d: nat, c: nat, name: string,
                    a: Result<(), FatError>, base: seq<byte>, data: seq<byte>, o: nat, ch: seq<nat>)
    requires WF(v0, g, root, size, None) && WF(v2, g, root, size, None) && VolOk(v3, size) && IsDir(g, d)
    requires forall l :: l in g ==> ReadFrom(v2, l) == ReadFrom(v0, l)
    requires c < SIZE_LIMIT && NewEntryFor(name, NewShort(name, ATTR_DIRECTORY, c, 0))
    requires a == Err(OutOfBounds) ==> v3 == v2
    requires a != Err(OutOfBounds) ==>
      && IsBase(base, ReadFrom(v2, d), size) && AddedTo(base, data, o, name, NewShort(name, ATTR_DIRECTORY, c, 0))
      && GrownRun(ReadFrom(v2, d), base, o * ENTRY_SIZE, SlotsNeeded(name))
      && Grew(v2, v3, ChainOf(v2.fat, d), ch, data, size)
    ensures WF(v3, g, root, size, None) && PathsKept(v0, v3, root) && FilesSame(v0, v3, root)
    ensures OtherListingsSame(v0, v3, root, {}) && (InTree(v0, g, root) ==> InTree(v3, g, root))
  {
    hide InTree;
    hide WF, VolOk, ReadFrom, AddedTo, GrownRun, Grew, NewEntryFor, IsBase, SlotsOf, Listing, OtherListingsSame;
    if a != Err(OutOfBounds) {
      EntryCutOff(v2, v3, g, root, size, d, base, data, name, NewShort(name, ATTR_DIRECTORY, c, 0), o, ch);
    }
    forall k | IsDir(g, k) ensures DirListing(v3, k) == DirListing(v0, k) {
      ListingSame(v0, v2, k);
    }
    if InTree(v0, g, root) { TreeSame(v0, v3, g, g, root); }
    AllSameFrames(v0, v3, g, root, size);
  }

  /** In a tidy directory the new entry is listed under its stored name. */
  lemma MadeEntryName(v0: Vol, v2: Vol, g: Objs, root: nat, size: nat, d: nat, base: seq<byte>, data: seq<byte>,
                      name: string, c: u32, o: nat)
    requires WF(v0, g, root, size, None) && IsDir(g, d) && ReadFrom(v2, d) == ReadFrom(v0, d)
    requires IsBase(base, ReadFrom(v2, d), size) && NewEntryFor(name, NewShort(name, ATTR_DIRECTORY, c, 0))
    requires AddedTo(base, data, o, name, NewShort(name, ATTR_DIRECTORY, c, 0))
    ensures DirsTidy(v0, g) ==> MadeEntry(base, name, c, o).name == StoredName(name)
  {
    if DirsTidy(v0, g) {
      DirShaped(v0, g, root, size, None, d);
      BaseShaped(base, ReadFrom(v0, d), size);
      assert Tidy(SlotsOf(ReadFrom(v0, d)));
      hide WF, ReadFrom, SlotsOf, Tidy, NewEntryFor, Before, FreeRun, Placed;
      AddedEntryIs(SlotsOf(base), o, name, NewShort(name, ATTR_DIRECTORY, c, 0));
    }
  }

  /** The path of a directory just made leads to it. */
  lemma MadePathFound(v: Vol, v': Vol, root: nat, d: nat, j: nat, n: FatDirEntry, name: string, parts: seq<string>)
    requires Made(v, v', root, d, j, n) && IsParent(v, root, parts, d) && parts[|parts| - 1] == name
    requires Lookup(v, d, name) == None && Lower(n.name) == Lower(name)
    ensures Resolve(v', root, parts) == Ok((d, n)) && PathsKept(v, v', root)
  {
    hide DirListing, Resolve, FilesSame, OtherListingsSame, Inserted, Lower;
    SameCase(DirListing(v, d), name, n.name);
    SameCase(DirListing(v', d), name, n.name);
    assert PathsKept(v, v', root);
    assert IsParent(v', root, parts, d);
    ParentResolves(v', root, parts, d);
    ResolveOne(v', d, name);
  }

  /**
    The paths that led somewhere lead there still exactly when the new entry hides none: the one
    it hides, found under the same name before, is not found on any path of this directory again.
   */
  lemma PathsKeptExactly(v: Vol, v': Vol, root: nat, d: nat, j: nat, n: FatDirEntry, parts: seq<string>)
    requires Made(v, v', root, d, j, n) && IsParent(v, root, parts, d)
    ensures PathsKept(v, v', root) <==> !Hidden(DirListing(v, d), j, n.name)
  {
    hide DirListing, Resolve, FilesSame, OtherListingsSame, Inserted, Lower, FatDirEntry.Cluster, FatDirEntry.IsDirectory;
    if PathsKept(v, v', root) && Hidden(DirListing(v, d), j, n.name) {
      var path := parts[..|parts| - 1] + [n.name];
      assert path[..|path| - 1] == parts[..|parts| - 1];
      assert IsParent(v', root, path, d);
      ParentResolves(v, root, path, d);
      ParentResolves(v', root, path, d);
      ResolveOne(v, d, n.name);
      ResolveOne(v', d, n.name);
      assert false;
    }
  }

  // ---- no cluster belongs to two ----------------------------------------------------------

  /** The chain from `c`: EOC-ended, with no cluster twice and no FREE cell. */
  ghost predicate OwnChain(v: Vol, c: nat) {
    && IsChain(v.fat, ChainOf(v.fat, c)) && ChainOf(v.fat, c)[0] == c
    && Distinct(ChainOf(v.fat, c))
    && (forall x :: x in ChainOf(v.fat, c) ==> x < |v.fat| && v.fat[x] != FREE)
  }

  /**
    The root, and all that a path leads to and that has clusters, have chains of their own, and
    no two of them share a cluster.
   */
  ghost predicate NoSharedClusters(v: Vol, root: nat) {
    && OwnChain(v, root)
    && (forall p: seq<string> :: p != [] && Resolve(v, root, p).Ok? && Resolve(v, root, p).value.1.Cluster() >= 2 ==>
          OwnChain(v, Resolve(v, root, p).value.1.Cluster())
          && Apart(ChainOf(v.fat, root), ChainOf(v.fat, Resolve(v, root, p).value.1.Cluster())))
    && (forall p: seq<string>, q: seq<string> ::
          p != [] && q != [] && Resolve(v, root, p).Ok? && Resolve(v, root, q).Ok? && Resolve(v, root, p) != Resolve(v, root, q)
            && Resolve(v, root, p).value.1.Cluster() >= 2 && Resolve(v, root, q).value.1.Cluster() >= 2
          ==> Apart(ChainOf(v.fat, Resolve(v, root, p).value.1.Cluster()), ChainOf(v.fat, Resolve(v, root, q).value.1.Cluster())))
  }

  lemma ObjectOwnChain(v: Vol, g: Objs, root: nat, size: nat, k: nat)
    requires WF(v, g, root, size, None) && k in g
    ensures OwnChain(v, k)
  {
    ObjRead(v, g, root, size, None, k);
    assert ObjOk(v, k, g[k]);
    ChainDistinct(v.fat, g[k].chain);
    forall c | c in g[k].chain ensures c < |v.fat| && v.fat[c] != FREE {
      ChainNotFree(v.fat, g[k].chain, c);
    }
  }

  lemma ObjectsApart(v: Vol, g: Objs, root: nat, size: nat, k: nat, l: nat)
    requires WF(v, g, root, size, None) && k in g && l in g && k != l
    ensures Apart(ChainOf(v.fat, k), ChainOf(v.fat, l))
  {
    ObjRead(v, g, root, size, None, k);
    ObjRead(v, g, root, size, None, l);
  }

  /** What a path leads to is an object, and not the root. */
  lemma PathObject(v: Vol, g: Objs, root: nat, size: nat, p: seq<string>)
    requires WF(v, g, root, size, None) && p != [] && Resolve(v, root, p).Ok? && Resolve(v, root, p).value.1.Cluster() >= 2
    ensures var c := Resolve(v, root, p).value.1.Cluster(); c in g && c != root
  {
    RootIsDir(v, g, root, size);
    hide Resolve, DirListing;
    Resolved(v, g, root, size, root, p);
  }

  /** On a well-formed volume no cluster is reached along two paths. */
  lemma WellFormedNotShared(v: Vol, g: Objs, root: nat, size: nat)
    requires WF(v, g, root, size, None)
    ensures NoSharedClusters(v, root)
  {
    RootIsDir(v, g, root, size);
    hide WF, DirListing, Resolve, OwnChain, Apart, FatDirEntry.Cluster, FatDirEntry.IsDirectory, RefOk;
    ObjectOwnChain(v, g, root, size, root);
    forall p: seq<string> | p != [] && Resolve(v, root, p).Ok? && Resolve(v, root, p).value.1.Cluster() >= 2
      ensures OwnChain(v, Resolve(v, root, p).value.1.Cluster())
      ensures Apart(ChainOf(v.fat, root), ChainOf(v.fat, Resolve(v, root, p).value.1.Cluster()))
    {
      PathObject(v, g, root, size, p);
      ObjectOwnChain(v, g, root, size, Resolve(v, root, p).value.1.Cluster());
      ObjectsApart(v, g, root, size, root, Resolve(v, root, p).value.1.Cluster());
    }
    forall p: seq<string>, q: seq<string> |
      p != [] && q != [] && Resolve(v, root, p).Ok? && Resolve(v, root, q).Ok? && Resolve(v, root, p) != Resolve(v, root, q)
        && Resolve(v, root, p).value.1.Cluster() >= 2 && Resolve(v, root, q).value.1.Cluster() >= 2
      ensures Apart(ChainOf(v.fat, Resolve(v, root, p).value.1.Cluster()), ChainOf(v.fat, Resolve(v, root, q).value.1.Cluster()))
    {
      PathsApart(v, g, root, size, p, q);
    }
  }

  lemma PathsApart(v: Vol, g: Objs, root: nat, size: nat, p: seq<string>, q: seq<string>)
    requires WF(v, g, root, size, None) && p != [] && q != []
    requires Resolve(v, root, p).Ok? && Resolve(v, root, q).Ok? && Resolve(v, root, p) != Resolve(v, root, q)
    requires Resolve(v, root, p).value.1.Cluster() >= 2 && Resolve(v, root, q).value.1.Cluster() >= 2
    ensures Apart(ChainOf(v.fat, Resolve(v, root, p).value.1.Cluster()), ChainOf(v.fat, Resolve(v, root, q).value.1.Cluster()))
  {
    RootIsDir(v, g, root, size);
    hide WF, DirListing, Resolve, Apart, FatDirEntry.Cluster, FatDirEntry.IsDirectory;
    var (d, e) := Resolve(v, root, p).value;
    var (d2, e2) := Resolve(v, root, q).value;
    Resolved(v, g, root, size, root, p);
    Resolved(v, g, root, size, root, q);
    var j := FindIndex(DirListing(v, d), p[|p| - 1]);
    var i := FindIndex(DirListing(v, d2), q[|q| - 1]);
    OtherFileCluster(v, g, root, size, d, j, d2, i);
    ObjectsApart(v, g, root, size, e.Cluster(), e2.Cluster());
  }

  // ---- a first well-formed volume ---------------------------------------------------------

  lemma OneChain(v: Vol, root: nat, size: nat)
    requires VolOk(v, size) && InRange(v.fat, root) && v.fat[root] >= EOC
    ensures IsChain(v.fat, [root]) && ChainBytes(v, [root]) == v.data[root]
  {
    ChainBytesEmpty(v);
    ChainBytesSnoc(v, [], root);
    assert [] + [root] == [root];
    assert ChainBytes(v, []) + v.data[root] == v.data[root];
  }

  lemma ScanNothing(slots: seq<Slot>)
    ensures Before(slots, 0).entries == [] && Before(slots, 0).parts == []
  {
    assert slots[..0] == [];
  }

  lemma ZerosListNothing(size: nat)
    requires size % ENTRY_SIZE == 0
    ensures Listing(SlotsOf(Zeros(size))) == [] && Tidy(SlotsOf(Zeros(size)))
  {
    hide Scan, Before, SlotsOf, ParseLfn, IsListed;
    var slots := SlotsOf(Zeros(size));
    SlotCount(Zeros(size));
    forall i: nat | i < |slots| ensures slots[i][0] == 0x00 {
      SlotAt(Zeros(size), i);
    }
    ScanNothing(slots);
    BeforeAll(slots);
    forall i: nat | i <= |slots| ensures Before(slots, i).entries == [] && Before(slots, i).parts == [] {
      NothingAfter(slots, 0, i);
    }
  }

  /** A volume whose root directory is one cluster of zeros is well-formed, with nothing in it. */
  lemma EmptyVolumeWellFormed(v: Vol, root: nat, size: nat)
    requires VolOk(v, size) && size % ENTRY_SIZE == 0
    requires InRange(v.fat, root) && v.fat[root] >= EOC && v.data[root] == Zeros(size)
    ensures var g: Objs := map[root := Obj([root], true, 0, 0)]; WF(v, g, root, size, None) && InTree(v, g, root) && DirsTidy(v, g)
    ensures DirListing(v, root) == []
  {
    hide Scan, Before, SlotsOf, ChainOf, Walk, IsChain, ChainBytes, Shaped;
    OneChain(v, root, size);
    ZerosListNothing(size);
    ChainIsWalked(v.fat, [root]);
  }
}
