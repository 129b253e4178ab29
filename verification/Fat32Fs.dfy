/** The file system that the kernel mounts: operations on paths, and handles to open files. */
module Fat32FileSystem {
  import opened Bytes
  import opened Outcome
  import opened FatVolume
  import opened FatLayout
  import opened ShortNames
  import opened DirEntries
  import opened DirScan
  import opened DirEdit
  import opened DirAdd
  import opened DirBytes
  import opened Paths
  import opened FatObjects
  import opened FatLosses
  import opened FatPaths
  import opened FatOps
  import opened FatTree
  import opened FatTheorems
  import opened Fat32Driver

  class Fat32Fs {
    const inner: Fat32Inner
    /** The files and directories of the volume, by first cluster. */
    ghost var objs: Objs

    constructor (inner: Fat32Inner, ghost objs: Objs)
      requires inner.WellFormed(objs) && InTree(inner.Volume(), objs, inner.bpb.rootCluster)
      ensures this.inner == inner && this.objs == objs && Valid()
    {
      this.inner := inner;
      this.objs := objs;
    }

    ghost predicate Valid()
      reads this, inner
    {
      inner.WellFormed(objs) && InTree(inner.Volume(), objs, inner.bpb.rootCluster)
    }

    ghost function Volume(): Vol
      reads this, inner
      requires Valid()
    {
      inner.Volume()
    }

    ghost function Root(): nat { inner.bpb.rootCluster }

    /** What `path` leads to. */
    ghost function At(path: string): Result<(nat, FatDirEntry), FatError>
      reads this, inner
      requires Valid()
    {
      if Components(path) == [] then Err(InvalidPath) else Resolve(Volume(), Root(), Components(path))
    }

    /** Every directory's long names are complete: no operation was cut short in it. */
    ghost predicate IsTidy()
      reads this, inner
      requires Valid()
    {
      DirsTidy(Volume(), objs)
    }

    /** The clusters in use that no walk along directory entries gets to: those that no object has. */
    ghost function LostClusters(): (lost: set<nat>)
      reads this, inner
      requires Valid()
      ensures lost == Unreached(Volume(), Root())
    {
      LostIsUnreached(Volume(), objs, Root(), inner.Size());
      Lost(Volume(), objs)
    }

    // ---- writing a file back --------------------------------------------------------------

    /** Frees the chain that starts at `cluster`, if there is one. */
    method FreeIfAny(cluster: nat)
      requires inner.Valid()
      requires cluster >= 2 ==> LinkOk(inner.Volume().fat, cluster)
      requires cluster >= 2 ==> forall c :: c in ChainOf(inner.Volume().fat, cluster) && c < |inner.Volume().fat| ==>
        LinkOk(inner.Volume().fat, inner.Volume().fat[c])
      modifies inner`disk
      ensures inner.Valid()
      ensures if cluster >= 2 then Freed(old(inner.Volume()), inner.Volume(), cluster) else inner.Volume() == old(inner.Volume())
    {
      if cluster >= 2 {
        inner.FreeChain(cluster);
      }
    }

    /** Rewrites the short entry of `e` in directory `d` with that of `e'`. */
    method RewriteEntry(d: nat, e: FatDirEntry, e': FatDirEntry) returns (ghost bytes: seq<byte>, ghost ch: seq<nat>)
      requires inner.Valid() && d >= 2 && StartOk(inner.Volume().fat, d)
      requires SameEntryBut(e, e') && e.entryCount > 0
      requires e.entryOffset + e.entryCount * ENTRY_SIZE <= |ReadFrom(inner.Volume(), d)|
      modifies inner`disk
      ensures inner.Valid()
      ensures EntryRewritten(old(inner.Volume()), inner.Volume(), d, e, e'.short, bytes, ch, inner.Size())
    {
      hide View, DiskOk, Mirrored, OutsideKept, ReadFrom, Wrote, StartOk, ShortDirEntry.Serialize;
      var r;
      r, bytes, ch := inner.UpdateDirEntry(d, e');
    }

    /** The branch of `sync_file` for a file that is now empty. */
    method EmptyFile(parent: nat, entry: FatDirEntry, oldCluster: nat, ghost j: nat)
      requires Valid() && FileAt(Volume(), objs, parent, j, oldCluster) && entry == DirListing(Volume(), parent)[j]
      modifies this`objs, inner`disk
      ensures Valid()
      ensures Synced(old(Volume()), Volume(), Root(), parent, entry, SyncedEntry(entry, 0, 0), [])
      ensures old(IsTidy()) ==> IsTidy()
      ensures LostClusters() == old(LostClusters())
    {
      hide Lost;
      hide InTree, Unreached, View, DiskOk, Mirrored, OutsideKept, WF, VolOk, ReadFrom, DirListing;
      hide Synced, Freed, EntryRewritten, DirsTidy, StartOk, HalfSynced, SameEntryBut;
      ghost var v0, g, root, size := Volume(), objs, Root(), inner.Size();
      ghost var hole: Hole := if oldCluster >= 2 then Some((parent, entry.ShortSlot())) else None;
      EmptyFileReady(v0, g, root, size, parent, j, oldCluster);
      FreeIfAny(oldCluster);
      ghost var v1 := inner.Volume();
      ViewOk(inner.bpb, inner.disk);
      HalfSyncedFreed(v0, v1, g, root, size, parent, j, oldCluster);
      HalfSyncedDir(v0, v1, g, g - {oldCluster}, root, size, hole, parent, j, SyncedEntry(entry, 0, 0));
      SyncedEntryPlain(entry, 0, 0);
      ghost var bytes, ch := RewriteEntry(parent, entry, SyncedEntry(entry, 0, 0));
      ViewOk(inner.bpb, inner.disk);
      SyncEmpty(v0, v1, inner.Volume(), g, root, size, parent, j, oldCluster, bytes, ch, SyncedEntry(entry, 0, 0));
      LostWhenEmptied(v0, v1, inner.Volume(), g, root, size, parent, j, oldCluster, bytes, ch, SyncedEntry(entry, 0, 0));
      objs := g - {oldCluster};
    }

    /** The branch of `sync_file` for a file of at least one byte. */
    method FillFile(parent: nat, entry: FatDirEntry, oldCluster: nat, data: seq<byte>, ghost j: nat)
      returns (r: Result<(), VfsError>, ghost e': FatDirEntry)
      requires Valid() && FileAt(Volume(), objs, parent, j, oldCluster) && entry == DirListing(Volume(), parent)[j]
      requires data != []
      modifies this`objs, inner`disk
      ensures Valid()
      ensures r.Ok? ==> Synced(old(Volume()), Volume(), Root(), parent, entry, e', data)
      ensures r.Ok? && old(IsTidy()) ==> IsTidy()
      ensures r.Err? ==> r.error == IoError
      ensures r.Err? ==> PathsKept(old(Volume()), Volume(), Root()) && OtherFilesSame(old(Volume()), Volume(), Root(), parent, entry)
      ensures r.Err? ==> OtherListingsSame(old(Volume()), Volume(), Root(), {}) && FreeSet(Volume().fat) == {}
      ensures r.Ok? <==> Fits(old(Volume()), oldCluster, data, inner.Size())
      ensures r.Ok? ==> LostClusters() == old(LostClusters()) + TailLost(old(Volume()), oldCluster, data, inner.Size())
      ensures r.Err? ==> LostClusters() == old(LostClusters()) + if oldCluster < 2 then FreeSet(old(Volume()).fat) else {}
      ensures r.Err? ==> FileData(Volume(), entry) == CutOffData(old(Volume()), entry, data, inner.Size())
    {
      hide Lost, TailLost, OtherListingsSame, FileData, CutOffData;
      hide InTree, Unreached, View, DiskOk, Mirrored, OutsideKept, WF, VolOk, ReadFrom, DirListing, Synced, Wrote, Grew;
      hide EntryRewritten, DirsTidy, StartOk, HalfSynced, SameEntryBut, PathsKept, OtherFilesSame, OldChain, FreeSet, CeilDiv;
      ghost var v0, g, root, size := Volume(), objs, Root(), inner.Size();
      HandleChain(v0, g, root, size, parent, j, oldCluster);
      EntryInside(v0, g, root, size, None, parent, j);
      e' := entry;
      var w;
      ghost var ch;
      w, ch := inner.WriteChain(oldCluster, data);
      ghost var v1 := inner.Volume();
      ViewOk(inner.bpb, inner.disk);
      if w.Err? {
        objs := FillFailed(v0, v1, g, root, size, parent, j, oldCluster, data, ch);
        return Err(IoError), e';
      }
      HalfSyncedWritten(v0, v1, g, root, size, parent, j, oldCluster, data, ch);
      var updated := SyncedEntry(entry, w.value, |data|);
      ghost var g1 := g[ch[0] := FileObj(v0, parent, j, ch)];
      HalfSyncedDir(v0, v1, g, g1, root, size, None, parent, j, updated);
      SyncedEntryPlain(entry, w.value, |data|);
      ghost var bytes, dch := RewriteEntry(parent, entry, updated);
      ViewOk(inner.bpb, inner.disk);
      FillDone(v0, v1, inner.Volume(), g, root, size, parent, j, oldCluster, data, ch, bytes, dch, updated);
      objs := g1;
      return Ok(()), updated;
    }

    /**
      Writes `data` back to the file that `path` leads to, whose clusters start at `oldCluster`:
      `e'` is its new entry. Without room for it, no other file and no path is affected.
     */
    method SyncFile(path: string, oldCluster: nat, data: seq<byte>) returns (r: Result<(), VfsError>, ghost e': Option<FatDirEntry>)
      requires Valid() && HandleCurrent(At(path), oldCluster)
      modifies this`objs, inner`disk
      ensures Valid() && OutsideKept(inner.bpb, old(inner.disk), inner.disk)
      ensures old(At(path)).Err? ==> r.Err? && Volume() == old(Volume())
      ensures r == Err(InvalidPathError) <==> forall p :: !IsParent(old(Volume()), Root(), Components(path), p)
      ensures r == Err(NotFound) <==> old(At(path)).Err? && exists p :: IsParent(old(Volume()), Root(), Components(path), p)
      ensures old(At(path)).Ok? ==> (r.Ok? <==> Fits(old(Volume()), oldCluster, data, inner.Size()))
      ensures r.Ok? ==> old(At(path)).Ok? && e'.Some? && At(path) == Ok((old(At(path)).value.0, e'.value))
      ensures r.Ok? ==>
        Synced(old(Volume()), Volume(), Root(), old(At(path)).value.0, old(At(path)).value.1, e'.value, data)
      ensures r.Ok? && old(IsTidy()) ==> IsTidy()
      ensures r.Err? && old(At(path)).Ok? ==> PathsKept(old(Volume()), Volume(), Root())
      ensures r.Err? && old(At(path)).Ok? ==>
        OtherFilesSame(old(Volume()), Volume(), Root(), old(At(path)).value.0, old(At(path)).value.1)
      ensures r.Err? && old(At(path)).Ok? ==>
        OtherListingsSame(old(Volume()), Volume(), Root(), {}) && FreeSet(Volume().fat) == {}
      ensures r.Ok? ==> LostClusters() == old(LostClusters()) + TailLost(old(Volume()), oldCluster, data, inner.Size())
      ensures r.Err? && old(At(path)).Ok? ==>
        LostClusters() == old(LostClusters()) + if oldCluster < 2 then FreeSet(old(Volume()).fat) else {}
      ensures r.Err? && old(At(path)).Ok? ==>
        FileData(Volume(), old(At(path)).value.1) == CutOffData(old(Volume()), old(At(path)).value.1, data, inner.Size())
    {
      hide FileData, CutOffData;
      hide InTree, Unreached, View, DiskOk, Mirrored, OutsideKept, WF, VolOk, ReadFrom, DirListing, Synced, DirsTidy;
      hide PathsKept, OtherFilesSame, Resolve, Components, Fits;
      hide Lost, CutTail, Elems, OtherListingsSame, OldChain, CeilDiv, FreeSet;
      OutsideKeptAlways(inner.bpb, inner.mounted, inner.disk);
      ghost var v0 := Volume();
      e' := None;
      var s := inner.SplitPath(path, objs);
      if s.Err? {
        return Err(InvalidPathError), e';
      }
      var (parentCluster, name) := s.value;
      ParentResolves(v0, Root(), Components(path), parentCluster);
      ResolveOne(v0, parentCluster, name);
      ObjReadable(v0, objs, Root(), inner.Size(), parentCluster);
      var entry := inner.FindInDirectory(parentCluster, name);
      if entry.None? {
        return Err(NotFound), e';
      }
      ghost var j := FindIndex(DirListing(v0, parentCluster), name);
      if data == [] {
        FitsEmpty(v0, oldCluster, inner.Size());
        EmptyFile(parentCluster, entry.value, oldCluster, j);
        e' := Some(SyncedEntry(entry.value, 0, 0));
        r := Ok(());
      } else {
        ghost var written;
        r, written := FillFile(parentCluster, entry.value, oldCluster, data, j);
        e' := Some(written);
      }
      if r.Ok? {
        SyncedPath(v0, Volume(), Root(), parentCluster, entry.value, e'.value, data, Components(path));
      }
    }

    /** The handle's cluster is where the file's clusters start now, and the path leads to a file. */
    static ghost predicate HandleCurrent(at: Result<(nat, FatDirEntry), FatError>, oldCluster: nat) {
      at.Ok? ==>
        && !at.value.1.IsDirectory()
        && (oldCluster == at.value.1.Cluster() || (oldCluster < 2 && at.value.1.Cluster() < 2))
    }

    // ---- removing -------------------------------------------------------------------------

    /** Deletes entry `e` of directory `d`. */
    method EraseEntry(d: nat, e: FatDirEntry) returns (ghost data: seq<byte>, ghost ch: seq<nat>)
      requires inner.Valid() && d >= 2 && StartOk(inner.Volume().fat, d)
      requires e.entryOffset % ENTRY_SIZE == 0 && |ReadFrom(inner.Volume(), d)| % ENTRY_SIZE == 0
      modifies inner`disk
      ensures inner.Valid()
      ensures EntryErased(old(inner.Volume()), inner.Volume(), d, e, data, ch, inner.Size())
    {
      hide View, DiskOk, Mirrored, OutsideKept, ReadFrom, Wrote, StartOk, SlotsOf, Marked;
      var r;
      r, data, ch := inner.RemoveDirEntry(d, e);
    }

    /** Frees the clusters of a file or empty directory, then deletes its entry. */
    method RemoveObject(parent: nat, entry: FatDirEntry, ghost j: nat)
      requires Valid() && Removable(Volume(), objs, parent, j) && entry == DirListing(Volume(), parent)[j]
      modifies this`objs, inner`disk
      ensures Valid() && Removed(old(Volume()), Volume(), Root(), parent, j)
      ensures old(IsTidy()) ==> IsTidy()
      ensures LostClusters() == old(LostClusters())
    {
      hide Lost;
      hide InTree, Unreached, View, DiskOk, Mirrored, OutsideKept, WF, VolOk, ReadFrom, DirListing, Removed, Freed;
      hide EntryErased, DirsTidy, StartOk, HalfRemoved, Removable;
      ghost var v0, g, root, size := Volume(), objs, Root(), inner.Size();
      ghost var c: nat := entry.Cluster();
      ghost var hole: Hole := if c >= 2 then Some((parent, entry.ShortSlot())) else None;
      RemoveReady(v0, g, root, size, parent, j);
      FreeIfAny(entry.Cluster());
      ghost var v1 := inner.Volume();
      ViewOk(inner.bpb, inner.disk);
      HalfRemovedFreed(v0, v1, g, root, size, parent, j);
      HalfRemovedDir(v0, v1, g, g - {c}, root, size, hole, parent, j);
      ghost var data, ch := EraseEntry(parent, entry);
      ViewOk(inner.bpb, inner.disk);
      RemoveDone(v0, v1, inner.Volume(), g, root, size, parent, j, data, ch);
      LostWhenRemoved(v0, v1, inner.Volume(), g, root, size, parent, j, data, ch);
      objs := g - {c};
    }

    /** Removes the file that `path` leads to. */
    method Remove(path: string) returns (r: Result<(), VfsError>, ghost j: nat)
      requires Valid()
      modifies this`objs, inner`disk
      ensures Valid() && OutsideKept(inner.bpb, old(inner.disk), inner.disk)
      ensures r.Ok? <==> old(At(path)).Ok? && !old(At(path)).value.1.IsDirectory()
      ensures r.Err? ==> Volume() == old(Volume()) && objs == old(objs)
      ensures old(At(path)).Ok? && r.Err? ==> r.error == IsADirectory
      ensures r == Err(InvalidPathError) <==> forall p :: !IsParent(old(Volume()), Root(), Components(path), p)
      ensures r == Err(NotFound) <==> old(At(path)).Err? && exists p :: IsParent(old(Volume()), Root(), Components(path), p)
      ensures r.Ok? ==> Removed(old(Volume()), Volume(), Root(), old(At(path)).value.0, j)
      ensures r.Ok? ==> DirListing(old(Volume()), old(At(path)).value.0)[j] == old(At(path)).value.1
      ensures r.Ok? && old(IsTidy()) ==> IsTidy()
      ensures LostClusters() == old(LostClusters())
    {
      hide Lost, Removed;
      hide InTree, Unreached, View, DiskOk, Mirrored, OutsideKept, WF, VolOk, ReadFrom, DirListing, DirsTidy, Resolve;
      hide Components, FatDirEntry.IsDirectory;
      OutsideKeptAlways(inner.bpb, inner.mounted, inner.disk);
      ghost var v0 := Volume();
      j := 0;
      var s := inner.SplitPath(path, objs);
      if s.Err? {
        return Err(InvalidPathError), j;
      }
      var (parentCluster, name) := s.value;
      ParentResolves(v0, Root(), Components(path), parentCluster);
      ResolveOne(v0, parentCluster, name);
      ObjReadable(v0, objs, Root(), inner.Size(), parentCluster);
      var entry := inner.FindInDirectory(parentCluster, name);
      if entry.None? {
        return Err(NotFound), j;
      }
      if entry.value.IsDirectory() {
        return Err(IsADirectory), j;
      }
      j := FindIndex(DirListing(v0, parentCluster), name);
      RemoveObject(parentCluster, entry.value, j);
      r := Ok(());
    }

    /** Removes the directory that `path` leads to, if it is empty. */
    method Rmdir(path: string) returns (r: Result<(), VfsError>, ghost j: nat)
      requires Valid()
      modifies this`objs, inner`disk
      ensures Valid() && OutsideKept(inner.bpb, old(inner.disk), inner.disk)
      ensures r.Ok? <==> (old(At(path)).Ok? && old(At(path)).value.1.IsDirectory()
        && DirListing(old(Volume()), old(At(path)).value.1.Cluster()) == [])
      ensures r.Err? ==> Volume() == old(Volume()) && objs == old(objs)
      ensures old(At(path)).Ok? && r.Err? ==>
        r.error == if old(At(path)).value.1.IsDirectory() then NotEmpty else NotADirectoryError
      ensures r == Err(InvalidPathError) <==> forall p :: !IsParent(old(Volume()), Root(), Components(path), p)
      ensures r == Err(NotFound) <==> old(At(path)).Err? && exists p :: IsParent(old(Volume()), Root(), Components(path), p)
      ensures r.Ok? ==> Removed(old(Volume()), Volume(), Root(), old(At(path)).value.0, j)
      ensures r.Ok? ==> DirListing(old(Volume()), old(At(path)).value.0)[j] == old(At(path)).value.1
      ensures r.Ok? && old(IsTidy()) ==> IsTidy()
      ensures LostClusters() == old(LostClusters())
    {
      hide Lost, Removed;
      hide InTree, Unreached, View, DiskOk, Mirrored, OutsideKept, WF, VolOk, ReadFrom;
      hide DirListing, DirsTidy, Resolve, Components, FatDirEntry.IsDirectory, FatDirEntry.Cluster, RefOk;
      OutsideKeptAlways(inner.bpb, inner.mounted, inner.disk);
      ghost var v0 := Volume();
      j := 0;
      var s := inner.SplitPath(path, objs);
      if s.Err? {
        return Err(InvalidPathError), j;
      }
      var (parentCluster, name) := s.value;
      ParentResolves(v0, Root(), Components(path), parentCluster);
      ResolveOne(v0, parentCluster, name);
      ObjReadable(v0, objs, Root(), inner.Size(), parentCluster);
      var entry := inner.FindInDirectory(parentCluster, name);
      if entry.None? {
        return Err(NotFound), j;
      }
      if !entry.value.IsDirectory() {
        return Err(NotADirectoryError), j;
      }
      j := FindIndex(DirListing(v0, parentCluster), name);
      DirKnown(v0, objs, Root(), inner.Size(), parentCluster, j);
      ObjReadable(v0, objs, Root(), inner.Size(), entry.value.Cluster());
      var entries := inner.ReadDirectory(entry.value.Cluster());
      if entries != [] {
        return Err(NotEmpty), j;
      }
      RemoveObject(parentCluster, entry.value, j);
      r := Ok(());
    }

    // ---- making directories ---------------------------------------------------------------

    /** Takes a free cluster and fills it with "." and "..". */
    method NewDirCluster(parent: nat) returns (r: Result<nat, FatError>)
      requires inner.Valid() && parent < SIZE_LIMIT
      modifies inner`disk
      ensures inner.Valid()
      ensures r.Ok? ==> 2 <= r.value < SIZE_LIMIT && InRange(old(inner.Volume()).fat, r.value) && inner.Size() >= 64
      ensures r.Ok? ==> old(inner.Volume()).fat[r.value] == FREE && r.value < |old(inner.Volume()).data|
      ensures r.Ok? ==> inner.Volume() == Vol(old(inner.Volume()).fat[r.value := EOC],
        old(inner.Volume()).data[r.value := NewDirData(inner.Size(), r.value, parent)])
      ensures r.Err? ==> inner.Volume() == old(inner.Volume()) && FreeSet(old(inner.Volume()).fat) == {}
    {
      hide View, Mirrored, ShortDirEntry.Serialize, FreeSet;
      ViewOk(inner.bpb, inner.disk);
      ClusterHoldsDots(inner.bpb);
      hide DiskOk;
      ghost var v0 := inner.Volume();
      r := inner.AllocateCluster();
      if r.Ok? {
        var dirData := Zeros(inner.bpb.BytesPerCluster());
        dirData := Splice(dirData, 0, DotEntry(DOT, r.value).Serialize());
        dirData := Splice(dirData, 32, DotEntry(DOTDOT, parent).Serialize());
        assert dirData[..inner.Size()] == dirData;
        var _ := inner.WriteCluster(r.value, dirData);
        assert inner.Volume().data == v0.data[r.value := Zeros(inner.Size())][r.value := dirData];
      }
    }

    /**
      Makes the directory `path`: entry `n`, at position `j` of directory `d`. Names longer than
      64 fragments hold do not work: see `FragmentOrders`.
     */
    method Mkdir(path: string) returns (r: Result<(), VfsError>, ghost d: nat, ghost j: nat, ghost n: Option<FatDirEntry>)
      requires Valid() && (Components(path) != [] ==> SlotsNeeded(LastOf(path)) <= 65)
      modifies this`objs, inner`disk
      ensures Valid() && OutsideKept(inner.bpb, old(inner.disk), inner.disk)
      ensures old(At(path)).Ok? ==> r == Err(AlreadyExists) && Volume() == old(Volume())
      ensures r.Ok? ==> Components(path) != [] && n.Some? && IsParent(old(Volume()), Root(), Components(path), d)
      ensures r.Ok? ==> Made(old(Volume()), Volume(), Root(), d, j, n.value)
      ensures r.Ok? ==> j == MkdirIndex(old(Volume()), d, LastOf(path), inner.Size())
      ensures r.Ok? ==> n.value.name == MkdirName(old(Volume()), d, LastOf(path), inner.Size())
      ensures r.Ok? ==>
        (PathsKept(old(Volume()), Volume(), Root()) <==> !Hidden(DirListing(old(Volume()), d), j, n.value.name))
      ensures r.Ok? && old(IsTidy()) ==> IsTidy() && n.value.name == StoredName(LastOf(path))
      ensures r.Ok? && old(IsTidy()) && NameKept(LastOf(path)) ==>
        At(path) == Ok((d, n.value)) && PathsKept(old(Volume()), Volume(), Root())
      ensures r.Err? ==> PathsKept(old(Volume()), Volume(), Root()) && FilesSame(old(Volume()), Volume(), Root())
      ensures r.Err? ==> OtherListingsSame(old(Volume()), Volume(), Root(), {})
      ensures r.Err? ==> r.error in {InvalidPathError, AlreadyExists, IoError, Panicked}
      ensures r == Err(InvalidPathError) <==> forall p :: !IsParent(old(Volume()), Root(), Components(path), p)
      ensures r != Err(InvalidPathError) ==> IsParent(old(Volume()), Root(), Components(path), d)
      ensures r == Err(AlreadyExists) <==> old(At(path)).Ok?
      ensures r.Ok? <==>
        (Components(path) != [] && old(At(path)).Err? && IsParent(old(Volume()), Root(), Components(path), d)
         && MkdirFits(old(Volume()), d, LastOf(path), inner.Size()))
      ensures r == Err(Panicked) <==>
        (Components(path) != [] && old(At(path)).Err? && IsParent(old(Volume()), Root(), Components(path), d)
         && FreeSet(old(Volume()).fat) != {} && !GroupFits(old(Volume()), d, LastOf(path), inner.Size()))
      ensures r.Ok? ==> LostClusters() == old(LostClusters())
      ensures r == Err(InvalidPathError) || r == Err(AlreadyExists) || (r.Err? && FreeSet(old(Volume()).fat) == {}) ==>
        Volume() == old(Volume()) && objs == old(objs)
      ensures (r == Err(IoError) || r == Err(Panicked)) && FreeSet(old(Volume()).fat) != {} ==>
        OneLost(old(Volume()), Volume(), old(LostClusters()), LostClusters())
    {
      hide InTree, Unreached, View, DiskOk, Mirrored, OutsideKept, WF, VolOk, ReadFrom, DirListing, DirsTidy;
      hide OtherListingsSame, Lost, FreeSet, MkdirFits, GroupFits;
      hide Resolve, Components, PathsKept, FilesSame, Made, SlotsNeeded, NameKept, StoredName, OneLost, IsParent, Lookup;
      hide MkdirIndex, MkdirName, Hidden;
      OutsideKeptAlways(inner.bpb, inner.mounted, inner.disk);
      ghost var v0 := Volume();
      d, j, n := 0, 0, None;
      SameVolumeFrames(v0, Root());
      var s := inner.SplitPath(path, objs);
      if s.Err? {
        return Err(InvalidPathError), d, j, n;
      }
      var (parentCluster, name) := s.value;
      d := parentCluster;
      ParentResolves(v0, Root(), Components(path), parentCluster);
      ResolveOne(v0, parentCluster, name);
      ObjReadable(v0, objs, Root(), inner.Size(), parentCluster);
      var existing := inner.FindInDirectory(parentCluster, name);
      if existing.Some? {
        return Err(AlreadyExists), d, j, n;
      }
      r, j, n := MakeIn(parentCluster, name);
      if r.Ok? {
        PathsKeptExactly(v0, Volume(), Root(), d, j, n.value, Components(path));
      }
      if r.Ok? && old(IsTidy()) && NameKept(name) {
        KeptNameMatches(name);
        MadePathFound(v0, Volume(), Root(), d, j, n.value, name, Components(path));
      }
    }

    static function LastOf(path: string): string
      requires Components(path) != []
    {
      Components(path)[|Components(path)| - 1]
    }

    /** The rest of `mkdir`, when directory `parent` has no entry `name`. */
    method MakeIn(parent: nat, name: string) returns (r: Result<(), VfsError>, ghost j: nat, ghost n: Option<FatDirEntry>)
      requires Valid() && IsDir(objs, parent) && name != "" && SlotsNeeded(name) <= 65
      requires Lookup(Volume(), parent, name) == None
      modifies this`objs, inner`disk
      ensures Valid()
      ensures r.Ok? ==> n.Some? && Made(old(Volume()), Volume(), Root(), parent, j, n.value)
      ensures r.Ok? ==> j == MkdirIndex(old(Volume()), parent, name, inner.Size())
      ensures r.Ok? ==> n.value.name == MkdirName(old(Volume()), parent, name, inner.Size())
      ensures r.Ok? && old(IsTidy()) ==> IsTidy() && n.value.name == StoredName(name)
      ensures r.Err? ==> r.error == IoError || r.error == Panicked
      ensures r.Err? ==> PathsKept(old(Volume()), Volume(), Root()) && FilesSame(old(Volume()), Volume(), Root())
      ensures r.Err? ==> OtherListingsSame(old(Volume()), Volume(), Root(), {})
      ensures r.Ok? <==> MkdirFits(old(Volume()), parent, name, inner.Size())
      ensures r == Err(Panicked) <==> FreeSet(old(Volume()).fat) != {} && !GroupFits(old(Volume()), parent, name, inner.Size())
      ensures r.Ok? ==> LostClusters() == old(LostClusters())
      ensures r.Err? && FreeSet(old(Volume()).fat) == {} ==> Volume() == old(Volume()) && objs == old(objs)
      ensures r.Err? && FreeSet(old(Volume()).fat) != {} ==>
        OneLost(old(Volume()), Volume(), old(LostClusters()), LostClusters())
    {
      hide HasRoom, FirstRoom, MkdirIndex, MkdirName, Lost, OtherListingsSame, OneLost, MadeEntry, NewIndex, FreeSet;
      hide InTree, Unreached, View, DiskOk, Mirrored, OutsideKept, WF, VolOk, ReadFrom, DirListing, DirsTidy, Resolve, PathsKept;
      hide FilesSame, Made, SlotsNeeded, StoredName, NewDirData, Wrote, Grew, AddedTo, GrownRun, StartOk, Lower;
      ghost var v0, g, root, size := Volume(), objs, Root(), inner.Size();
      j, n := 0, None;
      SameVolumeFrames(v0, root);
      ObjReadable(v0, g, root, size, parent);
      ObjSmall(v0, g, root, size, parent);
      var c := NewDirCluster(parent);
      if c.Err? {
        return Err(IoError), j, n;
      }
      ghost var v2 := inner.Volume();
      ViewOk(inner.bpb, inner.disk);
      ParentIsReady(v0, v2, g, root, size, parent, c.value);
      NewShortPlain(name, ATTR_DIRECTORY, c.value, 0);
      var a;
      ghost var base, data, o, ch;
      a, base, data, o, ch := inner.AddDirEntry(parent, name, ATTR_DIRECTORY, c.value, 0);
      ghost var v3 := inner.Volume();
      ViewOk(inner.bpb, inner.disk);
      if a.Ok? {
        MkdirAll(v0, v2, v3, g, root, size, parent, c.value, name, base, data, o, ch);
        n := Some(MadeEntry(base, name, c.value, o));
        j := NewIndex(base, o);
        objs := MadeObjs(g, parent, c.value, n.value.ShortSlot(), ch);
        return Ok(()), j, n;
      }
      MkdirNone(v0, v2, v3, g, root, size, parent, c.value, name, a, base, data, o, ch);
      r := Err(if a.error == OutOfBounds then Panicked else IoError);
    }

    // ---- opening --------------------------------------------------------------------------

    /**
      Opens the file that `path` leads to. A missing file is never created: looking it up fails
      before `create` is asked about.
     */
    method Open(path: string, writable: bool, create: bool, truncate: bool, append: bool)
      returns (r: Result<FatFileHandle, VfsError>)
      requires Valid()
      ensures r.Ok? <==> At(path).Ok? && !At(path).value.1.IsDirectory()
      ensures r.Ok? ==> fresh(r.value) && r.value.path == path && r.value.writable == writable
      ensures r.Ok? ==> r.value.cluster == At(path).value.1.Cluster() && r.value.dirty == truncate
      ensures r.Ok? ==> r.value.data == if truncate then [] else FileData(Volume(), At(path).value.1)
      ensures r.Ok? ==> r.value.position == if append then |FileData(Volume(), At(path).value.1)| else 0
      ensures r.Err? ==> r.error == if At(path).Ok? then IsADirectory
        else if Components(path) == [] && create then InvalidPathError else NotFound
    {
      hide InTree, Unreached, View, DiskOk, Mirrored, OutsideKept, WF, VolOk, ReadFrom;
      hide DirListing, Resolve, Components, FatDirEntry.IsDirectory, FatDirEntry.Cluster, RefOk, IsChain;
      ghost var v := Volume();
      var found := inner.ResolvePath(path, objs);
      if found.Err? {
        return Err(NotFound);
      }
      match found.value.1
      case None =>
        if !create {
          return Err(NotFound);
        }
        var s := inner.SplitPath(path, objs);
        return Err(InvalidPathError);
      case Some(entry) =>
        if entry.IsDirectory() {
          return Err(IsADirectory);
        }
        RootIsDir(v, objs, Root(), inner.Size());
        Resolved(v, objs, Root(), inner.Size(), Root(), Components(path));
        FileReadable(v, objs, Root(), inner.Size(), found.value.0, entry);
        var data: seq<byte> := [];
        if entry.Cluster() >= 2 {
          data := inner.ReadChain(entry.Cluster());
          if |data| > entry.short.size {
            data := data[..entry.short.size];
          }
        }
        var position := if append then |data| else 0;
        var handle := new FatFileHandle(path, writable, entry.Cluster(), position, if truncate then [] else data, truncate);
        return Ok(handle);
    }
  }

  datatype SeekFrom = Start(start: nat) | Current(offset: int) | End(fromEnd: int)

  /** An open file: its bytes in memory, written back when it is closed. */
  class FatFileHandle {
    const path: string
    const writable: bool
    const cluster: nat
    var position: nat
    var data: seq<byte>
    var dirty: bool

    constructor (path: string, writable: bool, cluster: nat, position: nat, data: seq<byte>, dirty: bool)
      ensures this.path == path && this.writable == writable && this.cluster == cluster
      ensures this.position == position && this.data == data && this.dirty == dirty
    {
      this.path, this.writable, this.cluster := path, writable, cluster;
      this.position, this.data, this.dirty := position, data, dirty;
    }

    /**
      Bytes from the position on, as many as asked for and there. Behind the end of the data the
      kernel panics, even when no byte is asked for: the slice starts out of bounds.
     */
    method Read(n: nat) returns (r: Result<seq<byte>, VfsError>)
      modifies this`position
      ensures r.Err? <==> old(position) > |data|
      ensures r.Err? ==> r.error == Panicked && position == old(position)
      ensures r.Ok? ==> |r.value| <= n && old(position) <= position <= |data| && r.value == data[old(position)..position]
      ensures r.Ok? && |r.value| < n ==> position == |data|
    {
      var available := if position <= |data| then |data| - position else 0;
      var toRead := if n < available then n else available;
      if position > |data| {
        return Err(Panicked);
      }
      var buf := data[position..position + toRead];
      position := position + toRead;
      return Ok(buf);
    }

    /** Moves the position, also behind the end; only a place before the start is refused. */
    method Seek(pos: SeekFrom) returns (r: Result<nat, VfsError>)
      modifies this`position
      ensures var target := match pos case Start(n) => n case Current(n) => old(position) + n case End(n) => |data| + n;
        if target < 0 then r == Err(InvalidPathError) && position == old(position) else r == Ok(target) && position == target
    {
      var newPos: int;
      match pos {
        case Start(n) => newPos := n;
        case Current(n) => newPos := position + n;
        case End(n) => newPos := |data| + n;
      }
      if newPos < 0 {
        return Err(InvalidPathError);
      }
      position := newPos;
      return Ok(position);
    }

    /** Puts `buf` at the position, filling a gap before it with zeros. */
    method Write(buf: seq<byte>) returns (r: Result<nat, VfsError>)
      modifies this`position, this`data, this`dirty
      ensures !writable ==> r == Err(PermissionDenied) && position == old(position) && data == old(data) && dirty == old(dirty)
      ensures writable ==> r == Ok(|buf|) && dirty && position == old(position) + |buf|
      ensures writable ==> |data| == if |old(data)| < position then position else |old(data)|
      ensures writable ==> data[old(position)..position] == buf
      ensures writable ==> forall i :: 0 <= i < |old(data)| && !(old(position) <= i < position) ==> data[i] == old(data)[i]
      ensures writable ==> forall i :: |old(data)| <= i < old(position) ==> data[i] == 0
    {
      if !writable {
        return Err(PermissionDenied);
      }
      var endPos := position + |buf|;
      if endPos > |data| {
        data := data + Zeros(endPos - |data|);
      }
      data := Splice(data, position, buf);
      position := endPos;
      dirty := true;
      return Ok(|buf|);
    }

    /** Dropping the handle: a changed file is written back; whether that works is not told. */
    method Close(fs: Fat32Fs) returns (ghost r: Option<Result<(), VfsError>>, ghost e': Option<FatDirEntry>)
      requires fs.Valid() && Fat32Fs.HandleCurrent(fs.At(path), cluster)
      modifies fs`objs, fs.inner`disk
      ensures fs.Valid() && r.Some? == dirty
      ensures OutsideKept(fs.inner.bpb, old(fs.inner.disk), fs.inner.disk)
      ensures r.None? ==> fs.Volume() == old(fs.Volume())
      ensures r.Some? && r.value.Ok? ==>
        fs.LostClusters() == old(fs.LostClusters()) + TailLost(old(fs.Volume()), cluster, data, fs.inner.Size())
      ensures r.Some? && r.value.Err? && old(fs.At(path)).Ok? ==>
        fs.LostClusters() == old(fs.LostClusters()) + if cluster < 2 then FreeSet(old(fs.Volume()).fat) else {}
      ensures r.Some? && old(fs.At(path)).Ok? ==> (r.value.Ok? <==> Fits(old(fs.Volume()), cluster, data, fs.inner.Size()))
      ensures r.Some? && old(fs.At(path)).Ok? && r.value.Err? ==>
        && PathsKept(old(fs.Volume()), fs.Volume(), fs.Root())
        && OtherFilesSame(old(fs.Volume()), fs.Volume(), fs.Root(), old(fs.At(path)).value.0, old(fs.At(path)).value.1)
      ensures r.Some? && old(fs.At(path)).Ok? && r.value.Err? ==>
        FileData(fs.Volume(), old(fs.At(path)).value.1)
          == CutOffData(old(fs.Volume()), old(fs.At(path)).value.1, data, fs.inner.Size())
      ensures r.Some? && r.value.Ok? ==>
        && old(fs.At(path)).Ok? && e'.Some? && fs.At(path) == Ok((old(fs.At(path)).value.0, e'.value))
        && Synced(old(fs.Volume()), fs.Volume(), fs.Root(), old(fs.At(path)).value.0, old(fs.At(path)).value.1, e'.value, data)
    {
      hide OutsideKept;
      OutsideKeptAlways(fs.inner.bpb, fs.inner.mounted, fs.inner.disk);
      r, e' := None, None;
      if dirty {
        var s;
        s, e' := fs.SyncFile(path, cluster, data);
        r := Some(s);
      }
    }
  }

  /**
    Opening a file empty, writing `data`, closing it and opening it again gives `data` when there
    is room for it, and otherwise what `CutOffData` says; every other file reads as it did.
   */
  method SaveAndReopen(fs: Fat32Fs, path: string, data: seq<byte>) returns (again: Option<seq<byte>>)
    requires fs.Valid() && |data| < SIZE_LIMIT
    modifies fs`objs, fs.inner`disk
    ensures fs.Valid()
    ensures again.Some? <==> old(fs.At(path)).Ok? && !old(fs.At(path)).value.1.IsDirectory()
    ensures again.None? ==> fs.Volume() == old(fs.Volume())
    ensures again.Some? ==>
      again.value == (if Fits(old(fs.Volume()), old(fs.At(path)).value.1.Cluster(), data, fs.inner.Size()) then data
        else CutOffData(old(fs.Volume()), old(fs.At(path)).value.1, data, fs.inner.Size()))
    ensures again.Some? ==>
      OtherFilesSame(old(fs.Volume()), fs.Volume(), fs.Root(), old(fs.At(path)).value.0, old(fs.At(path)).value.1)
  {
    hide InTree, Unreached, View, DiskOk, Mirrored, OutsideKept, WF, VolOk, ReadFrom;
    hide DirListing, Resolve, Components, Fits, FileData, CutOffData, FatDirEntry.IsDirectory, FatDirEntry.Cluster;
    ghost var v := fs.Volume();
    var h := fs.Open(path, true, false, true, false);
    if h.Err? {
      return None;
    }
    var written := h.value.Write(data);
    assert h.value.data == data;
    ghost var r, e' := h.value.Close(fs);
    if r.value.Ok? {
      SyncedIsFile(v, fs.Volume(), fs.Root(), fs.At(path).value.0, old(fs.At(path)).value.1, e'.value, data);
      assert data[..|data| % SIZE_LIMIT] == data;
    } else {
      KeptPath(v, fs.Volume(), fs.Root(), Components(path));
    }
    var reopened := fs.Open(path, false, false, false, false);
    return Some(reopened.value.data);
  }

  /** Opening a file truncating and appending at once: the first read panics exactly when the file was not empty. */
  method ReadAfterTruncatingAppend(fs: Fat32Fs, path: string, n: nat) returns (r: Option<Result<seq<byte>, VfsError>>)
    requires fs.Valid()
    ensures r.Some? <==> fs.At(path).Ok? && !fs.At(path).value.1.IsDirectory()
    ensures r.Some? ==> (r.value == Err(Panicked) <==> FileData(fs.Volume(), fs.At(path).value.1) != [])
  {
    hide InTree, Unreached, View, DiskOk, Mirrored, OutsideKept, WF, Resolve, Components, FileData, FatDirEntry.IsDirectory;
    var h := fs.Open(path, true, false, true, true);
    if h.Err? {
      return None;
    }
    var read := h.value.Read(n);
    return Some(read);
  }

  lemma SyncedIsFile(v: Vol, v': Vol, root: nat, d: nat, e: FatDirEntry, e': FatDirEntry, data: seq<byte>)
    requires Synced(v, v', root, d, e, e', data)
    ensures e'.IsDirectory() == e.IsDirectory() && FileData(v', e') == data[..|data| % SIZE_LIMIT]
    ensures OtherFilesSame(v, v', root, d, e)
  {
  }

  lemma KeptPath(v: Vol, v': Vol, root: nat, parts: seq<string>)
    requires PathsKept(v, v', root) && parts != [] && Resolve(v, root, parts).Ok?
    ensures Resolve(v', root, parts) == Resolve(v, root, parts)
  {
  }

  // ---- whole runs -------------------------------------------------------------------------

  /** One call on the file system; a save is opening a file, changing its bytes and closing it. */
  datatype Call =
    | Save(path: string, data: seq<byte>)
    | MakeDir(path: string)
    | RemoveFile(path: string)
    | RemoveDir(path: string)

  /**
    After any calls, whether they succeed or run out of space half way, no two paths share a
    cluster.
   */
  method Run(fs: Fat32Fs, calls: seq<Call>)
    requires fs.Valid()
    requires forall i :: 0 <= i < |calls| && calls[i].MakeDir? && Components(calls[i].path) != [] ==>
      SlotsNeeded(Fat32Fs.LastOf(calls[i].path)) <= 65
    modifies fs`objs, fs.inner`disk
    ensures fs.Valid() && NoSharedClusters(fs.Volume(), fs.Root())
    ensures OutsideKept(fs.inner.bpb, old(fs.inner.disk), fs.inner.disk)
  {
    OutsideKeptAlways(fs.inner.bpb, fs.inner.mounted, fs.inner.disk);
    hide InTree, Unreached, View, DiskOk, Mirrored, OutsideKept, WF, NoSharedClusters;
    for i := 0 to |calls|
      invariant fs.Valid()
    {
      Perform(fs, calls[i]);
    }
    WellFormedNotShared(fs.Volume(), fs.objs, fs.Root(), fs.inner.Size());
  }

  method Perform(fs: Fat32Fs, call: Call)
    requires fs.Valid()
    requires call.MakeDir? && Components(call.path) != [] ==> SlotsNeeded(Fat32Fs.LastOf(call.path)) <= 65
    modifies fs`objs, fs.inner`disk
    ensures fs.Valid()
  {
    hide InTree, Unreached, View, DiskOk, Mirrored, OutsideKept, WF, Resolve, DirListing, FreeSet, FileData, CutOffData, TailLost, Fits;
    hide Made, Removed, Synced, PathsKept, OtherFilesSame, OtherListingsSame, FilesSame, MkdirFits, GroupFits, IsParent, Hidden, OneLost;
    match call {
      case Save(path, data) =>
        var h := fs.Open(path, true, false, true, false);
        if h.Ok? {
          var _ := h.value.Write(data);
          ghost var _, _ := h.value.Close(fs);
        }
      case MakeDir(path) =>
        var r;
        ghost var d, j, n;
        r, d, j, n := fs.Mkdir(path);
      case RemoveFile(path) =>
        var r;
        ghost var j;
        r, j := fs.Remove(path);
      case RemoveDir(path) =>
        var r;
        ghost var j;
        r, j := fs.Rmdir(path);
    }
  }
}
