# Verified model of the kernel's storage, scheduling and memory cores

This project models five parts of the kernel in Dafny and proves properties of them. Each part is a
class (or a few) with the fields and loops of the Rust code, proved against functions and predicates
on values, and theorems about those values.

**The FAT32 driver** (`vcore/src/vfs/fat32.rs`) is modelled over an array of 512-byte sectors, in two
layers. The first (`FatLayout`) goes from sectors to a volume: a map of 28-bit cells and the bytes of
each cluster. The second (`FatObjects`, `FatPaths`) goes from a volume to files and directories: chains,
listings, and what a path leads to. `WF` is the well-formed volume: every file and directory has an
EOC-ended chain of its own, disjoint from all others, directories have the shape the scanner needs, and
every entry refers to an object that knows it. While an operation is between two writes, one entry may be
a `hole`. Between operations the objects also form a tree (`InTree`): each but the root is listed in its
parent, and the parents lead up to the root, so that the clusters without an owner are exactly those that
no walk along directory entries gets to (`LostIsUnreached`). The theorems say what `sync_file`, `open`,
`mkdir`, `remove` and `rmdir` do to every path and to the bytes of every file, that the volume stays
well-formed whether they succeed or run out of space, and so that no cluster ever belongs to two paths.

**The scheduler** (`vcore/src/sched/mod.rs`) is a state machine; the run theorems hold for any
interleaving of its locked sections: order, conservation, bounded waiting, sleeping and dead tasks, the
loaded page table and kernel stack, and the stack pointer a task goes on from.

**Memory** (`vcore/src/mem/pmm.rs`, `vcore/src/mem/vmm.rs`, `vcore/src/elf.rs`): a bitmap allocator hands
out frames, address spaces map zeroed frames and write through translation a page at a time, and the ELF
loader composes them into a process image.

**Paths and mounts** (`vcore/src/vfs/mod.rs`): normalisation and the mount table.

**Directory entries on the wire** (`vcore/src/cpu/syscall.rs`, `user/vlib/src/syscalls.rs`): the
SYS_GETDENTS encoder and the iterator that reads it.

What is on disk, in an executable and on the wire is also stated byte by byte, and the comparison of
names character by character, apart from the functions that the model computes with (`CellIsBytes`,
`ShortBytes`, `FragmentBytes`, `ListedExactly`, `MatchExactly`, `HeaderIsBytes`, `SeesAllAs`).

Parameters that the kernel gets from hardware are arguments: the tick counter, the stack pointer of the
running task, the memory map. Each section under a lock is one step.

## Where the code does less than one would expect

Each of these is kept as it is and stated exactly, by an if-and-only-if or with a concrete case:

- A name of upper-case letters and digits with two dots, or a dot at its end, gets no long name, is shown
  differently and is not found again (`ShortNameRoundTrip`, `KeptNameMatches`, `TwoDotsNotFound`);
  characters beyond 16 bits, U+0000 and U+FFFF do not survive long names (`LfnNameRoundTrip`,
  `WideCharacterNotFound`); with more than 64 fragments the reader takes an inner fragment for the start of
  the name (`FirstAloneIsLast`).
- Making a directory can take over the path of a file: looking up "A.B.C" finds nothing, but the new entry
  gets the eleven bytes of "A_B.C" and may be listed before it. Every path is kept exactly when the entry
  found so far under the name the new one is listed under, if there is one, stands before its place; both
  name and place are known before the call (`Fat32Fs.Mkdir`, `PathsKeptExactly`, `MadeWhere`,
  `NewDirectoryHidesFile`).
- Writing back less than before cuts the chain but leaves its tail allocated, so clusters are lost exactly
  when the data is not empty and needs fewer clusters than the file has (`ShrinkLoses`,
  `TailLostExactly`, `SecondClusterLost`). A save that runs out of space loses all free clusters if the file
  had none, and else none; a `mkdir` that fails after taking its cluster loses that one; nothing else
  loses any (`Fat32Fs.SyncFile`, `Fat32Fs.Mkdir`, `Fat32Fs.Remove`). Lost are the clusters in use that no
  walk along directory entries gets to (`LostIsUnreached`); those of a file whose path was taken over are
  not among them. Clusters are never shared.
- A save that runs out of space has overwritten the file: it reads as the front part of the new data, as
  much as all clusters hold and at most of the old length, or as nothing if it had no cluster
  (`Fat32Fs.SyncFile`, `SaveAndReopen`, `CutOffData`).
- `open` never creates a file: looking the name up fails before the create flag matters (`Fat32Fs.Open`).
- A directory grows by one cluster at most. The kernel panics exactly when the directory with a cluster
  more still has no run of free slots that is long enough (`Fat32Inner.AddDirEntry`, `Fat32Fs.Mkdir`,
  `FullDirectoryPanics`).
- Reading behind the end of a file panics, even no byte, and a file opened truncating and appending at once
  starts there unless it was empty (`FatFileHandle.Read`, `ReadAfterTruncatingAppend`).
- A task that sleeps alone returns from `sleep` at once (`SleepYields`), and a task that is picked while it
  is already current is sent back to a stale stack pointer (`LoadsSavedPointer`, `LoneTaskReloadsStale`).
- The allocator's counter is right after initialisation only if no page lies wholly in two usable entries
  (`PhysicalMemory.Init`). It takes back pages that were never free; frames are conserved exactly when
  no such page is released (`FramesConserved`, `ReleasesUnheld`).
- Starting a program accepts an entry point in the kernel half if the kernel maps that page, and
  panics on one that is not canonical (`SpawnElf`).
- A directory reader misses entries with names over 256 bytes, and all entries after one that does not
  fit its buffer (`SeesAll`).

## Model

| member | source | states |
|---|---|---|
| FatLayout.FatCopiesApart | vcore/src/vfs/fat32.rs:78-80 | two FAT copies share no sector, whatever the cells |
| FatLayout.ClusterInVolume | vcore/src/vfs/fat32.rs:82-96 | every cluster lies behind all FAT copies and inside the volume |
| FatLayout.ClustersApart | vcore/src/vfs/fat32.rs:86-88 | different clusters share no sector |
| FatLayout.CellAfterPatch | vcore/src/vfs/fat32.rs:546-573 | the read-modify-write of one FAT sector changes one cell of one copy and keeps that cell's top four bits |
| FatLayout.CellWrittenView | vcore/src/vfs/fat32.rs:546-573 | after all copies are written the 28-bit map has one cell changed and every cluster keeps its bytes |
| FatLayout.CellWrittenMirrors | vcore/src/vfs/fat32.rs:546-573 | copies that agreed on all 28-bit cells still agree |
| FatLayout.CellIsBytes | vcore/src/vfs/fat32.rs:528-544 | the cell of cluster c in copy k is the little-endian number in bytes 4c to 4c+3 of the sectors from reserved + k * sectors per FAT on |
| FatLayout.ViewIsBytes | vcore/src/vfs/fat32.rs:528-544 | the driver works on the cells of the first copy without their top four bits |
| FatLayout.CellIsSet | vcore/src/vfs/fat32.rs:546-573 | in the bytes of every copy the low 28 bits of one cell change and nothing else, and no sector before or behind the copies does |
| FatLayout.ClusterIsSectors | vcore/src/vfs/fat32.rs:82-96 | a cluster number is in range exactly when its sectors end inside the volume; its bytes are those sectors behind the FAT copies |
| FatLayout.ClusterWrittenView | vcore/src/vfs/fat32.rs:665-680 | writing a cluster's sectors changes that cluster of the volume and no cell |
| Fat32Driver.Fat32Inner.GetFatEntry | vcore/src/vfs/fat32.rs:528-544 | reads the cell: the little-endian number in its four bytes of the first copy behind the reserved sectors, without the top four bits |
| Fat32Driver.Fat32Inner.SetFatEntry | vcore/src/vfs/fat32.rs:546-573 | changes the low 28 bits of one cell, in the bytes of every copy, and no other byte of the device: the boot sector and the data stay |
| Fat32Driver.Fat32Inner.ZeroCluster | vcore/src/vfs/fat32.rs:637-646 | fills one cluster with zeros and changes nothing else |
| Fat32Driver.Fat32Inner.ReadCluster | vcore/src/vfs/fat32.rs:648-663 | gives the bytes of the cluster |
| Fat32Driver.Fat32Inner.WriteCluster | vcore/src/vfs/fat32.rs:665-680 | replaces the bytes of one cluster, or fails exactly when the buffer is too small |
| Fat32Driver.Fat32Inner.AllocateCluster | vcore/src/vfs/fat32.rs:575-588 | takes and zeroes the lowest free cluster; fails exactly when there is none |
| Fat32Driver.Fat32Inner.AllocateChain | vcore/src/vfs/fat32.rs:590-605 | chains `count` clusters that were free; fails exactly when fewer are free |
| Fat32Driver.Fat32Inner.ExtendChain | vcore/src/vfs/fat32.rs:607-611 | links one cluster that was free behind the last one |
| Fat32Driver.Fat32Inner.FreeChain | vcore/src/vfs/fat32.rs:613-623 | terminates on any FAT whose links stay in range, cyclic ones included, and frees exactly the clusters walked |
| Fat32Driver.Fat32Inner.GetLastCluster | vcore/src/vfs/fat32.rs:625-635 | finds the last cluster of a chain |
| Fat32Driver.Fat32Inner.ReadChain | vcore/src/vfs/fat32.rs:682-700 | gives the bytes of the clusters walked from the start to the first stop mark |
| Fat32Driver.Fat32Inner.WriteChain | vcore/src/vfs/fat32.rs:702-744 | for fresh, growing, equal and shrinking chains: the new chain keeps the old prefix, has the clusters needed, holds the data zero-padded, and grows with free clusters only; it fails exactly when old and free clusters do not suffice |
| FatVolume.ChainNoRepeat | vcore/src/vfs/fat32.rs:682-700 | an EOC-ended chain visits no cluster twice |
| FatVolume.ChainUnique | vcore/src/vfs/fat32.rs:682-700 | two EOC-ended chains with the same head are the same |
| FatVolume.FreeUndoesAllocate | vcore/src/vfs/fat32.rs:590-623 | freeing a chain just allocated restores the 28-bit map |
| FatVolume.WroteReadsBack | vcore/src/vfs/fat32.rs:682-744 | what was written reads back as the data zero-padded to whole clusters |
| FatVolume.WroteKeepsOthers | vcore/src/vfs/fat32.rs:702-744 | a chain disjoint from the one written stays a chain, disjoint, with its bytes |
| FatVolume.GrewReadsBack | vcore/src/vfs/fat32.rs:702-744 | a write that ran out of space leaves a chain that holds the first part of the data |
| FatVolume.GrewKeepsOthers | vcore/src/vfs/fat32.rs:702-744 | a write that ran out of space leaves disjoint chains alone |
| ShortNames.MakeShortName | vcore/src/vfs/fat32.rs:394-426 | the 11 bytes of base and extension, padded with spaces, of the upper-cased name |
| ShortNames.ShortNameFirstByte | vcore/src/vfs/fat32.rs:394-426 | an 8.3 name never starts like a free slot |
| ShortNames.ShortNameBytes | vcore/src/vfs/fat32.rs:394-426 | each of the 11 bytes: letters as capitals, digits, "_" and "-" as they are, anything else as "_", from before and behind the last dot, then spaces |
| ShortNames.NeedsLfnExactly | vcore/src/vfs/fat32.rs:428-459 | a name gets no long name exactly when it has capitals, digits, ".", "_" and "-" only and at most 8 and 3 characters before and behind its last dot |
| ShortNames.ShownWithoutCapitals | vcore/src/vfs/fat32.rs:186-204 | whatever the 11 bytes, the name shown has no capital letter |
| ShortNames.MatchExactly | vcore/src/vfs/fat32.rs:826-841 | the comparison holds exactly of equally long names that at each place have the same character or the same letter in its two cases |
| ShortNames.ShortNameRoundTrip | vcore/src/vfs/fat32.rs:186-204 | a name without long-name entries is shown with its capital letters made small, and else unchanged, exactly when it has at most one dot and does not end in it |
| DirEntries.ShortRoundTrip | vcore/src/vfs/fat32.rs:115-155 | parsing a serialised short entry gives it back |
| DirEntries.ParsedRoundTrip | vcore/src/vfs/fat32.rs:115-155 | serialising a parsed short entry gives all 32 bytes back |
| DirEntries.ShortBytes | vcore/src/vfs/fat32.rs:115-172 | where name, attributes, cluster and size are in the 32 bytes, and which attribute bits mark directories and volume labels |
| DirEntries.SerializedBytes | vcore/src/vfs/fat32.rs:140-164 | serialising puts them at the same places |
| DirEntries.LfnRoundTrip | vcore/src/vfs/fat32.rs:237-293 | parsing a serialised fragment gives it back |
| DirEntries.FragmentBytes | vcore/src/vfs/fat32.rs:237-301 | where number, end mark, checksum and the thirteen code units of a fragment are in its 32 bytes |
| DirEntries.FragmentUnits | vcore/src/vfs/fat32.rs:342-384 | the units a new fragment holds: its characters cut to 16 bits, one zero, then 0xFFFF; its number, mark and checksum |
| DirEntries.FragmentWritten | vcore/src/vfs/fat32.rs:269-293 | a fragment is written with attributes 0x0F and zeros for type and cluster |
| DirEntries.FragmentExact | vcore/src/vfs/fat32.rs:303-384 | a fragment gives back the characters put into it exactly when each is a nonzero 16-bit unit other than U+FFFF |
| DirEntries.LfnChecksum | vcore/src/vfs/fat32.rs:386-392 | the rotating checksum of the 11 bytes |
| DirEntries.ChecksumTellsApart | vcore/src/vfs/fat32.rs:386-392 | names of 11 bytes that differ in one of them have different checksums |
| DirEntries.ChecksumOfReadme | vcore/src/vfs/fat32.rs:386-392 | the checksum of "README  TXT" is 0x73 |
| DirEntries.CreateLfnEntries | vcore/src/vfs/fat32.rs:461-479 | the fragments of a name, last part first, each with the checksum of the short name |
| DirEntries.FragmentCount | vcore/src/vfs/fat32.rs:461-479 | as many fragments as thirteen characters each make necessary, no more |
| DirEntries.AssembleLfn | vcore/src/vfs/fat32.rs:481-489 | joins the fragments, the last stored one first |
| DirEntries.LfnNameRoundTrip | vcore/src/vfs/fat32.rs:461-489 | cutting and assembling gives the name back exactly when every character is representable |
| DirEntries.FragmentOrders | vcore/src/vfs/fat32.rs:461-479 | up to 64 fragments: ordinals count down, the first alone is marked last, none looks like a free slot |
| DirEntries.FirstAloneIsLast | vcore/src/vfs/fat32.rs:295-301 | the first stored fragment alone reads as the last part exactly up to 64 fragments |
| DirScan.EntryPlaced | vcore/src/vfs/fat32.rs:746-824 | every listed entry occupies the slots its offset and count say, fragments and then its short entry |
| DirScan.EntriesInOrder | vcore/src/vfs/fat32.rs:746-824 | the slots of an entry, fragments included, all come before those of the next ones |
| DirScan.FreeAfterEnd | vcore/src/vfs/fat32.rs:755-757 | in the shape every operation keeps, no slot behind the end marker is in use |
| DirScan.ListedExactly | vcore/src/vfs/fat32.rs:746-824 | a slot is listed exactly when it is in use, no fragment, no volume label and not shown as "." or "..", in terms of its bytes |
| DirScan.FragmentExactly | vcore/src/vfs/fat32.rs:761-775 | a slot is a fragment exactly when it is in use with attributes 0x0F |
| DirScan.NamedBy | vcore/src/vfs/fat32.rs:778-800 | a listed entry has the name of the fragments before it exactly when there are any and each holds the checksum of its 11 bytes, else those bytes as shown |
| Fat32Driver.Fat32Inner.ReadDirectory | vcore/src/vfs/fat32.rs:746-824 | gives the listing of the directory's bytes |
| Fat32Driver.Fat32Inner.ScanData | vcore/src/vfs/fat32.rs:754-821 | the scanning loop computes the listing of the slots |
| Fat32Driver.Fat32Inner.FindInDirectory | vcore/src/vfs/fat32.rs:826-841 | the first entry whose name has the same characters, ASCII letters in either case; none exactly when no entry has |
| FatPaths.FoundIsFirst | vcore/src/vfs/fat32.rs:826-841 | the index that all path lemmas use is that of this first entry |
| Fat32Driver.Fat32Inner.FindRun | vcore/src/vfs/fat32.rs:848-870 | finds the first run of enough free slots exactly when there is room anywhere |
| Fat32Driver.Fat32Inner.FindFreeDirSlots | vcore/src/vfs/fat32.rs:843-884 | the first run found, or the directory with a cluster of zeros more exactly when no run is long enough |
| Fat32Driver.Fat32Inner.AddDirEntry | vcore/src/vfs/fat32.rs:886-918 | writes the group of the name into the first room, grown or not; panics exactly when one more cluster is not room enough, and runs out of clusters exactly when it has to grow and none is free |
| DirBytes.FitsExactly | vcore/src/vfs/fat32.rs:886-918 | the group stays inside the bytes exactly when a cluster more makes room for it |
| FatExamples.FullDirectoryPanics | vcore/src/vfs/fat32.rs:886-918 | on a well-formed volume with a free cluster and sixteen files in its root, any new name of 208 characters: not found, and no room, as `Mkdir` panics for |
| Fat32Driver.Fat32Inner.UpdateDirEntry | vcore/src/vfs/fat32.rs:920-934 | rewrites the 32 bytes of the short entry and nothing else of the directory |
| Fat32Driver.Fat32Inner.RemoveDirEntry | vcore/src/vfs/fat32.rs:936-949 | marks exactly the slots of the entry deleted |
| Fat32Driver.Fat32Inner.ResolvePath | vcore/src/vfs/fat32.rs:951-977 | follows the components of the path from the root, with the error of the first step that fails |
| Fat32Driver.Fat32Inner.SplitPath | vcore/src/vfs/fat32.rs:979-1001 | the directory that the last component is in, and that component |
| DirEdit.UpdateListing | vcore/src/vfs/fat32.rs:920-934 | rewriting a short entry under the same name changes that element of the listing and no other |
| DirEdit.RemoveListing | vcore/src/vfs/fat32.rs:936-949 | deleting an entry's slots removes that element of the listing and no other |
| DirEdit.RemoveTidy | vcore/src/vfs/fat32.rs:936-949 | a directory with complete long names keeps them complete after a deletion |
| DirAdd.StoredNameKept | vcore/src/vfs/fat32.rs:428-489 | a stored name is shown as written exactly when it is representable, or has plain dots |
| DirAdd.KeptNameMatches | vcore/src/vfs/fat32.rs:826-841 | a stored name matches the asked one, letters in either case, exactly when it is kept |
| DirAdd.TwoDotsNotFound | vcore/src/vfs/fat32.rs:428-459 | A.B.C gets no long name and is not found again |
| DirAdd.WideCharacterNotFound | vcore/src/vfs/fat32.rs:342-384 | U+1F600 gets a long name and is not found again |
| DirAdd.NeverDots | vcore/src/vfs/fat32.rs:394-426 | no name is stored so that it reads as "." or ".." |
| DirAdd.AddListing | vcore/src/vfs/fat32.rs:886-918 | a new group inserts exactly one element into the listing: in deleted slots, across the end marker, or in a cluster just added |
| DirAdd.AddShape | vcore/src/vfs/fat32.rs:886-918 | an addition keeps the directory in the scanner's shape |
| DirAdd.AddTidy | vcore/src/vfs/fat32.rs:886-918 | an addition keeps long names complete |
| DirAdd.AddedEntryIs | vcore/src/vfs/fat32.rs:886-918 | in a directory with complete names the new element is the name as stored, at the slots it was written to |
| DirAdd.PadListing | vcore/src/vfs/fat32.rs:872-883 | a cluster of zeros appended to a directory lists nothing |
| DirAdd.AddTruncated | vcore/src/vfs/fat32.rs:886-918 | a group cut off at the end of a directory that could not grow lists nothing |
| Paths.LastComponent | vcore/src/vfs/fat32.rs:979-1001 | cutting a trimmed path at its last slash gives its last component and the path of the others |
| FatObjects.NoCrossLinks | vcore/src/vfs/fat32.rs:702-744 | on a well-formed volume no cluster is in the chains of two objects |
| FatObjects.ObjWritten | vcore/src/vfs/fat32.rs:702-744 | writing one object's chain keeps the volume well-formed |
| FatObjects.ObjGrew | vcore/src/vfs/fat32.rs:702-744 | so does a write of it that ran out of space |
| FatObjects.ObjFreed | vcore/src/vfs/fat32.rs:613-623 | freeing an object keeps the rest well-formed, its entry the one hole |
| FatPaths.ResolveUpdated | vcore/src/vfs/fat32.rs:951-977 | updating an entry changes what its own paths lead to and no other path |
| FatPaths.ResolveRemoved | vcore/src/vfs/fat32.rs:951-977 | removing an entry leaves every path that led elsewhere |
| FatPaths.ResolveInserted | vcore/src/vfs/fat32.rs:951-977 | adding an entry that comes before none found under its name leaves every path that led somewhere |
| FatPaths.ResolveSplit | vcore/src/vfs/fat32.rs:979-1001 | resolving a path is resolving its parent and looking the last name up |
| FatOps.EntryUpdated | vcore/src/vfs/fat32.rs:920-934 | an entry rewritten on disk: the volume well-formed, one listing element changed |
| FatOps.EntryRemoved | vcore/src/vfs/fat32.rs:936-949 | an entry erased on disk: the volume well-formed, one listing element gone |
| FatOps.EntryAdded | vcore/src/vfs/fat32.rs:886-918 | an entry added on disk: the volume well-formed, one listing element inserted |
| FatOps.EntryCutOff | vcore/src/vfs/fat32.rs:886-918 | an addition that ran out of space: the volume well-formed, the listing the same |
| FatOps.FilesKept | vcore/src/vfs/fat32.rs:1096-1128 | files on other paths read as they did |
| FatTheorems.SyncNonEmpty | vcore/src/vfs/fat32.rs:1096-1128 | writing a nonempty file back: opening it gives the data, its directory lists it with cluster and size changed only, no other listing, path or file changes |
| FatTheorems.SyncEmpty | vcore/src/vfs/fat32.rs:1096-1128 | the same for a file that is now empty, whose clusters are freed |
| FatTheorems.RemoveDone | vcore/src/vfs/fat32.rs:1268-1326 | removing: the entry is gone, all other listings, paths and files are as they were, the volume is well-formed |
| FatTheorems.RemovedNotFound | vcore/src/vfs/fat32.rs:1268-1293 | the removed name is not found again unless another entry has it |
| FatTheorems.NewDirEmpty | vcore/src/vfs/fat32.rs:1222-1255 | a directory of "." and ".." lists nothing |
| FatTheorems.NewDirHasDots | vcore/src/vfs/fat32.rs:1222-1258 | the bytes of a new directory: "." with its own cluster, ".." with its parent's, both directories, then zeros |
| FatTheorems.MkdirDone | vcore/src/vfs/fat32.rs:1207-1266 | making a directory: one entry more, an empty directory with "." and ".." leading to it and its parent, all other fields of its entry zero; files and other listings as they were; every path as it was exactly when the new entry hides none; the volume well-formed and a tree |
| FatTheorems.PathsKeptExactly | vcore/src/vfs/fat32.rs:1207-1266 | paths are kept exactly when the entry found under the new one's listed name, if any, stands before it |
| FatTheorems.MadeWhere | vcore/src/vfs/fat32.rs:848-918 | the new entry's place in the listing and its listed name, from the directory before the call |
| FatExamples.NewDirectoryHidesFile | vcore/src/vfs/fat32.rs:1212-1218 | on a well-formed, tidy volume, whatever making "A.B.C" gives, the path "A_B.C" leads to the new empty directory instead of the file |
| FatTheorems.MkdirFailed | vcore/src/vfs/fat32.rs:1207-1266 | a failed `mkdir` changes no path, no listing and no file, and the volume stays well-formed |
| FatTheorems.MadePathFound | vcore/src/vfs/fat32.rs:1207-1266 | the path of a directory just made leads to it |
| FatTheorems.WellFormedNotShared | vcore/src/vfs/fat32.rs:575-744 | on a well-formed volume the chains of the root and of all that paths lead to are EOC-ended, acyclic, free of FREE cells and pairwise disjoint |
| FatLosses.ShrinkLoses | vcore/src/vfs/fat32.rs:702-744 | a write leaves clusters used but in no chain exactly when the data needs fewer clusters than the chain had |
| FatExamples.SecondClusterLost | vcore/src/vfs/fat32.rs:738-741 | on a well-formed volume with clusters of one sector, a file of two clusters written over with one byte: it fits, and its second cluster is lost |
| FatLosses.LostWhenWritten | vcore/src/vfs/fat32.rs:702-744 | what a write of an object loses is the part of its chain behind the clusters the data needs |
| FatLosses.LostWhenFreed | vcore/src/vfs/fat32.rs:613-623 | freeing an object loses nothing |
| FatTheorems.LostWhenSynced | vcore/src/vfs/fat32.rs:1096-1128 | what writing a file back loses, over both steps |
| FatTheorems.TailLostExactly | vcore/src/vfs/fat32.rs:1096-1128 | something is lost exactly when a file is not emptied and needs fewer clusters than it has |
| FatTheorems.LostWhenMade | vcore/src/vfs/fat32.rs:1207-1266 | making a directory loses nothing |
| FatTheorems.LostWhenNotMade | vcore/src/vfs/fat32.rs:1207-1266 | a directory that could not be entered loses its cluster and no other |
| FatTheorems.EmptyVolumeWellFormed | vcore/src/vfs/fat32.rs:1076-1094 | a volume with an empty root directory is well-formed and a tree |
| FatTree.LostIsUnreached | vcore/src/vfs/fat32.rs:746-835 | the clusters in use without an owner are those of nothing that a walk along directory entries finds, on any number of steps |
| FatTree.TreeWithout | vcore/src/vfs/fat32.rs:1268-1326 | taking out the entry of a file or empty directory leaves every other object attached to the root |
| FatTree.TreeWith | vcore/src/vfs/fat32.rs:1096-1266 | an entry for a new object, or for the one its entry had, leaves every object attached to the root |
| FatTheorems.FillFailed | vcore/src/vfs/fat32.rs:1096-1128 | a save that ran out of space: what the file reads as, all other files, paths and listings as they were, and what is lost |
| Fat32FileSystem.Fat32Fs.SyncFile | vcore/src/vfs/fat32.rs:1096-1128 | succeeds exactly when the data fits; then the path leads to the new entry, which differs in cluster and size only, and the file holds the data; otherwise the file reads as the front part of the data that the clusters hold, cut to its old length, and no path, listing or other file changes; each failure's cause, which clusters are lost, and that the sectors before the FAT stay |
| Fat32FileSystem.Fat32Fs.Remove | vcore/src/vfs/fat32.rs:1268-1293 | succeeds exactly on files; each failure's cause, and that it changes nothing; the sectors before the FAT stay |
| Fat32FileSystem.Fat32Fs.Rmdir | vcore/src/vfs/fat32.rs:1295-1326 | succeeds exactly on empty directories; each failure's cause, and that it changes nothing; the sectors before the FAT stay |
| Fat32FileSystem.Fat32Fs.Mkdir | vcore/src/vfs/fat32.rs:1207-1266 | succeeds exactly when the parent exists, has no such name, a cluster is free, the entry fits, and a second is free if the parent has to grow; where and under which name the directory is listed, and exactly when all paths are kept; a kept name is found; each failure's cause, what it loses, and that it changes no path, listing or file |
| Fat32FileSystem.Fat32Fs.Open | vcore/src/vfs/fat32.rs:1132-1205 | gives a handle with the file's bytes exactly on existing files, and never creates one |
| Fat32FileSystem.FatFileHandle.Read | vcore/src/vfs/fat32.rs:1019-1025 | the bytes from the position on, as many as asked for and there; panics exactly behind the end |
| Fat32FileSystem.FatFileHandle.Seek | vcore/src/vfs/fat32.rs:1044-1057 | moves the position anywhere but before the start |
| Fat32FileSystem.ReadAfterTruncatingAppend | vcore/src/vfs/fat32.rs:1152-1164 | the first read of a file opened truncating and appending panics exactly when it was not empty |
| Fat32FileSystem.FatFileHandle.Write | vcore/src/vfs/fat32.rs:1027-1042 | puts the bytes at the position, fills a gap with zeros, keeps the rest |
| Fat32FileSystem.FatFileHandle.Close | vcore/src/vfs/fat32.rs:1067-1074 | a changed file is written back, one not changed is not |
| Fat32FileSystem.SaveAndReopen | vcore/src/vfs/fat32.rs:1096-1151 | opening empty, writing, closing and opening again gives the data whenever it fits, and else exactly the part of it that is left; every other file reads as it did |
| Fat32FileSystem.Run | vcore/src/vfs/fat32.rs:1096-1326 | after any run of saves, mkdirs, removes and rmdirs, failed ones included, no cluster belongs to two of the root and what paths lead to, and no sector before the FAT or behind the volume has changed |
| SchedState.KeptAt | vcore/src/sched/mod.rs:47-58 | a task that stays moves to the number of tasks kept before it |
| SchedState.KeptOrder | vcore/src/sched/mod.rs:47-58 | reaping keeps the order of the tasks that stay |
| SchedState.KeptFrom | vcore/src/sched/mod.rs:47-58 | reaping adds no task and leaves no dead one but the current |
| SchedState.CurrentKept | vcore/src/sched/mod.rs:47-58 | reaping keeps `current` on the same task |
| SchedState.RingIndex | vcore/src/sched/mod.rs:36-45 | the modulo index is the place that many steps on in the ring |
| SchedState.NextIsNearest | vcore/src/sched/mod.rs:36-45 | the choice is the Ready task first after the current one in the ring, and there is none only if none is Ready |
| RoundRobinScheduler.Scheduler.AddTask | vcore/src/sched/mod.rs:32-34 | appends the task |
| RoundRobinScheduler.Scheduler.NextReady | vcore/src/sched/mod.rs:36-45 | the search loop finds the nearest Ready task |
| RoundRobinScheduler.Scheduler.ReapDead | vcore/src/sched/mod.rs:47-58 | the counting-down removal loop is the order-preserving filter |
| RoundRobinScheduler.Scheduler.SwitchContext | vcore/src/sched/switch.rs:4-26 | saves the stack pointer, loads the new one, loads CR3 unless it is zero |
| RoundRobinScheduler.Scheduler.Schedule | vcore/src/sched/mod.rs:112-165 | reap, wake, choose, switch; keeps the invariant, and loads the kernel stack of the task picked if it has one |
| RoundRobinScheduler.Scheduler.Sleep | vcore/src/sched/mod.rs:171-181 | marks the current task and reschedules, keeping the invariant |
| RoundRobinScheduler.Scheduler.Exit | vcore/src/sched/mod.rs:183-195 | marks the current task and reschedules, keeping the invariant |
| RoundRobinScheduler.Scheduler.Run | vcore/src/sched/mod.rs:112-195 | any run of the locked sections goes through the model's states |
| RoundRobinScheduler.Boot | vcore/src/sched/mod.rs:65-69 | starts with one running task, in the invariant |
| SchedTheorems.RunInv | vcore/src/sched/mod.rs:112-195 | at every state of every run: `current` in range, only the current task Running, sleepers and nobody ready with a wake time, CR3 and kernel stack the current task's |
| SchedTheorems.ScheduleChoice | vcore/src/sched/mod.rs:117-138 | the task chosen was Ready or due; with none such the current one goes on |
| SchedTheorems.ReapedDistance | vcore/src/sched/mod.rs:47-58 | reaping takes no waiting task further from the current one |
| SchedTheorems.RoundRobin | vcore/src/sched/mod.rs:112-138 | a waiting task is chosen or gets strictly nearer at each call, whatever is reaped or woken |
| SchedTheorems.BoundedWaiting | vcore/src/sched/mod.rs:112-138 | in every run a waiting task is chosen within its ring distance plus the tasks added |
| SchedTheorems.NoTaskLost | vcore/src/sched/mod.rs:47-58 | a task missing at the end of a run was dead at some state of it |
| SchedTheorems.OrderKept | vcore/src/sched/mod.rs:32-58 | two tasks that last through a run keep their order |
| SchedTheorems.DeadNeverRuns | vcore/src/sched/mod.rs:183-195 | a dead task that is not current never is again |
| SchedTheorems.ExitEnds | vcore/src/sched/mod.rs:183-195 | `exit` takes its task off the processor for good as soon as another can be picked |
| SchedTheorems.SleepLasts | vcore/src/sched/mod.rs:119-129 | in every run a sleeping task is not chosen before its wake time |
| SchedTheorems.SleepYields | vcore/src/sched/mod.rs:171-181 | `sleep` gives up the processor exactly when another task can be picked |
| SchedTheorems.SwitchedCr3 | vcore/src/sched/switch.rs:13-16 | the loaded page table is the chosen task's exactly when its CR3 is not zero or nothing had to change |
| SchedTheorems.LoadsKernelStack | vcore/src/sched/mod.rs:144-159 | a call that picks a task loads its kernel stack, or leaves the one loaded if it has none |
| SchedTheorems.RunLoadsOwn | vcore/src/sched/mod.rs:112-165 | at every state of every run the current task's page table is loaded, and its kernel stack if it has one |
| SchedTheorems.ResumesWhereItStopped | vcore/src/sched/mod.rs:133-165 | a task switched away from goes on from its own stack pointer after any run in which it was not current |
| SchedTheorems.LoadsSavedPointer | vcore/src/sched/mod.rs:133-165 | the pointer loaded is the one saved exactly when another task can be picked or the stack has not moved |
| SchedTheorems.LoneTaskReloadsStale | vcore/src/sched/mod.rs:112-181 | a run from boot in which a lone task is sent to a stale stack pointer |
| PhysicalMemory.OrSets | vcore/src/mem/pmm.rs:21-28 | setting a bit of a byte sets that bit only |
| PhysicalMemory.AndClears | vcore/src/mem/pmm.rs:30-37 | clearing a bit of a byte clears that bit only |
| PhysicalMemory.OneBitChanged | vcore/src/mem/pmm.rs:21-46 | changing a page's bit in the bitmap changes no other page's |
| PhysicalMemory.BitmapAllocator.AllocPage | vcore/src/mem/pmm.rs:48-57 | hands out the lowest free page, or fails exactly when none is free; the counter stays right |
| PhysicalMemory.BitmapAllocator.FreePage | vcore/src/mem/pmm.rs:59-65 | frees any page in range; the counter stays right |
| PhysicalMemory.BitmapAllocator.Run | vcore/src/mem/pmm.rs:48-65 | any run of calls is a run of the model with the counter right throughout |
| PhysicalMemory.HighestAddress | vcore/src/mem/pmm.rs:69-75 | the highest end address of the map |
| PhysicalMemory.FindBitmapSpace | vcore/src/mem/pmm.rs:80-88 | the first usable entry long enough, if there is one |
| PhysicalMemory.CountedRight | vcore/src/mem/pmm.rs:103-113 | the pages counted over the entries are as many as there are exactly when none lies in two usable entries |
| PhysicalMemory.Init | vcore/src/mem/pmm.rs:68-128 | a page is free exactly when it lies wholly in a usable entry and the bitmap does not touch it; the counter is right exactly when no page is counted twice |
| PageFrames.DisjointEntriesNoPageTwice | vcore/src/mem/pmm.rs:103-113 | entries that share no byte share no page |
| PageFrames.NotHandedOutTwice | vcore/src/mem/pmm.rs:48-65 | in every run a page handed out twice was released in between |
| PageFrames.FramesConserved | vcore/src/mem/pmm.rs:48-65 | over a run, free and held pages always partition those free at the start exactly when every page released was one of them or is out of range |
| PageFrames.FreeUndoesAlloc | vcore/src/mem/pmm.rs:48-65 | releasing the page just handed out restores the free set |
| PageFrames.ReleasesUnheld | vcore/src/mem/pmm.rs:59-65 | a run in which a page that was never free is released and handed out |
| UserMemory.ChunkStored | vcore/src/mem/vmm.rs:200-224 | bytes stored through translation within a page change exactly those user bytes, and no frame of anyone else |
| UserMemory.PageAdded | vcore/src/mem/vmm.rs:176-191 | a zeroed frame mapped is a page of zeros, and the other pages keep their bytes |
| UserMemory.OthersKept | vcore/src/mem/vmm.rs:176-250 | whatever one address space does, another one's memory stays |
| UserMemory.CanonicalBits | vcore/src/sched/mod.rs:82-84 | an address is canonical exactly when its seventeen highest bits are equal |
| VirtualMemory.AddressSpace.MapTo | vcore/src/mem/vmm.rs:154-174 | takes at most three table frames, touches no frame in use, and maps the page or fails for a stated reason |
| VirtualMemory.AddressSpace.MapPageAlloc | vcore/src/mem/vmm.rs:176-191 | adds a page of zeros to the user's view; fails only if the page is mapped or fewer than four frames are free |
| VirtualMemory.AddressSpace.Write | vcore/src/mem/vmm.rs:200-224 | writes across pages up to the first unmapped address, and succeeds exactly when there is none |
| VirtualMemory.AddressSpace.Zero | vcore/src/mem/vmm.rs:226-250 | zeroes across pages up to the first unmapped address, and succeeds exactly when there is none |
| VirtualMemory.NewAddressSpace | vcore/src/mem/vmm.rs:118-148 | no user page mapped, the kernel's half of the top table copied, no frame in use changed, and the cause of each failure |
| ElfImage.LoadedBytes | vcore/src/elf.rs:74-122 | loading segments one after the other gives, at every address, the byte of the last segment over it |
| ElfImage.LoadedImage | vcore/src/elf.rs:74-122 | non-overlapping segments: file bytes, zeros up to the memory size, zeros elsewhere in the mapped pages, also in shared pages |
| ElfImage.HeaderIsBytes | vcore/src/elf.rs:9-29 | the places of the header fields in the file, little-endian |
| ElfImage.SegmentIsBytes | vcore/src/elf.rs:31-42 | the places of the program header fields, from the offset, size and number in the header |
| ElfLoader.AcceptedExactly | vcore/src/elf.rs:53-67 | a header is accepted exactly when there are 64 bytes, the magic ones first, class 2 and machine 62 |
| ElfLoader.MapSegment | vcore/src/elf.rs:93-103 | maps the pages of the segment that are not mapped yet as zeros |
| ElfLoader.LoadSegment | vcore/src/elf.rs:93-121 | maps, copies and zero-fills one segment, or says why not |
| ElfLoader.LoadInto | vcore/src/elf.rs:53-127 | builds the image of the segments in order, with the exact cause of each error, and changes no other frame in use |
| ElfLoader.MapStack | vcore/src/sched/mod.rs:90-98 | four zeroed stack pages that nothing had mapped |
| ElfLoader.SpawnElf | vcore/src/sched/mod.rs:78-110 | the memory of a new process: the executable's image, and a stack of 16384 zero bytes in no segment's pages that ends eight bytes behind the first stack pointer, 0x7FFFFFFF8; the entry point mapped in its own half, no frame in use changed; each failure has its cause |
| ElfLoader.SpawnAll | vcore/src/sched/mod.rs:78-110 | after any number of spawns every process that started has its own image, no two share a frame, and every other failed for its own cause |
| VfsPaths.NormalizeCanonical | vcore/src/vfs/mod.rs:134-157 | a normalised path is absolute and spelt from components that are not empty, "." or ".." |
| VfsPaths.NormalizeIdempotent | vcore/src/vfs/mod.rs:134-157 | normalising twice is normalising once |
| VfsPaths.PartsOfRender | vcore/src/vfs/mod.rs:134-157 | spelling names and reading the path gives the names back |
| VfsPaths.ResolveComposes | vcore/src/vfs/mod.rs:159-170 | changing directory to `a` and resolving a relative `b` is resolving `a/b` |
| VfsPaths.ResolveOneStep | vcore/src/vfs/mod.rs:159-170 | a name goes down, ".." goes up and stays at the root, "." and "" stay |
| VfsPaths.PrefixBySpelling | vcore/src/vfs/mod.rs:80-93 | comparing strings and the next slash decides prefixes of components, and the rest spells the remaining components |
| Mounts.NormalizePath | vcore/src/vfs/mod.rs:134-157 | the stack of parts gives the normalised path |
| Mounts.ResolvePath | vcore/src/vfs/mod.rs:159-170 | joins and normalises |
| Mounts.Vfs.MountAt | vcore/src/vfs/mod.rs:48-60 | adds the mount point, or fails exactly when there is one at that path |
| Mounts.Vfs.Unmount | vcore/src/vfs/mod.rs:62-71 | removes the mount point, or fails exactly when there is none |
| Mounts.Vfs.Resolve | vcore/src/vfs/mod.rs:73-97 | picks the mount point with the longest prefix of components and returns the path of exactly the remaining ones; fails exactly when none is a prefix |
| Mounts.FirstIsLongest | vcore/src/vfs/mod.rs:57-97 | in a list sorted by length the first prefix is the longest |
| Getdents.DecodeRecords | user/vlib/src/syscalls.rs:143-170 | a buffer of records reads back as its entries, in order |
| Getdents.SeesAll | vcore/src/cpu/syscall.rs:274-317 | the reader sees every remaining entry once, in order, exactly when each name has at most 256 bytes and fits the buffer |
| Getdents.SeesAllAs | user/vlib/src/syscalls.rs:121-127 | under that condition each entry seen has the kernel's name, and reads as a directory or a file exactly when it is one |
| Getdents.DirectoryFd.Getdents | vcore/src/cpu/syscall.rs:274-317 | writes as many whole records as fit, each with its type code, the name's length and the name, moves the position past them, and leaves the rest of the buffer |
| Getdents.DirEntryIter.Next | user/vlib/src/syscalls.rs:146-169 | one entry after the other, until the buffer ends or a name is cut off or too long |
| Getdents.ListDirectory | user/shell/src/commands/ls.rs:18-32 | the loop ends, and sees all entries exactly under that condition, each with its name, as a directory exactly when it is one and as a file exactly when it is one |

## Left out

- Device errors: reading and writing a sector always succeeds.
- Parsing of the BIOS parameter block: `Bpb.Valid` assumes 512-byte sectors, a FAT large enough for its cells and a volume that fits the device, which the driver does not check.
- FSInfo, volume label contents, date and time fields, and case folding beyond ASCII.
- The `lfn_entries` field of a directory entry, whose length is the entry count less one.
- `readdir` and `metadata` of the FAT file system, and wrap-around of positions.
- Stale handles: a handle is written back while its cluster still is the file's (`HandleCurrent`).
- Fat32FileSystem.Fat32Fs.Mkdir: requires that the name needs at most 64 long-name fragments (832 characters), beyond which the stored fragments no longer read as one name (`FirstAloneIsLast`).
- Fat32FileSystem.SaveAndReopen: for data shorter than 2^32 bytes, the range of the size field; `SyncFile` states what remains of longer data.
- Fat32Driver.Fat32Inner.AddDirEntry: the slice index that panics is the error `OutOfBounds`; in `Mkdir` and `Read` it is `Panicked`, after which the model goes on.
- Some loops of one Rust function are methods of their own here: `WriteBlock`, `NextCluster`, `WriteBlocks`, `FirstCluster`, `ScanSlot`, `FindRun`, `PlaceGroup`, `MarkDeleted`, `WakeSleepers`, `FreeEntryPages`, `TakeBitmapPages`, `CopyKernelHalf`, `WriteRecord`.
- Spin locks, interrupt masking and the register words on a new task's stack; `switch_context` is its effect on stack pointer and CR3.
- Wrap-around of the task identifier counter; wake times wrap at 64 bits as in the release build.
- PhysicalMemory.Init: the panic when no usable entry is long enough for the bitmap is an error result.
- Wrap-around of addresses in the memory map, and holes in physical memory: memory is one array of bytes up to the highest page.
- VirtualMemory.AddressSpace.MapPageAlloc, and `Write` and `Zero` with it: for addresses in the user half; the kernel half maps all of physical memory a second time, so writing there can change anything.
- ElfLoader.SpawnElf: the pages that the kernel half maps are given, and do not change later.
- Walks through page tables: a partial map from page to frame, extended with up to three frames for tables that are missing, any number of them; page permissions; huge pages; the kernel half beyond its copy into a new table.
- ElfLoader.LoadInto: requires program headers of at least 56 bytes, sums that do not wrap and segments in the user half (`Sane`), none of which the loader checks.
- The second copy of the loader (`elf::load`), which goes through raw pointers.
- tmpfs, memfs, the tasks file system, device files, descriptor tables other than an open directory's position, and the dispatch of file operations to the mounted file system: easy members only.
- Getdents.DirectoryFd.Getdents: a descriptor that is no directory, for which the call returns 0.
- UTF-8: names on the wire are bytes; paths are sequences of characters, whose encoded length orders the mounts.
