/** The steps that the operations of the file system are made of, each keeping the volume well-formed. */
module FatOps {
  import opened Bytes
  import opened Outcome
  import opened FatVolume
  import opened DirEntries
  import opened DirScan
  import opened DirEdit
  import opened DirAdd
  import opened DirBytes
  import opened FatObjects
  import opened FatLosses
  import opened FatPaths

  /** Rewriting directory `d` in place with slots in shape whose references are exact. */
  lemma DirRewritten(v: Vol, v': Vol, g: Objs, root: nat, size: nat, hole: Hole, d: nat, data: seq<byte>, ch: seq<nat>)
    requires WF(v, g, root, size, hole) && VolOk(v', size) && IsDir(g, d) && HoleIn(hole, d)
    requires |data| == |ReadFrom(v, d)| && Wrote(v, v', ChainOf(v.fat, d), ch, data, size)
    requires DirOk(g, d, SlotsOf(data), None)
    ensures WF(v', g, root, size, None)
    ensures ReadFrom(v', d) == data
    ensures forall l :: l in g && l != d ==> ReadFrom(v', l) == ReadFrom(v, l)
  {
    ObjRead(v, g, root, size, hole, d);
    assert ObjOk(v, d, g[d]);
    WholeExact(data, size, |g[d].chain|);
    SameChain(v, v', g[d].chain, ch, data, size);
    assert g[d := g[d]] == g;
    hide WF, VolOk, DirOk, Wrote, ReadFrom, ChainOf, IsChain;
    ObjWritten(v, v', g, root, size, hole, None, d, g[d], data);
  }

  /** The listing of `d` under a hole: every entry but the one in the hole is exact. */
  lemma RefsBesideHole(v: Vol, g: Objs, root: nat, size: nat, hole: Hole, d: nat, j: nat, i: nat)
    requires WF(v, g, root, size, hole) && IsDir(g, d) && i < |DirListing(v, d)| && j < |DirListing(v, d)| && i != j
    requires hole == None || hole == Some((d, DirListing(v, d)[j].ShortSlot()))
    ensures RefOk(g, d, DirListing(v, d)[i])
  {
    ObjRead(v, g, root, size, hole, d);
    var slots := SlotsOf(ReadFrom(v, d));
    assert Shaped(slots);
    if Listing(slots)[i].ShortSlot() == Listing(slots)[j].ShortSlot() {
      EntriesApart(slots, i, j);
    }
  }

  lemma DirShaped(v: Vol, g: Objs, root: nat, size: nat, hole: Hole, d: nat)
    requires WF(v, g, root, size, hole) && IsDir(g, d)
    ensures Shaped(SlotsOf(ReadFrom(v, d))) && |ReadFrom(v, d)| % ENTRY_SIZE == 0
    ensures d >= 2 && StartOk(v.fat, d)
  {
    ObjRead(v, g, root, size, hole, d);
  }

  // ---- update -----------------------------------------------------------------------------

  lemma UpdatedRefs(v: Vol, g: Objs, root: nat, size: nat, hole: Hole, d: nat, j: nat, e': FatDirEntry)
    requires WF(v, g, root, size, hole) && IsDir(g, d) && j < |DirListing(v, d)|
    requires hole == None || hole == Some((d, DirListing(v, d)[j].ShortSlot()))
    requires RefOk(g, d, e')
    ensures RefsOk(g, d, DirListing(v, d)[j := e'], None)
  {
    var after := DirListing(v, d)[j := e'];
    forall i: nat | i < |after| ensures RefOk(g, d, after[i]) {
      if i != j {
        RefsBesideHole(v, g, root, size, hole, d, j, i);
      }
    }
  }

  /** What `update_dir_entry` wrote, seen as slots. */
  lemma UpdatedSlots(v: Vol, g: Objs, root: nat, size: nat, hole: Hole, d: nat, j: nat, short: ShortDirEntry, data: seq<byte>)
    requires WF(v, g, root, size, hole) && IsDir(g, d) && j < |DirListing(v, d)|
    requires var e := DirListing(v, d)[j];
      && short.name == e.short.name && short.attr == e.short.attr && e.entryCount > 0
      && e.entryOffset + e.entryCount * ENTRY_SIZE <= |ReadFrom(v, d)|
      && data == Splice(ReadFrom(v, d), e.entryOffset + (e.entryCount - 1) * ENTRY_SIZE, short.Serialize())
    ensures Shaped(SlotsOf(data)) && (Tidy(SlotsOf(ReadFrom(v, d))) ==> Tidy(SlotsOf(data)))
    ensures Listing(SlotsOf(data)) == DirListing(v, d)[j := DirListing(v, d)[j].(short := short)]
  {
    hide WF, ReadFrom, Scan, Listing, SlotsOf, Shaped, Tidy, Begins, Before, CameFrom, ShortDirEntry.Serialize;
    DirShaped(v, g, root, size, hole, d);
    var slots := SlotsOf(ReadFrom(v, d));
    var e := Listing(slots)[j];
    EntryPlaced(slots, j);
    var o, k := e.entryOffset / ENTRY_SIZE, e.ShortSlot();
    assert e.entryOffset + (e.entryCount - 1) * ENTRY_SIZE == k * ENTRY_SIZE;
    PatchSlot(ReadFrom(v, d), k, short.Serialize());
    UpdateListing(slots, j, o, k, short);
    UpdateShape(slots, j, o, k, short);
  }

  /** The bytes that a listed entry takes up lie inside its directory. */
  lemma EntryInside(v: Vol, g: Objs, root: nat, size: nat, hole: Hole, d: nat, j: nat)
    requires WF(v, g, root, size, hole) && IsDir(g, d) && j < |DirListing(v, d)|
    ensures var e := DirListing(v, d)[j];
      && e.entryCount > 0 && e.entryOffset % ENTRY_SIZE == 0
      && e.entryOffset + e.entryCount * ENTRY_SIZE <= |ReadFrom(v, d)|
      && EntryAt(SlotsOf(ReadFrom(v, d)), j, e.entryOffset / ENTRY_SIZE, e.ShortSlot())
  {
    DirShaped(v, g, root, size, hole, d);
    EntryPlaced(SlotsOf(ReadFrom(v, d)), j);
    SlotCount(ReadFrom(v, d));
  }

  /** What `update_dir_entry` did to the short entry of `e` in directory `d`. */
  ghost predicate EntryRewritten(v: Vol, v': Vol, d: nat, e: FatDirEntry, short: ShortDirEntry,
                                 bytes: seq<byte>, ch: seq<nat>, size: nat) {
    && e.entryCount > 0 && e.entryOffset + e.entryCount * ENTRY_SIZE <= |ReadFrom(v, d)|
    && bytes == Splice(ReadFrom(v, d), e.entryOffset + (e.entryCount - 1) * ENTRY_SIZE, short.Serialize())
    && Wrote(v, v', ChainOf(v.fat, d), ch, bytes, size)
  }

  /** Rewriting one entry: the listing changes in that entry only, and a hole there is closed. */
  lemma EntryUpdated(v: Vol, v': Vol, g: Objs, root: nat, size: nat, hole: Hole, d: nat, j: nat,
                     e': FatDirEntry, data: seq<byte>, ch: seq<nat>)
    requires WF(v, g, root, size, hole) && VolOk(v', size) && IsDir(g, d) && j < |DirListing(v, d)|
    requires hole == None || hole == Some((d, DirListing(v, d)[j].ShortSlot()))
    requires SameEntryBut(DirListing(v, d)[j], e') && RefOk(g, d, e')
    requires EntryRewritten(v, v', d, DirListing(v, d)[j], e'.short, data, ch, size)
    ensures WF(v', g, root, size, None)
    ensures DirListing(v', d) == DirListing(v, d)[j := e']
    ensures Tidy(SlotsOf(ReadFrom(v, d))) ==> Tidy(SlotsOf(ReadFrom(v', d)))
    ensures forall l :: l in g && l != d ==> ReadFrom(v', l) == ReadFrom(v, l)
  {
    UpdatedSlots(v, g, root, size, hole, d, j, e'.short, data);
    UpdatedRefs(v, g, root, size, hole, d, j, e');
    hide WF, VolOk, ReadFrom, Scan, SlotsOf, Shaped, Tidy, RefOk, RefsOk, Wrote, ShortDirEntry.Serialize;
    DirRewritten(v, v', g, root, size, hole, d, data, ch);
  }

  /** `e'` is `e` with other fields in its short entry, but the same name bytes and attributes. */
  ghost predicate SameEntryBut(e: FatDirEntry, e': FatDirEntry) {
    e' == e.(short := e'.short) && e'.short.name == e.short.name && e'.short.attr == e.short.attr
  }

  // ---- remove -----------------------------------------------------------------------------

  lemma RemovedRefs(v: Vol, g: Objs, root: nat, size: nat, hole: Hole, d: nat, j: nat)
    requires WF(v, g, root, size, hole) && IsDir(g, d) && j < |DirListing(v, d)|
    requires hole == None || hole == Some((d, DirListing(v, d)[j].ShortSlot()))
    ensures RefsOk(g, d, DirListing(v, d)[..j] + DirListing(v, d)[j + 1..], None)
  {
    var entries := DirListing(v, d);
    var after := entries[..j] + entries[j + 1..];
    hide WF, DirListing, RefOk;
    forall i: nat | i < |after| ensures RefOk(g, d, after[i]) {
      RefsBesideHole(v, g, root, size, hole, d, j, if i < j then i else i + 1);
      assert after[i] == entries[if i < j then i else i + 1];
    }
  }

  /** What `remove_dir_entry` wrote, seen as slots. */
  lemma RemovedSlots(v: Vol, g: Objs, root: nat, size: nat, hole: Hole, d: nat, j: nat, slots': seq<Slot>)
    requires WF(v, g, root, size, hole) && IsDir(g, d) && j < |DirListing(v, d)|
    requires slots' == Marked(SlotsOf(ReadFrom(v, d)), DirListing(v, d)[j].entryOffset / ENTRY_SIZE,
      DirListing(v, d)[j].entryOffset / ENTRY_SIZE + DirListing(v, d)[j].entryCount)
    ensures Shaped(slots') && (Tidy(SlotsOf(ReadFrom(v, d))) ==> Tidy(slots'))
    ensures Listing(slots') == DirListing(v, d)[..j] + DirListing(v, d)[j + 1..]
  {
    hide WF, ReadFrom, Scan, SlotsOf, Listing, Shaped, Tidy, Marked, EntryAt, FatDirEntry.ShortSlot;
    DirShaped(v, g, root, size, hole, d);
    EntryInside(v, g, root, size, hole, d, j);
    var slots := SlotsOf(ReadFrom(v, d));
    var e := DirListing(v, d)[j];
    var o, k := e.entryOffset / ENTRY_SIZE, e.ShortSlot();
    EntryEnd(slots, j, o, k);
    EntryMarked(slots, j, o, k);
  }

  lemma EntryEnd(slots: seq<Slot>, j: nat, o: nat, k: nat)
    requires EntryAt(slots, j, o, k)
    ensures o + Listing(slots)[j].entryCount == k + 1
  {
  }

  lemma EntryMarked(slots: seq<Slot>, j: nat, o: nat, k: nat)
    requires Shaped(slots) && EntryAt(slots, j, o, k)
    ensures j < |Listing(slots)|
    ensures Listing(Marked(slots, o, k + 1)) == Listing(slots)[..j] + Listing(slots)[j + 1..]
    ensures Shaped(Marked(slots, o, k + 1)) && (Tidy(slots) ==> Tidy(Marked(slots, o, k + 1)))
  {
    RemoveListing(slots, j, o, k);
    RemoveShape(slots, j, o, k);
    hide Scan, Before, Shaped, Tidy, Marked;
    if Tidy(slots) { RemoveTidy(slots, j, o, k); }
  }

  /** What `remove_dir_entry` did to the slots of `e` in directory `d`. */
  ghost predicate EntryErased(v: Vol, v': Vol, d: nat, e: FatDirEntry, data: seq<byte>, ch: seq<nat>, size: nat) {
    && |data| == |ReadFrom(v, d)|
    && SlotsOf(data) == Marked(SlotsOf(ReadFrom(v, d)), e.entryOffset / ENTRY_SIZE, e.entryOffset / ENTRY_SIZE + e.entryCount)
    && Wrote(v, v', ChainOf(v.fat, d), ch, data, size)
  }

  /** Deleting one entry: it is gone from the listing, and a hole there with it. */
  lemma EntryRemoved(v: Vol, v': Vol, g: Objs, root: nat, size: nat, hole: Hole, d: nat, j: nat, data: seq<byte>, ch: seq<nat>)
    requires WF(v, g, root, size, hole) && VolOk(v', size) && IsDir(g, d) && j < |DirListing(v, d)|
    requires hole == None || hole == Some((d, DirListing(v, d)[j].ShortSlot()))
    requires EntryErased(v, v', d, DirListing(v, d)[j], data, ch, size)
    ensures WF(v', g, root, size, None)
    ensures DirListing(v', d) == DirListing(v, d)[..j] + DirListing(v, d)[j + 1..]
    ensures Tidy(SlotsOf(ReadFrom(v, d))) ==> Tidy(SlotsOf(ReadFrom(v', d)))
    ensures forall l :: l in g && l != d ==> ReadFrom(v', l) == ReadFrom(v, l)
  {
    RemovedSlots(v, g, root, size, hole, d, j, SlotsOf(data));
    RemovedRefs(v, g, root, size, hole, d, j);
    hide WF, VolOk, ReadFrom, Scan, SlotsOf, Shaped, Tidy, RefOk, RefsOk, Wrote, Marked;
    DirRewritten(v, v', g, root, size, hole, d, data, ch);
  }

  // ---- add --------------------------------------------------------------------------------

  /** `base` is the directory as read, or that with a cluster of zeros behind it. */
  ghost predicate IsBase(base: seq<byte>, before: seq<byte>, size: nat) {
    base == before || base == before + Zeros(size)
  }

  lemma BaseShaped(base: seq<byte>, before: seq<byte>, size: nat)
    requires IsBase(base, before, size) && |before| % ENTRY_SIZE == 0 && Shaped(SlotsOf(before))
    ensures Shaped(SlotsOf(base)) && Listing(SlotsOf(base)) == Listing(SlotsOf(before))
    ensures Tidy(SlotsOf(before)) ==> Tidy(SlotsOf(base))
  {
    hide Shaped, Tidy, Listing, SlotsOf;
    if base != before {
      SlotsOfPadded(before, size);
      PadListing(SlotsOf(before), SlotsOf(base));
    }
  }

  /** The scan of `base` up to one of its slots is that of the directory with zeros behind it. */
  lemma BaseState(base: seq<byte>, before: seq<byte>, size: nat, o: nat)
    requires IsBase(base, before, size) && |before| % ENTRY_SIZE == 0 && o <= |SlotsOf(base)|
    ensures Before(SlotsOf(base), o) == Before(SlotsOf(before + Zeros(size)), o)
  {
    hide SlotsOf, Scan;
    SlotsOfPadded(before, size);
    var a, b := SlotsOf(base), SlotsOf(before + Zeros(size));
    assert a[..o] == b[..o];
  }

  /** The entry that adding makes, and where the listing shows it. */
  ghost function NewEntry(base: seq<byte>, name: string, short: ShortDirEntry, o: nat): FatDirEntry {
    AddedEntry(Before(SlotsOf(base), o), name, short, o)
  }

  ghost function NewIndex(base: seq<byte>, o: nat): nat {
    |Before(SlotsOf(base), o).entries|
  }

  lemma AddedSlots(base: seq<byte>, before: seq<byte>, size: nat, data: seq<byte>, name: string, short: ShortDirEntry, o: nat)
    requires IsBase(base, before, size) && |before| % ENTRY_SIZE == 0 && Shaped(SlotsOf(before))
    requires NewEntryFor(name, short) && AddedTo(base, data, o, name, short)
    ensures Shaped(SlotsOf(data)) && (Tidy(SlotsOf(before)) ==> Tidy(SlotsOf(data)))
    ensures NewIndex(base, o) <= |Listing(SlotsOf(before))|
    ensures Listing(SlotsOf(data)) == Inserted(Listing(SlotsOf(before)), NewIndex(base, o), NewEntry(base, name, short, o))
  {
    BaseShaped(base, before, size);
    var a, b := SlotsOf(base), SlotsOf(data);
    hide Shaped, Tidy, Listing, SlotsOf, Scan, Before, AddedEntry, NewEntryFor, FreeRun, Placed;
    AddListing(a, b, o, name, short);
    AddShape(a, b, o, name, short);
    if Tidy(a) { AddTidy(a, b, o, name, short); }
  }

  lemma AddedRefs(g: Objs, d: nat, entries: seq<FatDirEntry>, j: nat, n: FatDirEntry)
    requires RefsOk(g, d, entries, None) && RefOk(g, d, n) && j <= |entries|
    ensures RefsOk(g, d, Inserted(entries, j, n), None)
  {
    hide RefOk;
    var after := Inserted(entries, j, n);
    forall i: nat | i < |after| ensures RefOk(g, d, after[i]) {
      assert after[i] == if i < j then entries[i] else if i == j then n else entries[i - 1];
    }
  }

  lemma WholeOfBase(before: seq<byte>, base: seq<byte>, data: seq<byte>, size: nat, n: nat)
    requires size > 0 && |before| == n * size && IsBase(base, before, size) && |data| == |base|
    ensures Whole(data, size) == data
    ensures CeilDiv(|data|, size) == n + if base == before then 0 else 1
  {
    if base == before {
      WholeExact(data, size, n);
    } else {
      assert (n + 1) * size == n * size + size;
      WholeExact(data, size, n + 1);
    }
  }

  /** Whole clusters: the length of what adding writes. */
  lemma BaseWhole(v: Vol, g: Objs, root: nat, size: nat, d: nat, base: seq<byte>, data: seq<byte>)
    requires WF(v, g, root, size, None) && IsDir(g, d) && IsBase(base, ReadFrom(v, d), size) && |data| == |base|
    ensures Whole(data, size) == data
    ensures CeilDiv(|data|, size) == |g[d].chain| + if base == ReadFrom(v, d) then 0 else 1
    ensures |ReadFrom(v, d)| == |g[d].chain| * size
  {
    ObjRead(v, g, root, size, None, d);
    VolSizePositive(v, size);
    hide WF, VolOk, ReadFrom, SlotsOf, ChainOf, DirOk, Whole, CeilDiv, IsBase;
    WholeOfBase(ReadFrom(v, d), base, data, size, |g[d].chain|);
  }

  /** Adding an entry that refers to a known object of its own. */
  lemma EntryAdded(v: Vol, v': Vol, g: Objs, root: nat, size: nat, d: nat, base: seq<byte>, data: seq<byte>,
                   name: string, short: ShortDirEntry, o: nat, ch: seq<nat>)
    requires WF(v, g, root, size, None) && VolOk(v', size) && IsDir(g, d)
    requires IsBase(base, ReadFrom(v, d), size) && NewEntryFor(name, short) && AddedTo(base, data, o, name, short)
    requires RefOk(g, d, NewEntry(base, name, short, o))
    requires Wrote(v, v', ChainOf(v.fat, d), ch, data, size)
    ensures WF(v', g[d := g[d].(chain := ch)], root, size, None)
    ensures NewIndex(base, o) <= |DirListing(v, d)|
    ensures DirListing(v', d) == Inserted(DirListing(v, d), NewIndex(base, o), NewEntry(base, name, short, o))
    ensures Tidy(SlotsOf(ReadFrom(v, d))) ==> Tidy(SlotsOf(ReadFrom(v', d)))
    ensures forall l :: l in g && l != d ==> ReadFrom(v', l) == ReadFrom(v, l)
  {
    assert |data| == |base|;
    hide WF, VolOk, ReadFrom, Scan, SlotsOf, Shaped, Tidy, RefOk, NewEntryFor, NewEntry, NewIndex, Inserted, AddedTo, IsBase;
    hide Wrote, ChainOf;
    DirShaped(v, g, root, size, None, d);
    DirRefs(v, g, root, size, d);
    AddedSlots(base, ReadFrom(v, d), size, data, name, short, o);
    AddedRefs(g, d, DirListing(v, d), NewIndex(base, o), NewEntry(base, name, short, o));
    BaseWhole(v, g, root, size, d, base, data);
    DirGrown(v, v', g, root, size, d, data, ch);
  }

  /** Writing whole clusters of slots in shape with exact references over directory `d`. */
  lemma DirGrown(v: Vol, v': Vol, g: Objs, root: nat, size: nat, d: nat, data: seq<byte>, ch: seq<nat>)
    requires WF(v, g, root, size, None) && VolOk(v', size) && IsDir(g, d)
    requires size > 0 && Whole(data, size) == data && CeilDiv(|data|, size) >= |g[d].chain|
    requires DirOk(g, d, SlotsOf(data), None) && Wrote(v, v', ChainOf(v.fat, d), ch, data, size)
    ensures WF(v', g[d := g[d].(chain := ch)], root, size, None)
    ensures ReadFrom(v', d) == data
    ensures forall l :: l in g && l != d ==> ReadFrom(v', l) == ReadFrom(v, l)
  {
    ObjRead(v, g, root, size, None, d);
    assert ObjOk(v, d, g[d]);
    var ob := g[d].(chain := ch);
    assert ch[0] == g[d].chain[0];
    hide WF, VolOk, ReadFrom, SlotsOf, DirOk, Wrote, ChainOf, IsChain;
    DirStaysOk(g, g[d := ob], d, SlotsOf(data), None, None);
    ObjWritten(v, v', g, root, size, None, None, d, ob, data);
  }

  /** When the directory could not grow: fragments at its end, the same listing, no reference changed. */
  lemma EntryCutOff(v: Vol, v': Vol, g: Objs, root: nat, size: nat, d: nat, base: seq<byte>, data: seq<byte>,
                    name: string, short: ShortDirEntry, o: nat, ch: seq<nat>)
    requires WF(v, g, root, size, None) && VolOk(v', size) && IsDir(g, d)
    requires IsBase(base, ReadFrom(v, d), size) && NewEntryFor(name, short) && AddedTo(base, data, o, name, short)
    requires GrownRun(ReadFrom(v, d), base, o * ENTRY_SIZE, SlotsNeeded(name))
    requires Grew(v, v', ChainOf(v.fat, d), ch, data, size)
    ensures WF(v', g, root, size, None)
    ensures DirListing(v', d) == DirListing(v, d)
    ensures forall l :: l in g && l != d ==> ReadFrom(v', l) == ReadFrom(v, l)
  {
    assert |data| == |base|;
    hide WF, VolOk, ReadFrom, Scan, SlotsOf, Shaped, RefsOk, NewEntryFor, AddedTo, GrownRun, Listing, Grew, IsBase, SlotsNeeded, ChainOf;
    CutOffBytes(v, v', g, root, size, d, base, data, ch);
    DirShaped(v, g, root, size, None, d);
    DirRefs(v, g, root, size, d);
    CutOffSlots(ReadFrom(v, d), base, data, size, name, short, o);
    assert g[d := g[d].(chain := ch)] == g;
    ObjGrew(v, v', g, root, size, None, d, ch, data);
  }

  /** The chain did not grow, and holds the part of the bytes that fits it. */
  lemma CutOffBytes(v: Vol, v': Vol, g: Objs, root: nat, size: nat, d: nat, base: seq<byte>, data: seq<byte>, ch: seq<nat>)
    requires WF(v, g, root, size, None) && VolOk(v', size) && IsDir(g, d)
    requires IsBase(base, ReadFrom(v, d), size) && |data| == |base| && Grew(v, v', ChainOf(v.fat, d), ch, data, size)
    ensures ChainOf(v.fat, d) == g[d].chain == ch && |ReadFrom(v, d)| <= |data|
    ensures ReadFrom(v', d) == ChainBytes(v', ch) == data[..|ReadFrom(v, d)|]
  {
    ObjRead(v, g, root, size, None, d);
    assert ObjOk(v, d, g[d]);
    BaseWhole(v, g, root, size, d, base, data);
    GrewReadsBack(v, v', g[d].chain, ch, data, size);
    assert |ch| == |g[d].chain| && ch[..|ch|] == ch;
    ChainIsWalked(v'.fat, ch);
  }

  lemma DirRefs(v: Vol, g: Objs, root: nat, size: nat, d: nat)
    requires WF(v, g, root, size, None) && IsDir(g, d)
    ensures RefsOk(g, d, Listing(SlotsOf(ReadFrom(v, d))), None)
  {
    ObjRead(v, g, root, size, None, d);
  }

  lemma CutOffPrefix(before: seq<byte>, base: seq<byte>, data: seq<byte>, size: nat)
    requires |before| % ENTRY_SIZE == 0 && IsBase(base, before, size) && |data| == |base|
    ensures |SlotsOf(before)| <= |SlotsOf(data)| == |SlotsOf(base)|
    ensures SlotsOf(data[..|before|]) == SlotsOf(data)[..|SlotsOf(before)|]
    ensures SlotsOf(before) == SlotsOf(base)[..|SlotsOf(before)|]
  {
    hide SlotsOf;
    SlotCount(before);
    SlotCount(base);
    SlotCount(data);
    SlotsOfPrefix(data, |SlotsOf(before)|);
    SlotsOfPrefix(base, |SlotsOf(before)|);
    assert base[..|before|] == before;
  }

  lemma CutOffSlots(before: seq<byte>, base: seq<byte>, data: seq<byte>, size: nat,
                    name: string, short: ShortDirEntry, o: nat)
    requires |before| % ENTRY_SIZE == 0 && Shaped(SlotsOf(before)) && IsBase(base, before, size)
    requires NewEntryFor(name, short) && AddedTo(base, data, o, name, short)
    requires GrownRun(before, base, o * ENTRY_SIZE, SlotsNeeded(name))
    ensures Shaped(SlotsOf(data[..|before|])) && Listing(SlotsOf(data[..|before|])) == Listing(SlotsOf(before))
  {
    hide SlotsOf, Shaped, Group, NewEntryFor, SlotsNeeded, Listing;
    var a := SlotsOf(before);
    var b := SlotsOf(data[..|before|]);
    CutOffPrefix(before, base, data, size);
    assert (o * ENTRY_SIZE) / ENTRY_SIZE == o;
    AddTruncated(a, b, o, name, short, |a| - o);
  }

  // ---- a file's bytes ---------------------------------------------------------------------

  /** The entry of a file, `j` in directory `d`, and the cluster a handle to it holds. */
  ghost predicate FileAt(v: Vol, g: Objs, d: nat, j: nat, oldCluster: nat) {
    && IsDir(g, d) && j < |DirListing(v, d)|
    && var e := DirListing(v, d)[j]; !e.IsDirectory() && (oldCluster == e.Cluster() || (oldCluster < 2 && e.Cluster() < 2))
  }

  /** The file object of a written entry. */
  ghost function FileObj(v: Vol, d: nat, j: nat, ch: seq<nat>): Obj
    requires j < |DirListing(v, d)|
  {
    Obj(ch, false, d, DirListing(v, d)[j].ShortSlot())
  }

  /** What a handle's cluster is to the well-formed volume: the head of the file's chain, or none. */
  lemma HandleChain(v: Vol, g: Objs, root: nat, size: nat, d: nat, j: nat, c: nat)
    requires WF(v, g, root, size, None) && FileAt(v, g, d, j, c)
    ensures StartOk(v.fat, c) && OldChain(v.fat, c) == ChainNow(g, c)
    ensures c >= 2 ==> c in g && g[c] == FileObj(v, d, j, g[c].chain) && c != root && c != d
    ensures c < 2 ==> c !in g && DirListing(v, d)[j].Cluster() < 2
  {
    DirKnown(v, g, root, size, d, j);
    if c >= 2 {
      ObjRead(v, g, root, size, None, c);
    } else if c in g {
      assert ObjOk(v, c, g[c]);
    }
  }

  /** Writing the data of a file, before its entry is rewritten. */
  lemma FileDataWritten(v: Vol, v': Vol, g: Objs, root: nat, size: nat, d: nat, j: nat, c: nat,
                        data: seq<byte>, ch: seq<nat>)
    requires WF(v, g, root, size, None) && VolOk(v', size) && FileAt(v, g, d, j, c)
    requires |ch| > 0 && Wrote(v, v', OldChain(v.fat, c), ch, data, size)
    ensures WF(v', g[ch[0] := FileObj(v, d, j, ch)], root, size, None)
    ensures ReadFrom(v', ch[0]) == Whole(data, size) && 2 <= ch[0] < CELL
    ensures forall l :: l in g && l != c ==> ReadFrom(v', l) == ReadFrom(v, l)
    ensures c >= 2 ==> ch[0] == c
    ensures c < 2 ==> ch[0] !in g
  {
    HandleChain(v, g, root, size, d, j, c);
    var k, o := ch[0], FileObj(v, d, j, ch);
    assert InRange(v'.fat, ch[0]);
    if c >= 2 {
      assert ObjOk(v, c, g[c]);
      assert k == c;
    } else {
      FreeNotOwned(v, g, root, size, None, k);
    }
    assert ChainNow(g, k) == OldChain(v.fat, c);
    hide WF, VolOk, Wrote, ReadFrom, DirListing, IsChain;
    ObjWritten(v, v', g, root, size, None, None, k, o, data);
  }

  /** Freeing the clusters of a file, before its entry is rewritten or deleted. */
  lemma FileDataFreed(v: Vol, v': Vol, g: Objs, root: nat, size: nat, d: nat, j: nat, c: nat)
    requires WF(v, g, root, size, None) && VolOk(v', size) && FileAt(v, g, d, j, c) && c >= 2 && Freed(v, v', c)
    ensures WF(v', g - {c}, root, size, Some((d, DirListing(v, d)[j].ShortSlot())))
    ensures forall l :: l in g && l != c ==> ReadFrom(v', l) == ReadFrom(v, l)
  {
    HandleChain(v, g, root, size, d, j, c);
    hide WF, VolOk, ReadFrom, DirListing, Freed;
    ObjFreed(v, v', g, root, size, c);
  }

  lemma SameRefs(g: Objs)
    ensures KeepsRefs(g, g)
  {
  }

  /** Running out of clusters while writing the data of a file. */
  lemma FileDataGrew(v: Vol, v': Vol, g: Objs, root: nat, size: nat, d: nat, j: nat, c: nat,
                     data: seq<byte>, ch: seq<nat>) returns (g': Objs)
    requires WF(v, g, root, size, None) && VolOk(v', size) && FileAt(v, g, d, j, c)
    requires Grew(v, v', OldChain(v.fat, c), ch, data, size)
    ensures WF(v', g', root, size, None)
    ensures forall l :: l in g && l != c ==> ReadFrom(v', l) == ReadFrom(v, l)
    ensures Lost(v', g') == Lost(v, g) + if c < 2 then Elems(ch) else {}
    ensures FreeSet(v'.fat) == FreeSet(v.fat) - Elems(ch) && (c < 2 ==> Elems(ch) <= FreeSet(v.fat))
    ensures KeepsRefs(g, g') && g'.Keys == g.Keys
  {
    hide WF, VolOk, ReadFrom, DirListing, Grew, Lost, FreeSet, Elems, KeepsRefs, OldChain, StartOk, FatDirEntry.Cluster;
    hide FatDirEntry.IsDirectory, IsDir, DirOk;
    HandleChain(v, g, root, size, d, j, c);
    ReplacedKeepsRefs(g, c, FileObj(v, d, j, ch));
    SameRefs(g);
    if c >= 2 {
      LostWhenGrown(v, v', g, root, size, None, c, ch, data);
      ObjGrew(v, v', g, root, size, None, c, ch, data);
      g' := g[c := g[c].(chain := ch)];
    } else {
      LostWhenUnowned(v, v', g, root, size, None, ch, data);
      UnownedGrew(v, v', g, root, size, None, ch, data);
      g' := g;
    }
  }

  /** The links of an object's chain stay on the volume, so freeing it is in order. */
  lemma ChainLinksOk(v: Vol, g: Objs, root: nat, size: nat, hole: Hole, k: nat)
    requires WF(v, g, root, size, hole) && k in g
    ensures LinkOk(v.fat, k)
    ensures forall c :: c in ChainOf(v.fat, k) && c < |v.fat| ==> LinkOk(v.fat, v.fat[c])
  {
    ObjRead(v, g, root, size, hole, k);
    var ch := g[k].chain;
    assert ObjOk(v, k, g[k]);
    forall c | c in ch ensures c < |v.fat| && LinkOk(v.fat, v.fat[c]) {
      var i :| 0 <= i < |ch| && ch[i] == c;
      assert i < |ch| - 1 ==> v.fat[ch[i]] == ch[i + 1] && InRange(v.fat, ch[i + 1]);
    }
  }

  // ---- what users of other paths see ------------------------------------------------------

  /** Files other than entry `e` of directory `d` read as they did. */
  ghost predicate OtherFilesSame(v: Vol, v': Vol, root: nat, d: nat, e: FatDirEntry) {
    forall parts: seq<string> ::
      parts != [] && Resolve(v, root, parts).Ok? && Resolve(v, root, parts).value != (d, e)
        && !Resolve(v, root, parts).value.1.IsDirectory()
      ==> FileData(v', Resolve(v, root, parts).value.1) == FileData(v, Resolve(v, root, parts).value.1)
  }

  /** Every directory that is the root or on a path lists what it listed, those at clusters in `but` excepted. */
  ghost predicate OtherListingsSame(v: Vol, v': Vol, root: nat, but: set<nat>) {
    && (root !in but ==> DirListing(v', root) == DirListing(v, root))
    && forall parts: seq<string> ::
         parts != [] && Resolve(v, root, parts).Ok? && Resolve(v, root, parts).value.1.IsDirectory()
           && Resolve(v, root, parts).value.1.Cluster() as nat !in but
         ==> DirListing(v', Resolve(v, root, parts).value.1.Cluster()) == DirListing(v, Resolve(v, root, parts).value.1.Cluster())
  }

  lemma ListingsKept(v: Vol, v': Vol, g: Objs, root: nat, size: nat, but: set<nat>)
    requires WF(v, g, root, size, None)
    requires forall k :: IsDir(g, k) && k !in but ==> DirListing(v', k) == DirListing(v, k)
    ensures OtherListingsSame(v, v', root, but)
  {
    RootIsDir(v, g, root, size);
    hide WF, DirListing, Resolve, FatDirEntry.Cluster, FatDirEntry.IsDirectory;
    forall parts: seq<string> |
      parts != [] && Resolve(v, root, parts).Ok? && Resolve(v, root, parts).value.1.IsDirectory()
        && Resolve(v, root, parts).value.1.Cluster() as nat !in but
      ensures DirListing(v', Resolve(v, root, parts).value.1.Cluster()) == DirListing(v, Resolve(v, root, parts).value.1.Cluster())
    {
      Resolved(v, g, root, size, root, parts);
    }
  }

  lemma FileKept(v: Vol, v': Vol, g: Objs, root: nat, size: nat, d: nat, j: nat, parts: seq<string>)
    requires WF(v, g, root, size, None) && IsDir(g, d) && j < |DirListing(v, d)|
    requires forall l :: l in g && l != d && l != DirListing(v, d)[j].Cluster() ==> ReadFrom(v', l) == ReadFrom(v, l)
    requires parts != [] && Resolve(v, root, parts).Ok? && Resolve(v, root, parts).value != (d, DirListing(v, d)[j])
    requires !Resolve(v, root, parts).value.1.IsDirectory()
    ensures FileData(v', Resolve(v, root, parts).value.1) == FileData(v, Resolve(v, root, parts).value.1)
  {
    hide WF, ReadFrom, DirListing, Resolve, FatDirEntry.Cluster, FatDirEntry.IsDirectory, RefOk;
    var (d2, e2) := Resolve(v, root, parts).value;
    RootIsDir(v, g, root, size);
    Resolved(v, g, root, size, root, parts);
    var i := FindIndex(DirListing(v, d2), parts[|parts| - 1]);
    if e2.Cluster() >= 2 {
      OtherFileCluster(v, g, root, size, d, j, d2, i);
    }
  }

  /** Objects other than a directory and one file's chain being as they were, so are all other files. */
  lemma FilesKept(v: Vol, v': Vol, g: Objs, root: nat, size: nat, d: nat, j: nat)
    requires WF(v, g, root, size, None) && IsDir(g, d) && j < |DirListing(v, d)|
    requires forall l :: l in g && l != d && l != DirListing(v, d)[j].Cluster() ==> ReadFrom(v', l) == ReadFrom(v, l)
    ensures OtherFilesSame(v, v', root, d, DirListing(v, d)[j])
  {
    hide WF, ReadFrom, DirListing, Resolve, FileData;
    forall parts: seq<string> |
      parts != [] && Resolve(v, root, parts).Ok? && Resolve(v, root, parts).value != (d, DirListing(v, d)[j])
        && !Resolve(v, root, parts).value.1.IsDirectory()
      ensures FileData(v', Resolve(v, root, parts).value.1) == FileData(v, Resolve(v, root, parts).value.1)
    {
      FileKept(v, v', g, root, size, d, j, parts);
    }
  }

  /** Two different entries do not refer to the same cluster. */
  lemma OtherFileCluster(v: Vol, g: Objs, root: nat, size: nat, d: nat, j: nat, d2: nat, i: nat)
    requires WF(v, g, root, size, None) && IsDir(g, d) && j < |DirListing(v, d)|
    requires IsDir(g, d2) && i < |DirListing(v, d2)| && (d2, DirListing(v, d2)[i]) != (d, DirListing(v, d)[j])
    requires DirListing(v, d2)[i].Cluster() >= 2
    ensures DirListing(v, d2)[i].Cluster() in g && DirListing(v, d2)[i].Cluster() != DirListing(v, d)[j].Cluster()
    ensures !DirListing(v, d2)[i].IsDirectory() ==> DirListing(v, d2)[i].Cluster() != d
  {
    DirKnown(v, g, root, size, d2, i);
    DirKnown(v, g, root, size, d, j);
    if d2 == d && DirListing(v, d)[i].ShortSlot() == DirListing(v, d)[j].ShortSlot() {
      DirShaped(v, g, root, size, None, d);
      EntriesApart(SlotsOf(ReadFrom(v, d)), i, j);
    }
  }
}
