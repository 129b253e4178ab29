/** Patching the bytes of a directory, seen slot by slot. */
module DirBytes {
  import opened Bytes
  import opened DirEntries
  import opened DirScan
  import opened DirEdit
  import opened DirAdd

  lemma SlotAt(data: seq<byte>, i: nat)
    requires i < |data| / ENTRY_SIZE
    ensures SlotsOf(data)[i] == data[i * ENTRY_SIZE..(i + 1) * ENTRY_SIZE]
  {
  }

  /** Copying a slot over the bytes at its place replaces that slot. */
  lemma PatchSlot(data: seq<byte>, k: nat, d: Slot)
    requires (k + 1) * ENTRY_SIZE <= |data|
    ensures k < |SlotsOf(data)| && SlotsOf(Splice(data, k * ENTRY_SIZE, d)) == SlotsOf(data)[k := d]
  {
    var data' := Splice(data, k * ENTRY_SIZE, d);
    forall i | 0 <= i < |SlotsOf(data)| ensures SlotsOf(data')[i] == SlotsOf(data)[k := d][i] {
      assert |SlotsOf(data')[i]| == ENTRY_SIZE;
    }
  }

  /** Overwriting the first byte of a slot. */
  lemma PatchFirstByte(data: seq<byte>, k: nat, b: byte)
    requires (k + 1) * ENTRY_SIZE <= |data|
    ensures k < |SlotsOf(data)| && SlotsOf(data[k * ENTRY_SIZE := b]) == SlotsOf(data)[k := SlotsOf(data)[k][0 := b]]
  {
  }

  lemma SlotsOfPrefix(data: seq<byte>, m: nat)
    requires m * ENTRY_SIZE <= |data|
    ensures m <= |SlotsOf(data)| && SlotsOf(data[..m * ENTRY_SIZE]) == SlotsOf(data)[..m]
  {
    var front := data[..m * ENTRY_SIZE];
    forall i: nat | i < m ensures SlotsOf(front)[i] == SlotsOf(data)[i] {
      SlotAt(front, i);
      SlotAt(data, i);
      var at := i * ENTRY_SIZE;
      assert front[at..at + ENTRY_SIZE] == data[at..at + ENTRY_SIZE];
    }
  }

  /** Zero bytes appended to whole slots are zero slots. */
  lemma SlotsOfPadded(data: seq<byte>, n: nat)
    requires |data| % ENTRY_SIZE == 0
    ensures var slots := SlotsOf(data + Zeros(n));
      && |SlotsOf(data)| <= |slots|
      && (forall i :: 0 <= i < |SlotsOf(data)| ==> slots[i] == SlotsOf(data)[i])
      && (forall i :: |SlotsOf(data)| <= i < |slots| ==> slots[i][0] == 0x00)
  {
    var more := data + Zeros(n);
    forall i | 0 <= i < |SlotsOf(data)| ensures SlotsOf(more)[i] == SlotsOf(data)[i] {
      SlotAt(data, i);
      SlotAt(more, i);
    }
    forall i | |SlotsOf(data)| <= i < |SlotsOf(more)| ensures SlotsOf(more)[i][0] == 0x00 {
      SlotAt(more, i);
      var at := i * ENTRY_SIZE;
      assert at >= |data| && more[at] == Zeros(n)[at - |data|];
    }
  }

  lemma EmptyRun(slots: seq<Slot>)
    ensures FreeRun(slots, 0, 0)
  {
  }

  /** Slot `k` makes the run before it longer, or ends it. */
  lemma RunNext(data: seq<byte>, k: nat, n: nat)
    requires n <= k < |SlotsOf(data)| && FreeRun(SlotsOf(data), k - n, n)
    ensures k * ENTRY_SIZE < |data|
    ensures if data[k * ENTRY_SIZE] == 0x00 || data[k * ENTRY_SIZE] == DELETED then FreeRun(SlotsOf(data), k - n, n + 1)
      else FreeRun(SlotsOf(data), k + 1, 0)
  {
    SlotAt(data, k);
  }

  /** `n` slots from `o` on are free. */
  ghost predicate RoomAt(slots: seq<Slot>, o: nat, n: nat) {
    o + n <= |slots| && forall i :: o <= i < o + n ==> IsFree(slots[i])
  }

  /** Somewhere `n` slots in a row are free. */
  ghost predicate HasRoom(slots: seq<Slot>, n: nat) {
    exists o: nat :: RoomAt(slots, o, n)
  }

  ghost function RoomFrom(slots: seq<Slot>, n: nat, o: nat): (r: nat)
    ensures r >= o && forall p: nat :: o <= p < r ==> !RoomAt(slots, p, n)
    ensures r < |slots| ==> RoomAt(slots, r, n)
    decreases |slots| - o
  {
    if o >= |slots| || RoomAt(slots, o, n) then o else RoomFrom(slots, n, o + 1)
  }

  /** The first place where `n` slots in a row are free. */
  ghost function FirstRoom(slots: seq<Slot>, n: nat): (o: nat)
    ensures forall p: nat :: p < o ==> !RoomAt(slots, p, n)
    ensures n > 0 && HasRoom(slots, n) ==> RoomAt(slots, o, n)
  {
    RoomFrom(slots, n, 0)
  }

  lemma FirstRoomIs(slots: seq<Slot>, n: nat, o: nat)
    requires n > 0 && RoomAt(slots, o, n) && forall p: nat :: p < o ==> !RoomAt(slots, p, n)
    ensures FirstRoom(slots, n) == o
  {
    hide RoomFrom;
    assert HasRoom(slots, n);
    var f := FirstRoom(slots, n);
    assert RoomAt(slots, f, n);
  }

  /** With a run of fewer than `n` free slots up to slot `k`, and a slot in use before it, no room ends here. */
  lemma NoRoomEnds(slots: seq<Slot>, k: nat, run: nat, n: nat)
    requires run < n && run <= k <= |slots| && FreeRun(slots, k - run, run)
    ensures forall o: nat :: o + n == k ==> !RoomAt(slots, o, n)
  {
  }

  lemma RunIsRoom(slots: seq<Slot>, o: nat, n: nat)
    requires FreeRun(slots, o, n)
    ensures HasRoom(slots, n) && RoomAt(slots, o, n)
  {
    assert RoomAt(slots, o, n);
  }

  /** Where the first room is does not change by a cluster of zeros. */
  lemma FirstRoomStays(before: seq<byte>, size: nat, n: nat)
    requires |before| % ENTRY_SIZE == 0 && n > 0 && HasRoom(SlotsOf(before), n)
    ensures FirstRoom(SlotsOf(before + Zeros(size)), n) == FirstRoom(SlotsOf(before), n)
  {
    hide SlotsOf, FirstRoom, HasRoom;
    SlotsOfPadded(before, size);
    var a, b, at := SlotsOf(before), SlotsOf(before + Zeros(size)), FirstRoom(SlotsOf(before), n);
    assert RoomAt(b, at, n);
    forall p: nat | p < at ensures !RoomAt(b, p, n) {
      assert !RoomAt(a, p, n);
    }
    FirstRoomIs(b, n, at);
  }

  /** A cluster of zeros adds room, and takes none. */
  lemma RoomStays(before: seq<byte>, size: nat, n: nat)
    requires |before| % ENTRY_SIZE == 0 && HasRoom(SlotsOf(before), n)
    ensures HasRoom(SlotsOf(before + Zeros(size)), n)
  {
    hide SlotsOf;
    SlotsOfPadded(before, size);
    var o: nat :| RoomAt(SlotsOf(before), o, n);
    assert RoomAt(SlotsOf(before + Zeros(size)), o, n);
  }

  /** In a directory grown by a cluster the one place for a run is behind the last slot in use. */
  lemma RoomAtEnd(before: seq<byte>, size: nat, offset: nat, n: nat)
    requires |before| % ENTRY_SIZE == 0 && GrownRun(before, before + Zeros(size), offset, n) && !HasRoom(SlotsOf(before), n)
    ensures HasRoom(SlotsOf(before + Zeros(size)), n) <==> offset / ENTRY_SIZE + n <= |SlotsOf(before + Zeros(size))|
    ensures n > 0 && HasRoom(SlotsOf(before + Zeros(size)), n) ==> FirstRoom(SlotsOf(before + Zeros(size)), n) == offset / ENTRY_SIZE
  {
    hide SlotsOf;
    SlotsOfPadded(before, size);
    var a, b, at := SlotsOf(before), SlotsOf(before + Zeros(size)), offset / ENTRY_SIZE;
    if at + n <= |b| {
      assert RoomAt(b, at, n);
    }
    forall o: nat | o < at ensures !RoomAt(b, o, n) {
      assert !IsFree(b[at - 1]);
      assert RoomAt(b, o, n) ==> RoomAt(a, o, n);
    }
    if n > 0 && at + n <= |b| {
      FirstRoomIs(b, n, at);
    }
  }

  /** In `data`, which is `old` with zeros appended, the slots from `offset` on are free; `old` has too few of them. */
  ghost predicate GrownRun(before: seq<byte>, data: seq<byte>, offset: nat, slotsNeeded: nat) {
    && offset % ENTRY_SIZE == 0
    && offset / ENTRY_SIZE <= |SlotsOf(before)| <= |SlotsOf(data)|
    && |SlotsOf(before)| - offset / ENTRY_SIZE < slotsNeeded
    && FreeRun(SlotsOf(before), offset / ENTRY_SIZE, |SlotsOf(before)| - offset / ENTRY_SIZE)
    && FreeRun(SlotsOf(data), offset / ENTRY_SIZE, |SlotsOf(data)| - offset / ENTRY_SIZE)
  }

  lemma GrownRunHolds(data: seq<byte>, n: nat, offset: nat, free: nat, slotsNeeded: nat)
    requires |data| % ENTRY_SIZE == 0 && free < slotsNeeded && free <= |SlotsOf(data)|
    requires FreeRun(SlotsOf(data), |SlotsOf(data)| - free, free)
    requires offset == (|SlotsOf(data)| - free) * ENTRY_SIZE
    ensures GrownRun(data, data + Zeros(n), offset, slotsNeeded)
  {
    SlotsOfPadded(data, n);
  }

  lemma SlotCount(data: seq<byte>)
    ensures |SlotsOf(data)| == |data| / ENTRY_SIZE
  {
  }

  /** The first `n` slots of a new entry's group are in place at `o`, all other slots are as they were. */
  ghost predicate PartPlaced(a: seq<Slot>, b: seq<Slot>, o: nat, name: string, short: ShortDirEntry, n: nat) {
    AgreeOutside(a, b, o, o + n) && HasGroup(b, o, name, short, n)
  }

  lemma PartPlacedNext(a: seq<Slot>, b: seq<Slot>, o: nat, name: string, short: ShortDirEntry, n: nat)
    requires PartPlaced(a, b, o, name, short, n) && n < SlotsNeeded(name) && o + n < |a|
    ensures PartPlaced(a, b[o + n := GroupSlot(name, short, n)], o, name, short, n + 1)
  {
    hide Group, GroupSlot, SlotsNeeded;
    GroupNext(name, short, n);
  }

  lemma GroupNext(name: string, short: ShortDirEntry, n: nat)
    requires n < SlotsNeeded(name)
    ensures Group(name, short)[n] == GroupSlot(name, short, n)
  {
    hide GroupSlot, LfnsFor;
  }

  /** `data` is `base` with the slots of the new entry placed at `o`, where there was room. */
  ghost predicate AddedTo(base: seq<byte>, data: seq<byte>, o: nat, name: string, short: ShortDirEntry) {
    && |data| == |base|
    && FreeRun(SlotsOf(base), o, SlotsNeeded(name))
    && Placed(SlotsOf(base), SlotsOf(data), o, name, short)
  }

  /** A run found in place fits; one at the end fits when one more cluster is room enough. */
  lemma RunFits(before: seq<byte>, data: seq<byte>, offset: nat, slotsNeeded: nat, size: nat, grown: bool)
    requires |before| % ENTRY_SIZE == 0 && offset % ENTRY_SIZE == 0
    requires !grown ==> data == before && FreeRun(SlotsOf(data), offset / ENTRY_SIZE, slotsNeeded)
    requires grown ==> data == before + Zeros(size) && GrownRun(before, data, offset, slotsNeeded)
    ensures offset + slotsNeeded * ENTRY_SIZE <= |data| ==> FreeRun(SlotsOf(data), offset / ENTRY_SIZE, slotsNeeded)
    ensures offset + slotsNeeded * ENTRY_SIZE > |data| ==> grown && slotsNeeded * ENTRY_SIZE > size
  {
    SlotCount(before);
    SlotCount(data);
  }

  /** The group does not fit exactly when one more cluster still leaves no room. */
  lemma FitsExactly(before: seq<byte>, data: seq<byte>, offset: nat, slotsNeeded: nat, size: nat, grown: bool)
    requires |before| % ENTRY_SIZE == 0 && offset % ENTRY_SIZE == 0
    requires !grown ==> data == before && FreeRun(SlotsOf(data), offset / ENTRY_SIZE, slotsNeeded)
    requires grown ==> data == before + Zeros(size) && GrownRun(before, data, offset, slotsNeeded)
    requires grown ==> !HasRoom(SlotsOf(before), slotsNeeded)
    requires !grown ==> offset / ENTRY_SIZE == FirstRoom(SlotsOf(before), slotsNeeded)
    ensures offset + slotsNeeded * ENTRY_SIZE <= |data| <==> HasRoom(SlotsOf(before + Zeros(size)), slotsNeeded)
    ensures slotsNeeded > 0 && HasRoom(SlotsOf(before + Zeros(size)), slotsNeeded) ==>
      offset / ENTRY_SIZE == FirstRoom(SlotsOf(before + Zeros(size)), slotsNeeded)
  {
    hide SlotsOf, HasRoom, FirstRoom;
    SlotCount(before);
    SlotCount(data);
    if grown {
      RoomAtEnd(before, size, offset, slotsNeeded);
    } else {
      RunIsRoom(SlotsOf(before), offset / ENTRY_SIZE, slotsNeeded);
      RoomStays(before, size, slotsNeeded);
      if slotsNeeded > 0 { FirstRoomStays(before, size, slotsNeeded); }
    }
  }

  /** A directory with all slots in use and a name that needs more than a cluster: no room in it, nor in a cluster more. */
  lemma LongNameNoRoom(before: seq<byte>, size: nat, n: nat)
    requires |before| % ENTRY_SIZE == 0 && n * ENTRY_SIZE > size && size % ENTRY_SIZE == 0
    requires forall i :: 0 <= i < |SlotsOf(before)| ==> !IsFree(SlotsOf(before)[i])
    ensures !HasRoom(SlotsOf(before + Zeros(size)), n)
  {
    hide SlotsOf;
    SlotsOfPadded(before, size);
    SlotCount(before);
    SlotCount(before + Zeros(size));
    forall o: nat ensures !RoomAt(SlotsOf(before + Zeros(size)), o, n) {
      if o < |SlotsOf(before)| && o + n <= |SlotsOf(before + Zeros(size))| {
        assert !IsFree(SlotsOf(before + Zeros(size))[o]);
      }
    }
  }

  lemma LongNameSlots(name: string)
    requires |name| == 208
    ensures SlotsNeeded(name) == 17
  {
  }
}
