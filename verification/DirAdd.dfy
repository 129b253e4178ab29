/** What writing a new entry into free slots does to a directory's listing and to its shape. */
module DirAdd {
  import opened Bytes
  import opened ShortNames
  import opened DirEntries
  import opened DirScan
  import opened DirEdit

  const ATTR_ARCHIVE: byte := 0x20

  /** The fragments stored for a name: none when its 8.3 form will do. */
  function LfnsFor(name: string): seq<LfnEntry> {
    if NeedsLfn(name) then LfnEntriesOf(name, ChecksumOf(ShortNameOf(name))) else []
  }

  function SlotsNeeded(name: string): (n: nat)
    ensures n >= 1
  {
    |LfnsFor(name)| + 1
  }

  /** The name a listing shows for an entry stored under `name`. */
  function StoredName(name: string): string {
    if NeedsLfn(name) then Assembled(LfnsFor(name)) else ShownName(ShortNameOf(name))
  }

  /** The names that are found again under the spelling they were stored with. */
  predicate NameKept(name: string) {
    if NeedsLfn(name) then AllRepresentable(name) else DotsOk(name)
  }

  /** A stored name is shown as itself, or in lower case when it has an 8.3 form only, exactly when it is kept. */
  lemma StoredNameKept(name: string)
    requires name != ""
    ensures StoredName(name) == (if NeedsLfn(name) then name else Lower(name)) <==> NameKept(name)
  {
    if NeedsLfn(name) {
      LfnNameRoundTrip(name, ChecksumOf(ShortNameOf(name)));
    } else {
      ShortNameRoundTrip(name);
    }
  }

  lemma LowerTwice(s: string)
    ensures Lower(Lower(s)) == Lower(s)
  {
  }

  /** A name is found again, by any spelling that differs in case only, exactly when it is kept. */
  lemma KeptNameMatches(name: string)
    requires name != ""
    ensures Lower(StoredName(name)) == Lower(name) <==> NameKept(name)
    ensures SameUpToCase(StoredName(name), name) <==> NameKept(name)
  {
    MatchExactly(StoredName(name), name);
    hide Assembled, ShownName, ShortNameOf, NeedsLfn, LfnsFor, DotsOk, AllRepresentable;
    StoredNameKept(name);
    LowerTwice(name);
    if NeedsLfn(name) {
      AssembledFits(LfnsFor(name));
      if Lower(StoredName(name)) == Lower(name) {
        LowerFits(StoredName(name), name);
      }
    } else {
      ShownNameIsLower(ShortNameOf(name));
    }
  }

  /** Two dots in a name that gets no long name: it is not found again. */
  lemma TwoDotsNotFound()
    ensures !NeedsLfn("A.B.C") && Lower(StoredName("A.B.C")) != Lower("A.B.C")
  {
    hide StoredName, NeedsLfn, Lower, DotsOk, NameKept;
    TwoDotsPlain();
    KeptNameMatches("A.B.C");
    NotKept("A.B.C");
  }

  /** A character beyond 16 bits makes a name need a long name, and not be found again. */
  lemma WideCharacterNotFound()
    ensures NeedsLfn("\U{1F600}") && Lower(StoredName("\U{1F600}")) != Lower("\U{1F600}")
  {
    var name := "\U{1F600}";
    assert name[0] as int == 0x1F600 && !IsUpperAlnum(name[0]);
    assert !Representable(name[0]);
    hide StoredName, Lower, LfnsFor;
    KeptNameMatches(name);
  }

  lemma NotKept(name: string)
    ensures !NeedsLfn(name) && !DotsOk(name) ==> !NameKept(name)
  {
  }

  function GroupSlot(name: string, short: ShortDirEntry, i: nat): Slot {
    if i < |LfnsFor(name)| then LfnsFor(name)[i].Serialize() else short.Serialize()
  }

  /** The slots of a new entry: its fragments, then its short entry. */
  function Group(name: string, short: ShortDirEntry): (g: seq<Slot>)
    ensures |g| == SlotsNeeded(name)
  {
    seq(SlotsNeeded(name), i requires 0 <= i < SlotsNeeded(name) => GroupSlot(name, short, i))
  }

  /** A new file or directory entry for `name`. */
  ghost predicate NewEntryFor(name: string, short: ShortDirEntry) {
    && name != "" && SlotsNeeded(name) <= 65
    && short.name == ShortNameOf(name) && (short.attr == ATTR_DIRECTORY || short.attr == ATTR_ARCHIVE)
  }

  lemma ShownHasNoDot(field: seq<byte>)
    requires forall i :: 0 <= i < |field| ==> field[i] != '.' as int
    ensures '.' !in Shown(field)
  {
  }

  /** No 8.3 name made from a long one reads as "." or "..". */
  lemma NeverDots(name: string)
    ensures ShownName(ShortNameOf(name)) != "." && ShownName(ShortNameOf(name)) != ".."
  {
    var n := ShortNameOf(name);
    forall i: nat | i < 11 ensures n[i] != '.' as int {
      assert n[i] == if i < 8 then FieldByte(Base(Upper(name)), i) else FieldByte(Ext(Upper(name)), i - 8);
    }
    assert forall i :: 0 <= i < 3 ==> n[8..][i] == n[8 + i];
    ShownHasNoDot(n[..8]);
    ShownHasNoDot(n[8..]);
    var shown := ShownName(n);
    if Shown(n[8..]) != "" {
      assert shown[|shown| - 1] == Shown(n[8..])[|Shown(n[8..])| - 1];
      assert shown[|shown| - 1] in Shown(n[8..]);
    } else if shown != "" {
      assert shown[0] in Shown(n[..8]);
    }
  }

  lemma ShortSlotListed(name: string, short: ShortDirEntry)
    requires NewEntryFor(name, short)
    ensures IsListed(short.Serialize()) && ParseShort(short.Serialize()) == short
  {
    hide ParseShort, ShortNameOf, ShownName, ShortDirEntry.Serialize;
    ShortRoundTrip(short);
    ShortNameFirstByte(name);
    NeverDots(name);
  }

  lemma FragmentPlain(name: string, checksum: byte, i: nat)
    requires i < NumFragments(name)
    ensures var e := LfnEntriesOf(name, checksum)[i]; e.entryType == 0 && e.cluster == 0
  {
    assert LfnEntriesOf(name, checksum)[i] == Fragment(name, checksum, NumFragments(name) - 1 - i);
  }

  lemma FragmentSlot(name: string, short: ShortDirEntry, i: nat)
    requires NewEntryFor(name, short) && i < |LfnsFor(name)|
    ensures var d := Group(name, short)[i];
      && IsFragment(d) && ParseLfn(d) == LfnsFor(name)[i] && (ParseLfn(d).IsLast() <==> i == 0)
  {
    hide ParseLfn, LfnEntry.Serialize, ChecksumOf, ShortNameOf, Fragment, NeedsLfn;
    var checksum := ChecksumOf(ShortNameOf(name));
    FragmentOrders(name, checksum, i);
    FragmentPlain(name, checksum, i);
    var e := LfnsFor(name)[i];
    LfnRoundTrip(e);
    assert Group(name, short)[i] == e.Serialize();
  }

  /** `b` holds the first `n` slots of the new entry's group at `o`. */
  ghost predicate HasGroup(b: seq<Slot>, o: nat, name: string, short: ShortDirEntry, n: nat) {
    && n <= SlotsNeeded(name) && o + n <= |b|
    && forall i :: 0 <= i < n ==> b[o + i] == Group(name, short)[i]
  }

  lemma {:induction false} FragmentsScan(b: seq<Slot>, o: nat, name: string, short: ShortDirEntry, n: nat, i: nat)
    requires NewEntryFor(name, short) && HasGroup(b, o, name, short, n) && i <= n && i <= |LfnsFor(name)|
    requires !Before(b, o).ended
    ensures i > 0 ==> Before(b, o + i) == Before(b, o).(parts := LfnsFor(name)[..i], start := o * ENTRY_SIZE)
  {
    hide Scan, Before, ScanStep, ParseLfn, LfnsFor, Group, NewEntryFor, IsFragment;
    if i > 0 {
      FragmentsScan(b, o, name, short, n, i - 1);
      FragmentSlot(name, short, i - 1);
      BeforeNext(b, o + i - 1);
      FragmentStep(Before(b, o + i - 1), b[o + i - 1], o + i - 1);
      assert LfnsFor(name)[..i] == LfnsFor(name)[..i - 1] + [LfnsFor(name)[i - 1]];
    }
  }

  /** The entry that a scan in state `s` at slot `o` makes of the new group. */
  function AddedEntry(s: ScanState, name: string, short: ShortDirEntry, o: nat): FatDirEntry {
    if NeedsLfn(name) then FatDirEntry(StoredName(name), short, o * ENTRY_SIZE, SlotsNeeded(name))
    else EntryHere(s, short.Serialize(), o)
  }

  lemma GroupScan(b: seq<Slot>, o: nat, name: string, short: ShortDirEntry)
    requires NewEntryFor(name, short) && HasGroup(b, o, name, short, SlotsNeeded(name)) && !Before(b, o).ended
    ensures var t := Before(b, o + SlotsNeeded(name));
      t.entries == Before(b, o).entries + [AddedEntry(Before(b, o), name, short, o)] && t.parts == [] && !t.ended
  {
    hide Scan, Before, ParseLfn, ParseShort, NeedsLfn, ShownName, ChecksumOf, ShortNameOf;
    var lfns := LfnsFor(name);
    FragmentsScan(b, o, name, short, SlotsNeeded(name), |lfns|);
    ShortSlotListed(name, short);
    assert b[o + |lfns|] == Group(name, short)[|lfns|] == short.Serialize();
    BeforeNext(b, o + |lfns|);
    assert lfns[..|lfns|] == lfns;
  }

  // ---- adding -----------------------------------------------------------------------------

  /** A first run of `n` free slots at `o`: the slot before it is in use. */
  ghost predicate FreeRun(a: seq<Slot>, o: nat, n: nat) {
    && o + n <= |a|
    && (forall i :: o <= i < o + n ==> IsFree(a[i]))
    && (o > 0 ==> !IsFree(a[o - 1]))
  }

  lemma RunNotEnded(a: seq<Slot>, o: nat)
    requires Shaped(a) && o <= |a| && (o > 0 ==> !IsFree(a[o - 1]))
    ensures !Before(a, o).ended
  {
    if o == 0 { BeforeAll(a); } else { UsedNotEnded(a, o - 1); }
  }

  /** `b` is `a` with the new entry's group written at `o`. */
  ghost predicate Placed(a: seq<Slot>, b: seq<Slot>, o: nat, name: string, short: ShortDirEntry) {
    && AgreeOutside(a, b, o, o + SlotsNeeded(name))
    && HasGroup(b, o, name, short, SlotsNeeded(name))
  }

  lemma PlacedStates(a: seq<Slot>, b: seq<Slot>, o: nat, name: string, short: ShortDirEntry)
    requires Shaped(a) && FreeRun(a, o, SlotsNeeded(name)) && NewEntryFor(name, short) && Placed(a, b, o, name, short)
    ensures var m := o + SlotsNeeded(name);
      && Before(b, o) == Before(a, o) && !Before(a, o).ended
      && Before(a, m).entries == Before(a, o).entries
      && Before(b, m).entries == Before(a, o).entries + [AddedEntry(Before(a, o), name, short, o)]
      && Before(b, m).parts == [] && !Before(b, m).ended
      && (!Before(a, m).ended ==> Before(a, m).parts == [])
  {
    hide Scan, Before, Shaped, SlotsNeeded, Group, AddedEntry, NewEntryFor;
    RunNotEnded(a, o);
    SameBefore(a, b, o, o + SlotsNeeded(name), o);
    FreeListsNothing(a, o, o + SlotsNeeded(name));
    GroupScan(b, o, name, short);
  }

  /** After the end marker everything is free. */
  lemma EndedAllFree(a: seq<Slot>, m: nat)
    requires Shaped(a) && m <= |a| && Before(a, m).ended
    ensures forall i :: m <= i < |a| ==> IsFree(a[i])
    ensures Listing(a) == Before(a, m).entries
  {
    EntriesGrow(a, m, |a|);
    BeforeAll(a);
    forall i | m <= i < |a| ensures IsFree(a[i]) {
      EntriesGrow(a, m, i);
      assert SlotOk(a, i);
    }
  }

  lemma PlacedGoesOn(a: seq<Slot>, b: seq<Slot>, o: nat, name: string, short: ShortDirEntry)
    requires Shaped(a) && FreeRun(a, o, SlotsNeeded(name)) && NewEntryFor(name, short) && Placed(a, b, o, name, short)
    ensures GoesOn(a, b, o + SlotsNeeded(name))
  {
    hide Scan, Before, Shaped, LfnsFor, Group, AddedEntry, NewEntryFor, SlotsNeeded, FreeRun, HasGroup;
    PlacedStates(a, b, o, name, short);
    var m := o + SlotsNeeded(name);
    if Before(a, m).ended {
      EndedAllFree(a, m);
    }
  }

  lemma AddAtEnd(a: seq<Slot>, b: seq<Slot>, o: nat, name: string, short: ShortDirEntry)
    requires Shaped(a) && FreeRun(a, o, SlotsNeeded(name)) && NewEntryFor(name, short) && Placed(a, b, o, name, short)
    requires Before(a, o + SlotsNeeded(name)).ended
    ensures Listing(a) == Before(a, o).entries
    ensures Listing(b) == Before(a, o).entries + [AddedEntry(Before(a, o), name, short, o)]
  {
    var m := o + SlotsNeeded(name);
    EndedAllFree(a, m);
    PlacedStates(a, b, o, name, short);
    BeforeAll(b);
    hide Scan, Before, Shaped, FreeRun, HasGroup, AddedEntry, NewEntryFor, SlotsNeeded;
    FreeListsNothing(b, m, |b|);
  }

  lemma AddInside(a: seq<Slot>, b: seq<Slot>, o: nat, name: string, short: ShortDirEntry)
    requires Shaped(a) && FreeRun(a, o, SlotsNeeded(name)) && NewEntryFor(name, short) && Placed(a, b, o, name, short)
    requires !Before(a, o + SlotsNeeded(name)).ended
    ensures |Before(a, o).entries| <= |Listing(a)|
    ensures Listing(b) == Before(a, o).entries + [AddedEntry(Before(a, o), name, short, o)]
                          + Listing(a)[|Before(a, o).entries|..]
  {
    hide Scan, Before, LfnsFor, Group, AddedEntry, NewEntryFor, Shaped, SlotsNeeded, Listing, FreeRun, HasGroup;
    PlacedStates(a, b, o, name, short);
    ListingOf(a, b, o + SlotsNeeded(name), Before(a, o).entries);
  }

  /**
    Adding an entry inserts exactly one entry into the listing, wherever the free run is: in
    deleted slots, across the end marker or in a cluster just added.
   */
  lemma AddListing(a: seq<Slot>, b: seq<Slot>, o: nat, name: string, short: ShortDirEntry)
    requires Shaped(a) && FreeRun(a, o, SlotsNeeded(name)) && NewEntryFor(name, short) && Placed(a, b, o, name, short)
    ensures var j := |Before(a, o).entries|;
      j <= |Listing(a)| && Listing(b) == Listing(a)[..j] + [AddedEntry(Before(a, o), name, short, o)] + Listing(a)[j..]
  {
    EntriesGrow(a, o, |a|);
    BeforeAll(a);
    hide Scan, Before, Shaped, LfnsFor, Group, AddedEntry, NewEntryFor;
    if Before(a, o + SlotsNeeded(name)).ended {
      AddAtEnd(a, b, o, name, short);
    } else {
      AddInside(a, b, o, name, short);
    }
    var done := Before(a, o).entries;
    assert Listing(a)[..|done|] == done;
  }

  /** The slots of the group: fragments of which the first only is marked last, then a listed short entry. */
  lemma GroupSlotKind(b: seq<Slot>, o: nat, name: string, short: ShortDirEntry, n: nat, i: nat)
    requires NewEntryFor(name, short) && HasGroup(b, o, name, short, n)
    requires o <= i < o + n
    ensures if i - o < |LfnsFor(name)| then IsFragment(b[i]) && (ParseLfn(b[i]).IsLast() <==> i == o) else IsListed(b[i])
  {
    hide Scan, Before, NewEntryFor, LfnsFor;
    assert b[i] == Group(name, short)[i - o] == GroupSlot(name, short, i - o);
    if i - o < |LfnsFor(name)| {
      FragmentSlot(name, short, i - o);
    } else {
      ShortSlotListed(name, short);
    }
  }

  /** Inside the group fragments are pending, and each slot continues them. */
  lemma GroupSlotAt(b: seq<Slot>, o: nat, name: string, short: ShortDirEntry, n: nat, i: nat)
    requires NewEntryFor(name, short) && HasGroup(b, o, name, short, n) && !Before(b, o).ended
    requires o <= i < o + n
    ensures !Before(b, i).ended && (i > o ==> Before(b, i).parts != [])
  {
    hide Scan, Before, NewEntryFor, LfnsFor;
    FragmentsScan(b, o, name, short, n, i - o);
  }

  lemma GroupShaped(b: seq<Slot>, o: nat, name: string, short: ShortDirEntry, n: nat)
    requires NewEntryFor(name, short) && HasGroup(b, o, name, short, n) && !Before(b, o).ended
    ensures ShapedPart(b, o, o + n)
    ensures Before(b, o).parts == [] ==> TidyPart(b, o, o + n)
  {
    hide Scan, Before, ParseLfn, ParseShort, ShownName, NewEntryFor, LfnsFor, Group;
    forall i: nat | o <= i < o + n
      ensures SlotOk(b, i) && (i > o ==> Continues(b[i]))
    {
      GroupSlotAt(b, o, name, short, n, i);
      GroupSlotKind(b, o, name, short, n, i);
    }
  }

  /** Adding keeps the shape. */
  lemma AddShape(a: seq<Slot>, b: seq<Slot>, o: nat, name: string, short: ShortDirEntry)
    requires Shaped(a) && FreeRun(a, o, SlotsNeeded(name)) && NewEntryFor(name, short) && Placed(a, b, o, name, short)
    ensures Shaped(b)
  {
    hide Scan, Before, GoesOn, Shaped, ShapedPart, NewEntryFor, SlotsNeeded, FreeRun, HasGroup, AddedEntry;
    PlacedStates(a, b, o, name, short);
    PlacedGoesOn(a, b, o, name, short);
    GroupShaped(b, o, name, short, SlotsNeeded(name));
    ShapeKept(a, b, o, o + SlotsNeeded(name));
  }

  lemma AddTidyPart(a: seq<Slot>, b: seq<Slot>, o: nat, name: string, short: ShortDirEntry)
    requires Tidy(a) && FreeRun(a, o, SlotsNeeded(name)) && NewEntryFor(name, short) && Placed(a, b, o, name, short)
    ensures TidyPart(b, o, o + SlotsNeeded(name))
  {
    hide Scan, Before, Tidy, TidyPart, ShapedPart, NewEntryFor, SlotsNeeded, FreeRun, HasGroup;
    TidyAtFree(a, o, SlotsNeeded(name));
    SameBefore(a, b, o, o + SlotsNeeded(name), o);
    GroupShaped(b, o, name, short, SlotsNeeded(name));
  }

  lemma AddTidy(a: seq<Slot>, b: seq<Slot>, o: nat, name: string, short: ShortDirEntry)
    requires Tidy(a) && FreeRun(a, o, SlotsNeeded(name)) && NewEntryFor(name, short) && Placed(a, b, o, name, short)
    ensures Tidy(b)
  {
    hide Scan, Before, GoesOn, Shaped, Tidy, TidyPart, NewEntryFor, SlotsNeeded, FreeRun, HasGroup;
    TidyIsShaped(a);
    AddShape(a, b, o, name, short);
    PlacedGoesOn(a, b, o, name, short);
    AddTidyPart(a, b, o, name, short);
    TidyKept(a, b, o, o + SlotsNeeded(name));
  }

  lemma TidyIsShaped(a: seq<Slot>)
    requires Tidy(a)
    ensures Shaped(a)
  {
  }

  lemma TidyAtFree(a: seq<Slot>, o: nat, n: nat)
    requires Tidy(a) && FreeRun(a, o, n) && n > 0
    ensures !Before(a, o).ended && Before(a, o).parts == []
  {
    RunNotEnded(a, o);
  }

  /** In a tidy directory the new entry is listed under its stored name, and occupies its group's slots. */
  lemma AddedEntryIs(a: seq<Slot>, o: nat, name: string, short: ShortDirEntry)
    requires Tidy(a) && FreeRun(a, o, SlotsNeeded(name)) && NewEntryFor(name, short)
    ensures AddedEntry(Before(a, o), name, short, o) ==
      FatDirEntry(StoredName(name), short, o * ENTRY_SIZE, SlotsNeeded(name))
  {
    TidyAtFree(a, o, SlotsNeeded(name));
    ShortSlotListed(name, short);
  }

  lemma AddedEntryShort(s: ScanState, name: string, short: ShortDirEntry, o: nat)
    requires NewEntryFor(name, short)
    ensures AddedEntry(s, name, short, o).short == short
  {
    ShortSlotListed(name, short);
  }

  // ---- a directory grown by zeros, and an addition cut off at the end ---------------------

  /** Zero slots appended to a directory list nothing and keep its shape. */
  lemma PadListing(a: seq<Slot>, b: seq<Slot>)
    requires |a| <= |b| && (forall i :: 0 <= i < |a| ==> b[i] == a[i]) && (forall i :: |a| <= i < |b| ==> b[i][0] == 0x00)
    requires Shaped(a)
    ensures Listing(b) == Listing(a) && Shaped(b) && (Tidy(a) ==> Tidy(b))
  {
    forall i: nat | i <= |a| ensures Before(b, i) == Before(a, i) {
      assert b[..i] == a[..i];
    }
    forall i: nat | i < |b| ensures SlotOk(b, i) {
      if i < |a| { assert SlotOk(a, i); }
    }
    BeforeAll(a);
    BeforeAll(b);
    hide Scan, Before, ParseLfn, IsListed;
    FreeListsNothing(b, |a|, |b|);
    if Tidy(a) {
      PadTidy(a, b);
    }
  }

  lemma {:induction false} PadEnded(b: seq<Slot>, n: nat, i: nat)
    requires n < i <= |b| && forall k :: n <= k < |b| ==> b[k][0] == 0x00
    ensures Before(b, i).ended
  {
    EndedAt(b, i);
  }

  lemma PadTidy(a: seq<Slot>, b: seq<Slot>)
    requires |a| <= |b| && (forall i :: 0 <= i < |a| ==> b[i] == a[i]) && (forall i :: |a| <= i < |b| ==> b[i][0] == 0x00)
    requires Tidy(a) && Shaped(b) && forall i: nat :: i <= |a| ==> Before(b, i) == Before(a, i)
    ensures Tidy(b)
  {
    BeforeAll(a);
    BeforeAll(b);
    hide Scan, Before, ParseLfn, IsListed;
    forall i: nat | |a| < i <= |b| ensures Before(b, i).ended {
      PadEnded(b, |a|, i);
    }
  }

  lemma TruncatedStart(a: seq<Slot>, b: seq<Slot>, o: nat)
    requires Shaped(a) && o <= |a| == |b| && (o > 0 ==> !IsFree(a[o - 1])) && forall i :: 0 <= i < o ==> b[i] == a[i]
    ensures !Before(a, o).ended && forall i: nat :: i <= o ==> Before(b, i) == Before(a, i)
  {
    RunNotEnded(a, o);
    forall i: nat | i <= o ensures Before(b, i) == Before(a, i) {
      assert b[..i] == a[..i];
    }
  }

  lemma ShapeByParts(a: seq<Slot>, b: seq<Slot>, o: nat)
    requires Shaped(a) && o <= |a| == |b| && ShapedPart(b, o, |b|)
    requires (forall i :: 0 <= i < o ==> b[i] == a[i]) && forall i: nat :: i <= o ==> Before(b, i) == Before(a, i)
    ensures Shaped(b)
  {
    hide Scan, Before, ParseLfn;
    forall i: nat | i < |b| ensures SlotOk(b, i) {
      assert SlotOk(a, i);
    }
  }

  /** Fragments that reach the end of the directory without their short entry list nothing. */
  lemma AddTruncated(a: seq<Slot>, b: seq<Slot>, o: nat, name: string, short: ShortDirEntry, n: nat)
    requires Shaped(a) && o + n == |a| == |b| && FreeRun(a, o, n) && NewEntryFor(name, short)
    requires (forall i :: 0 <= i < o ==> b[i] == a[i]) && n < SlotsNeeded(name) && HasGroup(b, o, name, short, n)
    ensures Listing(b) == Listing(a) && Shaped(b)
  {
    hide Scan, Before, ParseLfn, LfnsFor, NewEntryFor, Group, ShapedPart, Shaped, SlotOk;
    TruncatedStart(a, b, o);
    BeforeAll(a);
    BeforeAll(b);
    FreeListsNothing(a, o, |a|);
    FragmentsScan(b, o, name, short, n, n);
    GroupShaped(b, o, name, short, n);
    ShapeByParts(a, b, o);
  }
}
