/** What rewriting, deleting and adding slots does to a directory's listing and to its shape. */
module DirEdit {
  import opened ShortNames
  import opened DirEntries
  import opened DirScan

  /** The slots agree before `o` and from `m` on. */
  ghost predicate AgreeOutside(a: seq<Slot>, b: seq<Slot>, o: nat, m: nat) {
    && |a| == |b| && o <= m <= |a|
    && (forall i :: 0 <= i < o ==> b[i] == a[i])
    && (forall i :: m <= i < |a| ==> b[i] == a[i])
  }

  lemma SameBefore(a: seq<Slot>, b: seq<Slot>, o: nat, m: nat, i: nat)
    requires AgreeOutside(a, b, o, m) && i <= o
    ensures Before(b, i) == Before(a, i)
  {
    assert b[..i] == a[..i];
  }

  /** From `m` on, either the scans go on alike, or there is nothing left to list. */
  ghost predicate GoesOn(a: seq<Slot>, b: seq<Slot>, m: nat) {
    && m <= |a| == |b|
    && (SameMode(Before(a, m), Before(b, m)) || (Before(b, m).parts == [] && forall i :: m <= i < |b| ==> IsFree(b[i])))
  }

  /** The slots between `o` and `m` are in shape. */
  ghost predicate ShapedPart(b: seq<Slot>, o: nat, m: nat) {
    forall i: nat :: o <= i < m && i < |b| ==> SlotOk(b, i)
  }

  /** Fragments pending between `o` and `m` are continued or closed. */
  ghost predicate TidyPart(b: seq<Slot>, o: nat, m: nat) {
    forall i: nat :: o <= i < m && i < |b| && !Before(b, i).ended && Before(b, i).parts != [] ==> Continues(b[i])
  }

  lemma AfterRegion(a: seq<Slot>, b: seq<Slot>, o: nat, m: nat, i: nat)
    requires AgreeOutside(a, b, o, m) && Shaped(a) && GoesOn(a, b, m) && m <= i <= |b|
    ensures SameMode(Before(a, i), Before(b, i)) || Before(b, i).ended || Before(b, i).parts == []
    ensures i < |b| && !IsFree(b[i]) ==> SameMode(Before(a, i), Before(b, i))
  {
    if SameMode(Before(a, m), Before(b, m)) {
      var _ := RestSame(a, b, m, i);
    } else {
      FreeListsNothing(b, m, i);
    }
  }

  /** An edit between `o` and `m` keeps the shape. */
  lemma ShapeKept(a: seq<Slot>, b: seq<Slot>, o: nat, m: nat)
    requires AgreeOutside(a, b, o, m) && Shaped(a) && GoesOn(a, b, m) && ShapedPart(b, o, m)
    ensures Shaped(b)
  {
    forall i: nat | i < |b| ensures SlotOk(b, i) {
      assert SlotOk(a, i);
      if i < o {
        SameBefore(a, b, o, m, i);
      } else if i >= m {
        AfterRegion(a, b, o, m, i);
      }
    }
  }

  lemma TidyKept(a: seq<Slot>, b: seq<Slot>, o: nat, m: nat)
    requires AgreeOutside(a, b, o, m) && Tidy(a) && GoesOn(a, b, m) && Shaped(b) && TidyPart(b, o, m)
    ensures Tidy(b)
  {
    forall i: nat | i < |b| && !Before(b, i).ended && Before(b, i).parts != [] ensures Continues(b[i]) {
      if i < o {
        SameBefore(a, b, o, m, i);
      } else if i >= m {
        AfterRegion(a, b, o, m, i);
      }
    }
    AfterRegion(a, b, o, m, |b|);
    BeforeAll(a);
    BeforeAll(b);
  }

  /** A scan goes past slots other than the end marker. */
  lemma {:induction false} NoEndBetween(slots: seq<Slot>, o: nat, m: nat)
    requires o <= m <= |slots| && !Before(slots, o).ended && forall i :: o <= i < m ==> slots[i][0] != 0x00
    ensures !Before(slots, m).ended
  {
    if o < m {
      NoEndBetween(slots, o, m - 1);
      BeforeNext(slots, m - 1);
    }
  }

  // ---- rewriting a short entry ------------------------------------------------------------

  /** An edit that goes on alike after `m`: the entries before the edit, those it makes, the rest. */
  lemma ListingOf(a: seq<Slot>, b: seq<Slot>, m: nat, done: seq<FatDirEntry>)
    requires |a| == |b| && m <= |a| && Shaped(a) && SameMode(Before(a, m), Before(b, m))
    requires forall k :: m <= k < |a| ==> a[k] == b[k]
    requires done == Before(a, m).entries
    ensures |done| <= |Listing(a)| && Listing(b) == Before(b, m).entries + Listing(a)[|done|..]
  {
    var rest := RestSame(a, b, m, |a|);
    BeforeAll(a);
    BeforeAll(b);
  }

  lemma UpdateScan(slots: seq<Slot>, slots': seq<Slot>, j: nat, o: nat, k: nat, short: ShortDirEntry)
    requires Shaped(slots) && EntryAt(slots, j, o, k) && slots' == slots[k := short.Serialize()]
    requires short.name == ParseShort(slots[k]).name && short.attr == slots[k][11]
    ensures AgreeOutside(slots, slots', k, k + 1) && SameMode(Before(slots, k + 1), Before(slots', k + 1))
    ensures Before(slots', k + 1).entries == Listing(slots)[..j] + [Listing(slots)[j].(short := short)]
    ensures slots'[k][0] == slots[k][0] && IsListed(slots'[k])
  {
    AfterEntry(slots, j, o, k);
    ShortRoundTrip(short);
    SameBefore(slots, slots', k, k + 1, k);
    BeforeNext(slots', k);
    assert ParseShort(slots[k]).name[0] == slots[k][0];
  }

  /** Rewriting an entry with another cluster and size changes those two fields of that entry only. */
  lemma UpdateListing(slots: seq<Slot>, j: nat, o: nat, k: nat, short: ShortDirEntry)
    requires Shaped(slots) && EntryAt(slots, j, o, k)
    requires short.name == ParseShort(slots[k]).name && short.attr == slots[k][11]
    ensures Listing(slots[k := short.Serialize()]) == Listing(slots)[j := Listing(slots)[j].(short := short)]
  {
    var slots' := slots[k := short.Serialize()];
    UpdateScan(slots, slots', j, o, k, short);
    AfterEntry(slots, j, o, k);
    hide *;
    ListingOf(slots, slots', k + 1, Listing(slots)[..j + 1]);
  }

  /** Replacing one listed slot by another in the same mode keeps the shape. */
  lemma OneSlotShape(a: seq<Slot>, b: seq<Slot>, k: nat)
    requires Shaped(a) && k < |a| && AgreeOutside(a, b, k, k + 1) && !IsFree(a[k]) && IsListed(b[k])
    requires SameMode(Before(a, k + 1), Before(b, k + 1))
    ensures Shaped(b) && (Tidy(a) ==> Tidy(b))
  {
    UsedNotEnded(a, k);
    SameBefore(a, b, k, k + 1, k);
    assert SlotOk(b, k);
    hide Scan, Before, IsListed, SameMode, Shaped, SlotOk, Tidy;
    ShapeKept(a, b, k, k + 1);
    if Tidy(a) {
      TidyKept(a, b, k, k + 1);
    }
  }

  lemma UpdateShape(slots: seq<Slot>, j: nat, o: nat, k: nat, short: ShortDirEntry)
    requires Shaped(slots) && EntryAt(slots, j, o, k)
    requires short.name == ParseShort(slots[k]).name && short.attr == slots[k][11]
    ensures Shaped(slots[k := short.Serialize()])
    ensures Tidy(slots) ==> Tidy(slots[k := short.Serialize()])
  {
    hide Scan, Before, ParseLfn, ParseShort, ShownName, Shaped, IsListed, SameMode, ShortDirEntry.Serialize, CameFrom, Tidy;
    var slots' := slots[k := short.Serialize()];
    AfterEntry(slots, j, o, k);
    UpdateScan(slots, slots', j, o, k, short);
    OneSlotShape(slots, slots', k);
  }

  // ---- deleting an entry ------------------------------------------------------------------

  /** The slots `o` up to `m` marked deleted. */
  function Marked(slots: seq<Slot>, o: nat, m: nat): seq<Slot> {
    seq(|slots|, i requires 0 <= i < |slots| => if o <= i < m then slots[i][0 := DELETED] else slots[i])
  }

  lemma RemoveScan(slots: seq<Slot>, slots': seq<Slot>, j: nat, o: nat, k: nat)
    requires Shaped(slots) && EntryAt(slots, j, o, k) && slots' == Marked(slots, o, k + 1)
    ensures AgreeOutside(slots, slots', o, k + 1) && SameMode(Before(slots, k + 1), Before(slots', k + 1))
    ensures Before(slots', k + 1).entries == Listing(slots)[..j]
  {
    hide Scan, Before, CameFrom, ParseLfn, ParseShort, Shaped, IsListed, Begins;
    AfterEntry(slots, j, o, k);
    SameBefore(slots, slots', o, k + 1, o);
    FreeListsNothing(slots', o, k + 1);
    NoEndBetween(slots', o, k + 1);
  }

  /** Deleting the slots of an entry takes that entry out of the listing, and nothing else. */
  lemma RemoveListing(slots: seq<Slot>, j: nat, o: nat, k: nat)
    requires Shaped(slots) && EntryAt(slots, j, o, k)
    ensures Listing(Marked(slots, o, k + 1)) == Listing(slots)[..j] + Listing(slots)[j + 1..]
  {
    var slots' := Marked(slots, o, k + 1);
    RemoveScan(slots, slots', j, o, k);
    AfterEntry(slots, j, o, k);
    hide *;
    ListingOf(slots, slots', k + 1, Listing(slots)[..j + 1]);
  }

  lemma FreePartShaped(b: seq<Slot>, o: nat, m: nat)
    requires o <= m <= |b| && forall i :: o <= i < m ==> IsFree(b[i])
    ensures ShapedPart(b, o, m)
  {
  }

  lemma MarkedFree(slots: seq<Slot>, o: nat, m: nat)
    requires o <= m <= |slots|
    ensures |Marked(slots, o, m)| == |slots| && forall i :: o <= i < m ==> IsFree(Marked(slots, o, m)[i])
  {
  }

  lemma EntryBounds(slots: seq<Slot>, j: nat, o: nat, k: nat)
    requires EntryAt(slots, j, o, k)
    ensures o <= k < |slots| && Begins(slots, o) && !Before(slots, o).ended
  {
  }

  lemma RemoveShape(slots: seq<Slot>, j: nat, o: nat, k: nat)
    requires Shaped(slots) && EntryAt(slots, j, o, k)
    ensures Shaped(Marked(slots, o, k + 1))
  {
    hide Scan, Before, EntryAt, SameMode, Shaped, Marked, ShapedPart;
    var slots' := Marked(slots, o, k + 1);
    EntryBounds(slots, j, o, k);
    MarkedFree(slots, o, k + 1);
    RemoveScan(slots, slots', j, o, k);
    FreePartShaped(slots', o, k + 1);
    ShapeKept(slots, slots', o, k + 1);
  }

  lemma BeginsTidily(slots: seq<Slot>, o: nat)
    requires Tidy(slots) && Begins(slots, o) && !Before(slots, o).ended
    ensures Before(slots, o).parts == []
  {
  }

  lemma FreePartTidy(b: seq<Slot>, o: nat, m: nat)
    requires o <= m <= |b| && Before(b, o).parts == [] && forall i :: o <= i < m ==> IsFree(b[i])
    ensures TidyPart(b, o, m)
  {
    hide Scan, Before, Continues;
    forall i: nat | o <= i < m ensures Before(b, i).ended || Before(b, i).parts == [] {
      FreeListsNothing(b, o, i);
    }
  }

  lemma RemovedPartTidy(slots: seq<Slot>, j: nat, o: nat, k: nat)
    requires Tidy(slots) && EntryAt(slots, j, o, k)
    ensures TidyPart(Marked(slots, o, k + 1), o, k + 1)
  {
    hide Scan, Before, Tidy, Begins, EntryAt, TidyPart;
    EntryBounds(slots, j, o, k);
    BeginsTidily(slots, o);
    var slots' := Marked(slots, o, k + 1);
    MarkedFree(slots, o, k + 1);
    SameBefore(slots, slots', o, k + 1, o);
    FreePartTidy(slots', o, k + 1);
  }

  lemma RemoveTidy(slots: seq<Slot>, j: nat, o: nat, k: nat)
    requires Tidy(slots) && EntryAt(slots, j, o, k)
    ensures Tidy(Marked(slots, o, k + 1))
  {
    var slots' := Marked(slots, o, k + 1);
    RemoveScan(slots, slots', j, o, k);
    RemoveShape(slots, j, o, k);
    RemovedPartTidy(slots, j, o, k);
    hide Scan, Before, EntryAt, SameMode, Shaped, Marked, TidyPart;
    TidyKept(slots, slots', o, k + 1);
  }
}
