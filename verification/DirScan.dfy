/**
  Directories as sequences of 32-byte slots: scanning them into listings, and what adding,
  rewriting and deleting slots does to the listing.
 */
module DirScan {
  import opened Bytes
  import opened ShortNames
  import opened DirEntries

  /** A listed entry: its name, short entry, and where its run of slots starts and how long it is. */
  datatype FatDirEntry = FatDirEntry(name: string, short: ShortDirEntry, entryOffset: nat, entryCount: nat) {
    function Cluster(): u32 { short.Cluster() }

    predicate IsDirectory() { short.IsDirectory() }

    /** The slot that holds the short entry. */
    function ShortSlot(): int { entryOffset / ENTRY_SIZE + entryCount - 1 }
  }

  predicate IsFree(d: Slot) { d[0] == 0x00 || d[0] == DELETED }

  predicate IsFragment(d: Slot) { !IsFree(d) && d[11] == ATTR_LFN }

  predicate IsListed(d: Slot) {
    && !IsFree(d) && d[11] != ATTR_LFN && !ParseShort(d).IsVolumeLabel()
    && ShownName(ParseShort(d).name) != "." && ShownName(ParseShort(d).name) != ".."
  }

  /** The eleven bytes of a slot that is shown as "." or "..". */
  predicate DotName(d: Slot) {
    || (d[0] == 0x2E && d[1] == 0x20 && d[8] == 0x20)
    || (d[0] == 0x2E && d[1] == 0x2E && d[2] == 0x20 && d[8] == 0x20)
    || (d[0] == 0x20 && d[8] == 0x2E && d[9] == 0x20)
  }

  lemma ShownDots(field: seq<byte>)
    requires |field| >= 3
    ensures Shown(field) == "" <==> field[0] == 0x20
    ensures Shown(field) == "." <==> field[0] == 0x2E && field[1] == 0x20
    ensures Shown(field) == ".." <==> field[0] == 0x2E && field[1] == 0x2E && field[2] == 0x20
  {
    ShownStart(field);
    ShownStart(field[1..]);
    ShownStart(field[2..]);
    assert field[1..][1..] == field[2..];
    hide Shown, LowerChar;
    if field[0] != 0x20 {
      assert Shown(field)[0] == LowerChar(field[0] as char) && Shown(field)[1..] == Shown(field[1..]);
      if field[1] != 0x20 {
        assert Shown(field[1..])[0] == LowerChar(field[1] as char) && Shown(field[1..])[1..] == Shown(field[2..]);
      }
    }
  }

  lemma ShownStart(field: seq<byte>)
    requires field != []
    ensures if field[0] == 0x20 then Shown(field) == "" else Shown(field) == [LowerChar(field[0] as char)] + Shown(field[1..])
    ensures LowerChar(field[0] as char) == '.' <==> field[0] == 0x2E
  {
  }

  lemma ShownNameDots(n: Name11)
    ensures ShownName(n) == "." <==> Shown(n[..8]) == "." && Shown(n[8..]) == ""
    ensures ShownName(n) == ".." <==> (Shown(n[..8]) == ".." && Shown(n[8..]) == "") || (Shown(n[..8]) == "" && Shown(n[8..]) == ".")
  {
    hide Shown;
    var a, b := Shown(n[..8]), Shown(n[8..]);
    if b != "" {
      assert ShownName(n)[|a|] == '.' && |ShownName(n)| == |a| + 1 + |b|;
      if ShownName(n) == ".." {
        assert a == "" && ShownName(n)[1] == b[0];
      }
    }
  }

  /** Which slots are listed: in use, no fragment, no volume label, and not "." or "..". */
  lemma ListedExactly(d: Slot)
    ensures IsListed(d) <==>
      d[0] != 0x00 && d[0] != 0xE5 && d[11] != 0x0F && d[11] / 8 % 2 == 0 && !DotName(d)
  {
    hide ShownName, Shown;
    var n := ParseShort(d).name;
    ShownNameDots(n);
    ShownDots(n[..8]);
    ShownDots(n[8..]);
  }

  /** Which slots are read as fragments of a long name. */
  lemma FragmentExactly(d: Slot)
    ensures IsFragment(d) <==> d[0] != 0x00 && d[0] != 0xE5 && d[11] == 0x0F
  {
  }

  /** The bytes of a directory cut into slots. */
  function SlotsOf(data: seq<byte>): seq<Slot> {
    seq(|data| / ENTRY_SIZE, i requires 0 <= i < |data| / ENTRY_SIZE => data[i * ENTRY_SIZE..(i + 1) * ENTRY_SIZE])
  }

  // ---- the scan ---------------------------------------------------------------------------

  /** The variables of the scanning loop; `ended` once it has met the end marker. */
  datatype ScanState = ScanState(entries: seq<FatDirEntry>, parts: seq<LfnEntry>, start: nat, ended: bool)

  function EntryName(short: ShortDirEntry, parts: seq<LfnEntry>): string {
    if parts != [] && forall p :: 0 <= p < |parts| ==> parts[p].checksum == ChecksumOf(short.name)
    then Assembled(parts) else ShownName(short.name)
  }

  function EntryHere(s: ScanState, d: Slot, i: nat): FatDirEntry {
    FatDirEntry(EntryName(ParseShort(d), s.parts), ParseShort(d),
      if s.parts != [] then s.start else i * ENTRY_SIZE, |s.parts| + 1)
  }

  function ScanStep(s: ScanState, d: Slot, i: nat): ScanState {
    if s.ended then s
    else if d[0] == 0x00 then s.(ended := true)
    else if d[0] == DELETED then s.(parts := [])
    else if d[11] == ATTR_LFN then
      if ParseLfn(d).IsLast() then s.(parts := [ParseLfn(d)], start := i * ENTRY_SIZE)
      else s.(parts := s.parts + [ParseLfn(d)])
    else if IsListed(d) then s.(entries := s.entries + [EntryHere(s, d, i)], parts := [])
    else s.(parts := [])
  }

  lemma StepGrows(s: ScanState, d: Slot, i: nat)
    ensures s.entries <= ScanStep(s, d, i).entries && (s.ended ==> ScanStep(s, d, i) == s)
  {
  }

  lemma EndMarkerStep(s: ScanState, d: Slot, i: nat)
    requires d[0] == 0x00
    ensures ScanStep(s, d, i) == s.(ended := true)
  {
  }

  lemma FragmentStep(s: ScanState, d: Slot, i: nat)
    requires !s.ended && IsFragment(d)
    ensures ScanStep(s, d, i) == if ParseLfn(d).IsLast() then s.(parts := [ParseLfn(d)], start := i * ENTRY_SIZE)
      else s.(parts := s.parts + [ParseLfn(d)])
  {
  }

  function Scan(slots: seq<Slot>): ScanState {
    if slots == [] then ScanState([], [], 0, false)
    else ScanStep(Scan(slots[..|slots| - 1]), slots[|slots| - 1], |slots| - 1)
  }

  function Listing(slots: seq<Slot>): seq<FatDirEntry> { Scan(slots).entries }

  /** The state on arrival at slot `i`. */
  function Before(slots: seq<Slot>, i: nat): ScanState {
    if i <= |slots| then Scan(slots[..i]) else Scan(slots)
  }

  lemma BeforeNext(slots: seq<Slot>, i: nat)
    requires i < |slots|
    ensures Before(slots, i + 1) == ScanStep(Before(slots, i), slots[i], i)
  {
    assert slots[..i + 1][..i] == slots[..i];
  }

  lemma BeforeAll(slots: seq<Slot>)
    ensures Before(slots, |slots|) == Scan(slots) && Before(slots, 0) == ScanState([], [], 0, false)
  {
    assert slots[..|slots|] == slots;
  }

  // ---- shape ------------------------------------------------------------------------------

  /** Slot `i` is free, or the scan gets there; a fragment there continues a name that was begun. */
  ghost predicate SlotOk(slots: seq<Slot>, i: nat)
    requires i < |slots|
  {
    || IsFree(slots[i])
    || (!Before(slots, i).ended && (IsFragment(slots[i]) && !ParseLfn(slots[i]).IsLast() ==> Before(slots, i).parts != []))
  }

  /**
    The shape every operation keeps, complete or not: nothing used after the end marker, and no
    fragment that continues a long name where none was begun.
   */
  ghost predicate Shaped(slots: seq<Slot>) {
    forall i: nat :: i < |slots| ==> SlotOk(slots, i)
  }

  /** What may follow a fragment: the next one of the same name, or the short entry. */
  predicate Continues(d: Slot) {
    (IsFragment(d) && !ParseLfn(d).IsLast()) || IsListed(d)
  }

  /** Besides, every group of fragments is directly followed by its short entry. */
  ghost predicate Tidy(slots: seq<Slot>) {
    && Shaped(slots)
    && (forall i: nat :: i < |slots| && !Before(slots, i).ended && Before(slots, i).parts != [] ==> Continues(slots[i]))
    && (Scan(slots).ended || Scan(slots).parts == [])
  }

  /** A scan ends at a zero slot and nowhere else. */
  lemma {:induction false} EndedAt(slots: seq<Slot>, i: nat)
    requires i <= |slots|
    ensures Before(slots, i).ended <==> exists z :: 0 <= z < i && slots[z][0] == 0x00
  {
    if i == 0 {
      BeforeAll(slots);
    } else {
      EndedAt(slots, i - 1);
      BeforeNext(slots, i - 1);
    }
  }

  lemma UsedNotEnded(slots: seq<Slot>, i: nat)
    requires Shaped(slots) && i < |slots| && !IsFree(slots[i])
    ensures !Before(slots, i).ended && !Before(slots, i + 1).ended
  {
    assert SlotOk(slots, i);
    BeforeNext(slots, i);
  }

  /** In a shaped directory no slot after the end marker is in use. */
  lemma FreeAfterEnd(slots: seq<Slot>, i: nat, j: nat)
    requires Shaped(slots) && i < j < |slots| && slots[i][0] == 0x00
    ensures IsFree(slots[j])
  {
    EndedAt(slots, j);
    assert SlotOk(slots, j);
  }

  /** Pending fragments are the slots just before; no entry was listed since the first of them. */
  lemma {:induction false} PartsPlaced(slots: seq<Slot>, i: nat)
    requires Shaped(slots) && i <= |slots|
    ensures var s := Before(slots, i);
      !s.ended && s.parts != [] ==>
        && |s.parts| <= i && s.start == (i - |s.parts|) * ENTRY_SIZE
        && (forall k :: i - |s.parts| <= k < i ==> IsFragment(slots[k]))
        && ParseLfn(slots[i - |s.parts|]).IsLast()
        && Before(slots, i - |s.parts|).entries == s.entries && !Before(slots, i - |s.parts|).ended
  {
    BeforeAll(slots);
    hide Scan, Before, EntryHere, IsListed, ParseLfn, ParseShort;
    if i > 0 {
      assert SlotOk(slots, i - 1);
      PartsPlaced(slots, i - 1);
      BeforeNext(slots, i - 1);
    }
  }

  /** What the `j`-th listed entry comes from. */
  ghost predicate CameFrom(slots: seq<Slot>, j: nat, k: nat)
    requires j < |Listing(slots)|
  {
    && k < |slots| && IsListed(slots[k])
    && !Before(slots, k).ended && |Before(slots, k).entries| == j
    && Listing(slots)[j] == EntryHere(Before(slots, k), slots[k], k)
  }

  lemma {:induction false} EntryOrigin(slots: seq<Slot>, j: nat) returns (k: nat)
    requires j < |Listing(slots)|
    ensures CameFrom(slots, j, k)
    ensures Before(slots, k).entries == Listing(slots)[..j]
  {
    var n := |slots| - 1;
    var front := slots[..n];
    BeforeAll(slots);
    BeforeNext(slots, n);
    if j < |Listing(front)| {
      k := EntryOrigin(front, j);
      assert front[..k] == slots[..k];
    } else {
      k := n;
    }
  }

  /** Slot `o` is not one that a pending group of fragments goes on with. */
  ghost predicate Begins(slots: seq<Slot>, o: nat) {
    o < |slots| && if IsFragment(slots[o]) then ParseLfn(slots[o]).IsLast() else Before(slots, o).parts == []
  }

  lemma {:induction false} EntriesGrow(slots: seq<Slot>, i: nat, m: nat)
    requires i <= m <= |slots|
    ensures Before(slots, i).entries <= Before(slots, m).entries
    ensures Before(slots, i).ended ==> Before(slots, m) == Before(slots, i)
    decreases m
  {
    hide Scan, Before, ScanStep;
    if i < m {
      EntriesGrow(slots, i, m - 1);
      BeforeNext(slots, m - 1);
      StepGrows(Before(slots, m - 1), slots[m - 1], m - 1);
    }
  }

  /** The `j`-th listed entry occupies the slots `o` to `k`, fragments and then its short entry. */
  ghost predicate EntryAt(slots: seq<Slot>, j: nat, o: nat, k: nat) {
    && j < |Listing(slots)| && o <= k < |slots|
    && CameFrom(slots, j, k)
    && Listing(slots)[j].short == ParseShort(slots[k])
    && Listing(slots)[j].entryOffset == o * ENTRY_SIZE && Listing(slots)[j].entryCount == k - o + 1
    && (forall i :: o <= i < k ==> IsFragment(slots[i]))
    && Before(slots, o).entries == Listing(slots)[..j] && !Before(slots, o).ended
    && Begins(slots, o)
  }

  /** Every entry sits where its offset and count say, after the entries listed before it. */
  lemma EntryPlaced(slots: seq<Slot>, j: nat)
    requires Shaped(slots) && j < |Listing(slots)|
    ensures var e := Listing(slots)[j];
      e.ShortSlot() >= 0 && EntryAt(slots, j, e.entryOffset / ENTRY_SIZE, e.ShortSlot())
  {
    hide Scan, Before, ParseLfn, ParseShort, ShownName, EntryName, Shaped;
    var k := EntryOrigin(slots, j);
    PartsPlaced(slots, k);
  }

  lemma {:induction false} PartsRead(slots: seq<Slot>, i: nat)
    requires Shaped(slots) && i <= |slots|
    ensures var s := Before(slots, i);
      !s.ended && s.parts != [] ==>
        |s.parts| <= i && forall k :: 0 <= k < |s.parts| ==> s.parts[k] == ParseLfn(slots[i - |s.parts| + k])
  {
    BeforeAll(slots);
    hide Scan, Before, EntryHere, IsListed, ParseLfn, ParseShort;
    if i > 0 {
      assert SlotOk(slots, i - 1);
      PartsRead(slots, i - 1);
      BeforeNext(slots, i - 1);
    }
  }

  /** The fragments in the slots `o` up to `k`. */
  function FragmentsIn(slots: seq<Slot>, o: nat, k: nat): seq<LfnEntry>
    requires o <= k <= |slots|
  {
    seq(k - o, i requires 0 <= i < k - o => ParseLfn(slots[o + i]))
  }

  /**
    The name of a listed entry: that of the fragments before its short entry when there are any
    and every one holds the checksum of its eleven bytes, else these bytes as shown.
   */
  lemma NamedBy(slots: seq<Slot>, j: nat, o: nat, k: nat)
    requires Shaped(slots) && EntryAt(slots, j, o, k)
    ensures Listing(slots)[j].name ==
      if o < k && forall i :: o <= i < k ==> slots[i][13] == ChecksumOf(slots[k][..11]) then Assembled(FragmentsIn(slots, o, k))
      else ShownName(slots[k][..11])
  {
    hide Scan, Before, ShownName, Assembled, ChecksumOf, Shaped, Begins, ParseLfn, FragmentsIn, IsListed, IsFragment;
    PartsRead(slots, k);
    var parts := Before(slots, k).parts;
    assert |parts| == k - o && EntryName(ParseShort(slots[k]), parts) == Listing(slots)[j].name;
    assert ParseShort(slots[k]).name == slots[k][..11];
    hide CameFrom, ParseShort;
    SumsOf(slots, o, k, parts, ChecksumOf(slots[k][..11]));
  }

  lemma SumsOf(slots: seq<Slot>, o: nat, k: nat, parts: seq<LfnEntry>, sum: byte)
    requires o <= k <= |slots| && |parts| == k - o && forall i :: 0 <= i < k - o ==> parts[i] == ParseLfn(slots[o + i])
    ensures parts == FragmentsIn(slots, o, k)
    ensures (forall p :: 0 <= p < |parts| ==> parts[p].checksum == sum) <==> (forall i :: o <= i < k ==> slots[i][13] == sum)
  {
    assert forall p :: 0 <= p < |parts| ==> parts[p].checksum == slots[o + p][13];
    if forall p :: 0 <= p < |parts| ==> parts[p].checksum == sum {
      forall i | o <= i < k ensures slots[i][13] == sum {
        assert parts[i - o].checksum == sum;
      }
    }
  }

  /** The slots of an entry, fragments included, all come before those of the entries listed after it. */
  lemma EntriesInOrder(slots: seq<Slot>, i: nat, j: nat)
    requires Shaped(slots) && i < j < |Listing(slots)|
    ensures Listing(slots)[i].ShortSlot() < Listing(slots)[j].entryOffset / ENTRY_SIZE <= Listing(slots)[j].ShortSlot()
  {
    hide Scan, Before, ParseLfn, ParseShort, ShownName, EntryName, Shaped;
    EntryPlaced(slots, i);
    EntryPlaced(slots, j);
    var o, k := Listing(slots)[j].entryOffset / ENTRY_SIZE, Listing(slots)[i].ShortSlot();
    if o <= k {
      EntriesGrow(slots, o, k);
    }
  }

  /** No two listed entries share their short slot. */
  lemma EntriesApart(slots: seq<Slot>, i: nat, j: nat)
    requires Shaped(slots) && i < |Listing(slots)| && j < |Listing(slots)|
    requires Listing(slots)[i].ShortSlot() == Listing(slots)[j].ShortSlot()
    ensures i == j
  {
    if i < j {
      EntriesInOrder(slots, i, j);
    } else if j < i {
      EntriesInOrder(slots, j, i);
    }
  }

  /** Past its short entry, an entry and those before it have been listed, and nothing is pending. */
  lemma AfterEntry(slots: seq<Slot>, j: nat, o: nat, k: nat)
    requires Shaped(slots) && EntryAt(slots, j, o, k)
    ensures Before(slots, k).entries == Listing(slots)[..j]
    ensures Before(slots, k + 1) == Before(slots, k).(entries := Listing(slots)[..j + 1], parts := [])
    ensures !Before(slots, k + 1).ended && !IsFree(slots[k])
  {
    BeforeNext(slots, k);
    EntriesGrow(slots, k + 1, |slots|);
    BeforeAll(slots);
  }

  // ---- the rest of a scan -----------------------------------------------------------------

  /** States that go on in the same way. */
  ghost predicate SameMode(s: ScanState, t: ScanState) {
    s.ended == t.ended && s.parts == t.parts && (s.parts != [] ==> s.start == t.start)
  }

  /** Two scans in the same mode at slot `m` with equal slots from there list the same entries from there. */
  lemma {:induction false} RestSame(a: seq<Slot>, b: seq<Slot>, m: nat, i: nat) returns (rest: seq<FatDirEntry>)
    requires |a| == |b| && m <= i <= |a| && Shaped(a)
    requires forall k :: m <= k < |a| ==> a[k] == b[k]
    requires SameMode(Before(a, m), Before(b, m))
    ensures Before(a, i).entries == Before(a, m).entries + rest
    ensures Before(b, i).entries == Before(b, m).entries + rest
    ensures SameMode(Before(a, i), Before(b, i))
    decreases i
  {
    hide Scan, Before, EntryName, ShownName, ParseLfn, ParseShort;
    if i == m {
      rest := [];
      assert Before(a, i).entries == Before(a, m).entries + rest;
      assert Before(b, i).entries == Before(b, m).entries + rest;
    } else {
      rest := RestSame(a, b, m, i - 1);
      assert SlotOk(a, i - 1);
      BeforeNext(a, i - 1);
      BeforeNext(b, i - 1);
      if !Before(a, i - 1).ended && IsListed(a[i - 1]) {
        var e := EntryHere(Before(a, i - 1), a[i - 1], i - 1);
        assert e == EntryHere(Before(b, i - 1), b[i - 1], i - 1);
        assert Before(a, m).entries + rest + [e] == Before(a, m).entries + (rest + [e]);
        assert Before(b, m).entries + rest + [e] == Before(b, m).entries + (rest + [e]);
        rest := rest + [e];
      }
    }
  }

  /** Free slots list nothing. */
  lemma {:induction false} FreeListsNothing(slots: seq<Slot>, m: nat, i: nat)
    requires m <= i <= |slots| && forall k :: m <= k < i ==> IsFree(slots[k])
    ensures Before(slots, i).entries == Before(slots, m).entries
    ensures m < i && !Before(slots, i).ended ==> Before(slots, i).parts == []
    decreases i
  {
    hide Scan, Before, ParseLfn, ParseShort, EntryHere;
    if m < i {
      FreeListsNothing(slots, m, i - 1);
      BeforeNext(slots, i - 1);
    }
  }
}
