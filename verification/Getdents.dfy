/** The directory-entry wire format between the kernel's SYS_GETDENTS and the user-space iterator. */
module Getdents {
  import opened Outcome
  import opened Bytes

  datatype FileType = File | Directory | Device

  /** A directory entry of the kernel; the name in UTF-8. */
  datatype DirEntry = DirEntry(name: seq<byte>, fileType: FileType)

  /** What the reader learns of an entry: a type code and a name. */
  datatype Seen = Seen(fileType: byte, name: seq<byte>) {
    predicate IsDir() { fileType == 2 }

    predicate IsFile() { fileType == 1 }
  }

  const NAME_MAX: nat := 256

  function Code(t: FileType): byte {
    match t
    case File => 1
    case Directory => 2
    case Device => 3
  }

  function View(e: DirEntry): Seen {
    Seen(Code(e.fileType), e.name)
  }

  function Views(entries: seq<DirEntry>): (views: seq<Seen>)
    ensures |views| == |entries|
  {
    seq(|entries|, i requires 0 <= i < |entries| => View(entries[i]))
  }

  // ---- the format -------------------------------------------------------------------------

  /** The name's length cut to 16 bits. */
  function CutLength(e: DirEntry): u16 { |e.name| % 0x1_0000 }

  function Record(e: DirEntry): (r: seq<byte>)
    ensures |r| == 3 + |e.name|
    ensures r[0] == (if e.fileType == File then 1 else if e.fileType == Directory then 2 else 3)
    ensures LeValue(r[1..3]) == |e.name| % 0x1_0000 && r[3..] == e.name
  {
    LengthBytes(CutLength(e));
    [Code(e.fileType), Lo(CutLength(e)), Hi(CutLength(e))] + e.name
  }

  lemma LengthBytes(n: u16)
    ensures Lo(n) + 0x100 * Hi(n) == n
    ensures forall s: seq<byte> :: |s| >= 3 && s[1] == Lo(n) && s[2] == Hi(n) ==> LeValue(s[1..3]) == n
  {
    forall s: seq<byte> | |s| >= 3 && s[1] == Lo(n) && s[2] == Hi(n) ensures LeValue(s[1..3]) == n {
      LeValue2(s, 1);
    }
  }

  function Records(entries: seq<DirEntry>): seq<byte> {
    if entries == [] then [] else Records(entries[..|entries| - 1]) + Record(entries[|entries| - 1])
  }

  /** The entries a reader takes out of a buffer: it stops at one that is cut off or too long. */
  function Decode(buf: seq<byte>): seq<Seen> {
    if |buf| < 3 then []
    else
      var n := Le16(buf[1], buf[2]);
      if 3 + n > |buf| || n > NAME_MAX then [] else [Seen(buf[0], buf[3..3 + n])] + Decode(buf[3 + n..])
  }

  /** How far a call gets from `position` with `room` bytes left. */
  function NextPosition(entries: seq<DirEntry>, position: nat, room: nat): (q: nat)
    requires position <= |entries|
    ensures position <= q <= |entries|
    decreases |entries| - position
  {
    if position < |entries| && 3 + |entries[position].name| <= room
    then NextPosition(entries, position + 1, room - (3 + |entries[position].name|))
    else position
  }

  lemma {:induction false} RecordsFront(entries: seq<DirEntry>)
    requires entries != []
    ensures Records(entries) == Record(entries[0]) + Records(entries[1..])
    decreases |entries|
  {
    hide Record;
    var last := |entries| - 1;
    if last > 0 {
      RecordsFront(entries[..last]);
      assert entries[..last][1..] == entries[1..][..last - 1];
      assert entries[1..][last - 1] == entries[last];
    } else {
      assert entries[..0] == [] && entries[1..] == [];
    }
  }

  lemma DecodeRecord(e: DirEntry, rest: seq<byte>)
    requires |e.name| <= NAME_MAX
    ensures Decode(Record(e) + rest) == [View(e)] + Decode(rest)
  {
    var b := Record(e) + rest;
    assert b[0] == Code(e.fileType) && Le16(b[1], b[2]) == |e.name|;
    assert b[3..3 + |e.name|] == e.name && b[3 + |e.name|..] == rest;
  }

  /** A buffer of records reads back as its entries, in order, when no name is too long for the reader. */
  lemma {:induction false} DecodeRecords(entries: seq<DirEntry>)
    requires forall i :: 0 <= i < |entries| ==> |entries[i].name| <= NAME_MAX
    ensures Decode(Records(entries)) == Views(entries)
  {
    hide Decode, Records, Record, View;
    if entries == [] {
      NoRecords();
    } else {
      RecordsFront(entries);
      DecodeRecords(entries[1..]);
      DecodeRecord(entries[0], Records(entries[1..]));
      assert Views(entries) == [View(entries[0])] + Views(entries[1..]);
    }
  }

  /** The reader never gets a name longer than its buffer for names. */
  lemma {:induction false} DecodedNames(buf: seq<byte>)
    ensures forall i :: 0 <= i < |Decode(buf)| ==> |Decode(buf)[i].name| <= NAME_MAX
    decreases |buf|
  {
    if |buf| >= 3 && 3 + Le16(buf[1], buf[2]) <= |buf| {
      DecodedNames(buf[3 + Le16(buf[1], buf[2])..]);
    }
  }

  // ---- calling until nothing comes ----------------------------------------------------------

  /** All a reader sees with a buffer of `size` bytes, calling until it gets nothing. */
  function SeenFrom(entries: seq<DirEntry>, position: nat, size: nat): seq<Seen>
    requires position <= |entries|
    decreases |entries| - position
  {
    var next := NextPosition(entries, position, size);
    if next == position then [] else Decode(Records(entries[position..next])) + SeenFrom(entries, next, size)
  }

  predicate Readable(e: DirEntry, size: nat) {
    |e.name| <= NAME_MAX && 3 + |e.name| <= size
  }

  lemma ViewsConcat(a: seq<DirEntry>, b: seq<DirEntry>)
    ensures Views(a + b) == Views(a) + Views(b)
  {
  }

  /** With short enough names the reader sees the entries up to the first that does not fit its buffer. */
  lemma {:induction false} SeesUpToLarge(entries: seq<DirEntry>, position: nat, size: nat) returns (end: nat)
    requires position <= |entries| && forall i :: position <= i < |entries| ==> |entries[i].name| <= NAME_MAX
    ensures position <= end <= |entries| && SeenFrom(entries, position, size) == Views(entries[position..end])
    ensures end < |entries| ==> 3 + |entries[end].name| > size
    ensures forall i :: position <= i < end ==> 3 + |entries[i].name| <= size
    decreases |entries| - position
  {
    hide Decode, Records, View;
    var next := NextPosition(entries, position, size);
    TakenFit(entries, position, size);
    if next == position {
      end := position;
    } else {
      end := SeesUpToLarge(entries, next, size);
      DecodeRecords(entries[position..next]);
      ViewsConcat(entries[position..next], entries[next..end]);
      assert entries[position..end] == entries[position..next] + entries[next..end];
    }
  }

  /** A call takes every entry it has room for. */
  lemma {:induction false} TakenFit(entries: seq<DirEntry>, position: nat, room: nat)
    requires position <= |entries|
    ensures var next := NextPosition(entries, position, room);
      && (forall i :: position <= i < next ==> 3 + |entries[i].name| <= room)
      && (next == position && position < |entries| ==> 3 + |entries[position].name| > room)
    decreases |entries| - position
  {
    if position < |entries| && 3 + |entries[position].name| <= room {
      TakenFit(entries, position + 1, room - (3 + |entries[position].name|));
    }
  }

  lemma {:induction false} SeenNames(entries: seq<DirEntry>, position: nat, size: nat)
    requires position <= |entries|
    ensures forall i :: 0 <= i < |SeenFrom(entries, position, size)| ==> |SeenFrom(entries, position, size)[i].name| <= NAME_MAX
    decreases |entries| - position
  {
    var next := NextPosition(entries, position, size);
    if next != position {
      DecodedNames(Records(entries[position..next]));
      SeenNames(entries, next, size);
    }
  }

  /**
    The reader sees every remaining entry once, in order, with its name and type code, exactly
    when each of them has a name of at most 256 bytes and fits the reader's buffer.
   */
  lemma SeesAll(entries: seq<DirEntry>, position: nat, size: nat)
    requires position <= |entries|
    ensures SeenFrom(entries, position, size) == Views(entries[position..]) <==>
      forall i :: position <= i < |entries| ==> Readable(entries[i], size)
  {
    hide Decode, Records;
    var rest := entries[position..];
    if SeenFrom(entries, position, size) == Views(rest) {
      SeenNames(entries, position, size);
      forall i | position <= i < |entries| ensures |entries[i].name| <= NAME_MAX {
        assert Views(rest)[i - position].name == entries[i].name;
      }
      var end := SeesUpToLarge(entries, position, size);
      assert |Views(entries[position..end])| == end - position;
    }
    if forall i :: position <= i < |entries| ==> Readable(entries[i], size) {
      var end := SeesUpToLarge(entries, position, size);
      assert entries[position..end] == rest;
    }
  }

  /** What a reader sees of an entry: its name, and whether it is a directory or a file. */
  ghost predicate SeenAs(e: DirEntry, seen: Seen) {
    && seen.name == e.name
    && (seen.IsDir() <==> e.fileType == Directory) && (seen.IsFile() <==> e.fileType == File)
  }

  /** Each entry seen is the kernel's at its place, when every name is short enough and fits. */
  lemma SeesAllAs(entries: seq<DirEntry>, position: nat, size: nat)
    requires position <= |entries|
    requires forall i :: position <= i < |entries| ==> |entries[i].name| <= 256 && 3 + |entries[i].name| <= size
    ensures var seen := SeenFrom(entries, position, size);
      |seen| == |entries| - position && forall k :: 0 <= k < |seen| ==> SeenAs(entries[position + k], seen[k])
  {
    hide SeenFrom;
    SeesAll(entries, position, size);
  }

  // ---- the kernel's side --------------------------------------------------------------------

  /** An open directory: its entries and how many of them were handed out. */
  class DirectoryFd {
    const entries: seq<DirEntry>
    var position: nat

    ghost predicate Valid()
      reads this
    {
      position <= |entries|
    }

    constructor (listing: seq<DirEntry>)
      ensures Valid() && entries == listing && position == 0
    {
      entries, position := listing, 0;
    }

    /** Writes as many whole records as the buffer holds, and moves the position past them. */
    method Getdents(buf: array<byte>) returns (offset: nat)
      requires Valid()
      modifies this, buf
      ensures Valid() && position == NextPosition(entries, old(position), buf.Length)
      ensures offset <= buf.Length && buf[..offset] == Records(entries[old(position)..position])
      ensures buf[offset..] == old(buf[offset..])
    {
      hide Records, Record, Code;
      offset := 0;
      ghost var from := position;
      NoRecords();
      assert entries[from..position] == [];
      while position < |entries|
        invariant from <= position <= |entries| && offset <= buf.Length
        invariant NextPosition(entries, position, buf.Length - offset) == NextPosition(entries, from, buf.Length)
        invariant buf[..offset] == Records(entries[from..position])
        invariant buf[offset..] == old(buf[offset..])
      {
        var entry := entries[position];
        var entrySize := 1 + 2 + |entry.name|;
        if offset + entrySize > buf.Length {
          break;
        }
        ghost var before := buf[..];
        offset := WriteRecord(buf, offset, entry);
        RecordPlaced(before, buf[..], offset - |Record(entry)|, Record(entry));
        OneMoreRecord(entries, from, position);
        position := position + 1;
      }
    }

    /** Puts one record at `at`: the type byte, the length cut to 16 bits, the name. */
    static method WriteRecord(buf: array<byte>, at: nat, entry: DirEntry) returns (offset: nat)
      requires at + 3 + |entry.name| <= buf.Length
      modifies buf
      ensures offset == at + |Record(entry)| && buf[..] == old(buf[..at]) + Record(entry) + old(buf[offset..])
    {
      offset := at;
      buf[offset] := Code(entry.fileType);
      offset := offset + 1;
      var nameLen := |entry.name| % 0x1_0000;
      buf[offset] := nameLen % 0x100;
      buf[offset + 1] := nameLen / 0x100;
      offset := offset + 2;
      forall i | 0 <= i < |entry.name| {
        buf[offset + i] := entry.name[i];
      }
      offset := offset + |entry.name|;
    }
  }

  /** A call that writes nothing handed out nothing. */
  lemma {:induction false} RecordsSize(entries: seq<DirEntry>)
    ensures |Records(entries)| >= 3 * |entries|
    decreases |entries|
  {
    if entries != [] {
      RecordsSize(entries[..|entries| - 1]);
    }
  }

  lemma RecordPlaced(before: seq<byte>, after: seq<byte>, at: nat, record: seq<byte>)
    requires at + |record| <= |before| && after == before[..at] + record + before[at + |record|..]
    ensures after[..at + |record|] == before[..at] + record && after[at + |record|..] == before[at + |record|..]
  {
  }

  lemma NoRecords()
    ensures Records([]) == [] && Decode([]) == []
  {
  }

  lemma OneMoreRecord(entries: seq<DirEntry>, from: nat, position: nat)
    requires from <= position < |entries|
    ensures Records(entries[from..position + 1]) == Records(entries[from..position]) + Record(entries[position])
  {
    assert entries[from..position + 1][..position - from] == entries[from..position];
  }

  // ---- the reader's side --------------------------------------------------------------------

  /** The entry a reader gets: its name in a buffer of fixed size. */
  datatype UserEntry = UserEntry(fileType: byte, nameLen: nat, nameBuf: seq<byte>) {
    function Name(): seq<byte>
      requires nameLen <= |nameBuf|
    {
      nameBuf[..nameLen]
    }
  }

  class DirEntryIter {
    const buf: seq<byte>
    var offset: nat

    ghost predicate Valid()
      reads this
    {
      offset <= |buf|
    }

    constructor (bytes: seq<byte>)
      ensures Valid() && buf == bytes && offset == 0
    {
      buf, offset := bytes, 0;
    }

    /** The next entry, until there is none, one is cut off, or one has too long a name. */
    method Next() returns (r: Option<UserEntry>)
      requires Valid()
      modifies this
      ensures Valid() && offset >= old(offset)
      ensures r.None? ==> Decode(buf[old(offset)..]) == []
      ensures r.Some? ==>
        && offset > old(offset) && |r.value.nameBuf| == NAME_MAX && r.value.nameLen <= NAME_MAX
        && Decode(buf[old(offset)..]) == [Seen(r.value.fileType, r.value.Name())] + Decode(buf[offset..])
    {
      ghost var rest, start := buf[offset..], offset;
      if offset + 3 > |buf| {
        return None;
      }
      var fileType := buf[offset];
      offset := offset + 1;
      var nameLen: nat := Le16(buf[offset], buf[offset + 1]);
      offset := offset + 2;
      assert rest[0] == fileType && Le16(rest[1], rest[2]) == nameLen;
      if offset + nameLen > |buf| || nameLen > 256 {
        return None;
      }
      var name := Splice(Zeros(256), 0, buf[offset..offset + nameLen]);
      assert rest[3..3 + nameLen] == buf[offset..offset + nameLen] == name[..nameLen];
      offset := offset + nameLen;
      assert rest[3 + nameLen..] == buf[offset..];
      return Some(UserEntry(fileType, nameLen, name));
    }
  }

  /** One buffer's entries, as the iterator gives them. */
  method ReadBuffer(bytes: seq<byte>) returns (seen: seq<Seen>)
    ensures seen == Decode(bytes)
  {
    hide Decode;
    var iter := new DirEntryIter(bytes);
    seen := [];
    assert bytes[0..] == bytes;
    var entry := iter.Next();
    while entry.Some?
      invariant fresh(iter) && iter.Valid() && iter.buf == bytes
      invariant entry.Some? ==>
        (|entry.value.nameBuf| == NAME_MAX && entry.value.nameLen <= NAME_MAX
         && Decode(bytes) == seen + [Seen(entry.value.fileType, entry.value.Name())] + Decode(bytes[iter.offset..]))
      invariant entry.None? ==> seen == Decode(bytes)
      decreases |bytes| - iter.offset, if entry.Some? then 1 else 0
    {
      seen := seen + [Seen(entry.value.fileType, entry.value.Name())];
      entry := iter.Next();
    }
  }

  lemma SeenStep(entries: seq<DirEntry>, position: nat, size: nat)
    requires position <= |entries|
    ensures var next := NextPosition(entries, position, size);
      SeenFrom(entries, position, size) ==
        if next == position then [] else Decode(Records(entries[position..next])) + SeenFrom(entries, next, size)
  {
  }

  /** The listing loop: it ends, and sees what the wire format lets through. */
  method ListDirectory(fd: DirectoryFd, size: nat) returns (seen: seq<Seen>)
    requires fd.Valid()
    modifies fd
    ensures fd.Valid() && seen == SeenFrom(fd.entries, old(fd.position), size)
    ensures seen == Views(fd.entries[old(fd.position)..]) <==>
      forall i :: old(fd.position) <= i < |fd.entries| ==> Readable(fd.entries[i], size)
    ensures (forall i :: old(fd.position) <= i < |fd.entries| ==> |fd.entries[i].name| <= 256 && 3 + |fd.entries[i].name| <= size) ==>
      |seen| == |fd.entries| - old(fd.position)
      && forall k :: 0 <= k < |seen| ==> SeenAs(fd.entries[old(fd.position) + k], seen[k])
  {
    hide Decode, Records, SeenAs, View, Views, Readable, SeenFrom, NextPosition;
    if forall i :: fd.position <= i < |fd.entries| ==> |fd.entries[i].name| <= 256 && 3 + |fd.entries[i].name| <= size {
      SeesAllAs(fd.entries, fd.position, size);
    }
    var buf := new byte[size](_ => 0);
    seen := [];
    SeesAll(fd.entries, fd.position, size);
    while true
      invariant fd.Valid()
      invariant SeenFrom(fd.entries, old(fd.position), size) == seen + SeenFrom(fd.entries, fd.position, size)
      decreases |fd.entries| - fd.position
    {
      ghost var from := fd.position;
      SeenStep(fd.entries, from, size);
      var bytesRead := fd.Getdents(buf);
      NoRecords();
      RecordsSize(fd.entries[from..fd.position]);
      assert fd.position == from ==> fd.entries[from..fd.position] == [];
      if bytesRead <= 0 {
        break;
      }
      var more := ReadBuffer(buf[..bytesRead]);
      seen := seen + more;
    }
  }
}
