/** The two kinds of 32-byte directory entries, and long names cut into fragments. */
module DirEntries {
  import opened Bytes
  import opened ShortNames

  const ENTRY_SIZE: nat := 32
  const DELETED: byte := 0xE5
  const ATTR_LFN: byte := 0x0F
  const ATTR_DIRECTORY: byte := 0x10
  const LFN_LAST: byte := 0x40

  type Slot = s: seq<byte> | |s| == 32 witness seq(32, _ => 0)

  // ---- short entries ----------------------------------------------------------------------

  datatype ShortDirEntry = ShortDirEntry(
    name: Name11,
    attr: byte,
    ntRes: byte,
    createTimeTenth: byte,
    createTime: u16,
    createDate: u16,
    accessDate: u16,
    clusterHigh: u16,
    modifyTime: u16,
    modifyDate: u16,
    clusterLow: u16,
    size: u32
  ) {
    function Cluster(): u32 { clusterHigh * 0x1_0000 + clusterLow }

    function WithCluster(c: u32): ShortDirEntry {
      this.(clusterHigh := c / 0x1_0000, clusterLow := c % 0x1_0000)
    }

    predicate IsDirectory() { attr / 0x10 % 2 == 1 }

    predicate IsVolumeLabel() { attr / 0x08 % 2 == 1 }

    function Serialize(): Slot {
      name + [attr, ntRes, createTimeTenth,
              Lo(createTime), Hi(createTime), Lo(createDate), Hi(createDate), Lo(accessDate), Hi(accessDate),
              Lo(clusterHigh), Hi(clusterHigh), Lo(modifyTime), Hi(modifyTime), Lo(modifyDate), Hi(modifyDate),
              Lo(clusterLow), Hi(clusterLow)] + ToLe32(size)
    }
  }

  function ParseShort(d: Slot): ShortDirEntry {
    ShortDirEntry(d[..11], d[11], d[12], d[13],
      Le16(d[14], d[15]), Le16(d[16], d[17]), Le16(d[18], d[19]), Le16(d[20], d[21]),
      Le16(d[22], d[23]), Le16(d[24], d[25]), Le16(d[26], d[27]), Le32(d[28], d[29], d[30], d[31]))
  }

  function NewShort(name: string, attr: byte, cluster: u32, size: u32): ShortDirEntry {
    ShortDirEntry(ShortNameOf(name), attr, 0, 0, 0, 0, 0, cluster / 0x1_0000, 0, 0, cluster % 0x1_0000, size)
  }

  lemma ShortRoundTrip(e: ShortDirEntry)
    ensures ParseShort(e.Serialize()) == e
    ensures e.Serialize()[0] == e.name[0] && e.Serialize()[11] == e.attr
  {
    var d := e.Serialize();
    var tail := ToLe32(e.size);
    assert d[..11] == e.name;
    assert d[28] == tail[0] && d[29] == tail[1] && d[30] == tail[2] && d[31] == tail[3];
  }

  /** The 32 bytes of a short entry: the name first, the attributes at 11, the cluster in two halves, the size last. */
  lemma ShortBytes(d: Slot)
    ensures var e := ParseShort(d);
      && e.name == d[..11] && e.attr == d[11]
      && e.Cluster() == LeValue(d[26..28]) + 0x1_0000 * LeValue(d[20..22]) && e.size == LeValue(d[28..32])
      && (e.IsDirectory() <==> d[11] / 16 % 2 == 1) && (e.IsVolumeLabel() <==> d[11] / 8 % 2 == 1)
  {
    hide LeValue;
    LeValue2(d, 26);
    LeValue2(d, 20);
    LeValue4(d, 28);
  }

  /** Serialising puts the same fields at the same places. */
  lemma SerializedBytes(e: ShortDirEntry)
    ensures var d := e.Serialize();
      && d[..11] == e.name && d[11] == e.attr
      && LeValue(d[26..28]) + 0x1_0000 * LeValue(d[20..22]) == e.Cluster() && LeValue(d[28..32]) == e.size
  {
    hide ParseShort, ShortDirEntry.Serialize, ShortDirEntry.Cluster, ShortDirEntry.IsDirectory, ShortDirEntry.IsVolumeLabel;
    ShortBytes(e.Serialize());
    ShortRoundTrip(e);
  }

  lemma WordBytes(lo: byte, hi: byte)
    ensures Lo(Le16(lo, hi)) == lo && Hi(Le16(lo, hi)) == hi
  {
  }

  lemma LongBytes(b0: byte, b1: byte, b2: byte, b3: byte)
    ensures ToLe32(Le32(b0, b1, b2, b3)) == [b0, b1, b2, b3]
  {
    var q3: nat := b3;
    var q2: nat := b2 + 0x100 * q3;
    var q1: nat := b1 + 0x100 * q2;
    var v: nat := b0 + 0x100 * q1;
    LowByte(b0, q1);
    LowByte(b1, q2);
    LowByte(b2, q3);
    assert v == Le32(b0, b1, b2, b3);
    assert v / 0x100 == q1 && q1 / 0x100 == q2 && q2 / 0x100 == q3;
    assert ToLe32(v) == [v % 0x100, q1 % 0x100, q2 % 0x100, q3];
  }

  lemma LowByte(b: byte, q: nat)
    ensures (b + 0x100 * q) % 0x100 == b && (b + 0x100 * q) / 0x100 == q
  {
  }

  /** Reading a short entry and writing it back gives all 32 bytes back: what is not changed is kept. */
  lemma ParsedRoundTrip(d: Slot)
    ensures ParseShort(d).Serialize() == d
  {
    hide Lo, Hi, Le16, Le32, ToLe32;
    WordBytes(d[14], d[15]);
    WordBytes(d[16], d[17]);
    WordBytes(d[18], d[19]);
    WordBytes(d[20], d[21]);
    WordBytes(d[22], d[23]);
    WordBytes(d[24], d[25]);
    WordBytes(d[26], d[27]);
    LongBytes(d[28], d[29], d[30], d[31]);
  }

  // ---- long-name fragments ----------------------------------------------------------------

  type Units5 = s: seq<u16> | |s| == 5 witness seq(5, _ => 0)
  type Units6 = s: seq<u16> | |s| == 6 witness seq(6, _ => 0)
  type Units2 = s: seq<u16> | |s| == 2 witness seq(2, _ => 0)

  datatype LfnEntry = LfnEntry(
    order: byte,
    name1: Units5,
    attr: byte,
    entryType: byte,
    checksum: byte,
    name2: Units6,
    cluster: u16,
    name3: Units2
  ) {
    predicate IsLast() { order / LFN_LAST % 2 == 1 }

    /** Type and cluster are written as zero whatever they were. */
    function Serialize(): Slot {
      [order,
       Lo(name1[0]), Hi(name1[0]), Lo(name1[1]), Hi(name1[1]), Lo(name1[2]), Hi(name1[2]),
       Lo(name1[3]), Hi(name1[3]), Lo(name1[4]), Hi(name1[4]),
       ATTR_LFN, 0, checksum,
       Lo(name2[0]), Hi(name2[0]), Lo(name2[1]), Hi(name2[1]), Lo(name2[2]), Hi(name2[2]),
       Lo(name2[3]), Hi(name2[3]), Lo(name2[4]), Hi(name2[4]), Lo(name2[5]), Hi(name2[5]),
       0, 0,
       Lo(name3[0]), Hi(name3[0]), Lo(name3[1]), Hi(name3[1])]
    }
  }

  function ParseLfn(d: Slot): LfnEntry {
    LfnEntry(d[0],
      [Le16(d[1], d[2]), Le16(d[3], d[4]), Le16(d[5], d[6]), Le16(d[7], d[8]), Le16(d[9], d[10])],
      d[11], d[12], d[13],
      [Le16(d[14], d[15]), Le16(d[16], d[17]), Le16(d[18], d[19]), Le16(d[20], d[21]), Le16(d[22], d[23]), Le16(d[24], d[25])],
      Le16(d[26], d[27]),
      [Le16(d[28], d[29]), Le16(d[30], d[31])])
  }

  /** Where the code unit `k` of a fragment starts. */
  function UnitAt(k: nat): nat
    requires k < 13
  {
    if k < 5 then 1 + 2 * k else if k < 11 then 14 + 2 * (k - 5) else 28 + 2 * (k - 11)
  }

  /** The 32 bytes of a fragment: its number and end mark first, the checksum at 13, thirteen code units around them. */
  lemma FragmentBytes(d: Slot, k: nat)
    requires k < 13
    ensures var e := ParseLfn(d);
      && e.order == d[0] && e.checksum == d[13] && (e.IsLast() <==> d[0] / 64 % 2 == 1)
      && (e.name1 + e.name2 + e.name3)[k] == LeValue(d[UnitAt(k)..UnitAt(k) + 2])
  {
    hide LeValue, Le16;
    LeValue2(d, UnitAt(k));
  }

  /** A fragment is written with the attributes 0x0F, and with zeros for its type and cluster. */
  lemma FragmentWritten(e: LfnEntry)
    ensures var d := e.Serialize(); d[11] == 0x0F && d[12] == 0 && d[26] == 0 && d[27] == 0
  {
  }

  lemma WordRoundTrip(w: u16)
    ensures Le16(Lo(w), Hi(w)) == w
  {
  }

  lemma WordsRoundTrip(ws: seq<u16>)
    ensures forall i :: 0 <= i < |ws| ==> Le16(Lo(ws[i]), Hi(ws[i])) == ws[i]
  {
    forall i | 0 <= i < |ws| ensures Le16(Lo(ws[i]), Hi(ws[i])) == ws[i] {
      WordRoundTrip(ws[i]);
    }
  }

  lemma LfnRoundTrip(e: LfnEntry)
    requires e.attr == ATTR_LFN && e.entryType == 0 && e.cluster == 0
    ensures ParseLfn(e.Serialize()) == e
    ensures e.Serialize()[0] == e.order && e.Serialize()[11] == ATTR_LFN
  {
    var p := ParseLfn(e.Serialize());
    assert p.cluster == 0 && p.order == e.order && p.attr == e.attr && p.entryType == 0 && p.checksum == e.checksum;
    WordsRoundTrip(e.name1);
    WordsRoundTrip(e.name2);
    WordsRoundTrip(e.name3);
    hide Le16, Lo, Hi;
    assert p.name1 == e.name1;
    assert p.name2 == e.name2;
    assert p.name3 == e.name3;
    assert p == e;
  }

  /** The code units up to the first 0x0000 or 0xFFFF, those that are no character left out. */
  function TakeChars(units: seq<u16>): string {
    if units == [] || units[0] == 0x0000 || units[0] == 0xFFFF then ""
    else if units[0] < 0xD800 || 0xE000 <= units[0] then [units[0] as char] + TakeChars(units[1..])
    else TakeChars(units[1..])
  }

  function Chars(e: LfnEntry): string {
    var c1 := TakeChars(e.name1);
    if |c1| < 5 then c1
    else
      var c2 := c1 + TakeChars(e.name2);
      if |c2| < 11 then c2 else c2 + TakeChars(e.name3)
  }

  /** Thirteen code units: the characters cut to 16 bits, a zero, then 0xFFFF. */
  function Unit(chars: string, i: nat): u16 {
    if i < |chars| then chars[i] as int % 0x1_0000 else if i == |chars| then 0x0000 else 0xFFFF
  }

  function Units(chars: string, from: nat, n: nat): (us: seq<u16>)
    ensures |us| == n && forall i :: 0 <= i < n ==> us[i] == Unit(chars, from + i)
  {
    if n == 0 then [] else Units(chars, from, n - 1) + [Unit(chars, from + n - 1)]
  }

  function WithLast(order: byte): byte {
    if order / LFN_LAST % 2 == 1 then order else order + LFN_LAST
  }

  function NewLfn(order: byte, checksum: byte, chars: string, isLast: bool): LfnEntry {
    LfnEntry(if isLast then WithLast(order) else order,
      Units(chars, 0, 5), ATTR_LFN, 0, checksum, Units(chars, 5, 6), 0, Units(chars, 11, 2))
  }

  /** A fragment on disk: its characters cut to sixteen bits, a zero behind them, then ones, at the places of the units. */
  lemma FragmentUnits(order: byte, checksum: byte, chars: string, isLast: bool, k: nat)
    requires k < 13
    ensures var d := NewLfn(order, checksum, chars, isLast).Serialize();
      && LeValue(d[UnitAt(k)..UnitAt(k) + 2]) ==
           (if k < |chars| then chars[k] as int % 0x1_0000 else if k == |chars| then 0x0000 else 0xFFFF)
      && d[0] % 64 == order % 64 && d[0] / 128 == order / 128 && (isLast ==> d[0] / 64 % 2 == 1) && (!isLast ==> d[0] == order)
      && d[13] == checksum
  {
    var e := NewLfn(order, checksum, chars, isLast);
    hide LfnEntry.Serialize, ParseLfn, LeValue, LfnEntry.IsLast;
    LfnRoundTrip(e);
    FragmentBytes(e.Serialize(), k);
  }

  /** The characters that sixteen bits hold and that do not read as an end mark. */
  predicate Representable(c: char) {
    0 < c as int < 0xFFFF
  }

  predicate AllRepresentable(s: string) {
    forall i :: 0 <= i < |s| ==> Representable(s[i])
  }

  /** The units hold `chars`, cut to 16 bits, and then nothing or an end mark. */
  ghost predicate Holds(units: seq<u16>, chars: string) {
    && |chars| <= |units|
    && (forall i :: 0 <= i < |chars| ==> units[i] == chars[i] as int % 0x1_0000)
    && (|chars| < |units| ==> units[|chars|] == 0x0000 || units[|chars|] == 0xFFFF)
  }

  /** Reading units back gives the characters exactly when they all fit, and never more of them. */
  lemma {:induction false} TakeHeld(units: seq<u16>, chars: string)
    requires Holds(units, chars)
    ensures |TakeChars(units)| <= |chars|
    ensures TakeChars(units) == chars <==> AllRepresentable(chars)
  {
    if chars != "" {
      var rest := chars[1..];
      TakeHeld(units[1..], rest);
      var got := TakeChars(units);
      assert chars == [chars[0]] + rest;
      assert AllRepresentable(chars) <==> Representable(chars[0]) && AllRepresentable(rest);
      if Representable(chars[0]) {
        assert got == [chars[0]] + TakeChars(units[1..]);
        assert got == chars ==> got[1..] == rest;
      }
    }
  }

  /** One fragment gives its characters back exactly when they all fit, and never more of them. */
  lemma FragmentExact(order: byte, checksum: byte, chars: string, isLast: bool)
    requires |chars| <= 13
    ensures var got := Chars(NewLfn(order, checksum, chars, isLast));
      |got| <= |chars| && (got == chars <==> AllRepresentable(chars))
  {
    hide TakeChars, AllRepresentable;
    var e := NewLfn(order, checksum, chars, isLast);
    var n := |chars|;
    var p1 := if n < 5 then chars else chars[..5];
    CutTwice(chars);
    TakeHeld(e.name1, p1);
    if n >= 5 {
      var p2 := if n < 11 then chars[5..] else chars[5..11];
      TakeHeld(e.name2, p2);
      if n < 11 {
        JoinExact(p1, p2, TakeChars(e.name1), TakeChars(e.name2));
      } else {
        var p3 := chars[11..];
        TakeHeld(e.name3, p3);
        JoinExact(p1, p2, TakeChars(e.name1), TakeChars(e.name2));
        JoinExact(p1 + p2, p3, TakeChars(e.name1) + TakeChars(e.name2), TakeChars(e.name3));
      }
    }
  }

  lemma CutTwice(chars: string)
    ensures |chars| >= 5 ==> chars == chars[..5] + chars[5..]
    ensures |chars| >= 11 ==> chars == chars[..5] + chars[5..11] + chars[11..]
  {
  }

  lemma JoinExact(a: string, b: string, gotA: string, gotB: string)
    requires |gotA| <= |a| && |gotB| <= |b|
    ensures gotA + gotB == a + b <==> gotA == a && gotB == b
    ensures AllRepresentable(a + b) <==> AllRepresentable(a) && AllRepresentable(b)
  {
    if gotA + gotB == a + b {
      assert |gotA| == |a|;
      assert a == (a + b)[..|a|] && b == (a + b)[|a|..];
      assert gotA == (gotA + gotB)[..|a|] && gotB == (gotA + gotB)[|a|..];
    }
    assert forall i :: 0 <= i < |a| ==> (a + b)[i] == a[i];
    assert forall i :: 0 <= i < |b| ==> (a + b)[|a| + i] == b[i];
  }

  // ---- whole names ------------------------------------------------------------------------

  /** Rotate right by one, add, for each of the eleven bytes. */
  function ChecksumOf(bytes: seq<byte>): byte {
    if bytes == [] then 0
    else Turned(ChecksumOf(bytes[..|bytes| - 1]), bytes[|bytes| - 1])
  }

  function Turned(sum: byte, b: byte): byte {
    (sum / 2 + sum % 2 * 0x80 + b) % 0x100
  }

  method LfnChecksum(shortName: Name11) returns (sum: byte)
    ensures sum == ChecksumOf(shortName)
  {
    hide ChecksumOf;
    sum := 0;
    ChecksumNext(shortName, 0);
    for i := 0 to 11
      invariant sum == ChecksumOf(shortName[..i])
    {
      ChecksumNext(shortName, i);
      sum := (sum / 2 + sum % 2 * 0x80 + shortName[i]) % 0x100;
    }
    assert shortName[..11] == shortName;
  }

  lemma TurnedDiffers(s: byte, t: byte, b: byte, c: byte)
    requires (s != t && b == c) || (s == t && b != c)
    ensures Turned(s, b) != Turned(t, c)
  {
    var x, y := s / 2 + s % 2 * 0x80, t / 2 + t % 2 * 0x80;
    assert 0 <= x < 0x100 && 0 <= y < 0x100 && (s != t ==> x != y);
    SumModulo(x, b);
    SumModulo(y, c);
  }

  lemma SumModulo(x: byte, b: byte)
    ensures (x + b) % 0x100 == if x + b < 0x100 then x + b else x + b - 0x100
  {
  }

  lemma {:induction false} ChecksumsDiffer(a: seq<byte>, b: seq<byte>, i: nat)
    requires |a| == |b| && i < |a| && a[i] != b[i] && forall k :: 0 <= k < |a| && k != i ==> a[k] == b[k]
    ensures ChecksumOf(a) != ChecksumOf(b)
  {
    hide Turned;
    var n := |a| - 1;
    if i < n {
      ChecksumsDiffer(a[..n], b[..n], i);
    } else {
      assert a[..n] == b[..n];
    }
    TurnedDiffers(ChecksumOf(a[..n]), ChecksumOf(b[..n]), a[n], b[n]);
  }

  /** The checksum tells apart names that differ in one byte. */
  lemma ChecksumTellsApart(a: Name11, b: Name11, i: nat)
    requires i < 11 && a[i] != b[i] && forall k :: 0 <= k < 11 && k != i ==> a[k] == b[k]
    ensures ChecksumOf(a) != ChecksumOf(b)
  {
    ChecksumsDiffer(a, b, i);
  }

  lemma ChecksumNext(n: seq<byte>, i: nat)
    requires i < |n|
    ensures ChecksumOf(n[..i + 1]) == Turned(ChecksumOf(n[..i]), n[i])
    ensures i == 0 ==> ChecksumOf(n[..i]) == 0
  {
    assert n[..i + 1][..i] == n[..i];
  }

  /** The checksum of "README  TXT". */
  lemma ChecksumOfReadme()
    ensures ChecksumOf([0x52, 0x45, 0x41, 0x44, 0x4D, 0x45, 0x20, 0x20, 0x54, 0x58, 0x54]) == 0x73
  {
    hide ChecksumOf;
    var n: seq<byte> := [0x52, 0x45, 0x41, 0x44, 0x4D, 0x45, 0x20, 0x20, 0x54, 0x58, 0x54];
    ChecksumNext(n, 0);
    assert Turned(0, 82) == 82;
    ChecksumNext(n, 1);
    assert Turned(82, 69) == 110;
    ChecksumNext(n, 2);
    assert Turned(110, 65) == 120;
    ChecksumNext(n, 3);
    assert Turned(120, 68) == 128;
    ChecksumNext(n, 4);
    assert Turned(128, 77) == 141;
    ChecksumNext(n, 5);
    assert Turned(141, 69) == 11;
    ChecksumNext(n, 6);
    assert Turned(11, 32) == 165;
    ChecksumNext(n, 7);
    assert Turned(165, 32) == 242;
    ChecksumNext(n, 8);
    assert Turned(242, 84) == 205;
    ChecksumNext(n, 9);
    assert Turned(205, 88) == 62;
    ChecksumNext(n, 10);
    assert Turned(62, 84) == 115;
    assert n[..11] == n;
  }

  function NumFragments(name: string): nat {
    (|name| + 12) / 13
  }

  function FragmentChars(name: string, i: nat): (chars: string)
    ensures |chars| <= 13
  {
    var start := i * 13;
    var end := if start + 13 < |name| then start + 13 else |name|;
    if start <= end then name[start..end] else ""
  }

  function Fragment(name: string, checksum: byte, i: nat): LfnEntry {
    NewLfn((i + 1) % 0x100, checksum, FragmentChars(name, i), i + 1 == NumFragments(name))
  }

  /** The fragments in the order they are stored: the last part of the name first. */
  function LfnEntriesOf(name: string, checksum: byte): (es: seq<LfnEntry>)
    ensures |es| == NumFragments(name)
    ensures forall k :: 0 <= k < |es| ==> es[k].checksum == checksum && es[k].attr == ATTR_LFN
  {
    seq(NumFragments(name), k requires 0 <= k < NumFragments(name) => Fragment(name, checksum, NumFragments(name) - 1 - k))
  }

  /** As many fragments as thirteen characters each make necessary. */
  lemma FragmentCount(name: string, checksum: byte)
    ensures var n := |LfnEntriesOf(name, checksum)|; 13 * n < |name| + 13 && |name| <= 13 * n
  {
  }

  method CreateLfnEntries(name: string, shortName: Name11) returns (entries: seq<LfnEntry>)
    ensures entries == LfnEntriesOf(name, ChecksumOf(shortName))
  {
    var checksum := LfnChecksum(shortName);
    var numEntries := (|name| + 12) / 13;
    entries := [];
    for i := numEntries downto 0
      invariant entries == LfnEntriesOf(name, checksum)[..numEntries - i]
    {
      var start := i * 13;
      var end := if start + 13 < |name| then start + 13 else |name|;
      ghost var es := LfnEntriesOf(name, checksum);
      assert es[numEntries - i - 1] == Fragment(name, checksum, i);
      assert es[..numEntries - i] == es[..numEntries - i - 1] + [es[numEntries - i - 1]];
      entries := entries + [NewLfn((i + 1) % 0x100, checksum, name[start..end], i == numEntries - 1)];
    }
  }

  function Assembled(es: seq<LfnEntry>): string {
    if es == [] then "" else Assembled(es[1..]) + Chars(es[0])
  }

  method AssembleLfn(entries: seq<LfnEntry>) returns (chars: string)
    ensures chars == Assembled(entries)
  {
    chars := "";
    for i := |entries| downto 0
      invariant chars == Assembled(entries[i..])
    {
      assert entries[i..][1..] == entries[i + 1..];
      chars := chars + Chars(entries[i]);
    }
  }

  // ---- what reading long names can give ----------------------------------------------------

  lemma {:induction false} TakenFits(units: seq<u16>)
    ensures AllRepresentable(TakeChars(units))
  {
    if units != [] {
      TakenFits(units[1..]);
    }
  }

  lemma BothFit(a: string, b: string)
    requires AllRepresentable(a) && AllRepresentable(b)
    ensures AllRepresentable(a + b)
  {
  }

  /** Whatever the fragments, every character read from them is one that fragments can hold. */
  lemma {:induction false} AssembledFits(es: seq<LfnEntry>)
    ensures AllRepresentable(Assembled(es))
  {
    hide TakeChars, AllRepresentable;
    if es == [] {
      AllRepresentableEmpty();
    } else {
      AssembledFits(es[1..]);
      var e := es[0];
      TakenFits(e.name1);
      TakenFits(e.name2);
      TakenFits(e.name3);
      BothFit(TakeChars(e.name1), TakeChars(e.name2));
      BothFit(TakeChars(e.name1) + TakeChars(e.name2), TakeChars(e.name3));
      BothFit(Assembled(es[1..]), Chars(e));
    }
  }

  /** Case makes no difference to what fragments can hold. */
  lemma LowerFits(s: string, t: string)
    requires Lower(s) == Lower(t) && AllRepresentable(s)
    ensures AllRepresentable(t)
  {
    forall i | 0 <= i < |t| ensures Representable(t[i]) {
      assert LowerChar(s[i]) == Lower(s)[i] == Lower(t)[i] == LowerChar(t[i]);
    }
  }

  lemma AllRepresentableEmpty()
    ensures AllRepresentable("")
  {
  }

  /** The characters of the first `i` fragments. */
  lemma PrefixGrows(name: string, i: nat)
    requires 0 < i
    ensures var before := if (i - 1) * 13 < |name| then name[..(i - 1) * 13] else name;
      (if i * 13 < |name| then name[..i * 13] else name) == before + FragmentChars(name, i - 1)
  {
    var start := (i - 1) * 13;
    assert i * 13 == start + 13;
    if start < |name| {
      var end := if start + 13 < |name| then start + 13 else |name|;
      assert name[..end] == name[..start] + name[start..end];
    }
  }

  lemma {:induction false} AssembledUpTo(name: string, checksum: byte, i: nat)
    requires i <= NumFragments(name)
    ensures var es := LfnEntriesOf(name, checksum);
      var prefix := if i * 13 < |name| then name[..i * 13] else name;
      var got := Assembled(es[|es| - i..]);
      |got| <= |prefix| && (got == prefix <==> AllRepresentable(prefix))
  {
    hide Chars, NewLfn, AllRepresentable, ChecksumOf;
    if i == 0 {
      AllRepresentableEmpty();
    } else {
      AssembledUpTo(name, checksum, i - 1);
      var es := LfnEntriesOf(name, checksum);
      var tail := es[|es| - i..];
      assert tail[1..] == es[|es| - (i - 1)..];
      assert tail[0] == Fragment(name, checksum, i - 1);
      var before := if (i - 1) * 13 < |name| then name[..(i - 1) * 13] else name;
      var prefix := if i * 13 < |name| then name[..i * 13] else name;
      var chars := FragmentChars(name, i - 1);
      PrefixGrows(name, i);
      FragmentExact(i % 0x100, checksum, chars, i == NumFragments(name));
      JoinExact(before, chars, Assembled(tail[1..]), Chars(tail[0]));
    }
  }

  /** Cutting a name into fragments and assembling them gives it back exactly when every character fits. */
  lemma LfnNameRoundTrip(name: string, checksum: byte)
    ensures Assembled(LfnEntriesOf(name, checksum)) == name <==> AllRepresentable(name)
  {
    var n := NumFragments(name);
    AssembledUpTo(name, checksum, n);
    var es := LfnEntriesOf(name, checksum);
    assert es[|es| - n..] == es;
  }

  /**
    Up to 64 fragments, only the first stored one is marked last, and no fragment looks like a
    free slot.
   */
  lemma FragmentOrders(name: string, checksum: byte, k: nat)
    requires k < NumFragments(name) <= 64
    ensures var e := LfnEntriesOf(name, checksum)[k];
      && (e.IsLast() <==> k == 0)
      && e.order != 0x00 && e.order != DELETED
      && e.order % LFN_LAST == (NumFragments(name) - k) % LFN_LAST
  {
    var m := NumFragments(name) - k;
    assert LfnEntriesOf(name, checksum)[k] == Fragment(name, checksum, m - 1);
    assert m % 0x100 == m && (k > 0 ==> m / LFN_LAST == 0);
  }

  /** The reader's start mark is on the first stored fragment alone exactly up to 64 fragments. */
  lemma FirstAloneIsLast(name: string, checksum: byte)
    ensures (forall k :: 0 <= k < |LfnEntriesOf(name, checksum)| ==> (LfnEntriesOf(name, checksum)[k].IsLast() <==> k == 0))
      <==> NumFragments(name) <= 64
  {
    hide FragmentChars, NewLfn;
    var es, n := LfnEntriesOf(name, checksum), NumFragments(name);
    if n <= 64 {
      forall k: nat | k < |es| ensures es[k].IsLast() <==> k == 0 {
        FragmentOrders(name, checksum, k);
      }
    } else {
      SixtyFourthIsMarked(name, checksum);
    }
  }

  lemma SixtyFourthIsMarked(name: string, checksum: byte)
    requires NumFragments(name) > 64
    ensures var es := LfnEntriesOf(name, checksum); |es| > 64 && es[|es| - 64].IsLast()
  {
    var es := LfnEntriesOf(name, checksum);
    assert es[|es| - 64] == Fragment(name, checksum, 63);
  }
}
