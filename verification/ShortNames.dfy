/** 8.3 names: how a long name is squeezed into eleven bytes and shown again. */
module ShortNames {
  import opened Bytes

  const SPACE: byte := 0x20

  type Name11 = n: seq<byte> | |n| == 11 witness seq(11, _ => 0)

  // ---- ASCII case -------------------------------------------------------------------------

  function LowerChar(c: char): char {
    if 'A' <= c <= 'Z' then (c as int + 32) as char else c
  }

  function UpperChar(c: char): char {
    if 'a' <= c <= 'z' then (c as int - 32) as char else c
  }

  function Lower(s: string): string {
    seq(|s|, i requires 0 <= i < |s| => LowerChar(s[i]))
  }

  function Upper(s: string): string {
    seq(|s|, i requires 0 <= i < |s| => UpperChar(s[i]))
  }

  /** The same character, or the same ASCII letter in its two cases. */
  predicate SameLetter(a: char, b: char) {
    a == b || ('A' <= a <= 'Z' && b as int == a as int + 32) || ('A' <= b <= 'Z' && a as int == b as int + 32)
  }

  predicate SameUpToCase(a: string, b: string) {
    |a| == |b| && forall i :: 0 <= i < |a| ==> SameLetter(a[i], b[i])
  }

  /** `t` is `s` with its capital letters, and nothing else, made small. */
  predicate LoweredTo(s: string, t: string) {
    |t| == |s| && forall i :: 0 <= i < |s| ==> if 'A' <= s[i] <= 'Z' then t[i] as int == s[i] as int + 32 else t[i] == s[i]
  }

  lemma LowerExactly(s: string, t: string)
    ensures Lower(s) == t <==> LoweredTo(s, t)
  {
    if LoweredTo(s, t) {
      forall i | 0 <= i < |s| ensures Lower(s)[i] == t[i] {
        assert LowerChar(s[i]) as int == t[i] as int;
      }
    }
  }

  /** Comparing in lower case is comparing letters in either case. */
  lemma MatchExactly(a: string, b: string)
    ensures Lower(a) == Lower(b) <==> SameUpToCase(a, b)
  {
    if Lower(a) == Lower(b) {
      forall i | 0 <= i < |a| ensures SameLetter(a[i], b[i]) {
        assert Lower(a)[i] == LowerChar(a[i]) && Lower(b)[i] == LowerChar(b[i]);
      }
    }
    if SameUpToCase(a, b) {
      forall i | 0 <= i < |a| ensures Lower(a)[i] == Lower(b)[i] {
        assert SameLetter(a[i], b[i]);
      }
    }
  }

  predicate IsUpperAlnum(c: char) {
    '0' <= c <= '9' || 'A' <= c <= 'Z'
  }

  predicate IsAlnum(c: char) {
    IsUpperAlnum(c) || 'a' <= c <= 'z'
  }

  /** The bytes that `c` takes in UTF-8. */
  function Utf8Width(c: char): nat {
    if c as int < 0x80 then 1 else if c as int < 0x800 then 2 else if c as int < 0x1_0000 then 3 else 4
  }

  function Utf8Len(s: string): (n: nat)
    ensures n >= |s|
  {
    if s == "" then 0 else Utf8Len(s[..|s| - 1]) + Utf8Width(s[|s| - 1])
  }

  lemma {:induction false} AsciiLen(s: string)
    requires forall i :: 0 <= i < |s| ==> s[i] < 0x80 as char
    ensures Utf8Len(s) == |s|
  {
    if s != "" {
      AsciiLen(s[..|s| - 1]);
    }
  }

  // ---- splitting off the extension --------------------------------------------------------

  /** The position of the last dot, -1 when there is none. */
  function LastDot(s: string): (d: int)
    ensures -1 <= d < |s|
    ensures d >= 0 ==> s[d] == '.'
    ensures forall i :: d < i < |s| ==> s[i] != '.'
  {
    if s == "" then -1 else if s[|s| - 1] == '.' then |s| - 1 else LastDot(s[..|s| - 1])
  }

  function Base(s: string): string {
    if LastDot(s) < 0 then s else s[..LastDot(s)]
  }

  function Ext(s: string): string {
    if LastDot(s) < 0 then "" else s[LastDot(s) + 1..]
  }

  // ---- to eleven bytes and back -----------------------------------------------------------

  function ShortByte(c: char): byte {
    if IsAlnum(c) || c == '_' || c == '-' then c as int else '_' as int
  }

  function FieldByte(part: string, i: nat): byte {
    if i < |part| then ShortByte(part[i]) else SPACE
  }

  function ShortNameOf(name: string): Name11 {
    var upper := Upper(name);
    Field(Base(upper), 8) + Field(Ext(upper), 3)
  }

  /** A part of a name in a field of `n` bytes. */
  function Field(part: string, n: nat): (f: seq<byte>)
    ensures |f| == n && forall i :: 0 <= i < n ==> f[i] == FieldByte(part, i)
  {
    seq(n, i requires 0 <= i < n => FieldByte(part, i))
  }

  method MakeShortName(name: string) returns (result: Name11)
    ensures result == ShortNameOf(name)
  {
    var upper := Upper(name);
    var base, ext := Base(upper), Ext(upper);
    result := seq(11, _ => SPACE);
    for i := 0 to if |base| < 8 then |base| else 8
      invariant forall k :: 0 <= k < 11 ==> result[k] == if k < i then FieldByte(base, k) else SPACE
    {
      result := result[i := ShortByte(base[i])];
    }
    for i := 0 to if |ext| < 3 then |ext| else 3
      invariant forall k :: 0 <= k < 8 ==> result[k] == FieldByte(base, k)
      invariant forall k :: 8 <= k < 11 ==> result[k] == if k - 8 < i then FieldByte(ext, k - 8) else SPACE
    {
      result := result[8 + i := ShortByte(ext[i])];
    }
    forall k: nat | k < 11 ensures result[k] == ShortNameOf(name)[k] {
      if k >= 8 {
        var j: nat := k - 8;
        assert j < |ext| || FieldByte(ext, j) == SPACE;
        assert result[k] == FieldByte(ext, j);
      }
    }
  }

  /** The bytes before the first space, as lower-case characters. */
  function Shown(field: seq<byte>): string {
    if field == [] || field[0] == SPACE then "" else [LowerChar(field[0] as char)] + Shown(field[1..])
  }

  function ShownName(n: Name11): string {
    if Shown(n[8..]) == "" then Shown(n[..8]) else Shown(n[..8]) + "." + Shown(n[8..])
  }

  predicate NeedsLfn(name: string) {
    || Utf8Len(name) > 12
    || (if LastDot(name) < 0 then Utf8Len(name) > 8 else Utf8Len(Base(name)) > 8 || Utf8Len(Ext(name)) > 3)
    || exists i :: 0 <= i < |name| && !(IsUpperAlnum(name[i]) || name[i] == '.' || name[i] == '_' || name[i] == '-')
  }

  /** The condition under which an 8.3 name comes back: one dot at most, and not at the end. */
  predicate DotsOk(name: string) {
    LastDot(name) < 0 || ('.' !in Base(name) && Ext(name) != "")
  }

  /** No eleven-byte name looks like a free slot, whatever the long name. */
  lemma ShortNameFirstByte(name: string)
    ensures ShortNameOf(name)[0] != 0x00 && ShortNameOf(name)[0] != 0xE5
  {
  }

  /** How a character is stored in a short name: as a capital, a digit, "_" or "-", else as "_". */
  predicate StoredAs(c: char, b: byte) {
    if 'a' <= c <= 'z' then b == c as int - 32
    else if 'A' <= c <= 'Z' || '0' <= c <= '9' || c == '_' || c == '-' then b == c as int
    else b == 0x5F
  }

  lemma UpperLastDot(name: string)
    ensures LastDot(Upper(name)) == LastDot(name)
  {
    hide LastDot;
    var d := LastDot(name);
    if d >= 0 {
      assert Upper(name)[d] == '.';
    }
    if LastDot(Upper(name)) >= 0 {
      assert UpperChar(name[LastDot(Upper(name))]) == '.';
    }
  }

  /** The eleven bytes: up to eight for what comes before the last dot, up to three for what comes behind, then spaces. */
  lemma ShortNameBytes(name: string, i: nat)
    requires i < 11
    ensures var d, b := LastDot(name), ShortNameOf(name)[i];
      var field := if i >= 8 then (if d < 0 then "" else name[d + 1..]) else if d < 0 then name else name[..d];
      var k := if i < 8 then i else i - 8;
      if k < |field| then StoredAs(field[k], b) else b == 0x20
  {
    hide LastDot, FieldByte, StoredAs, Field;
    UpperLastDot(name);
    var d := LastDot(name);
    if i < 8 {
      assert Base(Upper(name)) == Upper(if d < 0 then name else name[..d]);
      FieldStored(if d < 0 then name else name[..d], i);
    } else {
      assert Ext(Upper(name)) == Upper(if d < 0 then "" else name[d + 1..]);
      FieldStored(if d < 0 then "" else name[d + 1..], i - 8);
    }
  }

  lemma FieldStored(field: string, k: nat)
    ensures if k < |field| then StoredAs(field[k], FieldByte(Upper(field), k)) else FieldByte(Upper(field), k) == 0x20
  {
  }

  /** A name gets no long name exactly when it fits the eleven bytes as it is. */
  lemma NeedsLfnExactly(name: string)
    ensures !NeedsLfn(name) <==>
      && (forall i :: 0 <= i < |name| ==>
            'A' <= name[i] <= 'Z' || '0' <= name[i] <= '9' || name[i] == '.' || name[i] == '_' || name[i] == '-')
      && if LastDot(name) < 0 then |name| <= 8 else LastDot(name) <= 8 && |name| - LastDot(name) - 1 <= 3
  {
    hide Utf8Len, LastDot;
    if forall i :: 0 <= i < |name| ==> IsUpperAlnum(name[i]) || name[i] == '.' || name[i] == '_' || name[i] == '-' {
      AsciiLen(name);
      AsciiLen(Base(name));
      AsciiLen(Ext(name));
    }
  }

  lemma {:induction false} ShownField(part: string, n: nat)
    requires |part| <= n
    ensures var field := seq(n, i requires 0 <= i < n => FieldByte(part, i));
      Shown(field) == ShownChars(part)
  {
    var field := seq(n, i requires 0 <= i < n => FieldByte(part, i));
    if part != "" {
      var rest := part[1..];
      ShownField(rest, n - 1);
      assert field[1..] == seq(n - 1, i requires 0 <= i < n - 1 => FieldByte(rest, i));
      assert ShownChars(part) == [ShownChars(part)[0]] + ShownChars(rest);
    }
  }

  function ShownChars(part: string): string {
    seq(|part|, i requires 0 <= i < |part| => LowerChar(ShortByte(part[i]) as char))
  }

  /** A name without long-name entries is in upper case, and its two parts fit their fields. */
  lemma PartsFit(name: string)
    requires name != "" && !NeedsLfn(name)
    ensures Upper(name) == name && |Base(name)| <= 8 && |Ext(name)| <= 3
  {
  }

  lemma PlainCharsKept(name: string)
    requires !NeedsLfn(name)
    ensures forall i :: 0 <= i < |name| && name[i] != '.' ==> LowerChar(ShortByte(name[i]) as char) == LowerChar(name[i])
  {
    hide Utf8Len;
  }

  lemma EmptyShown(part: string)
    ensures ShownChars(part) == "" <==> part == ""
  {
  }

  /** What a name without long-name entries is shown as. */
  lemma ShownParts(name: string)
    requires name != "" && !NeedsLfn(name)
    ensures ShownName(ShortNameOf(name)) ==
      if Ext(name) == "" then ShownChars(Base(name)) else ShownChars(Base(name)) + "." + ShownChars(Ext(name))
  {
    hide Shown, FieldByte, NeedsLfn, Upper, Base, Ext;
    PartsFit(name);
    EmptyShown(Ext(name));
    var base, ext := Base(name), Ext(name);
    var n := ShortNameOf(name);
    ShownField(base, 8);
    ShownField(ext, 3);
    assert n[..8] == seq(8, i requires 0 <= i < 8 => FieldByte(base, i));
    assert n[8..] == seq(3, i requires 0 <= i < 3 => FieldByte(ext, i));
  }

  lemma TwoDotsPlain()
    ensures !NeedsLfn("A.B.C") && !DotsOk("A.B.C")
  {
    hide Utf8Len, LastDot;
    var name := "A.B.C";
    assert name[3] == '.' && LastDot(name) == 3;
    assert Base(name) == ['A', '.', 'B'] && Ext(name) == ['C'];
    AsciiLen(name);
    AsciiLen(Base(name));
    AsciiLen(Ext(name));
    assert '.' in Base(name);
  }

  lemma NoCapitals(s: string)
    requires Lower(s) == s
    ensures forall i :: 0 <= i < |s| ==> !('A' <= s[i] <= 'Z')
  {
    forall i | 0 <= i < |s| ensures !('A' <= s[i] <= 'Z') {
      assert Lower(s)[i] == LowerChar(s[i]);
    }
  }

  /** Whatever the eleven bytes, the name shown has no capital letter. */
  lemma ShownWithoutCapitals(n: Name11)
    ensures forall i :: 0 <= i < |ShownName(n)| ==> !('A' <= ShownName(n)[i] <= 'Z')
  {
    hide ShownName;
    ShownNameIsLower(n);
    NoCapitals(ShownName(n));
  }

  /** A shown name has no upper-case letter. */
  lemma {:induction false} ShownIsLower(field: seq<byte>)
    ensures Lower(Shown(field)) == Shown(field)
  {
    if field != [] && field[0] != SPACE {
      ShownIsLower(field[1..]);
      assert Shown(field) == [LowerChar(field[0] as char)] + Shown(field[1..]);
      assert forall i :: 0 <= i < |Shown(field[1..])| ==> Lower(Shown(field[1..]))[i] == Shown(field[1..])[i];
    }
  }

  lemma ShownNameIsLower(n: Name11)
    ensures Lower(ShownName(n)) == ShownName(n)
  {
    hide Shown;
    ShownIsLower(n[..8]);
    ShownIsLower(n[8..]);
    var a, b := Shown(n[..8]), Shown(n[8..]);
    assert forall i :: 0 <= i < |a| ==> Lower(a)[i] == a[i];
    assert forall i :: 0 <= i < |b| ==> Lower(b)[i] == b[i];
  }

  lemma ShownWhenDotsOk(name: string)
    requires DotsOk(name)
    requires forall i :: 0 <= i < |name| && name[i] != '.' ==> LowerChar(ShortByte(name[i]) as char) == LowerChar(name[i])
    ensures (if Ext(name) == "" then ShownChars(Base(name)) else ShownChars(Base(name)) + "." + ShownChars(Ext(name)))
      == Lower(name)
  {
  }

  lemma ShownWhenDotsWrong(name: string)
    requires !DotsOk(name)
    ensures (if Ext(name) == "" then ShownChars(Base(name)) else ShownChars(Base(name)) + "." + ShownChars(Ext(name)))
      != Lower(name)
  {
    var base := Base(name);
    if '.' in base {
      var k :| 0 <= k < |base| && base[k] == '.';
      assert ShownChars(base)[k] == '_' && Lower(name)[k] == '.';
    }
  }

  /**
    A name that gets no long-name entries is shown as its lower case exactly when it has at
    most one dot and does not end in it.
   */
  lemma ShortNameRoundTrip(name: string)
    requires name != "" && !NeedsLfn(name)
    ensures ShownName(ShortNameOf(name)) == Lower(name) <==> DotsOk(name)
    ensures LoweredTo(name, ShownName(ShortNameOf(name))) <==> DotsOk(name)
  {
    LowerExactly(name, ShownName(ShortNameOf(name)));
    ShownParts(name);
    PlainCharsKept(name);
    if DotsOk(name) { ShownWhenDotsOk(name); } else { ShownWhenDotsWrong(name); }
  }
}
