/** Bytes, little-endian words, sequences cut into blocks, and what goes with them. */
module Bytes {

  type byte = x: int | 0 <= x < 0x100
  type u16 = x: int | 0 <= x < 0x1_0000
  type u32 = x: int | 0 <= x < 0x1_0000_0000

  const U64: nat := 0x1_0000_0000_0000_0000

  function Le16(lo: byte, hi: byte): u16 {
    lo + 0x100 * hi
  }

  function Lo(v: u16): byte { v % 0x100 }

  function Hi(v: u16): byte { v / 0x100 }

  function Le32(b0: byte, b1: byte, b2: byte, b3: byte): u32 {
    b0 + 0x100 * b1 + 0x1_0000 * b2 + 0x100_0000 * b3
  }

  function ToLe32(v: u32): (r: seq<byte>)
    ensures |r| == 4
    ensures Le32(r[0], r[1], r[2], r[3]) == v
  {
    var q1 := v / 0x100;
    var q2 := q1 / 0x100;
    var q3 := q2 / 0x100;
    assert v == 0x100 * q1 + v % 0x100 && q1 == 0x100 * q2 + q1 % 0x100 && q2 == 0x100 * q3 + q2 % 0x100;
    [v % 0x100, q1 % 0x100, q2 % 0x100, q3]
  }

  /** The number that bytes stand for, the lowest first. */
  function LeValue(bytes: seq<byte>): nat {
    if bytes == [] then 0 else bytes[0] + 0x100 * LeValue(bytes[1..])
  }

  lemma LeValue2(s: seq<byte>, at: nat)
    requires at + 2 <= |s|
    ensures LeValue(s[at..at + 2]) == Le16(s[at], s[at + 1])
  {
    var b := s[at..at + 2];
    assert b[1..][1..] == [];
    assert LeValue(b[1..]) == b[1] + 0x100 * LeValue([]);
  }

  lemma LeValue4(s: seq<byte>, at: nat)
    requires at + 4 <= |s|
    ensures LeValue(s[at..at + 4]) == Le32(s[at], s[at + 1], s[at + 2], s[at + 3])
  {
    var b := s[at..at + 4];
    assert b[2..] == s[at + 2..at + 4] && b[1..][1..] == b[2..];
    LeValue2(s, at + 2);
  }

  function Zeros(n: nat): (r: seq<byte>)
    ensures |r| == n && forall i :: 0 <= i < n ==> r[i] == 0
  {
    seq(n, _ => 0)
  }

  /** Overwrites `s` from `at` on with `patch`: the source's `copy_from_slice` into a sub-slice. */
  function Splice<T>(s: seq<T>, at: nat, patch: seq<T>): (r: seq<T>)
    requires at + |patch| <= |s|
    ensures |r| == |s|
    ensures forall i :: 0 <= i < |s| ==> r[i] == if at <= i < at + |patch| then patch[i - at] else s[i]
  {
    s[..at] + patch + s[at + |patch|..]
  }

  function CeilDiv(n: nat, size: nat): nat
    requires size > 0
  {
    (n + size - 1) / size
  }

  /** The first `n` elements, or all when there are not that many. */
  function Front<T>(s: seq<T>, n: nat): seq<T> {
    if n < |s| then s[..n] else s
  }

  function Inserted<T>(s: seq<T>, j: nat, x: T): seq<T> {
    if j <= |s| then s[..j] + [x] + s[j..] else s + [x]
  }

  /** All pieces one after the other. */
  function Concat<T>(pieces: seq<seq<T>>): seq<T> {
    if pieces == [] then [] else Concat(pieces[..|pieces| - 1]) + pieces[|pieces| - 1]
  }

  lemma {:induction false} ConcatLength<T>(pieces: seq<seq<T>>, size: nat)
    requires forall i :: 0 <= i < |pieces| ==> |pieces[i]| == size
    ensures |Concat(pieces)| == |pieces| * size
  {
    if pieces != [] {
      ConcatLength(pieces[..|pieces| - 1], size);
      assert |pieces| * size == (|pieces| - 1) * size + size;
    }
  }

  /** Cutting a concatenation of equally long pieces gives the pieces back. */
  lemma {:induction false} ConcatAt<T>(pieces: seq<seq<T>>, size: nat, i: nat)
    requires i < |pieces| && forall k :: 0 <= k < |pieces| ==> |pieces[k]| == size
    ensures |Concat(pieces)| == |pieces| * size && 0 <= i * size <= (i + 1) * size <= |Concat(pieces)|
    ensures Concat(pieces)[i * size..(i + 1) * size] == pieces[i]
  {
    var n := |pieces| - 1;
    var front := pieces[..n];
    ConcatLength(pieces, size);
    ConcatLength(front, size);
    SliceBounds(i, n + 1, size);
    if i < n {
      ConcatAt(front, size, i);
      assert Concat(pieces)[..|Concat(front)|] == Concat(front);
    }
  }

  lemma ConcatElement<T>(pieces: seq<seq<T>>, size: nat, i: nat, r: nat)
    requires i < |pieces| && r < size && forall k :: 0 <= k < |pieces| ==> |pieces[k]| == size
    ensures i * size + r < |Concat(pieces)| && Concat(pieces)[i * size + r] == pieces[i][r]
  {
    hide Concat;
    ConcatAt(pieces, size, i);
    assert (i + 1) * size == i * size + size;
    assert Concat(pieces)[i * size..(i + 1) * size][r] == pieces[i][r];
  }

  lemma SliceBounds(j: nat, n: nat, size: nat)
    requires j < n
    ensures 0 <= j * size <= (j + 1) * size <= n * size
    ensures (j + 1) * size == j * size + size
  {
    assert n * size - (j + 1) * size == (n - (j + 1)) * size;
  }

  /** The `j`-th block of `size` elements, empty when `s` does not hold it whole. */
  function Block<T>(s: seq<T>, j: nat, size: nat): seq<T> {
    if 0 <= j * size <= (j + 1) * size <= |s| then s[j * size..(j + 1) * size] else []
  }

  /** Cutting `whole` into blocks of `size` and concatenating them gives `whole` back. */
  lemma ConcatBlocks<T>(pieces: seq<seq<T>>, whole: seq<T>, size: nat)
    requires |whole| == |pieces| * size
    requires forall j: nat :: j < |pieces| ==> pieces[j] == Block(whole, j, size)
    ensures Concat(pieces) == whole
  {
    ConcatBlocksUpTo(pieces, whole, size, |pieces|);
    assert pieces[..|pieces|] == pieces;
  }

  lemma {:induction false} ConcatBlocksUpTo<T>(pieces: seq<seq<T>>, whole: seq<T>, size: nat, n: nat)
    requires n <= |pieces| && |whole| == |pieces| * size
    requires forall j: nat :: j < |pieces| ==> pieces[j] == Block(whole, j, size)
    ensures n * size <= |whole| && Concat(pieces[..n]) == whole[..n * size]
  {
    if n > 0 {
      SliceBounds(n - 1, |pieces|, size);
      ConcatBlocksUpTo(pieces, whole, size, n - 1);
      assert pieces[..n][..n - 1] == pieces[..n - 1];
      assert pieces[n - 1] == Block(whole, n - 1, size);
      var lo, hi := (n - 1) * size, n * size;
      assert whole[..hi] == whole[..lo] + whole[lo..hi];
    }
  }

  lemma {:induction false} ConcatAppend<T>(a: seq<seq<T>>, b: seq<seq<T>>)
    ensures Concat(a + b) == Concat(a) + Concat(b)
  {
    if b == [] {
      assert a + b == a;
    } else {
      var n := |b| - 1;
      assert (a + b)[..|a + b| - 1] == a + b[..n];
      ConcatAppend(a, b[..n]);
    }
  }
}
