/**
  The FAT as a map from clusters to 28-bit cells, the data area as a map from clusters to
  bytes, and the theory of cluster chains over the two. Nothing here knows about sectors.
 */
module FatVolume {
  import opened Bytes

  const EOC: nat := 0x0FFF_FFF8
  const FREE: nat := 0
  const CELL: nat := 0x1000_0000
  /** Cluster numbers stay below the bad-cluster and end-of-chain marks. */
  const MAX_CELLS: nat := 0x0FFF_FFF7

  datatype Vol = Vol(fat: seq<nat>, data: seq<seq<byte>>)

  /** `size` is the number of bytes in a cluster. Clusters 0 and 1 do not exist. */
  ghost predicate VolOk(v: Vol, size: nat) {
    && 2 <= |v.fat| == |v.data| <= MAX_CELLS
    && size > 0
    && (forall c :: 0 <= c < |v.fat| ==> v.fat[c] < CELL)
    && (forall c :: 2 <= c < |v.fat| ==> |v.data[c]| == size)
  }

  predicate InRange(fat: seq<nat>, c: nat) {
    2 <= c < |fat|
  }

  /** What `while cluster >= 2 && cluster < FAT32_EOC` treats as the end. */
  predicate IsStop(c: nat) {
    c < 2 || c >= EOC
  }

  function Cluster(v: Vol, c: nat): seq<byte> {
    if c < |v.data| then v.data[c] else []
  }

  // ---- chains -----------------------------------------------------------------------------

  /** `ch` is a non-empty, EOC-ended run of links. */
  ghost predicate IsChain(fat: seq<nat>, ch: seq<nat>) {
    && |ch| > 0
    && (forall i :: 0 <= i < |ch| ==> InRange(fat, ch[i]))
    && (forall i :: 0 <= i < |ch| - 1 ==> fat[ch[i]] == ch[i + 1])
    && fat[ch[|ch| - 1]] >= EOC
  }

  ghost predicate Distinct(s: seq<nat>) {
    forall i, j :: 0 <= i < j < |s| ==> s[i] != s[j]
  }

  lemma {:induction false} ChainNoRepeat(fat: seq<nat>, ch: seq<nat>, i: nat, j: nat)
    requires |fat| <= MAX_CELLS && IsChain(fat, ch) && i < j < |ch|
    ensures ch[i] != ch[j]
    decreases |ch| - j
  {
    assert fat[ch[i]] == ch[i + 1];
    if j < |ch| - 1 {
      assert fat[ch[j]] == ch[j + 1];
      ChainNoRepeat(fat, ch, i + 1, j + 1);
    }
  }

  /** An EOC-ended chain visits no cluster twice. */
  lemma ChainDistinct(fat: seq<nat>, ch: seq<nat>)
    requires |fat| <= MAX_CELLS && IsChain(fat, ch)
    ensures Distinct(ch)
  {
    forall i, j | 0 <= i < j < |ch| ensures ch[i] != ch[j] {
      ChainNoRepeat(fat, ch, i, j);
    }
  }

  ghost function Clusters(fat: seq<nat>): set<nat> {
    set c: nat | 2 <= c < |fat| && InRange(fat, c)
  }

  /** The clusters met when following links from `c` without visiting one outside `left` or twice. */
  ghost function Walk(fat: seq<nat>, c: nat, left: set<nat>): seq<nat>
    decreases left
  {
    if c in left && c < |fat| then [c] + Walk(fat, fat[c], left - {c}) else []
  }

  ghost function ChainOf(fat: seq<nat>, start: nat): seq<nat> {
    Walk(fat, start, Clusters(fat))
  }

  /** Following links from `c` reaches a stop mark: exactly when the source's reading loop ends. */
  ghost predicate Stops(fat: seq<nat>, c: nat, left: set<nat>)
    decreases left
  {
    IsStop(c) || (c in left && c < |fat| && Stops(fat, fat[c], left - {c}))
  }

  ghost predicate Readable(fat: seq<nat>, start: nat) {
    Stops(fat, start, Clusters(fat))
  }

  lemma {:induction false} WalkFollowsChain(fat: seq<nat>, ch: seq<nat>, left: set<nat>)
    requires |fat| <= MAX_CELLS && IsChain(fat, ch) && Distinct(ch)
    requires left <= Clusters(fat) && forall i :: 0 <= i < |ch| ==> ch[i] in left
    ensures Walk(fat, ch[0], left) == ch && Stops(fat, ch[0], left)
  {
    if |ch| > 1 {
      WalkFollowsChain(fat, ch[1..], left - {ch[0]});
      assert ch == [ch[0]] + ch[1..];
    }
  }

  /** A well-formed chain is what the walk from its head finds. */
  lemma ChainIsWalked(fat: seq<nat>, ch: seq<nat>)
    requires |fat| <= MAX_CELLS && IsChain(fat, ch)
    ensures ChainOf(fat, ch[0]) == ch && Readable(fat, ch[0])
  {
    ChainDistinct(fat, ch);
    WalkFollowsChain(fat, ch, Clusters(fat));
  }

  lemma ChainReadable(v: Vol, start: nat)
    requires |v.fat| <= MAX_CELLS && IsChain(v.fat, ChainOf(v.fat, start)) && ChainOf(v.fat, start)[0] == start
    ensures Readable(v.fat, start)
  {
    ChainIsWalked(v.fat, ChainOf(v.fat, start));
  }

  lemma ChainUnique(fat: seq<nat>, a: seq<nat>, b: seq<nat>)
    requires |fat| <= MAX_CELLS && IsChain(fat, a) && IsChain(fat, b) && a[0] == b[0]
    ensures a == b
  {
    ChainIsWalked(fat, a);
    ChainIsWalked(fat, b);
  }

  /** Cells of a chain are in use. */
  lemma ChainNotFree(fat: seq<nat>, ch: seq<nat>, c: nat)
    requires IsChain(fat, ch) && c in ch
    ensures InRange(fat, c) && fat[c] != FREE
  {
    var i :| 0 <= i < |ch| && ch[i] == c;
    if i < |ch| - 1 {
      assert fat[ch[i]] == ch[i + 1];
    }
  }

  // ---- the bytes of a chain ---------------------------------------------------------------

  function Pieces(v: Vol, ch: seq<nat>): seq<seq<byte>> {
    seq(|ch|, i requires 0 <= i < |ch| => Cluster(v, ch[i]))
  }

  function ChainBytes(v: Vol, ch: seq<nat>): seq<byte> {
    Concat(Pieces(v, ch))
  }

  /** What reading from `start` yields. */
  ghost function ReadFrom(v: Vol, start: nat): seq<byte> {
    ChainBytes(v, ChainOf(v.fat, start))
  }

  lemma ChainBytesLength(v: Vol, ch: seq<nat>, size: nat)
    requires VolOk(v, size) && forall i :: 0 <= i < |ch| ==> InRange(v.fat, ch[i])
    ensures |ChainBytes(v, ch)| == |ch| * size
  {
    ConcatLength(Pieces(v, ch), size);
  }

  lemma VolSizePositive(v: Vol, size: nat)
    requires VolOk(v, size)
    ensures size > 0 && |v.data| == |v.fat| <= MAX_CELLS
  {
  }

  lemma ChainBytesEmpty(v: Vol)
    ensures ChainBytes(v, []) == []
  {
  }

  lemma ChainBytesSnoc(v: Vol, ch: seq<nat>, c: nat)
    ensures ChainBytes(v, ch + [c]) == ChainBytes(v, ch) + Cluster(v, c)
  {
    var ps := Pieces(v, ch + [c]);
    assert ps[..|ps| - 1] == Pieces(v, ch);
  }

  /** Reading a chain looks at its own cells and clusters only. */
  lemma ChainFrame(v: Vol, v': Vol, ch: seq<nat>, size: nat)
    requires VolOk(v, size) && VolOk(v', size) && |v'.fat| == |v.fat|
    requires IsChain(v.fat, ch)
    requires forall c :: c in ch ==> v'.fat[c] == v.fat[c] && v'.data[c] == v.data[c]
    ensures IsChain(v'.fat, ch)
    ensures ReadFrom(v', ch[0]) == ReadFrom(v, ch[0]) == ChainBytes(v, ch) == ChainBytes(v', ch)
  {
    assert Pieces(v, ch) == Pieces(v', ch);
    ChainIsWalked(v.fat, ch);
    ChainIsWalked(v'.fat, ch);
  }

  // ---- allocation -------------------------------------------------------------------------

  ghost function FreeSet(fat: seq<nat>): set<nat> {
    set c: nat | 2 <= c < |fat| && fat[c] == FREE
  }

  /** `c` is the lowest free cluster of `v`; it becomes a zeroed one-cluster chain. */
  ghost predicate Allocated(v: Vol, v': Vol, c: nat, size: nat) {
    && |v.data| == |v.fat|
    && InRange(v.fat, c) && v.fat[c] == FREE
    && (forall b :: 2 <= b < c ==> v.fat[b] != FREE)
    && v' == Vol(v.fat[c := EOC], v.data[c := Zeros(size)])
  }

  lemma AllocatedFreeSet(v: Vol, v': Vol, c: nat, size: nat)
    requires Allocated(v, v', c, size)
    ensures FreeSet(v'.fat) == FreeSet(v.fat) - {c} && c in FreeSet(v.fat)
    ensures |FreeSet(v'.fat)| == |FreeSet(v.fat)| - 1
  {
  }

  /** `ch` was free in `v`, and is a zeroed chain in `v'`, which is otherwise as `v`. */
  ghost predicate AllocatedChain(v: Vol, v': Vol, ch: seq<nat>, size: nat) {
    && |v'.fat| == |v.fat| == |v.data| == |v'.data|
    && IsChain(v'.fat, ch)
    && (forall c :: c in ch ==> v.fat[c] == FREE && v'.data[c] == Zeros(size))
    && (forall c :: 0 <= c < |v.fat| && c !in ch ==> v'.fat[c] == v.fat[c] && v'.data[c] == v.data[c])
  }

  /** Every cell on the walk from `start` is free in `v'`; nothing else changed. */
  ghost predicate Freed(v: Vol, v': Vol, start: nat) {
    && |v'.fat| == |v.fat|
    && v'.data == v.data
    && forall c: nat :: c < |v.fat| ==> v'.fat[c] == if c in ChainOf(v.fat, start) then FREE else v.fat[c]
  }

  /** The state of freeing from `start`: `left` is what it has not yet been to, `c` is next. */
  ghost predicate FreeingAt(v0: Vol, v: Vol, start: nat, c: nat, left: set<nat>) {
    && |v.fat| == |v0.fat| && v.data == v0.data
    && left <= Clusters(v0.fat) && LinkOk(v0.fat, c)
    && (forall d: nat :: d in ChainOf(v0.fat, start) <==>
          (d in Clusters(v0.fat) && d !in left) || d in Walk(v0.fat, c, left))
    && (forall d: nat :: d < |v0.fat| ==>
          v.fat[d] == if d in Clusters(v0.fat) && d !in left then FREE else v0.fat[d])
  }

  lemma FreeingStarts(v: Vol, start: nat)
    requires LinkOk(v.fat, start)
    ensures FreeingAt(v, v, start, start, Clusters(v.fat))
  {
  }

  lemma FreeingInRange(v0: Vol, v: Vol, start: nat, c: nat, left: set<nat>)
    requires FreeingAt(v0, v, start, c, left) && !IsStop(c)
    ensures c < |v.fat|
  {
  }

  /**
    Freeing one more cell. On a circle `c` may be free already; then its cell holds a stop mark,
    which ends the loop.
   */
  lemma FreeingStep(v0: Vol, v: Vol, v': Vol, start: nat, c: nat, left: set<nat>)
    requires FreeingAt(v0, v, start, c, left) && !IsStop(c)
    requires forall d :: d in ChainOf(v0.fat, start) && d < |v0.fat| ==> LinkOk(v0.fat, v0.fat[d])
    requires v' == v.(fat := v.fat[c := FREE])
    ensures FreeingAt(v0, v', start, v.fat[c], left - {c})
    ensures c in left || (c < 2 || c >= EOC) || (v.fat[c] < 2 && left - {c} == left)
  {
    if c in left {
      assert c in Walk(v0.fat, c, left);
      assert v.fat[c] == v0.fat[c];
      assert Walk(v0.fat, c, left) == [c] + Walk(v0.fat, v0.fat[c], left - {c});
    } else {
      assert Walk(v0.fat, c, left) == [] == Walk(v0.fat, FREE, left);
    }
  }

  lemma FreeingDone(v0: Vol, v: Vol, start: nat, c: nat, left: set<nat>)
    requires |v0.fat| <= MAX_CELLS && FreeingAt(v0, v, start, c, left) && IsStop(c)
    ensures Freed(v0, v, start)
  {
    assert Walk(v0.fat, c, left) == [];
  }

  lemma FreedCells(v: Vol, v': Vol, start: nat)
    requires Freed(v, v', start)
    ensures forall c :: c in ChainOf(v.fat, start) && c < |v'.fat| ==> v'.fat[c] == 0
  {
    hide ChainOf;
  }

  /** `free_chain` undoes `allocate_chain`: the pair restores the FAT. */
  lemma FreeUndoesAllocate(v: Vol, v1: Vol, v2: Vol, ch: seq<nat>, size: nat)
    requires VolOk(v, size) && AllocatedChain(v, v1, ch, size) && Freed(v1, v2, ch[0])
    ensures v2.fat == v.fat
  {
    ChainIsWalked(v1.fat, ch);
  }

  // ---- writing ----------------------------------------------------------------------------

  lemma CeilDivBounds(n: nat, size: nat)
    requires size > 0
    ensures n <= CeilDiv(n, size) * size < n + size
    ensures n > 0 ==> CeilDiv(n, size) > 0
  {
    var m := n + size - 1;
    assert m == m / size * size + m % size;
  }

  /** `data` zero-padded to whole clusters. */
  function Whole(data: seq<byte>, size: nat): (r: seq<byte>)
    requires size > 0
    ensures |r| == CeilDiv(|data|, size) * size
    ensures data <= r
  {
    CeilDivBounds(|data|, size);
    data + Zeros(CeilDiv(|data|, size) * size - |data|)
  }

  /** Data of whole clusters needs no padding. */
  lemma WholeExact(data: seq<byte>, size: nat, n: nat)
    requires size > 0 && |data| == n * size
    ensures CeilDiv(|data|, size) == n && Whole(data, size) == data
  {
    CeilDivBounds(|data|, size);
    var m := CeilDiv(|data|, size);
    if m > n {
      SliceBounds(n, m, size);
    } else if m < n {
      SliceBounds(m, n, size);
    }
  }

  /**
    `v'` is `v` after `data` was written over the chain `ch` (empty for a file without
    clusters), which became `ch'`: as many clusters as the data needs, the old ones kept in
    order, new ones only from the free ones, everything outside `ch'` as it was. A tail of
    `ch` that is no longer needed is cut off but stays allocated.
   */
  ghost predicate Wrote(v: Vol, v': Vol, ch: seq<nat>, ch': seq<nat>, data: seq<byte>, size: nat) {
    && size > 0
    && |v'.fat| == |v.fat| == |v.data| == |v'.data|
    && IsChain(v'.fat, ch')
    && |ch'| == CeilDiv(|data|, size)
    && (forall i :: 0 <= i < |ch'| && i < |ch| ==> ch'[i] == ch[i])
    && (forall i :: |ch| <= i < |ch'| ==> v.fat[ch'[i]] == FREE)
    && (forall i: nat :: i < |ch'| ==> v'.data[ch'[i]] == Block(Whole(data, size), i, size))
    && (forall c :: 0 <= c < |v.fat| && c !in ch' ==> v'.fat[c] == v.fat[c] && v'.data[c] == v.data[c])
  }

  /** Reading back what was written gives the data, zero-padded to whole clusters. */
  lemma WroteReadsBack(v: Vol, v': Vol, ch: seq<nat>, ch': seq<nat>, data: seq<byte>, size: nat)
    requires VolOk(v', size) && Wrote(v, v', ch, ch', data, size)
    ensures ReadFrom(v', ch'[0]) == ChainBytes(v', ch') == Whole(data, size)
  {
    ChainIsWalked(v'.fat, ch');
    ConcatBlocks(Pieces(v', ch'), Whole(data, size), size);
  }

  lemma WroteSources(v: Vol, v': Vol, ch: seq<nat>, ch': seq<nat>, data: seq<byte>, size: nat)
    requires Wrote(v, v', ch, ch', data, size)
    ensures forall c :: c in ch' ==> c in ch || v.fat[c] == FREE
  {
    forall c | c in ch' ensures c in ch || v.fat[c] == FREE {
      var i :| 0 <= i < |ch'| && ch'[i] == c;
      if i < |ch| { assert ch'[i] == ch[i]; }
    }
  }

  /** Writing one chain leaves every chain disjoint from it alone. */
  lemma WroteKeepsOthers(v: Vol, v': Vol, ch: seq<nat>, ch': seq<nat>, data: seq<byte>, size: nat, other: seq<nat>)
    requires VolOk(v, size) && VolOk(v', size) && Wrote(v, v', ch, ch', data, size)
    requires IsChain(v.fat, other) && forall c :: c in other ==> c !in ch
    ensures IsChain(v'.fat, other) && (forall c :: c in other ==> c !in ch')
    ensures ReadFrom(v', other[0]) == ReadFrom(v, other[0]) == ChainBytes(v, other) == ChainBytes(v', other)
  {
    WroteSources(v, v', ch, ch', data, size);
    forall c | c in other ensures c !in ch' {
      ChainNotFree(v.fat, other, c);
    }
    ChainFrame(v, v', other, size);
  }

  /**
    What is left when writing stops for want of a free cluster: the chain has grown to `ch'`,
    which is still too short, its clusters hold their part of the data, and everything outside
    it is as it was.
   */
  ghost predicate Grew(v: Vol, v': Vol, ch: seq<nat>, ch': seq<nat>, data: seq<byte>, size: nat) {
    && size > 0
    && |v'.fat| == |v.fat| == |v.data| == |v'.data|
    && (ch' != [] ==> IsChain(v'.fat, ch'))
    && |ch| <= |ch'| < CeilDiv(|data|, size) && ch'[..|ch|] == ch
    && (forall i :: |ch| <= i < |ch'| ==> v.fat[ch'[i]] == FREE)
    && (forall i: nat :: i < |ch'| ==> v'.data[ch'[i]] == Block(Whole(data, size), i, size))
    && (forall c :: 0 <= c < |v.fat| && c !in ch' ==> v'.fat[c] == v.fat[c] && v'.data[c] == v.data[c])
  }

  lemma GrewReadsBack(v: Vol, v': Vol, ch: seq<nat>, ch': seq<nat>, data: seq<byte>, size: nat)
    requires Grew(v, v', ch, ch', data, size)
    ensures |ch'| * size <= |Whole(data, size)| && ChainBytes(v', ch') == Whole(data, size)[..|ch'| * size]
  {
    var n := CeilDiv(|data|, size);
    SliceBounds(|ch'|, n, size);
    var part := Whole(data, size)[..|ch'| * size];
    var ps := Pieces(v', ch');
    forall i: nat | i < |ps| ensures ps[i] == Block(part, i, size) {
      SliceBounds(i, |ch'|, size);
    }
    ConcatBlocks(ps, part, size);
  }

  lemma GrewKeepsOthers(v: Vol, v': Vol, ch: seq<nat>, ch': seq<nat>, data: seq<byte>, size: nat, other: seq<nat>)
    requires VolOk(v, size) && VolOk(v', size) && Grew(v, v', ch, ch', data, size)
    requires IsChain(v.fat, other) && forall c :: c in other ==> c !in ch
    ensures IsChain(v'.fat, other) && (forall c :: c in other ==> c !in ch')
    ensures ReadFrom(v', other[0]) == ReadFrom(v, other[0]) == ChainBytes(v, other) == ChainBytes(v', other)
  {
    forall c | c in ch' ensures c in ch || v.fat[c] == FREE {
      var i :| 0 <= i < |ch'| && ch'[i] == c;
      if i < |ch| { assert ch'[..|ch|][i] == c; }
    }
    forall c | c in other ensures c !in ch' {
      ChainNotFree(v.fat, other, c);
    }
    ChainFrame(v, v', other, size);
  }

  /** A link that ends the chain or stays on the volume. */
  predicate LinkOk(fat: seq<nat>, c: nat) {
    IsStop(c) || InRange(fat, c)
  }

  /** The lowest free cluster `c` is allocated and linked behind `last`. */
  ghost predicate Extended(v: Vol, v': Vol, last: nat, c: nat, size: nat) {
    && |v.data| == |v.fat| && last < |v.fat| && InRange(v.fat, c)
    && Allocated(v, Vol(v.fat[c := EOC], v.data[c := Zeros(size)]), c, size)
    && v' == Vol(v.fat[c := EOC][last := c], v.data[c := Zeros(size)])
  }

  /** Linking a freshly allocated cluster behind the last one of a chain. */
  lemma ChainGrows(v: Vol, v': Vol, ch: seq<nat>, c: nat, size: nat)
    requires VolOk(v, size) && IsChain(v.fat, ch) && Extended(v, v', ch[|ch| - 1], c, size)
    ensures IsChain(v'.fat, ch + [c]) && c !in ch
    ensures FreeSet(v'.fat) == FreeSet(v.fat) - {c} && c in FreeSet(v.fat)
    ensures |FreeSet(v'.fat)| == |FreeSet(v.fat)| - 1
  {
    ChainDistinct(v.fat, ch);
    ChainNotFree(v.fat, ch, ch[|ch| - 1]);
    if c in ch {
      ChainNotFree(v.fat, ch, c);
      assert false;
    }
    var ch' := ch + [c];
    forall i | 0 <= i < |ch'| - 1 ensures v'.fat[ch'[i]] == ch'[i + 1] {
      assert i < |ch| - 1 ==> v.fat[ch[i]] == ch[i + 1];
    }
    assert FreeSet(v'.fat) == FreeSet(v.fat) - {c};
  }

  lemma AllocatedIsChain(v: Vol, v': Vol, c: nat, size: nat)
    requires VolOk(v, size) && Allocated(v, v', c, size)
    ensures AllocatedChain(v, v', [c], size)
  {
  }

  lemma AllocatedChainEnd(v0: Vol, v: Vol, ch: seq<nat>, size: nat)
    requires AllocatedChain(v0, v, ch, size)
    ensures |ch| > 0 && InRange(v.fat, ch[|ch| - 1]) && |v.fat| == |v0.fat|
  {
  }

  lemma AllocatedChainGrows(v0: Vol, v: Vol, v': Vol, ch: seq<nat>, c: nat, size: nat)
    requires VolOk(v, size) && AllocatedChain(v0, v, ch, size) && Extended(v, v', ch[|ch| - 1], c, size)
    ensures AllocatedChain(v0, v', ch + [c], size)
    ensures |FreeSet(v'.fat)| == |FreeSet(v.fat)| - 1
  {
    ChainGrows(v, v', ch, c, size);
    var ch' := ch + [c];
    assert forall b :: b in ch' <==> b in ch || b == c;
  }

  // ---- the loop of write_chain ------------------------------------------------------------

  /**
    `cur` is the chain so far, `i` the position in it, and its first `done` clusters hold their
    block of the data. The chain grows only when the position is at its end.
   */
  ghost predicate Writing(v0: Vol, v: Vol, ch: seq<nat>, cur: seq<nat>, i: nat, done: nat, data: seq<byte>, size: nat) {
    && size > 0
    && |v.fat| == |v0.fat| == |v0.data| == |v.data|
    && IsChain(v.fat, cur) && i < |cur| && done <= i + 1
    && |ch| <= |cur| && (forall j :: 0 <= j < |ch| ==> cur[j] == ch[j])
    && (forall j :: |ch| <= j < |cur| ==> v0.fat[cur[j]] == FREE)
    && (|ch| < |cur| ==> i + 1 == |cur|)
    && (forall j: nat :: j < done ==> v.data[cur[j]] == Block(Whole(data, size), j, size))
    && (forall c :: 0 <= c < |v.fat| && c !in cur[..i + 1] ==> v.fat[c] == v0.fat[c] && v.data[c] == v0.data[c])
    && |FreeSet(v.fat)| + |cur| == |FreeSet(v0.fat)| + |ch|
  }

  /** The chain that a write to `start` goes over. */
  ghost function OldChain(fat: seq<nat>, start: nat): seq<nat> {
    if start < 2 then [] else ChainOf(fat, start)
  }

  /** `start` is no cluster at all, or the head of an EOC-ended chain. */
  ghost predicate StartOk(fat: seq<nat>, start: nat) {
    start < 2 || (IsChain(fat, ChainOf(fat, start)) && ChainOf(fat, start)[0] == start)
  }

  lemma OldChainStarts(fat: seq<nat>, start: nat)
    requires StartOk(fat, start)
    ensures if start < 2 then OldChain(fat, start) == []
      else IsChain(fat, OldChain(fat, start)) && |OldChain(fat, start)| > 0 && OldChain(fat, start)[0] == start
  {
  }

  lemma NothingGrew(v: Vol, data: seq<byte>, size: nat)
    requires |v.data| == |v.fat| && size > 0 && CeilDiv(|data|, size) > 0
    ensures Grew(v, v, [], [], data, size)
  {
  }

  lemma WritingInRange(v0: Vol, v: Vol, ch: seq<nat>, cur: seq<nat>, i: nat, done: nat, data: seq<byte>, size: nat)
    requires Writing(v0, v, ch, cur, i, done, data, size)
    ensures i < |cur| && InRange(v.fat, cur[i]) && |v.fat| == |v.data|
  {
  }

  lemma WritingStartsFresh(v0: Vol, v: Vol, c: nat, data: seq<byte>, size: nat)
    requires VolOk(v0, size) && Allocated(v0, v, c, size)
    ensures Writing(v0, v, [], [c], 0, 0, data, size)
  {
    AllocatedFreeSet(v0, v, c, size);
  }

  lemma WritingStarts(v0: Vol, ch: seq<nat>, data: seq<byte>, size: nat)
    requires VolOk(v0, size) && IsChain(v0.fat, ch)
    ensures Writing(v0, v0, ch, ch, 0, 0, data, size)
  {
  }

  lemma WriteHere(v0: Vol, v: Vol, v': Vol, ch: seq<nat>, cur: seq<nat>, i: nat, data: seq<byte>, size: nat)
    requires |v.fat| <= MAX_CELLS && Writing(v0, v, ch, cur, i, i, data, size)
    requires v' == v.(data := v.data[cur[i] := Block(Whole(data, size), i, size)])
    ensures Writing(v0, v', ch, cur, i, i + 1, data, size)
  {
    ChainDistinct(v.fat, cur);
    assert cur[i] in cur[..i + 1];
  }

  lemma WriteMovesOn(v0: Vol, v: Vol, ch: seq<nat>, cur: seq<nat>, i: nat, data: seq<byte>, size: nat)
    requires Writing(v0, v, ch, cur, i, i + 1, data, size) && v.fat[cur[i]] < EOC
    ensures i + 1 < |cur| && v.fat[cur[i]] == cur[i + 1]
    ensures Writing(v0, v, ch, cur, i + 1, i + 1, data, size)
  {
    assert cur[..i + 2] == cur[..i + 1] + [cur[i + 1]];
  }

  lemma WriteNotAtEnd(v0: Vol, v: Vol, ch: seq<nat>, cur: seq<nat>, i: nat, data: seq<byte>, size: nat)
    requires |v.fat| <= MAX_CELLS && Writing(v0, v, ch, cur, i, i + 1, data, size)
    ensures InRange(v.fat, cur[i]) && (i + 1 < |cur| ==> v.fat[cur[i]] < EOC)
  {
    if i + 1 < |cur| {
      assert v.fat[cur[i]] == cur[i + 1];
    }
  }

  lemma WriteGrows(v0: Vol, v: Vol, v': Vol, ch: seq<nat>, cur: seq<nat>, i: nat, c: nat, data: seq<byte>, size: nat)
    requires VolOk(v, size) && Writing(v0, v, ch, cur, i, i + 1, data, size)
    requires i + 1 == |cur| && Extended(v, v', cur[i], c, size)
    ensures Writing(v0, v', ch, cur + [c], i + 1, i + 1, data, size)
  {
    hide Block, Whole;
    ChainGrows(v, v', cur, c, size);
    var cur' := cur + [c];
    assert cur[..i + 1] == cur && cur'[..i + 2] == cur';
    assert v.fat[c] == v0.fat[c];
    assert cur[i] in cur;
  }

  lemma WriteFinishes(v0: Vol, v: Vol, v': Vol, ch: seq<nat>, cur: seq<nat>, i: nat, data: seq<byte>, size: nat)
    requires |v.fat| <= MAX_CELLS && Writing(v0, v, ch, cur, i, i + 1, data, size) && i + 1 == CeilDiv(|data|, size)
    requires v' == v.(fat := v.fat[cur[i] := EOC])
    ensures Wrote(v0, v', ch, cur[..i + 1], data, size)
    ensures i + 1 <= |ch| + |FreeSet(v0.fat)|
  {
    ChainDistinct(v.fat, cur);
    var ch' := cur[..i + 1];
    forall j | 0 <= j < |ch'| - 1 ensures v'.fat[ch'[j]] == ch'[j + 1] {
      assert v.fat[cur[j]] == cur[j + 1];
    }
    assert ch'[i] == cur[i];
  }

  lemma WriteFails(v0: Vol, v: Vol, ch: seq<nat>, cur: seq<nat>, i: nat, data: seq<byte>, size: nat)
    requires Writing(v0, v, ch, cur, i, i + 1, data, size) && i + 1 == |cur| < CeilDiv(|data|, size)
    requires FreeSet(v.fat) == {}
    ensures Grew(v0, v, ch, cur, data, size) && CeilDiv(|data|, size) > |ch| + |FreeSet(v0.fat)|
  {
    assert cur[..i + 1] == cur;
    assert cur[..|ch|] == ch;
  }

  /** The buffer the loop fills for block `i`. */
  lemma BufferIsBlock(data: seq<byte>, i: nat, size: nat, end: nat)
    requires size > 0 && i < CeilDiv(|data|, size)
    requires end == if i * size + size < |data| then i * size + size else |data|
    ensures i * size <= end && end - i * size <= size
    ensures Splice(Zeros(size), 0, data[i * size..end]) == Block(Whole(data, size), i, size)
  {
    var n := CeilDiv(|data|, size);
    CeilDivBounds(|data|, size);
    SliceBounds(i, n, size);
    assert i < n - 1 ==> (i + 1) * size <= (n - 1) * size by {
      if i < n - 1 { SliceBounds(i, n - 1, size); }
    }
  }

  /** As many bytes as a chain holds fit into it, whatever is free. */
  lemma SameLengthFits(v: Vol, start: nat, data: seq<byte>, size: nat)
    requires VolOk(v, size) && start >= 2 && StartOk(v.fat, start) && |data| == |ReadFrom(v, start)|
    ensures CeilDiv(|data|, size) == |OldChain(v.fat, start)| && Whole(data, size) == data && data != []
  {
    ChainBytesLength(v, ChainOf(v.fat, start), size);
    WholeExact(data, size, |ChainOf(v.fat, start)|);
    SliceBounds(0, |ChainOf(v.fat, start)|, size);
  }

  lemma OneClusterMore(v: Vol, start: nat, data: seq<byte>, size: nat)
    requires VolOk(v, size) && start >= 2 && StartOk(v.fat, start) && |data| == |ReadFrom(v, start)| + size
    ensures CeilDiv(|data|, size) == |OldChain(v.fat, start)| + 1 && data != []
  {
    ChainBytesLength(v, ChainOf(v.fat, start), size);
    var n := |ChainOf(v.fat, start)|;
    assert (n + 1) * size == n * size + size;
    WholeExact(data, size, n + 1);
  }

  lemma ChainStartReadable(v: Vol, start: nat)
    requires |v.fat| <= MAX_CELLS && start >= 2 && StartOk(v.fat, start)
    ensures Readable(v.fat, start) && OldChain(v.fat, start) == ChainOf(v.fat, start)
  {
    ChainIsWalked(v.fat, ChainOf(v.fat, start));
  }
}
