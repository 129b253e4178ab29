/**
  Who owns which cluster. The files and directories of a volume are objects named by their
  first cluster; each has its own chain, and each but the root is referenced by one directory
  entry only. The operations of the file system are put together from the steps proved here.
 */
module FatObjects {
  import opened Bytes
  import opened Outcome
  import opened FatVolume
  import opened DirEntries
  import opened DirScan

  /** A file or directory: its chain, and the directory and slot of the entry that refers to it. */
  datatype Obj = Obj(chain: seq<nat>, dir: bool, parent: nat, slot: int)

  type Objs = map<nat, Obj>

  /** A directory and a slot in it whose entry refers to an object that is gone. */
  type Hole = Option<(nat, int)>

  ghost predicate Apart(a: seq<nat>, b: seq<nat>) {
    forall c :: c in a ==> c !in b
  }

  function ObjSlots(v: Vol, o: Obj): seq<Slot> {
    SlotsOf(ChainBytes(v, o.chain))
  }

  ghost predicate ObjOk(v: Vol, k: nat, o: Obj) {
    IsChain(v.fat, o.chain) && o.chain[0] == k
  }

  /** Entry `e` of directory `k` refers to an object of its kind that knows it, or to none. */
  ghost predicate RefOk(g: Objs, k: nat, e: FatDirEntry) {
    var c := e.Cluster();
    if c >= 2 then c in g && g[c].dir == e.IsDirectory() && g[c].parent == k && g[c].slot == e.ShortSlot()
    else !e.IsDirectory()
  }

  ghost predicate RefsOk(g: Objs, k: nat, entries: seq<FatDirEntry>, hole: Hole) {
    forall j: nat :: j < |entries| ==> hole == Some((k, entries[j].ShortSlot())) || RefOk(g, k, entries[j])
  }

  ghost predicate DirOk(g: Objs, k: nat, slots: seq<Slot>, hole: Hole) {
    Shaped(slots) && RefsOk(g, k, Listing(slots), hole)
  }

  /** The well-formed volume: chains EOC-ended and pairwise disjoint, directories in shape, references exact. */
  ghost predicate WF(v: Vol, g: Objs, root: nat, size: nat, hole: Hole) {
    && VolOk(v, size) && size % ENTRY_SIZE == 0
    && root in g && g[root].dir && g[root].parent == 0
    && (forall k :: k in g ==> ObjOk(v, k, g[k]))
    && (forall k, l :: k in g && l in g && k != l ==> Apart(g[k].chain, g[l].chain))
    && (forall k :: k in g && g[k].dir ==> DirOk(g, k, ObjSlots(v, g[k]), hole))
  }

  lemma WholeSlots(n: nat, size: nat)
    requires size % ENTRY_SIZE == 0
    ensures n * size % ENTRY_SIZE == 0
  {
    var m := size / ENTRY_SIZE;
    assert size == m * ENTRY_SIZE;
    assert n * size == (n * m) * ENTRY_SIZE;
  }

  /** What a reader sees of an object is what its chain holds. */
  lemma ObjRead(v: Vol, g: Objs, root: nat, size: nat, hole: Hole, k: nat)
    requires WF(v, g, root, size, hole) && k in g
    ensures ReadFrom(v, k) == ChainBytes(v, g[k].chain) && ChainOf(v.fat, k) == g[k].chain
    ensures Readable(v.fat, k) && StartOk(v.fat, k) && InRange(v.fat, k)
    ensures |ReadFrom(v, k)| == |g[k].chain| * size && |ReadFrom(v, k)| % ENTRY_SIZE == 0
    ensures g[k].dir ==> DirOk(g, k, SlotsOf(ReadFrom(v, k)), hole)
  {
    assert ObjOk(v, k, g[k]);
    ChainIsWalked(v.fat, g[k].chain);
    ChainBytesLength(v, g[k].chain, size);
    WholeSlots(|g[k].chain|, size);
  }

  /** The same references, possibly among more objects. */
  ghost predicate KeepsRefs(g: Objs, g': Objs) {
    forall k :: k in g ==> k in g' && g'[k].dir == g[k].dir && g'[k].parent == g[k].parent && g'[k].slot == g[k].slot
  }

  ghost predicate HoleIn(hole: Hole, k: nat) {
    hole == None || hole.value.0 == k
  }

  lemma DirStaysOk(g: Objs, g': Objs, k: nat, slots: seq<Slot>, hole: Hole, hole': Hole)
    requires DirOk(g, k, slots, hole) && KeepsRefs(g, g')
    requires hole == hole' || hole == None || hole.value.0 != k
    ensures DirOk(g', k, slots, hole')
  {
    forall j: nat | j < |Listing(slots)|
      ensures hole' == Some((k, Listing(slots)[j].ShortSlot())) || RefOk(g', k, Listing(slots)[j])
    {
    }
  }

  lemma ReplacedKeepsRefs(g: Objs, k: nat, o: Obj)
    requires k in g ==> g[k].(chain := o.chain) == o
    ensures KeepsRefs(g, g[k := o])
  {
  }

  lemma ReplacedApart(g: Objs, k: nat, o: Obj)
    requires forall l, m :: l in g && m in g && l != m ==> Apart(g[l].chain, g[m].chain)
    requires forall l :: l in g && l != k ==> Apart(g[l].chain, o.chain)
    ensures var g' := g[k := o]; forall l, m :: l in g' && m in g' && l != m ==> Apart(g'[l].chain, g'[m].chain)
  {
    var g' := g[k := o];
    forall l, m | l in g' && m in g' && l != m ensures Apart(g'[l].chain, g'[m].chain) {
      if l == k {
        assert Apart(g[m].chain, o.chain);
      }
    }
  }

  /** Replacing or adding the object `k`, when the chains of all others are as they were. */
  lemma ReplaceObj(v: Vol, v': Vol, g: Objs, root: nat, size: nat, hole: Hole, hole': Hole, k: nat, o: Obj)
    requires WF(v, g, root, size, hole) && VolOk(v', size)
    requires ObjOk(v', k, o) && (k in g ==> g[k].(chain := o.chain) == o)
    requires forall l :: l in g && l != k ==> Apart(g[l].chain, o.chain) && IsChain(v'.fat, g[l].chain)
    requires forall l :: l in g && l != k ==> ChainBytes(v', g[l].chain) == ChainBytes(v, g[l].chain)
    requires o.dir ==> DirOk(g[k := o], k, ObjSlots(v', o), hole')
    requires hole == hole' || HoleIn(hole, k)
    ensures WF(v', g[k := o], root, size, hole')
  {
    hide KeepsRefs, DirOk, VolOk, IsChain, Apart;
    var g' := g[k := o];
    ReplacedKeepsRefs(g, k, o);
    forall l | l in g' ensures ObjOk(v', l, g'[l]) {
      assert l in g ==> ObjOk(v, l, g[l]);
    }
    ReplacedApart(g, k, o);
    forall l | l in g' && g'[l].dir ensures DirOk(g', l, ObjSlots(v', g'[l]), hole') {
      if l != k {
        assert DirOk(g, l, ObjSlots(v, g[l]), hole);
        DirStaysOk(g, g', l, ObjSlots(v, g[l]), hole, hole');
      }
    }
  }

  /** The chain that object `k` has now, none when there is no such object. */
  function ChainNow(g: Objs, k: nat): seq<nat> {
    if k in g then g[k].chain else []
  }

  lemma OthersApart(v: Vol, g: Objs, root: nat, size: nat, hole: Hole, k: nat, l: nat)
    requires WF(v, g, root, size, hole) && l in g && l != k
    ensures IsChain(v.fat, g[l].chain) && forall c :: c in g[l].chain ==> c !in ChainNow(g, k)
  {
    assert ObjOk(v, l, g[l]);
    if k in g {
      assert Apart(g[l].chain, g[k].chain);
    }
  }

  /** Writing data over an object's chain, or over no chain to make a new object. */
  lemma ObjWritten(v: Vol, v': Vol, g: Objs, root: nat, size: nat, hole: Hole, hole': Hole,
                   k: nat, o: Obj, data: seq<byte>)
    requires WF(v, g, root, size, hole) && VolOk(v', size)
    requires Wrote(v, v', ChainNow(g, k), o.chain, data, size) && o.chain[0] == k
    requires k in g ==> g[k].(chain := o.chain) == o
    requires o.dir ==> DirOk(g[k := o], k, SlotsOf(Whole(data, size)), hole')
    requires hole == hole' || HoleIn(hole, k)
    ensures WF(v', g[k := o], root, size, hole')
    ensures forall l :: l in g && l != k ==> ReadFrom(v', l) == ReadFrom(v, l)
    ensures ReadFrom(v', k) == Whole(data, size)
  {
    WroteReadsBack(v, v', ChainNow(g, k), o.chain, data, size);
    forall l | l in g && l != k
      ensures Apart(g[l].chain, o.chain) && IsChain(v'.fat, g[l].chain)
      ensures ChainBytes(v', g[l].chain) == ChainBytes(v, g[l].chain) && ReadFrom(v', l) == ReadFrom(v, l)
    {
      OthersApart(v, g, root, size, hole, k, l);
      assert ObjOk(v, l, g[l]);
      WroteKeepsOthers(v, v', ChainNow(g, k), o.chain, data, size, g[l].chain);
    }
    ReplaceObj(v, v', g, root, size, hole, hole', k, o);
  }

  /** A write to an object that failed half way. */
  lemma ObjGrew(v: Vol, v': Vol, g: Objs, root: nat, size: nat, hole: Hole, k: nat, ch: seq<nat>, data: seq<byte>)
    requires WF(v, g, root, size, hole) && VolOk(v', size)
    requires k in g && Grew(v, v', g[k].chain, ch, data, size)
    requires g[k].dir ==> DirOk(g, k, SlotsOf(ChainBytes(v', ch)), hole)
    ensures |ch| > 0 && WF(v', g[k := g[k].(chain := ch)], root, size, hole)
    ensures forall l :: l in g && l != k ==> ReadFrom(v', l) == ReadFrom(v, l)
  {
    assert ObjOk(v, k, g[k]);
    var o := g[k].(chain := ch);
    assert ch[..|g[k].chain|][0] == k;
    forall l | l in g && l != k
      ensures Apart(g[l].chain, ch) && IsChain(v'.fat, g[l].chain)
      ensures ChainBytes(v', g[l].chain) == ChainBytes(v, g[l].chain) && ReadFrom(v', l) == ReadFrom(v, l)
    {
      OthersApart(v, g, root, size, hole, k, l);
      assert ObjOk(v, l, g[l]);
      GrewKeepsOthers(v, v', g[k].chain, ch, data, size, g[l].chain);
    }
    if o.dir {
      DirStaysOk(g, g[k := o], k, ObjSlots(v', o), hole, hole);
    }
    ReplaceObj(v, v', g, root, size, hole, hole, k, o);
  }

  /** The chains of all objects are as they were. */
  lemma ChainsKept(v: Vol, v': Vol, g: Objs, root: nat, size: nat, hole: Hole)
    requires WF(v, g, root, size, hole) && VolOk(v', size) && |v'.fat| == |v.fat|
    requires forall k, c :: k in g && c in g[k].chain ==> v'.fat[c] == v.fat[c] && v'.data[c] == v.data[c]
    ensures WF(v', g, root, size, hole)
    ensures forall l :: l in g ==> ReadFrom(v', l) == ReadFrom(v, l)
  {
    forall l | l in g
      ensures ObjOk(v', l, g[l]) && ChainBytes(v', g[l].chain) == ChainBytes(v, g[l].chain)
      ensures ReadFrom(v', l) == ReadFrom(v, l)
    {
      assert ObjOk(v, l, g[l]);
      ChainFrame(v, v', g[l].chain, size);
    }
    forall l | l in g && g[l].dir ensures DirOk(g, l, ObjSlots(v', g[l]), hole) {
      assert DirOk(g, l, ObjSlots(v, g[l]), hole);
    }
  }

  /** A write that never found a cluster to begin with, or whose new chain nothing refers to. */
  lemma UnownedGrew(v: Vol, v': Vol, g: Objs, root: nat, size: nat, hole: Hole, ch: seq<nat>, data: seq<byte>)
    requires WF(v, g, root, size, hole) && VolOk(v', size) && Grew(v, v', [], ch, data, size)
    ensures WF(v', g, root, size, hole)
    ensures forall l :: l in g ==> ReadFrom(v', l) == ReadFrom(v, l)
  {
    forall k, c | k in g && c in g[k].chain ensures c < |v.fat| && c !in ch {
      assert ObjOk(v, k, g[k]);
      ChainNotFree(v.fat, g[k].chain, c);
    }
    ChainsKept(v, v', g, root, size, hole);
  }

  lemma FreeNotOwned(v: Vol, g: Objs, root: nat, size: nat, hole: Hole, f: nat)
    requires WF(v, g, root, size, hole) && InRange(v.fat, f) && v.fat[f] == FREE
    ensures f !in g && forall l, c :: l in g && c in g[l].chain ==> c < |v.fat| && c != f
  {
    forall k, c | k in g && c in g[k].chain ensures c < |v.fat| && c != f {
      assert ObjOk(v, k, g[k]);
      ChainNotFree(v.fat, g[k].chain, c);
    }
    forall l | l in g ensures l in g[l].chain {
      assert ObjOk(v, l, g[l]);
    }
  }

  /** Changes to a cluster that was free touch no object. */
  lemma FreeClusterUsed(v: Vol, v': Vol, g: Objs, root: nat, size: nat, hole: Hole, f: nat)
    requires WF(v, g, root, size, hole) && VolOk(v', size) && |v'.fat| == |v.fat|
    requires InRange(v.fat, f) && v.fat[f] == FREE
    requires forall c :: 0 <= c < |v.fat| && c != f ==> v'.fat[c] == v.fat[c] && v'.data[c] == v.data[c]
    ensures WF(v', g, root, size, hole)
    ensures forall l :: l in g ==> ReadFrom(v', l) == ReadFrom(v, l)
  {
    FreeNotOwned(v, g, root, size, hole, f);
    assert |v.data| == |v.fat| && |v'.data| == |v.fat|;
    hide WF, VolOk;
    ChainsKept(v, v', g, root, size, hole);
  }

  /** Freeing an object leaves a hole where the entry is that refers to it; no other entry does. */
  lemma ObjFreed(v: Vol, v': Vol, g: Objs, root: nat, size: nat, k: nat)
    requires WF(v, g, root, size, None) && VolOk(v', size)
    requires k in g && k != root && Freed(v, v', k)
    ensures WF(v', g - {k}, root, size, Some((g[k].parent, g[k].slot)))
    ensures forall l :: l in g && l != k ==> ReadFrom(v', l) == ReadFrom(v, l)
  {
    var g' := g - {k};
    var hole := Some((g[k].parent, g[k].slot));
    ObjRead(v, g, root, size, None, k);
    forall l | l in g'
      ensures ObjOk(v', l, g[l]) && ChainBytes(v', g[l].chain) == ChainBytes(v, g[l].chain)
      ensures ReadFrom(v', l) == ReadFrom(v, l)
    {
      OthersApart(v, g, root, size, None, k, l);
      assert ObjOk(v, l, g[l]);
      ChainFrame(v, v', g[l].chain, size);
    }
    forall l | l in g' && g'[l].dir ensures DirOk(g', l, ObjSlots(v', g'[l]), hole) {
      assert DirOk(g, l, ObjSlots(v, g[l]), None);
      FreedRefs(g, k, l, Listing(ObjSlots(v, g[l])));
    }
  }

  lemma FreedRefs(g: Objs, k: nat, l: nat, entries: seq<FatDirEntry>)
    requires k in g && RefsOk(g, l, entries, None)
    ensures RefsOk(g - {k}, l, entries, Some((g[k].parent, g[k].slot)))
  {
    forall j: nat | j < |entries|
      ensures Some((g[k].parent, g[k].slot)) == Some((l, entries[j].ShortSlot())) || RefOk(g - {k}, l, entries[j])
    {
      assert RefOk(g, l, entries[j]);
    }
  }

  /** No cluster belongs to two objects. */
  lemma NoCrossLinks(v: Vol, g: Objs, root: nat, size: nat, hole: Hole, k: nat, l: nat, c: nat)
    requires WF(v, g, root, size, hole) && k in g && l in g && k != l && c in ChainOf(v.fat, k)
    ensures c !in ChainOf(v.fat, l) && c < |v.fat| && v.fat[c] != FREE
  {
    ObjRead(v, g, root, size, hole, k);
    ObjRead(v, g, root, size, hole, l);
    assert Apart(g[k].chain, g[l].chain);
    assert ObjOk(v, k, g[k]);
    ChainNotFree(v.fat, g[k].chain, c);
  }
}
