/**
  The tree of files and directories at rest, between two operations: every object but the root is
  in the listing of its parent, and climbing from parent to parent ends at the root. So the
  clusters that no object has are those that no walk along directory entries finds.
 */
module FatTree {
  import opened Bytes
  import opened Outcome
  import opened FatVolume
  import opened DirScan
  import opened FatObjects
  import opened FatLosses
  import opened FatPaths
  import opened FatOps

  /** Directory `d` lists an entry for the object at cluster `k`. */
  ghost predicate HasEntry(v: Vol, d: nat, k: nat) {
    exists j: nat :: j < |DirListing(v, d)| && DirListing(v, d)[j].Cluster() as nat == k
  }

  /** From `k` it is `n` steps at most to the root, from parent to parent. */
  ghost predicate Climbs(g: Objs, k: nat, root: nat, n: nat)
    decreases n
  {
    k == root || (n > 0 && k in g && Climbs(g, g[k].parent, root, n - 1))
  }

  ghost predicate Attached(v: Vol, g: Objs, root: nat, k: nat) {
    k in g && IsDir(g, g[k].parent) && HasEntry(v, g[k].parent, k) && exists n: nat :: Climbs(g, k, root, n)
  }

  ghost predicate InTree(v: Vol, g: Objs, root: nat) {
    forall k :: k in g && k != root ==> Attached(v, g, root, k)
  }

  // ---- what is reached --------------------------------------------------------------------

  ghost predicate Leads(v: Vol, d: nat, k: nat, dir: bool) {
    exists j: nat :: j < |DirListing(v, d)| && DirListing(v, d)[j].Cluster() as nat == k && DirListing(v, d)[j].IsDirectory() == dir
  }

  /** A walk of at most `n` steps along directory entries, from the root on, gets to a file or directory at cluster `k`. */
  ghost predicate Found(v: Vol, root: nat, k: nat, dir: bool, n: nat)
    decreases n
  {
    || (k == root && dir)
    || (n > 0 && k >= 2 && exists d: nat :: Leads(v, d, k, dir) && Found(v, root, d, true, n - 1))
  }

  /** Cluster `c` belongs to something that a walk along directory entries finds. */
  ghost predicate Reached(v: Vol, root: nat, c: nat) {
    exists k: nat, dir: bool, n: nat :: Found(v, root, k, dir, n) && c in ChainOf(v.fat, k)
  }

  /** The clusters that are in use and in nothing that such a walk finds. */
  ghost function Unreached(v: Vol, root: nat): set<nat> {
    set c | c in Clusters(v.fat) && c !in FreeSet(v.fat) && !Reached(v, root, c)
  }

  lemma {:induction false} FoundIsObject(v: Vol, g: Objs, root: nat, size: nat, k: nat, dir: bool, n: nat)
    requires WF(v, g, root, size, None) && Found(v, root, k, dir, n)
    ensures k in g && g[k].dir == dir
    decreases n
  {
    if !(k == root && dir) {
      var d: nat :| Leads(v, d, k, dir) && Found(v, root, d, true, n - 1);
      FoundIsObject(v, g, root, size, d, true, n - 1);
      var j: nat :| j < |DirListing(v, d)| && DirListing(v, d)[j].Cluster() as nat == k && DirListing(v, d)[j].IsDirectory() == dir;
      DirKnown(v, g, root, size, d, j);
    }
  }

  lemma {:induction false} ClimbedIsFound(v: Vol, g: Objs, root: nat, size: nat, k: nat, n: nat)
    requires WF(v, g, root, size, None) && InTree(v, g, root) && k in g && Climbs(g, k, root, n)
    ensures Found(v, root, k, g[k].dir, n)
    decreases n
  {
    if k != root {
      assert Attached(v, g, root, k);
      var d := g[k].parent;
      ClimbedIsFound(v, g, root, size, d, n - 1);
      var j: nat :| j < |DirListing(v, d)| && DirListing(v, d)[j].Cluster() as nat == k;
      ObjReadable(v, g, root, size, k);
      DirKnown(v, g, root, size, d, j);
      assert Leads(v, d, k, g[k].dir);
    }
  }

  lemma ObjectIsFound(v: Vol, g: Objs, root: nat, size: nat, k: nat) returns (n: nat)
    requires WF(v, g, root, size, None) && InTree(v, g, root) && k in g
    ensures Found(v, root, k, g[k].dir, n)
  {
    if k == root {
      n := 0;
    } else {
      assert Attached(v, g, root, k);
      n :| Climbs(g, k, root, n);
    }
    ClimbedIsFound(v, g, root, size, k, n);
  }

  /** Between operations the clusters that no object has are those that no walk from the root gets to. */
  lemma LostIsUnreached(v: Vol, g: Objs, root: nat, size: nat)
    requires WF(v, g, root, size, None) && InTree(v, g, root)
    ensures Lost(v, g) == Unreached(v, root)
  {
    hide WF, InTree, ChainOf, FreeSet, Found;
    forall c: nat ensures c in Owned(g) <==> Reached(v, root, c) {
      if c in Owned(g) {
        var k :| k in g && c in g[k].chain;
        ObjRead(v, g, root, size, None, k);
        var n := ObjectIsFound(v, g, root, size, k);
      }
      if Reached(v, root, c) {
        var k: nat, dir: bool, n: nat :| Found(v, root, k, dir, n) && c in ChainOf(v.fat, k);
        FoundIsObject(v, g, root, size, k, dir, n);
        ObjRead(v, g, root, size, None, k);
      }
    }
  }

  // ---- how the operations keep it ---------------------------------------------------------

  /** Objects that are in both have the same parent and kind; one that is gone was nobody's parent. */
  ghost predicate SameParents(g: Objs, g': Objs) {
    && (forall k :: k in g && k in g' ==> g'[k].parent == g[k].parent && g'[k].dir == g[k].dir)
    && (forall k :: k in g && k in g' && g[k].parent in g ==> g[k].parent in g')
  }

  lemma {:induction false} ClimbsKept(g: Objs, g': Objs, k: nat, root: nat, n: nat)
    requires SameParents(g, g') && k in g && k in g' && Climbs(g, k, root, n)
    ensures Climbs(g', k, root, n)
    decreases n
  {
    if k != root && g[k].parent != root {
      ClimbsKept(g, g', g[k].parent, root, n - 1);
    }
  }

  lemma AttachedKept(v: Vol, v': Vol, g: Objs, g': Objs, root: nat, k: nat)
    requires SameParents(g, g') && k in g && k in g' && Attached(v, g, root, k)
    requires HasEntry(v', g[k].parent, k)
    ensures Attached(v', g', root, k)
  {
    hide HasEntry;
    var n: nat :| Climbs(g, k, root, n);
    ClimbsKept(g, g', k, root, n);
  }

  /** A new object in directory `d`. */
  lemma AttachedNew(v': Vol, g: Objs, g': Objs, root: nat, d: nat, k: nat, n: nat)
    requires SameParents(g, g') && IsDir(g, d) && IsDir(g', d) && Climbs(g, d, root, n)
    requires k in g' && g'[k].parent == d && HasEntry(v', d, k)
    ensures Attached(v', g', root, k)
  {
    hide HasEntry;
    ClimbsKept(g, g', d, root, n);
    assert Climbs(g', k, root, n + 1);
  }

  lemma SameEntries(v: Vol, v': Vol, d: nat, k: nat)
    requires HasEntry(v, d, k) && DirListing(v', d) == DirListing(v, d)
    ensures HasEntry(v', d, k)
  {
  }

  lemma Climbing(v: Vol, g: Objs, root: nat, d: nat) returns (n: nat)
    requires InTree(v, g, root) && d in g
    ensures Climbs(g, d, root, n)
  {
    if d == root {
      n := 0;
    } else {
      assert Attached(v, g, root, d);
      n :| Climbs(g, d, root, n);
    }
  }

  /** When all directories list what they listed and every object has the parent it had. */
  lemma TreeSame(v: Vol, v': Vol, g: Objs, g': Objs, root: nat)
    requires InTree(v, g, root) && KeepsRefs(g, g') && g'.Keys == g.Keys
    requires forall k :: IsDir(g, k) ==> DirListing(v', k) == DirListing(v, k)
    ensures InTree(v', g', root)
  {
    hide HasEntry, DirListing, Climbs;
    forall k | k in g' && k != root ensures Attached(v', g', root, k) {
      assert Attached(v, g, root, k);
      SameEntries(v, v', g[k].parent, k);
      AttachedKept(v, v', g, g', root, k);
    }
  }

  /** All entries but the `j`-th stay. */
  ghost predicate StayBeside(before: seq<FatDirEntry>, after: seq<FatDirEntry>, j: nat) {
    forall i: nat :: i < |before| && i != j ==> before[i] in after
  }

  /** The object `k` is listed still where it was: its directory is the same, or its entry is not the one changed. */
  lemma EntryStays(v: Vol, v': Vol, p: nat, j: nat, k: nat)
    requires HasEntry(v, p, k)
    requires DirListing(v', p) == DirListing(v, p) ||
      (StayBeside(DirListing(v, p), DirListing(v', p), j)
       && (j < |DirListing(v, p)| ==> DirListing(v, p)[j].Cluster() as nat != k))
    ensures HasEntry(v', p, k)
  {
    hide DirListing, FatDirEntry.Cluster;
    var i: nat :| i < |DirListing(v, p)| && DirListing(v, p)[i].Cluster() as nat == k;
    if DirListing(v', p) != DirListing(v, p) {
      assert DirListing(v, p)[i] in DirListing(v', p);
    }
  }

  lemma ReplacedStay(entries: seq<FatDirEntry>, j: nat, e: FatDirEntry)
    requires j < |entries|
    ensures StayBeside(entries, entries[j := e], j)
  {
    forall i: nat | i < |entries| && i != j ensures entries[i] in entries[j := e] {
      assert entries[j := e][i] == entries[i];
    }
  }

  lemma RemovedStay(entries: seq<FatDirEntry>, j: nat)
    requires j < |entries|
    ensures StayBeside(entries, entries[..j] + entries[j + 1..], j)
  {
    var after := entries[..j] + entries[j + 1..];
    forall i: nat | i < |entries| && i != j ensures entries[i] in after {
      assert after[if i < j then i else i - 1] == entries[i];
    }
  }

  lemma InsertedStay(entries: seq<FatDirEntry>, j: nat, n: FatDirEntry)
    requires j <= |entries|
    ensures StayBeside(entries, Inserted(entries, j, n), |entries|)
    ensures j < |Inserted(entries, j, n)| && Inserted(entries, j, n)[j] == n
  {
    var after := Inserted(entries, j, n);
    forall i: nat | i < |entries| ensures entries[i] in after {
      assert after[if i < j then i else i + 1] == entries[i];
    }
  }

  /** The objects after an addition to directory `d`: `k` is new there, or is the one its entry `j` refers to. */
  lemma TreeWith(v: Vol, v': Vol, g: Objs, g': Objs, root: nat, size: nat, d: nat, j: nat, k: nat)
    requires WF(v, g, root, size, None) && InTree(v, g, root) && IsDir(g, d) && k != root && k >= 2
    requires KeepsRefs(g, g') && g'.Keys == g.Keys + {k} && g'[k].parent == d && HasEntry(v', d, k)
    requires StayBeside(DirListing(v, d), DirListing(v', d), j) && OtherDirsSame(v, v', g, d)
    requires j < |DirListing(v, d)| ==> DirListing(v, d)[j].Cluster() as nat == k || DirListing(v, d)[j].Cluster() < 2
    ensures InTree(v', g', root)
  {
    hide WF, DirListing, Climbs, HasEntry, StayBeside, FatDirEntry.Cluster;
    var n := Climbing(v, g, root, d);
    assert SameParents(g, g');
    hide SameParents;
    forall l | l in g' && l != root ensures Attached(v', g', root, l) {
      if l == k {
        AttachedNew(v', g, g', root, d, k, n);
      } else {
        assert Attached(v, g, root, l);
        ObjReadable(v, g, root, size, l);
        EntryStays(v, v', g[l].parent, j, l);
        AttachedKept(v, v', g, g', root, l);
      }
    }
  }

  /** The objects without `c`, a file or an empty directory, which the entry `j` of directory `d` no longer refers to. */
  lemma TreeWithout(v: Vol, v': Vol, g: Objs, root: nat, size: nat, d: nat, j: nat, c: nat)
    requires WF(v, g, root, size, None) && InTree(v, g, root) && IsDir(g, d) && j < |DirListing(v, d)|
    requires c == DirListing(v, d)[j].Cluster() || (c < 2 && DirListing(v, d)[j].Cluster() < 2)
    requires DirListing(v, d)[j].IsDirectory() ==> DirListing(v, c) == []
    requires StayBeside(DirListing(v, d), DirListing(v', d), j)
    requires forall k :: IsDir(g, k) && k != d && k != c ==> DirListing(v', k) == DirListing(v, k)
    ensures InTree(v', g - {c}, root)
  {
    hide WF, DirListing, Climbs, StayBeside, FatDirEntry.Cluster;
    var g' := g - {c};
    DirKnown(v, g, root, size, d, j);
    forall k | k in g && k != root ensures g[k].parent != c && g[k].parent in g {
      assert Attached(v, g, root, k);
      ObjReadable(v, g, root, size, g[k].parent);
    }
    RootHasNoParent(v, g, root, size);
    assert SameParents(g, g');
    hide HasEntry, SameParents;
    forall l | l in g' && l != root ensures Attached(v', g', root, l) {
      assert Attached(v, g, root, l);
      ObjReadable(v, g, root, size, l);
      EntryStays(v, v', g[l].parent, j, l);
      AttachedKept(v, v', g, g', root, l);
    }
  }

  /** Entry `j` of directory `d` refers to the written file now. */
  lemma TreeFilled(v: Vol, v': Vol, g: Objs, root: nat, size: nat, d: nat, j: nat, c: nat, k: nat, ch: seq<nat>, e': FatDirEntry)
    requires WF(v, g, root, size, None) && InTree(v, g, root) && FileAt(v, g, d, j, c)
    requires DirListing(v', d) == DirListing(v, d)[j := e'] && OtherDirsSame(v, v', g, d)
    requires e'.Cluster() as nat == k >= 2 && (if c >= 2 then k == c else k !in g)
    ensures InTree(v', g[k := FileObj(v, d, j, ch)], root)
  {
    hide WF, DirListing, InTree, StayBeside, FatDirEntry.Cluster;
    HandleChain(v, g, root, size, d, j, c);
    RootHasNoParent(v, g, root, size);
    ReplacedStay(DirListing(v, d), j, e');
    assert DirListing(v', d)[j].Cluster() as nat == k;
    TreeWith(v, v', g, g[k := FileObj(v, d, j, ch)], root, size, d, j, k);
  }

  /** Entry `j` of directory `d` refers to nothing now. */
  lemma TreeEmptied(v: Vol, v': Vol, g: Objs, root: nat, size: nat, d: nat, j: nat, c: nat, e': FatDirEntry)
    requires WF(v, g, root, size, None) && InTree(v, g, root) && FileAt(v, g, d, j, c)
    requires DirListing(v', d) == DirListing(v, d)[j := e'] && OtherDirsSame(v, v', g, d)
    ensures InTree(v', g - {c}, root)
  {
    hide WF, DirListing, InTree, StayBeside, FatDirEntry.Cluster, FatDirEntry.IsDirectory;
    ReplacedStay(DirListing(v, d), j, e');
    TreeWithout(v, v', g, root, size, d, j, c);
  }

  /** Directory `d` has the new entry `n` at position `j`. */
  lemma TreeMade(v: Vol, v': Vol, g: Objs, g': Objs, root: nat, size: nat, d: nat, j: nat, n: FatDirEntry)
    requires WF(v, g, root, size, None) && InTree(v, g, root) && IsDir(g, d) && j <= |DirListing(v, d)|
    requires DirListing(v', d) == Inserted(DirListing(v, d), j, n) && OtherDirsSame(v, v', g, d)
    requires n.Cluster() >= 2 && n.Cluster() as nat !in g
    requires KeepsRefs(g, g') && g'.Keys == g.Keys + {n.Cluster() as nat} && g'[n.Cluster() as nat].parent == d
    ensures InTree(v', g', root)
  {
    hide WF, DirListing, InTree, StayBeside, FatDirEntry.Cluster, KeepsRefs, Inserted;
    RootHasNoParent(v, g, root, size);
    InsertedStay(DirListing(v, d), j, n);
    assert DirListing(v', d)[j].Cluster() == n.Cluster();
    TreeWith(v, v', g, g', root, size, d, |DirListing(v, d)|, n.Cluster());
  }

  lemma RootHasNoParent(v: Vol, g: Objs, root: nat, size: nat)
    requires WF(v, g, root, size, None)
    ensures root in g && g[root].parent !in g
  {
    if 0 in g {
      ObjReadable(v, g, root, size, 0);
    }
  }

  /** The root alone is a tree. */
  lemma RootAlone(v: Vol, root: nat, o: Obj)
    ensures InTree(v, map[root := o], root)
  {
  }
}
