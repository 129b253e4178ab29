/** Paths on a volume: what they lead to, and how that survives a change to one directory. */
module FatPaths {
  import opened Bytes
  import opened Outcome
  import opened FatVolume
  import opened ShortNames
  import opened DirScan
  import opened FatObjects

  /** The first entry whose name is `name` up to case, or the number of entries. */
  function FindIndex(entries: seq<FatDirEntry>, name: string): (i: nat)
    ensures i <= |entries|
    ensures i < |entries| ==> Lower(entries[i].name) == Lower(name)
    ensures forall k :: 0 <= k < i ==> Lower(entries[k].name) != Lower(name)
  {
    if entries == [] || Lower(entries[0].name) == Lower(name) then 0 else 1 + FindIndex(entries[1..], name)
  }

  lemma {:induction false} FirstMatch(entries: seq<FatDirEntry>, name: string, i: nat)
    requires i <= |entries| && (i < |entries| ==> Lower(entries[i].name) == Lower(name))
    requires forall k :: 0 <= k < i ==> Lower(entries[k].name) != Lower(name)
    ensures FindIndex(entries, name) == i
  {
  }

  /** `e` is the first entry called `name`, up to the case of ASCII letters; none is. */
  ghost predicate FirstCalled(entries: seq<FatDirEntry>, name: string, found: Option<FatDirEntry>) {
    match found
    case None => forall i :: 0 <= i < |entries| ==> !SameUpToCase(entries[i].name, name)
    case Some(e) =>
      exists i: nat ::
        && i < |entries| && entries[i] == e && SameUpToCase(e.name, name)
        && forall k :: 0 <= k < i ==> !SameUpToCase(entries[k].name, name)
  }

  lemma FoundIsFirst(entries: seq<FatDirEntry>, name: string)
    ensures var i := FindIndex(entries, name); FirstCalled(entries, name, if i < |entries| then Some(entries[i]) else None)
  {
    hide FindIndex, Lower, SameUpToCase;
    var i := FindIndex(entries, name);
    forall k | 0 <= k < |entries| ensures Lower(entries[k].name) == Lower(name) <==> SameUpToCase(entries[k].name, name) {
      MatchExactly(entries[k].name, name);
    }
  }

  ghost function DirListing(v: Vol, dir: nat): seq<FatDirEntry> {
    Listing(SlotsOf(ReadFrom(v, dir)))
  }

  ghost function Lookup(v: Vol, dir: nat, name: string): Option<FatDirEntry> {
    var entries := DirListing(v, dir);
    var i := FindIndex(entries, name);
    if i < |entries| then Some(entries[i]) else None
  }

  /** The directory that holds the last component, and its entry there. */
  ghost function Resolve(v: Vol, dir: nat, parts: seq<string>): Result<(nat, FatDirEntry), FatError>
    requires parts != []
    decreases |parts|
  {
    match Lookup(v, dir, parts[0])
    case None => Err(PathNotFound)
    case Some(e) =>
      if |parts| == 1 then Ok((dir, e))
      else if !e.IsDirectory() then Err(NotADirectory)
      else Resolve(v, e.Cluster(), parts[1..])
  }

  lemma ResolveStep(v: Vol, dir: nat, parts: seq<string>)
    requires parts != []
    ensures var entries := DirListing(v, dir); var i := FindIndex(entries, parts[0]);
      Resolve(v, dir, parts) ==
        if i == |entries| then Err(PathNotFound)
        else if |parts| == 1 then Ok((dir, entries[i]))
        else if !entries[i].IsDirectory() then Err(NotADirectory)
        else Resolve(v, entries[i].Cluster(), parts[1..])
  {
    hide DirListing;
  }

  /** The bytes of a file, as opening it reads them. */
  ghost function FileData(v: Vol, e: FatDirEntry): seq<byte> {
    if e.Cluster() >= 2 then
      var d := ReadFrom(v, e.Cluster());
      if |d| <= e.short.size then d else d[..e.short.size]
    else []
  }

  ghost predicate IsDir(g: Objs, k: nat) {
    k in g && g[k].dir
  }

  lemma DirKnown(v: Vol, g: Objs, root: nat, size: nat, d: nat, i: nat)
    requires WF(v, g, root, size, None) && IsDir(g, d) && i < |DirListing(v, d)|
    ensures RefOk(g, d, DirListing(v, d)[i])
    ensures DirListing(v, d)[i].IsDirectory() ==> IsDir(g, DirListing(v, d)[i].Cluster())
  {
    ObjRead(v, g, root, size, None, d);
  }

  /** Whatever a path leads to is an entry of a known directory. */
  lemma {:induction false} Resolved(v: Vol, g: Objs, root: nat, size: nat, dir: nat, parts: seq<string>)
    requires WF(v, g, root, size, None) && IsDir(g, dir) && parts != [] && Resolve(v, dir, parts).Ok?
    ensures var (d, e) := Resolve(v, dir, parts).value;
      && IsDir(g, d) && RefOk(g, d, e)
      && var i := FindIndex(DirListing(v, d), parts[|parts| - 1]);
         i < |DirListing(v, d)| && DirListing(v, d)[i] == e
    decreases |parts|
  {
    hide DirListing, WF, FatDirEntry.Cluster, FatDirEntry.IsDirectory;
    ResolveStep(v, dir, parts);
    var entries := DirListing(v, dir);
    var i := FindIndex(entries, parts[0]);
    DirKnown(v, g, root, size, dir, i);
    if |parts| > 1 {
      Resolved(v, g, root, size, entries[i].Cluster(), parts[1..]);
    }
  }

  // ---- one entry rewritten ----------------------------------------------------------------

  /** All directories but `d` list what they listed. */
  ghost predicate OtherDirsSame(v: Vol, v': Vol, g: Objs, d: nat) {
    forall k :: IsDir(g, k) && k != d ==> DirListing(v', k) == DirListing(v, k)
  }

  lemma FindInUpdated(entries: seq<FatDirEntry>, j: nat, e: FatDirEntry, name: string)
    requires j < |entries| && e.name == entries[j].name
    ensures FindIndex(entries[j := e], name) == FindIndex(entries, name)
  {
    FirstMatch(entries[j := e], name, FindIndex(entries, name));
  }

  /** After entry `j` of directory `d` changed but kept its name, paths lead where they led. */
  lemma {:induction false} ResolveUpdated(v: Vol, v': Vol, g: Objs, root: nat, size: nat,
                                          d: nat, j: nat, e': FatDirEntry, dir: nat, parts: seq<string>)
    requires WF(v, g, root, size, None) && IsDir(g, d) && IsDir(g, dir) && parts != []
    requires j < |DirListing(v, d)| && DirListing(v', d) == DirListing(v, d)[j := e'] && OtherDirsSame(v, v', g, d)
    requires e'.name == DirListing(v, d)[j].name && !e'.IsDirectory() && !DirListing(v, d)[j].IsDirectory()
    ensures Resolve(v', dir, parts) ==
      if Resolve(v, dir, parts) == Ok((d, DirListing(v, d)[j])) then Ok((d, e')) else Resolve(v, dir, parts)
    decreases |parts|
  {
    hide DirListing, WF, RefOk, FatDirEntry.Cluster, FatDirEntry.IsDirectory, Resolve;
    ResolveStep(v, dir, parts);
    ResolveStep(v', dir, parts);
    var entries := DirListing(v, dir);
    var i := FindIndex(entries, parts[0]);
    if dir == d {
      FindInUpdated(entries, j, e', parts[0]);
      EntriesDistinct(v, g, root, size, d, i, j);
    }
    if i < |entries| {
      DirKnown(v, g, root, size, dir, i);
      if |parts| > 1 && entries[i].IsDirectory() {
        ResolveUpdated(v, v', g, root, size, d, j, e', entries[i].Cluster(), parts[1..]);
      }
    }
  }

  /** A directory lists no entry twice. */
  lemma EntriesDistinct(v: Vol, g: Objs, root: nat, size: nat, d: nat, i: nat, j: nat)
    requires WF(v, g, root, size, None) && IsDir(g, d)
    ensures i < |DirListing(v, d)| && j < |DirListing(v, d)| && DirListing(v, d)[i] == DirListing(v, d)[j] ==> i == j
  {
    ObjRead(v, g, root, size, None, d);
    if i < |DirListing(v, d)| && j < |DirListing(v, d)| && DirListing(v, d)[i] == DirListing(v, d)[j] {
      EntriesApart(SlotsOf(ReadFrom(v, d)), i, j);
    }
  }

  // ---- one entry taken out ----------------------------------------------------------------

  lemma FindInRemoved(entries: seq<FatDirEntry>, j: nat, name: string)
    requires j < |entries| && FindIndex(entries, name) < |entries| && FindIndex(entries, name) != j
    ensures var after := entries[..j] + entries[j + 1..]; var i := FindIndex(after, name);
      i < |after| && after[i] == entries[FindIndex(entries, name)]
  {
    var after := entries[..j] + entries[j + 1..];
    var i := FindIndex(entries, name);
    var at := if i < j then i else i - 1;
    assert after[at] == entries[i];
    forall k | 0 <= k < at ensures Lower(after[k].name) != Lower(name) {
      assert after[k] == entries[if k < j then k else k + 1];
    }
    FirstMatch(after, name, at);
  }

  /** After entry `j` of directory `d`, a file or an empty directory, is gone, every other path leads where it led. */
  lemma {:induction false} ResolveRemoved(v: Vol, v': Vol, g: Objs, root: nat, size: nat,
                                          d: nat, j: nat, dir: nat, parts: seq<string>)
    requires WF(v, g, root, size, None) && IsDir(g, d) && IsDir(g, dir) && parts != [] && j < |DirListing(v, d)|
    requires DirListing(v', d) == DirListing(v, d)[..j] + DirListing(v, d)[j + 1..]
    requires var e := DirListing(v, d)[j]; e.IsDirectory() ==> DirListing(v, e.Cluster()) == []
    requires forall k :: IsDir(g, k) && k != d && DirListing(v, k) != [] ==> DirListing(v', k) == DirListing(v, k)
    requires Resolve(v, dir, parts).Ok? && Resolve(v, dir, parts) != Ok((d, DirListing(v, d)[j]))
    ensures Resolve(v', dir, parts) == Resolve(v, dir, parts)
    decreases |parts|
  {
    hide DirListing, WF, RefOk, FatDirEntry.Cluster, FatDirEntry.IsDirectory, Resolve;
    ResolveStep(v, dir, parts);
    ResolveStep(v', dir, parts);
    var entries := DirListing(v, dir);
    var i := FindIndex(entries, parts[0]);
    DirKnown(v, g, root, size, dir, i);
    if dir == d && i != j {
      FindInRemoved(entries, j, parts[0]);
    }
    if |parts| > 1 && dir == d && i == j {
      ResolveStep(v, entries[i].Cluster(), parts[1..]);
    } else if |parts| > 1 {
      ResolveRemoved(v, v', g, root, size, d, j, entries[i].Cluster(), parts[1..]);
    }
  }

  // ---- one entry put in -------------------------------------------------------------------

  lemma SameCase(entries: seq<FatDirEntry>, a: string, b: string)
    requires Lower(a) == Lower(b)
    ensures FindIndex(entries, a) == FindIndex(entries, b)
  {
    FirstMatch(entries, a, FindIndex(entries, b));
  }

  /** Of the entries found under `name` so far the first would come after one put at position `j`. */
  predicate Hidden(entries: seq<FatDirEntry>, j: nat, name: string) {
    j <= FindIndex(entries, name) < |entries|
  }

  lemma FindInInserted(entries: seq<FatDirEntry>, j: nat, n: FatDirEntry, name: string)
    requires j <= |entries| && !Hidden(entries, j, n.name) && FindIndex(entries, name) < |entries|
    ensures var after := entries[..j] + [n] + entries[j..]; var i := FindIndex(after, name);
      i < |after| && after[i] == entries[FindIndex(entries, name)]
  {
    var after := entries[..j] + [n] + entries[j..];
    var i := FindIndex(entries, name);
    if Lower(name) == Lower(n.name) { SameCase(entries, name, n.name); }
    var at := if i < j then i else i + 1;
    assert after[at] == entries[i];
    forall k | 0 <= k < at ensures Lower(after[k].name) != Lower(name) {
      assert after[k] == if k < j then entries[k] else if k == j then n else entries[k - 1];
    }
    FirstMatch(after, name, at);
  }

  /** The new entry is the one found under its name, unless one before it has that name. */
  lemma FindInserted(entries: seq<FatDirEntry>, j: nat, n: FatDirEntry, name: string)
    requires j <= |entries| && Lower(n.name) == Lower(name)
    ensures FindIndex(entries[..j] + [n] + entries[j..], name) ==
      if FindIndex(entries, name) < j then FindIndex(entries, name) else j
  {
    var after := entries[..j] + [n] + entries[j..];
    assert forall k :: 0 <= k < j ==> after[k] == entries[k];
    FirstMatch(after, name, if FindIndex(entries, name) < j then FindIndex(entries, name) else j);
  }

  /** After an entry that hides none was put into directory `d`, every path that led somewhere leads there still. */
  lemma {:induction false} ResolveInserted(v: Vol, v': Vol, g: Objs, root: nat, size: nat,
                                           d: nat, j: nat, n: FatDirEntry, dir: nat, parts: seq<string>)
    requires WF(v, g, root, size, None) && IsDir(g, d) && IsDir(g, dir) && parts != []
    requires j <= |DirListing(v, d)| && DirListing(v', d) == DirListing(v, d)[..j] + [n] + DirListing(v, d)[j..]
    requires !Hidden(DirListing(v, d), j, n.name) && OtherDirsSame(v, v', g, d)
    requires Resolve(v, dir, parts).Ok?
    ensures Resolve(v', dir, parts) == Resolve(v, dir, parts)
    decreases |parts|
  {
    hide DirListing, WF, RefOk, FatDirEntry.Cluster, FatDirEntry.IsDirectory, Resolve, Hidden;
    ResolveStep(v, dir, parts);
    ResolveStep(v', dir, parts);
    var entries := DirListing(v, dir);
    var i := FindIndex(entries, parts[0]);
    DirKnown(v, g, root, size, dir, i);
    if dir == d {
      FindInInserted(entries, j, n, parts[0]);
    }
    if |parts| > 1 {
      ResolveInserted(v, v', g, root, size, d, j, n, entries[i].Cluster(), parts[1..]);
    }
  }

  /** A path is its parent directory's path and a name looked up there. */
  lemma {:induction false} ResolveSplit(v: Vol, dir: nat, parts: seq<string>)
    requires |parts| > 1
    ensures var p := Resolve(v, dir, parts[..|parts| - 1]); var name := parts[|parts| - 1];
      Resolve(v, dir, parts) ==
        if p.Err? then Err(p.error)
        else if !p.value.1.IsDirectory() then Err(NotADirectory)
        else Resolve(v, p.value.1.Cluster(), [name])
    decreases |parts|
  {
    hide DirListing, FatDirEntry.Cluster, FatDirEntry.IsDirectory, Resolve;
    var front := parts[..|parts| - 1];
    ResolveStep(v, dir, parts);
    ResolveStep(v, dir, front);
    var entries := DirListing(v, dir);
    var i := FindIndex(entries, parts[0]);
    if |parts| == 2 {
      assert parts[1..] == [parts[1]];
    } else if i < |entries| && entries[i].IsDirectory() {
      ResolveSplit(v, entries[i].Cluster(), parts[1..]);
      assert parts[1..][..|parts[1..]| - 1] == front[1..];
    }
  }

  lemma RootIsDir(v: Vol, g: Objs, root: nat, size: nat)
    requires WF(v, g, root, size, None)
    ensures IsDir(g, root)
  {
  }

  lemma ObjReadable(v: Vol, g: Objs, root: nat, size: nat, k: nat)
    requires WF(v, g, root, size, None) && k in g
    ensures Readable(v.fat, k) && StartOk(v.fat, k) && InRange(v.fat, k)
  {
    ObjRead(v, g, root, size, None, k);
  }

  lemma RefIsDir(g: Objs, d: nat, e: FatDirEntry)
    requires RefOk(g, d, e) && e.IsDirectory()
    ensures IsDir(g, e.Cluster())
  {
  }

  /** `d` is the directory that the last of `parts` is looked up in. */
  ghost predicate IsParent(v: Vol, root: nat, parts: seq<string>, d: nat) {
    && parts != []
    && if |parts| == 1 then d == root
       else var p := Resolve(v, root, parts[..|parts| - 1]);
         p.Ok? && p.value.1.IsDirectory() && p.value.1.Cluster() == d
  }

  lemma ParentResolves(v: Vol, root: nat, parts: seq<string>, d: nat)
    requires IsParent(v, root, parts, d)
    ensures Resolve(v, root, parts) == Resolve(v, d, [parts[|parts| - 1]])
  {
    hide DirListing, FatDirEntry.Cluster, FatDirEntry.IsDirectory, Resolve;
    if |parts| > 1 {
      ResolveSplit(v, root, parts);
    } else {
      assert parts == [parts[|parts| - 1]];
    }
  }

  lemma ResolveOne(v: Vol, d: nat, name: string)
    ensures Resolve(v, d, [name]) == match Lookup(v, d, name) case Some(e) => Ok((d, e)) case None => Err(PathNotFound)
  {
  }

  lemma FileReadable(v: Vol, g: Objs, root: nat, size: nat, d: nat, e: FatDirEntry)
    requires WF(v, g, root, size, None) && RefOk(g, d, e)
    ensures e.Cluster() >= 2 ==> Readable(v.fat, e.Cluster())
  {
    if e.Cluster() >= 2 {
      ObjRead(v, g, root, size, None, e.Cluster());
    }
  }
}
