/** The mount table and path normalisation of the virtual file system. */
module Mounts {
  import opened Bytes
  import opened Outcome
  import opened Paths
  import opened ShortNames
  import opened VfsPaths

  /** Splits at slashes and keeps a stack of the names so far. */
  method NormalizePath(path: string) returns (normal: string)
    ensures normal == Normalize(path)
  {
    var parts: seq<string> := [];
    var pieces := Split(path);
    for n := 0 to |pieces|
      invariant parts == Walk([], pieces[..n])
    {
      assert pieces[..n + 1][..n] == pieces[..n];
      var part := pieces[n];
      if part == "" || part == "." {
        continue;
      } else if part == ".." {
        if parts != [] {
          parts := parts[..|parts| - 1];
        }
      } else {
        parts := parts + [part];
      }
    }
    assert pieces[..|pieces|] == pieces;
    if parts == [] {
      return "/";
    }
    normal := "";
    for n := 0 to |parts|
      invariant normal == Joined(parts[..n])
    {
      assert parts[..n + 1][..n] == parts[..n];
      normal := normal + "/";
      normal := normal + parts[n];
    }
    assert parts[..|parts|] == parts;
  }

  method ResolvePath(path: string, cwd: string) returns (full: string)
    ensures full == Resolved(path, cwd)
  {
    if path != "" && path[0] == '/' {
      full := NormalizePath(path);
    } else {
      full := cwd;
      if !(full != "" && full[|full| - 1] == '/') {
        full := full + "/";
      }
      full := full + path;
      full := NormalizePath(full);
    }
  }

  // ---- the mount table --------------------------------------------------------------------

  type FsId = nat

  datatype Mount = Mount(path: string, fs: FsId)

  /** Longest path first, in bytes; `false` only when `a` has to come after `b`. */
  predicate InOrder(a: Mount, b: Mount) {
    Utf8Len(a.path) >= Utf8Len(b.path)
  }

  ghost predicate Ordered(mounts: seq<Mount>) {
    forall i, j :: 0 <= i < j < |mounts| ==> InOrder(mounts[i], mounts[j])
  }

  lemma {:induction false} PrefixShorter(a: string, b: string)
    requires a <= b
    ensures Utf8Len(a) <= Utf8Len(b) && (a != b ==> Utf8Len(a) < Utf8Len(b))
    decreases |b|
  {
    if a != b {
      PrefixShorter(a, b[..|b| - 1]);
    }
  }

  /**
    The table the mounts stand for: distinct normalised paths, each with its file system, kept
    longest first.
   */
  ghost predicate Represents(mounts: seq<Mount>, table: map<seq<string>, FsId>) {
    && Ordered(mounts)
    && (forall parts :: parts in table ==> AllNames(parts))
    && (forall i :: 0 <= i < |mounts| ==> EntryOf(table, mounts[i]))
    && (forall parts :: parts in table ==> exists i :: 0 <= i < |mounts| && Parts(mounts[i].path) == parts)
    && (forall i, j :: 0 <= i < j < |mounts| ==> Parts(mounts[i].path) != Parts(mounts[j].path))
  }

  ghost predicate EntryOf(table: map<seq<string>, FsId>, m: Mount) {
    m.path == Render(Parts(m.path)) && Parts(m.path) in table && table[Parts(m.path)] == m.fs
  }

  /** The mount point with the longest prefix of the path's names. */
  ghost predicate IsLongest(table: map<seq<string>, FsId>, parts: seq<string>, top: seq<string>) {
    top in table && top <= parts && forall t :: t in table && t <= parts ==> |t| <= |top|
  }

  /** A longer prefix of a path is spelt with more bytes. */
  lemma LongerSpelling(a: seq<string>, b: seq<string>, parts: seq<string>)
    requires AllNames(a) && AllNames(b) && a <= parts && b <= parts && |a| < |b|
    ensures Utf8Len(Render(a)) < Utf8Len(Render(b))
  {
    hide Utf8Len, Utf8Width, Joined;
    assert a <= b;
    if a == [] {
      RenderShape(b);
    } else {
      PrefixBySpelling(a, b);
      if Render(a) == Render(b) {
        PartsOfRender(a);
        PartsOfRender(b);
        assert false;
      }
    }
    PrefixShorter(Render(a), Render(b));
  }

  lemma InsertedPlace(sorted: seq<Mount>, at: nat, m: Mount, k: nat)
    requires at <= |sorted| && k <= |sorted|
    ensures |Inserted(sorted, at, m)| == |sorted| + 1
    ensures Inserted(sorted, at, m)[k] == if k < at then sorted[k] else if k == at then m else sorted[k - 1]
  {
  }

  lemma InsertedItems(sorted: seq<Mount>, at: nat, m: Mount)
    requires at <= |sorted|
    ensures multiset(Inserted(sorted, at, m)) == multiset(sorted) + multiset{m}
  {
    assert sorted == sorted[..at] + sorted[at..];
  }

  /** `m` comes between the mounts before `at` and those from there on. */
  lemma BetweenNeighbours(sorted: seq<Mount>, at: nat, m: Mount, k: nat)
    requires Ordered(sorted) && at <= |sorted| && k < |sorted|
    requires forall k :: at <= k < |sorted| ==> !InOrder(sorted[k], m)
    requires at > 0 ==> InOrder(sorted[at - 1], m)
    ensures if k < at then InOrder(sorted[k], m) else InOrder(m, sorted[k])
  {
    hide Utf8Len;
    if k < at - 1 {
      assert InOrder(sorted[k], sorted[at - 1]);
    }
  }

  /** A mount put right behind those that have to come before it. */
  lemma InsertKeepsOrder(sorted: seq<Mount>, at: nat, m: Mount)
    requires Ordered(sorted) && at <= |sorted|
    requires forall k :: at <= k < |sorted| ==> !InOrder(sorted[k], m)
    requires at > 0 ==> InOrder(sorted[at - 1], m)
    ensures Ordered(Inserted(sorted, at, m))
  {
    hide InOrder, Inserted;
    InsertedPlace(sorted, at, m, 0);
    forall i: nat, j: nat | i < j < |sorted| + 1
      ensures InOrder(Inserted(sorted, at, m)[i], Inserted(sorted, at, m)[j])
    {
      InsertedPlace(sorted, at, m, i);
      InsertedPlace(sorted, at, m, j);
      if j == at {
        BetweenNeighbours(sorted, at, m, i);
      } else if i == at {
        BetweenNeighbours(sorted, at, m, j - 1);
      }
    }
  }

  class Vfs {
    var mounts: seq<Mount>
    ghost var table: map<seq<string>, FsId>

    ghost predicate Valid()
      reads this
    {
      Represents(mounts, table)
    }

    constructor ()
      ensures Valid() && table == map[]
    {
      mounts, table := [], map[];
    }

    /** The stable sort, by insertion: longest path first. */
    method SortByLength()
      modifies this`mounts
      ensures Ordered(mounts) && multiset(mounts) == multiset(old(mounts))
    {
      hide InOrder, Inserted;
      var sorted: seq<Mount> := [];
      for n := 0 to |mounts|
        invariant mounts == old(mounts)
        invariant Ordered(sorted) && multiset(sorted) == multiset(mounts[..n])
      {
        var at := n;
        SameSize(sorted, mounts[..n]);
        while at > 0 && !InOrder(sorted[at - 1], mounts[n])
          invariant 0 <= at <= n
          invariant forall k :: at <= k < n ==> !InOrder(sorted[k], mounts[n])
        {
          at := at - 1;
        }
        InsertKeepsOrder(sorted, at, mounts[n]);
        InsertedItems(sorted, at, mounts[n]);
        sorted := Inserted(sorted, at, mounts[n]);
        assert mounts[..n + 1] == mounts[..n] + [mounts[n]];
      }
      assert mounts[..|mounts|] == mounts;
      mounts := sorted;
    }

    method MountAt(path: string, fs: FsId) returns (r: Result<(), VfsError>)
      requires Valid()
      modifies this
      ensures Valid()
      ensures r == if Parts(path) in old(table) then Err(AlreadyExists) else Ok(())
      ensures table == if r.Ok? then old(table)[Parts(path) := fs] else old(table)
    {
      hide Parts, Render;
      var normal := NormalizePath(path);
      PartsAreNames(path);
      PartsOfRender(Parts(path));
      for n := 0 to |mounts|
        invariant forall k :: 0 <= k < n ==> mounts[k].path != normal
      {
        if mounts[n].path == normal {
          return Err(AlreadyExists);
        }
      }
      AbsentFromTable(mounts, table, normal);
      ghost var before := mounts;
      mounts := mounts + [Mount(normal, fs)];
      SortByLength();
      table := table[Parts(path) := fs];
      SortedRepresents(before, old(table), Mount(normal, fs), mounts);
      return Ok(());
    }

    method Unmount(path: string) returns (r: Result<(), VfsError>)
      requires Valid()
      modifies this
      ensures Valid()
      ensures r == if Parts(path) in old(table) then Ok(()) else Err(NotFound)
      ensures table == old(table) - {Parts(path)}
    {
      hide Parts, Render;
      var normal := NormalizePath(path);
      PartsAreNames(path);
      PartsOfRender(Parts(path));
      for n := 0 to |mounts|
        invariant forall k :: 0 <= k < n ==> mounts[k].path != normal
      {
        if mounts[n].path == normal {
          ghost var before := mounts;
          mounts := mounts[..n] + mounts[n + 1..];
          table := table - {Parts(path)};
          RemovedRepresents(before, old(table), n, mounts);
          return Ok(());
        }
      }
      AbsentFromTable(mounts, table, normal);
      return Err(NotFound);
    }

    /** The file system of the longest mount point above the path, and the path below it. */
    method Resolve(path: string) returns (r: Result<(FsId, string), VfsError>)
      requires Valid()
      ensures r.Err? ==> r.error == NotFound && forall t :: t in table ==> !(t <= Parts(path))
      ensures r.Ok? ==>
        exists top :: IsLongest(table, Parts(path), top) && r.value == (table[top], Render(Parts(path)[|top|..]))
    {
      hide Parts, Render, Joined, Utf8Len;
      var normal := NormalizePath(path);
      ghost var parts := Parts(path);
      PartsAreNames(path);
      PartsOfRender(parts);
      PartsOfRoot();
      for n := 0 to |mounts|
        invariant forall k :: 0 <= k < n ==> !(Parts(mounts[k].path) <= parts)
      {
        var mount := mounts[n];
        ghost var top := Parts(mount.path);
        assert EntryOf(table, mount);
        if mount.path == "/" {
          assert top == [] && parts[0..] == parts;
          FirstIsLongest(mounts, table, parts, n);
          return Ok((mount.fs, normal));
        }
        if top != [] {
          PrefixBySpelling(top, parts);
        }
        if normal == mount.path {
          FirstIsLongest(mounts, table, parts, n);
          return Ok((mount.fs, "/"));
        }
        if mount.path <= normal {
          var rest := normal[|mount.path|..];
          var relative;
          if rest == "" || rest == "/" {
            relative := "/";
          } else if rest[0] == '/' {
            relative := rest;
          } else {
            continue;
          }
          FirstIsLongest(mounts, table, parts, n);
          return Ok((mount.fs, relative));
        }
      }
      return Err(NotFound);
    }
  }

  lemma SameSize(a: seq<Mount>, b: seq<Mount>)
    requires multiset(a) == multiset(b)
    ensures |a| == |b|
  {
    assert |multiset(a)| == |multiset(b)|;
  }

  lemma AbsentFromTable(mounts: seq<Mount>, table: map<seq<string>, FsId>, normal: string)
    requires Represents(mounts, table) && normal == Render(Parts(normal))
    requires forall k :: 0 <= k < |mounts| ==> mounts[k].path != normal
    ensures Parts(normal) !in table
  {
    hide Parts, Render;
    forall i | 0 <= i < |mounts| ensures Parts(mounts[i].path) != Parts(normal) {
      assert EntryOf(table, mounts[i]);
    }
  }

  lemma SortedRepresents(before: seq<Mount>, table: map<seq<string>, FsId>, m: Mount, after: seq<Mount>)
    requires Represents(before, table) && m.path == Render(Parts(m.path)) && AllNames(Parts(m.path)) && Parts(m.path) !in table
    requires Ordered(after) && multiset(after) == multiset(before + [m])
    ensures Represents(after, table[Parts(m.path) := m.fs])
  {
    hide Parts, Render, InOrder;
    var all, table' := before + [m], table[Parts(m.path) := m.fs];
    forall i | 0 <= i < |after| ensures EntryOf(table', after[i]) {
      assert after[i] in multiset(all);
    }
    forall parts | parts in table' ensures exists i :: 0 <= i < |after| && Parts(after[i].path) == parts {
      var x := if parts == Parts(m.path) then m else var i :| 0 <= i < |before| && Parts(before[i].path) == parts; before[i];
      assert x in all;
      assert x in multiset(after);
    }
    DistinctKept(all, after);
  }

  /** Distinctness does not depend on the order. */
  lemma DistinctKept(a: seq<Mount>, b: seq<Mount>)
    requires multiset(a) == multiset(b)
    requires forall i, j :: 0 <= i < j < |a| ==> Parts(a[i].path) != Parts(a[j].path)
    ensures forall i, j :: 0 <= i < j < |b| ==> Parts(b[i].path) != Parts(b[j].path)
  {
    hide Parts;
    forall i, j | 0 <= i < j < |b| ensures Parts(b[i].path) != Parts(b[j].path) {
      if Parts(b[i].path) == Parts(b[j].path) {
        assert b[i] in multiset(a) && b[j] in multiset(a);
        var x :| 0 <= x < |a| && a[x] == b[i];
        var y :| 0 <= y < |a| && a[y] == b[j];
        assert x == y && b[i] == b[j];
        TwiceMeansTwice(b, i, j);
        OnceMeansOnce(a, x);
        assert false;
      }
    }
  }

  lemma TwiceMeansTwice(b: seq<Mount>, i: nat, j: nat)
    requires i < j < |b| && b[i] == b[j]
    ensures multiset(b)[b[i]] >= 2
  {
    assert b == b[..j] + [b[j]] + b[j + 1..];
    assert b[i] in b[..j];
  }

  lemma OnceMeansOnce(a: seq<Mount>, x: nat)
    requires x < |a| && forall i, j :: 0 <= i < j < |a| ==> Parts(a[i].path) != Parts(a[j].path)
    ensures multiset(a)[a[x]] == 1
  {
    hide Parts;
    assert a == a[..x] + [a[x]] + a[x + 1..];
    assert a[x] !in a[..x] && a[x] !in a[x + 1..];
  }

  /** Where the mount at `i` was before the one at `n` was removed. */
  function Skip(n: nat, i: nat): nat { if i < n then i else i + 1 }

  lemma RemovedPlaces(before: seq<Mount>, n: nat, after: seq<Mount>)
    requires n < |before| && after == before[..n] + before[n + 1..]
    ensures |after| == |before| - 1 && forall i: nat :: i < |after| ==> after[i] == before[Skip(n, i)]
  {
  }

  lemma RemovedEntries(before: seq<Mount>, table: map<seq<string>, FsId>, n: nat, after: seq<Mount>)
    requires Represents(before, table) && n < |before|
    requires |after| == |before| - 1 && forall i: nat :: i < |after| ==> after[i] == before[Skip(n, i)]
    ensures forall i :: 0 <= i < |after| ==> EntryOf(table - {Parts(before[n].path)}, after[i])
    ensures forall parts ::
      parts in table && parts != Parts(before[n].path) ==> exists i :: 0 <= i < |after| && Parts(after[i].path) == parts
  {
    hide Parts, Render, InOrder;
    var table' := table - {Parts(before[n].path)};
    forall i: nat | i < |after| ensures EntryOf(table', after[i]) {
      assert EntryOf(table, before[Skip(n, i)]);
    }
    forall parts | parts in table && parts != Parts(before[n].path)
      ensures exists i :: 0 <= i < |after| && Parts(after[i].path) == parts
    {
      var i: nat :| i < |before| && Parts(before[i].path) == parts;
      var k: nat := if i < n then i else i - 1;
      assert Skip(n, k) == i && after[k] == before[i];
    }
  }

  lemma RemovedRepresents(before: seq<Mount>, table: map<seq<string>, FsId>, n: nat, after: seq<Mount>)
    requires Represents(before, table) && n < |before| && after == before[..n] + before[n + 1..]
    ensures Represents(after, table - {Parts(before[n].path)}) && Parts(before[n].path) in table
  {
    hide Parts, Render, InOrder, EntryOf;
    RemovedPlaces(before, n, after);
    RemovedEntries(before, table, n, after);
    assert Parts(before[n].path) in table by { EntryIsThere(before, table, n); }
    forall i: nat, j: nat | i < j < |after|
      ensures InOrder(after[i], after[j]) && Parts(after[i].path) != Parts(after[j].path)
    {
      assert after[i] == before[Skip(n, i)] && after[j] == before[Skip(n, j)];
    }
  }

  lemma EntryIsThere(mounts: seq<Mount>, table: map<seq<string>, FsId>, n: nat)
    requires Represents(mounts, table) && n < |mounts|
    ensures Parts(mounts[n].path) in table
  {
    hide Parts, Render;
    assert EntryOf(table, mounts[n]);
  }

  /** The first mount in the list that is above the path is the longest that is. */
  lemma FirstIsLongest(mounts: seq<Mount>, table: map<seq<string>, FsId>, parts: seq<string>, n: nat)
    requires Represents(mounts, table) && n < |mounts| && Parts(mounts[n].path) <= parts
    requires forall k :: 0 <= k < n ==> !(Parts(mounts[k].path) <= parts)
    ensures IsLongest(table, parts, Parts(mounts[n].path)) && table[Parts(mounts[n].path)] == mounts[n].fs
  {
    hide Parts, Render, Utf8Len;
    var top := Parts(mounts[n].path);
    assert EntryOf(table, mounts[n]);
    forall t | t in table && t <= parts ensures |t| <= |top| {
      var i :| 0 <= i < |mounts| && Parts(mounts[i].path) == t;
      assert EntryOf(table, mounts[i]);
      if i > n {
        assert InOrder(mounts[n], mounts[i]);
        if |t| > |top| {
          LongerSpelling(top, t, parts);
        }
      }
    }
  }
}
