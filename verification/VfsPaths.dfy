/** Normalised paths: what `.`, `..` and repeated slashes come to, and how paths compose. */
module VfsPaths {
  import opened Paths

  /** A component that names something. */
  predicate IsName(part: string) {
    part != "" && part != "." && part != ".." && NoSlash(part)
  }

  predicate AllNames(parts: seq<string>) {
    forall i :: 0 <= i < |parts| ==> IsName(parts[i])
  }

  /** Where one piece of a path leads from the directory `at`. */
  function Go(at: seq<string>, piece: string): seq<string> {
    if piece == "" || piece == "." then at
    else if piece == ".." then if at == [] then [] else at[..|at| - 1]
    else at + [piece]
  }

  /** Where a path's pieces lead from the directory `at`. */
  function Walk(at: seq<string>, pieces: seq<string>): seq<string> {
    if pieces == [] then at else Go(Walk(at, pieces[..|pieces| - 1]), pieces[|pieces| - 1])
  }

  /** The names a path comes to from the root. */
  function Parts(path: string): seq<string> {
    Walk([], Split(path))
  }

  function Joined(parts: seq<string>): string {
    if parts == [] then "" else Joined(parts[..|parts| - 1]) + "/" + parts[|parts| - 1]
  }

  /** The path that spells these names. */
  function Render(parts: seq<string>): string {
    if parts == [] then "/" else Joined(parts)
  }

  function Normalize(path: string): string {
    Render(Parts(path))
  }

  function FullPath(path: string, cwd: string): string {
    if path != "" && path[0] == '/' then path
    else if cwd != "" && cwd[|cwd| - 1] == '/' then cwd + path
    else cwd + "/" + path
  }

  function Resolved(path: string, cwd: string): string {
    Normalize(FullPath(path, cwd))
  }

  // ---- walking ----------------------------------------------------------------------------

  lemma {:induction false} WalkConcat(at: seq<string>, a: seq<string>, b: seq<string>)
    ensures Walk(at, a + b) == Walk(Walk(at, a), b)
    decreases |b|
  {
    if b == [] {
      assert a + b == a;
    } else {
      assert (a + b)[..|a + b| - 1] == a + b[..|b| - 1];
      WalkConcat(at, a, b[..|b| - 1]);
    }
  }

  lemma {:induction false} WalkGivesNames(at: seq<string>, pieces: seq<string>)
    requires AllNames(at) && forall i :: 0 <= i < |pieces| ==> NoSlash(pieces[i])
    ensures AllNames(Walk(at, pieces))
    decreases |pieces|
  {
    if pieces != [] {
      WalkGivesNames(at, pieces[..|pieces| - 1]);
    }
  }

  lemma {:induction false} WalkNames(at: seq<string>, names: seq<string>)
    requires AllNames(names)
    ensures Walk(at, names) == at + names
    decreases |names|
  {
    if names != [] {
      WalkNames(at, names[..|names| - 1]);
      assert at + names == at + names[..|names| - 1] + [names[|names| - 1]];
    } else {
      assert at + names == at;
    }
  }

  lemma PartsAreNames(path: string)
    ensures AllNames(Parts(path))
  {
    SplitPieces(path);
    WalkGivesNames([], Split(path));
  }

  // ---- spelling ---------------------------------------------------------------------------

  lemma {:induction false} SplitJoined(parts: seq<string>)
    requires AllNames(parts)
    ensures Split(Joined(parts)) == [""] + parts
    decreases |parts|
  {
    hide Split;
    if parts == [] {
      SplitNoSlash("");
      assert [""] + parts == [""];
    } else {
      var front, name := parts[..|parts| - 1], parts[|parts| - 1];
      SplitJoined(front);
      SplitConcat(Joined(front), name);
      SplitNoSlash(name);
      assert [""] + parts == [""] + front + [name];
    }
  }

  lemma JoinedSplits(parts: seq<string>)
    requires AllNames(parts)
    ensures Split(Render(parts)) == if parts == [] then ["", ""] else [""] + parts
  {
    hide Split, Joined;
    if parts == [] {
      SplitConcat("", "");
      SplitNoSlash("");
      assert "" + "/" + "" == "/";
    } else {
      SplitJoined(parts);
    }
  }

  /** Spelling names and reading the path gives the names back. */
  lemma PartsOfRender(parts: seq<string>)
    requires AllNames(parts)
    ensures Parts(Render(parts)) == parts
  {
    hide Split, Render;
    JoinedSplits(parts);
    WalkConcat([], [""], parts);
    WalkNames([], parts);
    assert [] + parts == parts;
    assert Walk([], [""]) == Go(Walk([], [""][..0]), "") == [];
    if parts == [] {
      WalkConcat([], [""], [""]);
      assert [""] + [""] == ["", ""];
    }
  }

  /** No component of a normalised path is empty, "." or "..", and the path is spelt from them. */
  lemma NormalizeCanonical(path: string)
    ensures var n := Normalize(path);
      && n[..1] == "/" && (n == "/" || n[|n| - 1] != '/')
      && AllNames(Components(n)) && n == Render(Components(n)) && Components(n) == Parts(path)
  {
    hide Split, Parts;
    PartsAreNames(path);
    var parts := Parts(path);
    JoinedSplits(parts);
    RenderShape(parts);
    ComponentsOfRender(parts);
  }

  lemma {:induction false} RenderShape(parts: seq<string>)
    requires AllNames(parts)
    ensures Render(parts)[..1] == "/" && (parts == [] <==> Render(parts) == "/")
    ensures parts != [] ==> |Render(parts)| > 1 && Render(parts)[|Render(parts)| - 1] != '/'
    decreases |parts|
  {
    if parts != [] {
      RenderShape(parts[..|parts| - 1]);
      assert Render(parts) == Joined(parts[..|parts| - 1]) + "/" + parts[|parts| - 1];
    }
  }

  lemma {:induction false} NamesStay(parts: seq<string>)
    requires AllNames(parts)
    ensures NonEmpty(parts) == parts
  {
    if parts != [] {
      NamesStay(parts[1..]);
    }
  }

  lemma ComponentsOfRender(parts: seq<string>)
    requires AllNames(parts)
    ensures Components(Render(parts)) == parts
  {
    hide Split, Render;
    JoinedSplits(parts);
    if parts == [] {
      assert NonEmpty([""]) == [] by { assert [""][1..] == []; }
      assert ["", ""][1..] == [""];
    } else {
      NonEmptyConcat([""], parts);
      NamesStay(parts);
      assert [""][1..] == [];
      assert NonEmpty([""]) == NonEmpty([""][1..]);
      assert [] + parts == parts;
    }
  }

  lemma NormalizeIdempotent(path: string)
    ensures Normalize(Normalize(path)) == Normalize(path)
  {
    hide Parts, Render;
    PartsAreNames(path);
    PartsOfRender(Parts(path));
  }

  // ---- composing --------------------------------------------------------------------------

  lemma PartsConcat(a: string, b: string)
    ensures Parts(a + "/" + b) == Walk(Parts(a), Split(b))
  {
    hide Split;
    SplitConcat(a, b);
    WalkConcat([], Split(a), Split(b));
  }

  predicate IsAbsolute(path: string) { path != "" && path[0] == '/' }

  /** A relative path is walked from the directory `cwd` names, an absolute one from the root. */
  lemma ResolvedParts(path: string, cwd: string)
    ensures Parts(Resolved(path, cwd)) == Walk(if IsAbsolute(path) then [] else Parts(cwd), Split(path))
  {
    hide Split, Parts, Render;
    PartsAreNames(FullPath(path, cwd));
    PartsOfRender(Parts(FullPath(path, cwd)));
    if IsAbsolute(path) {
      WalkFromRoot(path);
    } else if cwd != "" && cwd[|cwd| - 1] == '/' {
      var front := cwd[..|cwd| - 1];
      assert cwd + path == front + "/" + path && cwd == front + "/" + "";
      PartsConcat(front, path);
      PartsConcat(front, "");
      WalkNothing(Parts(front));
    } else {
      PartsConcat(cwd, path);
    }
  }

  lemma WalkFromRoot(path: string)
    ensures Parts(path) == Walk([], Split(path))
  {
  }

  lemma WalkNothing(at: seq<string>)
    ensures Walk(at, Split("")) == at
  {
    hide Split;
    SplitNoSlash("");
    assert [""][..0] == [];
  }

  lemma ResolvedIsSpelt(path: string, cwd: string)
    ensures Resolved(path, cwd) == Render(Parts(Resolved(path, cwd)))
  {
    hide Parts, Render;
    PartsAreNames(FullPath(path, cwd));
    PartsOfRender(Parts(FullPath(path, cwd)));
  }

  /** Changing directory to `a` and then resolving a relative `b` is resolving `a/b`. */
  lemma ResolveComposes(a: string, b: string, cwd: string)
    requires a != "" && !IsAbsolute(b)
    ensures Resolved(b, Resolved(a, cwd)) == Resolved(a + "/" + b, cwd)
  {
    hide Split, Parts, Render, Resolved, Walk;
    var there := Resolved(a, cwd);
    ResolvedParts(a, cwd);
    ResolvedParts(b, there);
    ResolvedParts(a + "/" + b, cwd);
    SplitConcat(a, b);
    WalkConcat(if IsAbsolute(a) then [] else Parts(cwd), Split(a), Split(b));
    ResolvedIsSpelt(b, there);
    ResolvedIsSpelt(a + "/" + b, cwd);
  }

  /** A name goes down, `..` goes up and stays at the root, `.` and extra slashes stay. */
  lemma ResolveOneStep(name: string, cwd: string)
    ensures IsName(name) ==> Resolved(name, cwd) == Render(Parts(cwd) + [name])
    ensures Resolved("..", cwd) == Render(if Parts(cwd) == [] then [] else Parts(cwd)[..|Parts(cwd)| - 1])
    ensures Resolved(".", cwd) == Render(Parts(cwd)) && Resolved("", cwd) == Render(Parts(cwd))
    ensures Resolved("..", "/") == "/"
  {
    hide Parts, Split, Render, Resolved;
    ResolvedParts("..", cwd);
    ResolvedParts(".", cwd);
    ResolvedParts("", cwd);
    ResolvedParts("..", "/");
    SplitNoSlash("..");
    SplitNoSlash(".");
    SplitNoSlash("");
    ResolvedIsSpelt("..", cwd);
    ResolvedIsSpelt(".", cwd);
    ResolvedIsSpelt("", cwd);
    ResolvedIsSpelt("..", "/");
    WalkOne(Parts(cwd), "..");
    WalkOne(Parts(cwd), ".");
    WalkOne(Parts(cwd), "");
    WalkOne(Parts("/"), "..");
    PartsOfRoot();
    if IsName(name) {
      ResolvedParts(name, cwd);
      SplitNoSlash(name);
      ResolvedIsSpelt(name, cwd);
      WalkOne(Parts(cwd), name);
    }
  }

  lemma WalkOne(at: seq<string>, piece: string)
    ensures Walk(at, [piece]) == Go(at, piece)
  {
    assert [piece][..0] == [];
  }

  lemma PartsOfRoot()
    ensures Parts("/") == [] && Render([]) == "/"
  {
    PartsOfRender([]);
  }

  // ---- prefixes ---------------------------------------------------------------------------

  lemma {:induction false} JoinedConcat(a: seq<string>, b: seq<string>)
    ensures Joined(a + b) == Joined(a) + Joined(b)
    decreases |b|
  {
    if b == [] {
      assert a + b == a;
    } else {
      assert (a + b)[..|a + b| - 1] == a + b[..|b| - 1];
      JoinedConcat(a, b[..|b| - 1]);
    }
  }

  predicate SpeltBelow(t: string, u: string) {
    t <= u && |u| > |t| && u[|t|] == '/'
  }

  lemma BelowIsSpelt(top: seq<string>, rest: seq<string>)
    requires AllNames(top) && AllNames(rest) && top != [] && rest != []
    ensures Render(top + rest) == Render(top) + Render(rest) && SpeltBelow(Render(top), Render(top + rest))
    ensures |Render(top + rest)| > |Render(top)| && Render(top + rest)[|Render(top)|..] == Render(rest)
  {
    hide Joined;
    JoinedConcat(top, rest);
    RenderShape(rest);
    assert Render(rest)[..1][0] == '/';
  }

  lemma SpeltIsBelow(top: seq<string>, under: seq<string>)
    requires AllNames(top) && AllNames(under) && top != [] && SpeltBelow(Render(top), Render(under))
    ensures top <= under
  {
    hide Split, Render;
    var t, u := Render(top), Render(under);
    var rest := u[|t| + 1..];
    assert u == t + "/" + rest;
    JoinedSplits(top);
    JoinedSplits(under);
    SplitConcat(t, rest);
    SpellingSplit(top, under, Split(rest));
  }

  /** `under` spells a place below the one `top` spells exactly when `top` and a slash start it. */
  lemma PrefixBySpelling(top: seq<string>, under: seq<string>)
    requires AllNames(top) && AllNames(under) && top != []
    ensures var t, u := Render(top), Render(under);
      && (top <= under <==> u == t || SpeltBelow(t, u))
      && (top <= under ==> Render(under[|top|..]) == if u == t then "/" else u[|t|..])
  {
    hide Render, SpeltBelow;
    var t, u := Render(top), Render(under);
    PartsOfRender(top);
    PartsOfRender(under);
    if SpeltBelow(t, u) {
      SpeltIsBelow(top, under);
    }
    if top <= under {
      var rest := under[|top|..];
      assert under == top + rest;
      if rest == [] {
        assert under == top;
        PartsOfRoot();
      } else {
        BelowIsSpelt(top, rest);
      }
    }
  }

  lemma SpellingSplit(top: seq<string>, under: seq<string>, rest: seq<string>)
    requires top != [] && rest != [] && (if under == [] then ["", ""] else [""] + under) == ([""] + top) + rest
    ensures top <= under
  {
    assert ([""] + top) + rest == [""] + (top + rest);
    if under != [] {
      assert ([""] + under)[1..] == under;
      assert ([""] + (top + rest))[1..] == top + rest;
    }
  }
}
