/** Splitting paths at slashes. */
module Paths {

  predicate NoSlash(s: string) {
    forall i :: 0 <= i < |s| ==> s[i] != '/'
  }

  /** The pieces between slashes; there is always at least one. */
  function Split(s: string): (r: seq<string>)
    ensures |r| > 0
  {
    if s == "" then [""]
    else if s[0] == '/' then [""] + Split(s[1..])
    else [[s[0]] + Split(s[1..])[0]] + Split(s[1..])[1..]
  }

  function NonEmpty(parts: seq<string>): seq<string> {
    if parts == [] then [] else (if parts[0] == "" then [] else [parts[0]]) + NonEmpty(parts[1..])
  }

  /** The components of a path: the pieces that are not empty. */
  function Components(path: string): seq<string> {
    NonEmpty(Split(path))
  }

  lemma {:induction false} SplitPieces(s: string)
    ensures forall i :: 0 <= i < |Split(s)| ==> NoSlash(Split(s)[i])
  {
    if s != "" {
      SplitPieces(s[1..]);
    }
  }

  lemma {:induction false} SplitNoSlash(s: string)
    requires NoSlash(s)
    ensures Split(s) == [s]
  {
    if s != "" {
      SplitNoSlash(s[1..]);
      assert s == [s[0]] + s[1..];
    }
  }

  lemma SplitStep(s: string)
    requires s != ""
    ensures var t := Split(s[1..]); Split(s) == if s[0] == '/' then [""] + t else [[s[0]] + t[0]] + t[1..]
  {
  }

  /** A slash separates the pieces before it from those after it. */
  lemma {:induction false} SplitConcat(a: string, b: string)
    ensures Split(a + "/" + b) == Split(a) + Split(b)
  {
    var s := a + "/" + b;
    SplitStep(s);
    if a == "" {
      assert s[1..] == b;
    } else {
      SplitStep(a);
      hide Split;
      SplitConcat(a[1..], b);
      assert s[1..] == a[1..] + "/" + b && s[0] == a[0];
    }
  }

  lemma NonEmptyStep(parts: seq<string>)
    requires parts != []
    ensures NonEmpty(parts) == (if parts[0] == "" then [] else [parts[0]]) + NonEmpty(parts[1..])
  {
  }

  lemma {:induction false} NonEmptyConcat(a: seq<string>, b: seq<string>)
    ensures NonEmpty(a + b) == NonEmpty(a) + NonEmpty(b)
  {
    if a == [] {
      assert a + b == b;
    } else {
      NonEmptyStep(a);
      NonEmptyStep(a + b);
      hide NonEmpty;
      NonEmptyConcat(a[1..], b);
      assert (a + b)[0] == a[0] && (a + b)[1..] == a[1..] + b;
    }
  }

  lemma ComponentsConcat(a: string, b: string)
    ensures Components(a + "/" + b) == Components(a) + Components(b)
  {
    SplitConcat(a, b);
    NonEmptyConcat(Split(a), Split(b));
  }

  lemma ComponentsOfName(name: string)
    requires NoSlash(name)
    ensures Components(name) == if name == "" then [] else [name]
  {
    SplitNoSlash(name);
    var none: seq<string> := [name][1..];
    assert none == [] && NonEmpty(none) == [];
    assert NonEmpty([name]) == (if name == "" then [] else [name]) + NonEmpty(none);
  }

  /** Slashes at either end of a path make no component. */
  lemma ComponentsTrim(s: string)
    ensures Components("/" + s) == Components(s) && Components(s + "/") == Components(s)
  {
    hide Components, Split, NonEmpty;
    ComponentsConcat("", s);
    assert "" + "/" + s == "/" + s;
    ComponentsOfName("");
    ComponentsConcat(s, "");
    assert s + "/" + "" == s + "/";
  }

  function TrimStart(s: string): string {
    if s != "" && s[0] == '/' then TrimStart(s[1..]) else s
  }

  function TrimEnd(s: string): string {
    if s != "" && s[|s| - 1] == '/' then TrimEnd(s[..|s| - 1]) else s
  }

  function Trim(s: string): string { TrimEnd(TrimStart(s)) }

  lemma {:induction false} TrimStartComponents(s: string)
    ensures Components(TrimStart(s)) == Components(s) && (TrimStart(s) != "" ==> TrimStart(s)[0] != '/')
  {
    if s != "" && s[0] == '/' {
      TrimStartComponents(s[1..]);
      assert s == "/" + s[1..];
      ComponentsTrim(s[1..]);
    }
  }

  lemma {:induction false} TrimEndComponents(s: string)
    ensures Components(TrimEnd(s)) == Components(s)
    ensures TrimEnd(s) <= s && (TrimEnd(s) != "" ==> TrimEnd(s)[|TrimEnd(s)| - 1] != '/')
  {
    if s != "" && s[|s| - 1] == '/' {
      var front := s[..|s| - 1];
      TrimEndComponents(front);
      assert s == front + "/";
      ComponentsTrim(front);
    }
  }

  /** Trimming keeps the components; what is left neither starts nor ends with a slash. */
  lemma TrimComponents(s: string)
    ensures Components(Trim(s)) == Components(s)
    ensures Trim(s) != "" ==> Trim(s)[0] != '/' && Trim(s)[|Trim(s)| - 1] != '/'
  {
    TrimStartComponents(s);
    TrimEndComponents(TrimStart(s));
  }

  /** The position of the last slash, -1 when there is none. */
  function LastSlash(s: string): (p: int)
    ensures -1 <= p < |s|
    ensures p >= 0 ==> s[p] == '/'
    ensures forall i :: p < i < |s| ==> s[i] != '/'
  {
    if s == "" then -1 else if s[|s| - 1] == '/' then |s| - 1 else LastSlash(s[..|s| - 1])
  }

  /** Cutting a trimmed path at its last slash gives its last component and the path of those before. */
  lemma LastComponent(p: string)
    requires p != "" && p[0] != '/' && p[|p| - 1] != '/'
    ensures var k := LastSlash(p);
      && Components(p) == (if k < 0 then [] else Components(p[..k])) + [p[k + 1..]]
      && (k >= 0 ==> Components(p[..k]) != []) && p[k + 1..] != ""
  {
    hide Components, Split, NonEmpty, LastSlash;
    var k := LastSlash(p);
    if k < 0 {
      assert p[0..] == p;
      ComponentsOfName(p);
    } else {
      CutAt(p, k);
    }
  }

  lemma CutAt(p: string, k: nat)
    requires k < |p| && p[k] == '/' && p[0] != '/' && p[|p| - 1] != '/' && NoSlash(p[k + 1..])
    ensures p[k + 1..] != "" && Components(p) == Components(p[..k]) + [p[k + 1..]] && Components(p[..k]) != []
  {
    hide Components, Split, NonEmpty;
    var front, name := p[..k], p[k + 1..];
    assert p == front + "/" + name;
    ComponentsOfName(name);
    ComponentsConcat(front, name);
    FirstPiece(front);
  }

  lemma FirstPiece(s: string)
    requires s != "" && s[0] != '/'
    ensures Components(s) != []
  {
    assert Split(s)[0][0] == s[0];
  }
}
