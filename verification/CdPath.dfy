/** Lexical path canonicalization for cd (cd_canonicalize_string, src/builtins.c). */
module CdPath {
  import opened Strings

  predicate IsSlash(c: char) { c == '/' || c == '\\' }

  predicate SlashFree(s: string) { forall i :: 0 <= i < |s| ==> !IsSlash(s[i]) }

  predicate Rooted(path: string) { path != "" && IsSlash(path[0]) }

  function FirstSlash(s: string): (k: nat)
    ensures k <= |s| && SlashFree(s[..k]) && (k < |s| ==> IsSlash(s[k]))
  {
    if s == "" || IsSlash(s[0]) then 0
    else
      var k := FirstSlash(s[1..]) + 1;
      assert forall i :: 1 <= i < k ==> s[i] == s[1..][..k - 1][i - 1];
      k
  }

  /** Splitting on either slash; there is one component more than slashes. */
  function Split(s: string): (parts: seq<string>)
    ensures parts != [] && forall i :: 0 <= i < |parts| ==> SlashFree(parts[i])
    decreases |s|
  {
    var k := FirstSlash(s);
    if k == |s| then
      assert s[..k] == s;
      [s]
    else [s[..k]] + Split(s[k + 1..])
  }

  /** One component's effect on the parts collected so far. */
  function Push(parts: seq<string>, comp: string, rooted: bool): seq<string> {
    if comp == "" || comp == "." then parts
    else if comp == ".." then
      if parts != [] && parts[|parts|-1] != ".." then parts[..|parts|-1]
      else if !rooted then parts + [".."]
      else parts
    else parts + [comp]
  }

  function Parts(comps: seq<string>, rooted: bool): seq<string> {
    if comps == [] then [] else Push(Parts(comps[..|comps|-1], rooted), comps[|comps|-1], rooted)
  }

  /** The path a list of parts stands for. */
  function Render(parts: seq<string>, rooted: bool): string {
    if rooted then "/" + Join(parts, "/") else if parts == [] then "." else Join(parts, "/")
  }

  function Canonical(path: string): string {
    Render(Parts(Split(path), Rooted(path)), Rooted(path))
  }

  // ------------------------------------------------------------- normal form

  predicate IsName(s: string) { s != "" && s != "." && SlashFree(s) }

  /** Proper names, with ".." only as a leading run of a relative path. */
  ghost predicate Normal(parts: seq<string>, rooted: bool) {
    && (forall i :: 0 <= i < |parts| ==> IsName(parts[i]))
    && (forall i :: 0 <= i < |parts| && parts[i] == ".." ==> !rooted && forall j :: 0 <= j < i ==> parts[j] == "..")
  }

  lemma PushNormal(parts: seq<string>, comp: string, rooted: bool)
    requires Normal(parts, rooted) && SlashFree(comp)
    ensures Normal(Push(parts, comp, rooted), rooted)
  {
    if comp == ".." && parts != [] && parts[|parts|-1] == ".." {
      assert forall j :: 0 <= j < |parts| ==> parts[j] == "..";
    }
  }

  lemma {:induction false} PartsNormal(comps: seq<string>, rooted: bool)
    requires forall i :: 0 <= i < |comps| ==> SlashFree(comps[i])
    ensures Normal(Parts(comps, rooted), rooted)
  {
    if comps == [] {
    } else {
      var rest := comps[..|comps|-1];
      PartsNormal(rest, rooted);
      PushNormal(Parts(rest, rooted), comps[|comps|-1], rooted);
    }
  }

  /** Every result is the rendering of parts in normal form. */
  lemma ResultIsNormal(path: string)
    ensures exists parts :: Normal(parts, Rooted(path)) && Canonical(path) == Render(parts, Rooted(path))
  {
    PartsNormal(Split(path), Rooted(path));
    assert Canonical(path) == Render(Parts(Split(path), Rooted(path)), Rooted(path));
  }

  // ------------------------------------------------------------- idempotence

  lemma {:induction false} NormalIsFixed(parts: seq<string>, rooted: bool)
    requires Normal(parts, rooted)
    ensures Parts(parts, rooted) == parts
  {
    if parts == [] {
    } else {
      var rest, last := parts[..|parts|-1], parts[|parts|-1];
      NormalIsFixed(rest, rooted);
      assert IsName(last);
      assert last == ".." && rest != [] ==> rest[|rest|-1] == "..";
      assert rest + [last] == parts;
    }
  }

  lemma {:induction false} FirstSlashAt(a: string, rest: string)
    requires SlashFree(a) && (rest == "" || IsSlash(rest[0]))
    ensures FirstSlash(a + rest) == |a|
  {
    if a != "" {
      assert (a + rest)[1..] == a[1..] + rest;
      assert !IsSlash(a[0]);
      FirstSlashAt(a[1..], rest);
    } else {
      assert a + rest == rest;
    }
  }

  lemma {:induction false} SplitJoin(parts: seq<string>)
    requires parts != [] && forall i :: 0 <= i < |parts| ==> SlashFree(parts[i])
    ensures Split(Join(parts, "/")) == parts
  {
    if |parts| == 1 {
      FirstSlashAt(parts[0], "");
      assert parts[0] + "" == parts[0];
    } else {
      var tail := "/" + Join(parts[1..], "/");
      FirstSlashAt(parts[0], tail);
      var s := parts[0] + tail;
      assert s[..|parts[0]|] == parts[0];
      assert s[|parts[0]| + 1..] == tail[1..] == Join(parts[1..], "/");
      SplitJoin(parts[1..]);
    }
  }

  /** An empty component changes nothing. */
  lemma {:induction false} LeadingEmpty(comps: seq<string>, rooted: bool)
    ensures Parts([""] + comps, rooted) == Parts(comps, rooted)
  {
    var all := [""] + comps;
    if comps == [] {
      assert all[..0] == [];
    } else {
      assert all[..|all|-1] == [""] + comps[..|comps|-1];
      LeadingEmpty(comps[..|comps|-1], rooted);
    }
  }

  lemma RenderSplits(parts: seq<string>, rooted: bool)
    requires Normal(parts, rooted)
    ensures Rooted(Render(parts, rooted)) == rooted
    ensures Parts(Split(Render(parts, rooted)), rooted) == parts
  {
    NormalIsFixed(parts, rooted);
    var s := Render(parts, rooted);
    if rooted {
      assert FirstSlash(s) == 0;
      assert s[..0] == "" && s[1..] == Join(parts, "/");
      if parts == [] {
        assert Split("") == [""];
        LeadingEmpty([""], true);
        LeadingEmpty([], true);
        assert [""] + [] == [""];
      } else {
        SplitJoin(parts);
        LeadingEmpty(parts, true);
      }
    } else if parts == [] {
      FirstSlashAt(".", "");
      assert "." + "" == ".";
      assert Split(".") == ["."];
      assert ["."][..0] == [];
    } else {
      SplitJoin(parts);
      assert IsName(parts[0]);
    }
  }

  lemma Idempotent(path: string)
    ensures Canonical(Canonical(path)) == Canonical(path)
  {
    hide Split, Parts, Render, Normal;
    var rooted := Rooted(path);
    PartsNormal(Split(path), rooted);
    RenderSplits(Parts(Split(path), rooted), rooted);
  }

  // ------------------------------------------------------------ same meaning

  /** Following one component from a directory given by its names from the
      root; ".." at the root stays there. */
  function Follow(dir: seq<string>, comp: string): seq<string> {
    if comp == "" || comp == "." then dir
    else if comp == ".." then (if dir == [] then [] else dir[..|dir|-1])
    else dir + [comp]
  }

  function Walk(dir: seq<string>, comps: seq<string>): seq<string> {
    if comps == [] then dir else Follow(Walk(dir, comps[..|comps|-1]), comps[|comps|-1])
  }

  /** The directory a path names, seen from dir. */
  function Resolve(dir: seq<string>, path: string): seq<string> {
    Walk(if Rooted(path) then [] else dir, Split(path))
  }

  lemma PushFollows(dir: seq<string>, parts: seq<string>, comp: string, rooted: bool)
    requires Normal(parts, rooted) && (rooted ==> dir == [])
    ensures Walk(dir, Push(parts, comp, rooted)) == Follow(Walk(dir, parts), comp)
  {
    assert (parts + [comp])[..|parts|] == parts;
    if comp == ".." {
      if parts != [] && parts[|parts|-1] != ".." {
        assert IsName(parts[|parts|-1]);
      } else if rooted {
        assert parts == [];
      }
    }
  }

  lemma {:induction false} PartsWalk(dir: seq<string>, comps: seq<string>, rooted: bool)
    requires forall i :: 0 <= i < |comps| ==> SlashFree(comps[i])
    requires rooted ==> dir == []
    ensures Walk(dir, Parts(comps, rooted)) == Walk(dir, comps)
  {
    if comps == [] {
    } else {
      var rest := comps[..|comps|-1];
      PartsWalk(dir, rest, rooted);
      PartsNormal(rest, rooted);
      PushFollows(dir, Parts(rest, rooted), comps[|comps|-1], rooted);
    }
  }

  /** From every directory, the result names the directory the path names. */
  lemma SameDirectory(dir: seq<string>, path: string)
    ensures Resolve(dir, Canonical(path)) == Resolve(dir, path)
  {
    hide Split, Parts, Render, Normal, Walk;
    var rooted := Rooted(path);
    var start := if rooted then [] else dir;
    var parts := Parts(Split(path), rooted);
    PartsNormal(Split(path), rooted);
    RenderSplits(parts, rooted);
    PartsWalk(start, Split(path), rooted);
    PartsWalk(start, Split(Canonical(path)), rooted);
  }

  /** A result is never empty, starts with "/" exactly when the path starts with
      either slash, and holds no backslash. */
  lemma ResultShape(path: string)
    ensures Canonical(path) != "" && '\\' !in Canonical(path)
    ensures Canonical(path)[0] == '/' <==> path != "" && (path[0] == '/' || path[0] == '\\')
  {
    var rooted := Rooted(path);
    var parts := Parts(Split(path), rooted);
    PartsNormal(Split(path), rooted);
    JoinShape(parts);
  }

  lemma {:induction false} JoinShape(parts: seq<string>)
    requires forall i :: 0 <= i < |parts| ==> IsName(parts[i])
    ensures '\\' !in Join(parts, "/")
    ensures parts != [] ==> Join(parts, "/") != "" && Join(parts, "/")[0] != '/'
  {
    if parts == [] {
    } else {
      JoinShape(parts[1..]);
      assert IsName(parts[0]) && parts[0][0] in parts[0];
    }
  }

  lemma DotsAndRoots()
    ensures Canonical("") == "." && Canonical("/") == "/" && Canonical("\\") == "/"
  {
    SplitOne("");
    EitherSlashSeparates("", "");
    assert [""][..0] == [] && ["", ""][..1] == [""];
    assert "" + "/" + "" == "/" && "" + "\\" + "" == "\\";
  }

  /** A path without "/" and "\" is one component, and its own canonical form. */
  lemma NamesAreCanonical(path: string)
    requires path != "" && '/' !in path && '\\' !in path
    ensures Canonical(path) == path
  {
    assert SlashFree(path);
    SplitOne(path);
    assert path[0] in path && !Rooted(path);
    assert [path][..0] == [];
    assert Parts([path], false) == Push(Parts([], false), path, false);
    assert Join([path], "/") == path;
  }

  lemma SplitOne(path: string)
    requires SlashFree(path)
    ensures Split(path) == [path]
  {
    var k := FirstSlash(path);
    assert path[..|path|] == path;
  }

  /** Either slash separates. */
  lemma EitherSlashSeparates(a: string, b: string)
    requires '/' !in a && '\\' !in a && '/' !in b && '\\' !in b
    ensures Split(a + "/" + b) == [a, b] && Split(a + "\\" + b) == [a, b]
  {
    forall slash | slash == "/" || slash == "\\" ensures Split(a + slash + b) == [a, b] {
      FirstSlashAt(a, slash + b);
      SplitOne(b);
      assert a + (slash + b) == a + slash + b;
      assert (a + slash + b)[..|a|] == a && (a + slash + b)[|a| + 1..] == b;
    }
  }

  // -------------------------------------------------------------- the C code

  method CdCanonicalize(path: string) returns (out: string)
    ensures out == Canonical(path)
  {
    if path == "" {
      assert Split("") == [""];
      assert [""][..0] == [];
      return ".";
    }
    var rooted := path[0] == '/' || path[0] == '\\';
    var raw := Split(path);
    var parts: seq<string> := [];
    for i := 0 to |raw|
      invariant parts == Parts(raw[..i], rooted)
    {
      assert raw[..i + 1][..i] == raw[..i];
      var comp := raw[i];
      if comp == "" || comp == "." {
      } else if comp == ".." {
        var size := |parts|;
        if size > 0 && parts[size - 1] != ".." {
          parts := parts[..size - 1];
        } else if !rooted {
          parts := parts + [".."];
        }
      } else {
        parts := parts + [comp];
      }
    }
    assert raw[..|raw|] == raw;
    JoinEmpty(parts);
    PartsNormal(raw, rooted);
    out := Join(parts, "/");
    if rooted {
      out := "/" + out;
    }
    if out == "" {
      out := if rooted then "/" else ".";
    }
  }

  lemma JoinEmpty(parts: seq<string>)
    ensures (forall i :: 0 <= i < |parts| ==> parts[i] != "") ==> (Join(parts, "/") == "" <==> parts == [])
  {
  }
}
