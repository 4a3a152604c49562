/** File paths on POSIX: parent directories and extensions. */
module FilePaths {
  import opened Prelude

  const CURRENT := "."
  const PARENT := ".."

  predicate IsSeparator(c: char) {
    c == '/'
  }

  // ---------------------------------------------------------------- paths as strings

  predicate OnlySeparators(path: string) {
    forall c :: c in path ==> IsSeparator(c)
  }

  /** The path without the separators at its end. */
  function Trim(path: string): (r: string)
    ensures r <= path && OnlySeparators(path[|r|..])
    ensures r != [] ==> !IsSeparator(r[|r| - 1])
  {
    if path != [] && IsSeparator(path[|path| - 1]) then Trim(path[..|path| - 1]) else path
  }

  /** Two separators alone mean another root than one; more of them mean one. */
  function Stripped(path: string): string {
    if OnlySeparators(path) then (if |path| >= 3 then path[..1] else path) else Trim(path)
  }

  /** The last place of a character, or -1. */
  function LastOf(s: string, c: char): (r: int)
    ensures -1 <= r < |s| && (r >= 0 ==> s[r] == c)
  {
    if s == [] then -1
    else if s[|s| - 1] == c then |s| - 1
    else LastOf(s[..|s| - 1], c)
  }

  /** The path cut off at its last separator. */
  function Cut(s: string): string {
    var last := LastOf(s, '/');
    if last == -1 then []
    else if last == 0 then s[..1]
    else if last == 1 && IsSeparator(s[0]) then s[..2]
    else s[..last]
  }

  function Parent(path: string): string {
    var r := Stripped(Cut(Stripped(path)));
    if r == [] then CURRENT else r
  }

  function Base(path: string): string {
    var s := Stripped(path);
    var last := LastOf(s, '/');
    if last != -1 && last < |s| - 1 then s[last + 1..] else s
  }

  function ExtensionOf(path: string): string {
    var base := Base(path);
    if base == CURRENT || base == PARENT then []
    else
      var dot := LastOf(base, '.');
      if dot == -1 then [] else base[dot..]
  }

  function WithoutExtension(path: string): string {
    if ExtensionOf(path) == [] then path
    else
      var dot := LastOf(path, '.');
      if dot == -1 then path else path[..dot]
  }

  // ---------------------------------------------------------------- the object

  class FilePath {
    var path: string

    constructor (path: string)
      ensures this.path == path
    {
      this.path := path;
    }

    method StripTrailingSeparatorsInternal()
      modifies this
      ensures path == Stripped(old(path))
    {
      var start := 1;
      var lastStripped := -1;
      var pos := |path|;
      ghost var given := path;
      StrippingStarts(path);
      hide Stripping, Stripped, OnlySeparators, IsSeparator;
      while pos > start && IsSeparator(path[pos - 1])
        invariant 0 <= pos <= |path| && Stripping(given, path, pos, lastStripped)
        decreases pos
      {
        StrippingGoesOn(given, path, pos, lastStripped);
        if pos != start + 1 || lastStripped == start + 2 || !IsSeparator(path[start - 1]) {
          path := path[..pos - 1];
          lastStripped := pos;
        }
        pos := pos - 1;
      }
      StrippedIs(given, path, pos, lastStripped);
    }

    method DirName() returns (r: FilePath)
      ensures fresh(r) && r.path == Parent(path)
    {
      r := new FilePath(path);
      r.StripTrailingSeparatorsInternal();
      var last := LastOf(r.path, '/');
      if last == -1 {
        r.path := [];
      } else if last == 0 {
        r.path := r.path[..1];
      } else if last == 1 && IsSeparator(r.path[0]) {
        r.path := r.path[..2];
      } else {
        r.path := r.path[..last];
      }
      r.StripTrailingSeparatorsInternal();
      if r.path == [] {
        r.path := CURRENT;
      }
    }

    method BaseName() returns (r: FilePath)
      ensures fresh(r) && r.path == Base(path)
    {
      r := new FilePath(path);
      r.StripTrailingSeparatorsInternal();
      var last := LastOf(r.path, '/');
      if last != -1 && last < |r.path| - 1 {
        r.path := r.path[last + 1..];
      }
    }

    method Extension() returns (r: string)
      ensures r == ExtensionOf(path)
    {
      var name := BaseName();
      var base := name.path;
      if base == CURRENT || base == PARENT {
        return [];
      }
      var dot := LastOf(base, '.');
      if dot == -1 {
        return [];
      }
      return base[dot..];
    }

    method RemoveExtension() returns (r: FilePath)
      ensures fresh(r) && r.path == WithoutExtension(path)
    {
      var extension := Extension();
      if extension == [] {
        r := new FilePath(path);
        return;
      }
      var dot := LastOf(path, '.');
      r := new FilePath(if dot == -1 then path else path[..dot]);
    }
  }

  // ---------------------------------------------------------------- stripping

  lemma {:induction false} TrimIs(given: string, r: string)
    requires r <= given && OnlySeparators(given[|r|..]) && (r != [] ==> !IsSeparator(r[|r| - 1]))
    ensures Trim(given) == r
    decreases |given|
  {
    if |given| > |r| {
      var n := |given| - 1;
      assert given[n] in given[|r|..];
      assert given[..n][|r|..] <= given[|r|..];
      assert forall c :: c in given[..n][|r|..] ==> c in given[|r|..];
      TrimIs(given[..n], r);
    } else {
      assert r == given;
    }
  }

  /** What is known while separators are stripped, when those from pos on were looked at. */
  ghost predicate Stripping(given: string, path: string, pos: nat, lastStripped: int) {
    && pos <= |path| && path <= given && OnlySeparators(given[pos..]) && lastStripped <= |given|
    && (pos == |path| || (pos == 1 && |path| == 2 && |given| == 2 && OnlySeparators(given)))
    && ((lastStripped == -1 && pos == |given|) || lastStripped == pos + 1 || |path| != pos)
    && (pos == 0 ==> |given| == 0) && (|given| == 2 && |path| == 1 ==> !IsSeparator(given[0]))
  }

  lemma StrippingStarts(path: string)
    ensures Stripping(path, path, |path|, -1)
  {
  }

  lemma StrippingGoesOn(given: string, path: string, pos: nat, lastStripped: int)
    requires Stripping(given, path, pos, lastStripped) && pos > 1 && IsSeparator(path[pos - 1])
    ensures if pos != 2 || lastStripped == 3 || !IsSeparator(path[0]) then Stripping(given, path[..pos - 1], pos - 1, pos)
            else Stripping(given, path, pos - 1, lastStripped)
  {
    assert given[pos - 1] == path[pos - 1] && given[0] == path[0];
    assert given[pos - 1..] == [given[pos - 1]] + given[pos..];
    if pos == 2 && lastStripped != 3 && IsSeparator(path[0]) {
      assert given == [given[0], given[1]];
    }
  }

  lemma StrippedIs(given: string, path: string, pos: nat, lastStripped: int)
    requires Stripping(given, path, pos, lastStripped) && (pos <= 1 || !IsSeparator(path[pos - 1]))
    ensures path == Stripped(given)
  {
    assert forall i :: 0 <= i < |given| ==> given[i] in given;
    if !OnlySeparators(given) {
      assert given == given[..pos] + given[pos..];
      assert pos == 1 ==> given[..1] == [given[0]];
      TrimIs(given, path);
    }
  }

  // ---------------------------------------------------------------- parents

  predicate IsRoot(path: string) {
    path == CURRENT || path == "/" || path == "//"
  }

  lemma StrippedShape(path: string)
    ensures Stripped(path) <= path
    ensures OnlySeparators(Stripped(path)) ==> |Stripped(path)| <= 2
    ensures !OnlySeparators(Stripped(path)) ==> !IsSeparator(Stripped(path)[|Stripped(path)| - 1])
    ensures !OnlySeparators(path) ==> !OnlySeparators(Stripped(path))
  {
    if !OnlySeparators(path) {
      var r := Trim(path);
      assert path == r + path[|r|..];
      assert r != [] && r[|r| - 1] in r;
    }
  }

  /** Three paths are their own parents. */
  lemma RootsAreFixed(path: string)
    requires IsRoot(path)
    ensures Parent(path) == path
  {
    if path == "/" {
      assert Stripped(path) == path && Cut(path) == path;
    } else if path == "//" {
      assert Stripped(path) == path && Cut(path) == path;
    } else {
      assert path[|path| - 1] == '.' && !IsSeparator('.');
      assert !OnlySeparators(path) by { assert '.' in path; }
      assert Trim(path) == path;
      assert LastOf([], '/') == -1;
      assert path[..0] == [];
      assert LastOf(path, '/') == -1;
      assert Cut(path) == [];
    }
  }

  /** Every other path gets a shorter parent or one of the three. */
  lemma ParentIsShorter(path: string)
    requires !IsRoot(path)
    ensures IsRoot(Parent(path)) || |Parent(path)| < |path|
  {
    var s := Stripped(path);
    StrippedShape(path);
    var cut := Cut(s);
    StrippedShape(cut);
    var last := LastOf(s, '/');
    if last == 0 {
      assert s[..1] == "/";
      assert Stripped("/") == "/";
    } else if last == 1 && IsSeparator(s[0]) {
      assert s[..2] == "//";
      assert Stripped("//") == "//";
    } else if last > 0 {
      assert |cut| < |s|;
    }
  }

  /** The sole paths that are their own parents. */
  lemma OnlyRootsAreFixed(path: string)
    ensures Parent(path) == path <==> IsRoot(path)
  {
    if IsRoot(path) {
      RootsAreFixed(path);
    } else {
      ParentIsShorter(path);
    }
  }

  function Rank(path: string): nat {
    if IsRoot(path) then 0 else |path| + 1
  }

  /** The paths from one up to its root. */
  function Ancestors(path: string): (r: seq<string>)
    ensures r != [] && r[0] == path && IsRoot(r[|r| - 1])
    ensures forall i :: 0 < i < |r| ==> r[i] == Parent(r[i - 1])
    decreases Rank(path)
  {
    if IsRoot(path) then [path]
    else
      ParentIsShorter(path);
      [path] + Ancestors(Parent(path))
  }

  /** The loop of CreateDirectory over all parent directories ends at a root, from every path. */
  method SubPaths(full: FilePath) returns (subpaths: seq<string>)
    ensures subpaths == Ancestors(full.path)
  {
    hide Parent, IsRoot;
    var lastPath := full.path;
    subpaths := [full.path];
    ghost var before: seq<string> := [];
    NoneBefore(full.path);
    var dir := full.DirName();
    while dir.path != lastPath
      invariant fresh(dir) && dir.path == Parent(lastPath) && subpaths == before + [lastPath]
      invariant before + Ancestors(lastPath) == Ancestors(full.path)
      decreases Rank(lastPath)
    {
      OnlyRootsAreFixed(lastPath);
      RankFalls(lastPath);
      AncestorsStep(before, lastPath);
      before := subpaths;
      subpaths := subpaths + [dir.path];
      lastPath := dir.path;
      dir := dir.DirName();
    }
    OnlyRootsAreFixed(lastPath);
  }

  lemma NoneBefore(path: string)
    ensures [] + [path] == [path] && [] + Ancestors(path) == Ancestors(path)
  {
  }

  lemma RankFalls(path: string)
    requires !IsRoot(path)
    ensures Rank(Parent(path)) < Rank(path)
  {
    ParentIsShorter(path);
  }

  lemma AncestorsStep(before: seq<string>, path: string)
    requires !IsRoot(path)
    ensures before + Ancestors(path) == (before + [path]) + Ancestors(Parent(path))
  {
    Associates(before, [path], Ancestors(Parent(path)));
  }

  // ---------------------------------------------------------------- what the parts are

  /** Stripping takes separators from the end and nothing else; of separators alone one is left, or both of two. */
  lemma StrippedMeans(path: string)
    ensures Stripped(path) <= path && OnlySeparators(path[|Stripped(path)|..])
    ensures OnlySeparators(path) ==> Stripped(path) == if |path| <= 2 then path else "/"
    ensures !OnlySeparators(path) ==> Stripped(path) != "" && !IsSeparator(Stripped(path)[|Stripped(path)| - 1])
  {
    StrippedShape(path);
    if OnlySeparators(path) {
      assert forall i :: 0 <= i < |path| ==> path[i] in path;
      if |path| >= 3 {
        assert path[..1] == "/";
      }
    }
  }

  lemma {:induction false} LastMeans(s: string, c: char)
    ensures var i := LastOf(s, c); c !in s[i + 1..] && (i == -1 <==> c !in s)
  {
    if s != [] && s[|s| - 1] != c {
      var front := s[..|s| - 1];
      LastMeans(front, c);
      var i := LastOf(front, c);
      assert s == front + [s[|s| - 1]];
      assert s[i + 1..] == front[i + 1..] + [s[|s| - 1]];
    } else if s != [] {
      assert s[|s|..] == [];
      assert s[|s| - 1] in s;
    }
  }

  /** What stands before the last component. */
  function Prefix(path: string): string {
    var s := Stripped(path);
    if |Base(path)| <= |s| then s[..|s| - |Base(path)|] else ""
  }

  /**
   The last component holds no separator and is not empty, and the path is what stands before it, the component and
   separators; only separators alone, and the empty path, are their own last component.
   */
  lemma BaseIsLastComponent(path: string)
    ensures Stripped(path) == Prefix(path) + Base(path)
    ensures OnlySeparators(path) ==> Base(path) == Stripped(path)
    ensures !OnlySeparators(path) ==>
              && Base(path) != "" && '/' !in Base(path)
              && (Prefix(path) == "" || Prefix(path)[|Prefix(path)| - 1] == '/')
  {
    var s := Stripped(path);
    StrippedMeans(path);
    LastMeans(s, '/');
    hide Stripped, LastOf;
    if OnlySeparators(path) {
      assert OnlySeparators(s);
      AllSeparators(s);
    }
  }

  lemma AllSeparators(s: string)
    requires OnlySeparators(s)
    ensures LastOf(s, '/') == |s| - 1
  {
    assert s != "" ==> s[|s| - 1] in s;
  }

  /**
   The parent is what stands before the last component without the separators at its end; of separators alone one is
   left, or two when there are two or three. Where nothing stands before it the parent is the current directory.
   */
  lemma ParentMeans(path: string)
    requires !OnlySeparators(path)
    ensures var p := Prefix(path);
            && (p == "" ==> Parent(path) == ".")
            && (p != "" && OnlySeparators(p) ==> Parent(path) == if |p| == 2 || |p| == 3 then "//" else "/")
            && (!OnlySeparators(p) ==> Parent(path) == Trim(p))
  {
    var s, p := Stripped(path), Prefix(path);
    BaseIsLastComponent(path);
    PrefixEnds(path);
    hide Stripped, Prefix, Base, OnlySeparators, Trim;
    var last := LastOf(s, '/');
    hide LastOf;
    if p == "" {
      assert Cut(s) == "";
      StrippedMeans("");
    } else if OnlySeparators(p) {
      SeparatorsBefore(s, p, last);
    } else {
      NameBefore(s, p, last);
    }
  }

  lemma PrefixEnds(path: string)
    requires !OnlySeparators(path)
    ensures var last := LastOf(Stripped(path), '/');
            Prefix(path) == Stripped(path)[..last + 1] && (last >= 0 ==> Stripped(path)[last] == '/')
    ensures OnlySeparators("")
  {
    StrippedMeans(path);
    LastMeans(Stripped(path), '/');
  }

  lemma NameBefore(s: string, p: string, last: nat)
    requires last < |s| && p == s[..last + 1] && !OnlySeparators(p) && s[last] == '/' && LastOf(s, '/') == last
    ensures Stripped(Cut(s)) == Trim(p) && Trim(p) != ""
  {
    SomeOther(p);
    SomeOtherStays(p);
    TrimOnce(p);
    assert p[..|p| - 1] == s[..last] && p[0] == s[0];
    hide LastOf, Trim;
    StrippedMeans(s[..last]);
  }

  lemma SeparatorsBefore(s: string, p: string, last: nat)
    requires last < |s| && p == s[..last + 1] && OnlySeparators(p) && LastOf(s, '/') == last
    ensures Stripped(Cut(s)) == if |p| == 2 || |p| == 3 then "//" else "/"
  {
    assert forall i :: 0 <= i <= last ==> p[i] in p && s[i] == p[i];
    hide LastOf;
    var cut := Cut(s);
    assert OnlySeparators(cut);
    StrippedMeans(cut);
    if |cut| == 1 {
      assert cut == "/";
    } else if |cut| == 2 {
      assert cut == "//";
    }
  }

  lemma TrimOnce(p: string)
    requires p != "" && p[|p| - 1] == '/'
    ensures Trim(p) == Trim(p[..|p| - 1])
  {
  }

  lemma SomeOther(p: string)
    requires !OnlySeparators(p) && |p| >= 1 && p[|p| - 1] == '/'
    ensures |p| >= 2 && (|p| == 2 ==> !IsSeparator(p[0]))
  {
  }

  lemma SomeOtherStays(p: string)
    requires !OnlySeparators(p) && |p| >= 1 && p[|p| - 1] == '/'
    ensures !OnlySeparators(p[..|p| - 1]) && Stripped(p[..|p| - 1]) == Trim(p[..|p| - 1])
  {
    var c :| c in p && !IsSeparator(c);
    var i :| 0 <= i < |p| && p[i] == c;
    assert p[..|p| - 1][i] == c;
  }

  /** The extension is the end of the last component from its last dot; the two special names have none. */
  lemma ExtensionMeans(path: string)
    ensures var base, e := Base(path), ExtensionOf(path);
            && (e == "" <==> base == "." || base == ".." || '.' !in base)
            && (e != "" ==> |e| <= |base| && base[|base| - |e|..] == e && e[0] == '.' && '.' !in e[1..])
  {
    hide Base;
    var base := Base(path);
    LastMeans(base, '.');
    var dot := LastOf(base, '.');
    if dot >= 0 {
      assert base[dot..][1..] == base[dot + 1..];
    }
  }

  // ---------------------------------------------------------------- extensions

  lemma {:induction false} LastOfSuffix(a: string, b: string, c: char)
    requires LastOf(b, c) >= 0
    ensures LastOf(a + b, c) == |a| + LastOf(b, c)
    decreases |b|
  {
    var s := a + b;
    assert s[|s| - 1] == b[|b| - 1];
    if b[|b| - 1] != c {
      assert s[..|s| - 1] == a + b[..|b| - 1];
      LastOfSuffix(a, b[..|b| - 1], c);
    }
  }

  lemma {:induction false} LastOfPrefix(a: string, b: string, c: char)
    requires c !in b
    ensures LastOf(a + b, c) == LastOf(a, c)
    decreases |b|
  {
    var s := a + b;
    if b == [] {
      assert s == a;
    } else {
      assert b[|b| - 1] in b;
      assert s[..|s| - 1] == a + b[..|b| - 1];
      assert forall x :: x in b[..|b| - 1] ==> x in b;
      LastOfPrefix(a, b[..|b| - 1], c);
    }
  }

  lemma BaseIsSuffix(path: string)
    ensures |Base(path)| <= |Stripped(path)| && Stripped(path)[|Stripped(path)| - |Base(path)|..] == Base(path)
  {
  }

  lemma ExtensionIs(path: string)
    requires ExtensionOf(path) != []
    ensures LastOf(Base(path), '.') >= 0 && ExtensionOf(path) == Base(path)[LastOf(Base(path), '.')..]
    ensures LastOf(path, '.') >= 0 ==> WithoutExtension(path) == path[..LastOf(path, '.')]
  {
    hide Base;
  }

  lemma DotInSuffix(s: string, n: nat, base: string)
    requires n <= |s| && s[n..] == base && LastOf(base, '.') >= 0
    ensures LastOf(s, '.') == n + LastOf(base, '.')
  {
    assert s == s[..n] + base;
    LastOfSuffix(s[..n], base, '.');
  }

  lemma DotInPath(path: string)
    ensures |Stripped(path)| <= |path| && path[..|Stripped(path)|] == Stripped(path)
    ensures LastOf(path, '.') == LastOf(Stripped(path), '.')
  {
    StrippedShape(path);
    HasNoDot(path);
    hide Stripped, LastOf;
    var s := Stripped(path);
    assert path == s + path[|s|..];
    LastOfPrefix(s, path[|s|..], '.');
  }

  /** Removing an extension and putting it back gives the path, but for separators at its end. */
  lemma ExtensionSplits(path: string)
    requires ExtensionOf(path) != []
    ensures WithoutExtension(path) + ExtensionOf(path) == Stripped(path)
  {
    ExtensionIs(path);
    BaseIsSuffix(path);
    DotInPath(path);
    hide *;
    var s, base := Stripped(path), Base(path);
    var n := |s| - |base|;
    DotInSuffix(s, n, base);
    var dot := LastOf(base, '.');
    SplitAt(s, path, base, n, dot);
    assert WithoutExtension(path) == path[..n + dot];
    assert ExtensionOf(path) == base[dot..];
  }

  lemma SplitAt(s: string, path: string, base: string, n: nat, dot: nat)
    requires n <= |s| && s[n..] == base && dot < |base| && |s| <= |path| && path[..|s|] == s
    ensures path[..n + dot] + base[dot..] == s
  {
    assert path[..n + dot] == s[..n + dot];
    assert base[dot..] == s[n + dot..];
  }

  lemma HasNoDot(path: string)
    ensures '.' !in path[|Stripped(path)|..]
  {
    if OnlySeparators(path) {
      assert forall c :: c in path[|Stripped(path)|..] ==> c in path;
    }
  }

  /** Without an extension nothing is removed. */
  lemma NothingRemoved(path: string)
    ensures WithoutExtension(path) == path <==> ExtensionOf(path) == []
  {
    if ExtensionOf(path) != [] {
      ExtensionSplits(path);
      StrippedShape(path);
    }
  }
}
