/** Paths on the two mounts of the cache: a path is mapped by exchanging its root, after optional clean-up. */
module PathMap {

  // clean-up

  predicate BothSlashes(a: char, b: char) {
    a == '/' && b == '/'
  }

  /** The path without repeated slashes. */
  function Unique(s: string): (r: string)
    ensures s != [] ==> r != [] && r[|r| - 1] == s[|s| - 1]
    ensures |r| <= |s|
  {
    if |s| <= 1 then s
    else
      var r := Unique(s[..|s| - 1]);
      if BothSlashes(r[|r| - 1], s[|s| - 1]) then r else r + [s[|s| - 1]]
  }

  function WithoutSpaces(s: string): (r: string)
    ensures ' ' !in r && |r| <= |s|
  {
    if s == [] then []
    else
      var r := WithoutSpaces(s[..|s| - 1]);
      if s[|s| - 1] == ' ' then r else r + [s[|s| - 1]]
  }

  /** One slash at the end is dropped. */
  function Trimmed(s: string): string {
    if s != [] && s[|s| - 1] == '/' then s[..|s| - 1] else s
  }

  function Prepared(s: string): string {
    Trimmed(WithoutSpaces(Unique(s)))
  }

  lemma UniqueStep(s: string)
    requires |s| > 1
    ensures var t := s[..|s| - 1];
      Unique(s) == if BothSlashes(t[|t| - 1], s[|s| - 1]) then Unique(t) else Unique(t) + [s[|s| - 1]]
  {
  }

  lemma UniqueOneMore(t: string, c: char)
    requires t != []
    ensures Unique(t + [c]) == if BothSlashes(t[|t| - 1], c) then Unique(t) else Unique(t) + [c]
  {
    var s := t + [c];
    UniqueStep(s);
    assert s[..|s| - 1] == t;
  }

  lemma WithoutSpacesOneMore(t: string, c: char)
    ensures WithoutSpaces(t + [c]) == if c == ' ' then WithoutSpaces(t) else WithoutSpaces(t) + [c]
  {
    var s := t + [c];
    assert s[..|s| - 1] == t;
  }

  lemma OneMore(s: string, i: nat)
    requires i < |s|
    ensures s[..i + 1] == s[..i] + [s[i]]
  {
  }

  /** Puts one character behind the first `at` characters. */
  method KeepAt(a: array<char>, at: nat, c: char)
    requires at < a.Length
    modifies a
    ensures a[..at + 1] == old(a[..at]) + [c] && forall k :: at < k < a.Length ==> a[k] == old(a[k])
  {
    a[at] := c;
    OneMore(a[..], at);
    assert a[..][..at + 1] == a[..at + 1] && a[..][..at] == a[..at];
  }

  /** Removes repeated slashes in place; returns the new length. */
  method UniqueInPlace(a: array<char>) returns (len: nat)
    modifies a
    ensures len <= a.Length && a[..len] == Unique(old(a[..]))
  {
    if a.Length == 0 {
      return 0;
    }
    len := 1;
    var i := 1;
    ghost var was := a[..];
    while i < a.Length
      invariant 1 <= len <= i <= a.Length
      invariant a[..len] == Unique(was[..i]) && forall k :: i <= k < a.Length ==> a[k] == was[k]
    {
      UniqueOneMore(was[..i], was[i]);
      OneMore(was, i);
      assert a[..len][len - 1] == a[len - 1];
      if !BothSlashes(a[len - 1], a[i]) {
        KeepAt(a, len, a[i]);
        len := len + 1;
      }
      i := i + 1;
    }
    assert was[..i] == was;
  }

  /** Removes the spaces among the first n characters in place; returns the new length. */
  method RemoveSpaces(a: array<char>, n: nat) returns (len: nat)
    requires n <= a.Length
    modifies a
    ensures len <= n && a[..len] == WithoutSpaces(old(a[..n]))
  {
    len := 0;
    var i := 0;
    ghost var was := a[..];
    while i < n
      invariant len <= i <= n
      invariant a[..len] == WithoutSpaces(was[..i]) && forall k :: i <= k < a.Length ==> a[k] == was[k]
    {
      WithoutSpacesOneMore(was[..i], was[i]);
      OneMore(was, i);
      if a[i] != ' ' {
        KeepAt(a, len, a[i]);
        len := len + 1;
      }
      i := i + 1;
    }
    assert was[..n] == old(a[..n]);
  }

  /** The clean-up of one path; it looks at the last character left, so there must be one. */
  method PreparePath(a: array<char>) returns (len: nat)
    requires WithoutSpaces(Unique(a[..])) != []
    modifies a
    ensures len <= a.Length && a[..len] == Prepared(old(a[..]))
  {
    len := UniqueInPlace(a);
    len := RemoveSpaces(a, len);
    assert a[..len][len - 1] == a[len - 1];
    if a[len - 1] == '/' {
      assert a[..len][..len - 1] == a[..len - 1];
      len := len - 1;
    }
  }

  ghost predicate HasDoubleSlash(s: string) {
    exists i :: 0 < i < |s| && BothSlashes(s[i - 1], s[i])
  }

  lemma {:induction false} UniqueLength(s: string)
    ensures (|Unique(s)| == |s| <==> !HasDoubleSlash(s)) && (!HasDoubleSlash(s) ==> Unique(s) == s)
  {
    if |s| > 1 {
      var t := s[..|s| - 1];
      UniqueLength(t);
      UniqueStep(s);
      DoubleSlashStep(s);
      assert s == t + [s[|s| - 1]];
    }
  }

  lemma DoubleSlashStep(s: string)
    requires |s| > 1
    ensures HasDoubleSlash(s) <==> HasDoubleSlash(s[..|s| - 1]) || BothSlashes(s[|s| - 2], s[|s| - 1])
  {
    var t := s[..|s| - 1];
    if i :| 0 < i < |t| && BothSlashes(t[i - 1], t[i]) {
      assert BothSlashes(s[i - 1], s[i]);
    }
    if i :| 0 < i < |t| && BothSlashes(s[i - 1], s[i]) {
      assert BothSlashes(t[i - 1], t[i]);
    }
  }

  lemma {:induction false} WithoutSpacesLength(s: string)
    ensures (|WithoutSpaces(s)| == |s| <==> ' ' !in s) && (' ' !in s ==> WithoutSpaces(s) == s)
  {
    if s != [] {
      WithoutSpacesLength(s[..|s| - 1]);
      assert s == s[..|s| - 1] + [s[|s| - 1]];
    }
  }

  /** The clean-up leaves exactly the paths alone that have no repeated slash, no space and no slash at the end. */
  lemma PreparedIsIdentityIff(s: string)
    ensures Prepared(s) == s <==> !HasDoubleSlash(s) && ' ' !in s && (s == [] || s[|s| - 1] != '/')
  {
    UniqueLength(s);
    WithoutSpacesLength(Unique(s));
  }

  /** The beginning of a path is cleaned up to the beginning of what the path is cleaned up to. */
  lemma PreparedPrefix(s: string, q: string)
    requires s <= q
    ensures Prepared(s) <= Prepared(q)
  {
    UniquePrefix(s, q);
    WithoutSpacesPrefix(Unique(s), Unique(q));
    TrimmedPrefix(WithoutSpaces(Unique(s)), WithoutSpaces(Unique(q)));
  }

  lemma {:induction false} UniquePrefix(s: string, q: string)
    requires s <= q
    ensures Unique(s) <= Unique(q)
  {
    if |s| < |q| {
      UniquePrefix(s, q[..|q| - 1]);
    } else {
      assert s == q;
    }
  }

  lemma {:induction false} WithoutSpacesPrefix(s: string, q: string)
    requires s <= q
    ensures WithoutSpaces(s) <= WithoutSpaces(q)
  {
    if |s| < |q| {
      WithoutSpacesPrefix(s, q[..|q| - 1]);
    } else {
      assert s == q;
    }
  }

  lemma TrimmedPrefix(s: string, q: string)
    requires s <= q
    ensures Trimmed(s) <= Trimmed(q)
  {
    assert |s| == |q| ==> s == q;
  }

  /** An absolute path stays one, unless nothing is left of it. */
  lemma PreparedStart(q: string)
    requires q != [] && q[0] == '/' && Prepared(q) != []
    ensures Prepared(q)[0] == '/'
  {
    UniquePrefix("/", q);
    WithoutSpacesPrefix("/", Unique(q));
    assert WithoutSpaces("/") == "/" by {
      assert "/"[..0] == [];
    }
  }

  lemma Assoc(a: string, b: string, c: string)
    ensures a + b + c == a + (b + c)
  {
  }

  lemma Glued(a: string, b: string, ab: string, bc: string, c: string)
    requires ab == a + b && bc == b + c
    ensures ab + c == a + bc
  {
    Assoc(a, b, c);
  }

  lemma {:induction false} WithoutSpacesJoin(u: string, r: string)
    ensures WithoutSpaces(u + r) == WithoutSpaces(u) + WithoutSpaces(r)
    decreases |r|
  {
    if r == [] {
      assert u + r == u;
    } else {
      var t, c := r[..|r| - 1], r[|r| - 1];
      var kept := if c == ' ' then [] else [c];
      WithoutSpacesJoin(u, t);
      assert r == t + [c];
      Glued(u, t, u + t, r, [c]);
      WithoutSpacesOneMore(u + t, c);
      WithoutSpacesOneMore(t, c);
      Glued(WithoutSpaces(u), WithoutSpaces(t), WithoutSpaces(u + t), WithoutSpaces(r), kept);
    }
  }

  lemma SpaceDropped(x: string, y: string)
    ensures WithoutSpaces(x + " " + y) == WithoutSpaces(x + y)
  {
    WithoutSpacesJoin(x + " ", y);
    WithoutSpacesOneMore(x, ' ');
    WithoutSpacesJoin(x, y);
  }

  /** Every space goes, also those that belong to a name: files whose names differ in a space share one clean path. */
  lemma SpacesCollide(x: string, y: string)
    requires !HasDoubleSlash(x + " " + y) && !HasDoubleSlash(x + y)
    ensures Prepared(x + " " + y) == Prepared(x + y)
  {
    UniqueLength(x + " " + y);
    UniqueLength(x + y);
    SpaceDropped(x, y);
  }

  // mapping

  /** std::string::find gives position 0. */
  predicate IsRootPath(path: string, rootPath: string) {
    rootPath <= path
  }

  datatype Mapped = Mapped(ok: bool, path: string)

  /** Result of realpath(). */
  datatype RealPath = Real(path: string) | NoEntry | OtherError

  /** Exchanges the root of an absolute path. */
  function ReplaceRoot(path: string, origPath: string, newPath: string): Mapped {
    if IsRootPath(path, origPath) then Mapped(true, newPath + path[|origPath|..]) else Mapped(false, path)
  }

  function ReplaceRootPath(path: string, origPath: string, newPath: string, fs: string -> RealPath): Mapped {
    if path == [] || path[0] != '/' then
      var absolute := MakePathAbsolute(path, fs);
      if absolute.ok then ReplaceRoot(absolute.path, origPath, newPath) else absolute
    else ReplaceRoot(path, origPath, newPath)
  }

  /** The same with all three paths cleaned up first. */
  function ReplaceCleanRootPath(path: string, origPath: string, newPath: string, fs: string -> RealPath): Mapped {
    ReplaceRootPath(Prepared(path), Prepared(origPath), Prepared(newPath), fs)
  }

  /** Mapping to the other mount and back gives the path one started with, whichever paths exist. */
  lemma RoundTrip(path: string, global: string, cache: string, fs: string -> RealPath)
    requires path != [] && path[0] == '/' && cache != [] && cache[0] == '/' && IsRootPath(path, global)
    ensures var there := ReplaceRootPath(path, global, cache, fs);
      there.ok && ReplaceRootPath(there.path, cache, global, fs) == Mapped(true, path)
  {
  }

  /** `path` is the directory `root` or lies below it. */
  predicate Below(path: string, root: string) {
    root <= path && (|path| == |root| || path[|root|] == '/')
  }

  /**
   * A mapped path lies below the new root exactly if the path lies below the old one: a path that merely starts with
   * the characters of the root is accepted too and leaves the other mount.
   */
  lemma MappedBelowIff(path: string, origPath: string, newPath: string)
    requires IsRootPath(path, origPath)
    ensures Below(ReplaceRoot(path, origPath, newPath).path, newPath) <==> Below(path, origPath)
  {
  }

  lemma SiblingIsMapped()
    ensures ReplaceRoot("/global2/f", "/global", "/cache") == Mapped(true, "/cache2/f")
    ensures !Below("/cache2/f", "/cache")
  {
  }

  /** A path counts as global and as cached at once only if one mount point's name starts with the other's. */
  lemma BothMountsIff(global: string, cache: string)
    ensures (exists path: string :: IsRootPath(path, global) && IsRootPath(path, cache)) <==>
      global <= cache || cache <= global
  {
    if path: string :| IsRootPath(path, global) && IsRootPath(path, cache) {
      assert path[..|global|] == global && path[..|cache|] == cache;
    }
    if global <= cache {
      assert IsRootPath(cache, global) && IsRootPath(cache, cache);
    } else if cache <= global {
      assert IsRootPath(global, global) && IsRootPath(global, cache);
    }
  }

  // absolute paths

  function LastSlash(s: string): (i: int)
    ensures -1 <= i < |s| && (i >= 0 ==> s[i] == '/') && forall k :: i < k < |s| ==> s[k] != '/'
  {
    if s == [] then -1 else if s[|s| - 1] == '/' then |s| - 1 else LastSlash(s[..|s| - 1])
  }

  /** What is left of a path when its last element is taken away, keeping the slash in front of it. */
  function Parent(s: string): (p: string)
    requires s != []
    ensures |p| < |s|
  {
    var t := Trimmed(s);
    t[..LastSlash(t) + 1]
  }

  function LastElement(s: string): string
    requires s != []
  {
    var t := Trimmed(s);
    t[LastSlash(t) + 1..]
  }

  /** Resolves the longest existing part of the path; a failure further up is logged, but success is returned. */
  function MakePathAbsolute(s: string, fs: string -> RealPath): Mapped
    decreases |s|
  {
    match fs(s)
    case Real(p) => Mapped(true, p)
    case OtherError => Mapped(false, s)
    case NoEntry =>
      if s == [] then Mapped(false, s)
      else
        var up := MakePathAbsolute(Parent(s), fs);
        Mapped(true, if up.ok then up.path + "/" + LastElement(s) else up.path)
  }

  /** The path n levels up, as long as there are levels. */
  function Ancestor(s: string, n: nat): string
    decreases n
  {
    if n == 0 || s == [] then s else Ancestor(Parent(s), n - 1)
  }

  /** The last n elements of the path, each behind a slash. */
  function Elements(s: string, n: nat): string
    decreases n
  {
    if n == 0 || s == [] then [] else Elements(Parent(s), n - 1) + "/" + LastElement(s)
  }

  /** The first n ancestors, the path included, do not exist. */
  ghost predicate MissingBelow(s: string, n: nat, fs: string -> RealPath) {
    forall k: nat :: k < n ==> Ancestor(s, k) != [] && fs(Ancestor(s, k)) == NoEntry
  }

  lemma MissingAbove(s: string, n: nat, fs: string -> RealPath)
    requires n > 0 && MissingBelow(s, n, fs)
    ensures s != [] && fs(s) == NoEntry && MissingBelow(Parent(s), n - 1, fs)
  {
    assert Ancestor(s, 0) == s;
    forall k: nat | k < n - 1 ensures Ancestor(Parent(s), k) != [] && fs(Ancestor(Parent(s), k)) == NoEntry {
      assert Ancestor(s, k + 1) == Ancestor(Parent(s), k);
    }
  }

  lemma Regroup(a: string, b: string, c: string)
    ensures a + b + "/" + c == a + (b + "/" + c)
  {
  }

  /**
   * If the nearest ancestor that is not missing can be resolved, the result is its real path and the missing elements.
   */
  lemma {:induction false} AbsoluteOfNearest(s: string, n: nat, fs: string -> RealPath)
    requires MissingBelow(s, n, fs) && fs(Ancestor(s, n)).Real?
    ensures MakePathAbsolute(s, fs) == Mapped(true, fs(Ancestor(s, n)).path + Elements(s, n))
    decreases n
  {
    if n > 0 {
      MissingAbove(s, n, fs);
      AbsoluteOfNearest(Parent(s), n - 1, fs);
      Regroup(fs(Ancestor(s, n)).path, Elements(Parent(s), n - 1), LastElement(s));
    }
  }

  /** A relative path is mapped like the absolute one it stands for. */
  lemma RelativeIsMapped(path: string, origPath: string, newPath: string, fs: string -> RealPath, n: nat)
    requires path == [] || path[0] != '/'
    requires MissingBelow(path, n, fs) && fs(Ancestor(path, n)).Real?
    ensures var absolute := fs(Ancestor(path, n)).path + Elements(path, n);
      ReplaceRootPath(path, origPath, newPath, fs) ==
      if IsRootPath(absolute, origPath) then Mapped(true, newPath + absolute[|origPath|..]) else Mapped(false, absolute)
  {
    AbsoluteOfNearest(path, n, fs);
  }

  /**
   * If it cannot be resolved, its string is kept and the element below it is lost; unless the path itself is what
   * failed, this is reported as a success.
   */
  lemma {:induction false} LostElement(s: string, n: nat, fs: string -> RealPath)
    requires MissingBelow(s, n, fs) && !fs(Ancestor(s, n)).Real?
    requires fs(Ancestor(s, n)) == NoEntry ==> Ancestor(s, n) == []
    ensures n == 0 ==> MakePathAbsolute(s, fs) == Mapped(false, s)
    ensures n > 0 ==> MakePathAbsolute(s, fs) == Mapped(true, Ancestor(s, n) + Elements(s, n - 1))
    decreases n
  {
    if n > 0 {
      MissingAbove(s, n, fs);
      var up := Parent(s);
      assert Ancestor(s, n) == Ancestor(up, n - 1);
      LostElement(up, n - 1, fs);
      if n == 1 {
        assert Elements(s, 0) == [] && Ancestor(s, n) + [] == up;
        LostOne(s, fs);
      } else {
        assert Elements(s, n - 1) == Elements(up, n - 2) + "/" + LastElement(s);
        LostMore(s, Ancestor(up, n - 1), Elements(up, n - 2), fs);
      }
    }
  }

  lemma LostOne(s: string, fs: string -> RealPath)
    requires s != [] && fs(s) == NoEntry && MakePathAbsolute(Parent(s), fs) == Mapped(false, Parent(s))
    ensures MakePathAbsolute(s, fs) == Mapped(true, Parent(s))
  {
  }

  lemma LostMore(s: string, kept: string, elements: string, fs: string -> RealPath)
    requires s != [] && fs(s) == NoEntry && MakePathAbsolute(Parent(s), fs) == Mapped(true, kept + elements)
    ensures MakePathAbsolute(s, fs) == Mapped(true, kept + (elements + "/" + LastElement(s)))
  {
    Regroup(kept, elements, LastElement(s));
  }

  lemma ParentOfPath(dir: string, name: string)
    requires '/' !in name && name != []
    ensures Parent(dir + "/" + name) == dir + "/" && LastElement(dir + "/" + name) == name
  {
    var s := dir + "/" + name;
    assert s[|s| - 1] == name[|name| - 1] && Trimmed(s) == s;
    assert s[|dir|] == '/' && forall k :: |dir| < k < |s| ==> s[k] == name[k - |dir| - 1];
    assert LastSlash(s) == |dir|;
    assert s[..|dir| + 1] == dir + "/" && s[|dir| + 1..] == name;
  }

  lemma ParentOfTop(dir: string)
    requires '/' !in dir
    ensures Parent(dir + "/") == []
  {
  }

  /**
   * If neither its directory nor the current one can be found, a relative path comes out absolute, without its
   * directory.
   */
  lemma MissingDirectoryIsLost(dir: string, name: string, fs: string -> RealPath)
    requires dir != [] && name != [] && '/' !in dir && '/' !in name
    requires fs(dir + "/" + name) == NoEntry && fs(dir + "/") == NoEntry && fs([]) == NoEntry
    ensures MakePathAbsolute(dir + "/" + name, fs) == Mapped(true, "/" + name)
  {
    ParentOfPath(dir, name);
    ParentOfTop(dir);
    assert MakePathAbsolute([], fs) == Mapped(false, []);
    assert MakePathAbsolute(dir + "/", fs) == Mapped(true, []);
    assert [] + "/" + name == "/" + name;
  }
}
