/**
 * The path algebra shared by both revisions (SmbItem and AbstractSharedItem).
 * A path is a '/'-separated string relative to the share; the empty string is the share root.
 */
module Paths {
  const Separator: char := '/'
  const RootPath: string := ""

  /** Number of separators in a path. */
  function SeparatorCount(path: string): nat {
    multiset(path)[Separator]
  }

  /** String.lastIndexOf for one character: the position of the last `c` in `s`, or -1. */
  function LastIndexOf(s: string, c: char): (r: int)
    ensures -1 <= r < |s|
    ensures r == -1 <==> c !in s
    ensures 0 <= r ==> s[r] == c && c !in s[r + 1..]
  {
    if s == [] then -1
    else if s[|s| - 1] == c then |s| - 1
    else
      assert s == s[..|s| - 1] + [s[|s| - 1]];
      var r := LastIndexOf(s[..|s| - 1], c);
      assert 0 <= r ==> s[r + 1..] == s[..|s| - 1][r + 1..] + [s[|s| - 1]];
      r
  }

  /** The last occurrence of `c` in `a + [c] + b` is the one between them when `b` has none. */
  lemma LastIndexOfJoin(a: string, c: char, b: string)
    requires c !in b
    ensures LastIndexOf(a + [c] + b, c) == |a|
  {
    var s := a + [c] + b;
    var r := LastIndexOf(s, c);
    assert s[|a|] == c;
  }

  /**
   * isRootPath: the last separator is at position 0 or there is none.
   * The root path "" and every top-level path ("File1.txt", "/File1.txt") are root paths.
   */
  predicate IsRootPath(path: string) {
    var k := LastIndexOf(path, Separator);
    k == 0 || k == -1
  }

  /** getName: the text after the last separator, and "" for the root path. */
  function GetName(path: string): (name: string)
    ensures Separator !in name
    ensures |name| <= |path| && path[|path| - |name|..] == name
    ensures Separator !in path ==> name == path
  {
    if path != RootPath then path[LastIndexOf(path, Separator) + 1..] else path
  }

  /**
   * The path of getParentPath: the prefix before the last separator, or the root path
   * when the path is itself a root path.
   */
  function ParentPath(path: string): (parent: string)
    ensures IsRootPath(path) ==> parent == RootPath
    ensures !IsRootPath(path) ==> parent != RootPath && |parent| < |path|
    ensures !IsRootPath(path) ==> parent + [Separator] + GetName(path) == path
  {
    if !IsRootPath(path) then
      var k := LastIndexOf(path, Separator);
      assert path == path[..k] + [path[k]] + path[k + 1..];
      path[..k]
    else
      RootPath
  }

  /** The path of a child entry, as create*InCurrentDirectory and the listing build it. */
  function ChildPath(dir: string, name: string): string {
    if dir == RootPath then name else dir + [Separator] + name
  }

  /**
   * The path of a rename target: a sibling of `path` called `newName`. This is the
   * corrected form (a top-level item gets a top-level sibling), as SmbDirectory.renameTo
   * evidently intends with its path-building helper.
   */
  function RenamedPath(path: string, newName: string): string {
    ChildPath(ParentPath(path), newName)
  }

  /** The rename target as SmbFile.renameTo and SharedDirectory.renameTo write it. */
  function RenamedPathAsWritten(path: string, newName: string): string {
    ParentPath(path) + [Separator] + newName
  }

  /** Applying getParentPath `steps` times. */
  function Ancestor(path: string, steps: nat): string
    decreases steps
  {
    if steps == 0 then path else Ancestor(ParentPath(path), steps - 1)
  }

  /** The path reached from `dirPath` by descending through `names`. */
  function JoinPath(dirPath: string, names: seq<string>): string
    decreases |names|
  {
    if names == [] then dirPath else JoinPath(ChildPath(dirPath, names[0]), names[1..])
  }

  /** A separator-free, non-empty piece of a path: one level of the share's tree. */
  predicate IsSegment(s: string) {
    s != "" && Separator !in s
  }

  /**
   * How the server resolves a path: the sequence of its non-empty segments, from the
   * share root down. Empty segments (a leading, doubled or trailing separator) are skipped.
   */
  function Segments(path: string): (segs: seq<string>)
    ensures forall i :: 0 <= i < |segs| ==> IsSegment(segs[i])
    ensures path == RootPath ==> segs == []
    decreases |path|
  {
    var k := LastIndexOf(path, Separator);
    if k == -1 then
      if path == RootPath then [] else [path]
    else
      Segments(path[..k]) + (if k + 1 < |path| then [path[k + 1..]] else [])
  }

  /** getSmbPath's replace: every '/' becomes '\'. */
  function ReplaceSeparators(path: string): string {
    seq(|path|, i requires 0 <= i < |path| => if path[i] == Separator then '\\' else path[i])
  }

  /** The UNC rendering \\server\share\path of getSmbPath; the root renders as \\server\share. */
  function UncPath(server: string, share: string, path: string): string {
    "\\\\" + server + "\\" + share + (if path == RootPath then "" else "\\" + ReplaceSeparators(path))
  }

  // ---------------------------------------------------------------------------------------------
  // Laws of the path algebra

  /** A root path has at most one separator, and then only at the front; nothing else is a root path. */
  lemma RootPathShape(path: string)
    ensures IsRootPath(path) <==>
      SeparatorCount(path) == 0 || (SeparatorCount(path) == 1 && path[0] == Separator)
  {
    var k := LastIndexOf(path, Separator);
    if k == -1 {
      assert Separator !in multiset(path);
    } else {
      assert path == path[..k] + [Separator] + path[k + 1..];
      assert Separator !in multiset(path[k + 1..]);
      assert SeparatorCount(path) == multiset(path[..k])[Separator] + 1;
      if k > 0 && path[0] == Separator {
        assert path[..k] == [Separator] + path[1..k];
      }
    }
  }

  /** isRootPath means "the item or its parent is the root". */
  lemma RootPathIffParentIsRoot(path: string)
    ensures IsRootPath(path) <==> ParentPath(path) == RootPath
  {
  }

  /** The root is a fixed point of getParentPath, and it is a root path. */
  lemma RootIsOwnParent()
    ensures IsRootPath(RootPath) && ParentPath(RootPath) == RootPath && GetName(RootPath) == ""
  {
  }

  /** Each step to the parent of a non-root path removes exactly one separator. */
  lemma ParentRemovesOneSeparator(path: string)
    requires !IsRootPath(path)
    ensures SeparatorCount(ParentPath(path)) + 1 == SeparatorCount(path)
  {
    var name := GetName(path);
    assert path == ParentPath(path) + [Separator] + name;
    assert Separator !in multiset(name);
  }

  /** The parent of a root path is the root, so root paths stay root paths. */
  lemma {:induction false} AncestorOfRootPath(path: string, steps: nat)
    requires IsRootPath(path)
    ensures Ancestor(path, steps) == if steps == 0 then path else RootPath
    decreases steps
  {
    if steps > 0 {
      AncestorOfRootPath(ParentPath(path), steps - 1);
    }
  }

  /** Iterating getParentPath reaches a root path within as many steps as the path has separators. */
  lemma {:induction false} ParentChainReachesRoot(path: string)
    ensures IsRootPath(Ancestor(path, SeparatorCount(path)))
    decreases |path|
  {
    if IsRootPath(path) {
      AncestorOfRootPath(path, SeparatorCount(path));
    } else {
      ParentRemovesOneSeparator(path);
      ParentChainReachesRoot(ParentPath(path));
    }
  }

  /** A child built from a separator-free name has the receiver as parent and the name as name. */
  lemma ChildParentAndName(dir: string, name: string)
    requires Separator !in name
    ensures ParentPath(ChildPath(dir, name)) == dir
    ensures GetName(ChildPath(dir, name)) == name
    ensures dir != RootPath ==> !IsRootPath(ChildPath(dir, name))
  {
    if dir != RootPath {
      LastIndexOfJoin(dir, Separator, name);
    }
  }

  /** A path that does not start with a separator is rebuilt from its parent and its name. */
  lemma ChildOfParentAndName(path: string)
    requires path == RootPath || path[0] != Separator
    ensures ChildPath(ParentPath(path), GetName(path)) == path
  {
  }

  /**
   * Renaming to a separator-free name keeps the parent and sets the name; renaming back to
   * the old name restores the old path (for paths that do not start with a separator).
   */
  lemma RenameRoundTrip(path: string, newName: string)
    requires path == RootPath || path[0] != Separator
    requires Separator !in newName
    ensures ParentPath(RenamedPath(path, newName)) == ParentPath(path)
    ensures GetName(RenamedPath(path, newName)) == newName
    ensures RenamedPath(RenamedPath(path, newName), GetName(path)) == path
  {
    ChildParentAndName(ParentPath(path), newName);
    ChildOfParentAndName(path);
  }

  /** Below the top level the code as written agrees with the corrected rename path. */
  lemma RenamedPathAsWrittenBelowTopLevel(path: string, newName: string)
    requires !IsRootPath(path)
    ensures RenamedPathAsWritten(path, newName) == RenamedPath(path, newName)
  {
  }

  /**
   * At the top level the code as written prefixes the new name with a separator, so
   * renaming "File1" to "File1New" and back yields "/File1", not "File1".
   */
  lemma RenamedPathAsWrittenBreaksRoundTrip()
    ensures RenamedPathAsWritten("File1", "File1New") == "/File1New"
    ensures RenamedPathAsWritten(RenamedPathAsWritten("File1", "File1New"), "File1") == "/File1"
    ensures RenamedPath(RenamedPath("File1", "File1New"), "File1") == "File1"
  {
    LastIndexOfJoin("", Separator, "File1New");
    assert "/File1New" == "" + [Separator] + "File1New";
    ChildParentAndName(RootPath, "File1New");
  }

  /**
   * The as-written target at the top level is the new name behind a separator; it is still a
   * root path with the new name, and the server resolves it to the same single segment.
   */
  lemma RenamedPathAsWrittenAtTopLevel(path: string, newName: string)
    requires IsRootPath(path) && IsSegment(newName)
    ensures RenamedPathAsWritten(path, newName) == [Separator] + newName
    ensures ParentPath(RenamedPathAsWritten(path, newName)) == RootPath
    ensures GetName(RenamedPathAsWritten(path, newName)) == newName
    ensures Segments(RenamedPathAsWritten(path, newName)) == [newName]
  {
    var t := [Separator] + newName;
    assert RenamedPathAsWritten(path, newName) == t;
    LastIndexOfJoin("", Separator, newName);
    assert t == "" + [Separator] + newName;
    assert t[..0] == "" && t[1..] == newName;
    assert Segments(t) == Segments("") + [newName];
  }

  /** The segments of a child are the receiver's segments followed by the child's name. */
  lemma SegmentsOfChild(dir: string, name: string)
    requires IsSegment(name)
    ensures Segments(ChildPath(dir, name)) == Segments(dir) + [name]
  {
    if dir != RootPath {
      LastIndexOfJoin(dir, Separator, name);
      var child := dir + [Separator] + name;
      assert child[..|dir|] == dir;
      assert child[|dir| + 1..] == name;
    }
  }

  /**
   * Two paths without backslashes render to the same UNC path on the same server and
   * share exactly when they are equal, so getSmbPath identifies an item's location.
   */
  lemma UncPathDeterminesPath(server: string, share: string, p: string, q: string)
    requires '\\' !in p && '\\' !in q
    ensures UncPath(server, share, p) == UncPath(server, share, q) <==> p == q
  {
    if UncPath(server, share, p) == UncPath(server, share, q) {
      var prefix := "\\\\" + server + "\\" + share;
      var tp := if p == RootPath then "" else "\\" + ReplaceSeparators(p);
      var tq := if q == RootPath then "" else "\\" + ReplaceSeparators(q);
      assert UncPath(server, share, p) == prefix + tp && UncPath(server, share, q) == prefix + tq;
      assert tp == (prefix + tp)[|prefix|..];
      assert tq == (prefix + tq)[|prefix|..];
      if p != RootPath && q != RootPath {
        var rp, rq := ReplaceSeparators(p), ReplaceSeparators(q);
        assert rp == tp[1..] && rq == tq[1..];
        forall i | 0 <= i < |p| ensures p[i] == q[i] {
          assert rp[i] == rq[i];
        }
      }
    }
  }

  /** The renderings the tests expect for the root and for a top-level and a nested item. */
  lemma UncPathExamples(server: string, share: string)
    ensures UncPath(server, share, "") == "\\\\" + server + "\\" + share
    ensures UncPath(server, share, "File1.txt") == "\\\\" + server + "\\" + share + "\\File1.txt"
    ensures UncPath(server, share, "Dir/File1.txt") == "\\\\" + server + "\\" + share + "\\Dir\\File1.txt"
  {
  }

  /** Appending the head of a sequence and then its tail appends the whole sequence. */
  lemma AppendFirstThenRest<T>(a: seq<T>, names: seq<T>)
    requires names != []
    ensures (a + [names[0]]) + names[1..] == a + names
  {
    assert names == [names[0]] + names[1..];
  }

  /** Descending through segments adds exactly those segments to the path's resolution. */
  lemma {:induction false} SegmentsOfJoin(dirPath: string, names: seq<string>)
    requires forall i :: 0 <= i < |names| ==> IsSegment(names[i])
    ensures Segments(JoinPath(dirPath, names)) == Segments(dirPath) + names
    decreases |names|
  {
    if names != [] {
      var first, rest := names[0], names[1..];
      var child := ChildPath(dirPath, first);
      SegmentsOfChild(dirPath, first);
      assert forall i :: 0 <= i < |rest| ==> rest[i] == names[i + 1];
      SegmentsOfJoin(child, rest);
      calc {
        Segments(JoinPath(dirPath, names));
        Segments(JoinPath(child, rest));
        Segments(child) + rest;
        (Segments(dirPath) + [first]) + rest;
        { AppendFirstThenRest(Segments(dirPath), names); }
        Segments(dirPath) + names;
      }
    }
  }

}
