/**
 * The content of a disk share and the server operations the wrapper invokes on it
 * (list, stat, mkdir, recursive rmdir, rm, create with a disposition, rename, write).
 * The share is a tree of directories and files; a path is resolved by its segments.
 */
module ShareState {
  import opened Outcomes
  import opened Paths

  newtype uint8 = x: int | 0 <= x < 256

  datatype Option<T> = None | Some(value: T)

  /** A directory maps entry names to entries; a file holds its bytes. */
  datatype Node = Dir(children: map<string, Node>) | File(data: seq<uint8>)

  /** Every entry name is a non-empty, separator-free segment, at every level. */
  predicate WellFormed(n: Node)
    decreases n
  {
    match n
    case File(_) => true
    case Dir(ch) => forall k :: k in ch ==> IsSegment(k) && WellFormed(ch[k])
  }

  /** A share: its root is a directory and the whole tree is well formed. */
  predicate ValidShare(root: Node) {
    root.Dir? && WellFormed(root)
  }

  /** The entry reached from `n` by following `segs`, if any. */
  function Lookup(n: Node, segs: seq<string>): Option<Node>
    decreases |segs|
  {
    if segs == [] then Some(n)
    else if n.Dir? && segs[0] in n.children then Lookup(n.children[segs[0]], segs[1..])
    else None
  }

  /** `n` with the entry at `segs` set to `v`; unchanged when the parent of `segs` is not a directory. */
  function Put(n: Node, segs: seq<string>, v: Node): Node
    decreases |segs|
  {
    if segs == [] then v
    else if !n.Dir? then n
    else if |segs| == 1 then Dir(n.children[segs[0] := v])
    else if segs[0] in n.children then Dir(n.children[segs[0] := Put(n.children[segs[0]], segs[1..], v)])
    else n
  }

  /** `n` without the entry at `segs` and everything below it. */
  function Remove(n: Node, segs: seq<string>): Node
    decreases |segs|
  {
    if segs == [] || !n.Dir? then n
    else if |segs| == 1 then Dir(n.children - {segs[0]})
    else if segs[0] in n.children then Dir(n.children[segs[0] := Remove(n.children[segs[0]], segs[1..])])
    else n
  }

  /** The segment sequences `p` and `q` address disjoint subtrees. */
  predicate Unrelated(p: seq<string>, q: seq<string>) {
    !(p <= q) && !(q <= p)
  }

  /** The entry `segs` would be created in exists and is a directory. */
  predicate HasParentDirectory(root: Node, segs: seq<string>) {
    |segs| > 0 && Lookup(root, segs[..|segs| - 1]).Some? && Lookup(root, segs[..|segs| - 1]).value.Dir?
  }

  /** The entry a path names on the share. */
  function NodeAt(root: Node, path: string): Option<Node> {
    Lookup(root, Segments(path))
  }

  /** The folderExists probe behind isDirectory. */
  predicate IsDirectoryAt(root: Node, path: string) {
    NodeAt(root, path).Some? && NodeAt(root, path).value.Dir?
  }

  /** The fileExists probe behind isFile. */
  predicate IsFileAt(root: Node, path: string) {
    NodeAt(root, path).Some? && NodeAt(root, path).value.File?
  }

  /** isExisting: isDirectory() || isFile(). */
  predicate IsExistingAt(root: Node, path: string) {
    IsDirectoryAt(root, path) || IsFileAt(root, path)
  }

  // ---------------------------------------------------------------------------------------------
  // Server operations. Each yields the new share content or the error the server reports.

  /** The create dispositions of section 2.2.13 of [MS-SMB2] that the wrapper uses. */
  datatype Disposition =
    | FileOpen         // open an existing file, fail if absent
    | FileOpenIf       // open an existing file, create it if absent
    | FileOverwriteIf  // truncate an existing file, create it if absent

  /** Opening a non-directory file with a disposition. */
  function OpenFile(root: Node, path: string, disposition: Disposition): Result<Node> {
    var segs := Segments(path);
    match NodeAt(root, path)
    case Some(Dir(_)) => Err(WrongKind(path))
    case Some(File(_)) =>
      if disposition == FileOverwriteIf then Ok(Put(root, segs, File([]))) else Ok(root)
    case None =>
      if disposition == FileOpen then Err(NotFound(path))
      else if HasParentDirectory(root, segs) then Ok(Put(root, segs, File([])))
      else Err(NotFound(path))
  }

  /** mkdir: creates an empty directory inside an existing directory; an existing path is refused. */
  function MakeDirectory(root: Node, path: string): Result<Node> {
    var segs := Segments(path);
    if NodeAt(root, path).Some? then Err(AlreadyExists(path))
    else if !HasParentDirectory(root, segs) then Err(NotFound(path))
    else Ok(Put(root, segs, Dir(map[])))
  }

  /** rmdir(path, true): removes a directory with everything below it. */
  function RemoveDirectoryRecursively(root: Node, path: string): Result<Node> {
    var segs := Segments(path);
    match NodeAt(root, path)
    case None => Err(NotFound(path))
    case Some(File(_)) => Err(WrongKind(path))
    case Some(Dir(_)) => if segs == [] then Err(AccessDenied(path)) else Ok(Remove(root, segs))
  }

  /** rm: removes a file. */
  function RemoveFile(root: Node, path: string): Result<Node> {
    var segs := Segments(path);
    match NodeAt(root, path)
    case None => Err(NotFound(path))
    case Some(Dir(_)) => Err(WrongKind(path))
    case Some(File(_)) => Ok(Remove(root, segs))
  }

  /**
   * rename(target, replaceIfExist): moves an entry. An existing target is replaced only when
   * the flag is set and the target has the same kind; the target's directory must exist, and
   * the target must neither lie inside the entry being moved nor contain it.
   */
  function Rename(root: Node, from: string, to: string, replaceIfExist: bool): Result<Node> {
    var src, dst := Segments(from), Segments(to);
    match NodeAt(root, from)
    case None => Err(NotFound(from))
    case Some(node) =>
      if src == [] then Err(AccessDenied(from))
      else if dst == [] || (src != dst && !Unrelated(src, dst)) then Err(RenameConflict(to))
      else if !HasParentDirectory(root, dst) then Err(NotFound(to))
      else if NodeAt(root, to).Some? && (!replaceIfExist || NodeAt(root, to).value.Dir? != node.Dir?) then
        Err(RenameConflict(to))
      else Ok(Put(Remove(root, src), dst, node))
  }

  /** list(path): the entry names of a directory, with the "." and ".." entries servers report. */
  function ListDirectory(root: Node, path: string): Result<set<string>> {
    match NodeAt(root, path)
    case Some(Dir(ch)) => Ok({".", ".."} + ch.Keys)
    case Some(File(_)) => Err(WrongKind(path))
    case None => Err(NotFound(path))
  }

  /** A remote WRITE at the end of an open file. */
  function AppendToFile(root: Node, path: string, bytes: seq<uint8>): Result<Node> {
    match NodeAt(root, path)
    case Some(File(data)) => Ok(Put(root, Segments(path), File(data + bytes)))
    case Some(Dir(_)) => Err(WrongKind(path))
    case None => Err(IOFailure("The file no longer exists"))
  }

  /** The server-side copy of an open source file onto an open destination file. */
  function CopyContent(root: Node, source: string, destination: string): Result<Node> {
    match NodeAt(root, source)
    case Some(File(data)) =>
      if IsFileAt(root, destination) then Ok(Put(root, Segments(destination), File(data)))
      else Err(NotFound(destination))
    case _ => Err(NotFound(source))
  }

  /** Opening a directory handle with FILE_OPEN: the directory must exist; nothing changes. */
  function OpenDirectory(root: Node, path: string): Result<Node> {
    match NodeAt(root, path)
    case Some(Dir(_)) => Ok(root)
    case Some(File(_)) => Err(WrongKind(path))
    case None => Err(NotFound(path))
  }

  /** The share content after a server step that yields `r`: the new content, or `before` on failure. */
  function After(r: Result<Node>, before: Node): (after: Node)
    ensures r.Err? ==> after == before
    ensures r.Ok? ==> after == r.value
  {
    if r.Ok? then r.value else before
  }

  /** How a sequence of server steps ends: its status and the share content it leaves. */
  datatype Outcome = Outcome(status: Status, content: Node)

  /** The status a Java `void` call ends with when its server step yields `r`. */
  function StatusOf(r: Result<Node>): (s: Status)
    ensures s.Pass? <==> r.Ok?
    ensures r.Err? ==> s.error == r.error
  {
    if r.Ok? then Pass else Fail(r.error)
  }

  // ---------------------------------------------------------------------------------------------
  // Laws of the tree operations

  /** A directory never is a file: isDirectory and isFile never hold together, and isExisting means an entry exists. */
  lemma ExistenceProbes(root: Node, path: string)
    ensures !(IsDirectoryAt(root, path) && IsFileAt(root, path))
    ensures IsExistingAt(root, path) <==> NodeAt(root, path).Some?
  {
  }

  /** After a Put the entry is there, provided its directory existed. */
  lemma {:induction false} LookupPutSame(n: Node, segs: seq<string>, v: Node)
    requires HasParentDirectory(n, segs)
    ensures Lookup(Put(n, segs, v), segs) == Some(v)
    decreases |segs|
  {
    if |segs| > 1 {
      assert segs[1..][..|segs| - 2] == segs[..|segs| - 1][1..];
      LookupPutSame(n.children[segs[0]], segs[1..], v);
    }
  }

  /** A Put leaves every unrelated entry as it was. */
  lemma {:induction false} LookupPutOther(n: Node, segs: seq<string>, v: Node, q: seq<string>)
    requires Unrelated(segs, q)
    ensures Lookup(Put(n, segs, v), q) == Lookup(n, q)
    decreases |segs|
  {
    if n.Dir? && segs[0] == q[0] && |segs| > 1 && segs[0] in n.children {
      LookupPutOther(n.children[segs[0]], segs[1..], v, q[1..]);
    }
  }

  /** A Remove takes away the entry and everything below it. */
  lemma {:induction false} LookupRemoveBelow(n: Node, segs: seq<string>, q: seq<string>)
    requires segs != [] && segs <= q
    ensures Lookup(Remove(n, segs), q) == None
    decreases |segs|
  {
    if n.Dir? && |segs| > 1 && segs[0] in n.children {
      LookupRemoveBelow(n.children[segs[0]], segs[1..], q[1..]);
    } else if n.Dir? && |segs| > 1 {
      assert Lookup(Remove(n, segs), q) == Lookup(n, q);
    }
  }

  /** A Remove leaves every unrelated entry as it was. */
  lemma {:induction false} LookupRemoveOther(n: Node, segs: seq<string>, q: seq<string>)
    requires Unrelated(segs, q)
    ensures Lookup(Remove(n, segs), q) == Lookup(n, q)
    decreases |segs|
  {
    if n.Dir? && segs[0] == q[0] && |segs| > 1 && segs[0] in n.children {
      LookupRemoveOther(n.children[segs[0]], segs[1..], q[1..]);
    }
  }

  /** Putting a well-formed entry under segment names keeps the tree well formed. */
  lemma {:induction false} PutWellFormed(n: Node, segs: seq<string>, v: Node)
    requires WellFormed(n) && WellFormed(v)
    requires forall i :: 0 <= i < |segs| ==> IsSegment(segs[i])
    requires segs != [] ==> n.Dir?
    ensures WellFormed(Put(n, segs, v)) && (n.Dir? && segs != [] ==> Put(n, segs, v).Dir?)
    decreases |segs|
  {
    if |segs| > 1 && n.Dir? && segs[0] in n.children {
      var c := n.children[segs[0]];
      if c.Dir? {
        PutWellFormed(c, segs[1..], v);
      }
    }
  }

  /** Removing an entry keeps the tree well formed. */
  lemma {:induction false} RemoveWellFormed(n: Node, segs: seq<string>)
    requires WellFormed(n)
    ensures WellFormed(Remove(n, segs)) && (n.Dir? ==> Remove(n, segs).Dir?)
    decreases |segs|
  {
    if |segs| > 1 && n.Dir? && segs[0] in n.children {
      RemoveWellFormed(n.children[segs[0]], segs[1..]);
    }
  }

  /** Every entry of a well-formed tree is itself well formed. */
  lemma {:induction false} LookupWellFormed(n: Node, segs: seq<string>)
    requires WellFormed(n) && Lookup(n, segs).Some?
    ensures WellFormed(Lookup(n, segs).value)
    decreases |segs|
  {
    if segs != [] {
      LookupWellFormed(n.children[segs[0]], segs[1..]);
    }
  }

  /** An existing entry other than the root sits in an existing directory. */
  lemma {:induction false} ExistingHasParent(n: Node, segs: seq<string>)
    requires segs != [] && Lookup(n, segs).Some?
    ensures HasParentDirectory(n, segs)
    decreases |segs|
  {
    if |segs| > 1 {
      ExistingHasParent(n.children[segs[0]], segs[1..]);
      assert segs[1..][..|segs| - 2] == segs[..|segs| - 1][1..];
    }
  }

  /** Removing an entry keeps the directories above it. */
  lemma {:induction false} LookupRemoveAbove(n: Node, segs: seq<string>, p: seq<string>)
    requires p <= segs && p != segs
    requires Lookup(n, p).Some? && Lookup(n, p).value.Dir?
    ensures Lookup(Remove(n, segs), p).Some? && Lookup(Remove(n, segs), p).value.Dir?
    decreases |segs|
  {
    if p != [] {
      LookupRemoveAbove(n.children[segs[0]], segs[1..], p[1..]);
    }
  }

  /** Nothing outside the subtree at `segs` differs between the two trees. */
  ghost predicate SameOutside(before: Node, after: Node, segs: seq<string>) {
    forall q :: Unrelated(segs, q) ==> Lookup(after, q) == Lookup(before, q)
  }

  /** Setting an entry inside an existing directory of a share. */
  lemma PutEffect(root: Node, segs: seq<string>, v: Node)
    requires ValidShare(root) && WellFormed(v) && HasParentDirectory(root, segs)
    requires forall i :: 0 <= i < |segs| ==> IsSegment(segs[i])
    ensures ValidShare(Put(root, segs, v))
    ensures Lookup(Put(root, segs, v), segs) == Some(v)
    ensures SameOutside(root, Put(root, segs, v), segs)
  {
    PutWellFormed(root, segs, v);
    LookupPutSame(root, segs, v);
    forall q | Unrelated(segs, q) ensures Lookup(Put(root, segs, v), q) == Lookup(root, q) {
      LookupPutOther(root, segs, v, q);
    }
  }

  /** Removing an entry of a share together with its subtree. */
  lemma RemoveEffect(root: Node, segs: seq<string>)
    requires ValidShare(root) && segs != []
    ensures ValidShare(Remove(root, segs))
    ensures forall q :: segs <= q ==> Lookup(Remove(root, segs), q) == None
    ensures SameOutside(root, Remove(root, segs), segs)
  {
    RemoveWellFormed(root, segs);
    forall q | segs <= q ensures Lookup(Remove(root, segs), q) == None {
      LookupRemoveBelow(root, segs, q);
    }
    forall q | Unrelated(segs, q) ensures Lookup(Remove(root, segs), q) == Lookup(root, q) {
      LookupRemoveOther(root, segs, q);
    }
  }

  /**
   * The three dispositions: FILE_OPEN needs an existing file and changes nothing;
   * FILE_OPEN_IF keeps an existing file and creates a missing one empty; FILE_OVERWRITE_IF
   * leaves an empty file either way. A directory at the path is refused by all three, and
   * nothing outside the path changes.
   */
  lemma OpenFileEffect(root: Node, path: string, disposition: Disposition)
    requires ValidShare(root)
    ensures OpenFile(root, path, disposition).Ok? <==>
      IsFileAt(root, path) ||
      (disposition != FileOpen && NodeAt(root, path).None? && HasParentDirectory(root, Segments(path)))
    ensures OpenFile(root, path, disposition).Ok? ==>
      var after := OpenFile(root, path, disposition).value;
      ValidShare(after) && SameOutside(root, after, Segments(path)) &&
      NodeAt(after, path) ==
        if disposition != FileOverwriteIf && IsFileAt(root, path) then NodeAt(root, path) else Some(File([]))
    ensures disposition != FileOverwriteIf && IsFileAt(root, path) ==> OpenFile(root, path, disposition) == Ok(root)
  {
    var segs := Segments(path);
    if IsFileAt(root, path) && disposition == FileOverwriteIf {
      ExistingHasParent(root, segs);
      PutEffect(root, segs, File([]));
    } else if NodeAt(root, path).None? && disposition != FileOpen && HasParentDirectory(root, segs) {
      PutEffect(root, segs, File([]));
    }
  }

  /** mkdir succeeds exactly on a missing path inside an existing directory, and then leaves an empty directory there. */
  lemma MakeDirectoryEffect(root: Node, path: string)
    requires ValidShare(root)
    ensures MakeDirectory(root, path).Ok? <==> !IsExistingAt(root, path) && HasParentDirectory(root, Segments(path))
    ensures MakeDirectory(root, path).Ok? ==>
      var after := MakeDirectory(root, path).value;
      ValidShare(after) && SameOutside(root, after, Segments(path)) && NodeAt(after, path) == Some(Dir(map[]))
  {
    if MakeDirectory(root, path).Ok? {
      PutEffect(root, Segments(path), Dir(map[]));
    }
  }

  /** The recursive rmdir removes an existing directory other than the root with its whole subtree. */
  lemma RemoveDirectoryEffect(root: Node, path: string)
    requires ValidShare(root)
    ensures RemoveDirectoryRecursively(root, path).Ok? <==> IsDirectoryAt(root, path) && Segments(path) != []
    ensures RemoveDirectoryRecursively(root, path).Ok? ==>
      var after := RemoveDirectoryRecursively(root, path).value;
      ValidShare(after) && SameOutside(root, after, Segments(path)) &&
      forall q :: Segments(path) <= q ==> Lookup(after, q) == None
  {
    if RemoveDirectoryRecursively(root, path).Ok? {
      RemoveEffect(root, Segments(path));
    }
  }

  /** rm succeeds exactly on an existing file, and then nothing exists at the path. */
  lemma RemoveFileEffect(root: Node, path: string)
    requires ValidShare(root)
    ensures RemoveFile(root, path).Ok? <==> IsFileAt(root, path)
    ensures RemoveFile(root, path).Ok? ==>
      var after := RemoveFile(root, path).value;
      ValidShare(after) && SameOutside(root, after, Segments(path)) && !IsExistingAt(after, path)
  {
    if RemoveFile(root, path).Ok? {
      RemoveEffect(root, Segments(path));
      assert Segments(path) <= Segments(path);
    }
  }

  /**
   * A rename fails when the target exists and the flag is not set, and when the target has the
   * other kind even with the flag. When it succeeds the entry is found at the target and no
   * longer at the source, and nothing unrelated to either path changes.
   */
  lemma RenameEffect(root: Node, from: string, to: string, replaceIfExist: bool)
    requires ValidShare(root)
    ensures IsExistingAt(root, to) && Segments(from) != Segments(to) && !replaceIfExist ==>
      Rename(root, from, to, replaceIfExist).Err?
    ensures IsDirectoryAt(root, from) && IsFileAt(root, to) ==> Rename(root, from, to, replaceIfExist).Err?
    ensures IsFileAt(root, from) && IsDirectoryAt(root, to) ==> Rename(root, from, to, replaceIfExist).Err?
    ensures !IsExistingAt(root, from) ==> Rename(root, from, to, replaceIfExist).Err?
    ensures Rename(root, from, to, replaceIfExist).Ok? ==>
      var after := Rename(root, from, to, replaceIfExist).value;
      ValidShare(after) && NodeAt(after, to) == NodeAt(root, from) &&
      (Segments(from) != Segments(to) ==> !IsExistingAt(after, from)) &&
      forall q :: Unrelated(Segments(from), q) && Unrelated(Segments(to), q) ==> Lookup(after, q) == Lookup(root, q)
  {
    var src, dst := Segments(from), Segments(to);
    if Rename(root, from, to, replaceIfExist).Ok? {
      var node := NodeAt(root, from).value;
      var removed := Remove(root, src);
      RemoveEffect(root, src);
      var dirOfDst := dst[..|dst| - 1];
      if src == dst {
        assert dirOfDst <= src && dirOfDst != src;
        LookupRemoveAbove(root, src, dirOfDst);
      } else if dirOfDst <= src {
        LookupRemoveAbove(root, src, dirOfDst);
      } else {
        assert Unrelated(src, dirOfDst);
      }
      LookupWellFormed(root, src);
      PutEffect(removed, dst, node);
      if src != dst {
        assert Unrelated(dst, src);
        assert src <= src;
      }
    }
  }

  /** A successful server-side copy leaves the destination holding the source's bytes, at the source's size. */
  lemma CopyContentEffect(root: Node, source: string, destination: string)
    requires ValidShare(root)
    ensures CopyContent(root, source, destination).Ok? <==> IsFileAt(root, source) && IsFileAt(root, destination)
    ensures CopyContent(root, source, destination).Ok? ==>
      var after := CopyContent(root, source, destination).value;
      ValidShare(after) && SameOutside(root, after, Segments(destination)) &&
      NodeAt(after, destination) == NodeAt(root, source) &&
      |NodeAt(after, destination).value.data| == |NodeAt(root, source).value.data|
  {
    if CopyContent(root, source, destination).Ok? {
      ExistingHasParent(root, Segments(destination));
      PutEffect(root, Segments(destination), NodeAt(root, source).value);
    }
  }

  /** A write appends its bytes to the file and changes nothing else. */
  lemma AppendToFileEffect(root: Node, path: string, bytes: seq<uint8>)
    requires ValidShare(root)
    ensures AppendToFile(root, path, bytes).Ok? <==> IsFileAt(root, path)
    ensures AppendToFile(root, path, bytes).Ok? ==>
      var after := AppendToFile(root, path, bytes).value;
      ValidShare(after) && SameOutside(root, after, Segments(path)) &&
      NodeAt(after, path) == Some(File(NodeAt(root, path).value.data + bytes))
  {
    if IsFileAt(root, path) {
      ExistingHasParent(root, Segments(path));
      PutEffect(root, Segments(path), File(NodeAt(root, path).value.data + bytes));
    }
  }

  /** Following `a` and then `b` is following `a + b`. */
  lemma {:induction false} LookupAppend(n: Node, a: seq<string>, b: seq<string>)
    ensures Lookup(n, a + b) == if Lookup(n, a).Some? then Lookup(Lookup(n, a).value, b) else None
    decreases |a|
  {
    if a != [] {
      assert (a + b)[1..] == a[1..] + b;
      if n.Dir? && a[0] in n.children {
        LookupAppend(n.children[a[0]], a[1..], b);
      }
    } else {
      assert a + b == b;
    }
  }

  /** The names followed by a successful lookup in a well-formed tree are segments. */
  lemma {:induction false} LookupFollowsSegments(n: Node, names: seq<string>)
    requires WellFormed(n) && Lookup(n, names).Some?
    ensures forall i :: 0 <= i < |names| ==> IsSegment(names[i])
    decreases |names|
  {
    if names != [] {
      LookupFollowsSegments(n.children[names[0]], names[1..]);
      forall i | 0 < i < |names| ensures IsSegment(names[i]) {
        assert names[i] == names[1..][i - 1];
      }
    }
  }

  /** The entry `name` of the directory at `path` is what the server finds at the child path. */
  lemma NodeAtChild(root: Node, path: string, node: Node, name: string)
    requires ValidShare(root) && NodeAt(root, path) == Some(node) && node.Dir? && name in node.children
    ensures WellFormed(node) && IsSegment(name)
    ensures NodeAt(root, ChildPath(path, name)) == Some(node.children[name])
  {
    LookupWellFormed(root, Segments(path));
    SegmentsOfChild(path, name);
    LookupAppend(root, Segments(path), [name]);
  }

  /** Every proper prefix of an existing entry's segments leads to a directory. */
  lemma PrefixOfExisting(root: Node, p: seq<string>, q: seq<string>)
    requires p < q && Lookup(root, q).Some?
    ensures Lookup(root, p).Some? && Lookup(root, p).value.Dir?
  {
    assert q == p + q[|p|..];
    LookupAppend(root, p, q[|p|..]);
  }

  /** Below a file nothing is found, and nothing can be created there. */
  lemma NothingUnderFile(root: Node, p: seq<string>, q: seq<string>)
    requires Lookup(root, p).Some? && Lookup(root, p).value.File? && p < q
    ensures Lookup(root, q) == None && !HasParentDirectory(root, q)
  {
    BelowFileIsNothing(root, p, q);
    var parent := q[..|q| - 1];
    assert p <= parent;
    if p < parent {
      BelowFileIsNothing(root, p, parent);
    } else {
      assert parent == p;
    }
  }

  /** Nothing is found below a file. */
  lemma BelowFileIsNothing(root: Node, p: seq<string>, q: seq<string>)
    requires Lookup(root, p).Some? && Lookup(root, p).value.File? && p < q
    ensures Lookup(root, q) == None
  {
    assert q == p + q[|p|..];
    LookupAppend(root, p, q[|p|..]);
  }

  // ---------------------------------------------------------------------------------------------
  // The share as the wrapper sees it: one mutable object whose content the server operations replace.

  /** The DiskShare an SmbConnection hands out; `root` is the share's current content. */
  class DiskShare {
    var root: Node

    predicate Valid()
      reads this
    {
      ValidShare(root)
    }

    constructor (root: Node)
      requires ValidShare(root)
      ensures Valid() && this.root == root
    {
      this.root := root;
    }

    /** Sends one server operation: its new content is kept on success, nothing changes on failure. */
    method Apply(r: Result<Node>) returns (s: Status)
      requires Valid() && (r.Ok? ==> ValidShare(r.value))
      modifies this
      ensures Valid()
      ensures s == StatusOf(r)
      ensures root == After(r, old(root))
    {
      if r.Ok? {
        root := r.value;
      }
      s := StatusOf(r);
    }
  }
}
