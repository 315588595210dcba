/**
 * SmbDirectory and SharedDirectory: ensureExists, createDirectory, deleteDirectoryRecursively
 * and the two create*InCurrentDirectory helpers. (Listing is in the Listing module, renaming
 * in the Renaming module.)
 */
module Directories {
  import opened Outcomes
  import opened ItemNames
  import opened Paths
  import opened ShareState
  import opened Items
  import Files

  /** The message of the IllegalStateException raised by ensureExists. */
  const NotADirectory := "The given path does already exist, but not as directory"

  /**
   * ensureExists as a server-side effect: create the directory when nothing is at the path,
   * refuse a file, keep an existing directory as it is.
   */
  function EnsureDirectory(root: Node, path: string): Result<Node> {
    if !IsExistingAt(root, path) then MakeDirectory(root, path)
    else if !IsDirectoryAt(root, path) then Err(StateConflict(NotADirectory))
    else Ok(root)
  }

  /** The three cases of ensureExists; whenever it succeeds a directory is at the path afterwards. */
  lemma EnsureDirectoryEffect(root: Node, path: string)
    requires ValidShare(root)
    ensures IsDirectoryAt(root, path) ==> EnsureDirectory(root, path) == Ok(root)
    ensures IsFileAt(root, path) ==> EnsureDirectory(root, path) == Err(StateConflict(NotADirectory))
    ensures !IsExistingAt(root, path) ==>
      (EnsureDirectory(root, path).Ok? <==> HasParentDirectory(root, Segments(path)))
    ensures EnsureDirectory(root, path).Ok? ==>
      var after := EnsureDirectory(root, path).value;
      ValidShare(after) && IsDirectoryAt(after, path) && SameOutside(root, after, Segments(path))
  {
    ExistenceProbes(root, path);
    MakeDirectoryEffect(root, path);
  }

  /** ensureExists is idempotent: once it succeeded, calling it again succeeds and changes nothing. */
  lemma EnsureDirectoryIdempotent(root: Node, path: string)
    requires ValidShare(root) && EnsureDirectory(root, path).Ok?
    ensures var after := EnsureDirectory(root, path).value;
      EnsureDirectory(after, path) == Ok(after)
  {
    EnsureDirectoryEffect(root, path);
    EnsureDirectoryEffect(EnsureDirectory(root, path).value, path);
  }

  /** createDirectory: mkdir on the item's path. */
  method CreateDirectory(share: DiskShare, dir: Item) returns (s: Status)
    requires share.Valid()
    modifies share
    ensures share.Valid()
    ensures s == StatusOf(MakeDirectory(old(share.root), dir.path))
    ensures share.root == After(MakeDirectory(old(share.root), dir.path), old(share.root))
    ensures s.Pass? <==> old(!IsExistingAt(share.root, dir.path) && HasParentDirectory(share.root, Segments(dir.path)))
    ensures s.Pass? ==> NodeAt(share.root, dir.path) == Some(Dir(map[]))
  {
    MakeDirectoryEffect(share.root, dir.path);
    s := share.Apply(MakeDirectory(share.root, dir.path));
  }

  /** deleteDirectoryRecursively: rmdir(path, true); afterwards nothing is at or below the path. */
  method DeleteDirectoryRecursively(share: DiskShare, dir: Item) returns (s: Status)
    requires share.Valid()
    modifies share
    ensures share.Valid()
    ensures s == StatusOf(RemoveDirectoryRecursively(old(share.root), dir.path))
    ensures share.root == After(RemoveDirectoryRecursively(old(share.root), dir.path), old(share.root))
    ensures s.Pass? <==> old(IsDirectoryAt(share.root, dir.path)) && Segments(dir.path) != []
    ensures s.Pass? ==> !IsExistingAt(share.root, dir.path)
    ensures s.Pass? ==> forall q :: Segments(dir.path) <= q ==> Lookup(share.root, q) == None
  {
    RemoveDirectoryEffect(share.root, dir.path);
    s := share.Apply(RemoveDirectoryRecursively(share.root, dir.path));
    if s.Pass? {
      assert Segments(dir.path) <= Segments(dir.path);
    }
  }

  /**
   * ensureExists: probes isExisting (isDirectory || isFile) and isDirectory, then creates the
   * directory or raises the IllegalStateException.
   */
  method EnsureExists(share: DiskShare, dir: Item) returns (s: Status)
    requires share.Valid()
    modifies share
    ensures share.Valid()
    ensures s == StatusOf(EnsureDirectory(old(share.root), dir.path))
    ensures share.root == After(EnsureDirectory(old(share.root), dir.path), old(share.root))
  {
    var existing := IsDirectoryAt(share.root, dir.path) || IsFileAt(share.root, dir.path);
    if !existing {
      s := CreateDirectory(share, dir);
    } else if !IsDirectoryAt(share.root, dir.path) {
      s := Fail(StateConflict(NotADirectory));
    } else {
      s := Pass;
    }
  }

  /**
   * createDirectoryInCurrentDirectory: builds the child item (the validating constructor may
   * refuse its path) and creates it.
   */
  method CreateDirectoryInCurrentDirectory(share: DiskShare, dir: Item, name: string) returns (r: Result<Item>)
    requires share.Valid()
    modifies share
    ensures share.Valid()
    ensures var path := ChildPath(dir.path, name);
      share.root == if IsValidItemName(dir.rev, path) then After(MakeDirectory(old(share.root), path), old(share.root)) else old(share.root)
    ensures r.Ok? <==> IsValidItemName(dir.rev, ChildPath(dir.path, name)) && old(MakeDirectory(share.root, ChildPath(dir.path, name)).Ok?)
    ensures !IsValidItemName(dir.rev, ChildPath(dir.path, name)) ==> r == Err(InvalidPath(ChildPath(dir.path, name)))
    ensures r.Ok? ==> r.value == ChildItem(dir, Directory, name) && ValidItem(r.value)
    ensures r.Ok? ==> NodeAt(share.root, r.value.path) == Some(Dir(map[]))
    ensures r.Ok? && ValidItem(dir) && dir.kind == Directory && Separator !in name ==>
      GetParentPath(r.value) == Ok(dir) && GetName(r.value.path) == name
  {
    var item := NewItem(dir.rev, Directory, dir.server, dir.share, ChildPath(dir.path, name));
    if item.Err? {
      r := Err(item.error);
      return;
    }
    var s := CreateDirectory(share, item.value);
    if s.Fail? {
      r := Err(s.error);
    } else {
      r := Ok(item.value);
      if ValidItem(dir) && dir.kind == Directory && Separator !in name {
        ChildHasReceiverAsParent(dir, Directory, name);
      }
    }
  }

  /** createFileInCurrentDirectory: builds the child file item and creates it empty (FILE_OVERWRITE_IF). */
  method CreateFileInCurrentDirectory(share: DiskShare, dir: Item, name: string) returns (r: Result<Item>)
    requires share.Valid()
    modifies share
    ensures share.Valid()
    ensures var path := ChildPath(dir.path, name);
      share.root == if IsValidItemName(dir.rev, path) then After(OpenFile(old(share.root), path, FileOverwriteIf), old(share.root)) else old(share.root)
    ensures r.Ok? <==> IsValidItemName(dir.rev, ChildPath(dir.path, name)) && old(OpenFile(share.root, ChildPath(dir.path, name), FileOverwriteIf).Ok?)
    ensures !IsValidItemName(dir.rev, ChildPath(dir.path, name)) ==> r == Err(InvalidPath(ChildPath(dir.path, name)))
    ensures r.Ok? ==> r.value == ChildItem(dir, Kind.File, name) && ValidItem(r.value)
    ensures r.Ok? ==> NodeAt(share.root, r.value.path) == Some(Node.File([]))
    ensures r.Ok? && ValidItem(dir) && dir.kind == Directory && Separator !in name ==>
      GetParentPath(r.value) == Ok(dir) && GetName(r.value.path) == name
  {
    var item := NewItem(dir.rev, Kind.File, dir.server, dir.share, ChildPath(dir.path, name));
    if item.Err? {
      r := Err(item.error);
      return;
    }
    var s := Files.CreateFile(share, item.value);
    if s.Fail? {
      r := Err(s.error);
    } else {
      r := Ok(item.value);
      if ValidItem(dir) && dir.kind == Directory && Separator !in name {
        ChildHasReceiverAsParent(dir, Kind.File, name);
      }
    }
  }
}
