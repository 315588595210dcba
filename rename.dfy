/**
 * renameTo of SmbDirectory, SmbFile and SharedDirectory: hold the item open with FILE_OPEN,
 * compute the target path from the parent, ask the server to rename, and return a new item
 * at the target path. The receiver is a value and keeps its path. SharedFile declares no
 * renameTo.
 */
module Renaming {
  import opened Outcomes
  import opened ItemNames
  import opened Paths
  import opened ShareState
  import opened Items

  /** The handle renameTo holds: openDirectory for a directory, openFile for a file, both FILE_OPEN. */
  function OpenForRename(root: Node, item: Item): Result<Node> {
    if item.kind == Directory then OpenDirectory(root, item.path) else OpenFile(root, item.path, FileOpen)
  }

  /**
   * The target path each class builds: SmbDirectory.renameTo builds the child of the parent
   * path; SmbFile.renameTo and SharedDirectory.renameTo concatenate the parent path, a
   * separator and the new name, which gives "/name" for a top-level item.
   */
  function RenameTarget(item: Item, newName: string): string {
    if item.rev == SmbRevision && item.kind == Directory then RenamedPath(item.path, newName)
    else RenamedPathAsWritten(item.path, newName)
  }

  /**
   * Whichever builder the class uses, the target is a sibling of the item carrying the new
   * name, and the server resolves it to the same entry as the corrected child path.
   */
  lemma RenameTargetIsSibling(item: Item, newName: string)
    requires IsSegment(newName)
    ensures ParentPath(RenameTarget(item, newName)) == ParentPath(item.path)
    ensures GetName(RenameTarget(item, newName)) == newName
    ensures Segments(RenameTarget(item, newName)) == Segments(RenamedPath(item.path, newName))
  {
    var parent := ParentPath(item.path);
    ChildParentAndName(parent, newName);
    if !(item.rev == SmbRevision && item.kind == Directory) {
      RootPathIffParentIsRoot(item.path);
      if IsRootPath(item.path) {
        RenamedPathAsWrittenAtTopLevel(item.path, newName);
        SegmentsOfChild(RootPath, newName);
      } else {
        RenamedPathAsWrittenBelowTopLevel(item.path, newName);
      }
    }
  }

  /**
   * For a top-level item the classes disagree: SmbFile and SharedDirectory target the new
   * name behind a separator ("File1" renamed to "File1New" comes back at "/File1New"), while
   * SmbDirectory targets the new name itself.
   */
  lemma RenameTargetAtTopLevel(item: Item, newName: string)
    requires IsSegment(item.path) && IsSegment(newName)
    ensures RenameTarget(item, newName) ==
      if item.rev == SmbRevision && item.kind == Directory then newName else [Separator] + newName
  {
    RootPathShape(item.path);
    RootPathIffParentIsRoot(item.path);
    if !(item.rev == SmbRevision && item.kind == Directory) {
      RenamedPathAsWrittenAtTopLevel(item.path, newName);
    }
  }

  /** Holding the handle changes nothing, and it can be had exactly when an entry of the item's kind exists. */
  lemma OpenForRenameEffect(root: Node, item: Item)
    requires ValidShare(root)
    ensures OpenForRename(root, item).Ok? ==> OpenForRename(root, item) == Ok(root)
    ensures OpenForRename(root, item).Ok? <==>
      if item.kind == Directory then IsDirectoryAt(root, item.path) else IsFileAt(root, item.path)
  {
    OpenFileEffect(root, item.path, FileOpen);
  }

  /**
   * renameTo(newName, replaceIfExist), with the target path built by RenameTarget. Every failure
   * before the server's rename leaves the share as it was; a refused rename does too, so the
   * item is still found at its old path.
   */
  method RenameTo(share: DiskShare, item: Item, newName: string, replaceIfExist: bool) returns (r: Result<Item>)
    requires share.Valid()
    requires item.rev == SmbRevision || item.kind == Directory
    modifies share
    ensures share.Valid()
    ensures OpenForRename(old(share.root), item).Err? ==>
      r == Err(OpenForRename(old(share.root), item).error) && share.root == old(share.root)
    ensures OpenForRename(old(share.root), item).Ok? && GetParentPath(item).Err? ==>
      r == Err(GetParentPath(item).error) && share.root == old(share.root)
    ensures OpenForRename(old(share.root), item).Ok? && GetParentPath(item).Ok? ==>
      var moved := Rename(old(share.root), item.path, RenameTarget(item, newName), replaceIfExist);
      share.root == After(moved, old(share.root)) &&
      (moved.Err? ==> r == Err(moved.error)) &&
      (moved.Ok? ==> r == NewItem(item.rev, item.kind, item.server, item.share, RenameTarget(item, newName)))
    ensures r.Ok? ==> r.value == Item(item.rev, item.kind, item.server, item.share, RenameTarget(item, newName))
    ensures r.Ok? ==> ValidItem(r.value) && NodeAt(share.root, r.value.path) == old(NodeAt(share.root, item.path))
  {
    OpenForRenameEffect(share.root, item);
    var handle := OpenForRename(share.root, item);
    if handle.Err? {
      r := Err(handle.error);
      return;
    }
    var parent := GetParentPath(item);
    if parent.Err? {
      r := Err(parent.error);
      return;
    }
    var newPath := RenameTarget(item, newName);
    RenameEffect(share.root, item.path, newPath, replaceIfExist);
    var s := share.Apply(Rename(share.root, item.path, newPath, replaceIfExist));
    if s.Fail? {
      r := Err(s.error);
      return;
    }
    r := NewItem(item.rev, item.kind, item.server, item.share, newPath);
  }

  /**
   * The two refusals renameTo documents: an existing target without the replace flag, and a
   * target of the other kind even with it. In both the share is unchanged, so the item still
   * exists at its old path.
   */
  lemma RenameRefusals(root: Node, item: Item, newName: string, replaceIfExist: bool)
    requires ValidShare(root)
    ensures var target := RenameTarget(item, newName);
      IsExistingAt(root, target) && Segments(item.path) != Segments(target) && !replaceIfExist ==>
        Rename(root, item.path, target, replaceIfExist).Err?
    ensures var target := RenameTarget(item, newName);
      (item.kind == Directory && IsDirectoryAt(root, item.path) && IsFileAt(root, target)) ||
      (item.kind == Kind.File && IsFileAt(root, item.path) && IsDirectoryAt(root, target)) ==>
        Rename(root, item.path, target, replaceIfExist).Err?
  {
    RenameEffect(root, item.path, RenameTarget(item, newName), replaceIfExist);
  }
}
