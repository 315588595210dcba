/**
 * Items of both revisions: SmbItem with SmbDirectory/SmbFile, and AbstractSharedItem with
 * SharedDirectory/SharedFile (the node contract of SharedItem). All their fields are final,
 * so an item is a value; parents, roots, children and rename results are new values.
 */
module Items {
  import opened Outcomes
  import opened ItemNames
  import opened Paths

  datatype Kind = Directory | File

  /** An item: its revision, its class (directory or file), its connection's server and share, and its path. */
  datatype Item = Item(rev: Revision, kind: Kind, server: string, share: string, path: string)

  /** The validating constructor: an invalid path raises "The given path name is not a valid ... path". */
  function NewItem(rev: Revision, kind: Kind, server: string, share: string, path: string): (r: Result<Item>)
    ensures r.Ok? <==> IsValidItemName(rev, path)
    ensures r.Ok? ==> r.value == Item(rev, kind, server, share, path)
    ensures r.Err? ==> r.error == InvalidPath(path)
  {
    if IsValidItemName(rev, path) then Ok(Item(rev, kind, server, share, path)) else Err(InvalidPath(path))
  }

  /** An item that its constructor accepted. */
  predicate ValidItem(item: Item) {
    IsValidItemName(item.rev, item.path)
  }

  /** getSmbPath */
  function GetSmbPath(item: Item): string {
    UncPath(item.server, item.share, item.path)
  }

  /** getRootPath: a directory at the root path on the same connection. */
  function GetRootPath(item: Item): (root: Item)
    ensures ValidItem(root) && root.kind == Directory && IsRootPath(root.path) && GetName(root.path) == ""
    ensures root.rev == item.rev && root.server == item.server && root.share == item.share
  {
    Item(item.rev, Directory, item.server, item.share, RootPath)
  }

  /**
   * getParentPath: the root for a root path, otherwise a directory at the prefix before the
   * last separator, built through the validating constructor (createSharedNodeItem in the
   * Shared revision). That constructor fails when the prefix itself is an invalid name.
   */
  function GetParentPath(item: Item): (r: Result<Item>)
    ensures IsRootPath(item.path) ==> r == Ok(GetRootPath(item))
    ensures r.Ok? ==> ValidItem(r.value) && r.value.kind == Directory && r.value.path == ParentPath(item.path)
    ensures r.Ok? ==> r.value.rev == item.rev && r.value.server == item.server && r.value.share == item.share
    ensures r.Err? <==> !IsValidItemName(item.rev, ParentPath(item.path))
    ensures !IsRootPath(item.path) && r.Ok? ==> r.value.path + [Separator] + GetName(item.path) == item.path
  {
    if !IsRootPath(item.path) then
      NewItem(item.rev, Directory, item.server, item.share, ParentPath(item.path))
    else
      Ok(GetRootPath(item))
  }

  /** The child of a directory built by create*InCurrentDirectory and by the listing. */
  function ChildItem(dir: Item, kind: Kind, name: string): Item {
    Item(dir.rev, kind, dir.server, dir.share, ChildPath(dir.path, name))
  }

  /**
   * equals: true only against an object of the same class (SmbDirectory, SmbFile,
   * SharedDirectory or SharedFile) whose UNC path is the same string.
   */
  predicate Equals(item: Item, other: Item) {
    item.rev == other.rev && item.kind == other.kind && GetSmbPath(item) == GetSmbPath(other)
  }

  // ---------------------------------------------------------------------------------------------
  // Laws

  /** The SharedItem contract for the root item: empty name and path, its own parent and its own root. */
  lemma RootItemContract(rev: Revision, server: string, share: string)
    ensures var root := Item(rev, Directory, server, share, RootPath);
      ValidItem(root) && GetName(root.path) == "" && root.path == "" && IsRootPath(root.path) &&
      GetParentPath(root) == Ok(root) && GetRootPath(root) == root &&
      GetSmbPath(root) == "\\\\" + server + "\\" + share
  {
  }

  /** A top-level file is a root path; its parent is the root directory. */
  lemma TopLevelFileHasRootParent(rev: Revision, server: string, share: string, name: string)
    requires IsSegment(name)
    ensures var file := Item(rev, File, server, share, name);
      IsRootPath(file.path) && GetParentPath(file) == Ok(Item(rev, Directory, server, share, RootPath))
  {
  }

  /** A child created in a directory has that directory (as a directory item) as parent. */
  lemma ChildHasReceiverAsParent(dir: Item, kind: Kind, name: string)
    requires ValidItem(dir) && dir.kind == Directory && Separator !in name
    ensures GetParentPath(ChildItem(dir, kind, name)) == Ok(dir)
    ensures GetName(ChildItem(dir, kind, name).path) == name
  {
    ChildParentAndName(dir.path, name);
  }

  /** The parent is refused when the prefix before the last separator is "." even though the path itself is valid. */
  lemma ParentOfDotPrefixFails(rev: Revision, server: string, share: string)
    ensures ValidItem(Item(rev, File, server, share, "./x"))
    ensures GetParentPath(Item(rev, File, server, share, "./x")) == Err(InvalidPath("."))
  {
    LastIndexOfJoin(".", Separator, "x");
    assert "./x" == "." + [Separator] + "x";
  }

  /** equals is an equivalence relation. */
  lemma EqualsIsEquivalence(a: Item, b: Item, c: Item)
    ensures Equals(a, a)
    ensures Equals(a, b) ==> Equals(b, a)
    ensures Equals(a, b) && Equals(b, c) ==> Equals(a, c)
  {
  }

  /** A directory never equals a file, whatever their paths. */
  lemma DirectoryNeverEqualsFile(d: Item, f: Item)
    requires d.kind == Directory && f.kind == File
    ensures !Equals(d, f) && !Equals(f, d)
  {
  }

  /**
   * On one server and share, and for paths without backslashes, two items are equal exactly
   * when they have the same revision, class and path.
   */
  lemma EqualsIffSameLocation(a: Item, b: Item)
    requires a.server == b.server && a.share == b.share
    requires '\\' !in a.path && '\\' !in b.path
    ensures Equals(a, b) <==> a.rev == b.rev && a.kind == b.kind && a.path == b.path
  {
    UncPathDeterminesPath(a.server, a.share, a.path, b.path);
  }
}
