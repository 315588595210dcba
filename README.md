# smbjwrapper, modelled in Dafny

smbjwrapper wraps an SMB disk share (the smbj library) in a small object model. It has items (directories and
files) identified by `/`-separated paths relative to the share root `""`, operations that create, delete, copy,
rename and list them, a connection object that connects lazily and reconnects when stale, and an output stream
that refuses offset writes in append mode. Two revisions coexist: the newer `Smb*` classes and the older
`Shared*` classes. They differ in their name validity check (`SmbUtils` also rejects `"/"`) and in the create
disposition used for reading.

The model has these modules:

- `Outcomes` (outcomes.dfy): the error kinds the wrapper raises, `Result` and `Status`.
- `ItemNames` (names.dfy): the two validity checks.
- `Paths` (paths.dfy): the string algebra of item paths.
  - `getName`, `getParentPath` and `isRootPath`, the child path and the rename path.
  - The UNC rendering `\\server\share\...`.
  - The segments a path resolves to on the share.
- `ShareState` (share.dfy): the share as a finite tree of directories and files (`Node`).
  - The server requests are functions over that tree returning `Result<Node>`: open with the three create
    dispositions of section 2.2.13 of [MS-SMB2] (FILE_OPEN, FILE_OPEN_IF, FILE_OVERWRITE_IF), mkdir, recursive
    rmdir, rm, rename, list, write and server-side copy.
  - The class `DiskShare` holds the current tree. Its `Apply` commits the outcome of a request.
- `Items` (items.dfy): the item value (revision, kind, server, share, path). It covers the validating
  constructor, the parent and root items, the child item and `equals`.
- `PathOrder` (ordering.dfy): the order by path string, and the in-place sort of an item array.
- `Listing` (listing.dfy): the listing engine.
  - It enumerates entries, skips invalid names, classifies each entry, filters by a predicate, optionally
    recurses depth-first with a flat append, and sorts.
  - The methods are proved against a ghost specification `Matches` of the items a listing must contain.
- `OutputStreams` (streams.dfy): the remote file handle that records the calls made on it, and the
  `SmbOutputStream` decorator.
- `Files` (files.dfy): create, delete, server-side copy, input and output streams, and an upload through the
  stream.
- `Directories` (directories.dfy): `ensureExists`, create, recursive delete, and creating children of the
  current directory.
- `Renaming` (rename.dfy): `renameTo` of `SmbDirectory`, `SmbFile` and `SharedDirectory`, each with the target path its
  class builds (`SharedFile` declares no `renameTo`).
- `Connections` (connection.dfy): `SmbConnection` with its two nullable handles, liveness, connect, close and
  reconnect. What the network does on a connect attempt is a parameter (`ConnectOutcome`).

Every state-changing method is tied to the server function it issues: it returns `StatusOf(F(old root))` and
leaves `After(F(old root), old root)`. The lemmas about these functions carry what the operation achieves.

## Model

| member | source | states |
|---|---|---|
| ItemNames.RejectedNames | src/main/java/ch/swaechter/smbjwrapper/utils/SmbUtils.java:16-21 | `"."` and `".."` are rejected by both checks. `"/"` is rejected by the Smb check and accepted by the Shared check. |
| ItemNames.AcceptedNames | src/main/java/ch/swaechter/smbjwrapper/utils/SmbUtils.java:22-23 | `""` (the root), `"a/../b"`, `"./x"`, `"/a"`, `"Directory"` and `"File.txt"` are valid in both revisions. The check compares whole strings, not segments. |
| ItemNames.SmbCheckIsSharedCheckMinusSlash | src/main/java/ch/swaechter/smbjwrapper/utils/ShareUtils.java:16-18 | A name is Smb-valid iff it is Shared-valid and is not `"/"`. |
| Paths.LastIndexOf | src/main/java/ch/swaechter/smbjwrapper/SmbItem.java:117 | The result is -1 iff the character is absent. Otherwise it is a position holding the character, with no occurrence after it. |
| Paths.GetName | src/main/java/ch/swaechter/smbjwrapper/SmbItem.java:115-122 | The name never contains `/`. It is a suffix of the path, and it is the whole path when the path has no `/`. |
| Paths.ParentPath | src/main/java/ch/swaechter/smbjwrapper/SmbItem.java:148-155 | A root path has parent `""`. Otherwise the parent is non-empty and strictly shorter, and parent + `"/"` + name == path. |
| Paths.Segments | src/main/java/ch/swaechter/smbjwrapper/SmbDirectory.java:189-193 | Every segment a path resolves to on the share is a non-empty, `/`-free name. The root path resolves to no segment. |
| Paths.RootPathShape | src/main/java/ch/swaechter/smbjwrapper/SmbItem.java:171-174 | A path is a root path iff it has no `/` or its only `/` is the first character. |
| Paths.RootPathIffParentIsRoot | src/main/java/ch/swaechter/smbjwrapper/core/SharedItem.java:80-85 | A path is a root path iff its parent path is the root `""`. |
| Paths.RootIsOwnParent | src/main/java/ch/swaechter/smbjwrapper/core/SharedItem.java:52-78 | `""` is a root path, is its own parent and has the name `""`. |
| Paths.ParentRemovesOneSeparator | src/main/java/ch/swaechter/smbjwrapper/SmbItem.java:148-155 | Each parent step from a non-root path removes exactly one `/`. |
| Paths.AncestorOfRootPath | src/main/java/ch/swaechter/smbjwrapper/SmbItem.java:148-151 | Any number of parent steps from a root path stays at `""`. |
| Paths.ParentChainReachesRoot | src/main/java/ch/swaechter/smbjwrapper/SmbItem.java:148-155 | As many parent steps as the path has `/` characters reach a root path. |
| Paths.ChildParentAndName | src/main/java/ch/swaechter/smbjwrapper/SmbDirectory.java:63-81 | For a name without `/`, the child path's parent is the directory's path and the child's name is the name. |
| Paths.ChildOfParentAndName | src/main/java/ch/swaechter/smbjwrapper/core/AbstractSharedItem.java:136-143 | Building the child of the parent path, named by the path's name, gives the path back (for paths not starting with `/`). |
| Paths.RenameRoundTrip | src/main/java/ch/swaechter/smbjwrapper/SmbDirectory.java:155-160 | The renamed path has the same parent and the new name. Renaming it back to the old name restores the original path. |
| Paths.RenamedPathAsWrittenBelowTopLevel | src/main/java/ch/swaechter/smbjwrapper/SmbFile.java:114-120 | Below the top level, `parent + "/" + name` as written equals the child path of the parent. |
| Paths.RenamedPathAsWrittenBreaksRoundTrip | src/main/java/ch/swaechter/smbjwrapper/SmbFile.java:116 | As written, `"File1"` renamed to `"File1New"` gives `"/File1New"`, and renaming back gives `"/File1"`, not `"File1"`. The corrected path returns `"File1"`. |
| Paths.RenamedPathAsWrittenAtTopLevel | src/main/java/ch/swaechter/smbjwrapper/SmbFile.java:116 | At the top level the as-written target is `"/" + newName`. It is still a root path named `newName`, and it resolves on the share to the single segment `newName`. |
| Paths.SegmentsOfChild | src/main/java/ch/swaechter/smbjwrapper/SmbDirectory.java:191 | The child path built for a listed entry resolves to the directory's segments followed by the entry's name. |
| Paths.UncPathDeterminesPath | src/main/java/ch/swaechter/smbjwrapper/core/AbstractSharedItem.java:127-131 | For paths without backslashes, on one server and share, the UNC paths are equal iff the paths are equal. |
| Paths.UncPathExamples | src/main/java/ch/swaechter/smbjwrapper/SmbItem.java:138-141 | The root renders as `\\server\share`, `"File1.txt"` as `\\server\share\File1.txt`, and `"Dir/File1.txt"` as `\\server\share\Dir\File1.txt`. |
| Paths.SegmentsOfJoin | src/main/java/ch/swaechter/smbjwrapper/SmbDirectory.java:186-199 | A path built by descending through entry names resolves to the directory's segments followed by those names. |
| ShareState.ExistenceProbes | src/main/java/ch/swaechter/smbjwrapper/SmbItem.java:58-77 | A path never holds both a directory and a file. `isExisting` holds iff some entry is at the path. |
| ShareState.OpenFileEffect | src/main/java/ch/swaechter/smbjwrapper/SmbFile.java:38-41 | FILE_OPEN succeeds only on an existing file and changes nothing. FILE_OPEN_IF keeps an existing file and creates a missing one empty. FILE_OVERWRITE_IF leaves an empty file either way. A directory is refused, and nothing outside the path changes. |
| ShareState.MakeDirectoryEffect | src/main/java/ch/swaechter/smbjwrapper/SmbDirectory.java:86-88 | mkdir succeeds iff nothing is at the path and its parent is a directory. It leaves an empty directory there and nothing else changes. |
| ShareState.RemoveDirectoryEffect | src/main/java/ch/swaechter/smbjwrapper/SmbDirectory.java:93-95 | The recursive rmdir succeeds iff a directory other than the root is at the path. Afterwards nothing is at or below the path, and nothing outside changes. |
| ShareState.RemoveFileEffect | src/main/java/ch/swaechter/smbjwrapper/SmbFile.java:46-48 | rm succeeds iff a file is at the path. Afterwards nothing is there, and nothing outside changes. |
| ShareState.RenameEffect | src/main/java/ch/swaechter/smbjwrapper/SmbItem.java:243-250 | A rename fails when the source is missing, when the target exists without the replace flag, and when the target has the other kind. On success the entry moves to the target and leaves the source, and unrelated entries are unchanged. |
| ShareState.CopyContentEffect | src/main/java/ch/swaechter/smbjwrapper/SmbFile.java:59-66 | The remote copy succeeds iff both paths hold files. Afterwards the destination holds the source's bytes at the source's size. |
| ShareState.AppendToFileEffect | src/main/java/ch/swaechter/smbjwrapper/streams/SmbOutputStream.java:50-79 | A write succeeds iff a file is at the path. It appends exactly its bytes and changes nothing else. |
| Items.NewItem | src/main/java/ch/swaechter/smbjwrapper/SmbItem.java:44-51 | Construction gives an item iff the path is valid for the revision. Otherwise it gives `InvalidPath` and no item. |
| Items.GetRootPath | src/main/java/ch/swaechter/smbjwrapper/SmbItem.java:162-164 | The root item is a valid directory at `""` on the same server and share. |
| Items.GetParentPath | src/main/java/ch/swaechter/smbjwrapper/SmbItem.java:148-155 | A root path gives the root directory. Otherwise it gives a directory at the prefix before the last `/`, or `InvalidPath` when that prefix is not a valid path. |
| Items.RootItemContract | src/main/java/ch/swaechter/smbjwrapper/core/SharedItem.java:52-78 | The root item has name `""` and path `""`, and its parent and root are the root item. |
| Items.TopLevelFileHasRootParent | src/main/java/ch/swaechter/smbjwrapper/SmbItem.java:148-151 | A top-level item such as `"File1.txt"` is a root path, and its parent is the root directory. |
| Items.ChildHasReceiverAsParent | src/main/java/ch/swaechter/smbjwrapper/SmbDirectory.java:63-81 | A child built with a `/`-free name has the receiving directory as its parent. |
| Items.ParentOfDotPrefixFails | src/main/java/ch/swaechter/smbjwrapper/SmbItem.java:148-151 | The parent of `"./x"` would be at `"."`, which is invalid, so it fails with `InvalidPath(".")`. |
| Items.EqualsIsEquivalence | src/main/java/ch/swaechter/smbjwrapper/SmbDirectory.java:170-177 | `equals` is reflexive, symmetric and transitive. |
| Items.DirectoryNeverEqualsFile | src/main/java/ch/swaechter/smbjwrapper/SmbFile.java:129-136 | A directory never equals a file, even at the same path. |
| Items.EqualsIffSameLocation | src/main/java/ch/swaechter/smbjwrapper/SharedFile.java:106-113 | On one server and share, for paths without backslashes, two items are equal iff they have the same revision, class and path. |
| PathOrder.PathLeReflexive | src/main/java/ch/swaechter/smbjwrapper/SmbDirectory.java:228-231 | The order by path string is reflexive. |
| PathOrder.PathLeTotal | src/main/java/ch/swaechter/smbjwrapper/SmbDirectory.java:228-231 | Any two paths are comparable. |
| PathOrder.PathLeTransitive | src/main/java/ch/swaechter/smbjwrapper/SmbDirectory.java:228-231 | The order is transitive. |
| PathOrder.PathLeAntisymmetric | src/main/java/ch/swaechter/smbjwrapper/SmbDirectory.java:228-231 | Paths ordered both ways are equal. |
| PathOrder.PrefixSortsFirst | src/main/java/ch/swaechter/smbjwrapper/SmbDirectory.java:228-231 | A path sorts before every path it is a prefix of. |
| PathOrder.OrderExample | src/test/java/ch/swaechter/smbjwrapper/SmbDirectoryTest.java:404-405 | `"X/Dir1/Dir2/File1"` sorts before `"X/File1"`. |
| PathOrder.SortItems | src/main/java/ch/swaechter/smbjwrapper/SmbDirectory.java:228-231 | After the in-place sort the array is non-decreasing by path and is a permutation of its old contents. |
| PathOrder.SortedListingIsUnique | src/main/java/ch/swaechter/smbjwrapper/SharedDirectory.java:232-235 | Two sorted sequences with pairwise distinct paths and the same elements are identical. |
| Listing.ListEntry | src/main/java/ch/swaechter/smbjwrapper/SmbDirectory.java:190-203 | One entry contributes exactly its specified matches. These are none for an invalid name, the matching item itself, and, when recursing into a directory, the matches of its subtree. |
| Listing.InternallyListItems | src/main/java/ch/swaechter/smbjwrapper/SmbDirectory.java:186-207 | The loop over all entries collects exactly the specified matches of the directory, as a multiset. |
| Listing.ListExisting | src/main/java/ch/swaechter/smbjwrapper/SharedDirectory.java:190-211 | Listing an existing directory gives its matches, sorted by path. |
| Listing.ListItems | src/main/java/ch/swaechter/smbjwrapper/SmbDirectory.java:134-136 | The listing succeeds iff a directory is at the path, and otherwise carries the list error. On success it is sorted and is exactly the specified matches. |
| Listing.ListAllItems | src/main/java/ch/swaechter/smbjwrapper/SmbDirectory.java:122-124 | With the always-true predicate the non-recursive listing holds exactly the valid direct children, each typed by its entry kind, sorted. |
| Listing.ListItemsMatching | src/main/java/ch/swaechter/smbjwrapper/SmbDirectory.java:146-149 | The pattern listing is exactly the matches of "name fully matches the pattern", sorted, and every listed name matches. |
| Listing.GetDirectories | src/main/java/ch/swaechter/smbjwrapper/SmbDirectory.java:102-105 | Only directories are listed, sorted, and exactly the valid direct child directories. |
| Listing.GetFiles | src/main/java/ch/swaechter/smbjwrapper/SmbDirectory.java:112-115 | Only files are listed, sorted, and exactly the valid direct child files. |
| Listing.MatchesBelow | src/main/java/ch/swaechter/smbjwrapper/SmbDirectory.java:186-199 | Every listed item lies strictly below the listed directory. |
| Listing.EntryMatchesBelow | src/main/java/ch/swaechter/smbjwrapper/SmbDirectory.java:194-199 | An entry's matches lie under that entry. They are either the entry's own item or deeper. |
| Listing.EntryMatchesDisjoint | src/main/java/ch/swaechter/smbjwrapper/SmbDirectory.java:189-205 | Different entries contribute disjoint matches. |
| Listing.OwnItemNotBelow | src/main/java/ch/swaechter/smbjwrapper/SmbDirectory.java:196-198 | A directory's own item is not among its subtree's matches, so the flat append repeats nothing. |
| Listing.MatchesAccepted | src/main/java/ch/swaechter/smbjwrapper/SmbDirectory.java:216-220 | Every listed item satisfies the predicate. |
| Listing.DirectListingMembership | src/main/java/ch/swaechter/smbjwrapper/SmbDirectory.java:186-207 | An item is in the non-recursive listing iff it is the item of a validly named direct child that satisfies the predicate. |
| Listing.ListedThroughIsListed | src/main/java/ch/swaechter/smbjwrapper/SmbDirectory.java:194-199 | An item reached through a chain of valid directories below the listed one, satisfying the predicate, is in the recursive listing. |
| Listing.ListedIsListedThrough | src/main/java/ch/swaechter/smbjwrapper/SmbDirectory.java:194-199 | Every item of the recursive listing is reached through such a chain. |
| Listing.RecursiveListingMembership | src/main/java/ch/swaechter/smbjwrapper/SharedDirectory.java:198-203 | An item is in the recursive listing iff some chain of valid names reaches it and it satisfies the predicate. |
| Listing.DirectWithinRecursive | src/main/java/ch/swaechter/smbjwrapper/SmbDirectory.java:194-199 | Every item of the non-recursive listing is also in the recursive one. |
| Listing.ListedPathDeterminesItem | src/main/java/ch/swaechter/smbjwrapper/SmbDirectory.java:191-202 | Two listed items with the same path are the same item. |
| Listing.NoRepeats | src/main/java/ch/swaechter/smbjwrapper/SmbDirectory.java:186-207 | A listing holds no item twice. |
| Listing.ListingIsDeterministic | src/main/java/ch/swaechter/smbjwrapper/SmbDirectory.java:228-231 | Two sorted listings of the same matches are identical, whatever order the server returns entries in. |
| OutputStreams.LowByte | src/main/java/ch/swaechter/smbjwrapper/streams/SmbOutputStream.java:50-52 | The byte written by `write(int)` is the value itself when it fits, and in general agrees with it modulo 256. |
| OutputStreams.SmbOutputStream.constructor | src/main/java/ch/swaechter/smbjwrapper/streams/SmbOutputStream.java:37-41 | It opens the file's stream with the same append flag and records that flag. |
| OutputStreams.SmbOutputStream.WriteByte | src/main/java/ch/swaechter/smbjwrapper/streams/SmbOutputStream.java:50-52 | It forwards exactly one byte and appends it to the file. |
| OutputStreams.SmbOutputStream.WriteAll | src/main/java/ch/swaechter/smbjwrapper/streams/SmbOutputStream.java:61-63 | Whatever the append flag, it forwards the whole array as one `(0, length)` write and appends all of it. |
| OutputStreams.SmbOutputStream.Write | src/main/java/ch/swaechter/smbjwrapper/streams/SmbOutputStream.java:74-79 | In append mode it fails with an IOException and forwards nothing. Otherwise it forwards exactly the slice, or fails on a bad range with the share unchanged. |
| OutputStreams.SmbOutputStream.Flush | src/main/java/ch/swaechter/smbjwrapper/streams/SmbOutputStream.java:85-87 | It forwards one flush and nothing else. |
| OutputStreams.SmbOutputStream.Close | src/main/java/ch/swaechter/smbjwrapper/streams/SmbOutputStream.java:93-97 | It performs flush, close stream and close file, in that order and exactly once each. |
| Files.ReadDisposition | src/main/java/ch/swaechter/smbjwrapper/SmbFile.java:73-76 | Reading never overwrites. It uses FILE_OPEN exactly in the Smb revision (FILE_OPEN_IF in the Shared one, see SharedFile.java:73-76). |
| Files.WriteDisposition | src/main/java/ch/swaechter/smbjwrapper/SmbFile.java:95-99 | Writing always may create. It keeps the content (FILE_OPEN_IF) exactly when appending. |
| Files.CreateFile | src/main/java/ch/swaechter/smbjwrapper/SmbFile.java:38-41 | It succeeds iff a file is at the path, or nothing is and the parent is a directory. Afterwards the file is empty, discarding previous content. |
| Files.DeleteFile | src/main/java/ch/swaechter/smbjwrapper/SmbFile.java:46-48 | It succeeds iff a file is at the path. Afterwards nothing exists there. |
| Files.CopyAfterOpens | src/main/java/ch/swaechter/smbjwrapper/SmbFile.java:62-64 | Once both files are open, the copy succeeds and the destination holds the source's bytes. |
| Files.ServerSideCopySucceeds | src/main/java/ch/swaechter/smbjwrapper/SmbFile.java:59-66 | The copy succeeds iff both opens succeed. In the Smb revision a missing source fails with the open's error and leaves the share unchanged. |
| Files.ServerSideCopyContent | src/main/java/ch/swaechter/smbjwrapper/SharedFile.java:60-66 | After a successful copy the destination exists and holds the same bytes as the source, so it has the source's size. An existing destination is overwritten. |
| Files.ServerSideCopyFrame | src/main/java/ch/swaechter/smbjwrapper/SmbFile.java:59-66 | Entries unrelated to both paths are unchanged by the copy. |
| Files.CopyFileViaServerSideCopy | src/main/java/ch/swaechter/smbjwrapper/SmbFile.java:59-66 | The method's status and resulting share are those of the copy specification. |
| Files.GetInputStream | src/main/java/ch/swaechter/smbjwrapper/SmbFile.java:73-76 | It reads the content after the open. In the Smb revision the share is unchanged, and it succeeds iff the file exists, so an absent file is not created. |
| Files.GetOutputStream | src/main/java/ch/swaechter/smbjwrapper/SmbFile.java:95-99 | It opens with the write disposition and gives a fresh stream with the requested append flag. The file is truncated unless appending. |
| Files.GetOverwritingOutputStream | src/main/java/ch/swaechter/smbjwrapper/SmbFile.java:84-86 | It is the output stream with append false. |
| Files.GetSharedOutputStream | src/main/java/ch/swaechter/smbjwrapper/SharedFile.java:84-87 | The Shared revision always opens with FILE_OVERWRITE_IF. |
| Files.Upload | src/test/java/ch/swaechter/smbjwrapper/SmbFileTest.java:84-105 | After writing bytes through a stream and closing it, the file holds exactly those bytes. When appending to an existing file it holds the old bytes followed by them. Nothing else changes, and a failed open changes nothing. |
| Directories.EnsureDirectoryEffect | src/main/java/ch/swaechter/smbjwrapper/SmbDirectory.java:49-55 | An absent path is created as a directory. An existing directory is left unchanged. A file fails with the IllegalStateException message and the share unchanged. |
| Directories.EnsureDirectoryIdempotent | src/main/java/ch/swaechter/smbjwrapper/SharedDirectory.java:51-57 | After a successful ensureExists, a second call succeeds and changes nothing. |
| Directories.EnsureExists | src/main/java/ch/swaechter/smbjwrapper/SmbDirectory.java:49-55 | The method's status and resulting share are those of the three-way decision. |
| Directories.CreateDirectory | src/main/java/ch/swaechter/smbjwrapper/SmbDirectory.java:86-88 | It succeeds iff nothing is at the path and the parent is a directory. Afterwards an empty directory is there. |
| Directories.DeleteDirectoryRecursively | src/main/java/ch/swaechter/smbjwrapper/SmbDirectory.java:93-95 | It succeeds iff a directory other than the root is at the path. Afterwards nothing is at or below it. |
| Directories.CreateDirectoryInCurrentDirectory | src/main/java/ch/swaechter/smbjwrapper/SmbDirectory.java:63-68 | An invalid child path fails with `InvalidPath`. Otherwise the result is the child directory item, now existing as an empty directory, whose parent is the receiver and whose name is the given name. |
| Directories.CreateFileInCurrentDirectory | src/main/java/ch/swaechter/smbjwrapper/SmbDirectory.java:76-81 | The same for an empty file created under the receiver. |
| Renaming.RenameTargetIsSibling | src/main/java/ch/swaechter/smbjwrapper/SmbFile.java:116 | For a `/`-free, non-empty new name, the target of every class has the item's parent and the new name, and the server resolves it to the same entry as the child of the parent path. |
| Renaming.RenameTargetAtTopLevel | src/main/java/ch/swaechter/smbjwrapper/SharedDirectory.java:150 | For a top-level item, `SmbFile` and `SharedDirectory` target `"/" + newName` (so `"File1"` renamed to `"File1New"` comes back at `"/File1New"`), while `SmbDirectory` targets `newName`. |
| Renaming.OpenForRenameEffect | src/main/java/ch/swaechter/smbjwrapper/SmbDirectory.java:156 | Opening for rename changes nothing, and succeeds iff an entry of the item's kind is at the path. |
| Renaming.RenameTo | src/main/java/ch/swaechter/smbjwrapper/SmbFile.java:114-120 | A failed open leaves the share unchanged. Otherwise the server renames the entry to the class's target path. That is `parent + "/" + name` for `SmbFile` and `SharedDirectory` (SharedDirectory.java:148-154), and the child of the parent for `SmbDirectory` (SmbDirectory.java:155-160). A successful rename returns a new item of the same kind at exactly that path, holding the old entry. |
| Renaming.RenameRefusals | src/test/java/ch/swaechter/smbjwrapper/SmbFileTest.java:142-162 | The rename fails on an existing target without the replace flag, and on a target of the other kind. |
| Connections.SmbConnection.Delayed | src/main/java/ch/swaechter/smbjwrapper/SmbConnection.java:93-103 | The delayed constructor records its arguments and leaves both handles null, so the connection is not alive. |
| Connections.SmbConnection.ConnectToServer | src/main/java/ch/swaechter/smbjwrapper/SmbConnection.java:185-189 | An unreachable server leaves both handles. A refusal leaves a fresh transport without a share. A successful connect replaces both handles and makes the connection alive. |
| Connections.SmbConnection.Close | src/main/java/ch/swaechter/smbjwrapper/SmbConnection.java:174-178 | It closes the transport only when it is non-null and connected, and is safe otherwise. Afterwards the connection is not alive. |
| Connections.SmbConnection.EnsureConnectionIsAlive | src/main/java/ch/swaechter/smbjwrapper/SmbConnection.java:161-166 | It is a no-op when alive. Otherwise it closes and reconnects, succeeding iff the connect succeeds, and is alive afterwards on success. |
| Connections.SmbConnection.GetDiskShare | src/main/java/ch/swaechter/smbjwrapper/SmbConnection.java:111-121 | When alive it hands out the current share. Otherwise it succeeds iff the reconnect does. An IOException becomes "Unable to initialize the delayed connection". |
| Connections.Create | src/main/java/ch/swaechter/smbjwrapper/SmbConnection.java:93-103 | Delayed: a connection that is not alive. Eager: it succeeds iff the connect does, and is then alive. The arguments are recorded either way. |
| Connections.Connect | src/main/java/ch/swaechter/smbjwrapper/SmbConnection.java:58-75 | The three- and four-argument constructors connect at once and are alive on success. |
| Connections.ReconnectAfterIdleTimeout | src/test/java/ch/swaechter/smbjwrapper/SmbConnectionTest.java:57-74 | The connection is not alive before the first call and alive after it. It is not alive after the server drops the transport, alive again after the next call, and then hands out a share. |

## Left out

- Network I/O, authentication and the SMB protocol are not modelled. A connect attempt is a parameter: unreachable, refused or connected.
- Exception classes: an unreachable server is taken to raise an IOException and a refusal an unchecked exception, since the library that raises them is not part of this model.
- Server semantics are given as functions on a tree, because the wrapper only passes paths to the server. This covers mkdir, recursive rmdir, rm, rename conflicts, remote copy and the dispositions.
- `"."` and `".."` inside a path are not resolved by the server model.
- Concurrency and thread safety are not modelled. Each item operation takes the share state directly, not through a `getDiskShare()` reconnect per call.
- Timestamps, the hidden attribute and `getFileSize` are not modelled, because they are server metadata. The file's size appears as the length of its bytes.
- The regular expression is an uninterpreted predicate on the name (`pattern`), because regex matching is outside the model.
- The order of entries returned by the server is not modelled. Listings are specified up to permutation before the sort.
- PathOrder.PathLe: compares strings by code point, not by UTF-16 code unit as Java's `compareTo` does; the two differ only on characters outside the Basic Multilingual Plane.
- `SmbPath.toUncPath` of smbj is modelled by the format the tests show (`\\server\share\` and the path with `\` separators), not by the library.
- Files.GetInputStream: returns the file's whole content instead of a stream. Reading through `SmbInputStream` and `SharedInputStream` is not modelled.
- `SharedOutputStream` is not modelled beyond the overwrite open, and `SharedConnection` is not modelled. Both are one-line delegations to the library.
- OutputStreams.RemoteFile: every write lands at the end of the file's bytes at once. The data stream's own offset and its buffer, which reaches the server only on flush or close, are not modelled. Writes through two handles open on one file at the same time are therefore not captured: a write through an overwriting stream opened earlier does not overwrite bytes another handle wrote meanwhile.
- Handle closing after copy and rename, and I/O failures of flush and close, are not modelled. Neither is using a stream after it was closed.
- `SmbUtils.buildSmbItemFromUncPath` and `CreationStrategy` are not part of this model; the former is not present in the repository's SmbUtils.java.
- `buildProperItemPath`, called at SmbDirectory.java:157, is not defined in the repository's sources. It is modelled by the child path of the parent, which agrees with SmbDirectoryTest.java:314-316.
- `renameTo` on `SharedFile` is not declared in SharedFile.java and is not modelled.

## Findings

| source | as written | input that shows it | evidently intended | confidence | as-written member | corrected member |
|---|---|---|---|---|---|---|
| src/main/java/ch/swaechter/smbjwrapper/SmbFile.java:114-120 | the target path is `getParentPath().getPath() + "/" + newName`, and the same at SharedDirectory.java:148-154 | renaming the top-level file `"File1"` to `"File1New"` targets `"/File1New"`, and renaming that back targets `"/File1"`, not `"File1"` | the target is the child of the parent path (`newName` at the top level), so renaming back restores the path | not executed | Paths.RenamedPathAsWrittenBreaksRoundTrip | Paths.RenameRoundTrip |

`Renaming.RenameTo` keeps the as-written target for `SmbFile` and `SharedDirectory`, as the source does, so the item it returns sits at `"/File1New"`. `Renaming.RenameTargetIsSibling` shows the server still resolves that path to the intended entry. `SmbDirectory` uses the corrected child path.
