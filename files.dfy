/**
 * SmbFile and SharedFile: create, delete, server-side copy, and the streams that read and
 * write a file. Each operation opens the file with one of the create dispositions of section
 * 2.2.13 of [MS-SMB2]; the revisions differ in the disposition some of them use.
 */
module Files {
  import opened Outcomes
  import opened ItemNames
  import opened Paths
  import opened ShareState
  import opened Items
  import opened OutputStreams

  /**
   * How the source of a copy and a file opened for reading are opened: SmbFile requires
   * the file to exist (FILE_OPEN), SharedFile creates a missing one empty (FILE_OPEN_IF).
   */
  function ReadDisposition(rev: Revision): (d: Disposition)
    ensures d != FileOverwriteIf
    ensures d == FileOpen <==> rev == SmbRevision
  {
    if rev == SmbRevision then FileOpen else FileOpenIf
  }

  /** How getOutputStream(append) opens the file: FILE_OPEN_IF keeps the content, FILE_OVERWRITE_IF empties it. */
  function WriteDisposition(append: bool): (d: Disposition)
    ensures d != FileOpen
    ensures d == FileOpenIf <==> append
  {
    if append then FileOpenIf else FileOverwriteIf
  }

  /** The bytes a file holds after an open with `d` that succeeds on `root`. */
  function ContentAfterOpen(root: Node, path: string, d: Disposition): seq<uint8> {
    if d != FileOverwriteIf && IsFileAt(root, path) then NodeAt(root, path).value.data else []
  }

  /** createFile: FILE_OVERWRITE_IF, so afterwards an empty file is at the path, whatever was there before. */
  method CreateFile(share: DiskShare, file: Item) returns (s: Status)
    requires share.Valid()
    modifies share
    ensures share.Valid()
    ensures s == StatusOf(OpenFile(old(share.root), file.path, FileOverwriteIf))
    ensures share.root == After(OpenFile(old(share.root), file.path, FileOverwriteIf), old(share.root))
    ensures s.Pass? <==> old(IsFileAt(share.root, file.path) ||
      (!IsExistingAt(share.root, file.path) && HasParentDirectory(share.root, Segments(file.path))))
    ensures s.Pass? ==> NodeAt(share.root, file.path) == Some(Node.File([]))
  {
    ExistenceProbes(share.root, file.path);
    OpenFileEffect(share.root, file.path, FileOverwriteIf);
    s := share.Apply(OpenFile(share.root, file.path, FileOverwriteIf));
  }

  /** deleteFile: rm; afterwards nothing exists at the path. */
  method DeleteFile(share: DiskShare, file: Item) returns (s: Status)
    requires share.Valid()
    modifies share
    ensures share.Valid()
    ensures s == StatusOf(RemoveFile(old(share.root), file.path))
    ensures share.root == After(RemoveFile(old(share.root), file.path), old(share.root))
    ensures s.Pass? <==> old(IsFileAt(share.root, file.path))
    ensures s.Pass? ==> !IsExistingAt(share.root, file.path)
  {
    RemoveFileEffect(share.root, file.path);
    s := share.Apply(RemoveFile(share.root, file.path));
  }

  /**
   * copyFileViaServerSideCopy: open the source (FILE_OPEN for SmbFile, FILE_OPEN_IF for
   * SharedFile), open the destination with FILE_OVERWRITE_IF, then let the server copy. The
   * first failing step ends the copy; the steps before it keep their effect.
   */
  function ServerSideCopy(root: Node, rev: Revision, source: string, destination: string): (out: Outcome)
    ensures out.status.Fail? && OpenFile(root, source, ReadDisposition(rev)).Err? ==> out.content == root
  {
    var srcOpen := OpenFile(root, source, ReadDisposition(rev));
    if srcOpen.Err? then Outcome(Fail(srcOpen.error), root)
    else
      var prepared := OpenFile(srcOpen.value, destination, FileOverwriteIf);
      if prepared.Err? then Outcome(Fail(prepared.error), srcOpen.value)
      else
        var copied := CopyContent(prepared.value, source, destination);
        Outcome(StatusOf(copied), After(copied, prepared.value))
  }

  /**
   * The copy step on a share where the source is a file and the destination's open
   * succeeded: the copy succeeds, both entries then hold the source's bytes (none when they
   * are the same entry, which the open emptied), and only the destination's subtree changes.
   */
  lemma CopyAfterOpens(root1: Node, source: string, destination: string)
    requires ValidShare(root1) && IsFileAt(root1, source) && OpenFile(root1, destination, FileOverwriteIf).Ok?
    ensures var root2 := OpenFile(root1, destination, FileOverwriteIf).value;
      CopyContent(root2, source, destination).Ok? &&
      var after := CopyContent(root2, source, destination).value;
      ValidShare(after) && SameOutside(root1, after, Segments(destination)) &&
      NodeAt(after, destination) == NodeAt(after, source) &&
      NodeAt(after, destination) ==
        Some(Node.File(if Segments(source) != Segments(destination) then NodeAt(root1, source).value.data else []))
  {
    var src, dst := Segments(source), Segments(destination);
    var root2 := OpenFile(root1, destination, FileOverwriteIf).value;
    OpenFileEffect(root1, destination, FileOverwriteIf);
    if src != dst {
      if dst < src {
        PrefixOfExisting(root1, dst, src);
        assert false;
      } else if src < dst {
        NothingUnderFile(root1, src, dst);
        assert false;
      }
      assert Unrelated(dst, src);
      assert Lookup(root2, src) == Lookup(root1, src);
    }
    CopyContentEffect(root2, source, destination);
    var after := CopyContent(root2, source, destination).value;
    if src != dst {
      assert Unrelated(dst, src);
      assert Lookup(after, src) == Lookup(root2, src);
    }
  }

  /**
   * Once both opens succeed the copy succeeds; an existing source is opened without change,
   * so then only the destination's open decides. SmbFile never copies from a missing source.
   */
  lemma ServerSideCopySucceeds(root: Node, rev: Revision, source: string, destination: string)
    requires ValidShare(root)
    ensures ValidShare(ServerSideCopy(root, rev, source, destination).content)
    ensures var srcOpen := OpenFile(root, source, ReadDisposition(rev));
      ServerSideCopy(root, rev, source, destination).status.Pass? <==>
        srcOpen.Ok? && OpenFile(srcOpen.value, destination, FileOverwriteIf).Ok?
    ensures IsFileAt(root, source) ==>
      (ServerSideCopy(root, rev, source, destination).status.Pass? <==> OpenFile(root, destination, FileOverwriteIf).Ok?)
    ensures rev == SmbRevision && !IsFileAt(root, source) ==>
      ServerSideCopy(root, rev, source, destination) == Outcome(Fail(OpenFile(root, source, FileOpen).error), root)
  {
    var srcOpen := OpenFile(root, source, ReadDisposition(rev));
    OpenFileEffect(root, source, ReadDisposition(rev));
    if srcOpen.Ok? {
      OpenFileEffect(srcOpen.value, destination, FileOverwriteIf);
      if OpenFile(srcOpen.value, destination, FileOverwriteIf).Ok? {
        CopyAfterOpens(srcOpen.value, source, destination);
      }
    }
  }

  /**
   * After a successful copy the destination holds the bytes the source had: an empty file when
   * SharedFile created the source, or when source and destination are the same entry. The
   * source then holds the same bytes.
   */
  lemma ServerSideCopyContent(root: Node, rev: Revision, source: string, destination: string)
    requires ValidShare(root) && ServerSideCopy(root, rev, source, destination).status.Pass?
    ensures var after := ServerSideCopy(root, rev, source, destination).content;
      NodeAt(after, destination) == NodeAt(after, source) &&
      NodeAt(after, destination) ==
        Some(Node.File(if IsFileAt(root, source) && Segments(source) != Segments(destination)
                       then NodeAt(root, source).value.data else []))
  {
    var srcOpen := OpenFile(root, source, ReadDisposition(rev));
    OpenFileEffect(root, source, ReadDisposition(rev));
    CopyAfterOpens(srcOpen.value, source, destination);
  }

  /** A copy, successful or not, changes nothing unrelated to both paths. */
  lemma ServerSideCopyFrame(root: Node, rev: Revision, source: string, destination: string, q: seq<string>)
    requires ValidShare(root) && Unrelated(Segments(source), q) && Unrelated(Segments(destination), q)
    ensures Lookup(ServerSideCopy(root, rev, source, destination).content, q) == Lookup(root, q)
  {
    var srcOpen := OpenFile(root, source, ReadDisposition(rev));
    OpenFileEffect(root, source, ReadDisposition(rev));
    if srcOpen.Ok? {
      var root1 := srcOpen.value;
      assert Lookup(root1, q) == Lookup(root, q);
      OpenFileEffect(root1, destination, FileOverwriteIf);
      if OpenFile(root1, destination, FileOverwriteIf).Ok? {
        CopyAfterOpens(root1, source, destination);
      }
    }
  }

  /** The copy as the method performs it, one server call after the other. */
  method CopyFileViaServerSideCopy(share: DiskShare, source: Item, destination: Item) returns (s: Status)
    requires share.Valid()
    modifies share
    ensures share.Valid()
    ensures Outcome(s, share.root) == ServerSideCopy(old(share.root), source.rev, source.path, destination.path)
  {
    ServerSideCopySucceeds(share.root, source.rev, source.path, destination.path);
    OpenFileEffect(share.root, source.path, ReadDisposition(source.rev));
    s := share.Apply(OpenFile(share.root, source.path, ReadDisposition(source.rev)));
    if s.Fail? {
      return;
    }
    OpenFileEffect(share.root, destination.path, FileOverwriteIf);
    s := share.Apply(OpenFile(share.root, destination.path, FileOverwriteIf));
    if s.Fail? {
      return;
    }
    CopyContentEffect(share.root, source.path, destination.path);
    s := share.Apply(CopyContent(share.root, source.path, destination.path));
  }

  /**
   * getInputStream: opens the file for reading; the stream delivers the file's bytes.
   * SmbFile refuses a missing file and changes nothing; SharedFile creates a missing file
   * empty when its directory exists.
   */
  method GetInputStream(share: DiskShare, file: Item) returns (r: Result<seq<uint8>>)
    requires share.Valid()
    modifies share
    ensures share.Valid()
    ensures share.root == After(OpenFile(old(share.root), file.path, ReadDisposition(file.rev)), old(share.root))
    ensures r.Ok? <==> OpenFile(old(share.root), file.path, ReadDisposition(file.rev)).Ok?
    ensures r.Err? ==> r.error == OpenFile(old(share.root), file.path, ReadDisposition(file.rev)).error
    ensures r.Ok? ==> NodeAt(share.root, file.path) == Some(Node.File(r.value))
    ensures r.Ok? ==> r.value == ContentAfterOpen(old(share.root), file.path, ReadDisposition(file.rev))
    ensures file.rev == SmbRevision ==> share.root == old(share.root) && (r.Ok? <==> old(IsFileAt(share.root, file.path)))
  {
    var d := ReadDisposition(file.rev);
    OpenFileEffect(share.root, file.path, d);
    var s := share.Apply(OpenFile(share.root, file.path, d));
    if s.Fail? {
      r := Err(s.error);
    } else {
      r := Ok(NodeAt(share.root, file.path).value.data);
    }
  }

  /**
   * SmbFile.getOutputStream(append): opens the file with FILE_OPEN_IF when appending and
   * FILE_OVERWRITE_IF otherwise, and wraps the file in an SmbOutputStream with the same flag.
   */
  method GetOutputStream(share: DiskShare, file: Item, append: bool) returns (r: Result<SmbOutputStream>)
    requires share.Valid()
    modifies share
    ensures share.Valid()
    ensures share.root == After(OpenFile(old(share.root), file.path, WriteDisposition(append)), old(share.root))
    ensures r.Ok? <==> OpenFile(old(share.root), file.path, WriteDisposition(append)).Ok?
    ensures r.Err? ==> r.error == OpenFile(old(share.root), file.path, WriteDisposition(append)).error
    ensures r.Ok? ==> fresh(r.value) && fresh(r.value.file)
    ensures r.Ok? ==> r.value.appendContent == append && r.value.file.share == share && r.value.file.path == file.path
    ensures r.Ok? ==> r.value.file.calls == [OpenedStream(append)]
    ensures r.Ok? ==> NodeAt(share.root, file.path) == Some(Node.File(ContentAfterOpen(old(share.root), file.path, WriteDisposition(append))))
  {
    var d := WriteDisposition(append);
    OpenFileEffect(share.root, file.path, d);
    var s := share.Apply(OpenFile(share.root, file.path, d));
    if s.Fail? {
      r := Err(s.error);
    } else {
      var handle := new RemoteFile(share, file.path);
      var stream := new SmbOutputStream(handle, append);
      r := Ok(stream);
    }
  }

  /** getOutputStream(): exactly getOutputStream(false), so the file is emptied first. */
  method GetOverwritingOutputStream(share: DiskShare, file: Item) returns (r: Result<SmbOutputStream>)
    requires share.Valid()
    modifies share
    ensures share.Valid()
    ensures share.root == After(OpenFile(old(share.root), file.path, FileOverwriteIf), old(share.root))
    ensures r.Ok? <==> OpenFile(old(share.root), file.path, FileOverwriteIf).Ok?
    ensures r.Ok? ==> fresh(r.value) && fresh(r.value.file) && !r.value.appendContent
    ensures r.Ok? ==> r.value.file.share == share && r.value.file.path == file.path
    ensures r.Ok? ==> NodeAt(share.root, file.path) == Some(Node.File([]))
  {
    r := GetOutputStream(share, file, false);
  }

  /**
   * SharedFile.getOutputStream: always FILE_OVERWRITE_IF. The open file is returned; the
   * SharedOutputStream around it forwards write(int) to the file's data stream.
   */
  method GetSharedOutputStream(share: DiskShare, file: Item) returns (r: Result<RemoteFile>)
    requires share.Valid()
    modifies share
    ensures share.Valid()
    ensures share.root == After(OpenFile(old(share.root), file.path, FileOverwriteIf), old(share.root))
    ensures r.Ok? <==> OpenFile(old(share.root), file.path, FileOverwriteIf).Ok?
    ensures r.Ok? ==> fresh(r.value) && r.value.share == share && r.value.path == file.path
    ensures r.Ok? ==> r.value.calls == [OpenedStream(false)]
    ensures r.Ok? ==> NodeAt(share.root, file.path) == Some(Node.File([]))
  {
    OpenFileEffect(share.root, file.path, FileOverwriteIf);
    var s := share.Apply(OpenFile(share.root, file.path, FileOverwriteIf));
    if s.Fail? {
      r := Err(s.error);
    } else {
      var handle := new RemoteFile(share, file.path);
      handle.GetOutputStream(false);
      r := Ok(handle);
    }
  }

  /**
   * An upload: getOutputStream(append), write(byte[]), close. The file then holds exactly
   * the written bytes when overwriting, and its earlier bytes followed by them when appending.
   */
  method Upload(share: DiskShare, file: Item, data: seq<uint8>, append: bool) returns (s: Status)
    requires share.Valid()
    modifies share
    ensures share.Valid()
    ensures s.Pass? <==> old(OpenFile(share.root, file.path, WriteDisposition(append)).Ok?)
    ensures s.Pass? ==>
      var earlier := if append && old(IsFileAt(share.root, file.path)) then old(NodeAt(share.root, file.path).value.data) else [];
      NodeAt(share.root, file.path) == Some(Node.File(earlier + data))
    ensures s.Pass? ==> SameOutside(old(share.root), share.root, Segments(file.path))
    ensures s.Fail? ==> share.root == old(share.root)
  {
    ghost var before := share.root;
    var r := GetOutputStream(share, file, append);
    if r.Err? {
      s := Fail(r.error);
      return;
    }
    var stream := r.value;
    OpenFileEffect(before, file.path, WriteDisposition(append));
    ghost var mid := share.root;
    AppendToFileEffect(share.root, file.path, data);
    s := stream.WriteAll(data);
    stream.Close();
    forall q | Unrelated(Segments(file.path), q) ensures Lookup(share.root, q) == Lookup(before, q) {
      assert Lookup(mid, q) == Lookup(before, q);
    }
  }
}
