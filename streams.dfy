/**
 * SmbOutputStream: a decorator around the data stream of an open smbj File. It keeps the
 * append flag it was opened with, refuses the ranged write in append mode, and closes in the
 * order flush, data stream, file.
 */
module OutputStreams {
  import opened Outcomes
  import opened ShareState

  /** The calls the decorated data stream and its file receive, as a spy on them records them. */
  datatype Call =
    | OpenedStream(append: bool)
    | WroteByte(value: uint8)
    | WroteRange(offset: int, length: int)
    | Flushed
    | ClosedStream
    | ClosedFile

  /** The message of the IOException raised by the ranged write in append mode. */
  const RangedWriteInAppendMode := "The method SmbOutputStream.write(values, offset, length) can not be used when appendingContent is set to true."

  /** `write(int)` of java.io.OutputStream writes the eight low-order bits of its argument. */
  function LowByte(value: int): (b: uint8)
    ensures 0 <= value < 256 ==> b as int == value
    ensures (value - b as int) % 256 == 0
  {
    (value % 256) as uint8
  }

  /** The range check of `OutputStream.write(values, offset, length)`. */
  predicate InRange(values: seq<uint8>, offset: int, length: int) {
    0 <= offset && 0 <= length && offset + length <= |values|
  }

  /**
   * An open file of the share with its data stream. Every write lands at the end of the file's
   * bytes at once. While no other handle changes the file, that is where the stream's own
   * position is: in append mode it starts at the end, in overwrite mode the open emptied the
   * file, and the position only advances.
   */
  class RemoteFile {
    const share: DiskShare
    const path: string
    var calls: seq<Call>

    constructor (share: DiskShare, path: string)
      ensures this.share == share && this.path == path && calls == []
    {
      this.share := share;
      this.path := path;
      calls := [];
    }

    /** File.getOutputStream(append) */
    method GetOutputStream(append: bool)
      modifies this
      ensures calls == old(calls) + [OpenedStream(append)]
    {
      calls := calls + [OpenedStream(append)];
    }

    /** The data stream's write(int). */
    method WriteOne(value: uint8) returns (s: Status)
      requires share.Valid()
      modifies this, share
      ensures share.Valid()
      ensures calls == old(calls) + [WroteByte(value)]
      ensures s == StatusOf(AppendToFile(old(share.root), path, [value]))
      ensures share.root == After(AppendToFile(old(share.root), path, [value]), old(share.root))
    {
      calls := calls + [WroteByte(value)];
      AppendToFileEffect(share.root, path, [value]);
      s := share.Apply(AppendToFile(share.root, path, [value]));
    }

    /** The data stream's write(values, offset, length): the slice, or IndexOutOfBoundsException for a bad range. */
    method WriteRange(values: seq<uint8>, offset: int, length: int) returns (s: Status)
      requires share.Valid()
      modifies this, share
      ensures share.Valid()
      ensures calls == old(calls) + [WroteRange(offset, length)]
      ensures !InRange(values, offset, length) ==> s == Fail(OutOfBounds) && share.root == old(share.root)
      ensures InRange(values, offset, length) ==>
        var r := AppendToFile(old(share.root), path, values[offset..offset + length]);
        s == StatusOf(r) && share.root == After(r, old(share.root))
    {
      calls := calls + [WroteRange(offset, length)];
      if !InRange(values, offset, length) {
        s := Fail(OutOfBounds);
      } else {
        AppendToFileEffect(share.root, path, values[offset..offset + length]);
        s := share.Apply(AppendToFile(share.root, path, values[offset..offset + length]));
      }
    }

    /** The data stream's flush. */
    method Flush()
      modifies this
      ensures calls == old(calls) + [Flushed]
    {
      calls := calls + [Flushed];
    }

    /** The data stream's close. */
    method CloseStream()
      modifies this
      ensures calls == old(calls) + [ClosedStream]
    {
      calls := calls + [ClosedStream];
    }

    /** File.close */
    method Close()
      modifies this
      ensures calls == old(calls) + [ClosedFile]
    {
      calls := calls + [ClosedFile];
    }
  }

  class SmbOutputStream {
    const file: RemoteFile
    const appendContent: bool

    /** Opens the file's data stream with the same append flag and records the flag. */
    constructor (file: RemoteFile, appendContent: bool)
      modifies file
      ensures this.file == file && this.appendContent == appendContent
      ensures file.calls == old(file.calls) + [OpenedStream(appendContent)]
    {
      this.file := file;
      this.appendContent := appendContent;
      new;
      file.GetOutputStream(appendContent);
    }

    /** write(int): forwards exactly one byte, whatever the append flag. */
    method WriteByte(value: int) returns (s: Status)
      requires file.share.Valid()
      modifies file, file.share
      ensures file.share.Valid()
      ensures file.calls == old(file.calls) + [WroteByte(LowByte(value))]
      ensures s == StatusOf(AppendToFile(old(file.share.root), file.path, [LowByte(value)]))
      ensures file.share.root == After(AppendToFile(old(file.share.root), file.path, [LowByte(value)]), old(file.share.root))
    {
      s := file.WriteOne(LowByte(value));
    }

    /** write(byte[]): forwards the whole array as one (0, length) write, whatever the append flag. */
    method WriteAll(values: seq<uint8>) returns (s: Status)
      requires file.share.Valid()
      modifies file, file.share
      ensures file.share.Valid()
      ensures file.calls == old(file.calls) + [WroteRange(0, |values|)]
      ensures s == StatusOf(AppendToFile(old(file.share.root), file.path, values))
      ensures file.share.root == After(AppendToFile(old(file.share.root), file.path, values), old(file.share.root))
    {
      assert values[0..|values|] == values;
      s := file.WriteRange(values, 0, |values|);
    }

    /** write(byte[], offset, length): refused in append mode, forwarded unchanged otherwise. */
    method Write(values: seq<uint8>, offset: int, length: int) returns (s: Status)
      requires file.share.Valid()
      modifies file, file.share
      ensures file.share.Valid()
      ensures appendContent ==>
        s == Fail(IOFailure(RangedWriteInAppendMode)) && file.calls == old(file.calls) && file.share.root == old(file.share.root)
      ensures !appendContent ==> file.calls == old(file.calls) + [WroteRange(offset, length)]
      ensures !appendContent && !InRange(values, offset, length) ==>
        s == Fail(OutOfBounds) && file.share.root == old(file.share.root)
      ensures !appendContent && InRange(values, offset, length) ==>
        var r := AppendToFile(old(file.share.root), file.path, values[offset..offset + length]);
        s == StatusOf(r) && file.share.root == After(r, old(file.share.root))
    {
      if appendContent {
        s := Fail(IOFailure(RangedWriteInAppendMode));
        return;
      }
      s := file.WriteRange(values, offset, length);
    }

    /** flush: forwarded. */
    method Flush()
      modifies file
      ensures file.calls == old(file.calls) + [Flushed]
    {
      file.Flush();
    }

    /** close: flush, close the data stream, close the file, each exactly once and in that order. */
    method Close()
      modifies file
      ensures file.calls == old(file.calls) + [Flushed, ClosedStream, ClosedFile]
    {
      file.Flush();
      file.CloseStream();
      file.Close();
    }
  }
}
