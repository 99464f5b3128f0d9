/**
 * The file system the engine works on: a map from path to contents, held by one
 * FileSystem object that the operations update, and the FileStream behaviour
 * the engine depends on (short reads, writes into a file opened without truncation).
 */
module FileStore {
  import opened CryptoLib

  type Files = map<string, seq<byte>>

  class FileSystem {
    var files: Files

    constructor (files: Files)
      ensures this.files == files
    {
      this.files := files;
    }
  }

  function Min(a: nat, b: nat): nat { if a <= b then a else b }

  function Max(a: nat, b: nat): nat { if a <= b then b else a }

  /** Contents of `path` once FileMode.OpenOrCreate has opened it: a missing file is created empty. */
  function Existing(files: Files, path: string): seq<byte> {
    if path in files then files[path] else []
  }

  /** The file after `written` has been written from offset 0 into a stream opened with
      FileMode.OpenOrCreate, which does not truncate: older bytes past the end stay. */
  function Overwrite(previous: seq<byte>, written: seq<byte>): (r: seq<byte>)
    ensures |r| == Max(|previous|, |written|)
    ensures r[..|written|] == written
    ensures |previous| <= |written| ==> r == written
    ensures |previous| > |written| ==> r[|written|..] == previous[|written|..]
  {
    if |previous| <= |written| then written else written + previous[|written|..]
  }

  /** The bytes one FileStream.Read(buffer, 0, count) returns at `position`: as many as
      are left, at most `count`; none at the end of the file. */
  function ReadAt(data: seq<byte>, position: nat, count: nat): (chunk: seq<byte>)
    requires position <= |data|
    ensures |chunk| == Min(count, |data| - position)
    ensures chunk == data[position..position + |chunk|]
  {
    data[position..position + Min(count, |data| - position)]
  }

  /** .NET's FileNotFoundException message, raised by FileMode.Open on a missing path. */
  function FileNotFoundMessage(path: string): string {
    "Could not find file '" + path + "'."
  }

  /** .NET's IOException message for opening a file that another stream of the
      same call holds without sharing write access. */
  function SharingViolationMessage(path: string): string {
    "The process cannot access the file '" + path + "' because it is being used by another process."
  }

  /** Removing a path forgets what was written to it. */
  lemma RemoveAfterWrite(files: Files, path: string, contents: seq<byte>)
    ensures files[path := contents] - {path} == files - {path}
  {
  }

  /** Removals of two paths can be done in either order, and a second removal changes nothing. */
  lemma RemoveCommutes(files: Files, a: string, b: string)
    ensures files - {a} - {b} == files - {b} - {a}
    ensures files - {a} - {a} == files - {a}
  {
  }

  /** Writing one path and removing another commute. */
  lemma WriteThenRemove(files: Files, path: string, contents: seq<byte>, other: string)
    requires path != other
    ensures files[path := contents] - {other} == (files - {other})[path := contents]
  {
  }
}
