/** FortMachineHelpers: recognising containers by their marker and sorting paths by it. */
module MachineHelpers {
  import opened Wrappers
  import opened CryptoLib
  import opened MachineConstants
  import opened FileStore

  /** Bytes that begin with the 8-byte marker. */
  predicate HasMagicHeader(data: seq<byte>) {
    |data| >= MAGIC_HEADER_SIZE && data[..MAGIC_HEADER_SIZE] == MAGIC_HEADER
  }

  /** IsFileEncrypted: ReadBytes(MAGIC_HEADER_SIZE) (shorter at the end of the file) compared
      with the marker. Opening a missing path throws, and the exception is not caught. */
  function IsFileEncrypted(files: Files, path: string): (r: Result<bool>)
    ensures r.Err? <==> path !in files
    ensures r.Err? ==> r.message == FileNotFoundMessage(path)
    ensures r.Ok? ==> (r.value <==> HasMagicHeader(files[path]))
  {
    if path !in files then Err(FileNotFoundMessage(path))
    else
      var header := ReadAt(files[path], 0, MAGIC_HEADER_SIZE);
      Ok(header == MAGIC_HEADER)
  }

  /** The paths of `list` whose file does (`encrypted`) or does not carry the marker, in order,
      repeats kept. */
  function Selected(files: Files, list: seq<string>, encrypted: bool): seq<string>
    requires forall p <- list :: p in files
  {
    if list == [] then []
    else
      var last := list[|list| - 1];
      Selected(files, list[..|list| - 1], encrypted) + (if HasMagicHeader(files[last]) == encrypted then [last] else [])
  }

  /** Whether `list` has a missing path at `i` and all paths before it exist. */
  predicate FirstMissingAt(files: Files, list: seq<string>, i: nat) {
    i < |list| && list[i] !in files && forall j :: 0 <= j < i ==> list[j] in files
  }

  /** The loop shared by FindEncryptedFiles and FindPlainFiles: IsFileEncrypted per path, an
      exception from it ends the loop and propagates. */
  method SelectFiles(files: Files, listOfFiles: seq<string>, encrypted: bool) returns (r: Result<seq<string>>)
    ensures r.Ok? <==> forall p <- listOfFiles :: p in files
    ensures r.Ok? ==> r.value == Selected(files, listOfFiles, encrypted)
    ensures r.Err? ==> exists i: nat :: FirstMissingAt(files, listOfFiles, i) && r.message == FileNotFoundMessage(listOfFiles[i])
  {
    var found: seq<string> := [];
    for i := 0 to |listOfFiles|
      invariant forall p <- listOfFiles[..i] :: p in files
      invariant found == Selected(files, listOfFiles[..i], encrypted)
    {
      var isEncrypted := IsFileEncrypted(files, listOfFiles[i]);
      if isEncrypted.Err? {
        assert FirstMissingAt(files, listOfFiles, i) by {
          forall j | 0 <= j < i ensures listOfFiles[j] in files {
            assert listOfFiles[j] in listOfFiles[..i];
          }
        }
        return Err(isEncrypted.message);
      }
      assert listOfFiles[..i + 1][..i] == listOfFiles[..i];
      if isEncrypted.value == encrypted {
        found := found + [listOfFiles[i]];
      }
    }
    assert listOfFiles[..|listOfFiles|] == listOfFiles;
    r := Ok(found);
  }

  /** FindEncryptedFiles: the paths whose files carry the marker. */
  method FindEncryptedFiles(files: Files, listOfFiles: seq<string>) returns (r: Result<seq<string>>)
    ensures r.Ok? <==> forall p <- listOfFiles :: p in files
    ensures r.Ok? ==> r.value == Selected(files, listOfFiles, true)
    ensures r.Err? ==> exists i: nat :: FirstMissingAt(files, listOfFiles, i) && r.message == FileNotFoundMessage(listOfFiles[i])
  {
    r := SelectFiles(files, listOfFiles, true);
  }

  /** FindPlainFiles: the paths whose files do not carry the marker. */
  method FindPlainFiles(files: Files, listOfFiles: seq<string>) returns (r: Result<seq<string>>)
    ensures r.Ok? <==> forall p <- listOfFiles :: p in files
    ensures r.Ok? ==> r.value == Selected(files, listOfFiles, false)
    ensures r.Err? ==> exists i: nat :: FirstMissingAt(files, listOfFiles, i) && r.message == FileNotFoundMessage(listOfFiles[i])
  {
    r := SelectFiles(files, listOfFiles, false);
  }

  /** A path is selected exactly when it is listed and its file's marker status is the one asked for. */
  lemma {:induction false} SelectedMembers(files: Files, list: seq<string>, encrypted: bool, p: string)
    requires forall q <- list :: q in files
    ensures p in Selected(files, list, encrypted) <==> p in list && HasMagicHeader(files[p]) == encrypted
  {
    if list != [] {
      var init := list[..|list| - 1];
      assert list == init + [list[|list| - 1]];
      SelectedMembers(files, init, encrypted, p);
    }
  }

  /** Each entry lands in exactly one of the two selections, as often as it occurs in the list. */
  lemma {:induction false} SelectionCounts(files: Files, list: seq<string>)
    requires forall q <- list :: q in files
    ensures multiset(Selected(files, list, true)) + multiset(Selected(files, list, false)) == multiset(list)
  {
    if list != [] {
      var init, last := list[..|list| - 1], list[|list| - 1];
      assert list == init + [last];
      SelectionCounts(files, init);
      var pick: seq<string> := if HasMagicHeader(files[last]) then [last] else [];
      var skip: seq<string> := if HasMagicHeader(files[last]) then [] else [last];
      assert Selected(files, list, true) == Selected(files, init, true) + pick;
      assert Selected(files, list, false) == Selected(files, init, false) + skip;
      assert multiset(pick) + multiset(skip) == multiset([last]);
    }
  }

  /** The encrypted and the plain selections split the list: together they hold every
      entry exactly as often as the list does, and no path is in both. */
  lemma SelectionsPartition(files: Files, list: seq<string>)
    requires forall q <- list :: q in files
    ensures |Selected(files, list, true)| + |Selected(files, list, false)| == |list|
    ensures multiset(Selected(files, list, true)) + multiset(Selected(files, list, false)) == multiset(list)
    ensures forall p :: !(p in Selected(files, list, true) && p in Selected(files, list, false))
  {
    SelectionCounts(files, list);
    assert |multiset(Selected(files, list, true))| == |Selected(files, list, true)|;
    assert |multiset(Selected(files, list, false))| == |Selected(files, list, false)|;
    forall p ensures !(p in Selected(files, list, true) && p in Selected(files, list, false)) {
      SelectedMembers(files, list, true, p);
      SelectedMembers(files, list, false, p);
    }
  }
}
