/**
 * EncryptionMachine: the engine object. Encrypt2 and Decrypt2 work step by step on a
 * FileSystem, keep the last error message and the tamper flag in fields, and are proved to
 * leave exactly the state Encrypt2Spec and Decrypt2Spec describe.
 */
module Engine {
  import opened Wrappers
  import opened CryptoLib
  import opened MachineConstants
  import opened FileStore
  import opened Integrity
  import opened Keys
  import opened KeyFiles
  import opened ContainerFormat
  import opened EngineSpec

  /** Once a Read returns nothing the loop performs no later Read. */
  lemma ChunkReadsStop(i: nat, j: nat, length: nat)
    requires i <= j && !ChunkReadHappens(i, length)
    ensures !ChunkReadHappens(j, length)
  {
  }

  /** The do...while loop of Encrypt2 and Decrypt2: Read up to BUFFER_SIZE bytes from
      `position` of the input, Write what was read to the cipher stream, stop after the
      first Read that returns nothing. `fed` is what the cipher stream received and
      `readCount` how many Reads were made. A fault at the index-th chunk ends the loop
      there with the fault's message. */
  method CopyChunks(source: seq<byte>, position: nat, fault: Fault)
    returns (fed: seq<byte>, failure: Option<string>, ghost readCount: nat)
    requires position <= |source|
    ensures failure.Some? <==> ChunkFaultFires(fault, |source| - position)
    ensures failure.Some? ==> failure.value == fault.message && fed == ChunksFed(source[position..], fault.step.index)
    ensures failure.None? ==> fed == source[position..]
    ensures failure.None? ==> readCount >= 1 && ChunkReadHappens(readCount - 1, |source| - position) &&
                              !ChunkReadHappens(readCount, |source| - position)
  {
    ghost var length := |source| - position;
    var streamPosition := position;
    fed := [];
    var index: nat := 0;
    var done := false;
    while !done
      invariant position <= streamPosition <= |source|
      invariant fed == source[position..streamPosition]
      invariant !done ==> streamPosition - position == Min(index * BUFFER_SIZE, length)
      invariant !done ==> ChunkReadHappens(index, length)
      invariant done ==> streamPosition == |source| && !ChunkReadHappens(index, length)
      invariant done ==> index >= 1 && ChunkReadHappens(index - 1, length)
      invariant forall j: nat :: j < index ==> !fault.At(StreamChunk(j))
      decreases |source| - streamPosition, !done
    {
      if fault.At(StreamChunk(index)) {
        assert source[position..streamPosition] == source[position..][..streamPosition - position];
        return fed, Some(fault.message), index + 1;
      }
      var buffer := ReadAt(source, streamPosition, BUFFER_SIZE);
      var bytesRead := |buffer|;
      assert source[position..streamPosition + bytesRead] == source[position..streamPosition] + buffer;
      fed := fed + buffer;
      streamPosition := streamPosition + bytesRead;
      index := index + 1;
      done := bytesRead == 0;
    }
    if fault.FaultAt? && fault.step.StreamChunk? && fault.step.index >= index {
      ChunkReadsStop(index, fault.step.index, length);
    }
    failure, readCount := None, index;
  }

  /** The try block of Encrypt2: what it does to the files up to the exception it throws,
      if any; the catch block is in EncryptionMachine.Encrypt2. */
  method TryEncrypt2(cs: CipherSuite, disk: FileSystem, passphrase: string, inputpath: string, outputpath: string,
                     keepPlainFile: bool, randomSalt: seq<byte>, randomIV: seq<byte>, fault: Fault)
    returns (thrown: Option<string>, outputOpen: bool)
    requires cs.Valid()
    requires |randomSalt| == SALT_SIZE && |randomIV| == IV_SIZE
    modifies disk
    ensures thrown == EncryptError(old(disk.files), inputpath, outputpath, keepPlainFile, fault)
    ensures outputOpen <==> CleanupFindsOutputOpen(old(disk.files), inputpath, outputpath, fault)
    ensures thrown.None? ==> disk.files == EncryptedFiles(cs, old(disk.files), passphrase, inputpath, outputpath,
                                                           keepPlainFile, randomSalt, randomIV)
    ensures thrown.Some? ==> disk.files - {outputpath} == old(disk.files) - {outputpath}
    ensures outputOpen ==> disk.files == old(disk.files)[outputpath := Existing(old(disk.files), outputpath)]
  {
    ghost var files := disk.files;
    if fault.At(CreateKey) {
      return Some(fault.message), false;
    }
    var key := new FortKey(passphrase);
    var keyBytes := key.GetNew(cs, randomSalt);
    var iv := randomIV;

    // StreamIn = new FileStream(inputpath, FileMode.Open, FileAccess.Read)
    if inputpath !in disk.files {
      return Some(FileNotFoundMessage(inputpath)), false;
    }
    if fault.At(OpenInput) {
      return Some(fault.message), false;
    }
    var streamIn := disk.files[inputpath];

    // StreamOut = new FileStream(outputpath, FileMode.OpenOrCreate, FileAccess.Write)
    if inputpath == outputpath {
      return Some(SharingViolationMessage(outputpath)), false;
    }
    if fault.At(OpenOutput) {
      return Some(fault.message), false;
    }
    var previous := Existing(disk.files, outputpath);
    disk.files := disk.files[outputpath := previous];
    thrown, outputOpen := EncryptOpened(cs, disk, files, passphrase, inputpath, outputpath, keepPlainFile,
                            key.salt.value, randomIV, keyBytes, streamIn, previous, fault);
  }

  /** Encrypt2 once both files are open: digest, header, chunk loop, closing, deletion of the
      input. `outputOpen` says whether the exception leaves StreamOut open, which it does
      until the crypto stream over it is created. */
  method EncryptOpened(cs: CipherSuite, disk: FileSystem, ghost files: Files, ghost passphrase: string,
                       inputpath: string, outputpath: string, keepPlainFile: bool, salt: seq<byte>, iv: seq<byte>,
                       keyBytes: seq<byte>, streamIn: seq<byte>, previous: seq<byte>, fault: Fault)
    returns (thrown: Option<string>, outputOpen: bool)
    requires cs.Valid()
    requires |salt| == SALT_SIZE && |iv| == IV_SIZE && keyBytes == DeriveKey(cs, passphrase, salt)
    requires inputpath in files && inputpath != outputpath && streamIn == files[inputpath]
    requires !fault.At(OpenOutput)
    requires previous == Existing(files, outputpath) && disk.files == files[outputpath := previous]
    modifies disk
    ensures thrown.Some? <==> LateEncryptFaultFires(fault, |streamIn|, keepPlainFile)
    ensures outputOpen <==> fault.At(ComputeDigest) || fault.At(WriteHeader)
    ensures outputOpen ==> disk.files == files[outputpath := previous]
    ensures thrown.Some? ==> thrown.value == fault.message && disk.files - {outputpath} == files - {outputpath}
    ensures thrown.None? ==> disk.files == EncryptedFiles(cs, files, passphrase, inputpath, outputpath,
                                                           keepPlainFile, salt, iv)
  {
    RemoveAfterWrite(files, outputpath, previous);
    if fault.At(ComputeDigest) {
      return Some(fault.message), true;
    }
    var integrityHash := GetHMACHash(cs, streamIn, keyBytes);
    if fault.At(WriteHeader) {
      return Some(fault.message), true;
    }
    // the header writes stay in StreamOut's buffer until the crypto stream flushes it
    var header := MAGIC_HEADER + iv + salt + integrityHash;

    // crypto = new CryptoStream(StreamOut, ...): from here the catch block's crypto.Close() closes StreamOut
    outputOpen := false;
    var plain, failure, readCount := CopyChunks(streamIn, 0, fault);
    if failure.Some? {
      return failure, false;
    }
    assert plain == streamIn;

    // crypto.Close() flushes the final block into StreamOut and closes it
    if fault.At(CloseStreams) {
      return Some(fault.message), false;
    }
    var written := header + cs.encipher(keyBytes, iv, plain);
    assert written == Container(iv, salt, integrityHash, cs.encipher(keyBytes, iv, plain));
    disk.files := disk.files[outputpath := Overwrite(previous, written)];
    RemoveAfterWrite(files, outputpath, Overwrite(previous, written));

    if !keepPlainFile {
      if fault.At(DeleteInput) {
        return Some(fault.message), false;
      }
      disk.files := disk.files - {inputpath};
    }
    thrown := None;
  }

  /** The four Read calls of Decrypt2 on the prefix, each into a fresh buffer, their return
      values ignored: the stream ends after the prefix, or at the end of a shorter file. */
  method ReadPrefix(streamIn: seq<byte>) returns (header: Header, position: nat)
    ensures header == ParseHeader(streamIn)
    ensures position == BodyOffset(streamIn) && position <= |streamIn|
  {
    position := 0;
    var magicHeader := ReadField(streamIn, position, MAGIC_HEADER_SIZE);
    position := Min(position + MAGIC_HEADER_SIZE, |streamIn|);
    var iv := ReadField(streamIn, position, IV_SIZE);
    position := Min(position + IV_SIZE, |streamIn|);
    var salt := ReadField(streamIn, position, SALT_SIZE);
    position := Min(position + SALT_SIZE, |streamIn|);
    var integrityHash := ReadField(streamIn, position, DATA_INTEGRITY_HASH_SIZE);
    position := Min(position + DATA_INTEGRITY_HASH_SIZE, |streamIn|);
    header := Header(magicHeader, iv, salt, integrityHash);
  }

  /** A CryptoStream over StreamOut that has not been closed yet: its key and IV and the bytes
      written to it. Closing it deciphers them as a whole, the final block included. */
  datatype Decryptor = Decryptor(key: seq<byte>, iv: seq<byte>, written: seq<byte>)

  class EncryptionMachine {
    var lastErrorMessage: Option<string>
    var isDataTampered: bool

    /** FortFactory.CreateEncryptionMachine: no message yet, nothing flagged. */
    constructor ()
      ensures lastErrorMessage == None && !isDataTampered
    {
      lastErrorMessage := None;
      isDataTampered := false;
    }

    /** ProcessKeyWithSalt: the key a fresh FortKey derives from the passphrase and a stored salt. */
    method ProcessKeyWithSalt(cs: CipherSuite, passphrase: string, salt: seq<byte>) returns (hash: seq<byte>)
      requires cs.Valid()
      requires |salt| >= PBKDF2_MIN_SALT_SIZE
      ensures |hash| == KEY_SIZE
      ensures hash == DeriveKey(cs, passphrase, salt)
    {
      var key := new FortKey(passphrase);
      hash := key.GetNewFromSalt(cs, salt);
    }

    /** The catch blocks of Encrypt2 and Decrypt2: delete the output if it exists and keep the message. */
    method RecordFailure(disk: FileSystem, outputpath: string, prefix: string, message: string)
      modifies this`lastErrorMessage, disk
      ensures disk.files == old(disk.files) - {outputpath}
      ensures lastErrorMessage == Some(prefix + message)
    {
      if outputpath in disk.files {
        disk.files := disk.files - {outputpath};
      }
      lastErrorMessage := Some(prefix + message);
    }

    /** Encrypt2. `randomSalt` and `randomIV` are what the RNG returns to GetNew() and
        GetRandom16IV(); `fault` says where, if anywhere, the runtime throws. `escaped` is the
        exception that leaves Encrypt2 when its catch block throws, in which case `ok` is
        false but no value is returned. */
    method Encrypt2(cs: CipherSuite, disk: FileSystem, passphrase: string, inputpath: string, outputpath: string,
                    keepPlainFile: bool, randomSalt: seq<byte>, randomIV: seq<byte>, fault: Fault)
      returns (ok: bool, escaped: Option<string>)
      requires cs.Valid()
      requires |randomSalt| == SALT_SIZE && |randomIV| == IV_SIZE
      modifies this, disk
      ensures Outcome(ok, disk.files, lastErrorMessage, isDataTampered, escaped)
           == Encrypt2Spec(cs, old(disk.files), passphrase, inputpath, outputpath, keepPlainFile,
                           randomSalt, randomIV, fault, old(lastErrorMessage), old(isDataTampered))
    {
      var thrown, outputOpen := TryEncrypt2(cs, disk, passphrase, inputpath, outputpath, keepPlainFile,
                                            randomSalt, randomIV, fault);
      if thrown.Some? {
        if outputOpen {
          // File.Exists(outputpath) holds, and File.Delete fails on the still-open StreamOut
          return false, Some(SharingViolationMessage(outputpath));
        }
        RecordFailure(disk, outputpath, ENCRYPTION_FAILED, thrown.value);
        return false, None;
      }
      ok, escaped := true, None;
    }

    /** Decrypt2 after both files are open and the prefix is read: `previous` is what the
        output held when it was opened, `streamIn` the input and `position` where the body
        starts. Sets the tamper flag once the output is written and digested. `decrypto` is
        the crypto stream when the exception leaves it unclosed, which a fault inside the
        chunk loop does. */
    method DecryptBody(cs: CipherSuite, disk: FileSystem, ghost files: Files, passphrase: string,
                       inputpath: string, outputpath: string, header: Header, streamIn: seq<byte>,
                       position: nat, previous: seq<byte>, fault: Fault)
      returns (thrown: Option<string>, decrypto: Option<Decryptor>)
      requires cs.Valid()
      requires |header.salt| == SALT_SIZE && position <= |streamIn|
      requires previous == Existing(files, outputpath)
      requires disk.files == files[outputpath := previous]
      modifies this`isDataTampered, disk
      ensures var d := CleanDecryptFields(cs, files, passphrase, inputpath, outputpath, header.iv, header.salt,
                                          header.digest, streamIn[position..], fault, lastErrorMessage, old(isDataTampered));
        (thrown.None? <==> d.ok) && isDataTampered == d.tampered &&
        (thrown.None? ==> disk.files == d.files) &&
        (thrown.Some? ==> disk.files - {outputpath} == d.files && d.lastError == Some(DECRYPTION_FAILED + thrown.value))
      ensures decrypto.Some? <==> ChunkFaultFires(fault, |streamIn| - position)
      ensures decrypto.Some? ==>
        decrypto.value == Decryptor(DeriveKey(cs, passphrase, header.salt), header.iv,
                                    ChunksFed(streamIn[position..], fault.step.index)) &&
        disk.files == files[outputpath := previous] && isDataTampered == old(isDataTampered)
    {
      RemoveAfterWrite(files, outputpath, previous);
      if fault.At(CreateKey) {
        return Some(fault.message), None;
      }
      var key := ProcessKeyWithSalt(cs, passphrase, header.salt);

      var cipherText, failure, readCount := CopyChunks(streamIn, position, fault);
      if failure.Some? {
        return failure, Some(Decryptor(key, header.iv, cipherText));
      }

      // decrypto.Close() flushes the final block, where the cipher may reject the input
      decrypto := None;
      var deciphered := cs.decipher(key, header.iv, cipherText);
      if deciphered.Err? {
        return Some(deciphered.message), None;
      }
      thrown := FinishDecrypt(cs, disk, files, inputpath, outputpath, key, header.digest, deciphered.value, previous, fault);
    }

    /** Decrypt2 after the cipher accepted the body: closing writes `plain` over the output,
        which is then reopened and digested; the tamper flag is set before the input is deleted. */
    method FinishDecrypt(cs: CipherSuite, disk: FileSystem, ghost files: Files, inputpath: string, outputpath: string,
                         key: seq<byte>, digest: seq<byte>, plain: seq<byte>, previous: seq<byte>, fault: Fault)
      returns (thrown: Option<string>)
      requires cs.Valid()
      requires disk.files == files[outputpath := previous]
      modifies this`isDataTampered, disk
      ensures var output := Overwrite(previous, plain);
        (thrown.Some? <==> fault.At(CloseStreams) || fault.At(VerifyDigest) || fault.At(DeleteInput)) &&
        (thrown.Some? ==> thrown.value == fault.message && disk.files - {outputpath} == files - {outputpath}) &&
        (thrown.None? ==> disk.files == files[outputpath := output] - {inputpath}) &&
        isDataTampered == if fault.At(CloseStreams) || fault.At(VerifyDigest) then old(isDataTampered)
                          else GetHMACHash(cs, output, key) != digest
    {
      RemoveAfterWrite(files, outputpath, previous);
      if fault.At(CloseStreams) {
        return Some(fault.message);
      }
      var output := Overwrite(previous, plain);
      disk.files := disk.files[outputpath := output];
      RemoveAfterWrite(files, outputpath, output);

      // NewPlainStream: the output reopened from its start and digested
      if fault.At(VerifyDigest) {
        return Some(fault.message);
      }
      var intact := VerifyHashStream(cs, disk.files[outputpath], 0, key, digest);
      assert disk.files[outputpath][0..] == output;
      isDataTampered := !intact;

      if fault.At(DeleteInput) {
        return Some(fault.message);
      }
      disk.files := disk.files - {inputpath};
      thrown := None;
    }

    /** Decrypt2; `fault` says where, if anywhere, the runtime throws. `escaped` is the
        exception that leaves Decrypt2 when the catch block's decrypto.Close() throws, in which
        case `ok` is false but no value is returned. */
    method Decrypt2(cs: CipherSuite, disk: FileSystem, passphrase: string, inputpath: string, outputpath: string,
                    fault: Fault) returns (ok: bool, escaped: Option<string>)
      requires cs.Valid()
      modifies this, disk
      ensures Outcome(ok, disk.files, lastErrorMessage, isDataTampered, escaped)
           == Decrypt2Spec(cs, old(disk.files), passphrase, inputpath, outputpath, fault,
                           old(lastErrorMessage), old(isDataTampered))
    {
      ghost var files := disk.files;
      var thrown: Option<string>;
      // StreamIn = new FileStream(inputpath, FileMode.Open, FileAccess.ReadWrite)
      if inputpath !in disk.files {
        thrown := Some(FileNotFoundMessage(inputpath));
      } else if fault.At(OpenInput) {
        thrown := Some(fault.message);
      // StreamOut = new FileStream(outputpath, FileMode.OpenOrCreate, FileAccess.Write)
      } else if inputpath == outputpath {
        thrown := Some(SharingViolationMessage(outputpath));
      } else if fault.At(OpenOutput) || fault.At(ReadHeader) {
        thrown := Some(fault.message);
      } else {
        var streamIn := disk.files[inputpath];
        var previous := Existing(disk.files, outputpath);
        disk.files := disk.files[outputpath := previous];
        var header, position := ReadPrefix(streamIn);
        var decrypto;
        thrown, decrypto := DecryptBody(cs, disk, files, passphrase, inputpath, outputpath, header, streamIn,
                                        position, previous, fault);
        if thrown.None? {
          return true, None;
        }
        // the catch block's decrypto.Close() flushes what the loop fed; a rejection escapes
        if decrypto.Some? {
          var flushed := cs.decipher(decrypto.value.key, decrypto.value.iv, decrypto.value.written);
          if flushed.Err? {
            return false, Some(flushed.message);
          }
        }
      }
      RecordFailure(disk, outputpath, DECRYPTION_FAILED, thrown.value);
      ok, escaped := false, None;
    }

    /** GetNewKeyFile: a keyfile over `randomData`, the `length` bytes GenerateRandomData returns. */
    method GetNewKeyFile(length: uint32, randomData: seq<byte>) returns (keyFile: FortKeyFile)
      requires |randomData| == length as int
      ensures fresh(keyFile)
      ensures keyFile.data == randomData && keyFile.length == length && keyFile.lastErrorMessage == None
    {
      keyFile := new FortKeyFile(randomData, length);
    }

    /** PreserveKeyfile: writes the keyfile; on failure copies its message into the engine's. */
    method PreserveKeyfile(keyFile: FortKeyFile, disk: FileSystem, path: string, ioError: Option<string>) returns (ok: bool)
      modifies this, keyFile, disk
      ensures ok <==> ioError.None?
      ensures ok ==> disk.files == old(disk.files)[path := keyFile.data] && lastErrorMessage == old(lastErrorMessage)
      ensures ok ==> keyFile.lastErrorMessage == old(keyFile.lastErrorMessage)
      ensures !ok ==> disk.files == old(disk.files) && lastErrorMessage == ioError && keyFile.lastErrorMessage == ioError
      ensures isDataTampered == old(isDataTampered)
    {
      var preserved := keyFile.Preserve(disk, path, ioError);
      if !preserved {
        lastErrorMessage := keyFile.lastErrorMessage;
        return false;
      }
      ok := true;
    }

    /** LoadKeyfileFromDisk: null with "Unable to read the key file from disk." when the file
        cannot be read, null with "Invalid keyfile data." when it is not 512 bytes long,
        otherwise the loaded keyfile. */
    method LoadKeyfileFromDisk(disk: FileSystem, path: string, ioError: bool) returns (keyFile: FortKeyFile?)
      modifies this
      ensures var readable := !ioError && path in disk.files && |disk.files[path]| <= MAX_READ_ALL_BYTES;
        (!readable ==> keyFile == null && lastErrorMessage == Some("Unable to read the key file from disk.")) &&
        (readable && |disk.files[path]| != RECOMMENDED_KEY_FILE_SIZE ==>
           keyFile == null && lastErrorMessage == Some("Invalid keyfile data.")) &&
        (readable && |disk.files[path]| == RECOMMENDED_KEY_FILE_SIZE ==>
           keyFile != null && fresh(keyFile) && keyFile.data == disk.files[path] &&
           keyFile.length as int == RECOMMENDED_KEY_FILE_SIZE && lastErrorMessage == old(lastErrorMessage))
      ensures isDataTampered == old(isDataTampered)
    {
      keyFile := FortKeyFile.LoadFromDisk(disk, path, ioError);
      if keyFile == null {
        lastErrorMessage := Some("Unable to read the key file from disk.");
        return null;
      }
      if !keyFile.Validate(keyFile.data) {
        lastErrorMessage := Some("Invalid keyfile data.");
        return null;
      }
    }
  }

  /** A caller of the engine: encrypting a file to a new path and decrypting it back to
      another free path restores the plaintext with no tampering reported. */
  method EncryptThenDecrypt(cs: CipherSuite, disk: FileSystem, passphrase: string, plainPath: string, encPath: string,
                            outPath: string, randomSalt: seq<byte>, randomIV: seq<byte>)
    returns (machine: EncryptionMachine)
    requires cs.Valid()
    requires |randomSalt| == SALT_SIZE && |randomIV| == IV_SIZE
    requires plainPath in disk.files && encPath !in disk.files && outPath !in disk.files
    requires plainPath != encPath && outPath != encPath
    modifies disk
    ensures fresh(machine)
    ensures outPath in disk.files && disk.files[outPath] == old(disk.files[plainPath])
    ensures encPath !in disk.files && !machine.isDataTampered
  {
    machine := new EncryptionMachine();
    RoundTrip(cs, disk.files, passphrase, plainPath, encPath, outPath, false, randomSalt, randomIV, None, false);
    var encrypted, escaped := machine.Encrypt2(cs, disk, passphrase, plainPath, encPath, false, randomSalt, randomIV, NoFault);
    var decrypted, escaped2 := machine.Decrypt2(cs, disk, passphrase, encPath, outPath, NoFault);
  }
}
