# fortmachine in Dafny

FortMachine is a file-level encryption engine written in C#. `EncryptionMachine.Encrypt2`
derives a 32-byte key from a passphrase with PBKDF2 (10000 iterations, random 8-byte salt)
and draws a random 16-byte IV. It then writes a container:

- the 8-byte marker `{4,6,3,9,3,3,5,2}`;
- the IV;
- the salt;
- an HMAC-SHA256 digest of the plaintext;
- the AES-CBC encryption of the file, streamed in 4096-byte chunks.

`Decrypt2` reads the 64-byte prefix back, rederives the key from the passphrase and the stored
salt, and decrypts the rest into the output file. It reopens that output and digests it. A
mismatch sets the `IsDataTampered` flag but does not fail the call. The encrypted input is
then deleted. Both calls wrap their work in a try block. Its catch block closes streams,
deletes the output path if it exists, keeps `"Encryption failed: "`/`"Decryption failed: "`
plus the message as the last error, and returns false. In both calls the catch block can
itself throw (see "## Findings"). Beside the engine are:

- the keyed-digest check (`DataIntegrity`);
- the key wrapper (`FortKey`);
- random keyfiles with a SHA-512 hex fingerprint (`FortKeyFile`);
- the marker test and the encrypted/plain list filters (`FortMachineHelpers`);
- the format constants.

## How the model is built

- **Files.** The file system is a `FileStore.FileSystem` object whose `files` field is a
  `map<string, seq<byte>>`.
- **Opening the output.** `FileMode.OpenOrCreate` does not truncate. `Overwrite` keeps the
  stale tail of a longer file that was already there.
- **Cryptography.** AES-CBC, HMAC-SHA256, PBKDF2 and SHA-512 are function values in a
  `CryptoLib.CipherSuite`. `CipherSuite.Valid()` states only what the code relies on:
  - deciphering what was enciphered under the same key and IV gives the plaintext back;
  - HMAC yields 32 bytes, PBKDF2 the number of bytes asked for, and SHA-512 64 bytes.

  Being functions, they are deterministic. Deciphering may fail with a message: a bad
  padding raises `CryptographicException` at the final block.
- **Exceptions.** The model follows Windows file-sharing semantics throughout. A stream opened
  with the default `FileShare.Read` refuses both a second writable open of its file and
  `File.Delete` of it. These exceptions are derived from the state:
  - a missing input gives `FileNotFoundException`;
  - an input path equal to the output path gives a sharing violation at the second open;
  - a rejected ciphertext;
  - Encrypt2's cleanup `File.Delete` on a `StreamOut` that is still open gives a sharing
    violation, which leaves Encrypt2 (`Outcome.escaped`);
  - after a fault inside Decrypt2's chunk loop, the catch block's `decrypto.Close()` deciphers
    the chunks fed so far. If the cipher rejects them, the exception leaves Decrypt2
    (`Outcome.escaped`).

  Every other exception the runtime may raise is an `EngineSpec.Fault` argument
  (`FaultAt(step, message)`). It takes effect only if the call reaches that step. A throw
  while Encrypt2 sets up its cipher (EncryptionMachine.cs:184-190) leaves the same state as
  one in the header writes and is the `WriteHeader` step. A throw while Decrypt2 sets up its
  cipher (EncryptionMachine.cs:270-276) leaves the same state as one in the key derivation
  and is the `CreateKey` step.
- **Randomness.** The random salt, the IV and the keyfile bytes are method parameters.
- **Pure specification.** `EngineSpec.Encrypt2Spec` and `EngineSpec.Decrypt2Spec` give, as
  pure functions of the state before the call, the result, the files, the last error, the
  tamper flag and the exception that escapes the call, if any. The class `Engine.EncryptionMachine` holds the two fields the source updates,
  and its `Encrypt2`/`Decrypt2` methods run the steps imperatively. Each is proved to end in
  exactly the outcome its specification function gives. The remaining properties are lemmas
  about those functions.
- **Chunk loop.** The 4096-byte chunk loop, which the source writes twice, is the single
  method `Engine.CopyChunks`.

## Model

| member | source | states |
|---|---|---|
| MachineConstants.ConstantsAgree | FortMachineConstants.cs:7-15 | the marker is {4,6,3,9,3,3,5,2} and 8 long, IV 16, salt 8, key and digest 32, keyfile 512, and the prefix offsets are 8, 24, 32 and 64 |
| FileStore.Overwrite | EncryptionMachine.cs:170 | writing over a file opened with OpenOrCreate: the written bytes come first, the result is as long as the longer of the two, and the bytes of a longer old file past the written ones remain |
| FileStore.ReadAt | EncryptionMachine.cs:194 | a Read of up to `count` bytes returns min(count, bytes left) bytes, namely the next ones of the stream |
| Integrity.GetHMACHash | DataIntegrity.cs:13-34 | the keyed digest of the data is 32 bytes |
| Integrity.FirstMismatch | DataIntegrity.cs:48-54 | the index at which two equally long, different digests first differ: the bytes before it agree and they differ there |
| Integrity.FirstMismatchAt | DataIntegrity.cs:48-54 | a differing byte preceded only by equal bytes is the first mismatch |
| Integrity.CompareDigests | DataIntegrity.cs:45-56 | true iff the digests are equal; a length mismatch compares no byte; otherwise the loop stops right after the first differing byte (not constant-time) or compares every byte when they match |
| Integrity.VerifyHash | DataIntegrity.cs:38-58 | true iff the digest recomputed over the buffer equals the stored one; a stored digest that is not 32 bytes long is rejected |
| Integrity.VerifyHashStream | DataIntegrity.cs:61-81 | true iff the digest recomputed over the stream from its position to its end equals the stored one; so it agrees with the buffer overload when the stream holds that buffer |
| Keys.DeriveKey | FortKey.cs:37-38 | the PBKDF2 key of passphrase and salt is KEY_SIZE = 32 bytes |
| Keys.FortKey.constructor | FortKey.cs:15-30 | stores the passphrase; Salt is null until GetNew() is called |
| Keys.FortKey.GetNewFromSalt | FortKey.cs:33-43 | GetNew(salt) returns the 32-byte key of the passphrase and that salt and changes nothing |
| Keys.FortKey.GetNew | FortKey.cs:47-63 | stores the fresh 8-byte salt in Salt and returns the same key GetNew(Salt) gives afterwards |
| Keys.FortKey.VerifyPassphrase | FortKey.cs:66-77 | true iff `key` is 32 bytes long and equals the derived key element by element |
| Keys.VerifyPassphraseAcceptsDerivedKeys | FortKey.cs:33-77 | VerifyPassphrase accepts a key iff it is the one GetNew(salt) of a FortKey with that passphrase returns |
| KeyFiles.HexByte | FortKeyFile.cs:79 | a byte formats as two lowercase hexadecimal characters |
| KeyFiles.HexEncode | FortKeyFile.cs:78-79 | the fingerprint has two characters per digest byte, all in [0-9a-f] |
| KeyFiles.HexDigitRoundTrip | FortKeyFile.cs:79 | a hexadecimal digit reads back as its value |
| KeyFiles.HexByteRoundTrip | FortKeyFile.cs:79 | the two characters of a byte read back as its high and low nibbles, which rebuild the byte |
| KeyFiles.HexRoundTrip | FortKeyFile.cs:78-79 | decoding the fingerprint gives back the digest bytes |
| KeyFiles.HexEncodeInjective | FortKeyFile.cs:78-79 | different digests have different fingerprints |
| KeyFiles.FortKeyFile.constructor | FortKeyFile.cs:15-19 | stores data and length unchanged, with no error message |
| KeyFiles.FortKeyFile.LoadFromDisk | FortKeyFile.cs:21-37 | null exactly when the read fails (missing file, I/O error, file over ReadAllBytes' limit); otherwise a new keyfile holding the file's bytes with Length equal to their count |
| KeyFiles.FortKeyFile.Preserve | FortKeyFile.cs:54-68 | true and the file holds the data when the write succeeds; otherwise false, no file changes and LastErrorMessage is the exception message |
| KeyFiles.FortKeyFile.GetPassphrasePresentationFromData | FortKeyFile.cs:70-82 | the loop builds 128 lowercase hexadecimal characters that decode back to the SHA-512 digest of the data |
| KeyFiles.FortKeyFile.Validate | FortKeyFile.cs:84-90 | true iff the data is 512 bytes long; the length field plays no part |
| MachineHelpers.IsFileEncrypted | FortMachineHelpers.cs:21-36 | FileNotFound error iff the file is missing; otherwise true iff its first 8 bytes are the marker (a shorter file gives false) |
| MachineHelpers.SelectFiles | FortMachineHelpers.cs:121-150 | the loop keeps, in order and with duplicates, the entries whose marker test has the wanted value; it fails with the first missing file's error iff some entry is missing |
| MachineHelpers.FindEncryptedFiles | FortMachineHelpers.cs:121-133 | exactly the entries that are encrypted, in input order, or the first missing file's error |
| MachineHelpers.FindPlainFiles | FortMachineHelpers.cs:138-150 | exactly the entries that are not encrypted, in input order, or the first missing file's error |
| MachineHelpers.SelectedMembers | FortMachineHelpers.cs:121-150 | a path is selected iff it is in the list and its marker test has the wanted value |
| MachineHelpers.SelectionCounts | FortMachineHelpers.cs:121-150 | every entry of the list occurs in the encrypted and plain selections together exactly as often as in the list |
| MachineHelpers.SelectionsPartition | FortMachineHelpers.cs:121-150 | the encrypted and plain selections split the list: lengths add up, multisets add up to the list's, no path is in both |
| ContainerFormat.Container | EncryptionMachine.cs:175-182 | the header bytes and cipher output in order: marker at 0..8, IV at 8..24, salt at 24..32, digest at 32..64, cipher output from 64 |
| ContainerFormat.ReadField | EncryptionMachine.cs:251-266 | a Read into a fresh zeroed buffer: the buffer is the field's size and holds the file's bytes when enough are left |
| ContainerFormat.ParseHeader | EncryptionMachine.cs:259-266 | the four fields read from the prefix have the fields' sizes whatever the file's length |
| ContainerFormat.ParseContainer | EncryptionMachine.cs:260-266 | reading back a container, with any stale bytes after it, gives the marker, IV, salt and digest that were written, then the cipher output followed by the stale bytes |
| ContainerFormat.MagicIgnored | EncryptionMachine.cs:259-260 | the marker bytes do not affect the IV, salt and digest read, nor where the body starts |
| EngineSpec.ContainerKey | EncryptionMachine.cs:264-268 | for an input of at least 32 bytes, Decrypt2's key is the one derived from the passphrase and bytes 24..32 of the input, where Encrypt2 stores the salt |
| EngineSpec.EncryptSucceedsIff | EncryptionMachine.cs:149-222 | Encrypt2 returns true iff the input exists, is on another path than the output, and no exception is raised on the way; with no runtime fault an existing input on its own path always succeeds |
| EngineSpec.EncryptWritesContainer | EncryptionMachine.cs:172-197 | on success the output starts with marker, IV, salt and the HMAC of the plaintext, then the cipher output; a longer old file keeps its tail, otherwise the output is exactly the container; IsFileEncrypted holds of it |
| EngineSpec.EncryptInputFate | EncryptionMachine.cs:199-203 | on success the input is deleted iff KeepPlainFile is false and otherwise unchanged; no other path, the last error and the tamper flag do not change |
| EngineSpec.EncryptFailureCleanup | EncryptionMachine.cs:205-217 | on failure the tamper flag is unchanged and an input on another path is intact; an exception escapes iff the fault came from the digest or the header writes, and then the output stays as opened and the last error is unchanged; otherwise exactly the output path is removed and the message starts with "Encryption failed: " (FileNotFound text for a missing input) |
| EngineSpec.CleanupEscapes | EncryptionMachine.cs:170-214 | a fault in a header write with a fresh output path makes Encrypt2 throw a sharing violation out of its catch block, leaving an empty output file and no error message |
| EngineSpec.ClosingCleanup | EncryptionMachine.cs:205-217 | with StreamOut closed before the deletion, every failure returns false, removes exactly the output path and records an "Encryption failed: " message; this agrees with Encrypt2 as written wherever its catch block does not throw |
| EngineSpec.DecryptSuccess | EncryptionMachine.cs:256-303 | on success the body after the prefix was deciphered with the rederived key and written over the output, the input is gone, the tamper flag says whether the output's digest differs from the stored one, nothing else changed |
| EngineSpec.TamperIsNonFatal | EncryptionMachine.cs:289-303 | with no runtime fault and a ciphertext the cipher accepts, Decrypt2 succeeds and deletes the input whether or not the digest matches; the tamper flag is exactly the mismatch |
| EngineSpec.DecryptFailureCleanup | EncryptionMachine.cs:305-328 | on failure an input on another path is intact and the tamper flag is unchanged unless deleting the input failed; an exception escapes iff the catch block's decrypto.Close() rejects the chunks fed before a chunk-loop fault, and then the output stays as opened and the last error is unchanged; otherwise exactly the output path is removed and the message starts with "Decryption failed: " |
| EngineSpec.DecryptFieldsFailure | EncryptionMachine.cs:268-328 | a failure after the prefix is read either escapes from decrypto.Close() in the catch block, leaving the output as opened and the last error unchanged, or removes exactly the output path and records a "Decryption failed: " message |
| EngineSpec.ChunkFaultEscapes | EncryptionMachine.cs:278-309 | a fault in the second Read of the chunk loop, when the cipher rejects the first chunk as a whole message, makes Decrypt2 throw that rejection out of its catch block: the output exists (empty if new), the input is kept, no message is recorded |
| EngineSpec.CleanDecryptCleanup | EncryptionMachine.cs:305-328 | with the crypto stream disposed without a throwing flush, every failure returns false, removes exactly the output path and records a "Decryption failed: " message; this agrees with Decrypt2 as written wherever its catch block does not throw |
| EngineSpec.AliasedPathsLoseInput | EncryptionMachine.cs:169-170 | with input and output on one path both calls fail with a sharing violation, no exception escapes, and the cleanup deletes that path, losing the input |
| EngineSpec.DecryptIgnoresMagic | EncryptionMachine.cs:259-260 | two inputs that differ only in their first 8 bytes decrypt to the same result, message, tamper flag, escaping exception and files |
| EngineSpec.DecryptFieldsFrame | EncryptionMachine.cs:268-303 | after the prefix is read, the outcome does not depend on the input file's entry |
| EngineSpec.RoundTrip | EncryptionMachine.cs:149-333 | encrypting to a path holding nothing longer than the container and decrypting (to a path not holding a longer file) restores the plaintext byte for byte, clears the tamper flag and deletes the container |
| Engine.ChunkReadsStop | EncryptionMachine.cs:192-197 | once a Read of the chunk loop is not performed, no later one is |
| Engine.CopyChunks | EncryptionMachine.cs:192-197 | the cipher stream receives every byte of the input from the current position once, in order; the loop ends after the first Read that returns nothing; a fault in a chunk that is reached ends it with that fault, the chunks before it having been fed |
| Engine.TryEncrypt2 | EncryptionMachine.cs:155-204 | the try block raises exactly Encrypt2's error, leaves the spec's files on success and only the output path changed on failure; it reports StreamOut still open exactly for faults in the digest or header writes, with the output as opened |
| Engine.EncryptOpened | EncryptionMachine.cs:170-203 | after both opens: raises iff a later step faults, and then only the output was touched; StreamOut is left open exactly when the fault precedes the crypto stream; otherwise writes the container and deletes the input unless kept |
| Engine.ReadPrefix | EncryptionMachine.cs:259-266 | the four Reads give the parsed header and leave the stream after the prefix, or at the end of a shorter file |
| Engine.EncryptionMachine.constructor | EncryptionMachine.cs:11-12 | a new engine has no last error and no tamper flag |
| Engine.EncryptionMachine.ProcessKeyWithSalt | EncryptionMachine.cs:95-104 | the 32-byte key derived from the passphrase and the stored salt |
| Engine.EncryptionMachine.RecordFailure | EncryptionMachine.cs:205-217 | removes the output path if present and records the prefixed message |
| Engine.EncryptionMachine.Encrypt2 | EncryptionMachine.cs:149-222 | the result, files, last error, tamper flag and escaping exception after the call are exactly Encrypt2Spec of the state before it |
| Engine.EncryptionMachine.DecryptBody | EncryptionMachine.cs:268-303 | key derivation, chunk loop, deciphering and what follows raise what the try block raises, with the files and tamper flag CleanDecryptFields gives; after a chunk-loop fault it hands back the unclosed crypto stream with the key, the IV and the chunks fed |
| Engine.EncryptionMachine.FinishDecrypt | EncryptionMachine.cs:285-303 | closing writes the plaintext over the output; the tamper flag becomes the digest mismatch of the reopened output; the input is deleted unless a later step faults |
| Engine.EncryptionMachine.Decrypt2 | EncryptionMachine.cs:229-333 | the result, files, last error, tamper flag and escaping exception after the call are exactly Decrypt2Spec of the state before it |
| Engine.EncryptionMachine.GetNewKeyFile | EncryptionMachine.cs:350-360 | a new keyfile holding the random data and the requested length |
| Engine.EncryptionMachine.PreserveKeyfile | EncryptionMachine.cs:364-373 | true, the file written and both messages unchanged when Preserve succeeds; otherwise false, no file changes and the engine's last error is the keyfile's message |
| Engine.EncryptionMachine.LoadKeyfileFromDisk | EncryptionMachine.cs:377-396 | null with "Unable to read the key file from disk." when the read fails, null with "Invalid keyfile data." when the file is not 512 bytes, otherwise the loaded keyfile with the last error unchanged |
| Engine.EncryptThenDecrypt | EncryptionMachine.cs:149-333 | a caller that encrypts to a new path and decrypts to another free path gets the plaintext back, the container is gone and no tampering is reported |

## Left out

- `Encrypt`, `Decrypt` (EncryptionMachine.cs:17-79): pass-throughs to the AES library with no
  logic of their own. The cipher is the `CipherSuite`'s `encipher`/`decipher` pair.
- AES-CBC with PKCS7 padding, HMAC-SHA256, PBKDF2 (Rfc2898DeriveBytes) and SHA-512 themselves:
  library code. Only the properties listed above are assumed of them.
- `GetRandom16IV`, `GenerateRandomData` and the salt drawn by `FortKey.GetNew()`: the
  random-number generator is not modelled. Its output is a parameter of the right length.
- `CreateKey` (EncryptionMachine.cs:84-88): it only constructs `new FortKey(passphrase)`, so the
  model writes that construction inline where Encrypt2 calls it and has no member of its own.
- `EncryptedFileExtension`, `IsDataTampered`, `GetLastErrorMessage`, and the
  `Salt`, `Data`, `Length` and `LastErrorMessage` accessors: each returns a field or
  constant, which the model exposes as that field or constant.
- Stream handles, closing and disposal order: abstracted into the file map. Which stream is
  open at the cleanup is modelled only where it decides the outcome. There are two such cases:
  Encrypt2's `StreamOut` before the crypto stream exists, and Decrypt2's crypto stream left
  unclosed by a fault inside the chunk loop (`Engine.Decryptor`).
- Writes buffered in a `StreamOut` that Encrypt2 leaves open after an escaping exception:
  the model leaves the output as opened. Bytes the stream's finaliser may flush later are
  not modelled.
- EngineSpec.DecryptFields: after the exception escapes from `decrypto.Close()`, the model
  leaves the output as opened. The plaintext blocks the decryptor had already passed to
  `StreamOut` before the fault are not modelled. The cipher is abstracted as deciphering a
  whole message, so there is no notion of partial output.
- Other exceptions raised inside the catch blocks are not modelled. Examples are a failing
  `StreamIn.Close()` or `File.Exists`. A second `decrypto.Close()` after the one in the try
  block has thrown does not flush again.
- Partial writes by `File.WriteAllBytes`: not modelled. `Preserve` either writes the whole
  file or nothing.
- Keys.DeriveKey: requires a salt of at least 8 bytes. Rfc2898DeriveBytes would raise
  ArgumentException for a shorter salt (FortKey.cs:37, 57, 70); that error path is not
  modelled.
- Keys.FortKey.GetNewFromSalt: requires a salt of at least 8 bytes, although the public
  `GetNew(byte[])` accepts any salt and would throw ArgumentException for a shorter one
  (FortKey.cs:37).
- Keys.FortKey.VerifyPassphrase: requires a salt of at least 8 bytes, although the public
  method would throw ArgumentException for a shorter one (FortKey.cs:70).
- Engine.EncryptionMachine.ProcessKeyWithSalt: requires a salt of at least 8 bytes. Decrypt2
  always passes the 8-byte buffer it reads (EncryptionMachine.cs:252, 264).
- Missing-file errors: every missing path raises `FileNotFoundException` with its message
  (`FileStore.FileNotFoundMessage`). The file map has no directories, so the
  `DirectoryNotFoundException` .NET raises when a path's directory is missing is not modelled.
- `Encrypt2`/`Decrypt2` on the same path: aliasing is path-string equality only. Symbolic
  links, case-insensitive names and relative paths naming one file are not modelled.
- `Engine.CopyChunks`: it models the bytes each chunk hands to the cipher stream, not how
  the cipher blocks them. The cipher output is `encipher` of the whole plaintext.
- `GetFileLastModified`, `GetFileSizeInBytes`, `GetDirectoryFileCount*` and
  `GetFilesInDirectory*`: directory and metadata I/O. `GetFileSizeInMB` is floating point.
- `Console.WriteLine` in `Preserve`: an output side effect only.
- IEncryptionMachine.cs and FortFactory.cs: an interface and a one-line factory. The engine's
  constructor models the factory's result.
- The format constants are public mutable statics in the source. The model treats them as
  constants.

## Behaviours of the code the model keeps

- `VerifyHash` returns at the first differing byte (DataIntegrity.cs:52-53, 75-76), and
  `VerifyPassphrase` compares with `SequenceEqual` (FortKey.cs:72). `Integrity.CompareDigests`
  counts the bytes compared.
- Encrypt2 and Decrypt2 open the output with `FileMode.OpenOrCreate`, which does not truncate
  (EncryptionMachine.cs:170, 257). `FileStore.Overwrite` keeps a longer old file's tail.
- Decrypt2 opens the output before it reads the prefix and derives the key
  (EncryptionMachine.cs:257-268).
- Decrypt2 deletes the input as the last step of its try block (EncryptionMachine.cs:303). If
  that deletion fails, the catch block deletes the decrypted output (EncryptionMachine.cs:323-324).
- With input and output on one path, the second open fails. The catch block has closed
  `StreamIn` and then deletes that path, so the input is lost (EncryptionMachine.cs:169-170,
  210-214, 256-257, 314-324).

## Findings

| source | as written | input that shows it | evidently intended | confidence | as-written member | corrected member |
|---|---|---|---|---|---|---|
| EncryptionMachine.cs:205-214 | the catch block closes `crypto` and `StreamIn` but never `StreamOut`; with `crypto` still null, `File.Delete(outputpath)` runs on the open `StreamOut` and throws, so the IOException leaves Encrypt2 and the empty output stays | a fault in `GetHMACHash` or a header `Write` (EncryptionMachine.cs:172-182), input present, output on a fresh other path | close `StreamOut` before deleting, as Decrypt2's catch does (EncryptionMachine.cs:311-312): return false with the message recorded and the output removed | not executed; medium, as it relies on Windows share semantics | EngineSpec.CleanupEscapes | EngineSpec.ClosingCleanup |
| EncryptionMachine.cs:305-309 | after a fault inside the chunk loop (EncryptionMachine.cs:278-283), the catch block's first statement `decrypto.Close()` flushes the final block over the chunks fed so far; the cipher rejects a mid-stream block's padding, the CryptographicException leaves Decrypt2, StreamOut stays open and no message is recorded | a body longer than 4096 bytes, the second Read faulting, the first 4096 bytes not validly padded as a whole message | dispose the crypto stream without letting its flush throw, then close the streams, delete the output and return false with the original message | not executed; medium, as the flush failing depends on the padding of the chunks already fed | EngineSpec.ChunkFaultEscapes | EngineSpec.CleanDecryptCleanup |
