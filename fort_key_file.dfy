/** FortKeyFile: a blob of random bytes usable as a secret, its persistence and its fingerprint. */
module KeyFiles {
  import opened Wrappers
  import opened CryptoLib
  import opened MachineConstants
  import opened FileStore

  newtype uint32 = x: int | 0 <= x < 0x1_0000_0000

  /** File.ReadAllBytes throws an IOException for a file longer than this. */
  const MAX_READ_ALL_BYTES: nat := 0x7FFF_FFFF

  /** The lowercase hex digit of a nibble, as "{0:x2}" prints it. */
  function HexDigit(n: nat): (c: char)
    requires n < 16
  {
    if n < 10 then ('0' as int + n) as char else ('a' as int + n - 10) as char
  }

  predicate IsLowerHexDigit(c: char) {
    '0' <= c <= '9' || 'a' <= c <= 'f'
  }

  /** The nibble a lowercase hex digit stands for. */
  function HexDigitValue(c: char): (v: Option<nat>)
    ensures v.Some? <==> IsLowerHexDigit(c)
    ensures v.Some? ==> v.value < 16 && HexDigit(v.value) == c
  {
    if '0' <= c <= '9' then Some(c as int - '0' as int)
    else if 'a' <= c <= 'f' then Some(c as int - 'a' as int + 10)
    else None
  }

  /** String.Format("{0:x2}", b): two lowercase hex digits, high nibble first. */
  function HexByte(b: byte): (s: string)
    ensures |s| == 2 && IsLowerHexDigit(s[0]) && IsLowerHexDigit(s[1])
  {
    [HexDigit(b as int / 16), HexDigit(b as int % 16)]
  }

  /** The concatenated HexByte of every byte, in order. */
  function HexEncode(digest: seq<byte>): (s: string)
    ensures |s| == 2 * |digest|
    ensures forall i :: 0 <= i < |s| ==> IsLowerHexDigit(s[i])
  {
    if digest == [] then ""
    else HexEncode(digest[..|digest| - 1]) + HexByte(digest[|digest| - 1])
  }

  /** Reads a hex string back into bytes: None if its length is odd or a character is not
      a lowercase hex digit. */
  function HexDecode(s: string): Option<seq<byte>> {
    if s == [] then Some([])
    else if |s| < 2 then None
    else
      match (HexDecode(s[..|s| - 2]), HexDigitValue(s[|s| - 2]), HexDigitValue(s[|s| - 1]))
      case (Some(prefix), Some(high), Some(low)) => Some(prefix + [(high * 16 + low) as byte])
      case _ => None
  }

  /** Each nibble's digit reads back as that nibble. */
  lemma HexDigitRoundTrip(n: nat)
    requires n < 16
    ensures HexDigitValue(HexDigit(n)) == Some(n)
  {
  }

  /** The two digits of a byte read back as that byte. */
  lemma HexByteRoundTrip(b: byte)
    ensures HexDigitValue(HexByte(b)[0]) == Some(b as int / 16)
    ensures HexDigitValue(HexByte(b)[1]) == Some(b as int % 16)
    ensures ((b as int / 16) * 16 + b as int % 16) as byte == b
  {
    HexDigitRoundTrip(b as int / 16);
    HexDigitRoundTrip(b as int % 16);
  }

  /** The fingerprint decodes back to the digest it was made from. */
  lemma {:induction false} HexRoundTrip(digest: seq<byte>)
    ensures HexDecode(HexEncode(digest)) == Some(digest)
  {
    if digest != [] {
      var init, last := digest[..|digest| - 1], digest[|digest| - 1];
      var s := HexEncode(digest);
      assert s == HexEncode(init) + HexByte(last);
      assert s[..|s| - 2] == HexEncode(init);
      assert s[|s| - 2] == HexByte(last)[0] && s[|s| - 1] == HexByte(last)[1];
      HexRoundTrip(init);
      HexByteRoundTrip(last);
      assert init + [last] == digest;
    }
  }

  /** Different digests have different fingerprints. */
  lemma HexEncodeInjective(a: seq<byte>, b: seq<byte>)
    requires HexEncode(a) == HexEncode(b)
    ensures a == b
  {
    HexRoundTrip(a);
    HexRoundTrip(b);
  }

  class FortKeyFile {
    const data: seq<byte>
    const length: uint32
    var lastErrorMessage: Option<string>

    constructor (data: seq<byte>, length: uint32)
      ensures this.data == data && this.length == length && lastErrorMessage == None
    {
      this.data := data;
      this.length := length;
      lastErrorMessage := None;
    }

    /** LoadFromDisk: the whole file as a keyfile of its own length, or null when
        File.ReadAllBytes throws: the path is missing, the file is too long, or another
        I/O error (`ioError`) occurs. */
    static method LoadFromDisk(fs: FileSystem, path: string, ioError: bool) returns (keyFile: FortKeyFile?)
      ensures keyFile == null <==> ioError || path !in fs.files || |fs.files[path]| > MAX_READ_ALL_BYTES
      ensures keyFile != null ==> fresh(keyFile) && keyFile.data == fs.files[path]
      ensures keyFile != null ==> keyFile.length as int == |keyFile.data| && keyFile.lastErrorMessage == None
    {
      if ioError || path !in fs.files || |fs.files[path]| > MAX_READ_ALL_BYTES {
        return null;
      }
      var bytes := fs.files[path];
      keyFile := new FortKeyFile(bytes, |bytes| as uint32);
    }

    /** Preserve: File.WriteAllBytes(path, data) creates or replaces the file; when it throws
        (`ioError` holds the exception's message) nothing is written, the message is kept and
        the result is false. */
    method Preserve(fs: FileSystem, path: string, ioError: Option<string>) returns (ok: bool)
      modifies this, fs
      ensures ok <==> ioError.None?
      ensures ok ==> fs.files == old(fs.files)[path := data] && lastErrorMessage == old(lastErrorMessage)
      ensures !ok ==> fs.files == old(fs.files) && lastErrorMessage == ioError
    {
      if ioError.Some? {
        lastErrorMessage := ioError;
        return false;
      }
      fs.files := fs.files[path := data];
      ok := true;
    }

    /** GetPassphrasePresentationFromData: the SHA-512 digest of the data as lowercase hex,
        built two characters per byte. */
    method GetPassphrasePresentationFromData(cs: CipherSuite) returns (fingerprint: string)
      requires cs.Valid()
      ensures |fingerprint| == 2 * SHA512_SIZE
      ensures forall i :: 0 <= i < |fingerprint| ==> IsLowerHexDigit(fingerprint[i])
      ensures HexDecode(fingerprint) == Some(cs.sha512(data))
    {
      var byteHash := cs.sha512(data);
      fingerprint := "";
      for i := 0 to |byteHash|
        invariant fingerprint == HexEncode(byteHash[..i])
      {
        assert byteHash[..i + 1][..i] == byteHash[..i];
        fingerprint := fingerprint + HexByte(byteHash[i]);
      }
      assert byteHash[..|byteHash|] == byteHash;
      HexRoundTrip(byteHash);
    }

    /** Validate: a keyfile is valid exactly when it is 512 bytes long; the stored length is not consulted. */
    predicate Validate(keyData: seq<byte>): (ok: bool)
      ensures ok <==> |keyData| == RECOMMENDED_KEY_FILE_SIZE
    {
      |keyData| == RECOMMENDED_KEY_FILE_SIZE
    }
  }
}
