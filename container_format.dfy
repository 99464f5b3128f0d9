/**
 * The container Encrypt2 writes and Decrypt2 reads: marker, IV, salt, integrity digest,
 * then the cipher output. Decrypt2 reads the four fields with FileStream.Read into fresh
 * zero-filled buffers and never checks how many bytes each Read returned.
 */
module ContainerFormat {
  import opened CryptoLib
  import opened MachineConstants
  import opened FileStore

  /** The bytes Encrypt2 writes, in order. */
  function Container(iv: seq<byte>, salt: seq<byte>, digest: seq<byte>, cipherText: seq<byte>): (c: seq<byte>)
    requires |iv| == IV_SIZE && |salt| == SALT_SIZE && |digest| == DATA_INTEGRITY_HASH_SIZE
    ensures |c| == PREFIX_SIZE + |cipherText|
    ensures c[..IV_OFFSET] == MAGIC_HEADER && c[IV_OFFSET..SALT_OFFSET] == iv
    ensures c[SALT_OFFSET..DIGEST_OFFSET] == salt && c[DIGEST_OFFSET..PREFIX_SIZE] == digest
    ensures c[PREFIX_SIZE..] == cipherText
  {
    MAGIC_HEADER + iv + salt + digest + cipherText
  }

  function Zeros(n: nat): (z: seq<byte>)
    ensures |z| == n && forall i :: 0 <= i < n ==> z[i] == 0
  {
    seq(n, _ => 0)
  }

  /** A `size`-byte buffer after one Read at `position`: what was read, then the buffer's zeros. */
  function ReadField(data: seq<byte>, position: nat, size: nat): (field: seq<byte>)
    requires position <= |data|
    ensures |field| == size
    ensures position + size <= |data| ==> field == data[position..position + size]
  {
    var got := ReadAt(data, position, size);
    got + Zeros(size - |got|)
  }

  datatype Header = Header(magic: seq<byte>, iv: seq<byte>, salt: seq<byte>, digest: seq<byte>)

  /** Where the reads of the prefix leave the stream: after 64 bytes, or at the end of a shorter file. */
  function BodyOffset(data: seq<byte>): nat {
    Min(PREFIX_SIZE, |data|)
  }

  /** The four fields as Decrypt2 reads them; a field past the end of a short file reads as zeros. */
  function ParseHeader(data: seq<byte>): (h: Header)
    ensures |h.magic| == MAGIC_HEADER_SIZE && |h.iv| == IV_SIZE
    ensures |h.salt| == SALT_SIZE && |h.digest| == DATA_INTEGRITY_HASH_SIZE
  {
    var n := |data|;
    Header(ReadField(data, 0, MAGIC_HEADER_SIZE), ReadField(data, Min(IV_OFFSET, n), IV_SIZE),
           ReadField(data, Min(SALT_OFFSET, n), SALT_SIZE), ReadField(data, Min(DIGEST_OFFSET, n), DATA_INTEGRITY_HASH_SIZE))
  }

  /** Reading back a container (with any stale bytes after it) gives the fields that were
      written and, after them, the cipher output followed by the stale bytes. */
  lemma ParseContainer(iv: seq<byte>, salt: seq<byte>, digest: seq<byte>, cipherText: seq<byte>, tail: seq<byte>)
    requires |iv| == IV_SIZE && |salt| == SALT_SIZE && |digest| == DATA_INTEGRITY_HASH_SIZE
    ensures var data := Container(iv, salt, digest, cipherText) + tail;
      ParseHeader(data) == Header(MAGIC_HEADER, iv, salt, digest) && data[BodyOffset(data)..] == cipherText + tail
  {
    var c := Container(iv, salt, digest, cipherText);
    var data := c + tail;
    assert data[..PREFIX_SIZE] == c[..PREFIX_SIZE];
    assert data[..IV_OFFSET] == c[..IV_OFFSET];
    assert data[IV_OFFSET..SALT_OFFSET] == c[IV_OFFSET..SALT_OFFSET];
    assert data[SALT_OFFSET..DIGEST_OFFSET] == c[SALT_OFFSET..DIGEST_OFFSET];
    assert data[DIGEST_OFFSET..PREFIX_SIZE] == c[DIGEST_OFFSET..PREFIX_SIZE];
    assert data[PREFIX_SIZE..] == c[PREFIX_SIZE..] + tail;
  }

  /** The marker bytes are read and dropped: data that differ only in their first 8 bytes
      give the same IV, salt, digest and body. */
  lemma MagicIgnored(magic1: seq<byte>, magic2: seq<byte>, rest: seq<byte>)
    requires |magic1| == |magic2| == MAGIC_HEADER_SIZE
    ensures var h1, h2 := ParseHeader(magic1 + rest), ParseHeader(magic2 + rest);
      h1.iv == h2.iv && h1.salt == h2.salt && h1.digest == h2.digest
    ensures (magic1 + rest)[BodyOffset(magic1 + rest)..] == (magic2 + rest)[BodyOffset(magic2 + rest)..]
  {
    var d1, d2 := magic1 + rest, magic2 + rest;
    assert d1[MAGIC_HEADER_SIZE..] == rest == d2[MAGIC_HEADER_SIZE..];
    forall o: nat, size: nat | MAGIC_HEADER_SIZE <= o <= |d1|
      ensures ReadField(d1, o, size) == ReadField(d2, o, size)
    {
      assert d1[o..o + Min(size, |d1| - o)] == rest[o - MAGIC_HEADER_SIZE..o - MAGIC_HEADER_SIZE + Min(size, |d1| - o)];
      assert d2[o..o + Min(size, |d2| - o)] == rest[o - MAGIC_HEADER_SIZE..o - MAGIC_HEADER_SIZE + Min(size, |d2| - o)];
    }
    assert d1[BodyOffset(d1)..] == rest[BodyOffset(d1) - MAGIC_HEADER_SIZE..];
    assert d2[BodyOffset(d2)..] == rest[BodyOffset(d2) - MAGIC_HEADER_SIZE..];
  }
}
