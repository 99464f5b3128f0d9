/** FortMachineConstants: the container format's sizes and marker. */
module MachineConstants {
  import opened CryptoLib

  const ENCRYPTED_FILE_EXTENSION: string := ".fortenc"
  const IV_SIZE: nat := 16
  const SALT_SIZE: nat := 8
  const KEY_SIZE: nat := 32
  const DATA_INTEGRITY_HASH_SIZE: nat := 32
  const MAGIC_HEADER: seq<byte> := [4, 6, 3, 9, 3, 3, 5, 2]
  const MAGIC_HEADER_SIZE: nat := 8
  const RECOMMENDED_KEY_FILE_SIZE: nat := 512

  /** Offsets of the fields of the container prefix, in the order Encrypt2 writes them. */
  const IV_OFFSET: nat := MAGIC_HEADER_SIZE
  const SALT_OFFSET: nat := IV_OFFSET + IV_SIZE
  const DIGEST_OFFSET: nat := SALT_OFFSET + SALT_SIZE
  const PREFIX_SIZE: nat := DIGEST_OFFSET + DATA_INTEGRITY_HASH_SIZE

  /** The constants fit together: the marker is as long as declared, the prefix is 64 bytes,
      keys and digests are the library's output sizes and a salt is as long as PBKDF2 demands. */
  lemma ConstantsAgree()
    ensures |MAGIC_HEADER| == MAGIC_HEADER_SIZE
    ensures IV_OFFSET == 8 && SALT_OFFSET == 24 && DIGEST_OFFSET == 32 && PREFIX_SIZE == 64
    ensures KEY_SIZE == DATA_INTEGRITY_HASH_SIZE == HMAC_SHA256_SIZE
    ensures SALT_SIZE == PBKDF2_MIN_SALT_SIZE
  {
  }
}
