/**
 * The .NET cryptography the engine calls (AesCryptoServiceProvider in CBC mode with
 * PKCS7 padding, HMACSHA256, Rfc2898DeriveBytes, SHA512CryptoServiceProvider).
 * None of it is modelled: a CipherSuite carries the primitives as function values,
 * so each is deterministic, and Valid() states the only facts the engine relies on.
 */
module CryptoLib {
  import opened Wrappers

  type byte = bv8

  /** Output length of HMACSHA256.ComputeHash. */
  const HMAC_SHA256_SIZE: nat := 32
  /** Output length of SHA512.ComputeHash. */
  const SHA512_SIZE: nat := 64
  /** Rfc2898DeriveBytes throws ArgumentException for a shorter salt. */
  const PBKDF2_MIN_SALT_SIZE: nat := 8

  datatype CipherSuite = CipherSuite(
    /** encipher(key, iv, plain): the bytes a CryptoStream over CreateEncryptor() emits for `plain`. */
    encipher: (seq<byte>, seq<byte>, seq<byte>) -> seq<byte>,
    /** decipher(key, iv, cipher): the plain bytes, or the CryptographicException that
        FlushFinalBlock raises (bad padding, incomplete final block). */
    decipher: (seq<byte>, seq<byte>, seq<byte>) -> Result<seq<byte>>,
    /** hmac(key, data): new HMACSHA256(key).ComputeHash(data). */
    hmac: (seq<byte>, seq<byte>) -> seq<byte>,
    /** pbkdf2(passphrase, salt, iterations, count): new Rfc2898DeriveBytes(passphrase, salt, iterations).GetBytes(count). */
    pbkdf2: (string, seq<byte>, nat, nat) -> seq<byte>,
    /** sha512(data): SHA512.ComputeHash(data). */
    sha512: seq<byte> -> seq<byte>)
  {
    /** What the engine assumes of the library. */
    ghost predicate Valid() {
      (forall key, iv, plain :: decipher(key, iv, encipher(key, iv, plain)) == Ok(plain)) &&
      (forall key, data :: |hmac(key, data)| == HMAC_SHA256_SIZE) &&
      (forall passphrase, salt, iterations, count :: |pbkdf2(passphrase, salt, iterations, count)| == count) &&
      (forall data :: |sha512(data)| == SHA512_SIZE)
    }
  }
}
