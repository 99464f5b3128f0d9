/** FortKey: a passphrase-derived key and the salt it was derived with. */
module Keys {
  import opened Wrappers
  import opened CryptoLib
  import opened MachineConstants

  /** Iteration count given to Rfc2898DeriveBytes. */
  const ITERATIONS: nat := 10000

  /** The 32-byte PBKDF2 key of a passphrase and salt. */
  function DeriveKey(cs: CipherSuite, passphrase: string, salt: seq<byte>): (key: seq<byte>)
    requires cs.Valid()
    requires |salt| >= PBKDF2_MIN_SALT_SIZE
    ensures |key| == KEY_SIZE
  {
    cs.pbkdf2(passphrase, salt, ITERATIONS, KEY_SIZE)
  }

  class FortKey {
    const passphrase: string
    /** The salt of the last GetNew(); null (None) until GetNew() is called. */
    var salt: Option<seq<byte>>

    constructor (passphrase: string)
      ensures this.passphrase == passphrase && salt == None
    {
      this.passphrase := passphrase;
      salt := None;
    }

    /** GetNew(byte[] salt): rederives the key from an existing salt. It reads only the
        passphrase, so it leaves Salt as it is and depends on nothing but its inputs. */
    function GetNewFromSalt(cs: CipherSuite, existingSalt: seq<byte>): (key: seq<byte>)
      requires cs.Valid()
      requires |existingSalt| >= PBKDF2_MIN_SALT_SIZE
      ensures |key| == KEY_SIZE
      ensures key == DeriveKey(cs, passphrase, existingSalt)
    {
      DeriveKey(cs, passphrase, existingSalt)
    }

    /** GetNew(): stores a fresh salt (`randomSalt`, the RNG's 8 bytes) in Salt and returns
        the key derived with it, the one GetNew(Salt) gives again later. */
    method GetNew(cs: CipherSuite, randomSalt: seq<byte>) returns (key: seq<byte>)
      requires cs.Valid()
      requires |randomSalt| == SALT_SIZE
      modifies this
      ensures salt == Some(randomSalt)
      ensures key == GetNewFromSalt(cs, salt.value)
      ensures |key| == KEY_SIZE
    {
      salt := Some(randomSalt);
      key := DeriveKey(cs, passphrase, randomSalt);
    }

    /** VerifyPassphrase: rederives 32 bytes and compares them with `key` by SequenceEqual. */
    static function VerifyPassphrase(cs: CipherSuite, passphrase: string, salt: seq<byte>, key: seq<byte>): (ok: bool)
      requires cs.Valid()
      requires |salt| >= PBKDF2_MIN_SALT_SIZE
      ensures ok <==> |key| == KEY_SIZE && forall i :: 0 <= i < |key| ==> key[i] == DeriveKey(cs, passphrase, salt)[i]
    {
      DeriveKey(cs, passphrase, salt) == key
    }
  }

  /** VerifyPassphrase accepts exactly the key that a FortKey holding the passphrase returns
      from GetNew(salt): the derived key passes, and every other byte string, whatever its
      length, fails. */
  lemma VerifyPassphraseAcceptsDerivedKeys(cs: CipherSuite, key: FortKey, salt: seq<byte>, candidate: seq<byte>)
    requires cs.Valid()
    requires |salt| >= PBKDF2_MIN_SALT_SIZE
    ensures FortKey.VerifyPassphrase(cs, key.passphrase, salt, key.GetNewFromSalt(cs, salt))
    ensures FortKey.VerifyPassphrase(cs, key.passphrase, salt, candidate) <==> candidate == key.GetNewFromSalt(cs, salt)
  {
  }
}
