/** DataIntegrity: the keyed digest over plaintext and its verification. */
module Integrity {
  import opened CryptoLib

  /** GetHMACHash, both overloads: HMAC-SHA256 of `data` under `key`. The stream overload
      digests what the stream holds from its position to its end. */
  function GetHMACHash(cs: CipherSuite, data: seq<byte>, key: seq<byte>): (hash: seq<byte>)
    requires cs.Valid()
    ensures |hash| == HMAC_SHA256_SIZE
  {
    cs.hmac(key, data)
  }

  /** The first index at which two equally long, different digests differ. */
  function FirstMismatch(a: seq<byte>, b: seq<byte>): (k: nat)
    requires |a| == |b| && a != b
    ensures k < |a| && a[k] != b[k] && a[..k] == b[..k]
  {
    if a[0] != b[0] then 0
    else
      assert a == [a[0]] + a[1..] && b == [b[0]] + b[1..];
      1 + FirstMismatch(a[1..], b[1..])
  }

  /** A mismatch preceded by equal bytes is the first one. */
  lemma {:induction false} FirstMismatchAt(a: seq<byte>, b: seq<byte>, i: nat)
    requires |a| == |b| && i < |a|
    requires a[..i] == b[..i] && a[i] != b[i]
    ensures a != b && FirstMismatch(a, b) == i
  {
    assert a[i] != b[i];
    if i > 0 {
      assert a[0] == a[..i][0] == b[..i][0] == b[0];
      assert a[1..][..i - 1] == a[..i][1..] && b[1..][..i - 1] == b[..i][1..];
      FirstMismatchAt(a[1..], b[1..], i - 1);
    }
  }

  /** The comparison both VerifyHash overloads run after recomputing the digest: unequal
      lengths give false at once; otherwise bytes are XOR-accumulated into `ret` and the loop
      returns false as soon as `ret` is nonzero, so it is not constant-time. `compared` counts
      the bytes looked at. (`ret` is an int in the source; it only ever holds OR-ed bytes,
      so a bv8 holds it exactly.) */
  method CompareDigests(newHash: seq<byte>, oldHash: seq<byte>) returns (equal: bool, ghost compared: nat)
    ensures equal <==> newHash == oldHash
    ensures |oldHash| != |newHash| ==> compared == 0
    ensures |oldHash| == |newHash| && !equal ==> compared == FirstMismatch(newHash, oldHash) + 1
    ensures equal ==> compared == |oldHash|
  {
    compared := 0;
    if |oldHash| != |newHash| {
      return false, 0;
    }
    var ret: bv8 := 0;
    var i := 0;
    while i < |oldHash|
      invariant 0 <= i <= |oldHash|
      invariant ret == 0
      invariant newHash[..i] == oldHash[..i]
      invariant compared == i
    {
      ret := ret | (newHash[i] ^ oldHash[i]);
      compared := i + 1;
      if ret != 0 {
        FirstMismatchAt(newHash, oldHash, i);
        return false, compared;
      }
      assert newHash[..i + 1] == newHash[..i] + [newHash[i]];
      assert oldHash[..i + 1] == oldHash[..i] + [oldHash[i]];
      i := i + 1;
    }
    assert newHash == newHash[..i] && oldHash == oldHash[..i];
    equal := true;
  }

  /** VerifyHash(byte[] data, ...): whether the digest recomputed over `data` is `oldHash`. */
  method VerifyHash(cs: CipherSuite, data: seq<byte>, key: seq<byte>, oldHash: seq<byte>) returns (ok: bool)
    requires cs.Valid()
    ensures ok <==> GetHMACHash(cs, data, key) == oldHash
    ensures |oldHash| != HMAC_SHA256_SIZE ==> !ok
  {
    var newHash := GetHMACHash(cs, data, key);
    ghost var compared;
    ok, compared := CompareDigests(newHash, oldHash);
  }

  /** VerifyHash(Stream plain, ...): the digest is recomputed over what the stream holds
      from `position` to its end. */
  method VerifyHashStream(cs: CipherSuite, stream: seq<byte>, position: nat, key: seq<byte>, oldHash: seq<byte>)
    returns (ok: bool)
    requires cs.Valid()
    requires position <= |stream|
    ensures ok <==> GetHMACHash(cs, stream[position..], key) == oldHash
    ensures |oldHash| != HMAC_SHA256_SIZE ==> !ok
  {
    var newHash := GetHMACHash(cs, stream[position..], key);
    ghost var compared;
    ok, compared := CompareDigests(newHash, oldHash);
  }
}
