/** The hashed nonce of `signInWithGoogle`: the SHA-256 digest (FIPS 180-4) of the raw nonce's
    UTF-8 bytes, rendered by the hex fold. SHA-256 itself is a parameter. */
module Nonce {

  import opened Wrappers
  import opened Bytes
  import opened HexFormat
  import Utf8

  /** A SHA-256 digest: 32 bytes. */
  type Digest = d: seq<Byte> | |d| == 32 witness seq(32, _ => 0 as Byte)

  /** `MessageDigest.getInstance("SHA-256").digest(bytes)`, whose internals are not modelled. */
  type Sha256 = seq<Byte> -> Digest

  /** The digest of the raw nonce: `md.digest(rawNonce.toByteArray())`. The bytes hashed are
      the raw nonce's UTF-8 form, which no other string shares. */
  function NonceDigest(rawNonce: string, sha256: Sha256): (d: Digest)
    ensures d == sha256(Utf8.Encode(rawNonce))
    ensures forall other {:trigger Utf8.Encode(other)} :: Utf8.Encode(other) == Utf8.Encode(rawNonce) ==> other == rawNonce
  {
    Utf8.EncodeInjectiveAt(rawNonce);
    sha256(Utf8.Encode(rawNonce))
  }

  /** The hashed nonce: 64 lowercase hex characters from which the digest can be read back. */
  function HashedNonce(rawNonce: string, sha256: Sha256): (h: string)
    ensures |h| == 64 && IsLowerHex(h)
    ensures ParseHex(h) == Some(NonceDigest(rawNonce, sha256))
  {
    var digest := NonceDigest(rawNonce, sha256);
    HexIsLowerHex(digest);
    ParseHexOfHex(digest);
    Hex(digest)
  }

  /** Characters 2i and 2i+1 of the hashed nonce spell digest byte i, high nibble first. */
  lemma HashedNonceAt(rawNonce: string, sha256: Sha256, i: int)
    requires 0 <= i < 32
    ensures DigitValue(HashedNonce(rawNonce, sha256)[2 * i]) == Some(Unsigned(NonceDigest(rawNonce, sha256)[i]) / 16)
    ensures DigitValue(HashedNonce(rawNonce, sha256)[2 * i + 1]) == Some(Unsigned(NonceDigest(rawNonce, sha256)[i]) % 16)
  {
    HexAt(NonceDigest(rawNonce, sha256), i);
  }

  /** Equal hashed nonces come from equal digests; from different raw nonces they need a
      SHA-256 collision, because different strings have different UTF-8 bytes. */
  lemma HashedNonceDeterminesDigest(raw1: string, raw2: string, sha256: Sha256)
    requires HashedNonce(raw1, sha256) == HashedNonce(raw2, sha256)
    ensures NonceDigest(raw1, sha256) == NonceDigest(raw2, sha256)
    ensures raw1 != raw2 ==> Utf8.Encode(raw1) != Utf8.Encode(raw2)
  {
    HexInjective(NonceDigest(raw1, sha256), NonceDigest(raw2, sha256));
    if Utf8.Encode(raw1) == Utf8.Encode(raw2) {
      Utf8.EncodeInjective(raw1, raw2);
    }
  }
}
