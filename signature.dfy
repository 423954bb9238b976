/**
 * Signature verification: a length guard, a split of the signature into
 * the big-endian integers r and s, and a call to ECDSA over SHA-256 of the
 * plaintext. The hash and the curve check are supplied from outside.
 */
module Signature {
  import opened Wrappers
  import opened Bytes

  /** A P-256 public key, by the coordinates of its point. */
  datatype PublicKey = PublicKey(x: nat, y: nat)

  /** The two primitives the verifier relies on: SHA-256 and `ecdsa.Verify`. */
  datatype Crypto = Crypto(
    sha256: seq<Byte> -> seq<Byte>,
    ecdsaVerify: (PublicKey, seq<Byte>, nat, nat) -> bool)

  /** The arguments handed to `ecdsa.Verify` besides the key. */
  datatype EcdsaInput = EcdsaInput(hash: seq<Byte>, r: nat, s: nat)


  /**
   * The call verifySignature makes into ECDSA, or None when the length guard
   * rejects the signature first. r is read from the first 32 bytes and s from
   * every byte after them.
   */
  function EcdsaCall(pt: seq<Byte>, sig: seq<Byte>, sha256: seq<Byte> -> seq<Byte>): (c: Option<EcdsaInput>)
    ensures c.None? <==> |sig| < 64
    ensures c.Some? ==> c.value.hash == sha256(pt)
    ensures c.Some? ==> c.value.r < Pow256(32) && c.value.s < Pow256(|sig| - 32)
  {
    if |sig| < 64 then None
    else
      var rBuf, sBuf := sig[..32], sig[32..];
      var r, s := BigEndian(rBuf), BigEndian(sBuf);
      assert r < Pow256(32) && s < Pow256(|sig| - 32);
      Some(EcdsaInput(sha256(pt), r, s))
  }

  /** verifySignature: false for a short signature, otherwise the ECDSA verdict. */
  function VerifySignature(key: PublicKey, pt: seq<Byte>, sig: seq<Byte>, crypto: Crypto): (ok: bool)
    ensures |sig| < 64 ==> !ok
  {
    match EcdsaCall(pt, sig, crypto.sha256)
    case None => false
    case Some(c) => crypto.ecdsaVerify(key, c.hash, c.r, c.s)
  }

  /**
   * The layout a signer uses: r in the first 32 bytes, s in all the bytes
   * after them (a signer writes each as FillBytes(_, 32)). The verifier
   * hands ECDSA exactly SHA-256 of pt and the two big-endian values - so,
   * by VerdictOfCall, it returns ECDSA's verdict on them.
   */
  lemma SignatureSplit(pt: seq<Byte>, rBuf: seq<Byte>, sBuf: seq<Byte>, sha256: seq<Byte> -> seq<Byte>)
    requires |rBuf| == 32 && |sBuf| >= 32
    ensures EcdsaCall(pt, rBuf + sBuf, sha256) == Some(EcdsaInput(sha256(pt), BigEndian(rBuf), BigEndian(sBuf)))
  {
    var sig := rBuf + sBuf;
    assert sig[..32] == rBuf && sig[32..] == sBuf;
  }

  /** Once the call into ECDSA is known, the verdict is ECDSA's verdict on it. */
  lemma VerdictOfCall(key: PublicKey, pt: seq<Byte>, sig: seq<Byte>, crypto: Crypto, c: EcdsaInput)
    requires EcdsaCall(pt, sig, crypto.sha256) == Some(c)
    ensures VerifySignature(key, pt, sig, crypto) == crypto.ecdsaVerify(key, c.hash, c.r, c.s)
  {
  }

  /**
   * A signature shorter than 64 bytes is rejected whatever the primitives
   * would say: the ECDSA check is never consulted.
   */
  lemma ShortSignatureNeverReachesEcdsa(key: PublicKey, pt: seq<Byte>, sig: seq<Byte>, c1: Crypto, c2: Crypto)
    requires |sig| < 64
    ensures EcdsaCall(pt, sig, c1.sha256).None?
    ensures VerifySignature(key, pt, sig, c1) == VerifySignature(key, pt, sig, c2) == false
  {
  }

  /**
   * s takes every byte after the first 32, not just bytes 32 to 63: bytes
   * past 64 shift the first 32 bytes of s upward.
   */
  lemma {:induction false} TrailingBytesExtendS(pt: seq<Byte>, sig: seq<Byte>, sha256: seq<Byte> -> seq<Byte>)
    requires |sig| >= 64
    ensures EcdsaCall(pt, sig, sha256).value.s
            == BigEndian(sig[32..64]) * Pow256(|sig| - 64)
               + BigEndian(sig[64..])
  {
    assert sig[32..] == sig[32..64] + sig[64..];
    BigEndianAppend(sig[32..64], sig[64..]);
  }

  /**
   * Longer signatures are accepted too: a zero byte inserted in front of s
   * gives a 65-byte signature with the same verdict as the 64-byte one.
   */
  lemma {:induction false} ZeroPaddedSAccepted(key: PublicKey, pt: seq<Byte>, sig: seq<Byte>, crypto: Crypto)
    requires |sig| == 64
    ensures VerifySignature(key, pt, sig[..32] + [0] + sig[32..], crypto)
            == VerifySignature(key, pt, sig, crypto)
  {
    var longer := sig[..32] + [0] + sig[32..];
    assert longer[..32] == sig[..32];
    assert longer[32..] == [0] + sig[32..];
    LeadingZeroIgnored(sig[32..]);
  }
}
