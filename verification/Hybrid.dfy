/** The hybrid Ed25519 + ML-DSA-65 construction around two signature schemes whose own
    mathematics is not modelled. */
module Hybrid {
  import opened ByteText
  import opened Base64

  const ED25519_SIGNATURE_LEN: nat := 64
  const ED25519_PUBLIC_KEY_LEN: nat := 32
  const ED25519_SECRET_KEY_LEN: nat := 32
  const ML_DSA_65_PUBLIC_KEY_LEN: nat := 1952
  const ML_DSA_65_SIGNATURE_LEN: nat := 3309
  const ML_DSA_65_SECRET_SEED_LEN: nat := 32
  const HYBRID_SECRET_KEY_LEN: nat := ED25519_SECRET_KEY_LEN + ML_DSA_65_SECRET_SEED_LEN

  /** The two library schemes. Signing takes a coin, so nothing here says that it is
      deterministic. */
  datatype Scheme = Scheme(
    edPublic: Bytes -> Bytes,
    edSign: (Bytes, Text, nat) -> Bytes,
    edVerify: (Bytes, Text, Bytes) -> bool,
    mlPublic: Bytes -> Bytes,
    mlSign: (Bytes, Text, nat) -> Bytes,
    mlVerify: (Bytes, Text, Bytes) -> bool)

  ghost predicate EdCorrect(c: Scheme) {
    forall sk: Bytes, m: Text, r: nat :: |sk| == ED25519_SECRET_KEY_LEN ==>
      && |c.edPublic(sk)| == ED25519_PUBLIC_KEY_LEN
      && |c.edSign(sk, m, r)| == ED25519_SIGNATURE_LEN
      && c.edVerify(c.edPublic(sk), m, c.edSign(sk, m, r))
  }

  ghost predicate MlCorrect(c: Scheme) {
    forall sk: Bytes, m: Text, r: nat :: |sk| == ML_DSA_65_SECRET_SEED_LEN ==>
      && |c.mlPublic(sk)| == ML_DSA_65_PUBLIC_KEY_LEN
      && |c.mlSign(sk, m, r)| == ML_DSA_65_SIGNATURE_LEN
      && c.mlVerify(c.mlPublic(sk), m, c.mlSign(sk, m, r))
  }

  /** What is asked of the schemes: a fresh signature verifies under its own key, and keys and
      signatures have their fixed lengths (section 4 of FIPS 204 for ML-DSA-65). */
  ghost predicate Correct(c: Scheme) { EdCorrect(c) && MlCorrect(c) }

  /** A toy scheme that meets the hypothesis: it is not contradictory. */
  const LENIENT := Scheme(
    (sk: Bytes) => seq(32, _ => 0), (sk: Bytes, m: Text, r: nat) => seq(64, _ => 0), (pk: Bytes, m: Text, s: Bytes) => true,
    (sk: Bytes) => seq(1952, _ => 0), (sk: Bytes, m: Text, r: nat) => seq(3309, _ => 0), (pk: Bytes, m: Text, s: Bytes) => true)

  lemma LenientIsCorrect()
    ensures Correct(LENIENT)
  {
  }

  datatype Signer = Signer(ed: Bytes, ml: Bytes) {
    predicate Valid() { |ed| == ED25519_SECRET_KEY_LEN && |ml| == ML_DSA_65_SECRET_SEED_LEN }
  }

  datatype VerifyingKeys = VerifyingKeys(ed25519: Bytes, mlDsa: Bytes)

  datatype Signature = Signature(ed25519: Bytes, mlDsa: Bytes)

  function Public(c: Scheme, s: Signer): VerifyingKeys {
    VerifyingKeys(c.edPublic(s.ed), c.mlPublic(s.ml))
  }

  function Sign(c: Scheme, s: Signer, message: Text, coin: nat): Signature {
    Signature(c.edSign(s.ed, message, coin), c.mlSign(s.ml, message, coin))
  }

  /** The fixed-size arrays of the program appear as length tests. */
  predicate VerifyEd25519(c: Scheme, key: Bytes, message: Text, sig: Bytes) {
    |key| == ED25519_PUBLIC_KEY_LEN && |sig| == ED25519_SIGNATURE_LEN && c.edVerify(key, message, sig)
  }

  predicate VerifyMlDsa(c: Scheme, key: Bytes, message: Text, sig: Bytes) {
    |key| == ML_DSA_65_PUBLIC_KEY_LEN && |sig| == ML_DSA_65_SIGNATURE_LEN && c.mlVerify(key, message, sig)
  }

  predicate Verify(c: Scheme, keys: VerifyingKeys, message: Text, sig: Signature) {
    VerifyEd25519(c, keys.ed25519, message, sig.ed25519) && VerifyMlDsa(c, keys.mlDsa, message, sig.mlDsa)
  }

  lemma SignVerifies(c: Scheme, s: Signer, message: Text, coin: nat)
    requires Correct(c) && s.Valid()
    ensures Verify(c, Public(c, s), message, Sign(c, s, message, coin))
  {
    var sig := Sign(c, s, message, coin);
    assert sig.ed25519 == c.edSign(s.ed, message, coin) && sig.mlDsa == c.mlSign(s.ml, message, coin);
  }

  function ToBytes(s: Signer): Bytes { s.ed + s.ml }

  function FromBytes(bytes: Bytes): Option<Signer> {
    if |bytes| != HYBRID_SECRET_KEY_LEN then None
    else Some(Signer(bytes[..ED25519_SECRET_KEY_LEN], bytes[ED25519_SECRET_KEY_LEN..]))
  }

  /** Restoring is the exact inverse of persisting. */
  lemma FromBytesInverse(bytes: Bytes, s: Signer)
    ensures FromBytes(bytes) == Some(s) <==> s.Valid() && bytes == ToBytes(s)
  {
    if s.Valid() && bytes == ToBytes(s) {
      assert bytes[..ED25519_SECRET_KEY_LEN] == s.ed && bytes[ED25519_SECRET_KEY_LEN..] == s.ml;
    }
    if FromBytes(bytes) == Some(s) {
      assert bytes == bytes[..ED25519_SECRET_KEY_LEN] + bytes[ED25519_SECRET_KEY_LEN..];
    }
  }
}
