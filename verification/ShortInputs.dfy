/** Documents that are read without complaint and on which the next step panics, because a signature
    or a ciphertext is shorter than the split that follows: the exact conditions, and witnesses. */
module ShortInputs {
  import opened BigEndian
  import opened CborCodec
  import opened CborValues
  import opened Crypto
  import Encrypt
  import opened HeaderMaps
  import Kms
  import OpensslPkey
  import opened Sign
  import opened SignVerify
  import opened Wrappers

  /** Verification gets as far as the key: the protected bytes decode, they name the key's algorithm,
      and the digest can be computed. */
  predicate ReachesKey(doc: CoseSign1, hash: Hash, alg: SignatureAlgorithm) {
    && HeaderMaps.FromBytes(doc.protected).Success?
    && Lookup(HeaderMaps.FromBytes(doc.protected).value, ALG_LABEL) == Some(Integer(alg.Id()))
    && StructDigest(hash, alg.SuggestedMessageDigest(), doc.protected, doc.payload).Success?
  }

  /** Any key: verification panics exactly when it reaches the key and the key panics. */
  lemma VerifyPanicsWithKey(doc: CoseSign1, hash: Hash, key: SigningKey, alg: SignatureAlgorithm)
    requires forall d, x :: hash(d, x) != Panic
    requires key.parameters == Success((alg, alg.SuggestedMessageDigest()))
    ensures VerifySignature(doc, hash, key) == Panic <==>
      && ReachesKey(doc, hash, alg)
      && key.verify(
           StructDigest(hash, alg.SuggestedMessageDigest(), doc.protected, doc.payload).value, doc.signature) == Panic
    ensures GetPayload(doc, hash, Some(key)) == Panic <==> VerifySignature(doc, hash, key) == Panic
    ensures GetProtectedAndPayload(doc, hash, Some(key)) == Panic <==> VerifySignature(doc, hash, key) == Panic
  {
    hide HeaderMaps.FromBytes, NewSign1, SigStructure.AsBytes;
    Sign1StreamEncodes(doc.protected, doc.payload);
  }

  /** With an OpenSSL key, verifying a document, directly or through either getter, panics exactly
      when it reaches the key and the signature is shorter than the key length. */
  lemma OpensslVerifyPanics(doc: CoseSign1, hash: Hash, key: OpensslPkey.PKey)
    requires forall d, x :: hash(d, x) != Panic
    requires OpensslPkey.KeyParameters(key).Success?
    ensures
      var (alg, _, keyLength) := OpensslPkey.KeyParameters(key).value;
      var public := OpensslPkey.AsSigningKey(key);
      var panics := ReachesKey(doc, hash, alg) && |doc.signature| < keyLength;
      && (VerifySignature(doc, hash, public) == Panic <==> panics)
      && (GetPayload(doc, hash, Some(public)) == Panic <==> panics)
      && (GetProtectedAndPayload(doc, hash, Some(public)) == Panic <==> panics)
  {
    hide ReachesKey, VerifySignature, GetPayload, GetProtectedAndPayload, StructDigest, OpensslPkey.Verify;
    var (alg, digest, _) := OpensslPkey.KeyParameters(key).value;
    VerifyPanicsWithKey(doc, hash, OpensslPkey.AsSigningKey(key), alg);
    var d := StructDigest(hash, digest, doc.protected, doc.payload);
    if ReachesKey(doc, hash, alg) {
      DigestOfReached(doc, hash, alg);
      OpensslPkey.VerifyReadsIntegers(key, d.value, doc.signature, 0);
    }
  }

  lemma DigestOfReached(doc: CoseSign1, hash: Hash, alg: SignatureAlgorithm)
    requires ReachesKey(doc, hash, alg)
    ensures StructDigest(hash, alg.SuggestedMessageDigest(), doc.protected, doc.payload).Success?
  {
  }

  /** The same with a KMS key, whether it verifies remotely or locally. */
  lemma KmsVerifyPanics(doc: CoseSign1, hash: Hash, key: Kms.KmsKey)
    requires forall d, x :: hash(d, x) != Panic
    requires forall d, r, s :: key.service.verify(d, r, s) != Panic
    requires Kms.Constructed(key)
    ensures
      var public := Kms.AsSigningKey(key);
      var panics := ReachesKey(doc, hash, key.sigAlg) && |doc.signature| < key.sigAlg.KeyLength();
      && (VerifySignature(doc, hash, public) == Panic <==> panics)
      && (GetPayload(doc, hash, Some(public)) == Panic <==> panics)
      && (GetProtectedAndPayload(doc, hash, Some(public)) == Panic <==> panics)
  {
    hide ReachesKey, VerifySignature, GetPayload, GetProtectedAndPayload, StructDigest, Kms.Verify;
    VerifyPanicsWithKey(doc, hash, Kms.AsSigningKey(key), key.sigAlg);
    var d := StructDigest(hash, key.sigAlg.SuggestedMessageDigest(), doc.protected, doc.payload);
    if ReachesKey(doc, hash, key.sigAlg) {
      DigestOfReached(doc, hash, key.sigAlg);
      KmsKeyPanics(key, d.value, doc.signature);
    }
  }

  lemma KmsKeyPanics(key: Kms.KmsKey, data: seq<byte>, signature: seq<byte>)
    requires forall d, r, s :: key.service.verify(d, r, s) != Panic
    requires Kms.Constructed(key)
    ensures Kms.Verify(key, data, signature) == Panic <==> |signature| < key.sigAlg.KeyLength()
  {
    hide OpensslPkey.Verify, Os2ip;
    Kms.PublicKeyParameters(key);
    if key.publicKey.Some? {
      OpensslPkey.VerifyReadsIntegers(key.publicKey.value, data, signature, 0);
    }
  }

  /** For every algorithm and payload there is a document with an empty signature that is written and
      read without error, and on which every OpenSSL key of that algorithm panics. */
  lemma EmptySignatureAccepted(hash: Hash, payload: seq<byte>, key: OpensslPkey.PKey, tagged: bool)
    requires forall d, x :: hash(d, x).Success?
    requires |payload| < 0x1_0000_0000_0000_0000
    requires OpensslPkey.KeyParameters(key).Success?
    ensures
      var header := EmptyOrSerialized(AlgorithmHeader(OpensslPkey.KeyParameters(key).value.0));
      && header.Success?
      && var doc := CoseSign1(header.value, [], payload, []);
      && doc.AsBytes(tagged).Success?
      && Sign.FromBytes(doc.AsBytes(tagged).value) == Success(doc)
      && VerifySignature(doc, hash, OpensslPkey.AsSigningKey(key)) == Panic
  {
    hide HeaderMaps.FromBytes, Sign.FromBytes, CoseSign1.AsBytes, EmptyOrSerialized, Encodable, VerifySignature,
      NewSign1, SigStructure.AsBytes, SignatureAlgorithm.Id;
    var alg := OpensslPkey.KeyParameters(key).value.0;
    AlgorithmIdPath(alg.Id());
    var doc := CoseSign1(EmptyOrSerialized(AlgorithmHeader(alg)).value, [], payload, []);
    ShortHeader(alg);
    Sign1StreamEncodes(doc.protected, payload);
    EncodableRange(Map([]));
    SerializesWhen(doc, tagged);
    WireRoundTrip(doc, tagged);
    OpensslVerifyPanics(doc, hash, key);
  }

  lemma ShortHeader(alg: SignatureAlgorithm)
    ensures EmptyOrSerialized(AlgorithmHeader(alg)).Success?
    ensures |EmptyOrSerialized(AlgorithmHeader(alg)).value| <= 4
  {
    hide Encodable;
    AlgorithmIdPath(alg.Id());
    AlgorithmHeaderLayout(Integer(alg.Id()));
  }

  /** For every algorithm and IV there is a document with an empty ciphertext that is written and read
      without error and on which decryption panics, whatever the key. */
  lemma EmptyCiphertextAccepted(alg: Encrypt.CoseAlgorithm, iv: seq<byte>, c: Encrypt.Aead, key: seq<byte>,
                                tagged: bool)
    requires |iv| < 0x1_0000_0000_0000_0000
    ensures
      var header := EmptyOrSerialized(Singleton(ALG_LABEL, Integer(alg.Value())));
      && header.Success?
      && var doc := Encrypt.CoseEncrypt0(header.value, Singleton(Encrypt.IV_LABEL, Bytes(iv)), []);
      && doc.AsBytes(tagged).Success?
      && Encrypt.FromBytes(doc.AsBytes(tagged).value) == Success(doc)
      && Encrypt.Decrypt(doc, c, key) == Panic
  {
    hide HeaderMaps.FromBytes, Encrypt.FromBytes, Encrypt.CoseEncrypt0.AsBytes, EmptyOrSerialized, Encodable,
      Encrypt.Decrypt;
    Encrypt.StreamEncodes(alg);
    Encrypt.StreamLength(alg);
    var unprotected := Singleton(Encrypt.IV_LABEL, Bytes(iv));
    var doc := Encrypt.CoseEncrypt0(
      EmptyOrSerialized(Singleton(ALG_LABEL, Integer(alg.Value()))).value, unprotected, []);
    EncodableRange(Map(unprotected));
    EncodableRange(Encrypt.IV_LABEL);
    EncodableRange(Bytes(iv));
    Encrypt.SerializesWhen(doc, tagged);
    Encrypt.WireRoundTrip(doc, tagged);
    Encrypt.DecryptPanics(doc, c, key);
  }
}
