/** The whole path with concrete keys: ECDSA on integers, fixed-width packing, COSE_Sign1 and its
    wire form. */
module EndToEnd {
  import opened BigEndian
  import opened CborValues
  import opened Crypto
  import opened HeaderMaps
  import Kms
  import opened OpensslPkey
  import opened Sign
  import opened SignVerify
  import opened Wrappers

  lemma AlgorithmHeaderReads(alg: SignatureAlgorithm)
    ensures Lookup(AlgorithmHeader(alg), ALG_LABEL) == Some(Integer(alg.Id()))
    ensures EmptyOrSerialized(AlgorithmHeader(alg)).Success?
  {
    AlgorithmIdPath(alg.Id());
  }

  /** What a true verdict under an OpenSSL key is worth: exactly that the key is supported, the protected
      bytes name its algorithm, and ECDSA accepts the two integers that the signature packs, on the
      digest of this document's protected bytes and payload. */
  lemma OpensslVerified(doc: CoseSign1, hash: Hash, key: PKey)
    ensures VerifySignature(doc, hash, AsSigningKey(key)) == Success(true) <==>
      && KeyParameters(key).Success?
      && var (alg, digest, n) := KeyParameters(key).value;
      && HeaderMaps.FromBytes(doc.protected).Success?
      && Lookup(HeaderMaps.FromBytes(doc.protected).value, Integer(1)) == Some(Integer(alg.Id()))
      && var d := StructDigest(hash, digest, doc.protected, doc.payload);
      && d.Success?
      && exists r: nat, s: nat :: Packs(doc.signature, n, r, s) && key.ecdsa.verify(d.value, r, s) == Some(true)
  {
    hide StructDigest, HeaderMaps.FromBytes, Lookup, OpensslPkey.Verify, Packs, VerifySignature, SignatureAlgorithm.Id;
    SignVerify.VerifyOutcome(doc, hash, AsSigningKey(key));
    IdTable();
    if KeyParameters(key).Success? {
      var (alg, digest, n) := KeyParameters(key).value;
      var d := StructDigest(hash, digest, doc.protected, doc.payload);
      if d.Success? {
        PackedVerdict(key, d.value, doc.signature);
      }
    }
  }

  lemma IdTable()
    ensures ES256.Id() == -7 && ES384.Id() == -35 && ES512.Id() == -36
  {
  }

  lemma PackedVerdict(key: PKey, digest: seq<byte>, signature: seq<byte>)
    requires KeyParameters(key).Success?
    ensures OpensslPkey.Verify(key, digest, signature) == Success(true) <==>
      exists r: nat, s: nat ::
        Packs(signature, KeyParameters(key).value.2, r, s) && key.ecdsa.verify(digest, r, s) == Some(true)
  {
    hide OpensslPkey.Verify, I2osp, Pow256;
    OpensslPkey.VerifyOutcome(key, digest, signature);
    var n := KeyParameters(key).value.2;
    if r: nat, s: nat :| Packs(signature, n, r, s) && key.ecdsa.verify(digest, r, s) == Some(true) {
      VerifyAsksEcdsa(key, digest, r, s, |signature| - n);
    }
  }

  /** `CoseSign1::new` with an OpenSSL private key: no assertion of the packing fails, the signature
      has twice the key length, and what the receiver opens with the public key is the payload. */
  lemma OpensslEndToEnd(hash: Hash, payload: seq<byte>, unprotected: Header, private: PKey, public: PKey,
                        nonce: nat, tagged: bool)
    requires forall d, x :: hash(d, x) != Panic
    requires private.Ec? && public.Ec? && private.curve == public.curve
    requires KeyParameters(private).Success?
    requires EcdsaCorrect(private.ecdsa, public.ecdsa, CurveBits(KeyParameters(private).value.0))
    ensures
      var (alg, _, keyLength) := KeyParameters(private).value;
      var r := NewWithProtected(hash, payload, AlgorithmHeader(alg), unprotected, AsSigningKey(private), nonce);
      && r != Panic
      && (r.Success? ==> |r.value.signature| == 2 * keyLength)
      && (r.Success? && r.value.AsBytes(tagged).Success? ==>
            && Sign.FromBytes(r.value.AsBytes(tagged).value) == Success(r.value)
            && GetProtectedAndPayload(r.value, hash, Some(AsSigningKey(public)))
               == Success((AlgorithmHeader(alg), payload)))
  {
    hide OpensslPkey.Sign, OpensslPkey.Verify, EcdsaCorrect, CurveBits, HeaderMaps.FromBytes, Sign.FromBytes,
      EmptyOrSerialized, Lookup, GetProtectedAndPayload, CoseSign1.AsBytes, SigStructure.AsBytes, Pow2;
    var (alg, digest, keyLength) := KeyParameters(private).value;
    var key := AsSigningKey(private);
    AlgorithmHeaderReads(alg);
    PkeysAreKeyPair(private, public);
    var r := NewWithProtected(hash, payload, AlgorithmHeader(alg), unprotected, key, nonce);
    Sign1StreamEncodes(EmptyOrSerialized(AlgorithmHeader(alg)).value, payload);
    var d := StructDigest(hash, digest, EmptyOrSerialized(AlgorithmHeader(alg)).value, payload);
    if d.Success? {
      SignThenVerify(private, public, d.value, nonce);
    }
    if r.Success? && r.value.AsBytes(tagged).Success? {
      EndToEndSigning(hash, payload, AlgorithmHeader(alg), unprotected, key, AsSigningKey(public), nonce, tagged);
    }
  }

  /** The same with a KMS key, verifying remotely or locally. */
  lemma KmsEndToEnd(hash: Hash, payload: seq<byte>, unprotected: Header, key: Kms.KmsKey, nonce: nat, tagged: bool)
    requires forall d, x :: hash(d, x) != Panic
    requires forall d, n :: key.service.sign(d, n) != Panic
    requires Kms.Constructed(key) && Kms.ServiceCorrect(key)
    ensures
      var r := NewWithProtected(hash, payload, AlgorithmHeader(key.sigAlg), unprotected, Kms.AsSigningKey(key), nonce);
      && r != Panic
      && (r.Success? ==> |r.value.signature| == 2 * key.sigAlg.KeyLength())
      && (r.Success? && r.value.AsBytes(tagged).Success? ==>
            && Sign.FromBytes(r.value.AsBytes(tagged).value) == Success(r.value)
            && GetProtectedAndPayload(r.value, hash, Some(Kms.AsSigningKey(key)))
               == Success((AlgorithmHeader(key.sigAlg), payload)))
  {
    hide Kms.SignSpec, Kms.Verify, Kms.ServiceCorrect, Kms.Constructed, HeaderMaps.FromBytes, Sign.FromBytes,
      EmptyOrSerialized, Lookup, GetProtectedAndPayload, CoseSign1.AsBytes, SigStructure.AsBytes;
    AlgorithmHeaderReads(key.sigAlg);
    Kms.KmsIsKeyPair(key);
    var protected := EmptyOrSerialized(AlgorithmHeader(key.sigAlg)).value;
    var r := NewWithProtected(hash, payload, AlgorithmHeader(key.sigAlg), unprotected, Kms.AsSigningKey(key), nonce);
    Sign1StreamEncodes(protected, payload);
    var d := StructDigest(hash, key.sigAlg.SuggestedMessageDigest(), protected, payload);
    if d.Success? {
      Kms.SignThenVerify(key, d.value, nonce);
    }
    if r.Success? && r.value.AsBytes(tagged).Success? {
      EndToEndSigning(hash, payload, AlgorithmHeader(key.sigAlg), unprotected,
                      Kms.AsSigningKey(key), Kms.AsSigningKey(key), nonce, tagged);
    }
  }

  /** Creation with an OpenSSL key: the signature is I2OSP of the integers of ECDSA for the digest of exactly
      the protected bytes and the payload of the document. */
  lemma OpensslCreated(hash: Hash, payload: seq<byte>, protected: Header, unprotected: Header, key: PKey, nonce: nat)
    requires KeyParameters(key).Success?
    requires EmptyOrSerialized(protected).Success?
    ensures
      var r := NewWithProtected(hash, payload, protected, unprotected, AsSigningKey(key), nonce);
      var (_, digest, n) := KeyParameters(key).value;
      var p := EmptyOrSerialized(protected).value;
      match StructDigest(hash, digest, p, payload)
      case Failure(e) => r == Failure(e)
      case Panic => r == Panic
      case Success(d) =>
        match key.ecdsa.sign(d, nonce)
        case None => r == Failure(SignatureError)
        case Some((x, y)) =>
          r == if x < Pow256(n) && y < Pow256(n) then
                 Success(CoseSign1(p, unprotected, payload, I2osp(x, n) + I2osp(y, n)))
               else Panic
  {
    hide EmptyOrSerialized, StructDigest, OpensslPkey.Sign, I2osp, Pow256;
    var d := StructDigest(hash, KeyParameters(key).value.1, EmptyOrSerialized(protected).value, payload);
    if d.Success? {
      OpensslPkey.SignOutcome(key, d.value, nonce);
    }
  }

  /** Creation with a KMS key, in the same terms. */
  lemma KmsCreated(hash: Hash, payload: seq<byte>, protected: Header, unprotected: Header, key: Kms.KmsKey, nonce: nat)
    requires EmptyOrSerialized(protected).Success?
    ensures
      var r := NewWithProtected(hash, payload, protected, unprotected, Kms.AsSigningKey(key), nonce);
      var n := key.sigAlg.KeyLength();
      var p := EmptyOrSerialized(protected).value;
      match StructDigest(hash, key.sigAlg.SuggestedMessageDigest(), p, payload)
      case Failure(e) => r == Failure(e)
      case Panic => r == Panic
      case Success(d) =>
        match key.service.sign(d, nonce)
        case Failure(e) => r == Failure(e)
        case Panic => r == Panic
        case Success((x, y)) =>
          r == if x < Pow256(n) && y < Pow256(n) then
                 Success(CoseSign1(p, unprotected, payload, I2osp(x, n) + I2osp(y, n)))
               else Panic
  {
    hide EmptyOrSerialized, StructDigest, Kms.SignSpec, I2osp, Pow256;
    var d := StructDigest(hash, key.sigAlg.SuggestedMessageDigest(), EmptyOrSerialized(protected).value, payload);
    if d.Success? {
      Kms.SignOutcome(key, d.value, nonce);
    }
  }

  /** What a true verdict under a KMS key is worth: the local public key or the service accepts the two
      integers that the signature packs, on this document's digest, under the key's algorithm. */
  lemma KmsVerified(doc: CoseSign1, hash: Hash, key: Kms.KmsKey)
    requires Kms.Constructed(key)
    ensures VerifySignature(doc, hash, Kms.AsSigningKey(key)) == Success(true) <==>
      && HeaderMaps.FromBytes(doc.protected).Success?
      && Lookup(HeaderMaps.FromBytes(doc.protected).value, Integer(1)) == Some(Integer(key.sigAlg.Id()))
      && var d := StructDigest(hash, key.sigAlg.SuggestedMessageDigest(), doc.protected, doc.payload);
      && d.Success?
      && exists r: nat, s: nat ::
           && Packs(doc.signature, key.sigAlg.KeyLength(), r, s)
           && match key.publicKey
              case None => key.service.verify(d.value, r, s) == Success(true)
              case Some(k) => k.Ec? && k.ecdsa.verify(d.value, r, s) == Some(true)
  {
    hide StructDigest, HeaderMaps.FromBytes, Lookup, Kms.Verify, Packs, VerifySignature, SignatureAlgorithm.Id,
      Kms.Constructed;
    SignVerify.VerifyOutcome(doc, hash, Kms.AsSigningKey(key));
    IdTable();
    var d := StructDigest(hash, key.sigAlg.SuggestedMessageDigest(), doc.protected, doc.payload);
    if d.Success? {
      KmsVerdict(key, d.value, doc.signature);
    }
  }

  lemma KmsVerdict(key: Kms.KmsKey, digest: seq<byte>, signature: seq<byte>)
    requires Kms.Constructed(key)
    ensures Kms.Verify(key, digest, signature) == Success(true) <==>
      exists r: nat, s: nat ::
        && Packs(signature, key.sigAlg.KeyLength(), r, s)
        && match key.publicKey
           case None => key.service.verify(digest, r, s) == Success(true)
           case Some(k) => k.Ec? && k.ecdsa.verify(digest, r, s) == Some(true)
  {
    hide Kms.Verify, I2osp, Pow256, OpensslPkey.Verify;
    Kms.VerifyOutcome(key, digest, signature);
    Kms.PublicKeyParameters(key);
    var n := key.sigAlg.KeyLength();
    if key.publicKey.Some? {
      PackedVerdict(key.publicKey.value, digest, signature);
    } else if r: nat, s: nat :| Packs(signature, n, r, s) && key.service.verify(digest, r, s) == Success(true) {
      Kms.VerifyAsksService(key, digest, r, s, |signature| - n);
    }
  }
}
