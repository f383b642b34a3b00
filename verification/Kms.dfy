/** Signing and verifying with AWS KMS keys (src/crypto/kms.rs): the remote service is a function
    value, the packing is the crate's own. */
module Kms {
  import opened BigEndian
  import opened Crypto
  import OpensslPkey
  import opened Wrappers

  /** `sign` gives the integers of the DER signature that the service returned, or its error. */
  datatype Service = Service(
    sign: (seq<byte>, nat) -> Result<(nat, nat)>,
    verify: (seq<byte>, nat, nat) -> Result<bool>)

  datatype KmsKey = KmsKey(sigAlg: SignatureAlgorithm, publicKey: Option<OpensslPkey.PKey>, service: Service)

  function New(service: Service, sigAlg: SignatureAlgorithm): KmsKey {
    KmsKey(sigAlg, None, service)
  }

  /** A key with local verification takes its algorithm from the curve of the public key. */
  function NewWithPublicKey(service: Service, publicKey: OpensslPkey.PKey): Result<KmsKey> {
    var p :- OpensslPkey.KeyParameters(publicKey);
    Success(KmsKey(p.0, Some(publicKey), service))
  }

  /** The keys that the two constructors make. */
  ghost predicate Constructed(key: KmsKey) {
    if key.publicKey.None? then
      key == New(key.service, key.sigAlg)
    else
      NewWithPublicKey(key.service, key.publicKey.value) == Success(key)
  }

  function GetParameters(key: KmsKey): Result<(SignatureAlgorithm, MessageDigest)> {
    Success((key.sigAlg, key.sigAlg.SuggestedMessageDigest()))
  }

  function Verify(key: KmsKey, data: seq<byte>, signature: seq<byte>): Result<bool> {
    if key.publicKey.Some? then
      OpensslPkey.Verify(key.publicKey.value, data, signature)
    else
      var (bytesR, bytesS) :- SplitAt(signature, key.sigAlg.KeyLength());
      key.service.verify(data, Os2ip(bytesR), Os2ip(bytesS))
  }

  function SignSpec(key: KmsKey, data: seq<byte>, nonce: nat): Result<seq<byte>> {
    var (r, s) :- key.service.sign(data, nonce);
    Merged(ShortestBytes(r), ShortestBytes(s), key.sigAlg.KeyLength())
  }

  /** Signing with the inlined padding. It gives what `merge_ec_signature` gives for the same
      integers, including the failing assertions. */
  method Sign(key: KmsKey, data: seq<byte>, nonce: nat) returns (result: Result<seq<byte>>)
    ensures result == SignSpec(key, data, nonce)
  {
    hide PadTo, ShortestBytes, Overwrite;
    var reply := key.service.sign(data, nonce);
    if !reply.Success? {
      return reply.PropagateFailure();
    }
    var (r, s) := reply.value;
    var keyLength := key.sigAlg.KeyLength();
    var bytesR, bytesS := ShortestBytes(r), ShortestBytes(s);
    if |bytesR| > keyLength || |bytesS| > keyLength {
      return Panic;
    }

    var signatureBytes := new byte[keyLength * 2](_ => 0);
    assert signatureBytes[..] == Zeros(2 * keyLength);

    var offsetCopy := keyLength - |bytesR|;
    CopyFromSlice(signatureBytes, offsetCopy, bytesR);

    offsetCopy := keyLength - |bytesS| + keyLength;
    CopyFromSlice(signatureBytes, offsetCopy, bytesS);

    BothCopied(bytesR, bytesS, keyLength);
    result := Success(signatureBytes[..]);
  }

  function AsSigningKey(key: KmsKey): SigningKey {
    SigningKey(
      GetParameters(key),
      (data, nonce) => SignSpec(key, data, nonce),
      (data, signature) => Verify(key, data, signature))
  }

  /** A key with a public key has exactly the parameters of that public key, and local and remote
      verification split signatures at the same length. */
  lemma PublicKeyParameters(key: KmsKey)
    requires Constructed(key)
    ensures key.publicKey.Some? ==>
      && OpensslPkey.GetParameters(key.publicKey.value) == GetParameters(key)
      && OpensslPkey.KeyParameters(key.publicKey.value).Success?
      && OpensslPkey.KeyParameters(key.publicKey.value).value.2 == key.sigAlg.KeyLength()
  {
  }

  // ---------------------------------------------------------------- exact outcomes

  /** The two constructors: the algorithm is the caller's choice or that of the public key, which must be
      supported. */
  lemma ConstructorOutcome(service: Service, sigAlg: SignatureAlgorithm, publicKey: OpensslPkey.PKey)
    ensures
      var key := New(service, sigAlg);
      && key.service == service && key.publicKey == None
      && GetParameters(key) ==
           match sigAlg
           case ES256 => Success((ES256, Sha256))
           case ES384 => Success((ES384, Sha384))
           case ES512 => Success((ES512, Sha512))
    ensures
      var r := NewWithPublicKey(service, publicKey);
      match OpensslPkey.KeyParameters(publicKey)
      case Success((alg, digest, _)) =>
        && r.Success? && r.value.service == service && r.value.publicKey == Some(publicKey)
        && GetParameters(r.value) == Success((alg, digest))
      case _ => r == Failure(UnsupportedError)
  {
  }

  /** The exact outcome of verification on every signature. A local public key decides alone; otherwise a
      signature shorter than the key length panics, and the service's answer on the two integers that
      the signature packs is passed on, verdict or error. */
  lemma VerifyOutcome(key: KmsKey, data: seq<byte>, signature: seq<byte>)
    ensures key.publicKey.Some? ==>
      Verify(key, data, signature) == OpensslPkey.Verify(key.publicKey.value, data, signature)
    ensures key.publicKey.None? ==>
      var n := key.sigAlg.KeyLength();
      if |signature| < n then Verify(key, data, signature) == Panic else
      exists r: nat, s: nat ::
        && Packs(signature, n, r, s)
        && Verify(key, data, signature) == key.service.verify(data, r, s)
  {
    hide Os2ip, Packs;
    var n := key.sigAlg.KeyLength();
    if key.publicKey.None? && n <= |signature| {
      var r, s := Os2ip(signature[..n]), Os2ip(signature[n..]);
      SplitIsUnpacking(signature, n, r, s);
    }
  }

  /** Remote verification from the side of the integers. */
  lemma VerifyAsksService(key: KmsKey, data: seq<byte>, r: nat, s: nat, width: nat)
    requires key.publicKey.None?
    requires r < Pow256(key.sigAlg.KeyLength()) && s < Pow256(width)
    ensures
      var signature := I2osp(r, key.sigAlg.KeyLength()) + I2osp(s, width);
      Verify(key, data, signature) == key.service.verify(data, r, s)
  {
    hide Os2ip, I2osp, Pow256;
    var n := key.sigAlg.KeyLength();
    SplitIsUnpacking(I2osp(r, n) + I2osp(s, width), n, r, s);
  }

  /** The exact outcome of signing: the integers of the service in fixed width, its error, or a failed
      assertion when one of them does not fit. */
  lemma SignOutcome(key: KmsKey, data: seq<byte>, nonce: nat)
    ensures
      var n := key.sigAlg.KeyLength();
      SignSpec(key, data, nonce) ==
        match key.service.sign(data, nonce)
        case Success((r, s)) => if r < Pow256(n) && s < Pow256(n) then Success(I2osp(r, n) + I2osp(s, n)) else Panic
        case Failure(e) => Failure(e)
        case Panic => Panic
  {
    hide Pow256, I2osp, ShortestBytes, Merged;
    if key.service.sign(data, nonce).Success? {
      var (r, s) := key.service.sign(data, nonce).value;
      PackingOutcome(r, s, key.sigAlg.KeyLength());
    }
  }

  // ---------------------------------------------------------------- signing, then verifying

  /** The service signs correctly for the curve of the key's algorithm: the service itself, or the
      local public key, accepts what it signs. */
  ghost predicate ServiceCorrect(key: KmsKey) {
    forall data: seq<byte>, nonce: nat :: key.service.sign(data, nonce).Success? ==>
      var (r, s) := key.service.sign(data, nonce).value;
      && r < Pow2(CurveBits(key.sigAlg)) && s < Pow2(CurveBits(key.sigAlg))
      && match key.publicKey
         case None => key.service.verify(data, r, s) == Success(true)
         case Some(k) => k.Ec? ==> k.ecdsa.verify(data, r, s) == Some(true)
  }

  /** A KMS signature has twice the key length and is accepted, remotely or with the local public
      key, and the packing assertions never fail. */
  lemma SignThenVerify(key: KmsKey, data: seq<byte>, nonce: nat)
    requires Constructed(key) && ServiceCorrect(key)
    ensures SignSpec(key, data, nonce) == Panic ==> key.service.sign(data, nonce) == Panic
    ensures SignSpec(key, data, nonce).Success? <==> key.service.sign(data, nonce).Success?
    ensures SignSpec(key, data, nonce).Success? ==>
      var signature := SignSpec(key, data, nonce).value;
      |signature| == 2 * key.sigAlg.KeyLength() && Verify(key, data, signature) == Success(true)
  {
    hide Pow2, Pow256, I2osp, SignSpec, OpensslPkey.Verify, CurveBits;
    SignOutcome(key, data, nonce);
    if key.service.sign(data, nonce).Success? {
      var (r, s) := key.service.sign(data, nonce).value;
      var n := key.sigAlg.KeyLength();
      PublicKeyParameters(key);
      PackingNeverAsserts(key.sigAlg, r, s);
      if key.publicKey.Some? {
        OpensslPkey.VerifyAsksEcdsa(key.publicKey.value, data, r, s, n);
      } else {
        VerifyAsksService(key, data, r, s, n);
      }
    }
  }

  /** Keys with that law exist, for every algorithm. */
  lemma CorrectKeyExists(sigAlg: SignatureAlgorithm)
    ensures exists key: KmsKey ::
      && key.sigAlg == sigAlg && Constructed(key) && ServiceCorrect(key)
      && forall d, n: nat :: key.service.sign(d, n).Success?
  {
    hide CurveBits;
    var service := Service((d, n) => Success((0, 0)), (d, r, s) => Success(r == 0 && s == 0));
    var key := New(service, sigAlg);
    assert ServiceCorrect(key) && forall d, n: nat :: key.service.sign(d, n).Success?;
  }

  /** A KMS key is a key pair with itself. */
  lemma KmsIsKeyPair(key: KmsKey)
    requires Constructed(key) && ServiceCorrect(key)
    ensures KeyPair(AsSigningKey(key), AsSigningKey(key))
  {
    hide SignSpec, Verify, ServiceCorrect, Constructed;
    forall data, nonce: nat | SignSpec(key, data, nonce).Success?
      ensures Verify(key, data, SignSpec(key, data, nonce).value) == Success(true)
    {
      SignThenVerify(key, data, nonce);
    }
  }
}
