/** Signing and verifying with OpenSSL elliptic-curve keys (src/crypto/openssl_pkey.rs). */
module OpensslPkey {
  import opened BigEndian
  import opened Crypto
  import opened Wrappers

  datatype Nid = X9_62_PRIME256V1 | SECP384R1 | SECP521R1 | OtherCurve(code: nat)

  /** ECDSA on integers; `None` is an OpenSSL error. The second argument of `sign` stands for the
      nonce. */
  datatype Ecdsa = Ecdsa(
    sign: (seq<byte>, nat) -> Option<(nat, nat)>,
    verify: (seq<byte>, nat, nat) -> Option<bool>)

  datatype PKey = NotEc | Ec(curve: Option<Nid>, ecdsa: Ecdsa)

  function EcCurveToParameters(curve: Nid): Result<(SignatureAlgorithm, MessageDigest, nat)> {
    var alg :- match curve {
      case X9_62_PRIME256V1 => Success(ES256)
      case SECP384R1 => Success(ES384)
      case SECP521R1 => Success(ES512)
      case OtherCurve(_) => Failure(UnsupportedError)
    };
    Success((alg, alg.SuggestedMessageDigest(), alg.KeyLength()))
  }

  function KeyParameters(key: PKey): Result<(SignatureAlgorithm, MessageDigest, nat)> {
    match key
    case NotEc => Failure(UnsupportedError)
    case Ec(curve, _) =>
      var c :- curve.ToResult(UnsupportedError);
      EcCurveToParameters(c)
  }

  function GetParameters(key: PKey): Result<(SignatureAlgorithm, MessageDigest)> {
    var p :- KeyParameters(key);
    Success((p.0, p.1))
  }

  /** `split_at` panics on a signature shorter than the key length. */
  function Verify(key: PKey, digest: seq<byte>, signature: seq<byte>): Result<bool> {
    var p :- KeyParameters(key);
    var (bytesR, bytesS) :- SplitAt(signature, p.2);
    key.ecdsa.verify(digest, Os2ip(bytesR), Os2ip(bytesS)).ToResult(SignatureError)
  }

  function Sign(key: PKey, digest: seq<byte>, nonce: nat): Result<seq<byte>> {
    var p :- KeyParameters(key);
    var (r, s) :- key.ecdsa.sign(digest, nonce).ToResult(SignatureError);
    Merged(ShortestBytes(r), ShortestBytes(s), p.2)
  }

  function AsSigningKey(key: PKey): SigningKey {
    SigningKey(
      GetParameters(key),
      (digest, nonce) => Sign(key, digest, nonce),
      (digest, signature) => Verify(key, digest, signature))
  }

  // ---------------------------------------------------------------- exact outcomes

  /** Which keys are supported, and with what algorithm, digest and integer length. */
  lemma KeyOutcome(key: PKey)
    ensures KeyParameters(key) ==
      match key
      case Ec(Some(X9_62_PRIME256V1), _) => Success((ES256, Sha256, 32))
      case Ec(Some(SECP384R1), _) => Success((ES384, Sha384, 48))
      case Ec(Some(SECP521R1), _) => Success((ES512, Sha512, 66))
      case _ => Failure(UnsupportedError)
    ensures GetParameters(key) ==
      if KeyParameters(key).Success? then Success((KeyParameters(key).value.0, KeyParameters(key).value.1))
      else Failure(UnsupportedError)
  {
  }

  /** The exact outcome of verification on every signature: with an unsupported key an error, with too few
      bytes a panic, and otherwise the verdict of ECDSA on the two integers that the signature packs. */
  lemma VerifyOutcome(key: PKey, digest: seq<byte>, signature: seq<byte>)
    ensures !KeyParameters(key).Success? ==> Verify(key, digest, signature) == Failure(UnsupportedError)
    ensures KeyParameters(key).Success? ==>
      var n := KeyParameters(key).value.2;
      if |signature| < n then Verify(key, digest, signature) == Panic else
      exists r: nat, s: nat ::
        && Packs(signature, n, r, s)
        && Verify(key, digest, signature) ==
             match key.ecdsa.verify(digest, r, s)
             case Some(verdict) => Success(verdict)
             case None => Failure(SignatureError)
  {
    hide Os2ip, Packs;
    if KeyParameters(key).Success? {
      var n := KeyParameters(key).value.2;
      if n <= |signature| {
        var r, s := Os2ip(signature[..n]), Os2ip(signature[n..]);
        SplitIsUnpacking(signature, n, r, s);
      }
    }
  }

  /** The same from the side of the integers, whatever the width of the second one. */
  lemma VerifyAsksEcdsa(key: PKey, digest: seq<byte>, r: nat, s: nat, width: nat)
    requires KeyParameters(key).Success?
    requires r < Pow256(KeyParameters(key).value.2) && s < Pow256(width)
    ensures
      var signature := I2osp(r, KeyParameters(key).value.2) + I2osp(s, width);
      Verify(key, digest, signature) ==
        match key.ecdsa.verify(digest, r, s)
        case Some(verdict) => Success(verdict)
        case None => Failure(SignatureError)
  {
    hide Os2ip, I2osp, Pow256;
    var n := KeyParameters(key).value.2;
    SplitIsUnpacking(I2osp(r, n) + I2osp(s, width), n, r, s);
  }

  /** The exact outcome of signing: I2OSP of both integers of ECDSA, or a failed assertion when one does
      not fit the key length. */
  lemma SignOutcome(key: PKey, digest: seq<byte>, nonce: nat)
    ensures !KeyParameters(key).Success? ==> Sign(key, digest, nonce) == Failure(UnsupportedError)
    ensures KeyParameters(key).Success? ==>
      var n := KeyParameters(key).value.2;
      Sign(key, digest, nonce) ==
        match key.ecdsa.sign(digest, nonce)
        case None => Failure(SignatureError)
        case Some((r, s)) => if r < Pow256(n) && s < Pow256(n) then Success(I2osp(r, n) + I2osp(s, n)) else Panic
  {
    hide Pow256, I2osp, ShortestBytes, Merged;
    if KeyParameters(key).Success? && key.ecdsa.sign(digest, nonce).Some? {
      var (r, s) := key.ecdsa.sign(digest, nonce).value;
      PackingOutcome(r, s, KeyParameters(key).value.2);
    }
  }

  // ---------------------------------------------------------------- signing, then verifying

  /** Correctness of ECDSA on a curve of the given number of bits. */
  ghost predicate EcdsaCorrect(private: Ecdsa, public: Ecdsa, bits: nat) {
    forall digest: seq<byte>, nonce: nat :: private.sign(digest, nonce).Some? ==>
      var (r, s) := private.sign(digest, nonce).value;
      r < Pow2(bits) && s < Pow2(bits) && public.verify(digest, r, s) == Some(true)
  }

  /** Verification panics exactly on signatures shorter than the key length, and it does not see
      leading zeros of the second integer: a longer signature can be accepted too. */
  lemma VerifyReadsIntegers(key: PKey, digest: seq<byte>, signature: seq<byte>, zeros: nat)
    requires KeyParameters(key).Success?
    ensures
      var n := KeyParameters(key).value.2;
      && (Verify(key, digest, signature) == Panic <==> |signature| < n)
      && (n <= |signature| ==>
            Verify(key, digest, signature[..n] + Zeros(zeros) + signature[n..]) == Verify(key, digest, signature))
  {
    hide Os2ip;
    var n := KeyParameters(key).value.2;
    if n <= |signature| {
      var longer := signature[..n] + Zeros(zeros) + signature[n..];
      assert longer[..n] == signature[..n] && longer[n..] == Zeros(zeros) + signature[n..];
      LeadingZeros(zeros, signature[n..]);
    }
  }

  /** A signature made with an OpenSSL key never trips the packing assertions, has twice the key
      length, and is accepted with the matching public key. */
  lemma SignThenVerify(private: PKey, public: PKey, digest: seq<byte>, nonce: nat)
    requires private.Ec? && public.Ec? && private.curve == public.curve
    requires KeyParameters(private).Success?
    requires EcdsaCorrect(private.ecdsa, public.ecdsa, CurveBits(KeyParameters(private).value.0))
    ensures Sign(private, digest, nonce) != Panic
    ensures Sign(private, digest, nonce).Success? ==>
      var signature := Sign(private, digest, nonce).value;
      && |signature| == 2 * KeyParameters(private).value.2
      && Verify(public, digest, signature) == Success(true)
  {
    hide Pow2, Pow256, I2osp, Sign, Verify, CurveBits;
    var p := KeyParameters(private).value;
    SignOutcome(private, digest, nonce);
    if private.ecdsa.sign(digest, nonce).Some? {
      var (r, s) := private.ecdsa.sign(digest, nonce).value;
      PackingNeverAsserts(p.0, r, s);
      VerifyAsksEcdsa(public, digest, r, s, p.2);
    }
  }

  /** ECDSA pairs with that law exist for every curve size. */
  lemma EcdsaExists(bits: nat)
    ensures exists e: Ecdsa :: EcdsaCorrect(e, e, bits) && forall d, n: nat :: e.sign(d, n).Some?
  {
    var e := Ecdsa((d, n) => Some((0, 0)), (d, r, s) => Some(r == 0 && s == 0));
    assert EcdsaCorrect(e, e, bits) && forall d, n: nat :: e.sign(d, n).Some?;
  }

  /** So OpenSSL keys meet what the COSE layer assumes of a key pair. */
  lemma PkeysAreKeyPair(private: PKey, public: PKey)
    requires private.Ec? && public.Ec? && private.curve == public.curve
    requires KeyParameters(private).Success?
    requires EcdsaCorrect(private.ecdsa, public.ecdsa, CurveBits(KeyParameters(private).value.0))
    ensures KeyPair(AsSigningKey(private), AsSigningKey(public))
  {
    hide Sign, Verify, EcdsaCorrect, CurveBits;
    forall digest, nonce: nat | Sign(private, digest, nonce).Success?
      ensures Verify(public, digest, Sign(private, digest, nonce).value) == Success(true)
    {
      SignThenVerify(private, public, digest, nonce);
    }
  }
}
