/** Creating, verifying and opening COSE_Sign1 documents (src/sign.rs). */
module SignVerify {
  import opened BigEndian
  import opened CborCodec
  import opened CborOrder
  import opened CborValues
  import opened Crypto
  import opened HeaderMaps
  import opened Sign
  import opened Wrappers

  /** The digest that is signed and verified. */
  function StructDigest(hash: Hash, digest: MessageDigest, protected: seq<byte>, payload: seq<byte>)
    : Result<seq<byte>>
  {
    var stream :- NewSign1(protected, payload).AsBytes();
    hash(digest, stream).MapError(SignatureError)
  }

  function NewWithProtected(hash: Hash, payload: seq<byte>, protected: Header, unprotected: Header,
                            key: SigningKey, nonce: nat): Result<CoseSign1>
  {
    var (_, digest) :- key.parameters;
    var protectedBytes :- EmptyOrSerialized(protected);
    var structDigest :- StructDigest(hash, digest, protectedBytes, payload);
    var signature :- key.sign(structDigest, nonce);
    Success(CoseSign1(protectedBytes, unprotected, payload, signature))
  }

  /** The exact digest: the hash of the canonical stream of section 4.4 of RFC 8152 over the protected bytes
      as they are. Only lengths that CBOR cannot express and errors of the hash make it fail. */
  lemma DigestOutcome(hash: Hash, digest: MessageDigest, protected: seq<byte>, payload: seq<byte>)
    ensures
      var r := StructDigest(hash, digest, protected, payload);
      if |protected| >= 0x1_0000_0000_0000_0000 || |payload| >= 0x1_0000_0000_0000_0000 then
        r == Failure(SerializationError)
      else
        r == match hash(digest, SignedBytes(protected, payload))
             case Success(d) => Success(d)
             case Failure(_) => Failure(SignatureError)
             case Panic => Panic
  {
    hide SigStructure.AsBytes, NewSign1, SignedBytes;
    Sign1StreamEncodes(protected, payload);
    if NewSign1(protected, payload).AsBytes().Success? {
      SignedBytesAreStream(protected, payload);
    }
  }

  /** An array of four: the text "Signature1", the protected bytes, the empty byte string and the
      payload. */
  function SignedBytes(protected: seq<byte>, payload: seq<byte>): seq<byte> {
    [0x84, 0x6A, 0x53, 0x69, 0x67, 0x6E, 0x61, 0x74, 0x75, 0x72, 0x65, 0x31] + Bstr(protected) + [0x40] + Bstr(payload)
  }

  lemma SignedBytesAreStream(protected: seq<byte>, payload: seq<byte>)
    requires NewSign1(protected, payload).AsBytes().Success?
    ensures NewSign1(protected, payload).AsBytes() == Success(SignedBytes(protected, payload))
  {
    hide SigStructure.AsBytes, NewSign1, Ascii, Bstr;
    SigStructureLayout(protected, payload);
    ContextBytes();
    GlueContext();
  }

  lemma GlueContext()
    ensures [0x84] + [0x6A] + [0x53, 0x69, 0x67, 0x6E, 0x61, 0x74, 0x75, 0x72, 0x65, 0x31]
         == [0x84, 0x6A, 0x53, 0x69, 0x67, 0x6E, 0x61, 0x74, 0x75, 0x72, 0x65, 0x31]
  {
  }

  lemma ContextBytes()
    ensures Ascii("Signature1") == [0x53, 0x69, 0x67, 0x6E, 0x61, 0x74, 0x75, 0x72, 0x65, 0x31]
  {
    var b := Ascii("Signature1");
    assert b[0] == 0x53 && b[1] == 0x69 && b[2] == 0x67 && b[3] == 0x6E && b[4] == 0x61;
    assert b[5] == 0x74 && b[6] == 0x75 && b[7] == 0x72 && b[8] == 0x65 && b[9] == 0x31;
  }

  /** The exact outcome of creation, for every key, header and payload. The first error decides and is
      passed on: the key's parameters, a header without encoding, the digest, the signer. Otherwise the
      document has the caller's payload and unprotected map as they are, the serialized protected map,
      and the signature of the digest over just these. */
  lemma CreationOutcome(hash: Hash, payload: seq<byte>, protected: Header, unprotected: Header,
                        key: SigningKey, nonce: nat)
    ensures
      var r := NewWithProtected(hash, payload, protected, unprotected, key, nonce);
      match key.parameters
      case Failure(e) => r == Failure(e)
      case Panic => r == Panic
      case Success((_, digest)) =>
        if protected != [] && !Encodable(Map(protected)) then r == Failure(SerializationError) else
        var p := if protected == [] then [] else ToVec(Map(protected)).value;
        match StructDigest(hash, digest, p, payload)
        case Failure(e) => r == Failure(e)
        case Panic => r == Panic
        case Success(d) =>
          match key.sign(d, nonce)
          case Failure(e) => r == Failure(e)
          case Panic => r == Panic
          case Success(signature) =>
            && r.Success?
            && r.value.protected == p && r.value.unprotected == unprotected
            && r.value.payload == payload && r.value.signature == signature
  {
    hide Encodable, StructDigest;
  }

  /** The exact conditions for creation to succeed: the key has parameters, the protected header is
      empty or encodable, protected bytes and payload are shorter than 2^64, the hash works and the
      key signs. */
  lemma CreationSucceedsWhen(hash: Hash, payload: seq<byte>, protected: Header, unprotected: Header,
                             key: SigningKey, nonce: nat)
    ensures NewWithProtected(hash, payload, protected, unprotected, key, nonce).Success? <==>
      && key.parameters.Success?
      && (protected == [] || Encodable(Map(protected)))
      && var stream := NewSign1(EmptyOrSerialized(protected).value, payload).AsBytes();
      && stream.Success?
      && var digest := hash(key.parameters.value.1, stream.value);
      && digest.Success?
      && key.sign(digest.value, nonce).Success?
    ensures protected == [] || Encodable(Map(protected)) ==>
      var p := EmptyOrSerialized(protected).value;
      var fits := |p| < 0x1_0000_0000_0000_0000 && |payload| < 0x1_0000_0000_0000_0000;
      NewSign1(p, payload).AsBytes().Success? <==> fits
  {
    hide Encodable, NewSign1, SigStructure.AsBytes;
    if EmptyOrSerialized(protected).Success? {
      Sign1StreamEncodes(EmptyOrSerialized(protected).value, payload);
    }
  }

  /** `CoseSign1::new` fills a fresh protected map with the key's algorithm. */
  method New(hash: Hash, payload: seq<byte>, unprotected: Header, key: SigningKey, nonce: nat)
    returns (r: Result<CoseSign1>)
    ensures key.parameters.Success? ==>
      r == NewWithProtected(hash, payload, AlgorithmHeader(key.parameters.value.0), unprotected, key, nonce)
    ensures !key.parameters.Success? ==> r == key.parameters.PropagateFailure()
  {
    if !key.parameters.Success? {
      return key.parameters.PropagateFailure();
    }
    var sigAlg := key.parameters.value.0;
    var protected := new HeaderMap();
    var _ := protected.Insert(ALG_LABEL, Integer(sigAlg.Id()));
    r := NewWithProtected(hash, payload, protected.entries, unprotected, key, nonce);
  }

  /** The signature is checked over the protected bytes as received. */
  function VerifySignature(doc: CoseSign1, hash: Hash, key: SigningKey): Result<bool> {
    var (signatureAlg, digest) :- key.parameters;
    var protected :- HeaderMaps.FromBytes(doc.protected);
    match Lookup(protected, ALG_LABEL)
    case Some(Integer(val)) =>
      if val != signatureAlg.Id() then Success(false) else
      var structDigest :- StructDigest(hash, digest, doc.protected, doc.payload);
      key.verify(structDigest, doc.signature)
    case _ => Failure(SpecificationError)
  }

  function CheckSignature(doc: CoseSign1, hash: Hash, key: Option<SigningKey>): Result<()> {
    if key.None? then Success(()) else
    var verified :- VerifySignature(doc, hash, key.value);
    if verified then Success(()) else Failure(UnverifiedSignature)
  }

  function GetProtectedAndPayload(doc: CoseSign1, hash: Hash, key: Option<SigningKey>)
    : Result<(Header, seq<byte>)>
  {
    var _ :- CheckSignature(doc, hash, key);
    var protected :- HeaderMaps.FromBytes(doc.protected);
    Success((protected, doc.payload))
  }

  function GetPayload(doc: CoseSign1, hash: Hash, key: Option<SigningKey>): Result<seq<byte>> {
    var _ :- CheckSignature(doc, hash, key);
    Success(doc.payload)
  }

  // ---------------------------------------------------------------- exact outcomes

  /** The exact outcome of verification on every document, canonical or not, made here or elsewhere. The
      first obstacle decides; after it the key's verdict or error is passed on unchanged, for the digest
      over the protected bytes as received. */
  lemma VerifyOutcome(doc: CoseSign1, hash: Hash, key: SigningKey)
    ensures
      var r := VerifySignature(doc, hash, key);
      match key.parameters
      case Failure(e) => r == Failure(e)
      case Panic => r == Panic
      case Success((alg, digest)) =>
        if !HeaderMaps.FromBytes(doc.protected).Success? then r == Failure(SerializationError) else
        match Lookup(HeaderMaps.FromBytes(doc.protected).value, Integer(1))
        case Some(Integer(n)) =>
          var id := match alg case ES256 => -7 case ES384 => -35 case ES512 => -36;
          if n != id then r == Success(false) else
          (match StructDigest(hash, digest, doc.protected, doc.payload)
           case Failure(e) => r == Failure(e)
           case Panic => r == Panic
           case Success(d) => r == key.verify(d, doc.signature))
        case _ => r == Failure(SpecificationError)
  {
    hide HeaderMaps.FromBytes, StructDigest, Lookup;
  }

  /** The exact outcome of both getters on every document. Without a key nothing is verified: the payload
      is always given, the header if it decodes. With a key an error or panic of verification is passed
      on, a false verdict is `UnverifiedSignature`, and a true one gives the document's own data. */
  lemma GetterOutcome(doc: CoseSign1, hash: Hash, key: Option<SigningKey>)
    ensures
      var payload := GetPayload(doc, hash, key);
      var both := GetProtectedAndPayload(doc, hash, key);
      var verdict := if key.Some? then VerifySignature(doc, hash, key.value) else Success(true);
      match verdict
      case Success(true) =>
        && payload == Success(doc.payload)
        && both == (match HeaderMaps.FromBytes(doc.protected)
                    case Success(h) => Success((h, doc.payload))
                    case _ => Failure(SerializationError))
      case Success(false) => payload == Failure(UnverifiedSignature) && both == Failure(UnverifiedSignature)
      case Failure(e) => payload == Failure(e) && both == Failure(e)
      case Panic => payload == Panic && both == Panic
  {
    hide HeaderMaps.FromBytes, VerifySignature;
  }

  /** Without a key, over the wire: whatever was serialized and can be read gives back its payload and its
      protected map, whoever signed it. */
  lemma KeylessGetters(doc: CoseSign1, hash: Hash, tagged: bool)
    requires doc.AsBytes(tagged).Success?
    ensures
      var received := Sign.FromBytes(doc.AsBytes(tagged).value);
      match HeaderMaps.FromBytes(doc.protected)
      case Success(h) =>
        && received.Success?
        && GetPayload(received.value, hash, None) == Success(doc.payload)
        && GetProtectedAndPayload(received.value, hash, None) == Success((h, doc.payload))
      case _ =>
        && received == Failure(SerializationError)
        && GetPayload(doc, hash, None) == Success(doc.payload)
        && GetProtectedAndPayload(doc, hash, None) == Failure(SerializationError)
  {
    hide HeaderMaps.FromBytes, Sign.FromBytes, CoseSign1.AsBytes, GetPayload, GetProtectedAndPayload;
    WireRoundTrip(doc, tagged);
    GetterOutcome(doc, hash, None);
  }

  // ---------------------------------------------------------------- what verification sees

  /** Documents that agree on the protected bytes, the payload and the signature are treated alike,
      whatever their unprotected headers. */
  lemma UnprotectedIrrelevant(a: CoseSign1, b: CoseSign1, hash: Hash, key: Option<SigningKey>)
    requires a.protected == b.protected && a.payload == b.payload && a.signature == b.signature
    ensures key.Some? ==> VerifySignature(a, hash, key.value) == VerifySignature(b, hash, key.value)
    ensures GetPayload(a, hash, key) == GetPayload(b, hash, key)
    ensures GetProtectedAndPayload(a, hash, key) == GetProtectedAndPayload(b, hash, key)
  {
    hide HeaderMaps.FromBytes, StructDigest;
  }

  /** With a key, either getter releases data exactly when verification says true, and then both
      release the document's own payload; a false verdict gives `UnverifiedSignature`. */
  lemma ReleasedOnlyIfVerified(doc: CoseSign1, hash: Hash, key: SigningKey)
    ensures GetPayload(doc, hash, Some(key)).Success? <==> VerifySignature(doc, hash, key) == Success(true)
    ensures GetProtectedAndPayload(doc, hash, Some(key)).Success?
      <==> VerifySignature(doc, hash, key) == Success(true)
    ensures VerifySignature(doc, hash, key) == Success(true) ==>
      && HeaderMaps.FromBytes(doc.protected).Success?
      && GetPayload(doc, hash, Some(key)) == Success(doc.payload)
      && GetProtectedAndPayload(doc, hash, Some(key))
         == Success((HeaderMaps.FromBytes(doc.protected).value, doc.payload))
    ensures VerifySignature(doc, hash, key) == Success(false) ==>
      GetPayload(doc, hash, Some(key)) == Failure(UnverifiedSignature)
  {
    hide StructDigest;
  }

  /** A true verdict comes from the key, for the digest of the bytes in this very document, under an
      algorithm header equal to the key's. */
  lemma VerifiedMeans(doc: CoseSign1, hash: Hash, key: SigningKey)
    requires VerifySignature(doc, hash, key) == Success(true)
    ensures
      && key.parameters.Success?
      && HeaderMaps.FromBytes(doc.protected).Success?
      && Lookup(HeaderMaps.FromBytes(doc.protected).value, ALG_LABEL) == Some(Integer(key.parameters.value.0.Id()))
      && StructDigest(hash, key.parameters.value.1, doc.protected, doc.payload).Success?
      && key.verify(StructDigest(hash, key.parameters.value.1, doc.protected, doc.payload).value, doc.signature)
         == Success(true)
  {
    hide StructDigest;
  }

  /** An ideal hash function: no two inputs have the same digest. */
  ghost predicate InjectiveHash(hash: Hash) {
    forall d: MessageDigest, x: seq<byte>, y: seq<byte> ::
      hash(d, x).Success? && hash(d, x) == hash(d, y) ==> x == y
  }

  /** Then the signed digest determines the payload and the protected bytes themselves, not only the
      header they decode to. */
  lemma StructDigestInjective(hash: Hash, d: MessageDigest, p: seq<byte>, m: seq<byte>, p': seq<byte>, m': seq<byte>)
    requires InjectiveHash(hash)
    requires StructDigest(hash, d, p, m).Success?
    requires StructDigest(hash, d, p, m) == StructDigest(hash, d, p', m')
    ensures p == p' && m == m'
  {
    hide NewSign1, SigStructure.AsBytes;
    var x, y := NewSign1(p, m).AsBytes(), NewSign1(p', m').AsBytes();
    assert hash(d, x.value) == hash(d, y.value);
    Sign1StreamInjective(p, m, p', m');
  }

  // ---------------------------------------------------------------- sign, then verify

  /** The verdict on a freshly made document is decided by the protected header alone: the algorithm
      parameter must be present, an integer, and the key's. `new_with_protected` does not put it
      there. */
  lemma VerifyAfterSign(hash: Hash, payload: seq<byte>, protected: Header, unprotected: Header,
                        private: SigningKey, public: SigningKey, nonce: nat)
    requires KeyPair(private, public)
    requires NewWithProtected(hash, payload, protected, unprotected, private, nonce).Success?
    ensures
      var doc := NewWithProtected(hash, payload, protected, unprotected, private, nonce).value;
      VerifySignature(doc, hash, public) ==
        if protected == [] then Failure(SerializationError)
        else match Lookup(protected, ALG_LABEL)
             case Some(Integer(n)) => Success(n == private.parameters.value.0.Id())
             case _ => Failure(SpecificationError)
  {
    hide HeaderMaps.FromBytes, EmptyOrSerialized, StructDigest, Ordered;
    HeaderRoundTrip(protected);
  }

  /** Whether a document can be read back depends only on whether its protected map was empty: the
      empty map is written as a zero-length byte string, as section 3 of RFC 8152 asks, and the
      reader does not accept that form. */
  lemma EmptyProtectedUnreadable(hash: Hash, payload: seq<byte>, protected: Header, unprotected: Header,
                                 key: SigningKey, nonce: nat, tagged: bool)
    requires NewWithProtected(hash, payload, protected, unprotected, key, nonce).Success?
    requires NewWithProtected(hash, payload, protected, unprotected, key, nonce).value.AsBytes(tagged).Success?
    ensures
      var doc := NewWithProtected(hash, payload, protected, unprotected, key, nonce).value;
      var r := Sign.FromBytes(doc.AsBytes(tagged).value);
      && (doc.protected == [] <==> protected == [])
      && r == if protected == [] then Failure(SerializationError) else Success(doc)
  {
    hide HeaderMaps.FromBytes, EmptyOrSerialized, StructDigest, Ordered, CoseSign1.AsBytes, Sign.FromBytes,
      Sign.FromBytesTagged;
    HeaderRoundTrip(protected);
    WireRoundTrip(NewWithProtected(hash, payload, protected, unprotected, key, nonce).value, tagged);
  }

  /** Sign, send, receive, verify: the receiver gets the payload and the protected map back. */
  lemma EndToEndSigning(hash: Hash, payload: seq<byte>, protected: Header, unprotected: Header,
                        private: SigningKey, public: SigningKey, nonce: nat, tagged: bool)
    requires KeyPair(private, public)
    requires private.parameters.Success?
    requires Lookup(protected, ALG_LABEL) == Some(Integer(private.parameters.value.0.Id()))
    requires NewWithProtected(hash, payload, protected, unprotected, private, nonce).Success?
    requires NewWithProtected(hash, payload, protected, unprotected, private, nonce).value.AsBytes(tagged).Success?
    ensures
      var doc := NewWithProtected(hash, payload, protected, unprotected, private, nonce).value;
      var received := Sign.FromBytes(doc.AsBytes(tagged).value);
      && received == Success(doc) && doc.unprotected == unprotected
      && GetProtectedAndPayload(received.value, hash, Some(public)) == Success((protected, payload))
      && GetPayload(received.value, hash, Some(public)) == Success(payload)
      && GetProtectedAndPayload(received.value, hash, None) == Success((protected, payload))
      && GetPayload(received.value, hash, None) == Success(payload)
  {
    hide HeaderMaps.FromBytes, EmptyOrSerialized, StructDigest, Ordered, ToVec, Sign.FromBytes;
    var doc := NewWithProtected(hash, payload, protected, unprotected, private, nonce).value;
    EmptyProtectedUnreadable(hash, payload, protected, unprotected, private, nonce, tagged);
    VerifyAfterSign(hash, payload, protected, unprotected, private, public, nonce);
    HeaderRoundTrip(protected);
    ReleasedOnlyIfVerified(doc, hash, public);
    GetterOutcome(doc, hash, None);
  }
}
