/** Enc_structure and COSE_Encrypt0 (src/encrypt.rs). */
module Encrypt {
  import opened BigEndian
  import opened CborCodec
  import opened CborOrder
  import opened CborSyntax
  import opened CborValues
  import opened Crypto
  import opened HeaderMaps
  import opened Serde
  import Sign
  import opened Wrappers

  // ---------------------------------------------------------------- algorithms

  datatype CipherConfiguration = Gcm {
    function CoseAlg(key: seq<byte>): Option<CoseAlgorithm> {
      if |key| == 16 then Some(AesGcm96_128_128)
      else if |key| == 24 then Some(AesGcm96_128_192)
      else if |key| == 32 then Some(AesGcm96_128_256)
      else None
    }
  }

  datatype EncryptionAlgorithm = Aes128Gcm | Aes192Gcm | Aes256Gcm {
    function KeyBytes(): nat {
      match this
      case Aes128Gcm => 16
      case Aes192Gcm => 24
      case Aes256Gcm => 32
    }
  }

  datatype CoseAlgorithm = AesGcm96_128_128 | AesGcm96_128_192 | AesGcm96_128_256 {
    function Value(): nat {
      match this
      case AesGcm96_128_128 => 1
      case AesGcm96_128_192 => 2
      case AesGcm96_128_256 => 3
    }

    static function FromValue(value: int): Option<CoseAlgorithm> {
      if value == 1 then Some(AesGcm96_128_128)
      else if value == 2 then Some(AesGcm96_128_192)
      else if value == 3 then Some(AesGcm96_128_256)
      else None
    }

    function TagSize(): nat {
      16
    }

    function IvLen(): Option<nat> {
      Some(12)
    }

    function Cipher(): EncryptionAlgorithm {
      match this
      case AesGcm96_128_128 => Aes128Gcm
      case AesGcm96_128_192 => Aes192Gcm
      case AesGcm96_128_256 => Aes256Gcm
    }
  }

  /** The `as i8` cast of a wide integer: two's-complement truncation. */
  function AsI8(n: int): (r: int)
    ensures -128 <= r < 128
  {
    var low := n % 256;
    if low < 128 then low else low - 256
  }

  /** The algorithm that `decrypt` selects depends only on the header value modulo 256; on the
      values that `new` writes the selection is the inverse. */
  lemma AlgorithmSelection(n: int, alg: CoseAlgorithm)
    ensures CoseAlgorithm.FromValue(AsI8(n)) == Some(alg) <==> n % 256 == alg.Value()
    ensures CoseAlgorithm.FromValue(AsI8(alg.Value())) == Some(alg)
  {
  }

  // ---------------------------------------------------------------- the cipher

  /** Bytes written to a buffer, whatever its length. */
  type ByteStream = nat -> byte

  function Fill(stream: ByteStream, n: nat): (b: seq<byte>)
    ensures |b| == n && forall k :: 0 <= k < n ==> b[k] == stream(k)
  {
    seq(n, k requires k >= 0 => stream(k))
  }

  /** The `Entropy`, `Encryption` and `Decryption` traits. An error of the generator is passed on as
      it is; any error of the cipher becomes `EncryptionError`, so it is just `None` here. `entropy`
      takes the state of the random generator. The other arguments are the algorithm, key, IV, additional data, and
      the plaintext or the ciphertext and tag. */
  datatype Aead = Aead(
    entropy: nat -> Result<ByteStream>,
    encrypt: (EncryptionAlgorithm, seq<byte>, seq<byte>, seq<byte>, seq<byte>) -> Option<(seq<byte>, ByteStream)>,
    decrypt: (EncryptionAlgorithm, seq<byte>, seq<byte>, seq<byte>, seq<byte>, seq<byte>) -> Option<seq<byte>>)

  /** Decryption with the same key, IV and additional data inverts encryption. */
  ghost predicate AeadCorrect(c: Aead) {
    forall alg: CoseAlgorithm, key: seq<byte>, iv: seq<byte>, aad: seq<byte>, data: seq<byte> ::
      c.encrypt(alg.Cipher(), key, iv, aad, data).Some? ==>
        var (ciphertext, tag) := c.encrypt(alg.Cipher(), key, iv, aad, data).value;
        c.decrypt(alg.Cipher(), key, iv, aad, ciphertext, Fill(tag, alg.TagSize())) == Some(data)
  }

  method FillBuffer(buffer: array<byte>, stream: ByteStream)
    modifies buffer
    ensures buffer[..] == Fill(stream, buffer.Length)
  {
    forall k | 0 <= k < buffer.Length {
      buffer[k] := stream(k);
    }
  }

  // ---------------------------------------------------------------- Enc_structure

  /** RFC 8152 section 5.3. */
  datatype EncStructure = EncStructure(context: Utf8, protected: seq<byte>, externalAad: seq<byte>) {
    function Fields(): seq<CborValue> {
      [Text(context), Bytes(protected), Bytes(externalAad)]
    }

    function AsBytes(): Result<seq<byte>> {
      ToVec(Array(Fields()))
    }
  }

  function NewEncrypt0(protected: seq<byte>): EncStructure {
    EncStructure(Ascii("Encrypt0"), protected, [])
  }

  /** `Serialize for EncStructure` and for `CoseEncrypt0`: three elements in turn. */
  method SerializeThree(fields: seq<CborValue>) returns (r: Result<seq<byte>>)
    requires |fields| == 3
    ensures r == ToVec(Array(fields))
  {
    hide ToVec, Encodable, ItemOf, Emit;
    EncodableRange(Array(fields));
    var s := new SeqSerializer(3);
    var ok := s.SerializeElement(fields[0]);
    if !ok { return Sign.NotEncodable(Array(fields)); }
    ok := s.SerializeElement(fields[1]);
    if !ok { return Sign.NotEncodable(Array(fields)); }
    ok := s.SerializeElement(fields[2]);
    if !ok { return Sign.NotEncodable(Array(fields)); }
    assert s.written == fields;
    var bytes := s.End();
    r := Success(bytes);
  }

  lemma EncStructureInjective(a: EncStructure, b: EncStructure)
    requires a.AsBytes().Success? && a.AsBytes() == b.AsBytes()
    ensures a == b
  {
    hide ToVec;
    EncodeInjective(Array(a.Fields()), Array(b.Fields()));
    assert a.Fields()[0] == b.Fields()[0] && a.Fields()[1] == b.Fields()[1] && a.Fields()[2] == b.Fields()[2];
  }

  /** No byte stream serves both for a signature and as additional data of an encryption. */
  lemma SigIsNotEnc(a: Sign.SigStructure, b: EncStructure)
    requires a.AsBytes().Success?
    ensures a.AsBytes() != b.AsBytes()
  {
    hide ToVec;
    assert |a.AsValue().items| >= 4 && |b.Fields()| == 3;
    assert a.AsValue() != Array(b.Fields());
    if a.AsBytes() == b.AsBytes() {
      EncodeInjective(a.AsValue(), Array(b.Fields()));
    }
  }

  // ---------------------------------------------------------------- COSE_Encrypt0 on the wire

  const ENCRYPT0_TAG: nat := 16
  const IV_LABEL: Value := Integer(5)

  datatype CoseEncrypt0 = CoseEncrypt0(protected: seq<byte>, unprotected: Header, ciphertext: seq<byte>) {
    function Fields(): seq<CborValue> {
      [Bytes(protected), Map(unprotected), Bytes(ciphertext)]
    }

    function AsValue(tagged: bool): CborValue {
      if tagged then Tag(ENCRYPT0_TAG, Array(Fields())) else Array(Fields())
    }

    function AsBytes(tagged: bool): Result<seq<byte>> {
      ToVec(AsValue(tagged))
    }
  }

  /** The array form of the derived `Deserialize`. */
  function Encrypt0OfItem(i: Item): Option<CoseEncrypt0>
    requires Shaped(i)
  {
    if i.major != 4 || |i.kids| != 3 then None else
    var protected :- BytesOfItem(i.kids[0]);
    var unprotected :- HeaderOfItem(i.kids[1]);
    var ciphertext :- BytesOfItem(i.kids[2]);
    Some(CoseEncrypt0(protected, unprotected, ciphertext))
  }

  function FromBytes(b: seq<byte>): Result<CoseEncrypt0> {
    var i :- FromSlice(b).ToResult(SerializationError);
    var (tag, inner) := if i.major == 6 then (Some(i.arg), i.kids[0]) else (None, i);
    var doc :- Encrypt0OfItem(inner).ToResult(SerializationError);
    if tag != None && tag != Some(ENCRYPT0_TAG) then Failure(TagError(tag)) else
    var _ :- HeaderMaps.FromBytes(doc.protected);
    Success(doc)
  }

  /** A document has an encoding exactly when its unprotected map has one and its byte strings are
      shorter than 2^64. */
  lemma SerializesWhen(doc: CoseEncrypt0, tagged: bool)
    ensures doc.AsBytes(tagged).Success? <==>
      && Encodable(Map(doc.unprotected))
      && |doc.protected| < 0x1_0000_0000_0000_0000
      && |doc.ciphertext| < 0x1_0000_0000_0000_0000
    ensures !doc.AsBytes(tagged).Success? ==> doc.AsBytes(tagged) == Failure(SerializationError)
  {
    hide Encodable;
    var fields := doc.Fields();
    ThreeEncodable(fields[0], fields[1], fields[2]);
    EncodableRange(Tag(ENCRYPT0_TAG, Array(fields)));
    EncodableRange(fields[0]);
    EncodableRange(fields[2]);
  }

  lemma DocumentProper(doc: CoseEncrypt0, tagged: bool)
    ensures Proper(doc.AsValue(tagged))
  {
    hide Sorted;
    ProperMap(doc.unprotected);
    assert Proper(Array(doc.Fields()));
  }

  lemma DocumentItem(doc: CoseEncrypt0)
    requires Shaped(ItemOf(Array(doc.Fields())))
    ensures Encrypt0OfItem(ItemOf(Array(doc.Fields()))) == Some(doc)
  {
    hide HeaderOfItem;
    HeaderItem(doc.unprotected);
    var kids := ItemsOf(doc.Fields());
    assert kids[1] == ItemOf(Map(doc.unprotected));
  }

  /** Whatever was serialized, tagged or not, reads back as the same document, all bytes consumed, if
      its protected bytes are a header map; otherwise it is refused. */
  lemma WireRoundTrip(doc: CoseEncrypt0, tagged: bool)
    requires doc.AsBytes(tagged).Success?
    ensures FromBytes(doc.AsBytes(tagged).value) ==
      if HeaderMaps.FromBytes(doc.protected).Success? then Success(doc) else Failure(SerializationError)
  {
    hide Shaped, Sized, Proper, Emit, ItemOf, ValueOf, HeaderMaps.FromBytes, Encrypt0OfItem;
    var v := doc.AsValue(tagged);
    DocumentProper(doc, tagged);
    DecodeEncode(v, []);
    FromSliceEmit(ItemOf(v));
    DocumentProper(doc, false);
    ItemOfShape(Array(doc.Fields()));
    DocumentItem(doc);
    ArrayItem(doc.Fields());
    TagItem(ENCRYPT0_TAG, Array(doc.Fields()));
  }

  /** The additional data of an encryption, section 5.3 of RFC 8152. */
  lemma EncStructureLayout(protected: seq<byte>)
    requires NewEncrypt0(protected).AsBytes().Success?
    ensures NewEncrypt0(protected).AsBytes().value ==
      [0x83] + [0x68] + Ascii("Encrypt0") + Bstr(protected) + [0x40]
  {
    hide Emit, ItemOf, EmitHead, Encodable, Ascii, Bstr;
    ArrayOfThree(Text(Ascii("Encrypt0")), Bytes(protected), Bytes([]));
    TextLayout(Ascii("Encrypt0"));
    BytesLayout(protected);
    BytesLayout([]);
    ShortHeads();
    EightLetters(Ascii("Encrypt0"));
  }

  lemma EightLetters(text: seq<byte>)
    requires |text| == 8
    ensures Tstr(text) == [0x68] + text
  {
    hide EmitHead;
    ShortHeads();
  }

  /** The bytes of a document, section 5.2 of RFC 8152. */
  lemma Encrypt0Layout(doc: CoseEncrypt0, tagged: bool)
    requires doc.AsBytes(tagged).Success?
    ensures doc.AsBytes(tagged).value ==
      (if tagged then [0xD0] else []) + [0x83]
      + Bstr(doc.protected) + Emit(ItemOf(Map(doc.unprotected))) + Bstr(doc.ciphertext)
  {
    hide Emit, ItemOf, EmitHead, Encodable, Bstr;
    ArrayOfThree(Bytes(doc.protected), Map(doc.unprotected), Bytes(doc.ciphertext));
    TagLayout(ENCRYPT0_TAG, Array(doc.Fields()));
    BytesLayout(doc.protected);
    BytesLayout(doc.ciphertext);
    ShortHeads();
  }

  /** On every byte string: a document is accepted untagged or under tag 16, and a tag error names the
      outer tag. */
  lemma TagDiscipline(b: seq<byte>)
    ensures FromBytes(b).Success? ==> OuterTag(b) in {None, Some(16)}
    ensures forall t :: FromBytes(b) == Failure(TagError(t)) ==> t == OuterTag(b) && t.Some? && t != Some(16)
  {
    hide Encrypt0OfItem, HeaderMaps.FromBytes, FromSlice, OuterTag, Shaped;
    if FromSlice(b).Some? {
      OuterTagOfItem(b);
    }
  }

  /** Every document under any other tag is refused with that tag. */
  lemma ForeignTag(doc: CoseEncrypt0, t: nat)
    requires doc.AsBytes(false).Success?
    requires t != 16 && t < 0x1_0000_0000_0000_0000
    ensures FromBytes(EmitHead(6, MinWidth(t), t) + doc.AsBytes(false).value) == Failure(TagError(Some(t)))
  {
    hide Shaped, Proper, Emit, ItemOf, ValueOf, HeaderMaps.FromBytes, Encrypt0OfItem, EmitHead, Encodable;
    var v := Array(doc.Fields());
    DocumentProper(doc, false);
    TaggedBytes(t, v);
    ItemOfShape(v);
    DocumentItem(doc);
  }

  /** Reading is strict about the shape: no byte string is both a COSE_Sign1 and a COSE_Encrypt0. */
  lemma NotBothSign1AndEncrypt0(b: seq<byte>)
    ensures !(FromBytes(b).Success? && Sign.FromBytes(b).Success?)
  {
    hide HeaderMaps.FromBytes, HeaderOfItem, ParseItem, Emit;
  }

  /** What was accepted can be written again, tagged or not, and reads back as the same document. */
  lemma AcceptedIsStable(b: seq<byte>, tagged: bool)
    requires FromBytes(b).Success?
    ensures
      var doc := FromBytes(b).value;
      doc.AsBytes(tagged).Success? && FromBytes(doc.AsBytes(tagged).value) == Success(doc)
  {
    hide HeaderMaps.FromBytes, HeaderOfItem, ParseItem, Emit, Shaped, Sized, Encodable;
    var i := FromSlice(b).value;
    ValidParts(i);
    var inner := if i.major == 6 then i.kids[0] else i;
    ValidParts(inner);
    var doc := FromBytes(b).value;
    ReadFieldsEncodable(inner.kids[0]);
    ReadHeaderEncodable(inner.kids[1]);
    ReadFieldsEncodable(inner.kids[2]);
    var fields := doc.Fields();
    EncodableRange(Tag(ENCRYPT0_TAG, Array(fields)));
    EncodableRange(Array(fields));
    WireRoundTrip(doc, tagged);
  }

  // ---------------------------------------------------------------- encryption

  function NewSpec(c: Aead, payload: seq<byte>, config: CipherConfiguration, key: seq<byte>, seed: nat)
    : Result<CoseEncrypt0>
  {
    var alg :- config.CoseAlg(key).ToResult(UnsupportedError);
    var stream :- c.entropy(seed);
    var iv := Fill(stream, alg.IvLen().value);
    var protectedBytes :- EmptyOrSerialized(Singleton(ALG_LABEL, Integer(alg.Value())));
    var aad :- NewEncrypt0(protectedBytes).AsBytes();
    var (ciphertext, tag) :- c.encrypt(alg.Cipher(), key, iv, aad, payload).ToResult(EncryptionError);
    Success(CoseEncrypt0(protectedBytes, Singleton(IV_LABEL, Bytes(iv)), ciphertext + Fill(tag, alg.TagSize())))
  }

  /** `CoseEncrypt0::new` with its buffers: the IV and the tag are filled in place, the two maps are
      built by insertion and the tag is appended to the ciphertext. */
  method New(c: Aead, payload: seq<byte>, config: CipherConfiguration, key: seq<byte>, seed: nat)
    returns (r: Result<CoseEncrypt0>)
    ensures r == NewSpec(c, payload, config, key, seed)
  {
    hide ToVec, EmptyOrSerialized;
    var coseAlg := config.CoseAlg(key);
    if coseAlg.None? {
      return Failure(UnsupportedError);
    }
    var alg := coseAlg.value;
    var iv := new byte[alg.IvLen().value](_ => 0);
    var random := c.entropy(seed);
    if !random.Success? {
      return random.PropagateFailure();
    }
    FillBuffer(iv, random.value);

    var protected := new HeaderMap();
    var _ := protected.Insert(ALG_LABEL, Integer(alg.Value()));
    var unprotected := new HeaderMap();
    var _ := unprotected.Insert(IV_LABEL, Bytes(iv[..]));

    var protectedBytes :- EmptyOrSerialized(protected.entries);
    var aad :- NewEncrypt0(protectedBytes).AsBytes();

    var tag := new byte[alg.TagSize()](_ => 0);
    var encrypted := c.encrypt(alg.Cipher(), key, iv[..], aad, payload);
    if encrypted.None? {
      return Failure(EncryptionError);
    }
    var ciphertext := encrypted.value.0;
    FillBuffer(tag, encrypted.value.1);
    ciphertext := ciphertext + tag[..];
    r := Success(CoseEncrypt0(protectedBytes, unprotected.entries, ciphertext));
  }

  /** What `decrypt` hands to the cipher, with the decoded protected header. */
  datatype Call = Call(
    protected: Header,
    alg: CoseAlgorithm,
    iv: seq<byte>,
    aad: seq<byte>,
    ciphertext: seq<byte>,
    tag: seq<byte>)

  /** `decrypt` up to the call of the cipher. The additional data is built from the decoded header,
      encoded again. A ciphertext shorter than the tag makes the split panic. */
  function Prepare(doc: CoseEncrypt0): Result<Call> {
    var protected :- HeaderMaps.FromBytes(doc.protected);
    var n :- match Lookup(protected, ALG_LABEL) {
      case Some(Integer(val)) => Success(val)
      case _ => Failure(SpecificationError)
    };
    var alg :- CoseAlgorithm.FromValue(AsI8(n)).ToResult(UnsupportedError);
    var protectedBytes :- EmptyOrSerialized(protected);
    var iv :- match Lookup(doc.unprotected, IV_LABEL) {
      case Some(Bytes(val)) => Success(val)
      case _ => Failure(SpecificationError)
    };
    var (ciphertext, tag) :-
      if |doc.ciphertext| < alg.TagSize() then Panic
      else SplitAt(doc.ciphertext, |doc.ciphertext| - alg.TagSize());
    var aad :- NewEncrypt0(protectedBytes).AsBytes();
    Success(Call(protected, alg, iv, aad, ciphertext, tag))
  }

  function Decrypt(doc: CoseEncrypt0, c: Aead, key: seq<byte>): Result<(Header, Header, seq<byte>)> {
    var call :- Prepare(doc);
    var payload :- c.decrypt(call.alg.Cipher(), key, call.iv, call.aad, call.ciphertext, call.tag)
                   .ToResult(EncryptionError);
    Success((call.protected, doc.unprotected, payload))
  }

  // ---------------------------------------------------------------- properties

  /** The exact outcome of decryption on every document, with every key and cipher. The first obstacle
      decides: an unreadable protected header, an algorithm parameter (label 1) that is missing or no
      integer, a value that is none of 1, 2 and 3 modulo 256, an IV parameter (label 5) that is missing
      or no byte string, a ciphertext shorter than a tag, a header too long to authenticate. Otherwise
      the cipher alone decides: nothing is released that it does not yield. */
  lemma DecryptOutcome(doc: CoseEncrypt0, c: Aead, key: seq<byte>)
    ensures HeaderMaps.FromBytes(doc.protected).Success? ==>
      EmptyOrSerialized(HeaderMaps.FromBytes(doc.protected).value).Success?
    ensures
      var r := Decrypt(doc, c, key);
      if !HeaderMaps.FromBytes(doc.protected).Success? then r == Failure(SerializationError) else
      var h := HeaderMaps.FromBytes(doc.protected).value;
      match Lookup(h, Integer(1))
      case Some(Integer(n)) =>
        if n % 256 !in {1, 2, 3} then r == Failure(UnsupportedError) else
        var cipher := if n % 256 == 1 then Aes128Gcm else if n % 256 == 2 then Aes192Gcm else Aes256Gcm;
        (match Lookup(doc.unprotected, Integer(5))
         case Some(Bytes(iv)) =>
           if |doc.ciphertext| < 16 then r == Panic else
           var k := |doc.ciphertext| - 16;
           var aad := NewEncrypt0(EmptyOrSerialized(h).value).AsBytes();
           if !aad.Success? then r == Failure(SerializationError) else
           (match c.decrypt(cipher, key, iv, aad.value, doc.ciphertext[..k], doc.ciphertext[k..])
            case Some(m) => r == Success((h, doc.unprotected, m))
            case None => r == Failure(EncryptionError))
         case _ => r == Failure(SpecificationError))
      case _ => r == Failure(SpecificationError)
  {
    hide HeaderMaps.FromBytes, EmptyOrSerialized, EncStructure.AsBytes, NewEncrypt0, AsI8, CoseAlgorithm.FromValue,
      Lookup;
    var header := HeaderMaps.FromBytes(doc.protected);
    if header.Success? {
      HeaderNormalForm(doc.protected);
      AdditionalDataErrors(EmptyOrSerialized(header.value).value);
      var alg := Lookup(header.value, ALG_LABEL);
      if alg.Some? && alg.value.Integer? {
        AlgorithmTable(alg.value.n);
      }
    }
  }

  lemma AlgorithmTable(n: int)
    ensures
      CoseAlgorithm.FromValue(AsI8(n)) ==
        if n % 256 == 1 then Some(AesGcm96_128_128)
        else if n % 256 == 2 then Some(AesGcm96_128_192)
        else if n % 256 == 3 then Some(AesGcm96_128_256)
        else None
  {
  }

  lemma AdditionalDataErrors(protected: seq<byte>)
    ensures
      var aad := NewEncrypt0(protected).AsBytes();
      aad.Success? || aad == Failure(SerializationError)
  {
  }

  /** `decrypt` panics exactly when everything before the split is in order and the ciphertext is
      shorter than a tag; `from_bytes` does not exclude that. */
  lemma DecryptPanics(doc: CoseEncrypt0, c: Aead, key: seq<byte>)
    ensures Decrypt(doc, c, key) == Panic <==>
      && HeaderMaps.FromBytes(doc.protected).Success?
      && var alg := Lookup(HeaderMaps.FromBytes(doc.protected).value, ALG_LABEL);
      && alg.Some? && alg.value.Integer? && alg.value.n % 256 in {1, 2, 3}
      && var iv := Lookup(doc.unprotected, IV_LABEL);
      && iv.Some? && iv.value.Bytes?
      && |doc.ciphertext| < 16
  {
    hide Decrypt, HeaderMaps.FromBytes, EmptyOrSerialized, EncStructure.AsBytes;
    DecryptOutcome(doc, c, key);
  }

  /** Decryption sees the protected bytes only through the map they decode to. */
  lemma DecryptSeesDecodedHeader(doc: CoseEncrypt0, c: Aead, key: seq<byte>, other: seq<byte>)
    requires HeaderMaps.FromBytes(other) == HeaderMaps.FromBytes(doc.protected)
    ensures Decrypt(doc.(protected := other), c, key) == Decrypt(doc, c, key)
  {
    hide HeaderMaps.FromBytes, EmptyOrSerialized, AsI8, Lookup, NewEncrypt0, EncStructure.AsBytes;
    assert Prepare(doc.(protected := other)) == Prepare(doc);
  }

  /** The additional data is built from the normal form of the protected bytes. Replacing them by it
      changes nothing, and it is what was received exactly when that was canonical. */
  lemma DecryptNormalises(doc: CoseEncrypt0, c: Aead, key: seq<byte>)
    requires HeaderMaps.FromBytes(doc.protected).Success?
    requires HeaderMaps.FromBytes(doc.protected).value != []
    ensures
      var n := EmptyOrSerialized(HeaderMaps.FromBytes(doc.protected).value);
      && n.Success?
      && Decrypt(doc.(protected := n.value), c, key) == Decrypt(doc, c, key)
      && (Prepare(doc).Success? ==> NewEncrypt0(n.value).AsBytes() == Success(Prepare(doc).value.aad))
      && (n.value == doc.protected <==> Canonical(FromSlice(doc.protected).value))
  {
    hide HeaderMaps.FromBytes, EmptyOrSerialized, Canonical, AsI8, Decrypt, NewEncrypt0, EncStructure.AsBytes;
    HeaderNormalForm(doc.protected);
    var n := EmptyOrSerialized(HeaderMaps.FromBytes(doc.protected).value).value;
    DecryptSeesDecodedHeader(doc, c, key, n);
  }

  lemma StreamEncodes(alg: CoseAlgorithm)
    ensures
      var protected := EmptyOrSerialized(Singleton(ALG_LABEL, Integer(alg.Value())));
      && protected.Success?
      && HeaderMaps.FromBytes(protected.value) == Success(Singleton(ALG_LABEL, Integer(alg.Value())))
  {
    AlgorithmIdPath(alg.Value());
  }

  lemma KeyAlgorithm(key: seq<byte>)
    ensures Gcm.CoseAlg(key).Some? <==> |key| in {16, 24, 32}
    ensures Gcm.CoseAlg(key).Some? ==>
      Gcm.CoseAlg(key).value.Value() == |key| / 8 - 1 && Gcm.CoseAlg(key).value.Cipher().KeyBytes() == |key|
  {
  }

  /** The exact outcome of creation: an unsupported key length first, then whatever the generator
      reports, then a failing cipher; nothing else fails. */
  lemma NewOutcome(c: Aead, payload: seq<byte>, key: seq<byte>, seed: nat)
    ensures
      var r := NewSpec(c, payload, Gcm, key, seed);
      if |key| !in {16, 24, 32} then r == Failure(UnsupportedError)
      else if !c.entropy(seed).Success? then r == c.entropy(seed).PropagateFailure()
      else
        var alg := Gcm.CoseAlg(key).value;
        var header := EmptyOrSerialized(Singleton(ALG_LABEL, Integer(|key| / 8 - 1)));
        && header.Success?
        && var aad := NewEncrypt0(header.value).AsBytes();
        && aad.Success?
        && var sealed := c.encrypt(alg.Cipher(), key, Fill(c.entropy(seed).value, 12), aad.value, payload);
        && (sealed.None? ==> r == Failure(EncryptionError))
        && (sealed.Some? ==> r.Success?)
  {
    hide EmptyOrSerialized, Encodable, NewEncrypt0, EncStructure.AsBytes, HeaderMaps.FromBytes, Fill, Ordered,
      CipherConfiguration.CoseAlg, CoseAlgorithm.Value, CoseAlgorithm.Cipher;
    KeyAlgorithm(key);
    if |key| in {16, 24, 32} {
      var alg := Gcm.CoseAlg(key).value;
      StreamEncodes(alg);
      StreamShort(alg);
    }
  }

  lemma EncStructureEncodes(protected: seq<byte>)
    ensures NewEncrypt0(protected).AsBytes().Success? <==> |protected| < 0x1_0000_0000_0000_0000
  {
    hide Encodable, Ascii;
    var fields := NewEncrypt0(protected).Fields();
    ThreeEncodable(fields[0], fields[1], fields[2]);
    EncodableRange(fields[0]);
    EncodableRange(fields[1]);
    EncodableRange(fields[2]);
  }

  /** The additional data for the header that `new` writes has an encoding. */
  lemma StreamShort(alg: CoseAlgorithm)
    ensures
      var protected := EmptyOrSerialized(Singleton(ALG_LABEL, Integer(alg.Value())));
      protected.Success? && NewEncrypt0(protected.value).AsBytes().Success?
  {
    hide NewEncrypt0, EmptyOrSerialized;
    StreamLength(alg);
    EncStructureEncodes(EmptyOrSerialized(Singleton(ALG_LABEL, Integer(alg.Value()))).value);
  }

  lemma StreamLength(alg: CoseAlgorithm)
    ensures
      var protected := EmptyOrSerialized(Singleton(ALG_LABEL, Integer(alg.Value())));
      protected.Success? && |protected.value| == 3
  {
    hide Emit, ItemOf, Encodable;
    StreamEncodes(alg);
    SingletonLength(alg.Value());
  }

  lemma SingletonLength(n: nat)
    requires n < 24
    ensures |Emit(ItemOf(Map(Singleton(ALG_LABEL, Integer(n)))))| == 3
  {
    hide EmitHead;
    AlgorithmHeaderLayout(Integer(n));
  }

  /** The exact document of a creation: {1: algorithm} protected, {5: IV} unprotected with the 12
      generated bytes, and what the cipher made of the payload followed by its 16-byte tag. */
  lemma CreatedDocument(c: Aead, payload: seq<byte>, key: seq<byte>, seed: nat)
    requires NewSpec(c, payload, Gcm, key, seed).Success?
    ensures
      && |key| in {16, 24, 32} && c.entropy(seed).Success?
      && var cipher := if |key| == 16 then Aes128Gcm else if |key| == 24 then Aes192Gcm else Aes256Gcm;
      && var iv := Fill(c.entropy(seed).value, 12);
      && var sealed := c.encrypt(cipher, key, iv, AdditionalDataBytes(|key| / 8 - 1), payload);
      && sealed.Some?
      && NewSpec(c, payload, Gcm, key, seed).value ==
           CoseEncrypt0([0xA1, 0x01, |key| / 8 - 1], Singleton(Integer(5), Bytes(iv)),
                        sealed.value.0 + Fill(sealed.value.1, 16))
  {
    hide EmptyOrSerialized, EncStructure.AsBytes, AdditionalDataBytes, NewEncrypt0, Singleton, NewSpec, Fill;
    CreatedParts(c, payload, key, seed);
    StreamBytes(Gcm.CoseAlg(key).value);
    AdditionalData(|key| / 8 - 1);
  }

  /** The exact bytes of a created document, tagged or not, section 5.2 of RFC 8152. */
  lemma CreatedBytes(c: Aead, payload: seq<byte>, key: seq<byte>, seed: nat, tagged: bool)
    requires NewSpec(c, payload, Gcm, key, seed).Success?
    ensures
      && |key| in {16, 24, 32} && c.entropy(seed).Success?
      && var doc := NewSpec(c, payload, Gcm, key, seed).value;
      && doc.AsBytes(tagged) ==
           if |doc.ciphertext| < 0x1_0000_0000_0000_0000 then
             Success((if tagged then [0xD0] else [])
                     + [0x83, 0x43, 0xA1, 0x01, |key| / 8 - 1, 0xA1, 0x05, 0x4C] + Fill(c.entropy(seed).value, 12)
                     + Bstr(doc.ciphertext))
           else
             Failure(SerializationError)
  {
    hide CoseEncrypt0.AsBytes, Ascii, Bstr, NewSpec, Fill;
    CreatedDocument(c, payload, key, seed);
    var doc := NewSpec(c, payload, Gcm, key, seed).value;
    DocumentBytes(doc, |key| / 8 - 1, Fill(c.entropy(seed).value, 12), tagged);
  }

  lemma CreatedParts(c: Aead, payload: seq<byte>, key: seq<byte>, seed: nat)
    requires NewSpec(c, payload, Gcm, key, seed).Success?
    ensures
      var doc := NewSpec(c, payload, Gcm, key, seed).value;
      && |key| in {16, 24, 32} && c.entropy(seed).Success?
      && var alg := Gcm.CoseAlg(key);
      && alg.Some? && alg.value.Value() == |key| / 8 - 1
      && EmptyOrSerialized(Singleton(ALG_LABEL, Integer(alg.value.Value()))) == Success(doc.protected)
      && var aad := NewEncrypt0(doc.protected).AsBytes();
      && aad.Success?
      && var iv := Fill(c.entropy(seed).value, 12);
      && var sealed := c.encrypt(alg.value.Cipher(), key, iv, aad.value, payload);
      && sealed.Some?
      && doc.unprotected == Singleton(IV_LABEL, Bytes(iv))
      && doc.ciphertext == sealed.value.0 + Fill(sealed.value.1, 16)
  {
    hide EmptyOrSerialized, EncStructure.AsBytes, NewEncrypt0, Singleton, Fill;
  }

  /** The Enc_structure for the protected header {1: alg}: an array of three, the text "Encrypt0", the
      three header bytes and the empty byte string. */
  function AdditionalDataBytes(alg: byte): seq<byte> {
    [0x83, 0x68, 0x45, 0x6E, 0x63, 0x72, 0x79, 0x70, 0x74, 0x30, 0x43, 0xA1, 0x01, alg, 0x40]
  }

  lemma AdditionalData(alg: byte)
    ensures NewEncrypt0([0xA1, 0x01, alg]).AsBytes() == Success(AdditionalDataBytes(alg))
  {
    hide EncStructure.AsBytes, Ascii, Bstr, AdditionalDataBytes;
    var protected: seq<byte> := [0xA1, 0x01, alg];
    EncStructureEncodes(protected);
    EncStructureLayout(protected);
    ThreeByteField(protected);
    ContextBytes();
    GlueAdditionalData(alg);
  }

  lemma GlueAdditionalData(alg: byte)
    ensures [0x83] + [0x68] + [0x45, 0x6E, 0x63, 0x72, 0x79, 0x70, 0x74, 0x30] + ([0x43] + [0xA1, 0x01, alg]) + [0x40]
         == AdditionalDataBytes(alg)
  {
  }

  lemma ContextBytes()
    ensures Ascii("Encrypt0") == [0x45, 0x6E, 0x63, 0x72, 0x79, 0x70, 0x74, 0x30]
  {
    var b := Ascii("Encrypt0");
    assert b[0] == 0x45 && b[1] == 0x6E && b[2] == 0x63 && b[3] == 0x72;
    assert b[4] == 0x79 && b[5] == 0x70 && b[6] == 0x74 && b[7] == 0x30;
  }

  lemma DocumentBytes(doc: CoseEncrypt0, alg: byte, iv: seq<byte>, tagged: bool)
    requires |iv| == 12
    requires doc.protected == [0xA1, 0x01, alg] && doc.unprotected == Singleton(IV_LABEL, Bytes(iv))
    ensures doc.AsBytes(tagged) ==
      if |doc.ciphertext| < 0x1_0000_0000_0000_0000 then
        Success((if tagged then [0xD0] else [])
                + [0x83, 0x43, 0xA1, 0x01, alg, 0xA1, 0x05, 0x4C] + iv + Bstr(doc.ciphertext))
      else
        Failure(SerializationError)
  {
    hide Encodable, CoseEncrypt0.AsBytes, Bstr, Emit, ItemOf;
    IvHeader(iv);
    EncodableRange(Map(doc.unprotected));
    EncodableRange(IV_LABEL);
    EncodableRange(Bytes(iv));
    SerializesWhen(doc, tagged);
    if doc.AsBytes(tagged).Success? {
      Encrypt0Layout(doc, tagged);
      ThreeByteField(doc.protected);
      Glue(if tagged then [0xD0] else [], alg, iv, Bstr(doc.ciphertext));
    }
  }

  lemma StreamBytes(alg: CoseAlgorithm)
    ensures EmptyOrSerialized(Singleton(ALG_LABEL, Integer(alg.Value()))) == Success([0xA1, 0x01, alg.Value()])
  {
    hide Emit, ItemOf, Encodable, HeaderMaps.FromBytes, CoseAlgorithm.Value;
    StreamEncodes(alg);
    AlgorithmHeaderLayout(Integer(alg.Value()));
    SmallAlgorithms(alg);
    SmallInteger(alg.Value());
    assert [0xA1] + [0x01] + [alg.Value()] == [0xA1, 0x01, alg.Value()];
  }

  lemma SmallAlgorithms(alg: CoseAlgorithm)
    ensures alg.Value() < 24
  {
  }

  lemma SmallInteger(n: nat)
    requires n < 24
    ensures Emit(ItemOf(Integer(n))) == [n]
  {
  }

  lemma ThreeByteField(b: seq<byte>)
    requires |b| == 3
    ensures Bstr(b) == [0x43] + b
  {
    assert EmitHead(2, MinWidth(3), 3) == [0x43];
  }

  /** The unprotected map of a created document: one entry, label 5 of RFC 8152 section 3.1. */
  lemma IvHeader(iv: seq<byte>)
    requires |iv| == 12
    ensures Emit(ItemOf(Map(Singleton(IV_LABEL, Bytes(iv))))) == [0xA1, 0x05, 0x4C] + iv
  {
    hide Emit, ItemOf, EmitHead;
    SingletonLayout(IV_LABEL, Bytes(iv));
    SmallInteger(5);
    BytesLayout(iv);
    assert EmitHead(2, MinWidth(12), 12) == [0x4C] by { TwelveHead(); }
  }

  lemma TwelveHead()
    ensures EmitHead(2, MinWidth(12), 12) == [0x4C]
  {
  }

  lemma Glue(tag: seq<byte>, value: byte, iv: seq<byte>, ciphertext: seq<byte>)
    ensures tag + [0x83] + ([0x43] + [0xA1, 0x01, value]) + ([0xA1, 0x05, 0x4C] + iv) + ciphertext
         == tag + [0x83, 0x43, 0xA1, 0x01, value, 0xA1, 0x05, 0x4C] + iv + ciphertext
  {
  }

  /** Encrypt, send, receive, decrypt: the receiver gets the payload back, with the algorithm of the
      key's length in the protected header and a 12-byte IV in the unprotected one. */
  lemma EndToEndEncryption(c: Aead, payload: seq<byte>, key: seq<byte>, seed: nat, tagged: bool)
    requires AeadCorrect(c)
    requires NewSpec(c, payload, Gcm, key, seed).Success?
    requires NewSpec(c, payload, Gcm, key, seed).value.AsBytes(tagged).Success?
    ensures
      var doc := NewSpec(c, payload, Gcm, key, seed).value;
      var received := FromBytes(doc.AsBytes(tagged).value);
      && received == Success(doc)
      && Decrypt(received.value, c, key)
         == Success((Singleton(ALG_LABEL, Integer(|key| / 8 - 1)), doc.unprotected, payload))
      && (exists iv :: |iv| == 12 && doc.unprotected == Singleton(IV_LABEL, Bytes(iv)))
      && Gcm.CoseAlg(key).value.Cipher().KeyBytes() == |key|
  {
    hide HeaderMaps.FromBytes, EmptyOrSerialized, ToVec, FromBytes, Ordered, Ascii;
    var doc := NewSpec(c, payload, Gcm, key, seed).value;
    var alg := Gcm.CoseAlg(key).value;
    var iv := Fill(c.entropy(seed).value, 12);
    StreamEncodes(alg);
    WireRoundTrip(doc, tagged);
    AlgorithmSelection(alg.Value(), alg);
    assert Lookup(doc.unprotected, IV_LABEL) == Some(Bytes(iv));
    var aad := NewEncrypt0(doc.protected).AsBytes().value;
    var (ciphertext, tag) := c.encrypt(alg.Cipher(), key, iv, aad, payload).value;
    SplitTag(ciphertext, Fill(tag, 16));
    assert doc.unprotected == Singleton(IV_LABEL, Bytes(iv)) && |iv| == 12;
    assert c.decrypt(alg.Cipher(), key, iv, aad, ciphertext, Fill(tag, alg.TagSize())) == Some(payload);
  }

  lemma SplitTag(ciphertext: seq<byte>, tag: seq<byte>)
    ensures
      var whole := ciphertext + tag;
      SplitAt(whole, |whole| - |tag|) == Success((ciphertext, tag))
  {
  }
}
