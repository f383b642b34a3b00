/** Sig_structure and COSE_Sign1 (src/sign.rs). */
module Sign {
  import opened BigEndian
  import opened CborCodec
  import opened CborSyntax
  import opened CborValues
  import opened HeaderMaps
  import opened Serde
  import opened Wrappers

  // ---------------------------------------------------------------- Sig_structure

  /** RFC 8152 section 4.4. The signer's protected header is omitted from the array when absent. */
  datatype SigStructure = SigStructure(
    context: Utf8,
    bodyProtected: seq<byte>,
    signProtected: Option<seq<byte>>,
    externalAad: seq<byte>,
    payload: seq<byte>)
  {
    function AsValue(): CborValue {
      Array(
        [Text(context), Bytes(bodyProtected)]
        + (if signProtected.Some? then [Bytes(signProtected.value)] else [])
        + [Bytes(externalAad), Bytes(payload)])
    }

    function AsBytes(): Result<seq<byte>> {
      ToVec(AsValue())
    }
  }

  function NewSign1(bodyProtected: seq<byte>, payload: seq<byte>): SigStructure {
    SigStructure(Ascii("Signature1"), bodyProtected, None, [], payload)
  }

  function NewSign1CborValue(bodyProtected: seq<byte>, payload: Value): Result<SigStructure> {
    var bytes :- ToVec(payload);
    Success(NewSign1(bodyProtected, bytes))
  }

  /** The canonical byte stream determines the whole structure. */
  lemma SigStructureInjective(a: SigStructure, b: SigStructure)
    requires a.AsBytes().Success? && a.AsBytes() == b.AsBytes()
    ensures a == b
  {
    hide ToVec;
    EncodeInjective(a.AsValue(), b.AsValue());
    var x, y := a.AsValue().items, b.AsValue().items;
    assert x[0] == y[0] && x[1] == y[1];
    assert x[|x| - 1] == y[|y| - 1] && x[|x| - 2] == y[|y| - 2];
    if a.signProtected.Some? {
      assert x[2] == y[2];
    }
  }

  /** The stream exists exactly for protected bytes and payloads shorter than 2^64. */
  lemma Sign1StreamEncodes(p: seq<byte>, m: seq<byte>)
    ensures NewSign1(p, m).AsBytes().Success?
      <==> |p| < 0x1_0000_0000_0000_0000 && |m| < 0x1_0000_0000_0000_0000
    ensures !NewSign1(p, m).AsBytes().Success? ==> NewSign1(p, m).AsBytes() == Failure(SerializationError)
  {
    hide Encodable, Ascii;
    var text := Text(NewSign1(p, m).context);
    assert NewSign1(p, m).AsValue() == Array([text, Bytes(p), Bytes([]), Bytes(m)]);
    FourEncodable(text, Bytes(p), Bytes([]), Bytes(m));
    EncodableRange(text);
    EncodableRange(Bytes(p));
    EncodableRange(Bytes([]));
    EncodableRange(Bytes(m));
  }

  /** In particular nothing can be moved between the protected bytes and the payload. */
  lemma Sign1StreamInjective(p: seq<byte>, m: seq<byte>, p': seq<byte>, m': seq<byte>)
    requires NewSign1(p, m).AsBytes().Success?
    requires NewSign1(p, m).AsBytes() == NewSign1(p', m').AsBytes()
    ensures p == p' && m == m'
  {
    SigStructureInjective(NewSign1(p, m), NewSign1(p', m'));
  }

  /** A CBOR payload is determined by the stream too. */
  lemma Sign1CborValueInjective(p: seq<byte>, v: Value, p': seq<byte>, v': Value)
    requires NewSign1CborValue(p, v).Success? && NewSign1CborValue(p', v').Success?
    requires NewSign1CborValue(p, v).value.AsBytes().Success?
    requires NewSign1CborValue(p, v).value.AsBytes() == NewSign1CborValue(p', v').value.AsBytes()
    ensures p == p' && v == v'
  {
    hide ToVec, Proper;
    Sign1StreamInjective(p, ToVec(v).value, p', ToVec(v').value);
    EncodeInjective(v, v');
  }

  // ---------------------------------------------------------------- COSE_Sign1 on the wire

  const SIGN1_TAG: nat := 18

  datatype CoseSign1 = CoseSign1(
    protected: seq<byte>,
    unprotected: Header,
    payload: seq<byte>,
    signature: seq<byte>)
  {
    function Fields(): seq<CborValue> {
      [Bytes(protected), Map(unprotected), Bytes(payload), Bytes(signature)]
    }

    function AsValue(tagged: bool): CborValue {
      if tagged then Tag(SIGN1_TAG, Array(Fields())) else Array(Fields())
    }

    function AsBytes(tagged: bool): Result<seq<byte>> {
      ToVec(AsValue(tagged))
    }
  }

  /** `Serialize for CoseSign1`, element by element. */
  method Serialize(doc: CoseSign1) returns (r: Result<seq<byte>>)
    ensures r == doc.AsBytes(false)
  {
    hide ToVec, Encodable, ItemOf, Emit;
    EncodableRange(Array(doc.Fields()));
    var s := new SeqSerializer(4);
    var ok := s.SerializeElement(Bytes(doc.protected));
    if !ok {
      assert !Encodable(doc.Fields()[0]);
      return NotEncodable(Array(doc.Fields()));
    }
    ok := s.SerializeElement(Map(doc.unprotected));
    if !ok {
      assert !Encodable(doc.Fields()[1]);
      return NotEncodable(Array(doc.Fields()));
    }
    ok := s.SerializeElement(Bytes(doc.payload));
    if !ok {
      assert !Encodable(doc.Fields()[2]);
      return NotEncodable(Array(doc.Fields()));
    }
    ok := s.SerializeElement(Bytes(doc.signature));
    if !ok {
      assert !Encodable(doc.Fields()[3]);
      return NotEncodable(Array(doc.Fields()));
    }
    assert s.written == doc.Fields();
    var bytes := s.End();
    r := Success(bytes);
  }

  /** The result for a value without encoding. */
  function NotEncodable(v: CborValue): (r: Result<seq<byte>>)
    requires !Encodable(v)
    ensures r == ToVec(v)
  {
    Failure(SerializationError)
  }

  /** `visit_seq`: four elements of the right kinds and no more. */
  function Sign1OfKids(kids: seq<Item>): Option<CoseSign1>
    requires forall k :: 0 <= k < |kids| ==> Shaped(kids[k])
  {
    if |kids| != 4 then None else
    var protected :- BytesOfItem(kids[0]);
    var unprotected :- HeaderOfItem(kids[1]);
    var payload :- BytesOfItem(kids[2]);
    var signature :- BytesOfItem(kids[3]);
    Some(CoseSign1(protected, unprotected, payload, signature))
  }

  /** The visitor, element by element. Byte-string fields are taken from CBOR byte strings only
      (`BytesOfItem`); what else the library's byte buffer type accepts is not part of this model. */
  method VisitSeq(kids: seq<Item>) returns (r: Option<CoseSign1>)
    requires forall k :: 0 <= k < |kids| ==> Shaped(kids[k])
    ensures r == Sign1OfKids(kids)
  {
    hide Shaped, HeaderOfItem;
    var elements := new SeqAccess(kids);
    var e0 := elements.NextElement();
    if e0.None? { return None; }
    var protected :- BytesOfItem(e0.value);
    var e1 := elements.NextElement();
    if e1.None? { return None; }
    var unprotected :- HeaderOfItem(e1.value);
    var e2 := elements.NextElement();
    if e2.None? { return None; }
    var payload :- BytesOfItem(e2.value);
    var e3 := elements.NextElement();
    if e3.None? { return None; }
    var signature :- BytesOfItem(e3.value);
    // the deserializer refuses an array with elements left over
    if elements.rest != [] { return None; }
    r := Some(CoseSign1(protected, unprotected, payload, signature));
  }

  /** `Deserialize for CoseSign1`: `visit_newtype_struct` steps over any tag. */
  function Sign1OfItem(i: Item): Option<CoseSign1>
    requires Shaped(i)
  {
    if i.major == 6 then Sign1OfItem(i.kids[0])
    else if i.major == 4 then Sign1OfKids(i.kids)
    else None
  }

  /** `from_slice` into `Tagged<CoseSign1>`: the outermost tag and the document. */
  function ReadTagged(b: seq<byte>): Result<(Option<nat>, CoseSign1)> {
    var i :- FromSlice(b).ToResult(SerializationError);
    var (tag, inner) := if i.major == 6 then (Some(i.arg), i.kids[0]) else (None, i);
    var doc :- Sign1OfItem(inner).ToResult(SerializationError);
    Success((tag, doc))
  }

  function FromBytes(b: seq<byte>): Result<CoseSign1> {
    var (tag, doc) :- ReadTagged(b);
    if tag != None && tag != Some(SIGN1_TAG) then Failure(TagError(tag)) else
    var _ :- HeaderMaps.FromBytes(doc.protected);
    Success(doc)
  }

  function FromBytesTagged(b: seq<byte>): Result<CoseSign1> {
    var (tag, doc) :- ReadTagged(b);
    if tag != Some(SIGN1_TAG) then Failure(TagError(tag)) else
    var _ :- HeaderMaps.FromBytes(doc.protected);
    Success(doc)
  }

  // ---------------------------------------------------------------- wire round trip

  /** A document has an encoding exactly when its unprotected map has one and its byte strings are
      shorter than 2^64. */
  lemma SerializesWhen(doc: CoseSign1, tagged: bool)
    ensures doc.AsBytes(tagged).Success? <==>
      && Encodable(Map(doc.unprotected))
      && |doc.protected| < 0x1_0000_0000_0000_0000
      && |doc.payload| < 0x1_0000_0000_0000_0000
      && |doc.signature| < 0x1_0000_0000_0000_0000
    ensures !doc.AsBytes(tagged).Success? ==> doc.AsBytes(tagged) == Failure(SerializationError)
  {
    hide Encodable;
    var fields := doc.Fields();
    FourEncodable(fields[0], fields[1], fields[2], fields[3]);
    EncodableRange(Tag(SIGN1_TAG, Array(fields)));
    EncodableRange(fields[0]);
    EncodableRange(fields[2]);
    EncodableRange(fields[3]);
  }

  lemma DocumentProper(doc: CoseSign1, tagged: bool)
    ensures Proper(doc.AsValue(tagged))
  {
    hide Sorted;
    ProperMap(doc.unprotected);
    assert Proper(Array(doc.Fields()));
  }

  lemma DocumentItem(doc: CoseSign1)
    requires Shaped(ItemOf(Array(doc.Fields())))
    ensures Sign1OfItem(ItemOf(Array(doc.Fields()))) == Some(doc)
  {
    hide HeaderOfItem;
    HeaderItem(doc.unprotected);
    var kids := ItemsOf(doc.Fields());
    assert kids[1] == ItemOf(Map(doc.unprotected));
  }

  /** Whatever was serialized reads back as exactly the same document, all bytes consumed, if its
      protected bytes are a header map; otherwise it is refused. The tagged reader accepts the
      tagged form only. */
  lemma WireRoundTrip(doc: CoseSign1, tagged: bool)
    requires doc.AsBytes(tagged).Success?
    ensures
      var b := doc.AsBytes(tagged).value;
      var accepted := HeaderMaps.FromBytes(doc.protected).Success?;
      && FromBytes(b) == (if accepted then Success(doc) else Failure(SerializationError))
      && FromBytesTagged(b) == (if !tagged then Failure(TagError(None)) else FromBytes(b))
  {
    hide Shaped, Sized, Proper, Emit, ItemOf, ValueOf, HeaderMaps.FromBytes, Sign1OfKids;
    var v := doc.AsValue(tagged);
    DocumentProper(doc, tagged);
    DecodeEncode(v, []);
    FromSliceEmit(ItemOf(v));
    DocumentProper(doc, false);
    ItemOfShape(Array(doc.Fields()));
    DocumentItem(doc);
    ArrayItem(doc.Fields());
    TagItem(SIGN1_TAG, Array(doc.Fields()));
  }

  /** The bytes of a document, section 4.2 of RFC 8152. */
  lemma Sign1Layout(doc: CoseSign1, tagged: bool)
    requires doc.AsBytes(tagged).Success?
    ensures doc.AsBytes(tagged).value ==
      (if tagged then [0xD2] else []) + [0x84]
      + Bstr(doc.protected) + Emit(ItemOf(Map(doc.unprotected))) + Bstr(doc.payload) + Bstr(doc.signature)
  {
    hide Emit, ItemOf, EmitHead, Encodable, Bstr;
    ArrayOfFour(Bytes(doc.protected), Map(doc.unprotected), Bytes(doc.payload), Bytes(doc.signature));
    TagLayout(SIGN1_TAG, Array(doc.Fields()));
    BytesLayout(doc.protected);
    BytesLayout(doc.payload);
    BytesLayout(doc.signature);
    ShortHeads();
  }

  /** The canonical byte stream, section 4.4 of RFC 8152, for every structure: an array of four, or of
      five when the signer's protected header is present. */
  lemma StructureLayout(x: SigStructure)
    requires x.AsBytes().Success?
    ensures x.AsBytes().value ==
      match x.signProtected
      case None =>
        [0x84] + Tstr(x.context) + Bstr(x.bodyProtected) + Bstr(x.externalAad) + Bstr(x.payload)
      case Some(sp) =>
        [0x85] + Tstr(x.context) + Bstr(x.bodyProtected) + Bstr(sp) + Bstr(x.externalAad) + Bstr(x.payload)
  {
    hide Emit, ItemOf, EmitHead, Encodable, Bstr, Tstr;
    var text, body, aad, payload := Text(x.context), Bytes(x.bodyProtected), Bytes(x.externalAad), Bytes(x.payload);
    TextLayout(x.context);
    BytesLayout(x.bodyProtected);
    BytesLayout(x.externalAad);
    BytesLayout(x.payload);
    match x.signProtected
    case None =>
      assert x.AsValue() == Array([text, body, aad, payload]);
      ArrayOfFour(text, body, aad, payload);
    case Some(sp) =>
      BytesLayout(sp);
      assert x.AsValue() == Array([text, body, Bytes(sp), aad, payload]);
      ArrayOfFive(text, body, Bytes(sp), aad, payload);
  }

  /** The stream of a signature over one signer. */
  lemma SigStructureLayout(p: seq<byte>, m: seq<byte>)
    requires NewSign1(p, m).AsBytes().Success?
    ensures NewSign1(p, m).AsBytes().value ==
      [0x84] + [0x6A] + Ascii("Signature1") + Bstr(p) + [0x40] + Bstr(m)
  {
    hide SigStructure.AsBytes, Ascii, EmitHead;
    StructureLayout(NewSign1(p, m));
    ShortHeads();
    TenLetters([0x84], Ascii("Signature1"));
  }

  lemma TenLetters(h: seq<byte>, text: seq<byte>)
    requires |text| == 10
    ensures h + Tstr(text) == h + [0x6A] + text
  {
    hide EmitHead;
    ShortHeads();
  }

  /** A CBOR payload is signed as its encoding, and exactly the encodable ones can be. */
  lemma CborPayload(p: seq<byte>, v: Value)
    ensures NewSign1CborValue(p, v) ==
      if Encodable(v) then Success(NewSign1(p, Emit(ItemOf(v)))) else Failure(SerializationError)
  {
    hide Encodable, Emit, ItemOf;
  }

  /** What was accepted can be written again, tagged or not, and reads back as the same document. */
  lemma AcceptedIsStable(b: seq<byte>, tagged: bool)
    requires FromBytes(b).Success?
    ensures
      var doc := FromBytes(b).value;
      doc.AsBytes(tagged).Success? && FromBytes(doc.AsBytes(tagged).value) == Success(doc)
  {
    hide HeaderMaps.FromBytes, ParseItem, Emit, Shaped, Sized, Sign1OfItem, CoseSign1.AsBytes;
    var i := FromSlice(b).value;
    ValidParts(i);
    var doc := FromBytes(b).value;
    ReadEncodable(if i.major == 6 then i.kids[0] else i);
    SerializesWhen(doc, false);
    SerializesWhen(doc, tagged);
    WireRoundTrip(doc, tagged);
  }

  lemma {:induction false} ReadEncodable(i: Item)
    requires Valid(i) && Sign1OfItem(i).Some?
    ensures Sign1OfItem(i).value.AsBytes(false).Success?
  {
    hide HeaderOfItem, Shaped, Sized, Encodable;
    ValidParts(i);
    if i.major == 6 {
      ReadEncodable(i.kids[0]);
    } else {
      ReadFieldsEncodable(i.kids[0]);
      ReadHeaderEncodable(i.kids[1]);
      ReadFieldsEncodable(i.kids[2]);
      ReadFieldsEncodable(i.kids[3]);
      EncodableRange(Array(Sign1OfItem(i).value.Fields()));
    }
  }

  // ---------------------------------------------------------------- tags

  /** On every byte string: the tagged reader accepts exactly what the other one accepts with tag 18
      in front, with the same document; a document under another tag is refused by both with that
      tag, and an untagged one by the tagged reader. */
  lemma TagDiscipline(b: seq<byte>)
    ensures FromBytesTagged(b).Success? <==> FromBytes(b).Success? && OuterTag(b) == Some(SIGN1_TAG)
    ensures FromBytesTagged(b).Success? ==> FromBytesTagged(b) == FromBytes(b)
    ensures FromBytes(b).Success? ==> OuterTag(b) in {None, Some(SIGN1_TAG)}
    ensures forall t :: FromBytes(b) == Failure(TagError(t)) ==> t == OuterTag(b) && t.Some?
    ensures FromBytesTagged(b) == Failure(TagError(None)) ==> OuterTag(b) == None
  {
    hide Sign1OfItem, HeaderMaps.FromBytes, FromSlice, OuterTag, Shaped;
    if FromSlice(b).Some? {
      OuterTagOfItem(b);
    }
  }
}
