/** The byte strings and parameters that the crate's own tests pin. */
module Vectors {
  import opened BigEndian
  import opened CborCodec
  import opened CborSyntax
  import opened CborValues
  import opened Crypto
  import opened HeaderMaps
  import opened OpensslPkey
  import Reading
  import ReferenceEncoder
  import Sign
  import opened Wrappers

  /** The item of an unsigned integer with a head of the given width. */
  function Uint(width: nat, n: nat): Item {
    Item(0, width, n, [], [])
  }

  function MapItem(kids: seq<Item>): Item {
    Item(5, 0, |kids| / 2, [], kids)
  }

  lemma EmitUint(n: nat)
    requires n < 256
    ensures n < 24 ==> Emit(Uint(0, n)) == [n]
    ensures Emit(Uint(1, n)) == [0x18, n]
  {
    assert I2osp(n, 1) == [n];
  }

  /** {1: alg} for the three signature algorithms, and the empty map. */
  lemma AlgorithmHeaderBytes()
    ensures EmptyOrSerialized(AlgorithmHeader(ES256)) == Success([0xA1, 0x01, 0x26])
    ensures EmptyOrSerialized(AlgorithmHeader(ES384)) == Success([0xA1, 0x01, 0x38, 0x22])
    ensures EmptyOrSerialized(AlgorithmHeader(ES512)) == Success([0xA1, 0x01, 0x38, 0x23])
    ensures EmptyOrSerialized([]) == Success([])
  {
    hide Emit, ItemOf, EmptyOrSerialized;
    NegativeBytes();
    AlgorithmBytes(ES256, [0x26]);
    AlgorithmBytes(ES384, [0x38, 0x22]);
    AlgorithmBytes(ES512, [0x38, 0x23]);
    EmptyBytes();
    assert [0xA1, 0x01] + [0x26] == [0xA1, 0x01, 0x26];
    assert [0xA1, 0x01] + [0x38, 0x22] == [0xA1, 0x01, 0x38, 0x22];
    assert [0xA1, 0x01] + [0x38, 0x23] == [0xA1, 0x01, 0x38, 0x23];
  }

  lemma EmptyBytes()
    ensures EmptyOrSerialized([]) == Success([])
  {
  }

  lemma AlgorithmBytes(alg: SignatureAlgorithm, id: seq<byte>)
    requires Emit(ItemOf(Integer(alg.Id()))) == id
    ensures EmptyOrSerialized(AlgorithmHeader(alg)) == Success([0xA1, 0x01] + id)
  {
    hide Emit, ItemOf, Less, Proper, FromBytes, Lookup, SignatureAlgorithm.Id;
    AlgorithmIdPath(alg.Id());
    AlgorithmHeaderLayout(Integer(alg.Id()));
    assert [0xA1] + [0x01] + id == [0xA1, 0x01] + id;
  }

  lemma NegativeBytes()
    ensures Emit(ItemOf(Integer(-7))) == [0x26]
    ensures Emit(ItemOf(Integer(-35))) == [0x38, 0x22]
    ensures Emit(ItemOf(Integer(-36))) == [0x38, 0x23]
  {
    assert I2osp(34, 1) == [0x22] && I2osp(35, 1) == [0x23];
  }

  lemma MapHead()
    ensures EmitHead(5, 0, 1) == [0xA1] && EmitHead(5, 0, 2) == [0xA2] && EmitHead(5, 0, 3) == [0xA3]
  {
  }

  predicate IsUint(i: Item) {
    i.major == 0 && i.data == [] && i.kids == [] && Fits(i.width, i.arg)
  }

  predicate KeysDiffer(kids: seq<Item>) {
    forall j, k :: 0 <= j < k < |kids| / 2 ==> kids[2 * j].arg != kids[2 * k].arg
  }

  /** A short map of unsigned integers, with heads of any width, is read exactly when its keys
      differ as integers. */
  lemma UintMap(kids: seq<Item>)
    requires |kids| % 2 == 0 && |kids| < 48
    requires forall k :: 0 <= k < |kids| ==> IsUint(kids[k])
    ensures FromBytes(Emit(MapItem(kids))).Success? <==> KeysDiffer(kids)
  {
    hide Emit, FromBytes, Fits, Shaped, Sized, Distinct, PairUp, ValuesOf, KeysDiffer, Lookup;
    var i := MapItem(kids);
    SmallFits(|kids| / 2);
    forall k | 0 <= k < |kids| ensures Valid(kids[k]) {
      ValidParts(kids[k]);
    }
    ValidParts(i);
    HeaderDecoding(i);
    UintKeys(kids);
  }

  lemma UintKeys(kids: seq<Item>)
    requires forall k :: 0 <= k < |kids| ==> IsUint(kids[k]) && Shaped(kids[k])
    ensures Distinct(PairUp(ValuesOf(kids))) <==> KeysDiffer(kids)
  {
    hide Fits, Shaped, ValuesOf;
    var ps := PairUp(ValuesOf(kids));
    forall k | 0 <= k < |ps| ensures ps[k].key == Integer(kids[2 * k].arg) {
      assert ps[k].key == ValueOf(kids[2 * k]);
    }
  }

  lemma SmallFits(n: nat)
    requires n < 24
    ensures Fits(0, n)
  {
  }

  lemma MapBytes(i: Item)
    requires i.data == []
    ensures Emit(i) == EmitHead(i.major, i.width, i.arg) + EmitAll(i.kids)
  {
    hide EmitHead, EmitAll;
    assert EmitHead(i.major, i.width, i.arg) + [] == EmitHead(i.major, i.width, i.arg);
  }

  lemma TwoEntries(k: Item, v: Item, k': Item, v': Item)
    requires IsUint(k) && IsUint(v) && IsUint(k') && IsUint(v')
    ensures FromBytes([0xA2] + Emit(k) + Emit(v) + Emit(k') + Emit(v')).Success? <==> k.arg != k'.arg
  {
    hide Emit, FromBytes, EmitHead, EmitAll, KeysDiffer, Fits;
    var kids := [k, v, k', v'];
    UintMap(kids);
    TwoKeys(kids);
    MapHead();
    MapBytes(MapItem(kids));
    EmitFour(k, v, k', v');
    Regroup([0xA2], Emit(k), Emit(v), Emit(k'), Emit(v'));
  }

  lemma TwoKeys(kids: seq<Item>)
    requires |kids| == 4
    ensures KeysDiffer(kids) <==> kids[0].arg != kids[2].arg
  {
    assert kids[2 * 0] == kids[0] && kids[2 * 1] == kids[2];
  }

  lemma ThreeEntries(kids: seq<Item>)
    requires |kids| == 6 && forall k :: 0 <= k < 6 ==> IsUint(kids[k])
    ensures FromBytes(Emit(MapItem(kids))).Success?
      <==> kids[0].arg != kids[2].arg && kids[0].arg != kids[4].arg && kids[2].arg != kids[4].arg
  {
    hide Emit, FromBytes, KeysDiffer, IsUint, MapItem;
    UintMap(kids);
    ThreeKeys(kids);
  }

  lemma ThreeEntriesBytes(a: Item, b: Item, c: Item, d: Item, e: Item, f: Item)
    ensures Emit(MapItem([a, b, c, d, e, f]))
      == [0xA3] + Emit(a) + Emit(b) + Emit(c) + Emit(d) + Emit(e) + Emit(f)
  {
    hide Emit, EmitHead, EmitAll;
    MapHead();
    MapBytes(MapItem([a, b, c, d, e, f]));
    SixItems([0xA3], a, b, c, d, e, f);
  }

  lemma SixItems(h: seq<byte>, a: Item, b: Item, c: Item, d: Item, e: Item, f: Item)
    ensures h + EmitAll([a, b, c, d, e, f]) == h + Emit(a) + Emit(b) + Emit(c) + Emit(d) + Emit(e) + Emit(f)
  {
    hide Emit, EmitAll;
    EmitFour(c, d, e, f);
    EmitAllCons(b, [c, d, e, f]);
    EmitAllCons(a, [b, c, d, e, f]);
    assert [b, c, d, e, f] == [b] + [c, d, e, f];
    assert [a, b, c, d, e, f] == [a] + [b, c, d, e, f];
    Regroup(h + Emit(a) + Emit(b), Emit(c), Emit(d), Emit(e), Emit(f));
  }

  lemma ThreeKeys(kids: seq<Item>)
    requires |kids| == 6
    ensures KeysDiffer(kids)
      <==> kids[0].arg != kids[2].arg && kids[0].arg != kids[4].arg && kids[2].arg != kids[4].arg
  {
    assert kids[2 * 0] == kids[0] && kids[2 * 1] == kids[2] && kids[2 * 2] == kids[4];
  }

  /** Two entries with keys 1 and 2 are read; a third one repeating either key is refused. */
  lemma DuplicateKeys()
    ensures FromBytes([0xA2, 0x01, 0x18, 0x2A, 0x02, 0x18, 0x2A]).Success?
    ensures !FromBytes([0xA3, 0x01, 0x18, 0x2A, 0x02, 0x18, 0x2A, 0x01, 0x18, 0x2B]).Success?
    ensures !FromBytes([0xA3, 0x01, 0x18, 0x2A, 0x02, 0x18, 0x2A, 0x02, 0x18, 0x2A]).Success?
  {
    hide Emit, FromBytes;
    EmitUint(1);
    EmitUint(2);
    EmitUint(42);
    EmitUint(43);
    var one, two, fortyTwo := Uint(0, 1), Uint(0, 2), Uint(1, 42);
    TwoEntries(one, fortyTwo, two, fortyTwo);
    ThreeEntries([one, fortyTwo, two, fortyTwo, one, Uint(1, 43)]);
    ThreeEntriesBytes(one, fortyTwo, two, fortyTwo, one, Uint(1, 43));
    ThreeEntries([one, fortyTwo, two, fortyTwo, two, fortyTwo]);
    ThreeEntriesBytes(one, fortyTwo, two, fortyTwo, two, fortyTwo);
    assert [0xA2] + [1] + [0x18, 42] + [2] + [0x18, 42] == [0xA2, 0x01, 0x18, 0x2A, 0x02, 0x18, 0x2A];
    assert [0xA3] + [1] + [0x18, 42] + [2] + [0x18, 42] + [1] + [0x18, 43]
        == [0xA3, 0x01, 0x18, 0x2A, 0x02, 0x18, 0x2A, 0x01, 0x18, 0x2B];
    assert [0xA3] + [1] + [0x18, 42] + [2] + [0x18, 42] + [2] + [0x18, 42]
        == [0xA3, 0x01, 0x18, 0x2A, 0x02, 0x18, 0x2A, 0x02, 0x18, 0x2A];
  }

  /** A repeated key is refused also when its head has another width. */
  lemma WiderDuplicateKey()
    ensures !FromBytes([0xA2, 0x01, 0x18, 0x2A, 0x18, 0x01, 0x18, 0x2A]).Success?
  {
    hide Emit, FromBytes;
    EmitUint(1);
    EmitUint(42);
    TwoEntries(Uint(0, 1), Uint(1, 42), Uint(1, 1), Uint(1, 42));
    assert [0xA2] + [1] + [0x18, 42] + [0x18, 1] + [0x18, 42] == [0xA2, 0x01, 0x18, 0x2A, 0x18, 0x01, 0x18, 0x2A];
  }

  /** Tag 18 is read from its one-byte and from its three-byte head; 0xD3 is tag 19. */
  lemma TagBytes(rest: seq<byte>)
    ensures OuterTag([0xD2] + rest) == Some(18)
    ensures OuterTag([0xD9, 0x00, 0x12] + rest) == Some(18)
    ensures OuterTag([0xD3] + rest) == Some(19)
    ensures OuterTag([0x84] + rest) == None
  {
    var b := [0xD9, 0x00, 0x12] + rest;
    assert b[1..3] == [0x00, 0x12];
    assert Os2ip([0x00]) == 0 by { assert [0x00][..0] == []; }
    assert Os2ip([0x00, 0x12]) == 18 by { assert [0x00, 0x12][..1] == [0x00]; }
  }

  /** The ES256 document that the crate's tests read, with any payload of 117 and any signature of 64 bytes:
      tag 18 in three bytes, {1: -7} protected, {4: '11'} unprotected. */
  lemma TestDocument(payload: seq<byte>, signature: seq<byte>)
    requires |payload| == 117 && |signature| == 64
    ensures Sign.FromBytes(
        [0xD9, 0x00, 0x12] + ([0x84] + [0x43, 0xA1, 0x01, 0x26] + [0xA1, 0x04, 0x42, 0x31, 0x31]
        + ([0x58, 0x75] + payload) + ([0x58, 0x40] + signature)))
      == Success(Sign.CoseSign1([0xA1, 0x01, 0x26], Singleton(Integer(4), Bytes([0x31, 0x31])), payload, signature))
  {
    hide Emit, ItemOf, EmitHead, EmptyOrSerialized, Sign.FromBytes, HeaderMaps.FromBytes, Encodable, Singleton,
      AlgorithmHeader, Bstr, Sign.CoseSign1.AsBytes;
    var protected: seq<byte> := [0xA1, 0x01, 0x26];
    var unprotected := Singleton(Integer(4), Bytes([0x31, 0x31]));
    var doc := Sign.CoseSign1(protected, unprotected, payload, signature);
    AlgorithmHeaderBytes();
    HeaderRoundTrip(AlgorithmHeader(ES256));
    TestFields(payload, signature);
    KeyIdentifier(unprotected);
    Sign.SerializesWhen(doc, false);
    Sign.Sign1Layout(doc, false);
    Reading.WideTag(doc, 2);
    TestHeads();
    assert [] + [0x84] == [0x84];
  }

  lemma TestHeads()
    ensures EmitHead(6, 2, 18) == [0xD9, 0x00, 0x12] && Fits(2, 18)
  {
    ReferenceEncoder.HeadForms(6, 18);
    Pow256Values();
  }

  lemma TestFields(payload: seq<byte>, signature: seq<byte>)
    requires |payload| == 117 && |signature| == 64
    ensures Bstr([0xA1, 0x01, 0x26]) == [0x43, 0xA1, 0x01, 0x26]
    ensures Bstr(payload) == [0x58, 0x75] + payload
    ensures Bstr(signature) == [0x58, 0x40] + signature
  {
    hide EmitHead;
    ReferenceEncoder.ShortestHead(2, 3);
    ReferenceEncoder.ShortestHead(2, 117);
    ReferenceEncoder.ShortestHead(2, 64);
  }

  lemma KeyIdentifier(h: Header)
    requires h == Singleton(Integer(4), Bytes([0x31, 0x31]))
    ensures Emit(ItemOf(Map(h))) == [0xA1, 0x04, 0x42, 0x31, 0x31]
    ensures Encodable(Map(h))
  {
    hide Emit, ItemOf, EmitHead, Encodable;
    SingletonLayout(Integer(4), Bytes([0x31, 0x31]));
    BytesLayout([0x31, 0x31]);
    ReferenceEncoder.ShortestHead(2, 2);
    ReferenceEncoder.IntegerLayout(4);
    ReferenceEncoder.ShortestHead(0, 4);
    EncodableRange(Map(h));
    EncodableRange(h[0].key);
    EncodableRange(h[0].value);
    assert [0xA1] + [0x04] + ([0x42] + [0x31, 0x31]) == [0xA1, 0x04, 0x42, 0x31, 0x31];
  }

  /** Section 8.1 of RFC 8152: the algorithm, digest and integer length that go with each curve. */
  lemma CurveTable()
    ensures EcCurveToParameters(X9_62_PRIME256V1) == Success((ES256, Sha256, 32)) && ES256.Id() == -7
    ensures EcCurveToParameters(SECP384R1) == Success((ES384, Sha384, 48)) && ES384.Id() == -35
    ensures EcCurveToParameters(SECP521R1) == Success((ES512, Sha512, 66)) && ES512.Id() == -36
    ensures forall code :: EcCurveToParameters(OtherCurve(code)) == Failure(UnsupportedError)
    ensures CurveBits(ES256) == 256 && CurveBits(ES384) == 384 && CurveBits(ES512) == 521
  {
  }
}
