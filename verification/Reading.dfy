/** Which byte strings are read as documents, and as which ones, stated from the syntax of the bytes:
    heads of any width, maps in any order, any tags, any number of elements. */
module Reading {
  import opened BigEndian
  import opened CborCodec
  import opened CborSyntax
  import opened CborValues
  import Encrypt
  import HeaderMaps
  import opened Sign
  import opened Wrappers

  /** The item under all its tags. */
  function Untagged(i: Item): Item
    requires Shaped(i)
  {
    if i.major == 6 then Untagged(i.kids[0]) else i
  }

  function OuterTagOf(i: Item): Option<nat> {
    if i.major == 6 then Some(i.arg) else None
  }

  predicate ByteString(i: Item) {
    i.major == 2
  }

  predicate HeaderMap(i: Item) {
    HeaderMaps.FromBytes(Emit(i)).Success?
  }

  /** [bstr, header_map, bstr, bstr] */
  predicate Sign1Array(i: Item) {
    && i.major == 4 && |i.kids| == 4
    && ByteString(i.kids[0]) && HeaderMap(i.kids[1]) && ByteString(i.kids[2]) && ByteString(i.kids[3])
  }

  /** [bstr, header_map, bstr] */
  predicate Encrypt0Array(i: Item) {
    && i.major == 4 && |i.kids| == 3
    && ByteString(i.kids[0]) && HeaderMap(i.kids[1]) && ByteString(i.kids[2])
  }

  lemma HeaderOfBytes(i: Item)
    requires Valid(i)
    ensures HeaderMaps.FromBytes(Emit(i)) == HeaderMaps.HeaderOfItem(i).ToResult(SerializationError)
  {
    hide Emit, HeaderMaps.HeaderOfItem;
    FromSliceEmit(i);
  }

  lemma {:induction false} Sign1OfAnyItem(i: Item)
    requires Valid(i)
    ensures
      var a := Untagged(i);
      Sign1OfItem(i) ==
        if Sign1Array(a) then
          Some(CoseSign1(a.kids[0].data, HeaderMaps.FromBytes(Emit(a.kids[1])).value, a.kids[2].data, a.kids[3].data))
        else
          None
  {
    hide Shaped, Sized, Emit, HeaderMaps.HeaderOfItem, HeaderMaps.FromBytes;
    ValidParts(i);
    if i.major == 6 {
      Sign1OfAnyItem(i.kids[0]);
    } else if i.major == 4 && |i.kids| == 4 {
      HeaderOfBytes(i.kids[1]);
    }
  }

  /** Both readers on every byte string. It must be one item and nothing more; under its tags, however many,
      there must be an array of exactly four elements of the right kinds. The outermost tag must be 18,
      or for the plain reader may be absent. The protected bytes must be a header map. The document
      then has these four fields. */
  lemma Sign1Reading(b: seq<byte>)
    ensures
      var plain, tagged := Sign.FromBytes(b), Sign.FromBytesTagged(b);
      match FromSlice(b)
      case None => plain == Failure(SerializationError) && tagged == Failure(SerializationError)
      case Some(i) =>
        var a, tag := Untagged(i), OuterTagOf(i);
        if !Sign1Array(a) then
          plain == Failure(SerializationError) && tagged == Failure(SerializationError)
        else
          var header := HeaderMaps.FromBytes(Emit(a.kids[1])).value;
          var doc := CoseSign1(a.kids[0].data, header, a.kids[2].data, a.kids[3].data);
          var readable := HeaderMaps.FromBytes(a.kids[0].data).Success?;
          var accepted := if readable then Success(doc) else Failure(SerializationError);
          && plain == (if tag == None || tag == Some(18) then accepted else Failure(TagError(tag)))
          && tagged == (if tag == Some(18) then accepted else Failure(TagError(tag)))
  {
    hide ParseItem, Emit, HeaderMaps.FromBytes, Sign1OfItem, Sign1Array, Shaped, Sized;
    if FromSlice(b).Some? {
      var i := FromSlice(b).value;
      ValidParts(i);
      if i.major == 6 {
        UntagOnce(i);
        Sign1OfAnyItem(i.kids[0]);
      } else {
        Sign1OfAnyItem(i);
      }
    }
  }

  lemma UntagOnce(i: Item)
    requires Valid(i) && i.major == 6
    ensures Untagged(i) == Untagged(i.kids[0])
  {
  }

  /** The reader of COSE_Encrypt0 on every byte string: the array has three elements, and at most one tag,
      16, may stand before it. */
  lemma Encrypt0Reading(b: seq<byte>)
    ensures
      var r := Encrypt.FromBytes(b);
      match FromSlice(b)
      case None => r == Failure(SerializationError)
      case Some(i) =>
        var a, tag := if i.major == 6 then i.kids[0] else i, OuterTagOf(i);
        if !Encrypt0Array(a) then
          r == Failure(SerializationError)
        else
          var header := HeaderMaps.FromBytes(Emit(a.kids[1])).value;
          var doc := Encrypt.CoseEncrypt0(a.kids[0].data, header, a.kids[2].data);
          var readable := HeaderMaps.FromBytes(a.kids[0].data).Success?;
          var accepted := if readable then Success(doc) else Failure(SerializationError);
          r == if tag == None || tag == Some(16) then accepted else Failure(TagError(tag))
  {
    hide ParseItem, Emit, HeaderMaps.FromBytes, HeaderMaps.HeaderOfItem, Shaped, Sized;
    if FromSlice(b).Some? {
      var i := FromSlice(b).value;
      ValidParts(i);
      var a := if i.major == 6 then i.kids[0] else i;
      ValidParts(a);
      if a.major == 4 && |a.kids| == 3 {
        HeaderOfBytes(a.kids[1]);
      }
    }
  }

  // ---------------------------------------------------------------- heads of any width

  function BytesItem(width: nat, b: seq<byte>): Item {
    Item(2, width, |b|, b, [])
  }

  lemma BytesItemParts(width: nat, b: seq<byte>)
    requires Fits(width, |b|)
    ensures Valid(BytesItem(width, b))
    ensures Emit(BytesItem(width, b)) == EmitHead(2, width, |b|) + b
  {
    hide EmitHead, Fits;
    assert EmitHead(2, width, |b|) + b + [] == EmitHead(2, width, |b|) + b;
  }

  /** A document whose heads are wider than the encoder's is read with the same four fields; the payload
      is the bytes of the third element. */
  lemma WideSign1(w: nat, w0: nat, p: seq<byte>, unprotected: Item, w2: nat, m: seq<byte>, w3: nat, s: seq<byte>)
    requires Fits(w, 4) && Fits(w0, |p|) && Fits(w2, |m|) && Fits(w3, |s|) && Valid(unprotected)
    ensures
      var b := EmitHead(4, w, 4) + (EmitHead(2, w0, |p|) + p) + Emit(unprotected)
               + (EmitHead(2, w2, |m|) + m) + (EmitHead(2, w3, |s|) + s);
      var header := HeaderMaps.FromBytes(Emit(unprotected));
      Sign.FromBytes(b) ==
        if header.Success? && HeaderMaps.FromBytes(p).Success? then Success(CoseSign1(p, header.value, m, s))
        else Failure(SerializationError)
  {
    hide Emit, EmitHead, EmitAll, Fits, HeaderMaps.FromBytes, Sign.FromBytes, Shaped, Sized, BytesItem, ParseItem;
    var i0, i2, i3 := BytesItem(w0, p), BytesItem(w2, m), BytesItem(w3, s);
    BytesItemParts(w0, p);
    BytesItemParts(w2, m);
    BytesItemParts(w3, s);
    var a := Item(4, w, 4, [], [i0, unprotected, i2, i3]);
    ValidParts(a);
    FromSliceEmit(a);
    ArrayBytes(w, i0, unprotected, i2, i3);
    Sign1Reading(Emit(a));
    BytesItemIs(w0, p);
    BytesItemIs(w2, m);
    BytesItemIs(w3, s);
  }

  lemma BytesItemIs(width: nat, b: seq<byte>)
    ensures BytesItem(width, b).major == 2 && BytesItem(width, b).data == b
  {
  }

  lemma ArrayBytes(w: nat, i0: Item, i1: Item, i2: Item, i3: Item)
    ensures Emit(Item(4, w, 4, [], [i0, i1, i2, i3]))
      == EmitHead(4, w, 4) + Emit(i0) + Emit(i1) + Emit(i2) + Emit(i3)
  {
    hide EmitHead, EmitAll;
    EmitFour(i0, i1, i2, i3);
    var h := EmitHead(4, w, 4);
    assert Emit(Item(4, w, 4, [], [i0, i1, i2, i3])) == h + [] + EmitAll([i0, i1, i2, i3]);
    assert h + [] == h;
    Regroup(h, Emit(i0), Emit(i1), Emit(i2), Emit(i3));
  }

  /** Tag 18 is recognised under a head of any width, by both readers. */
  lemma WideTag(doc: CoseSign1, w: nat)
    requires doc.AsBytes(false).Success? && HeaderMaps.FromBytes(doc.protected).Success? && Fits(w, 18)
    ensures
      var b := EmitHead(6, w, 18) + doc.AsBytes(false).value;
      Sign.FromBytes(b) == Success(doc) && Sign.FromBytesTagged(b) == Success(doc)
  {
    hide Emit, EmitHead, Fits, HeaderMaps.FromBytes, Sign1OfItem, Shaped, Sized, Proper, ItemOf, ValueOf,
      FromSlice;
    var v := Array(doc.Fields());
    DocumentProper(doc, false);
    DecodeEncode(v, []);
    ValidParts(ItemOf(v));
    TagParts(w, 18, ItemOf(v));
    ItemOfShape(v);
    DocumentItem(doc);
  }

  // ---------------------------------------------------------------- foreign tags

  /** Every document under another tag is refused with that tag, by both readers. */
  lemma ForeignTag(doc: CoseSign1, t: nat)
    requires doc.AsBytes(false).Success?
    requires t != 18 && t < 0x1_0000_0000_0000_0000
    ensures
      var b := EmitHead(6, MinWidth(t), t) + doc.AsBytes(false).value;
      Sign.FromBytes(b) == Failure(TagError(Some(t))) && Sign.FromBytesTagged(b) == Failure(TagError(Some(t)))
  {
    hide Shaped, Proper, Emit, ItemOf, ValueOf, HeaderMaps.FromBytes, Sign1OfItem, EmitHead, Encodable;
    var v := Array(doc.Fields());
    DocumentProper(doc, false);
    TaggedBytes(t, v);
    ItemOfShape(v);
    DocumentItem(doc);
  }

  /** Between the outermost tag and the array of a COSE_Sign1 further tags are stepped over. */
  lemma NestedTags(i: Item, w: nat, t: nat, w': nat, t': nat)
    requires Valid(i) && Fits(w, t) && Fits(w', t')
    ensures
      var nested := EmitHead(6, w, t) + (EmitHead(6, w', t') + Emit(i));
      var direct := EmitHead(6, w, t) + Emit(i);
      && Sign.FromBytes(nested) == Sign.FromBytes(direct)
      && Sign.FromBytesTagged(nested) == Sign.FromBytesTagged(direct)
      && Encrypt.FromBytes(nested) == Failure(SerializationError)
  {
    hide Emit, EmitHead, Fits, HeaderMaps.FromBytes, Sign.FromBytes, Sign.FromBytesTagged, Encrypt.FromBytes,
      Shaped, Sized, Sign1Array;
    var inner, outer := Item(6, w', t', [], [i]), Item(6, w, t, [], [i]);
    var nested := Item(6, w, t, [], [inner]);
    TagParts(w', t', i);
    TagParts(w, t, inner);
    TagParts(w, t, i);
    Sign1Reading(Emit(nested));
    Sign1Reading(Emit(outer));
    Encrypt0Reading(Emit(nested));
    UntagOnce(nested);
    UntagOnce(inner);
    UntagOnce(outer);
  }

  lemma TagParts(w: nat, t: nat, i: Item)
    requires Valid(i) && Fits(w, t)
    ensures
      var tagged := Item(6, w, t, [], [i]);
      && Valid(tagged) && FromSlice(Emit(tagged)) == Some(tagged)
      && Emit(tagged) == EmitHead(6, w, t) + Emit(i)
  {
    hide EmitHead, Fits, Emit;
    var tagged := Item(6, w, t, [], [i]);
    ValidParts(tagged);
    FromSliceEmit(tagged);
    TagBytes(w, t, i);
  }

  lemma TagBytes(w: nat, t: nat, i: Item)
    ensures Emit(Item(6, w, t, [], [i])) == EmitHead(6, w, t) + Emit(i)
  {
    hide EmitHead;
    EmitAllCons(i, []);
    assert [i] + [] == [i];
    assert EmitHead(6, w, t) + [] == EmitHead(6, w, t);
  }
}
