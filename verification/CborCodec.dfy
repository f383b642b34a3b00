/** Encoding and decoding of values: round trips, and the normal form that decoding followed by
    encoding produces. */
module CborCodec {
  import opened BigEndian
  import opened CborOrder
  import opened CborSyntax
  import opened CborValues
  import opened Lexicographic
  import opened Wrappers

  // ---------------------------------------------------------------- whole byte strings

  /** `serde_cbor::from_slice` up to the target type: one item and nothing after it. */
  function FromSlice(b: seq<byte>): (r: Option<Item>)
    ensures r.Some? ==> Valid(r.value) && Emit(r.value) == b
  {
    var (i, rest) :- ParseItem(b);
    if rest != [] then None else
    EmitParse(b);
    assert Emit(i) + [] == Emit(i);
    Some(i)
  }

  /** Valid items and acceptable byte strings correspond one to one. */
  lemma FromSliceEmit(i: Item)
    requires Valid(i)
    ensures FromSlice(Emit(i)) == Some(i)
  {
    hide Emit, Valid;
    ParseEmit(i, []);
    assert Emit(i) + [] == Emit(i);
  }

  predicate Encodable(v: CborValue) {
    Sized(ItemOf(v))
  }

  /** `serde_cbor::to_vec`, which refuses what has no encoding. */
  function ToVec(v: CborValue): Result<seq<byte>> {
    if Encodable(v) then Success(Emit(ItemOf(v))) else Failure(SerializationError)
  }

  /** A value has an encoding exactly when its integers lie between -2^64 and 2^64 - 1 and its
      lengths and tags below 2^64, at every level. */
  lemma EncodableRange(v: CborValue)
    ensures v.Integer? ==> (Encodable(v) <==> -0x1_0000_0000_0000_0000 <= v.n < 0x1_0000_0000_0000_0000)
    ensures v.Bytes? ==> (Encodable(v) <==> |v.bytes| < 0x1_0000_0000_0000_0000)
    ensures v.Text? ==> (Encodable(v) <==> |v.utf8| < 0x1_0000_0000_0000_0000)
    ensures v.Array? ==> (Encodable(v) <==>
      |v.items| < 0x1_0000_0000_0000_0000 && forall k :: 0 <= k < |v.items| ==> Encodable(v.items[k]))
    ensures v.Map? ==> (Encodable(v) <==>
      && |v.entries| < 0x1_0000_0000_0000_0000
      && (forall k :: 0 <= k < |v.entries| ==> Encodable(v.entries[k].key))
      && (forall k :: 0 <= k < |v.entries| ==> Encodable(v.entries[k].value)))
    ensures v.Tag? ==> (Encodable(v) <==> v.tag < 0x1_0000_0000_0000_0000 && Encodable(v.inner))
    ensures v.Null? || v.Bool? ==> Encodable(v)
  {
    hide Pow256;
    var i := ItemOf(v);
    FitsMinWidth(i.arg);
    SizedParts(i);
    if v.Map? {
      assert i.kids == EntryItems(v.entries);
      EntriesSized(v.entries);
    } else if v.Tag? {
      assert i.kids[0] == ItemOf(v.inner);
    }
  }

  lemma SizedParts(i: Item)
    ensures Sized(i) <==> Fits(i.width, i.arg) && forall k :: 0 <= k < |i.kids| ==> Sized(i.kids[k])
  {
  }

  lemma EntriesSized(es: seq<Entry>)
    ensures (forall j :: 0 <= j < 2 * |es| ==> Sized(EntryItems(es)[j])) <==>
      && (forall k :: 0 <= k < |es| ==> Encodable(es[k].key))
      && (forall k :: 0 <= k < |es| ==> Encodable(es[k].value))
  {
    hide Encodable, EntryItems;
    if forall j :: 0 <= j < 2 * |es| ==> Sized(EntryItems(es)[j]) {
      forall k | 0 <= k < |es| ensures Encodable(es[k].key) && Encodable(es[k].value) {
        EntrySized(es, k);
      }
    }
    if (forall k :: 0 <= k < |es| ==> Encodable(es[k].key)) && (forall k :: 0 <= k < |es| ==> Encodable(es[k].value)) {
      forall j | 0 <= j < 2 * |es| ensures Sized(EntryItems(es)[j]) {
        EntrySized(es, j / 2);
      }
    }
  }

  lemma EntrySized(es: seq<Entry>, k: nat)
    requires k < |es|
    ensures Sized(EntryItems(es)[2 * k]) <==> Encodable(es[k].key)
    ensures Sized(EntryItems(es)[2 * k + 1]) <==> Encodable(es[k].value)
  {
    hide Sized, ItemOf, EntryItems;
    EntryItemsAt(es, k);
  }

  lemma ThreeEncodable(a: CborValue, b: CborValue, c: CborValue)
    ensures Encodable(Array([a, b, c])) <==> Encodable(a) && Encodable(b) && Encodable(c)
  {
    hide Encodable;
    var vs := [a, b, c];
    EncodableRange(Array(vs));
    assert vs[0] == a && vs[1] == b && vs[2] == c;
  }

  lemma FourEncodable(a: CborValue, b: CborValue, c: CborValue, d: CborValue)
    ensures Encodable(Array([a, b, c, d])) <==> Encodable(a) && Encodable(b) && Encodable(c) && Encodable(d)
  {
    hide Encodable;
    var vs := [a, b, c, d];
    EncodableRange(Array(vs));
    assert vs[0] == a && vs[1] == b && vs[2] == c && vs[3] == d;
  }

  /** Round trip, whatever follows the encoding. */
  lemma DecodeEncode(v: CborValue, rest: seq<byte>)
    requires Proper(v) && Encodable(v)
    ensures ParseItem(Emit(ItemOf(v)) + rest) == Some((ItemOf(v), rest))
    ensures Shaped(ItemOf(v)) && ValueOf(ItemOf(v)) == v
  {
    hide Emit, ItemOf, Shaped, Sized, ValueOf, Proper;
    ItemOfShape(v);
    ValidParts(ItemOf(v));
    ParseEmit(ItemOf(v), rest);
  }

  /** Different values have different encodings. */
  lemma EncodeInjective(a: CborValue, b: CborValue)
    requires Proper(a) && Proper(b)
    requires ToVec(a).Success? && ToVec(a) == ToVec(b)
    ensures a == b
  {
    hide Emit, ItemOf, Shaped, Sized, ValueOf, Proper;
    DecodeEncode(a, []);
    DecodeEncode(b, []);
  }

  lemma ArrayItem(vs: seq<CborValue>)
    ensures ItemOf(Array(vs)).major == 4
  {
  }

  lemma TagItem(t: nat, v: CborValue)
    ensures
      var i := ItemOf(Tag(t, v));
      i.major == 6 && i.arg == t && i.kids == [ItemOf(v)]
  {
  }

  /** The tag at the front of a byte string. */
  function OuterTag(b: seq<byte>): Option<nat> {
    match ReadHead(b)
    case Some(h) => if h.major == 6 then Some(h.arg) else None
    case None => None
  }

  lemma OuterTagOfItem(b: seq<byte>)
    requires FromSlice(b).Some?
    ensures OuterTag(b) == if FromSlice(b).value.major == 6 then Some(FromSlice(b).value.arg) else None
  {
    hide ParseItem, Emit, Shaped, Sized;
    ParsedNode(b);
  }

  // ---------------------------------------------------------------- layouts

  /** The encoding of a byte string. */
  function Bstr(b: seq<byte>): seq<byte> {
    EmitHead(2, MinWidth(|b|), |b|) + b
  }

  /** The encoding of a text string. */
  function Tstr(b: seq<byte>): seq<byte> {
    EmitHead(3, MinWidth(|b|), |b|) + b
  }

  lemma BytesLayout(b: seq<byte>)
    ensures Emit(ItemOf(Bytes(b))) == Bstr(b)
  {
    hide EmitHead;
    assert EmitHead(2, MinWidth(|b|), |b|) + b + [] == Bstr(b);
  }

  lemma TextLayout(b: seq<byte>)
    ensures Emit(ItemOf(Text(b))) == Tstr(b)
  {
    hide EmitHead;
    assert EmitHead(3, MinWidth(|b|), |b|) + b + [] == Tstr(b);
  }

  lemma ArrayLayout(vs: seq<CborValue>)
    ensures Emit(ItemOf(Array(vs))) == EmitHead(4, MinWidth(|vs|), |vs|) + EmitAll(ItemsOf(vs))
  {
    hide EmitHead, EmitAll;
    assert EmitHead(4, MinWidth(|vs|), |vs|) + [] == EmitHead(4, MinWidth(|vs|), |vs|);
  }

  lemma MapLayout(es: seq<Entry>)
    ensures Emit(ItemOf(Map(es))) == EmitHead(5, MinWidth(|es|), |es|) + EmitAll(EntryItems(es))
  {
    hide EmitHead, EmitAll;
    assert EmitHead(5, MinWidth(|es|), |es|) + [] == EmitHead(5, MinWidth(|es|), |es|);
  }

  lemma TagLayout(t: nat, v: CborValue)
    ensures Emit(ItemOf(Tag(t, v))) == EmitHead(6, MinWidth(t), t) + Emit(ItemOf(v))
  {
    hide EmitHead;
    var i := ItemOf(v);
    EmitAllCons(i, []);
    assert [i] + [] == [i];
    assert EmitHead(6, MinWidth(t), t) + [] == EmitHead(6, MinWidth(t), t);
  }

  /** An encodable value under a further tag. */
  lemma TaggedBytes(t: nat, v: CborValue)
    requires Proper(v) && ToVec(v).Success? && t < 0x1_0000_0000_0000_0000
    ensures
      var i := FromSlice(EmitHead(6, MinWidth(t), t) + ToVec(v).value);
      && i == Some(ItemOf(Tag(t, v)))
      && i.value.major == 6 && i.value.arg == t && i.value.kids == [ItemOf(v)]
  {
    hide Emit, ItemOf, Encodable, ValueOf, EmitHead, Shaped, ParseItem;
    EncodableRange(Tag(t, v));
    DecodeEncode(Tag(t, v), []);
    TagLayout(t, v);
    TagItem(t, v);
    assert Emit(ItemOf(Tag(t, v))) + [] == Emit(ItemOf(Tag(t, v)));
  }

  /** The one-byte heads that the crate's structures begin with. */
  lemma ShortHeads()
    ensures EmitHead(4, MinWidth(3), 3) == [0x83]
    ensures EmitHead(4, MinWidth(4), 4) == [0x84]
    ensures EmitHead(4, MinWidth(5), 5) == [0x85]
    ensures EmitHead(3, MinWidth(8), 8) == [0x68]
    ensures EmitHead(3, MinWidth(10), 10) == [0x6A]
    ensures EmitHead(6, MinWidth(16), 16) == [0xD0]
    ensures EmitHead(6, MinWidth(18), 18) == [0xD2]
    ensures Bstr([]) == [0x40]
  {
  }

  lemma EmitFour(a: Item, b: Item, c: Item, d: Item)
    ensures EmitAll([a, b, c, d]) == Emit(a) + Emit(b) + Emit(c) + Emit(d)
  {
    hide Emit;
    EmitThree(b, c, d);
    EmitAllCons(a, [b, c, d]);
    assert [a, b, c, d] == [a] + [b, c, d];
  }

  lemma EmitThree(a: Item, b: Item, c: Item)
    ensures EmitAll([a, b, c]) == Emit(a) + Emit(b) + Emit(c)
  {
    hide Emit;
    EmitAllCons(c, []);
    EmitAllCons(b, [c]);
    EmitAllCons(a, [b, c]);
    assert [c] == [c] + [] && [b, c] == [b] + [c] && [a, b, c] == [a] + [b, c];
  }

  lemma EmitFive(a: Item, b: Item, c: Item, d: Item, e: Item)
    ensures EmitAll([a, b, c, d, e]) == Emit(a) + Emit(b) + Emit(c) + Emit(d) + Emit(e)
  {
    hide Emit, EmitAll;
    EmitFour(b, c, d, e);
    EmitAllCons(a, [b, c, d, e]);
    assert [a, b, c, d, e] == [a] + [b, c, d, e];
    Regroup(Emit(a), Emit(b), Emit(c), Emit(d), Emit(e));
  }

  lemma Regroup(h: seq<byte>, a: seq<byte>, b: seq<byte>, c: seq<byte>, d: seq<byte>)
    ensures h + (a + b + c + d) == h + a + b + c + d
  {
  }

  lemma ArrayOfThree(a: CborValue, b: CborValue, c: CborValue)
    ensures Emit(ItemOf(Array([a, b, c]))) == [0x83] + Emit(ItemOf(a)) + Emit(ItemOf(b)) + Emit(ItemOf(c))
  {
    hide Emit, ItemOf, EmitHead, EmitAll;
    ShortHeads();
    ArrayLayout([a, b, c]);
    EmitThree(ItemOf(a), ItemOf(b), ItemOf(c));
    assert ItemsOf([a, b, c]) == [ItemOf(a), ItemOf(b), ItemOf(c)];
  }

  lemma ArrayOfFour(a: CborValue, b: CborValue, c: CborValue, d: CborValue)
    ensures Emit(ItemOf(Array([a, b, c, d])))
      == [0x84] + Emit(ItemOf(a)) + Emit(ItemOf(b)) + Emit(ItemOf(c)) + Emit(ItemOf(d))
  {
    hide Emit, ItemOf, EmitHead, EmitAll;
    ShortHeads();
    ArrayLayout([a, b, c, d]);
    EmitFour(ItemOf(a), ItemOf(b), ItemOf(c), ItemOf(d));
    assert ItemsOf([a, b, c, d]) == [ItemOf(a), ItemOf(b), ItemOf(c), ItemOf(d)];
  }

  lemma ArrayOfFive(a: CborValue, b: CborValue, c: CborValue, d: CborValue, e: CborValue)
    ensures Emit(ItemOf(Array([a, b, c, d, e])))
      == [0x85] + Emit(ItemOf(a)) + Emit(ItemOf(b)) + Emit(ItemOf(c)) + Emit(ItemOf(d)) + Emit(ItemOf(e))
  {
    hide Emit, ItemOf, EmitHead, EmitAll;
    ShortHeads();
    ArrayLayout([a, b, c, d, e]);
    EmitFive(ItemOf(a), ItemOf(b), ItemOf(c), ItemOf(d), ItemOf(e));
    Regroup([0x85], Emit(ItemOf(a)), Emit(ItemOf(b)), Emit(ItemOf(c)), Emit(ItemOf(d)));
    assert ItemsOf([a, b, c, d, e]) == [ItemOf(a), ItemOf(b), ItemOf(c), ItemOf(d), ItemOf(e)];
  }

  // ---------------------------------------------------------------- decoded values

  /** Decoding always yields a value with the crate's type invariants. */
  lemma {:induction false} ValueOfProper(i: Item)
    requires Shaped(i)
    ensures Proper(ValueOf(i))
  {
    hide ValidUtf8, Collect, Less, PairUp;
    forall k | 0 <= k < |i.kids| ensures Proper(ValueOf(i.kids[k])) {
      ValueOfProper(i.kids[k]);
    }
    if i.major == 5 {
      MapProper(ValuesOf(i.kids));
    }
  }

  lemma MapProper(vs: seq<CborValue>)
    requires forall k :: 0 <= k < |vs| ==> Proper(vs[k])
    ensures ProperEntries(PairUp(vs))
    ensures Ordered(Collect(PairUp(vs)))
    ensures Proper(Map(Collect(PairUp(vs))))
  {
    hide Collect, Less, MapOf, FinalMap;
    CollectIsFinalMap(PairUp(vs));
  }

  lemma {:induction false} CollectElements(ps: seq<Entry>, k: nat)
    requires k < |Collect(ps)|
    ensures Collect(ps)[k] in ps
    decreases |ps|
  {
    if ps != [] {
      var front, last := ps[..|ps| - 1], ps[|ps| - 1];
      InsertedElements(Collect(front), last.key, last.value, k);
      var e := Collect(ps)[k];
      if e != last {
        var m :| 0 <= m < |Collect(front)| && Collect(front)[m] == e;
        CollectElements(front, m);
      }
    }
  }

  lemma {:induction false} InsertLength(es: seq<Entry>, key: CborValue, value: CborValue)
    ensures |InsertEntry(es, key, value)| <= |es| + 1
  {
    if es != [] && es[0].key != key && !Less(key, es[0].key) {
      InsertLength(es[1..], key, value);
    }
  }

  lemma {:induction false} CollectLength(ps: seq<Entry>)
    ensures |Collect(ps)| <= |ps|
  {
    if ps != [] {
      CollectLength(ps[..|ps| - 1]);
      InsertLength(Collect(ps[..|ps| - 1]), ps[|ps| - 1].key, ps[|ps| - 1].value);
    }
  }

  // ---------------------------------------------------------------- the normal form

  /** What encoding writes after decoding `i`. */
  function Normal(i: Item): Item
    requires Shaped(i)
  {
    ItemOf(ValueOf(i))
  }

  /** Whatever was decoded can be encoded again. */
  lemma {:induction false} DecodedEncodable(i: Item)
    requires Valid(i)
    ensures Encodable(ValueOf(i))
  {
    hide Fits, ValidUtf8, Collect, PairUp, ItemOf, Proper, Less, MinWidth;
    ValidParts(i);
    var v := ValueOf(i);
    forall k | 0 <= k < |i.kids| ensures Encodable(ValueOf(i.kids[k])) {
      DecodedEncodable(i.kids[k]);
    }
    ArgumentBound(i);
    EncodableRange(v);
    if i.major == 5 {
      MapEncodable(ValuesOf(i.kids));
    }
  }

  lemma ArgumentBound(i: Item)
    requires Valid(i)
    ensures i.arg < 0x1_0000_0000_0000_0000
  {
    Pow256Values();
  }

  lemma MapEncodable(vs: seq<CborValue>)
    requires |vs| < 0x2_0000_0000_0000_0000
    requires forall k :: 0 <= k < |vs| ==> Encodable(vs[k])
    ensures Encodable(Map(Collect(PairUp(vs))))
  {
    hide Collect, Encodable, ItemOf;
    var ps := PairUp(vs);
    CollectLength(ps);
    forall k | 0 <= k < |Collect(ps)|
      ensures Encodable(Collect(ps)[k].key) && Encodable(Collect(ps)[k].value)
    {
      CollectElements(ps, k);
    }
    EncodableRange(Map(Collect(ps)));
  }

  /** Decoding and encoding once more changes nothing. */
  lemma NormalIsStable(i: Item)
    requires Valid(i)
    ensures Valid(Normal(i)) && ValueOf(Normal(i)) == ValueOf(i)
    ensures Normal(Normal(i)) == Normal(i)
  {
    hide Shaped, Sized, ItemOf, ValueOf, Proper;
    ValueOfProper(i);
    DecodedEncodable(i);
    ItemOfShape(ValueOf(i));
  }

  // ---------------------------------------------------------------- the normal form is no longer

  function Size(es: seq<Entry>): nat {
    |EmitAll(EntryItems(es))|
  }

  lemma SizeCons(e: Entry, es: seq<Entry>)
    ensures Size([e] + es) == |Emit(ItemOf(e.key))| + |Emit(ItemOf(e.value))| + Size(es)
  {
    hide Emit, ItemOf;
    assert ([e] + es)[1..] == es;
    assert EntryItems([e] + es) == [ItemOf(e.key)] + ([ItemOf(e.value)] + EntryItems(es));
    EmitAllCons(ItemOf(e.key), [ItemOf(e.value)] + EntryItems(es));
    EmitAllCons(ItemOf(e.value), EntryItems(es));
  }

  lemma {:induction false} InsertSize(es: seq<Entry>, key: CborValue, value: CborValue)
    ensures Size(InsertEntry(es, key, value)) <= Size([Entry(key, value)] + es)
  {
    hide Emit, ItemOf, Less, Size, EntryItems;
    SizeCons(Entry(key, value), es);
    if es == [] {
      assert [Entry(key, value)] + es == [Entry(key, value)];
    } else {
      var head, tail := es[0], es[1..];
      assert es == [head] + tail;
      SizeCons(head, tail);
      SizeCons(Entry(key, value), tail);
      if head.key != key && !Less(key, head.key) {
        InsertSize(tail, key, value);
        SizeCons(head, InsertEntry(tail, key, value));
      }
    }
  }

  lemma {:induction false} SizeAppend(es: seq<Entry>, e: Entry)
    ensures Size(es + [e]) == Size([e] + es)
  {
    hide Emit, ItemOf, Size, EntryItems;
    if es == [] {
      assert es + [e] == [e] + es;
    } else {
      var head, tail := es[0], es[1..];
      assert es + [e] == [head] + (tail + [e]) && es == [head] + tail;
      SizeAppend(tail, e);
      SizeCons(head, tail + [e]);
      SizeCons(head, tail);
      SizeCons(e, tail);
      SizeCons(e, es);
    }
  }

  lemma {:induction false} CollectSize(ps: seq<Entry>)
    ensures Size(Collect(ps)) <= Size(ps)
  {
    hide Emit, ItemOf, Size, EntryItems, InsertEntry;
    if ps != [] {
      var front, last := ps[..|ps| - 1], ps[|ps| - 1];
      CollectSize(front);
      InsertSize(Collect(front), last.key, last.value);
      SizeCons(last, Collect(front));
      SizeCons(last, front);
      SizeAppend(front, last);
      assert ps == front + [last];
    }
  }

  lemma EmitLength(i: Item)
    ensures |Emit(i)| == 1 + i.width + |i.data| + |EmitAll(i.kids)|
  {
  }

  /** The normal form is never longer than what was decoded. */
  lemma {:induction false} NormalNotLonger(i: Item)
    requires Valid(i)
    ensures |Emit(Normal(i))| <= |Emit(i)|
    decreases i, 1
  {
    hide Fits, ValidUtf8, Proper, Less, MinWidth, Collect, Emit, EmitAll, EntryItems;
    ValidParts(i);
    EmitLength(i);
    EmitLength(Normal(i));
    KidsNotLonger(i.kids);
    MinWidthLeast(i.width, i.arg, i.arg);
    if i.major == 5 {
      MapNotLonger(i.kids);
      MinWidthLeast(i.width, i.arg, |Collect(PairUp(ValuesOf(i.kids)))|);
    } else if i.major == 4 || i.major == 6 {
      NormalKids(i);
    }
  }

  lemma MapNotLonger(kids: seq<Item>)
    requires |kids| % 2 == 0
    requires forall k :: 0 <= k < |kids| ==> Shaped(kids[k])
    ensures
      var es := Collect(PairUp(ValuesOf(kids)));
      && |es| <= |kids| / 2
      && |EmitAll(EntryItems(es))| <= |EmitAll(Normals(kids))|
  {
    hide ItemOf, ValueOf, Shaped, EntryItems, ValuesOf, Normals, EmitAll, Collect;
    var ps := PairUp(ValuesOf(kids));
    CollectLength(ps);
    CollectSize(ps);
    PairedItems(kids);
  }

  function Normals(items: seq<Item>): (ns: seq<Item>)
    requires forall k :: 0 <= k < |items| ==> Shaped(items[k])
    ensures |ns| == |items|
    ensures forall k :: 0 <= k < |items| ==> ns[k] == Normal(items[k])
  {
    if items == [] then [] else [Normal(items[0])] + Normals(items[1..])
  }

  lemma NormalKids(i: Item)
    requires Shaped(i) && (i.major == 4 || i.major == 6)
    ensures Normal(i).kids == Normals(i.kids)
  {
    if i.major == 4 {
      assert ItemsOf(ValuesOf(i.kids)) == Normals(i.kids);
    } else {
      assert [ItemOf(ValueOf(i.kids[0]))] == Normals(i.kids);
    }
  }

  lemma EqualByPairs(a: seq<Item>, b: seq<Item>)
    requires |a| == |b| && |a| % 2 == 0
    requires forall k :: 0 <= k < |a| / 2 ==> a[2 * k] == b[2 * k] && a[2 * k + 1] == b[2 * k + 1]
    ensures a == b
  {
    forall j | 0 <= j < |a| ensures a[j] == b[j] {
      var k := j / 2;
      assert a[2 * k] == b[2 * k] && a[2 * k + 1] == b[2 * k + 1];
    }
  }

  /** The items of the decoded pairs are the normal forms of the nested items. */
  lemma PairedItems(kids: seq<Item>)
    requires |kids| % 2 == 0
    requires forall k :: 0 <= k < |kids| ==> Shaped(kids[k])
    ensures EntryItems(PairUp(ValuesOf(kids))) == Normals(kids)
  {
    hide ItemOf, ValueOf, Shaped, EntryItems, ValuesOf, Normals, PairUp;
    var ps := PairUp(ValuesOf(kids));
    forall k | 0 <= k < |kids| / 2
      ensures EntryItems(ps)[2 * k] == Normals(kids)[2 * k]
      ensures EntryItems(ps)[2 * k + 1] == Normals(kids)[2 * k + 1]
    {
      EntryItemsAt(ps, k);
    }
    EqualByPairs(EntryItems(ps), Normals(kids));
  }

  lemma {:induction false} KidsNotLonger(items: seq<Item>)
    requires forall k :: 0 <= k < |items| ==> Shaped(items[k]) && Sized(items[k])
    ensures |EmitAll(Normals(items))| <= |EmitAll(items)|
    decreases items, 0
  {
    hide Emit, Normal, Shaped, Sized;
    if items != [] {
      NormalNotLonger(items[0]);
      KidsNotLonger(items[1..]);
      EmitAllCons(Normal(items[0]), Normals(items[1..]));
    }
  }

  // ---------------------------------------------------------------- canonical encodings

  predicate KeysIncreasing(kids: seq<Item>)
    requires |kids| % 2 == 0
  {
    forall j, k :: 0 <= j < k < |kids| / 2 ==> LexLess(Rank(kids[2 * j]), Rank(kids[2 * k]))
  }

  /** A property of the bytes alone: every head is narrowest and the keys of every map increase
      strictly. */
  predicate Canonical(i: Item) {
    && i.width == MinWidth(i.arg)
    && (i.major == 5 ==> |i.kids| % 2 == 0 && KeysIncreasing(i.kids))
    && forall k :: 0 <= k < |i.kids| ==> Canonical(i.kids[k])
  }

  /** The encoder writes canonical items only. */
  lemma {:induction false} EncoderIsCanonical(v: CborValue)
    requires Proper(v)
    ensures Canonical(ItemOf(v))
  {
    hide ValidUtf8, MinWidth, Less, LexLess, Rank;
    match v
    case Array(items) =>
      forall k | 0 <= k < |items| ensures Canonical(ItemOf(items[k])) {
        EncoderIsCanonical(items[k]);
      }
    case Map(entries) =>
      EntriesCanonical(entries);
    case Tag(_, inner) =>
      EncoderIsCanonical(inner);
    case _ =>
  }

  lemma {:induction false} EntriesCanonical(es: seq<Entry>)
    requires Sorted(es) && ProperEntries(es)
    ensures KeysIncreasing(EntryItems(es))
    ensures forall j :: 0 <= j < 2 * |es| ==> Canonical(EntryItems(es)[j])
    decreases es, 1
  {
    hide Canonical, ItemOf, EntryItems, Proper, Rank;
    forall j | 0 <= j < 2 * |es| ensures Canonical(EntryItems(es)[j]) {
      EntryItemsAt(es, j / 2);
      EntryCanonical(es[j / 2]);
    }
    forall j, k | 0 <= j < k < |es|
      ensures LexLess(Rank(EntryItems(es)[2 * j]), Rank(EntryItems(es)[2 * k]))
    {
      EntryItemsAt(es, j);
      EntryItemsAt(es, k);
      assert Less(es[j].key, es[k].key);
    }
  }

  lemma {:induction false} EntryCanonical(e: Entry)
    requires Proper(e.key) && Proper(e.value)
    ensures Canonical(ItemOf(e.key)) && Canonical(ItemOf(e.value))
  {
    EncoderIsCanonical(e.key);
    EncoderIsCanonical(e.value);
  }

  /** Decoding a canonical item and encoding it again gives the item back. */
  lemma {:induction false} CanonicalIsNormal(i: Item)
    requires Shaped(i) && Canonical(i)
    ensures Normal(i) == i
  {
    hide ValidUtf8, MinWidth, Rank, Collect, PairUp;
    forall k | 0 <= k < |i.kids| ensures Normal(i.kids[k]) == i.kids[k] {
      CanonicalIsNormal(i.kids[k]);
    }
    assert Normals(i.kids) == i.kids;
    if i.major == 5 {
      CanonicalMap(i.kids);
    } else if i.major == 4 || i.major == 6 {
      NormalKids(i);
    }
  }

  lemma CanonicalMap(kids: seq<Item>)
    requires |kids| % 2 == 0 && KeysIncreasing(kids)
    requires forall k :: 0 <= k < |kids| ==> Shaped(kids[k])
    requires Normals(kids) == kids
    ensures
      var es := Collect(PairUp(ValuesOf(kids)));
      |es| == |kids| / 2 && EntryItems(es) == kids
  {
    hide ItemOf, ValueOf, Shaped, EntryItems, ValuesOf, Normals, Collect, Rank;
    var ps := PairUp(ValuesOf(kids));
    PairedItems(kids);
    forall j, k | 0 <= j < k < |ps| ensures Less(ps[j].key, ps[k].key) {
      EntryItemsAt(ps, j);
      EntryItemsAt(ps, k);
    }
    CollectSorted(ps);
  }

  /** The normal form is what was decoded exactly when that was canonical. */
  lemma NormalIffCanonical(i: Item)
    requires Shaped(i)
    ensures Normal(i) == i <==> Canonical(i)
  {
    hide Shaped, Canonical, ItemOf, ValueOf, Proper;
    if Canonical(i) {
      CanonicalIsNormal(i);
    }
    ValueOfProper(i);
    EncoderIsCanonical(ValueOf(i));
  }

  /** The same on bytes: re-encoding the value of `b` gives `b` exactly when `b` is canonical, and
      never more bytes than `b`. */
  lemma Reencoding(b: seq<byte>)
    requires FromSlice(b).Some?
    ensures
      var i := FromSlice(b).value;
      var r := ToVec(ValueOf(i));
      && r.Success?
      && |r.value| <= |b|
      && (r.value == b <==> Canonical(i))
      && FromSlice(r.value) == Some(Normal(i)) && ValueOf(Normal(i)) == ValueOf(i)
      && ToVec(ValueOf(Normal(i))) == r
  {
    hide Shaped, Sized, Canonical, ItemOf, ValueOf, Proper, Emit, ParseItem;
    var i := FromSlice(b).value;
    NormalIsStable(i);
    NormalNotLonger(i);
    NormalIffCanonical(i);
    FromSliceEmit(Normal(i));
    FromSliceEmit(i);
  }
}
