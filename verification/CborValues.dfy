/** CBOR values as the crate handles them (`serde_cbor::Value`), their order, their encoding and
    their decoding. */
module CborValues {
  import opened BigEndian
  import opened CborSyntax
  import opened Lexicographic

  /** A map holds its entries in increasing key order, as a `BTreeMap` does. */
  datatype CborValue =
    | Null
    | Bool(b: bool)
    | Integer(n: int)
    | Bytes(bytes: seq<byte>)
    | Text(utf8: seq<byte>)
    | Array(items: seq<CborValue>)
    | Map(entries: seq<Entry>)
    | Tag(tag: nat, inner: CborValue)

  datatype Entry = Entry(key: CborValue, value: CborValue)

  // ---------------------------------------------------------------- the item of a value

  function MinimalItem(major: nat, arg: nat, data: seq<byte>, kids: seq<Item>): Item {
    Item(major, MinWidth(arg), arg, data, kids)
  }

  /** The item that the serializer writes: narrowest heads, entries in key order. */
  function ItemOf(v: CborValue): Item {
    match v
    case Bool(b) => MinimalItem(7, if b then 21 else 20, [], [])
    case Null => MinimalItem(7, 22, [], [])
    case Integer(n) => if n >= 0 then MinimalItem(0, n, [], []) else MinimalItem(1, -1 - n, [], [])
    case Bytes(data) => MinimalItem(2, |data|, data, [])
    case Text(data) => MinimalItem(3, |data|, data, [])
    case Array(items) => MinimalItem(4, |items|, [], ItemsOf(items))
    case Map(entries) => MinimalItem(5, |entries|, [], EntryItems(entries))
    case Tag(t, inner) => MinimalItem(6, t, [], [ItemOf(inner)])
  }

  function ItemsOf(vs: seq<CborValue>): (items: seq<Item>)
    ensures |items| == |vs|
    ensures forall k :: 0 <= k < |vs| ==> items[k] == ItemOf(vs[k])
  {
    if vs == [] then [] else [ItemOf(vs[0])] + ItemsOf(vs[1..])
  }

  function EntryPair(e: Entry): (items: seq<Item>)
    ensures |items| == 2
  {
    [ItemOf(e.key), ItemOf(e.value)]
  }

  function EntryItems(es: seq<Entry>): (items: seq<Item>)
    ensures |items| == 2 * |es|
  {
    if es == [] then [] else EntryPair(es[0]) + EntryItems(es[1..])
  }

  lemma {:induction false} EntryItemsAt(es: seq<Entry>, k: nat)
    requires k < |es|
    ensures EntryItems(es)[2 * k] == ItemOf(es[k].key)
    ensures EntryItems(es)[2 * k + 1] == ItemOf(es[k].value)
  {
    if k > 0 {
      EntryItemsAt(es[1..], k - 1);
    }
  }

  // ---------------------------------------------------------------- order

  /** What decides the order of two items: the major type, then the argument, then the contents. */
  function Rank(i: Item): seq<int> {
    [i.major, i.arg] + i.data + Ranks(i.kids)
  }

  function Ranks(items: seq<Item>): seq<int> {
    if items == [] then [] else Rank(items[0]) + Ranks(items[1..])
  }

  /** The key order of maps: smaller major type first, then the smaller magnitude or the shorter
      content, then the content itself. `EncodingOrder` shows that it is the bytewise order of the
      encodings. */
  predicate Less(a: CborValue, b: CborValue) {
    LexLess(Rank(ItemOf(a)), Rank(ItemOf(b)))
  }

  predicate Sorted(es: seq<Entry>) {
    forall j, k :: 0 <= j < k < |es| ==> Less(es[j].key, es[k].key)
  }

  /** What the Rust types of the crate guarantee of every value: a `String` is UTF-8 and a
      `BTreeMap` is sorted, at every level. */
  predicate Proper(v: CborValue) {
    match v
    case Text(data) => ValidUtf8(data)
    case Array(items) => forall k :: 0 <= k < |items| ==> Proper(items[k])
    case Map(entries) =>
      && Sorted(entries)
      && (forall k :: 0 <= k < |entries| ==> Proper(entries[k].key))
      && (forall k :: 0 <= k < |entries| ==> Proper(entries[k].value))
    case Tag(_, inner) => Proper(inner)
    case _ => true
  }

  predicate ProperEntries(es: seq<Entry>) {
    && (forall k :: 0 <= k < |es| ==> Proper(es[k].key))
    && (forall k :: 0 <= k < |es| ==> Proper(es[k].value))
  }

  type Value = v: CborValue | Proper(v) witness Null

  type Utf8 = b: seq<byte> | ValidUtf8(b) witness []

  /** The UTF-8 bytes of an ASCII string. */
  function Ascii(s: string): (b: Utf8)
    requires forall k :: 0 <= k < |s| ==> s[k] as int < 0x80
    ensures |b| == |s|
    ensures forall k :: 0 <= k < |s| ==> b[k] == s[k] as int
  {
    var b: seq<byte> := seq(|s|, k requires 0 <= k < |s| => s[k] as int);
    AsciiIsUtf8(b);
    b
  }

  // ---------------------------------------------------------------- the value of an item

  /** `BTreeMap::insert`: a new key is placed in order, an equal key keeps its place and takes the
      new value. */
  function InsertEntry(es: seq<Entry>, key: CborValue, value: CborValue): seq<Entry> {
    if es == [] then [Entry(key, value)]
    else if es[0].key == key then [Entry(key, value)] + es[1..]
    else if Less(key, es[0].key) then [Entry(key, value)] + es
    else [es[0]] + InsertEntry(es[1..], key, value)
  }

  /** Inserts the pairs one after the other into an empty map. */
  function Collect(ps: seq<Entry>): seq<Entry> {
    if ps == [] then []
    else InsertEntry(Collect(ps[..|ps| - 1]), ps[|ps| - 1].key, ps[|ps| - 1].value)
  }

  function PairUp(vs: seq<CborValue>): (ps: seq<Entry>)
    ensures |ps| == |vs| / 2
    ensures forall k :: 0 <= k < |ps| ==> ps[k] == Entry(vs[2 * k], vs[2 * k + 1])
  {
    seq(|vs| / 2, k requires 0 <= k < |vs| / 2 => Entry(vs[2 * k], vs[2 * k + 1]))
  }

  /** The value that the deserializer builds from an item. In a nested map a later entry replaces an
      earlier one with the same key. */
  function ValueOf(i: Item): CborValue
    requires Shaped(i)
  {
    if i.major == 0 then Integer(i.arg)
    else if i.major == 1 then Integer(-1 - i.arg)
    else if i.major == 2 then Bytes(i.data)
    else if i.major == 3 then Text(i.data)
    else if i.major == 4 then Array(ValuesOf(i.kids))
    else if i.major == 5 then Map(Collect(PairUp(ValuesOf(i.kids))))
    else if i.major == 6 then Tag(i.arg, ValueOf(i.kids[0]))
    else if i.arg == 22 then Null
    else Bool(i.arg == 21)
  }

  function ValuesOf(items: seq<Item>): (vs: seq<CborValue>)
    requires forall k :: 0 <= k < |items| ==> Shaped(items[k])
    ensures |vs| == |items|
    ensures forall k :: 0 <= k < |items| ==> vs[k] == ValueOf(items[k])
  {
    if items == [] then [] else [ValueOf(items[0])] + ValuesOf(items[1..])
  }

  // ---------------------------------------------------------------- insertion keeps the order

  lemma {:induction false} InsertedElements(es: seq<Entry>, key: CborValue, value: CborValue, k: nat)
    requires k < |InsertEntry(es, key, value)|
    ensures
      var e := InsertEntry(es, key, value)[k];
      e == Entry(key, value) || e in es
  {
    if es == [] || es[0].key == key || Less(key, es[0].key) {
    } else if k > 0 {
      InsertedElements(es[1..], key, value, k - 1);
    }
  }

  /** A key greater than all others goes to the end. */
  lemma {:induction false} InsertAtEnd(es: seq<Entry>, key: CborValue, value: CborValue)
    requires forall k :: 0 <= k < |es| ==> Less(es[k].key, key)
    ensures InsertEntry(es, key, value) == es + [Entry(key, value)]
  {
    if es != [] {
      assert Less(es[0].key, key);
      LexAsymmetric(Rank(ItemOf(es[0].key)), Rank(ItemOf(key)));
      assert forall k :: 0 <= k < |es[1..]| ==> es[1..][k] == es[k + 1];
      InsertAtEnd(es[1..], key, value);
      assert es == [es[0]] + es[1..];
    }
  }

  lemma {:induction false} CollectSorted(es: seq<Entry>)
    requires Sorted(es)
    ensures Collect(es) == es
  {
    if es != [] {
      var front, last := es[..|es| - 1], es[|es| - 1];
      CollectSorted(front);
      InsertAtEnd(front, last.key, last.value);
      assert es == front + [last];
    }
  }

  // ---------------------------------------------------------------- value, item, value

  lemma {:induction false} ItemOfShape(v: CborValue)
    requires Proper(v)
    ensures Shaped(ItemOf(v))
    ensures ValueOf(ItemOf(v)) == v
  {
    match v
    case Array(items) =>
      forall k | 0 <= k < |items|
        ensures Shaped(ItemOf(items[k])) && ValueOf(ItemOf(items[k])) == items[k]
      {
        ItemOfShape(items[k]);
      }
      assert ValuesOf(ItemsOf(items)) == items;
    case Map(entries) =>
      EntriesShape(entries);
      CollectSorted(entries);
    case Tag(_, inner) =>
      ItemOfShape(inner);
    case _ =>
  }

  lemma {:induction false} EntriesShape(es: seq<Entry>)
    requires ProperEntries(es)
    ensures forall j :: 0 <= j < 2 * |es| ==> Shaped(EntryItems(es)[j])
    ensures PairUp(ValuesOf(EntryItems(es))) == es
    decreases es, 1
  {
    hide ItemOf, Shaped, ValueOf, ValuesOf, EntryItems, Proper;
    var items := EntryItems(es);
    forall j | 0 <= j < 2 * |es|
      ensures Shaped(items[j])
    {
      EntryShape(es[j / 2]);
      EntryItemsAt(es, j / 2);
    }
    var ps := PairUp(ValuesOf(items));
    forall k | 0 <= k < |es|
      ensures ps[k] == es[k]
    {
      EntryShape(es[k]);
      EntryItemsAt(es, k);
    }
  }

  lemma {:induction false} EntryShape(e: Entry)
    requires Proper(e.key) && Proper(e.value)
    ensures Shaped(ItemOf(e.key)) && ValueOf(ItemOf(e.key)) == e.key
    ensures Shaped(ItemOf(e.value)) && ValueOf(ItemOf(e.value)) == e.value
  {
    hide ItemOf, Shaped, ValueOf, Proper;
    ItemOfShape(e.key);
    ItemOfShape(e.value);
  }
}
