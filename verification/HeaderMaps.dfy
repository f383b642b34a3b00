/** COSE header maps: insertion, lookup, the strict decoder and the empty-or-serialized form. */
module HeaderMaps {
  import opened BigEndian
  import opened CborCodec
  import opened CborOrder
  import opened CborSyntax
  import opened CborValues
  import opened Wrappers

  /** The contents of a header map. */
  type Header = es: seq<Entry> | Ordered(es) witness []

  function Lookup(h: seq<Entry>, key: CborValue): (r: Option<CborValue>)
    ensures r == if key in MapOf(h) then Some(MapOf(h)[key]) else None
  {
    if h == [] then None
    else if h[0].key == key then Some(h[0].value)
    else Lookup(h[1..], key)
  }

  class HeaderMap {
    var entries: Header

    constructor ()
      ensures entries == []
    {
      entries := [];
    }

    /** Returns the value that the key had before. */
    method Insert(key: Value, value: Value) returns (previous: Option<CborValue>)
      modifies this
      ensures previous == Lookup(old(entries), key)
      ensures entries == InsertEntry(old(entries), key, value)
      ensures MapOf(entries) == MapOf(old(entries))[key := value]
    {
      previous := Lookup(entries, key);
      InsertIsUpdate(entries, key, value);
      entries := InsertEntry(entries, key, value);
    }

    function Get(key: CborValue): (r: Option<CborValue>)
      reads this
      ensures r == if key in MapOf(entries) then Some(MapOf(entries)[key]) else None
    {
      Lookup(entries, key)
    }

    predicate IsEmpty()
      reads this
      ensures IsEmpty() <==> MapOf(entries) == map[]
    {
      EmptyMap(entries);
      entries == []
    }
  }

  // ---------------------------------------------------------------- insertion sequences

  predicate LastOf(ps: seq<Entry>, k: nat, key: CborValue)
    requires k < |ps|
  {
    ps[k].key == key && forall m :: k < m < |ps| ==> ps[m].key != key
  }

  /** After any sequence of insertions a key has the value that was inserted for it last, and the
      map is empty only if nothing was inserted. */
  lemma InsertionsLookup(ps: seq<Entry>, key: CborValue)
    requires ProperEntries(ps)
    ensures Ordered(Collect(ps))
    ensures Lookup(Collect(ps), key).None? <==> forall k :: 0 <= k < |ps| ==> ps[k].key != key
    ensures forall k :: 0 <= k < |ps| && LastOf(ps, k, key) ==> Lookup(Collect(ps), key) == Some(ps[k].value)
    ensures Collect(ps) == [] <==> ps == []
  {
    hide Collect, Proper, Sorted, MapOf, FinalMap;
    CollectIsFinalMap(ps);
    FinalMapKeys(ps, key);
    forall k | 0 <= k < |ps| && LastOf(ps, k, key)
      ensures Lookup(Collect(ps), key) == Some(ps[k].value)
    {
      FinalMapLast(ps, k);
    }
    EmptyMap(Collect(ps));
    if ps == [] {
      CollectLength(ps);
    } else {
      FinalMapKeys(ps, ps[0].key);
    }
  }

  /** Insertion sequences with the same final mapping give the same map, hence the same bytes. */
  lemma InsertionOrderIrrelevant(ps: seq<Entry>, qs: seq<Entry>)
    requires ProperEntries(ps) && ProperEntries(qs)
    requires FinalMap(ps) == FinalMap(qs)
    ensures Collect(ps) == Collect(qs)
    ensures EmptyOrSerialized(Collect(ps)) == EmptyOrSerialized(Collect(qs))
  {
    hide Collect, Proper, Sorted, MapOf, FinalMap;
    CollectIsFinalMap(ps);
    CollectIsFinalMap(qs);
    OrderedExtensional(Collect(ps), Collect(qs));
  }

  // ---------------------------------------------------------------- decoding

  predicate Distinct(ps: seq<Entry>) {
    forall j, k :: 0 <= j < k < |ps| ==> ps[j].key != ps[k].key
  }

  /** The decoder of a header map: a map whose keys all differ. */
  function HeaderOfItem(i: Item): (r: Option<Header>)
    requires Shaped(i)
  {
    if i.major != 5 then None else
    var ps := PairUp(ValuesOf(i.kids));
    if !Distinct(ps) then None else
    ValuesProper(i.kids);
    MapProper(ValuesOf(i.kids));
    Some(Collect(ps))
  }

  function FromBytes(b: seq<byte>): (r: Result<Header>)
    ensures !r.Success? ==> r == Failure(SerializationError)
  {
    match FromSlice(b)
    case None => Failure(SerializationError)
    case Some(i) => HeaderOfItem(i).ToResult(SerializationError)
  }

  /** The serialized map, except that the empty map becomes the empty byte string. */
  function EmptyOrSerialized(h: seq<Entry>): Result<seq<byte>> {
    if h == [] then Success([]) else ToVec(Map(h))
  }

  lemma ValuesProper(kids: seq<Item>)
    requires forall k :: 0 <= k < |kids| ==> Shaped(kids[k])
    ensures forall k :: 0 <= k < |kids| ==> Proper(ValuesOf(kids)[k])
  {
    hide Proper, Shaped, ValueOf, ValuesOf;
    forall k | 0 <= k < |kids| ensures Proper(ValuesOf(kids)[k]) {
      ValueOfProper(kids[k]);
    }
  }

  lemma {:induction false} DistinctCollect(ps: seq<Entry>, k: nat)
    requires ProperEntries(ps) && Distinct(ps) && k < |ps|
    ensures Lookup(Collect(ps), ps[k].key) == Some(ps[k].value)
  {
    hide Collect, Proper, Sorted;
    InsertionsLookup(ps, ps[k].key);
  }

  /** The bytes of an item, with heads of any width, are accepted exactly when it is a map whose
      decoded keys differ from each other, and the result then has exactly the decoded pairs. */
  lemma HeaderDecoding(i: Item)
    requires Valid(i)
    ensures
      var ps := PairUp(ValuesOf(i.kids));
      var r := FromBytes(Emit(i));
      && (r.Success? <==> i.major == 5 && Distinct(ps))
      && (r.Success? ==>
            && |r.value| == |ps|
            && (forall k :: 0 <= k < |ps| ==> Lookup(r.value, ps[k].key) == Some(ps[k].value))
            && forall key :: key in MapOf(r.value) ==> exists k :: 0 <= k < |ps| && ps[k].key == key)
  {
    hide Shaped, Sized, Emit, Collect, Proper, Sorted, MapOf, ValueOf, ValuesOf, FinalMap;
    FromSliceEmit(i);
    ValidKids(i);
    var ps := PairUp(ValuesOf(i.kids));
    if i.major == 5 && Distinct(ps) {
      DecodedPairs(i);
      forall k | 0 <= k < |ps| ensures Lookup(Collect(ps), ps[k].key) == Some(ps[k].value) {
        DistinctCollect(ps, k);
      }
      forall key | key in MapOf(Collect(ps)) ensures exists k :: 0 <= k < |ps| && ps[k].key == key {
        CollectIsFinalMap(ps);
        FinalMapKeys(ps, key);
      }
      DistinctCollectLength(ps);
    }
  }

  lemma DecodedPairs(i: Item)
    requires Shaped(i)
    ensures ProperEntries(PairUp(ValuesOf(i.kids)))
  {
    hide Shaped, Collect, Sorted, Proper, ValueOf, ValuesOf;
    ValidKids(i);
    ValuesProper(i.kids);
    MapProper(ValuesOf(i.kids));
  }

  lemma ValidKids(i: Item)
    requires Shaped(i)
    ensures forall k :: 0 <= k < |i.kids| ==> Shaped(i.kids[k])
  {
  }

  lemma {:induction false} DistinctCollectLength(ps: seq<Entry>)
    requires ProperEntries(ps) && Distinct(ps)
    ensures |Collect(ps)| == |ps|
  {
    hide Proper, Sorted, InsertEntry;
    if ps != [] {
      var front, last := ps[..|ps| - 1], ps[|ps| - 1];
      DistinctCollectLength(front);
      InsertionsLookup(front, last.key);
      InsertNewLength(Collect(front), last.key, last.value);
    }
  }

  lemma {:induction false} InsertNewLength(es: seq<Entry>, key: CborValue, value: CborValue)
    requires Lookup(es, key).None?
    ensures |InsertEntry(es, key, value)| == |es| + 1
  {
    if es != [] && !Less(key, es[0].key) {
      InsertNewLength(es[1..], key, value);
    }
  }

  /** A permutation given with its inverse. */
  predicate Inverse(p: seq<nat>, q: seq<nat>) {
    && |p| == |q|
    && (forall k :: 0 <= k < |p| ==> p[k] < |q| && q[p[k]] == k)
    && (forall k :: 0 <= k < |q| ==> q[k] < |p| && p[q[k]] == k)
  }

  predicate Permuted(ps: seq<Entry>, qs: seq<Entry>, p: seq<nat>) {
    && |p| == |ps| == |qs|
    && (forall k :: 0 <= k < |p| ==> p[k] < |qs| && ps[k] == qs[p[k]])
  }

  lemma PermutedDistinct(ps: seq<Entry>, qs: seq<Entry>, p: seq<nat>, q: seq<nat>)
    requires Inverse(p, q) && Permuted(ps, qs, p) && Distinct(qs)
    ensures Distinct(ps)
  {
    forall j, k | 0 <= j < k < |ps| ensures ps[j].key != ps[k].key {
      assert q[p[j]] == j && q[p[k]] == k;
    }
  }

  lemma PermutedLookup(ps: seq<Entry>, qs: seq<Entry>, p: seq<nat>, q: seq<nat>)
    requires ProperEntries(ps) && ProperEntries(qs) && Distinct(ps) && Distinct(qs)
    requires Inverse(p, q) && Permuted(ps, qs, p)
    ensures Collect(ps) == Collect(qs)
  {
    hide Collect, Proper, Sorted, MapOf, FinalMap;
    CollectIsFinalMap(ps);
    CollectIsFinalMap(qs);
    var a, b := MapOf(Collect(ps)), MapOf(Collect(qs));
    forall key ensures Lookup(Collect(ps), key) == Lookup(Collect(qs), key) {
      InsertionsLookup(ps, key);
      InsertionsLookup(qs, key);
      if k :| 0 <= k < |ps| && ps[k].key == key {
        DistinctCollect(ps, k);
        DistinctCollect(qs, p[k]);
      } else {
        forall k | 0 <= k < |qs| ensures qs[k].key != key {
          assert ps[q[k]] == qs[p[q[k]]];
        }
      }
    }
    assert forall key :: key in a <==> Lookup(Collect(ps), key).Some?;
    assert forall key :: key in b <==> Lookup(Collect(qs), key).Some?;
    assert a == b;
    OrderedExtensional(Collect(ps), Collect(qs));
  }

  lemma PermutedHeaders(ps: seq<Entry>, qs: seq<Entry>, p: seq<nat>, q: seq<nat>)
    requires ProperEntries(ps) && ProperEntries(qs)
    requires Inverse(p, q) && Permuted(ps, qs, p)
    ensures Distinct(ps) <==> Distinct(qs)
    ensures Distinct(ps) ==> Collect(ps) == Collect(qs)
  {
    hide Collect, Proper, Sorted, Distinct;
    forall k | 0 <= k < |q| ensures qs[k] == ps[q[k]] {
      assert ps[q[k]] == qs[p[q[k]]];
    }
    if Distinct(qs) {
      PermutedDistinct(ps, qs, p, q);
      PermutedLookup(ps, qs, p, q);
    } else if Distinct(ps) {
      PermutedDistinct(qs, ps, q, p);
    }
  }

  /** Two map encodings whose decoded entries are a permutation of each other are both refused, or
      decode to the same header and so are encoded again to the same bytes. */
  lemma EntryOrderIrrelevant(i: Item, j: Item, p: seq<nat>, q: seq<nat>)
    requires Valid(i) && Valid(j) && i.major == j.major == 5
    requires Inverse(p, q) && Permuted(PairUp(ValuesOf(i.kids)), PairUp(ValuesOf(j.kids)), p)
    ensures FromBytes(Emit(i)) == FromBytes(Emit(j))
  {
    hide Shaped, Sized, Emit, Collect, ProperEntries, ValueOf, ValuesOf, PairUp, Distinct, Inverse, Permuted;
    FromSliceEmit(i);
    FromSliceEmit(j);
    ValidKids(i);
    ValidKids(j);
    DecodedPairs(i);
    DecodedPairs(j);
    PermutedHeaders(PairUp(ValuesOf(i.kids)), PairUp(ValuesOf(j.kids)), p, q);
  }

  // ---------------------------------------------------------------- round trip and normal form

  lemma OrderedDistinct(h: Header)
    ensures Distinct(h)
  {
    hide Less, Proper;
    forall j, k | 0 <= j < k < |h| ensures h[j].key != h[k].key {
      LessTrichotomy(h[j].key, h[k].key);
    }
  }

  /** A non-empty header survives serialization exactly; the empty one becomes the empty byte
      string, which does not decode. */
  lemma HeaderRoundTrip(h: Header)
    requires EmptyOrSerialized(h).Success?
    ensures
      var b := EmptyOrSerialized(h).value;
      && (b == [] <==> h == [])
      && FromBytes(b) == if h == [] then Failure(SerializationError) else Success(h)
  {
    hide Shaped, Sized, Proper, Sorted, Emit, ValueOf, ValuesOf, EntryItems, Collect;
    if h != [] {
      var i := ItemOf(Map(h));
      assert Proper(Map(h)) by { ProperMap(h); }
      DecodeEncode(Map(h), []);
      FromSliceEmit(i);
      EntriesShape(h);
      OrderedDistinct(h);
      CollectSorted(h);
    }
  }

  lemma ProperMap(h: Header)
    ensures Proper(Map(h))
  {
  }

  /** The item of a header decodes to the header, empty or not. */
  lemma HeaderItem(h: Header)
    ensures Shaped(ItemOf(Map(h))) && HeaderOfItem(ItemOf(Map(h))) == Some(h)
  {
    hide Proper, Sorted, Collect, ValuesOf, EntryItems, ValueOf, Shaped;
    ProperMap(h);
    ItemOfShape(Map(h));
    EntriesShape(h);
    OrderedDistinct(h);
    CollectSorted(h);
  }

  /** What is encoded again after decoding `b`, as `decrypt` does with the protected header: never
      longer, stable, and equal to `b` exactly when `b` is canonical and holds a non-empty map. */
  lemma HeaderNormalForm(b: seq<byte>)
    requires FromBytes(b).Success?
    ensures
      var h := FromBytes(b).value;
      var n := EmptyOrSerialized(h);
      && n.Success?
      && |n.value| <= |b|
      && (h == [] <==> n.value == [])
      && (h != [] ==> FromBytes(n.value) == Success(h))
      && (n.value == b <==> h != [] && Canonical(FromSlice(b).value))
  {
    hide Shaped, Sized, Proper, Sorted, Emit, ItemOf, ValuesOf, Collect, Canonical, ParseItem;
    var h := FromBytes(b).value;
    assert ValueOf(FromSlice(b).value) == Map(h);
    Reencoding(b);
    HeaderRoundTrip(h);
  }

  /** Fields that were read can be written. */
  lemma ReadFieldsEncodable(i: Item)
    requires Valid(i) && i.major == 2
    ensures Encodable(Bytes(i.data))
  {
    hide Encodable;
    ValidParts(i);
    ArgumentBound(i);
    EncodableRange(Bytes(i.data));
  }

  lemma ReadHeaderEncodable(i: Item)
    requires Valid(i) && HeaderOfItem(i).Some?
    ensures Encodable(Map(HeaderOfItem(i).value))
  {
    hide Encodable, Collect, ValuesOf, Shaped, Sized;
    DecodedEncodable(i);
    assert ValueOf(i) == Map(HeaderOfItem(i).value);
  }
}
