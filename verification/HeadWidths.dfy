/** What the decoder makes of items that the encoder does not write: wider heads, and maps whose
    entries are unsorted or repeat a key. */
module HeadWidths {
  import opened CborCodec
  import opened CborOrder
  import opened CborSyntax
  import opened CborValues
  import opened HeaderMaps
  import opened Wrappers

  /** The items differ in the widths of heads only. */
  predicate SameUpToWidths(i: Item, j: Item) {
    && i.major == j.major && i.arg == j.arg && i.data == j.data && |i.kids| == |j.kids|
    && (i.major == 7 ==> i.width == j.width)
    && forall k :: 0 <= k < |i.kids| ==> SameUpToWidths(i.kids[k], j.kids[k])
  }

  /** Widening heads, at any level, changes neither acceptance nor the decoded value. */
  lemma {:induction false} WidthsIrrelevant(i: Item, j: Item)
    requires Shaped(i) && SameUpToWidths(i, j)
    ensures Shaped(j) && ValueOf(j) == ValueOf(i)
  {
    hide ValidUtf8, Collect, PairUp;
    forall k | 0 <= k < |i.kids|
      ensures Shaped(j.kids[k]) && ValueOf(j.kids[k]) == ValueOf(i.kids[k])
    {
      WidthsIrrelevant(i.kids[k], j.kids[k]);
    }
    assert ValuesOf(j.kids) == ValuesOf(i.kids);
  }

  /** Every item differs in widths only from one with narrowest heads. */
  function Narrowed(i: Item): (r: Item)
    ensures r.major == i.major && r.arg == i.arg && r.data == i.data && |r.kids| == |i.kids|
  {
    Item(i.major, MinWidth(i.arg), i.arg, i.data, NarrowedAll(i.kids))
  }

  function NarrowedAll(items: seq<Item>): (rs: seq<Item>)
    ensures |rs| == |items|
    ensures forall k :: 0 <= k < |items| ==> rs[k] == Narrowed(items[k])
  {
    if items == [] then [] else [Narrowed(items[0])] + NarrowedAll(items[1..])
  }

  lemma {:induction false} NarrowedSame(i: Item)
    requires Shaped(i)
    ensures SameUpToWidths(i, Narrowed(i)) && Minimal(Narrowed(i))
  {
    hide ValidUtf8;
    forall k | 0 <= k < |i.kids| ensures SameUpToWidths(i.kids[k], Narrowed(i.kids[k])) {
      NarrowedSame(i.kids[k]);
    }
    forall k | 0 <= k < |i.kids| ensures Minimal(Narrowed(i).kids[k]) {
      NarrowedSame(i.kids[k]);
    }
  }

  /** The header decoder sees no widths either. */
  lemma HeaderWidthsIrrelevant(i: Item, j: Item)
    requires Valid(i) && Valid(j) && SameUpToWidths(i, j)
    ensures HeaderMaps.FromBytes(Emit(i)) == HeaderMaps.FromBytes(Emit(j))
  {
    hide Shaped, Sized, Emit, Collect, PairUp, Distinct, ValueOf;
    FromSliceEmit(i);
    FromSliceEmit(j);
    ValidKids(i);
    ValidKids(j);
    forall k | 0 <= k < |i.kids| ensures ValueOf(i.kids[k]) == ValueOf(j.kids[k]) {
      WidthsIrrelevant(i.kids[k], j.kids[k]);
    }
    assert ValuesOf(i.kids) == ValuesOf(j.kids);
  }

  /** A nested map is decoded to the sorted entries of the finite map that inserting its decoded
      pairs in turn gives: the last pair with a key decides. */
  lemma DecodedMap(i: Item)
    requires Shaped(i) && i.major == 5
    ensures
      var ps := PairUp(ValuesOf(i.kids));
      && ValueOf(i).Map?
      && Ordered(ValueOf(i).entries)
      && MapOf(ValueOf(i).entries) == FinalMap(ps)
      && forall k :: 0 <= k < |ps| && LastOf(ps, k, ps[k].key) ==>
           Lookup(ValueOf(i).entries, ps[k].key) == Some(ps[k].value)
  {
    hide Shaped, Collect, Sorted, Proper, ValuesOf, MapOf, FinalMap;
    ValidKids(i);
    DecodedPairs(i);
    var ps := PairUp(ValuesOf(i.kids));
    CollectIsFinalMap(ps);
    forall k | 0 <= k < |ps| && LastOf(ps, k, ps[k].key)
      ensures Lookup(Collect(ps), ps[k].key) == Some(ps[k].value)
    {
      InsertionsLookup(ps, ps[k].key);
    }
  }
}
