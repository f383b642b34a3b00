/** The key order is a strict total order on values, and a sorted entry list is determined by the
    finite map it stands for. */
module CborOrder {
  import opened CborSyntax
  import opened CborValues
  import opened Lexicographic

  // ---------------------------------------------------------------- ranks determine values

  /** Every head has its narrowest width. */
  predicate Minimal(i: Item) {
    && i.width == MinWidth(i.arg)
    && forall k :: 0 <= k < |i.kids| ==> Minimal(i.kids[k])
  }

  lemma {:induction false} ItemOfMinimal(v: CborValue)
    ensures Minimal(ItemOf(v))
  {
    match v
    case Array(items) =>
      forall k | 0 <= k < |items| ensures Minimal(ItemOf(items[k])) {
        ItemOfMinimal(items[k]);
      }
    case Map(entries) =>
      EntriesMinimal(entries);
    case Tag(_, inner) =>
      ItemOfMinimal(inner);
    case _ =>
  }

  lemma {:induction false} EntriesMinimal(es: seq<Entry>)
    ensures forall j :: 0 <= j < 2 * |es| ==> Minimal(EntryItems(es)[j])
  {
    if es != [] {
      EntryMinimal(es[0]);
      EntriesMinimal(es[1..]);
    }
  }

  lemma {:induction false} EntryMinimal(e: Entry)
    ensures forall j :: 0 <= j < 2 ==> Minimal(EntryPair(e)[j])
  {
    ItemOfMinimal(e.key);
    ItemOfMinimal(e.value);
  }

  /** No rank is a proper prefix of another. */
  lemma {:induction false} RankPrefixFree(i: Item, j: Item, x: seq<int>, y: seq<int>)
    requires Shaped(i) && Minimal(i) && Shaped(j) && Minimal(j)
    requires Rank(i) + x == Rank(j) + y
    ensures i == j && x == y
  {
    hide ValidUtf8;
    assert (Rank(i) + x)[0] == i.major && (Rank(j) + y)[0] == j.major;
    assert (Rank(i) + x)[1] == i.arg && (Rank(j) + y)[1] == j.arg;
    RankSplit(i, x);
    RankSplit(j, y);
    RanksPrefixFree(i.kids, j.kids, x, y);
  }

  lemma RankSplit(i: Item, x: seq<int>)
    ensures (Rank(i) + x)[2..2 + |i.data|] == i.data
    ensures (Rank(i) + x)[2 + |i.data|..] == Ranks(i.kids) + x
  {
    hide Ranks;
    assert Rank(i) + x == [i.major, i.arg] + i.data + (Ranks(i.kids) + x);
  }

  lemma {:induction false} RanksPrefixFree(a: seq<Item>, b: seq<Item>, x: seq<int>, y: seq<int>)
    requires |a| == |b|
    requires forall k :: 0 <= k < |a| ==> Shaped(a[k]) && Minimal(a[k])
    requires forall k :: 0 <= k < |b| ==> Shaped(b[k]) && Minimal(b[k])
    requires Ranks(a) + x == Ranks(b) + y
    ensures a == b && x == y
  {
    hide Shaped, Minimal, Rank;
    if a == [] {
      assert [] + x == x && [] + y == y;
    } else {
      assert Ranks(a) + x == Rank(a[0]) + (Ranks(a[1..]) + x);
      assert Ranks(b) + y == Rank(b[0]) + (Ranks(b[1..]) + y);
      RankPrefixFree(a[0], b[0], Ranks(a[1..]) + x, Ranks(b[1..]) + y);
      RanksPrefixFree(a[1..], b[1..], x, y);
      assert a == [a[0]] + a[1..] && b == [b[0]] + b[1..];
    }
  }

  /** Of two values the crate can hold, encodable or not, exactly one is less or they are equal. */
  lemma LessTrichotomy(a: CborValue, b: CborValue)
    requires Proper(a) && Proper(b)
    ensures Less(a, b) ==> a != b && !Less(b, a)
    ensures a == b || Less(a, b) || Less(b, a)
  {
    hide Proper, Shaped, Minimal, Rank;
    var i, j := ItemOf(a), ItemOf(b);
    if Less(a, b) {
      LexAsymmetric(Rank(i), Rank(j));
    }
    LexTotal(Rank(i), Rank(j));
    if Rank(i) == Rank(j) {
      ItemOfShape(a);
      ItemOfShape(b);
      ItemOfMinimal(a);
      ItemOfMinimal(b);
      assert Rank(i) + [] == Rank(j) + [];
      RankPrefixFree(i, j, [], []);
    }
  }

  lemma LessTransitive(a: CborValue, b: CborValue, c: CborValue)
    requires Less(a, b) && Less(b, c)
    ensures Less(a, c)
  {
    LexTransitive(Rank(ItemOf(a)), Rank(ItemOf(b)), Rank(ItemOf(c)));
  }

  /** The key order is a strict total order on the values the crate can hold, including integers
      that have no encoding. */
  lemma LessIsStrictTotalOrder(a: CborValue, b: CborValue, c: CborValue)
    requires Proper(a) && Proper(b) && Proper(c)
    ensures !Less(a, a)
    ensures Less(a, b) ==> !Less(b, a)
    ensures a == b || Less(a, b) || Less(b, a)
    ensures Less(a, b) && Less(b, c) ==> Less(a, c)
  {
    hide Less, Proper;
    LessTrichotomy(a, a);
    LessTrichotomy(a, b);
    if Less(a, b) && Less(b, c) {
      LessTransitive(a, b, c);
    }
  }

  // ---------------------------------------------------------------- entries as a finite map

  /** The entries of a map with the crate's type invariants. */
  predicate Ordered(es: seq<Entry>) {
    Sorted(es) && ProperEntries(es)
  }

  /** The finite map that a list of entries stands for. */
  function MapOf(es: seq<Entry>): map<CborValue, CborValue> {
    if es == [] then map[] else MapOf(es[1..])[es[0].key := es[0].value]
  }

  lemma {:induction false} MapOfKeys(es: seq<Entry>, key: CborValue)
    ensures key in MapOf(es) <==> exists k :: 0 <= k < |es| && es[k].key == key
  {
    if es != [] {
      MapOfKeys(es[1..], key);
      if k :| 0 <= k < |es| && es[k].key == key {
        assert k == 0 || es[1..][k - 1].key == key;
      }
      if k :| 0 <= k < |es[1..]| && es[1..][k].key == key {
        assert es[k + 1].key == key;
      }
    }
  }

  lemma OrderedTail(es: seq<Entry>)
    requires Ordered(es) && es != []
    ensures Ordered(es[1..])
    ensures es[0].key !in MapOf(es[1..])
  {
    hide Less, Proper;
    forall k | 0 <= k < |es[1..]|
      ensures es[1..][k].key != es[0].key
    {
      assert Less(es[0].key, es[k + 1].key);
      LessTrichotomy(es[0].key, es[k + 1].key);
    }
    MapOfKeys(es[1..], es[0].key);
  }

  /** Insertion keeps the entries ordered and updates the map at one key. */
  lemma {:induction false} InsertIsUpdate(es: seq<Entry>, key: CborValue, value: CborValue)
    requires Ordered(es) && Proper(key) && Proper(value)
    ensures Ordered(InsertEntry(es, key, value))
    ensures MapOf(InsertEntry(es, key, value)) == MapOf(es)[key := value]
  {
    hide Less, Proper;
    if es != [] {
      var head, tail := es[0], es[1..];
      OrderedTail(es);
      LessTrichotomy(head.key, key);
      if head.key != key && !Less(key, head.key) {
        InsertIsUpdate(tail, key, value);
        var r := InsertEntry(tail, key, value);
        forall k | 0 <= k < |r|
          ensures Less(head.key, r[k].key)
        {
          InsertedElements(tail, key, value, k);
        }
        PrependOrdered(head, r);
        UpdatesCommute(MapOf(tail), head.key, head.value, key, value);
      } else if head.key == key {
        ReplaceHead(es, value);
      } else {
        forall k | 0 <= k < |es|
          ensures Less(key, es[k].key)
        {
          if k > 0 {
            LessTransitive(key, head.key, es[k].key);
          }
        }
        PrependOrdered(Entry(key, value), es);
      }
    }
  }

  lemma UpdatesCommute(m: map<CborValue, CborValue>, j: CborValue, v: CborValue, k: CborValue, w: CborValue)
    requires j != k
    ensures m[j := v][k := w] == m[k := w][j := v]
  {
  }

  lemma PrependOrdered(e: Entry, es: seq<Entry>)
    requires Ordered(es) && Proper(e.key) && Proper(e.value)
    requires forall k :: 0 <= k < |es| ==> Less(e.key, es[k].key)
    ensures Ordered([e] + es)
    ensures MapOf([e] + es) == MapOf(es)[e.key := e.value]
  {
    hide Less, Proper;
    assert ([e] + es)[1..] == es;
  }

  lemma UpdateTwice(m: map<CborValue, CborValue>, key: CborValue, v: CborValue, w: CborValue)
    ensures m[key := v][key := w] == m[key := w]
  {
  }

  lemma ReplaceHead(es: seq<Entry>, value: CborValue)
    requires Ordered(es) && es != [] && Proper(value)
    ensures Ordered([Entry(es[0].key, value)] + es[1..])
    ensures MapOf([Entry(es[0].key, value)] + es[1..]) == MapOf(es)[es[0].key := value]
  {
    hide Less, Proper;
    var key, tail := es[0].key, es[1..];
    OrderedTail(es);
    forall k | 0 <= k < |tail| ensures Less(key, tail[k].key) {
      assert tail[k] == es[k + 1];
    }
    PrependOrdered(Entry(key, value), tail);
    UpdateTwice(MapOf(tail), key, es[0].value, value);
  }

  lemma EmptyMap(es: seq<Entry>)
    ensures MapOf(es) == map[] <==> es == []
  {
    if es != [] {
      assert es[0].key in MapOf(es);
    }
  }

  /** Ordered entries are determined by the map they stand for. */
  lemma {:induction false} OrderedExtensional(a: seq<Entry>, b: seq<Entry>)
    requires Ordered(a) && Ordered(b) && MapOf(a) == MapOf(b)
    ensures a == b
  {
    hide Less, Proper;
    EmptyMap(a);
    EmptyMap(b);
    if a != [] {
      LeastKey(a, b);
      LeastKey(b, a);
      LessTrichotomy(a[0].key, b[0].key);
      OrderedTail(a);
      OrderedTail(b);
      assert MapOf(a[1..]) == MapOf(a) - {a[0].key};
      assert MapOf(b[1..]) == MapOf(b) - {a[0].key};
      OrderedExtensional(a[1..], b[1..]);
      assert MapOf(a)[a[0].key] == a[0].value && MapOf(b)[a[0].key] == b[0].value;
      assert a == [a[0]] + a[1..] && b == [b[0]] + b[1..];
    }
  }

  lemma LeastKey(a: seq<Entry>, b: seq<Entry>)
    requires Ordered(a) && a != [] && b != [] && MapOf(a) == MapOf(b)
    ensures a[0].key == b[0].key || Less(a[0].key, b[0].key)
  {
    hide Less, Proper;
    assert b[0].key in MapOf(b);
    MapOfKeys(a, b[0].key);
  }

  // ---------------------------------------------------------------- sequences of insertions

  /** The map after inserting the pairs one after the other: the last value of a key counts. */
  function FinalMap(ps: seq<Entry>): map<CborValue, CborValue> {
    if ps == [] then map[]
    else FinalMap(ps[..|ps| - 1])[ps[|ps| - 1].key := ps[|ps| - 1].value]
  }

  /** Collecting pairs into ordered entries refines the updates of a finite map. */
  lemma {:induction false} CollectIsFinalMap(ps: seq<Entry>)
    requires ProperEntries(ps)
    ensures Ordered(Collect(ps))
    ensures MapOf(Collect(ps)) == FinalMap(ps)
  {
    hide Less, Proper;
    if ps != [] {
      var front, last := ps[..|ps| - 1], ps[|ps| - 1];
      CollectIsFinalMap(front);
      InsertIsUpdate(Collect(front), last.key, last.value);
    }
  }

  lemma {:induction false} FinalMapKeys(ps: seq<Entry>, key: CborValue)
    ensures key in FinalMap(ps) <==> exists k :: 0 <= k < |ps| && ps[k].key == key
  {
    if ps != [] {
      var front := ps[..|ps| - 1];
      FinalMapKeys(front, key);
      if k :| 0 <= k < |ps| && ps[k].key == key {
        assert k == |ps| - 1 || front[k].key == key;
      }
      if k :| 0 <= k < |front| && front[k].key == key {
        assert ps[k].key == key;
      }
    }
  }

  /** The value of a key is the one paired with its last occurrence. */
  lemma {:induction false} FinalMapLast(ps: seq<Entry>, k: nat)
    requires k < |ps|
    requires forall m :: k < m < |ps| ==> ps[m].key != ps[k].key
    ensures ps[k].key in FinalMap(ps) && FinalMap(ps)[ps[k].key] == ps[k].value
  {
    if k < |ps| - 1 {
      var front := ps[..|ps| - 1];
      assert forall m :: 0 <= m < |front| ==> front[m] == ps[m];
      FinalMapLast(front, k);
    }
  }
}
