/** A direct encoder written from RFC 7049 sections 2.1 to 2.4, without syntax trees. The encoder of
    the model, which goes through the item of a value, refines it. */
module ReferenceEncoder {
  import opened BigEndian
  import opened CborCodec
  import opened CborSyntax
  import opened CborValues
  import opened Wrappers

  /** The initial byte and the argument, in the fewest bytes. */
  function ShortHead(major: nat, arg: nat): seq<byte>
    requires major < 8
  {
    var initial := 32 * major;
    if arg < 24 then [initial + arg]
    else if arg < 0x100 then [initial + 24, arg]
    else if arg < 0x1_0000 then [initial + 25, arg / 0x100, arg % 0x100]
    else if arg < 0x1_0000_0000 then [initial + 26] + FourBytes(arg)
    else [initial + 27] + FourBytes(arg / 0x1_0000_0000) + FourBytes(arg)
  }

  function FourBytes(n: nat): seq<byte> {
    [n / 0x100_0000 % 0x100, n / 0x1_0000 % 0x100, n / 0x100 % 0x100, n % 0x100]
  }

  function Encode(v: CborValue): seq<byte> {
    match v
    case Integer(n) => if n >= 0 then ShortHead(0, n) else ShortHead(1, -1 - n)
    case Bytes(b) => ShortHead(2, |b|) + b
    case Text(b) => ShortHead(3, |b|) + b
    case Array(items) => ShortHead(4, |items|) + EncodeItems(items)
    case Map(entries) => ShortHead(5, |entries|) + EncodeEntries(entries)
    case Tag(t, inner) => ShortHead(6, t) + Encode(inner)
    case Bool(b) => if b then [0xF5] else [0xF4]
    case Null => [0xF6]
  }

  function EncodeItems(vs: seq<CborValue>): seq<byte> {
    if vs == [] then [] else Encode(vs[0]) + EncodeItems(vs[1..])
  }

  function EncodeEntries(es: seq<Entry>): seq<byte> {
    if es == [] then [] else EncodeEntry(es[0]) + EncodeEntries(es[1..])
  }

  function EncodeEntry(e: Entry): seq<byte> {
    Encode(e.key) + Encode(e.value)
  }

  // ---------------------------------------------------------------- heads

  lemma NestedDivisions(n: nat)
    ensures n / 0x100 / 0x100 == n / 0x1_0000
    ensures n / 0x1_0000 / 0x100 == n / 0x100_0000
    ensures n / 0x100_0000 / 0x100 == n / 0x1_0000_0000
  {
  }

  /** The last four digits. */
  lemma FourDigits(n: nat, k: nat)
    ensures I2osp(n, k + 4) == I2osp(n / 0x1_0000_0000, k) + FourBytes(n)
  {
    hide I2osp;
    NestedDivisions(n);
    LastDigit(n, k + 3);
    LastDigit(n / 0x100, k + 2);
    LastDigit(n / 0x1_0000, k + 1);
    LastDigit(n / 0x100_0000, k);
  }

  lemma LastDigit(n: nat, k: nat)
    ensures I2osp(n, k + 1) == I2osp(n / 0x100, k) + [n % 0x100]
  {
  }

  lemma OneDigit(n: nat)
    requires n < 0x100
    ensures I2osp(n, 1) == [n]
  {
    LastDigit(n, 0);
  }

  lemma TwoDigits(n: nat)
    requires n < 0x1_0000
    ensures I2osp(n, 2) == [n / 0x100, n % 0x100]
  {
    hide I2osp;
    LastDigit(n, 1);
    OneDigit(n / 0x100);
  }

  lemma ManyDigits(n: nat)
    ensures I2osp(n, 4) == FourBytes(n)
    ensures I2osp(n, 8) == FourBytes(n / 0x1_0000_0000) + FourBytes(n)
  {
    hide FourBytes, I2osp;
    var high := n / 0x1_0000_0000;
    FourDigits(n, 0);
    FourDigits(n, 4);
    FourDigits(high, 0);
    NoDigits(high, FourBytes(n));
    NoDigits(high / 0x1_0000_0000, FourBytes(high));
  }

  lemma NoDigits(n: nat, b: seq<byte>)
    ensures I2osp(n, 0) + b == b
  {
  }

  /** The bytes of a head of any width: the initial byte and the argument, most significant byte
      first. */
  lemma HeadForms(major: nat, arg: nat)
    requires major < 8
    ensures arg < 24 ==> EmitHead(major, 0, arg) == [32 * major + arg]
    ensures arg < 0x100 ==> EmitHead(major, 1, arg) == [32 * major + 24, arg]
    ensures arg < 0x1_0000 ==> EmitHead(major, 2, arg) == [32 * major + 25, arg / 0x100, arg % 0x100]
    ensures EmitHead(major, 4, arg) == [32 * major + 26] + FourBytes(arg)
    ensures EmitHead(major, 8, arg) == [32 * major + 27] + FourBytes(arg / 0x1_0000_0000) + FourBytes(arg)
  {
    hide I2osp, FourBytes;
    if arg < 0x100 {
      OneDigit(arg);
    }
    if arg < 0x1_0000 {
      TwoDigits(arg);
    }
    assert I2osp(arg, 0) == [];
    ManyDigits(arg);
  }

  /** The encoder writes the shortest of them. */
  lemma ShortestHead(major: nat, arg: nat)
    requires major < 8 && arg < 0x1_0000_0000_0000_0000
    ensures EmitHead(major, MinWidth(arg), arg) == ShortHead(major, arg)
    ensures forall width :: Fits(width, arg) ==> |ShortHead(major, arg)| <= |EmitHead(major, width, arg)|
  {
    hide EmitHead, FourBytes, Pow256;
    HeadForms(major, arg);
    forall width | Fits(width, arg) ensures MinWidth(arg) <= width {
      MinWidthLeast(width, arg, arg);
    }
  }

  // ---------------------------------------------------------------- values

  /** On every value that has an encoding the model's encoder and the reference agree. */
  lemma {:induction false} EncoderRefines(v: CborValue)
    requires Encodable(v)
    ensures Emit(ItemOf(v)) == Encode(v)
    decreases v, 1
  {
    hide EmitHead, ShortHead, Emit, EmitAll, Encodable, ItemOf;
    EncodableRange(v);
    SimpleHeads();
    match v
    case Integer(n) =>
      IntegerLayout(n);
      ShortestHead(if n >= 0 then 0 else 1, if n >= 0 then n else -1 - n);
    case Bytes(b) =>
      BytesLayout(b);
      ShortestHead(2, |b|);
    case Text(b) =>
      TextLayout(b);
      ShortestHead(3, |b|);
    case Array(items) =>
      ArrayLayout(items);
      ShortestHead(4, |items|);
      ItemsRefine(items);
    case Map(entries) =>
      MapLayout(entries);
      ShortestHead(5, |entries|);
      EntriesRefine(entries);
    case Tag(t, inner) =>
      TagLayout(t, inner);
      ShortestHead(6, t);
      EncoderRefines(inner);
    case Null =>
      SimpleLayout(v);
    case Bool(_) =>
      SimpleLayout(v);
  }

  lemma IntegerLayout(n: int)
    ensures Emit(ItemOf(Integer(n))) ==
      if n >= 0 then EmitHead(0, MinWidth(n), n) else EmitHead(1, MinWidth(-1 - n), -1 - n)
  {
    hide EmitHead;
  }

  lemma SimpleLayout(v: CborValue)
    requires v.Null? || v.Bool?
    ensures Emit(ItemOf(v)) == if v == Null then [0xF6] else if v.b then [0xF5] else [0xF4]
  {
    hide EmitHead;
    SimpleHeads();
  }

  lemma SimpleHeads()
    ensures EmitHead(7, MinWidth(20), 20) == [0xF4]
    ensures EmitHead(7, MinWidth(21), 21) == [0xF5]
    ensures EmitHead(7, MinWidth(22), 22) == [0xF6]
  {
  }

  lemma {:induction false} ItemsRefine(vs: seq<CborValue>)
    requires forall k :: 0 <= k < |vs| ==> Encodable(vs[k])
    ensures EmitAll(ItemsOf(vs)) == EncodeItems(vs)
    decreases vs, 0
  {
    hide Emit, ItemOf, Encode;
    if vs != [] {
      EncoderRefines(vs[0]);
      ItemsRefine(vs[1..]);
      EmitAllCons(ItemOf(vs[0]), ItemsOf(vs[1..]));
    }
  }

  lemma {:induction false} EntriesRefine(es: seq<Entry>)
    requires forall k :: 0 <= k < |es| ==> Encodable(es[k].key)
    requires forall k :: 0 <= k < |es| ==> Encodable(es[k].value)
    ensures EmitAll(EntryItems(es)) == EncodeEntries(es)
    decreases es, 0
  {
    hide Emit, ItemOf, Encode;
    if es != [] {
      EntryRefines(es[0]);
      EntriesRefine(es[1..]);
      var rest := EntryItems(es[1..]);
      var key, value := ItemOf(es[0].key), ItemOf(es[0].value);
      assert EntryItems(es) == [key] + ([value] + rest);
      EmitAllCons(key, [value] + rest);
      EmitAllCons(value, rest);
    }
  }

  lemma {:induction false} EntryRefines(e: Entry)
    requires Encodable(e.key) && Encodable(e.value)
    ensures EncodeEntry(e) == Emit(ItemOf(e.key)) + Emit(ItemOf(e.value))
  {
    hide Emit, ItemOf, Encode;
    EncoderRefines(e.key);
    EncoderRefines(e.value);
  }

  /** `serde_cbor::to_vec` is the reference encoder, with an error on what has no encoding. */
  lemma ToVecIsReference(v: CborValue)
    ensures ToVec(v) == if Encodable(v) then Success(Encode(v)) else Failure(SerializationError)
  {
    hide Emit, ItemOf, Encode, Encodable;
    if Encodable(v) {
      EncoderRefines(v);
    }
  }
}
