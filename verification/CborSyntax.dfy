/** The concrete syntax of CBOR data items, RFC 7049 sections 2.1 to 2.4, restricted to definite
    lengths and to the simple values false, true and null.

    An `Item` keeps everything the bytes say: the width of every head and the order of every map
    entry. Items and their bytes therefore correspond one to one, which is proved here in both
    directions (`ParseEmit`, `EmitParse`). */
module CborSyntax {
  import opened BigEndian
  import opened Wrappers

  /** One data item: major type, number of argument bytes after the initial byte, argument, the
      content of a byte or text string, and the nested items. A map of n entries nests 2n items,
      key and value in turn; a tag nests the tagged item. */
  datatype Item = Item(major: nat, width: nat, arg: nat, data: seq<byte>, kids: seq<Item>)

  datatype Head = Head(major: nat, width: nat, arg: nat, rest: seq<byte>)

  // ---------------------------------------------------------------- heads

  predicate Fits(width: nat, arg: nat) {
    if width == 0 then arg < 24 else width in {1, 2, 4, 8} && arg < Pow256(width)
  }

  /** The narrowest width that holds `arg`; 8 also stands for arguments that fit nowhere. */
  function MinWidth(arg: nat): nat {
    if arg < 24 then 0
    else if arg < 0x100 then 1
    else if arg < 0x1_0000 then 2
    else if arg < 0x1_0000_0000 then 4
    else 8
  }

  /** The low five bits of the initial byte. */
  function Info(width: nat, arg: nat): nat {
    if width == 0 then arg
    else if width == 1 then 24
    else if width == 2 then 25
    else if width == 4 then 26
    else 27
  }

  function EmitHead(major: nat, width: nat, arg: nat): (b: seq<byte>)
    ensures |b| == 1 + width
  {
    [(32 * major + Info(width, arg)) % 256] + I2osp(arg, width)
  }

  function WidthOfInfo(info: nat): (w: Option<nat>) {
    if info < 24 then Some(0)
    else if info == 24 then Some(1)
    else if info == 25 then Some(2)
    else if info == 26 then Some(4)
    else if info == 27 then Some(8)
    else None
  }

  /** Reads a head of any width; the reserved and indefinite-length initial bytes are refused. */
  function ReadHead(b: seq<byte>): (r: Option<Head>)
    ensures r.Some? ==> |r.value.rest| < |b|
  {
    if b == [] then None else
    var w :- WidthOfInfo(b[0] % 32);
    if |b| < 1 + w then None else
    var arg := if w == 0 then b[0] % 32 else Os2ip(b[1..1 + w]);
    Some(Head(b[0] / 32, w, arg, b[1 + w..]))
  }

  lemma Pow256Values()
    ensures Pow256(1) == 0x100
    ensures Pow256(2) == 0x1_0000
    ensures Pow256(4) == 0x1_0000_0000
    ensures Pow256(8) == 0x1_0000_0000_0000_0000
  {
    assert Pow256(3) == 256 * Pow256(2);
    assert Pow256(5) == 256 * Pow256(4);
    assert Pow256(7) == 256 * Pow256(6) == 0x1_0000 * Pow256(5);
  }

  lemma FitsMinWidth(arg: nat)
    ensures Fits(MinWidth(arg), arg) <==> arg < 0x1_0000_0000_0000_0000
  {
    Pow256Values();
  }

  /** The narrowest width is at most any other that fits, and it grows with the argument. */
  lemma MinWidthLeast(width: nat, arg: nat, smaller: nat)
    requires Fits(width, arg) && smaller <= arg
    ensures MinWidth(smaller) <= MinWidth(arg) <= width
    ensures Fits(MinWidth(smaller), smaller)
  {
    Pow256Values();
  }

  /** The initial byte determines the major type and the width. */
  lemma InitialByte(major: nat, width: nat, arg: nat)
    requires major < 8 && Fits(width, arg)
    ensures
      var x := 32 * major + Info(width, arg);
      && x < 256 && x / 32 == major && x % 32 == Info(width, arg)
      && WidthOfInfo(x % 32) == Some(width)
      && (width == 0 ==> x % 32 == arg)
  {
    hide Pow256;
  }

  lemma ReadEmitHead(major: nat, width: nat, arg: nat, rest: seq<byte>)
    requires major < 8 && Fits(width, arg)
    ensures ReadHead(EmitHead(major, width, arg) + rest) == Some(Head(major, width, arg, rest))
  {
    hide Info, WidthOfInfo, Pow256, Os2ip, I2osp;
    var b := EmitHead(major, width, arg) + rest;
    InitialByte(major, width, arg);
    assert b[0] == 32 * major + Info(width, arg);
    HeadArgument(b, width, arg, rest);
  }

  lemma HeadArgument(b: seq<byte>, width: nat, arg: nat, rest: seq<byte>)
    requires Fits(width, arg)
    requires |b| == 1 + width + |rest| && b == [b[0]] + I2osp(arg, width) + rest
    ensures b[1 + width..] == rest
    ensures width != 0 ==> Os2ip(b[1..1 + width]) == arg
  {
    if width != 0 {
      assert b[1..1 + width] == I2osp(arg, width);
      Os2ipOfI2osp(arg, width);
    }
  }

  /** The converse of `InitialByte`. */
  lemma InitialByteRead(x: byte, width: nat, arg: nat)
    requires WidthOfInfo(x % 32) == Some(width)
    requires if width == 0 then arg == x % 32 else arg < Pow256(width)
    ensures x / 32 < 8 && Fits(width, arg)
    ensures 32 * (x / 32) + Info(width, arg) == x
  {
    hide Pow256;
  }

  lemma EmitReadHead(b: seq<byte>)
    requires ReadHead(b).Some?
    ensures
      var h := ReadHead(b).value;
      && h.major < 8 && Fits(h.width, h.arg)
      && EmitHead(h.major, h.width, h.arg) + h.rest == b
  {
    hide Info, WidthOfInfo, Fits, Pow256, Os2ip, I2osp;
    var h := ReadHead(b).value;
    var digits := b[1..1 + h.width];
    assert b == [b[0]] + digits + h.rest;
    I2ospOfOs2ip(digits);
    InitialByteRead(b[0], h.width, h.arg);
    assert EmitHead(h.major, h.width, h.arg) == [b[0]] + digits;
  }

  // ---------------------------------------------------------------- UTF-8

  predicate Continuation(x: byte) {
    0x80 <= x <= 0xBF
  }

  /** Well-formed UTF-8, RFC 3629 section 4. */
  predicate ValidUtf8(b: seq<byte>)
    decreases |b|
  {
    if b == [] then true
    else if b[0] < 0x80 then ValidUtf8(b[1..])
    else if 0xC2 <= b[0] <= 0xDF then
      |b| >= 2 && Continuation(b[1]) && ValidUtf8(b[2..])
    else if 0xE0 <= b[0] <= 0xEF then
      && |b| >= 3 && Continuation(b[1]) && Continuation(b[2])
      && (b[0] == 0xE0 ==> b[1] >= 0xA0) && (b[0] == 0xED ==> b[1] <= 0x9F)
      && ValidUtf8(b[3..])
    else if 0xF0 <= b[0] <= 0xF4 then
      && |b| >= 4 && Continuation(b[1]) && Continuation(b[2]) && Continuation(b[3])
      && (b[0] == 0xF0 ==> b[1] >= 0x90) && (b[0] == 0xF4 ==> b[1] <= 0x8F)
      && ValidUtf8(b[4..])
    else false
  }

  lemma {:induction false} AsciiIsUtf8(b: seq<byte>)
    requires forall i :: 0 <= i < |b| ==> b[i] < 0x80
    ensures ValidUtf8(b)
  {
    if b != [] {
      AsciiIsUtf8(b[1..]);
    }
  }

  // ---------------------------------------------------------------- items

  function DataLength(major: nat, arg: nat): nat {
    if major == 2 || major == 3 then arg else 0
  }

  function KidCount(major: nat, arg: nat): nat {
    if major == 4 then arg
    else if major == 5 then 2 * arg
    else if major == 6 then 1
    else 0
  }

  /** What the decoder checks beyond the lengths: text is UTF-8, and of major type 7 only false,
      true and null are read. */
  predicate Supported(i: Item) {
    && (i.major == 3 ==> ValidUtf8(i.data))
    && (i.major == 7 ==> i.width == 0 && i.arg in {20, 21, 22})
  }

  /** The parts of the item agree with each other, at every level. */
  predicate Shaped(i: Item) {
    && i.major < 8
    && |i.data| == DataLength(i.major, i.arg)
    && |i.kids| == KidCount(i.major, i.arg)
    && Supported(i)
    && forall k :: 0 <= k < |i.kids| ==> Shaped(i.kids[k])
  }

  /** Every argument fits its head. */
  predicate Sized(i: Item) {
    && Fits(i.width, i.arg)
    && forall k :: 0 <= k < |i.kids| ==> Sized(i.kids[k])
  }

  /** The item has an encoding. */
  predicate Valid(i: Item) {
    Shaped(i) && Sized(i)
  }

  function Emit(i: Item): (b: seq<byte>)
    ensures |b| >= 1
  {
    EmitHead(i.major, i.width, i.arg) + i.data + EmitAll(i.kids)
  }

  function EmitAll(items: seq<Item>): seq<byte> {
    if items == [] then [] else Emit(items[0]) + EmitAll(items[1..])
  }

  /** Reads one item from the front of `b` and returns it with the bytes that follow. */
  function ParseItem(b: seq<byte>): (r: Option<(Item, seq<byte>)>)
    ensures r.Some? ==> |r.value.1| < |b|
    decreases |b|, 0
  {
    var h :- ReadHead(b);
    var n := DataLength(h.major, h.arg);
    if n > |h.rest| then None else
    var (kids, rest) :- ParseItems(KidCount(h.major, h.arg), h.rest[n..]);
    var i := Item(h.major, h.width, h.arg, h.rest[..n], kids);
    if Supported(i) then Some((i, rest)) else None
  }

  function ParseItems(n: nat, b: seq<byte>): (r: Option<(seq<Item>, seq<byte>)>)
    ensures r.Some? ==> |r.value.1| <= |b|
    decreases |b|, 1
  {
    if n == 0 then Some(([], b)) else
    var (i, rest) :- ParseItem(b);
    var (items, rest') :- ParseItems(n - 1, rest);
    Some(([i] + items, rest'))
  }

  lemma Assoc(a: seq<byte>, b: seq<byte>, c: seq<byte>, d: seq<byte>)
    ensures a + b + c + d == a + (b + (c + d))
  {
  }

  lemma ValidParts(i: Item)
    ensures Valid(i) <==>
      && i.major < 8 && Fits(i.width, i.arg) && Supported(i)
      && |i.data| == DataLength(i.major, i.arg)
      && |i.kids| == KidCount(i.major, i.arg)
      && forall k :: 0 <= k < |i.kids| ==> Valid(i.kids[k])
  {
  }

  /** One step of `ParseItem`, with the head and the nested items already read. */
  lemma ParseNode(b: seq<byte>, i: Item, tail: seq<byte>, rest: seq<byte>)
    requires ReadHead(b) == Some(Head(i.major, i.width, i.arg, i.data + tail))
    requires |i.data| == DataLength(i.major, i.arg)
    requires ParseItems(KidCount(i.major, i.arg), tail) == Some((i.kids, rest))
    requires Supported(i)
    ensures ParseItem(b) == Some((i, rest))
  {
    assert (i.data + tail)[|i.data|..] == tail;
    assert (i.data + tail)[..|i.data|] == i.data;
  }

  /** Reading back what was written, whatever follows it. */
  lemma {:induction false} ParseEmit(i: Item, rest: seq<byte>)
    requires Valid(i)
    ensures ParseItem(Emit(i) + rest) == Some((i, rest))
  {
    var tail := EmitAll(i.kids) + rest;
    ValidParts(i);
    ParseEmitAll(i.kids, rest);
    ReadEmitHead(i.major, i.width, i.arg, i.data + tail);
    Assoc(EmitHead(i.major, i.width, i.arg), i.data, EmitAll(i.kids), rest);
    ParseNode(Emit(i) + rest, i, tail, rest);
  }

  lemma EmitAllCons(i: Item, items: seq<Item>)
    ensures EmitAll([i] + items) == Emit(i) + EmitAll(items)
  {
    assert ([i] + items)[1..] == items;
  }

  lemma {:induction false} ParseEmitAll(items: seq<Item>, rest: seq<byte>)
    requires forall k :: 0 <= k < |items| ==> Valid(items[k])
    ensures ParseItems(|items|, EmitAll(items) + rest) == Some((items, rest))
  {
    hide Emit, ParseItem, Valid;
    if items == [] {
      assert EmitAll(items) + rest == rest;
    } else {
      var after := EmitAll(items[1..]) + rest;
      ParseEmit(items[0], after);
      ParseEmitAll(items[1..], rest);
      assert EmitAll(items) + rest == Emit(items[0]) + after;
      assert [items[0]] + items[1..] == items;
    }
  }

  /** The converse of `ParseNode`. */
  lemma ParsedNode(b: seq<byte>)
    requires ParseItem(b).Some?
    ensures
      var (i, rest) := ParseItem(b).value;
      && ReadHead(b).Some?
      && var h := ReadHead(b).value;
      && i.major == h.major && i.width == h.width && i.arg == h.arg
      && Supported(i)
      && |i.data| == DataLength(h.major, h.arg) <= |h.rest|
      && i.data == h.rest[..|i.data|]
      && ParseItems(KidCount(h.major, h.arg), h.rest[|i.data|..]) == Some((i.kids, rest))
  {
  }

  /** Whatever is read is a valid item, and writing it gives back exactly the bytes consumed. */
  lemma {:induction false} EmitParse(b: seq<byte>)
    requires ParseItem(b).Some?
    ensures
      var (i, rest) := ParseItem(b).value;
      Valid(i) && Emit(i) + rest == b
    decreases |b|, 0
  {
    var (i, rest) := ParseItem(b).value;
    ParsedNode(b);
    EmitReadHead(b);
    var h := ReadHead(b).value;
    EmitParseAll(KidCount(h.major, h.arg), h.rest[|i.data|..]);
    ValidParts(i);
    Assoc(EmitHead(i.major, i.width, i.arg), i.data, EmitAll(i.kids), rest);
  }

  lemma {:induction false} EmitParseAll(n: nat, b: seq<byte>)
    requires ParseItems(n, b).Some?
    ensures
      var (items, rest) := ParseItems(n, b).value;
      && |items| == n
      && (forall k :: 0 <= k < n ==> Valid(items[k]))
      && EmitAll(items) + rest == b
    decreases |b|, 1
  {
    hide Emit, ParseItem, Valid;
    if n == 0 {
      assert EmitAll([]) + b == b;
    } else {
      EmitParse(b);
      var (i, middle) := ParseItem(b).value;
      EmitParseAll(n - 1, middle);
      var (items, rest) := ParseItems(n - 1, middle).value;
      EmitAllCons(i, items);
      assert (Emit(i) + EmitAll(items)) + rest == Emit(i) + middle;
    }
  }

  /** Two valid items whose bytes start the same string are the same item. */
  lemma PrefixFree(i: Item, j: Item, x: seq<byte>, y: seq<byte>)
    requires Valid(i) && Valid(j)
    requires Emit(i) + x == Emit(j) + y
    ensures i == j && x == y
  {
    ParseEmit(i, x);
    ParseEmit(j, y);
  }
}
