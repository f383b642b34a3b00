/** The key order of maps is the bytewise lexicographic order of the encoded keys, the order of
    RFC 8949 section 4.2.1. */
module EncodingOrder {
  import opened BigEndian
  import opened CborCodec
  import opened CborOrder
  import opened CborSyntax
  import opened CborValues
  import opened Lexicographic

  lemma {:induction false} DigitsOrder(a: nat, b: nat, len: nat)
    requires a < b < Pow256(len)
    ensures LexLess(I2osp(a, len), I2osp(b, len))
  {
    var p, q := I2osp(a / 256, len - 1), I2osp(b / 256, len - 1);
    if a / 256 < b / 256 {
      DigitsOrder(a / 256, b / 256, len - 1);
      LexAsymmetric(p, q);
      LexDecided(p, q, [a % 256], [b % 256]);
    } else {
      LexCommonPrefix(p, [a % 256], [b % 256]);
    }
  }

  predicate HeadBefore(m: nat, a: nat, m': nat, a': nat) {
    m < m' || (m == m' && a < a')
  }

  function MinimalHead(m: nat, a: nat): (h: seq<byte>)
    ensures |h| == 1 + MinWidth(a)
  {
    EmitHead(m, MinWidth(a), a)
  }

  lemma FirstByte(m: nat, a: nat)
    requires m < 8 && Fits(MinWidth(a), a)
    ensures MinimalHead(m, a)[0] == 32 * m + Info(MinWidth(a), a)
    ensures MinimalHead(m, a)[1..] == I2osp(a, MinWidth(a))
    ensures Info(MinWidth(a), a) < 32
  {
    hide Pow256;
    InitialByte(m, MinWidth(a), a);
  }

  lemma InfoGrows(a: nat, b: nat)
    requires a < b && Fits(MinWidth(b), b)
    ensures Info(MinWidth(a), a) <= Info(MinWidth(b), b)
    ensures Info(MinWidth(a), a) == Info(MinWidth(b), b) ==> MinWidth(a) == MinWidth(b) > 0
  {
    hide Pow256;
  }

  lemma HeadOrder(m: nat, a: nat, m': nat, a': nat, x: seq<int>, y: seq<int>)
    requires m < 8 && m' < 8 && Fits(MinWidth(a), a) && Fits(MinWidth(a'), a')
    requires HeadBefore(m, a, m', a')
    ensures LexLess(MinimalHead(m, a) + x, MinimalHead(m', a') + y)
  {
    hide MinWidth, Info, Pow256, MinimalHead;
    var h, h' := MinimalHead(m, a), MinimalHead(m', a');
    FirstByte(m, a);
    FirstByte(m', a');
    if m == m' {
      InfoGrows(a, a');
      if h[0] == h'[0] {
        DigitsOrder(a, a', MinWidth(a));
        LexAsymmetric(h[1..], h'[1..]);
        LexDecided(h[1..], h'[1..], x, y);
        assert (h + x)[1..] == h[1..] + x && (h' + y)[1..] == h'[1..] + y;
      }
    }
  }

  /** Two different items compare alike by rank and by encoding, whatever follows them. */
  lemma {:induction false} ItemOrder(i: Item, j: Item, x: seq<int>, y: seq<int>, p: seq<int>, q: seq<int>)
    requires Valid(i) && Minimal(i) && Valid(j) && Minimal(j) && i != j
    ensures LexLess(Emit(i) + x, Emit(j) + y) == LexLess(Rank(i) + p, Rank(j) + q)
  {
    hide MinWidth, LexLess, Emit, Rank, ValidUtf8, Fits;
    ValidParts(i);
    ValidParts(j);
    var hi, hj := MinimalHead(i.major, i.arg), MinimalHead(j.major, j.arg);
    var ei, ej := EmitAll(i.kids) + x, EmitAll(j.kids) + y;
    var ri, rj := Ranks(i.kids) + p, Ranks(j.kids) + q;
    Parts(i, x, p);
    Parts(j, y, q);
    if HeadBefore(i.major, i.arg, j.major, j.arg) {
      HeadOrder(i.major, i.arg, j.major, j.arg, i.data + ei, j.data + ej);
      RankHead(i.major, i.arg, j.major, j.arg, i.data + ri, j.data + rj);
    } else if HeadBefore(j.major, j.arg, i.major, i.arg) {
      HeadOrder(j.major, j.arg, i.major, i.arg, j.data + ej, i.data + ei);
      RankHead(j.major, j.arg, i.major, i.arg, j.data + rj, i.data + ri);
      LexAsymmetric(Emit(j) + y, Emit(i) + x);
      LexAsymmetric(Rank(j) + q, Rank(i) + p);
    } else {
      LexCommonPrefix(hi, i.data + ei, j.data + ej);
      LexCommonPrefix([i.major, i.arg], i.data + ri, j.data + rj);
      if i.data != j.data {
        LexDecided(i.data, j.data, ei, ej);
        LexDecided(i.data, j.data, ri, rj);
      } else {
        LexCommonPrefix(i.data, ei, ej);
        LexCommonPrefix(i.data, ri, rj);
        ListOrder(i.kids, j.kids, x, y, p, q);
      }
    }
  }

  lemma Parts(i: Item, x: seq<int>, p: seq<int>)
    requires Minimal(i)
    ensures Emit(i) + x == MinimalHead(i.major, i.arg) + (i.data + (EmitAll(i.kids) + x))
    ensures Rank(i) + p == [i.major, i.arg] + (i.data + (Ranks(i.kids) + p))
  {
    hide EmitHead, EmitAll, Ranks;
  }

  lemma RankHead(m: nat, a: nat, m': nat, a': nat, x: seq<int>, y: seq<int>)
    requires HeadBefore(m, a, m', a')
    ensures LexLess([m, a] + x, [m', a'] + y)
  {
    assert ([m, a] + x)[1..] == [a] + x && ([m', a'] + y)[1..] == [a'] + y;
  }

  lemma {:induction false} ListOrder(a: seq<Item>, b: seq<Item>, x: seq<int>, y: seq<int>, p: seq<int>, q: seq<int>)
    requires |a| == |b| && a != b
    requires forall k :: 0 <= k < |a| ==> Valid(a[k]) && Minimal(a[k])
    requires forall k :: 0 <= k < |b| ==> Valid(b[k]) && Minimal(b[k])
    ensures LexLess(EmitAll(a) + x, EmitAll(b) + y) == LexLess(Ranks(a) + p, Ranks(b) + q)
  {
    hide LexLess, Emit, Rank, Valid, Minimal;
    var ea, eb := EmitAll(a[1..]) + x, EmitAll(b[1..]) + y;
    var ra, rb := Ranks(a[1..]) + p, Ranks(b[1..]) + q;
    assert EmitAll(a) + x == Emit(a[0]) + ea && EmitAll(b) + y == Emit(b[0]) + eb;
    assert Ranks(a) + p == Rank(a[0]) + ra && Ranks(b) + q == Rank(b[0]) + rb;
    if a[0] == b[0] {
      assert a == [a[0]] + a[1..] && b == [b[0]] + b[1..];
      LexCommonPrefix(Emit(a[0]), ea, eb);
      LexCommonPrefix(Rank(a[0]), ra, rb);
      ListOrder(a[1..], b[1..], x, y, p, q);
    } else {
      ItemOrder(a[0], b[0], ea, eb, ra, rb);
    }
  }

  /** On encodable values the key order is the bytewise order of the encodings. */
  lemma LessIsBytewise(a: CborValue, b: CborValue)
    requires Proper(a) && Proper(b) && Encodable(a) && Encodable(b)
    ensures Less(a, b) <==> LexLess(Emit(ItemOf(a)), Emit(ItemOf(b)))
  {
    hide Proper, Shaped, Sized, Minimal, Emit, Rank, ItemOf;
    var i, j := ItemOf(a), ItemOf(b);
    ItemOfShape(a);
    ItemOfShape(b);
    ItemOfMinimal(a);
    ItemOfMinimal(b);
    if i == j {
      LexIrreflexive(Emit(i));
      LexIrreflexive(Rank(i));
    } else {
      ItemOrder(i, j, [], [], [], []);
      assert Emit(i) + [] == Emit(i) && Emit(j) + [] == Emit(j);
      assert Rank(i) + [] == Rank(i) && Rank(j) + [] == Rank(j);
    }
  }
}
