/** The streaming interfaces that the hand-written serializers and visitors use. */
module Serde {
  import opened BigEndian
  import opened CborCodec
  import opened CborSyntax
  import opened CborValues
  import opened Wrappers

  /** `SerializeSeq` over a byte vector: the array head is written first, then one element at a
      time. */
  class SeqSerializer {
    const length: nat
    var out: seq<byte>
    ghost var written: seq<CborValue>

    ghost predicate Valid()
      reads this
    {
      && |written| <= length
      && out == EmitHead(4, MinWidth(length), length) + EmitAll(ItemsOf(written))
      && forall k :: 0 <= k < |written| ==> Encodable(written[k])
    }

    constructor (length: nat)
      ensures Valid() && this.length == length && written == []
    {
      this.length := length;
      out := EmitHead(4, MinWidth(length), length);
      written := [];
      new;
      assert EmitAll(ItemsOf([])) == [];
    }

    /** Returns false, as the source returns an error, on a value without encoding. */
    method SerializeElement(v: CborValue) returns (ok: bool)
      requires Valid() && |written| < length
      modifies this
      ensures ok == Encodable(v)
      ensures ok ==> Valid() && written == old(written) + [v]
    {
      var bytes := ToVec(v);
      if bytes.Failure? {
        return false;
      }
      EmitAllSnoc(written, v);
      out := out + bytes.value;
      written := written + [v];
      ok := true;
    }

    method End() returns (bytes: seq<byte>)
      requires Valid() && |written| == length
      ensures bytes == Emit(ItemOf(Array(written)))
      ensures length < 0x1_0000_0000_0000_0000 ==> ToVec(Array(written)) == Success(bytes)
    {
      EncodableRange(Array(written));
      assert EmitHead(4, MinWidth(length), length) + [] == EmitHead(4, MinWidth(length), length);
      bytes := out;
    }
  }

  lemma {:induction false} EmitAllSnoc(vs: seq<CborValue>, v: CborValue)
    ensures EmitAll(ItemsOf(vs + [v])) == EmitAll(ItemsOf(vs)) + Emit(ItemOf(v))
  {
    hide Emit, ItemOf;
    if vs == [] {
      assert vs + [v] == [v];
      assert EmitAll(ItemsOf([v])) == Emit(ItemOf(v)) + EmitAll([]);
    } else {
      var tail := vs[1..] + [v];
      assert vs + [v] == [vs[0]] + tail;
      assert ItemsOf([vs[0]] + tail) == [ItemOf(vs[0])] + ItemsOf(tail) by {
        assert ([vs[0]] + tail)[1..] == tail;
      }
      EmitAllCons(ItemOf(vs[0]), ItemsOf(tail));
      EmitAllSnoc(vs[1..], v);
    }
  }

  /** `SeqAccess` over the items of an array. */
  class SeqAccess {
    var rest: seq<Item>

    constructor (items: seq<Item>)
      ensures rest == items
    {
      rest := items;
    }

    method NextElement() returns (e: Option<Item>)
      modifies this
      ensures old(rest) == [] ==> e == None && rest == []
      ensures old(rest) != [] ==> e == Some(old(rest)[0]) && rest == old(rest)[1..]
    {
      if rest == [] {
        return None;
      }
      e := Some(rest[0]);
      rest := rest[1..];
    }
  }

  /** A `ByteBuf` field, read from a CBOR byte string. Other items that `serde_bytes` would turn into
      bytes are refused here. */
  function BytesOfItem(i: Item): Option<seq<byte>> {
    if i.major == 2 then Some(i.data) else None
  }
}
