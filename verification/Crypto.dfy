/** The crate's cryptographic interfaces and the fixed-width packing of ECDSA signatures
    (src/crypto/mod.rs). The primitives themselves are function values; what is assumed of them is
    stated by predicates. */
module Crypto {
  import opened BigEndian
  import opened CborCodec
  import opened CborOrder
  import opened CborSyntax
  import opened CborValues
  import opened HeaderMaps
  import opened Wrappers

  datatype MessageDigest = Sha256 | Sha384 | Sha512

  datatype SignatureAlgorithm = ES256 | ES384 | ES512 {
    /** The COSE identifier, an `i8`. */
    function Id(): (id: int)
      ensures -128 <= id < 128
    {
      match this
      case ES256 => -7
      case ES384 => -35
      case ES512 => -36
    }

    function KeyLength(): nat {
      match this
      case ES256 => 32
      case ES384 => 48
      case ES512 => 66
    }

    function SuggestedMessageDigest(): MessageDigest {
      match this
      case ES256 => Sha256
      case ES384 => Sha384
      case ES512 => Sha512
    }
  }

  /** The algorithm header parameter, label 1 of RFC 8152 section 3.1. */
  const ALG_LABEL: Value := Integer(1)

  /** The header map with one entry. */
  function Singleton(key: Value, value: Value): Header {
    var es := [Entry(key, value)];
    assert Ordered(es);
    es
  }

  function AlgorithmHeader(alg: SignatureAlgorithm): Header {
    Singleton(ALG_LABEL, Integer(alg.Id()))
  }

  lemma SingletonLayout(k: Value, v: Value)
    ensures Emit(ItemOf(Map(Singleton(k, v)))) == [0xA1] + Emit(ItemOf(k)) + Emit(ItemOf(v))
  {
    hide ItemOf, Emit;
    var key, value := ItemOf(k), ItemOf(v);
    var h := Singleton(k, v);
    MapLayout(h);
    assert EntryItems(h) == [key] + [value] by {
      assert h[1..] == [];
    }
    EmitAllCons(key, [value]);
    EmitAllCons(value, []);
    assert [value] + [] == [value];
    LabelBytes();
  }

  lemma AlgorithmHeaderLayout(v: Value)
    ensures Emit(ItemOf(Map(Singleton(ALG_LABEL, v)))) == [0xA1] + [0x01] + Emit(ItemOf(v))
  {
    hide Emit, ItemOf;
    SingletonLayout(ALG_LABEL, v);
    LabelBytes();
  }

  lemma LabelBytes()
    ensures Emit(ItemOf(ALG_LABEL)) == [0x01]
    ensures EmitHead(5, MinWidth(1), 1) == [0xA1]
  {
  }

  /** An encodable integer in the algorithm parameter is read back exactly; in particular every
      `i8` identifier, widened to a CBOR integer. */
  lemma AlgorithmIdPath(n: int)
    requires -0x1_0000_0000_0000_0000 <= n < 0x1_0000_0000_0000_0000
    ensures
      var h := Singleton(ALG_LABEL, Integer(n));
      && EmptyOrSerialized(h).Success?
      && FromBytes(EmptyOrSerialized(h).value) == Success(h)
      && forall m :: Lookup(h, ALG_LABEL) == Some(Integer(m)) <==> m == n
  {
    hide FromBytes, Encodable;
    var h := Singleton(ALG_LABEL, Integer(n));
    EncodableRange(Map(h));
    EncodableRange(h[0].key);
    EncodableRange(h[0].value);
    HeaderRoundTrip(h);
  }

  /** `From<SignatureAlgorithm> for HeaderMap`. */
  method HeaderFromAlgorithm(alg: SignatureAlgorithm) returns (header: HeaderMap)
    ensures fresh(header)
    ensures header.entries == AlgorithmHeader(alg)
  {
    header := new HeaderMap();
    var _ := header.Insert(ALG_LABEL, Integer(alg.Id()));
  }

  /** A hash function: digest algorithm and data. */
  type Hash = (MessageDigest, seq<byte>) -> Result<seq<byte>>

  /** A signing key behind the `SigningPublicKey` and `SigningPrivateKey` traits. The second
      argument of `sign` stands for the signer's randomness. */
  datatype SigningKey = SigningKey(
    parameters: Result<(SignatureAlgorithm, MessageDigest)>,
    sign: (seq<byte>, nat) -> Result<seq<byte>>,
    verify: (seq<byte>, seq<byte>) -> Result<bool>)

  /** Correctness of a signature scheme: the public key accepts what the private key signs. */
  ghost predicate KeyPair(private: SigningKey, public: SigningKey) {
    && private.parameters == public.parameters
    && forall digest: seq<byte>, nonce: nat :: private.sign(digest, nonce).Success? ==>
         public.verify(digest, private.sign(digest, nonce).value) == Success(true)
  }

  // ---------------------------------------------------------------- signature packing

  function PadTo(b: seq<byte>, n: nat): (p: seq<byte>)
    requires |b| <= n
    ensures |p| == n
  {
    Zeros(n - |b|) + b
  }

  function SplitAt(b: seq<byte>, n: nat): Result<(seq<byte>, seq<byte>)> {
    if |b| < n then Panic else Success((b[..n], b[n..]))
  }

  function Overwrite(b: seq<byte>, offset: nat, src: seq<byte>): (r: seq<byte>)
    requires offset + |src| <= |b|
    ensures |r| == |b|
  {
    b[..offset] + src + b[offset + |src|..]
  }

  method CopyFromSlice(dst: array<byte>, offset: nat, src: seq<byte>)
    requires offset + |src| <= dst.Length
    modifies dst
    ensures dst[..] == Overwrite(old(dst[..]), offset, src)
  {
    forall i | 0 <= i < |src| {
      dst[offset + i] := src[i];
    }
  }

  /** The two copies leave exactly both parts padded to the key length. */
  lemma BothCopied(bytesR: seq<byte>, bytesS: seq<byte>, n: nat)
    requires |bytesR| <= n && |bytesS| <= n
    ensures
      var first := Overwrite(Zeros(2 * n), n - |bytesR|, bytesR);
      Overwrite(first, n - |bytesS| + n, bytesS) == PadTo(bytesR, n) + PadTo(bytesS, n)
  {
    assert Overwrite(Zeros(2 * n), n - |bytesR|, bytesR) == PadTo(bytesR, n) + Zeros(n);
    var second := PadTo(bytesR, n) + Zeros(n);
    assert second[..n - |bytesS| + n] == PadTo(bytesR, n) + Zeros(n - |bytesS|);
  }

  /** The in-place fill of the signature buffer. The two assertions of the source are its
      precondition. The result is I2OSP(R, n) followed by I2OSP(S, n). */
  method MergeEcSignature(bytesR: seq<byte>, bytesS: seq<byte>, keyLength: nat)
    returns (signatureBytes: array<byte>)
    requires |bytesR| <= keyLength && |bytesS| <= keyLength
    ensures fresh(signatureBytes)
    ensures signatureBytes[..] == I2osp(Os2ip(bytesR), keyLength) + I2osp(Os2ip(bytesS), keyLength)
  {
    hide Overwrite, Os2ip, I2osp, Pow256;
    signatureBytes := new byte[keyLength * 2](_ => 0);
    assert signatureBytes[..] == Zeros(2 * keyLength);

    var offsetCopy := keyLength - |bytesR|;
    CopyFromSlice(signatureBytes, offsetCopy, bytesR);

    offsetCopy := keyLength - |bytesS| + keyLength;
    CopyFromSlice(signatureBytes, offsetCopy, bytesS);

    BothCopied(bytesR, bytesS, keyLength);
    PaddingIsI2osp(bytesR, keyLength);
    PaddingIsI2osp(bytesS, keyLength);
  }

  /** The value of a merge: the assertions panic when a part is too long. */
  function Merged(bytesR: seq<byte>, bytesS: seq<byte>, keyLength: nat): Result<seq<byte>> {
    if |bytesR| <= keyLength && |bytesS| <= keyLength then
      Success(PadTo(bytesR, keyLength) + PadTo(bytesS, keyLength))
    else
      Panic
  }

  /** Packing is I2OSP of both integers, and splitting at n and reading big-endian recovers both. */
  lemma MergedRoundTrip(bytesR: seq<byte>, bytesS: seq<byte>, n: nat)
    requires |bytesR| <= n && |bytesS| <= n
    ensures
      var m := Merged(bytesR, bytesS, n);
      && m == Success(I2osp(Os2ip(bytesR), n) + I2osp(Os2ip(bytesS), n))
      && |m.value| == 2 * n
      && SplitAt(m.value, n).Success?
      && Os2ip(SplitAt(m.value, n).value.0) == Os2ip(bytesR)
      && Os2ip(SplitAt(m.value, n).value.1) == Os2ip(bytesS)
  {
    hide Os2ip, I2osp, Pow256;
    PaddingIsI2osp(bytesR, n);
    PaddingIsI2osp(bytesS, n);
    Os2ipOfI2osp(Os2ip(bytesR), n);
    Os2ipOfI2osp(Os2ip(bytesS), n);
    var m := PadTo(bytesR, n) + PadTo(bytesS, n);
    assert m[..n] == PadTo(bytesR, n) && m[n..] == PadTo(bytesS, n);
  }

  /** The exact outcome of packing two integers: I2OSP of both, or a failed assertion when one of them
      does not fit. */
  lemma PackingOutcome(r: nat, s: nat, n: nat)
    ensures Merged(ShortestBytes(r), ShortestBytes(s), n) ==
      if r < Pow256(n) && s < Pow256(n) then Success(I2osp(r, n) + I2osp(s, n)) else Panic
  {
    hide Pow256, Os2ip, I2osp, ShortestBytes;
    ShortestBytesFit(r, n);
    ShortestBytesFit(s, n);
    if r < Pow256(n) && s < Pow256(n) {
      MergedRoundTrip(ShortestBytes(r), ShortestBytes(s), n);
    }
  }

  /** The signature is I2OSP(r, n) followed by s in the bytes that remain. */
  predicate Packs(signature: seq<byte>, n: nat, r: nat, s: nat) {
    && n <= |signature|
    && r < Pow256(n) && s < Pow256(|signature| - n)
    && signature == I2osp(r, n) + I2osp(s, |signature| - n)
  }

  /** Every signature of at least n bytes packs exactly one pair of integers, which splitting at n and
      reading big-endian gives. */
  lemma SplitIsUnpacking(signature: seq<byte>, n: nat, r: nat, s: nat)
    requires n <= |signature|
    ensures Packs(signature, n, r, s) <==> r == Os2ip(signature[..n]) && s == Os2ip(signature[n..])
  {
    hide Pow256, Os2ip, I2osp;
    var a, b := signature[..n], signature[n..];
    assert signature == a + b;
    I2ospOfOs2ip(a);
    I2ospOfOs2ip(b);
    if Packs(signature, n, r, s) {
      var x, y := I2osp(r, n), I2osp(s, |signature| - n);
      assert (x + y)[..n] == x && (x + y)[n..] == y;
      Os2ipOfI2osp(r, n);
      Os2ipOfI2osp(s, |signature| - n);
    }
  }

  /** Leading zeros of either part, within the width, change nothing. */
  lemma MergeIgnoresLeadingZeros(bytesR: seq<byte>, bytesS: seq<byte>, j: nat, k: nat, n: nat)
    requires j + |bytesR| <= n && k + |bytesS| <= n
    ensures Merged(Zeros(j) + bytesR, Zeros(k) + bytesS, n) == Merged(bytesR, bytesS, n)
  {
    hide Os2ip, I2osp, Pow256;
    MergedRoundTrip(bytesR, bytesS, n);
    MergedRoundTrip(Zeros(j) + bytesR, Zeros(k) + bytesS, n);
    LeadingZeros(j, bytesR);
    LeadingZeros(k, bytesS);
  }

  // ---------------------------------------------------------------- curve widths

  function Pow2(n: nat): (r: nat)
    ensures r > 0
  {
    if n == 0 then 1 else 2 * Pow2(n - 1)
  }

  function CurveBits(alg: SignatureAlgorithm): nat {
    match alg
    case ES256 => 256
    case ES384 => 384
    case ES512 => 521
  }

  lemma {:induction false} Pow2OfBytes(n: nat)
    ensures Pow2(8 * n) == Pow256(n)
  {
    if n > 0 {
      Pow2OfBytes(n - 1);
      var m := 8 * (n - 1);
      assert Pow2(m + 4) == 2 * Pow2(m + 3) == 4 * Pow2(m + 2) == 8 * Pow2(m + 1) == 16 * Pow2(m);
      assert Pow2(m + 8) == 2 * Pow2(m + 7) == 4 * Pow2(m + 6) == 8 * Pow2(m + 5) == 16 * Pow2(m + 4);
    }
  }

  lemma {:induction false} Pow2Grows(m: nat, n: nat)
    requires m <= n
    ensures Pow2(m) <= Pow2(n)
  {
    if m < n {
      Pow2Grows(m, n - 1);
    }
  }

  /** For integers below 2^b, b the size of the curve, the shortest forms fit the key length, which
      is b/8 rounded up: the assertions of the merge never fail. */
  lemma PackingNeverAsserts(alg: SignatureAlgorithm, r: nat, s: nat)
    requires r < Pow2(CurveBits(alg)) && s < Pow2(CurveBits(alg))
    ensures alg.KeyLength() == (CurveBits(alg) + 7) / 8
    ensures
      var n := alg.KeyLength();
      && r < Pow256(n) && s < Pow256(n)
      && Merged(ShortestBytes(r), ShortestBytes(s), n) == Success(I2osp(r, n) + I2osp(s, n))
  {
    hide Pow2, Pow256, I2osp, ShortestBytes, Merged;
    var n := alg.KeyLength();
    Pow2OfBytes(n);
    Pow2Grows(CurveBits(alg), 8 * n);
    PackingOutcome(r, s, n);
  }

  /** The key length is the least width with that property: the largest integer below 2^b needs all
      of it, and one byte less would fail the assertion. */
  lemma KeyLengthIsLeast(alg: SignatureAlgorithm)
    ensures
      var r := Pow2(CurveBits(alg)) - 1;
      var n := alg.KeyLength();
      |ShortestBytes(r)| == n && Merged(ShortestBytes(r), [], n - 1) == Panic
  {
    hide Pow2, Pow256, Os2ip, I2osp, ShortestBytes;
    var n, b := alg.KeyLength(), CurveBits(alg);
    var r := Pow2(b) - 1;
    Pow2OfBytes(n);
    Pow2OfBytes(n - 1);
    Pow2Grows(b, 8 * n);
    Pow2Grows(8 * (n - 1) + 1, b);
    Pow2Doubles(8 * (n - 1));
    ShortestBytesFit(r, n);
    ShortestBytesFit(r, n - 1);
  }

  lemma Pow2Doubles(n: nat)
    ensures Pow2(n + 1) == 2 * Pow2(n) > Pow2(n)
  {
  }
}
