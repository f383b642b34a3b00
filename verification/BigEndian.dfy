/** Octet strings and their big-endian integers: I2OSP and OS2IP of RFC 8017, sections 4.1 and 4.2. */
module BigEndian {

  type byte = x: int | 0 <= x < 256

  function Pow256(n: nat): (r: nat)
    ensures r > 0
  {
    if n == 0 then 1 else 256 * Pow256(n - 1)
  }

  /** OS2IP: the integer whose base-256 digits, most significant first, are `b`. */
  function Os2ip(b: seq<byte>): nat {
    if b == [] then 0 else 256 * Os2ip(b[..|b| - 1]) + b[|b| - 1]
  }

  /** I2OSP: the `len` low-order base-256 digits of `n`, most significant first. */
  function I2osp(n: nat, len: nat): (b: seq<byte>)
    ensures |b| == len
  {
    if len == 0 then [] else I2osp(n / 256, len - 1) + [n % 256]
  }

  /** The shortest big-endian form, without leading zeros; zero is the empty string. */
  function ShortestBytes(n: nat): seq<byte> {
    if n == 0 then [] else ShortestBytes(n / 256) + [n % 256]
  }

  function Zeros(n: nat): (b: seq<byte>)
    ensures |b| == n
    ensures forall i :: 0 <= i < n ==> b[i] == 0
  {
    seq(n, _ => 0)
  }

  lemma {:induction false} Os2ipOfI2osp(n: nat, len: nat)
    requires n < Pow256(len)
    ensures Os2ip(I2osp(n, len)) == n
  {
    if len > 0 {
      Os2ipOfI2osp(n / 256, len - 1);
      assert I2osp(n, len)[..len - 1] == I2osp(n / 256, len - 1);
    }
  }

  lemma {:induction false} I2ospOfOs2ip(b: seq<byte>)
    ensures Os2ip(b) < Pow256(|b|)
    ensures I2osp(Os2ip(b), |b|) == b
  {
    if b != [] {
      I2ospOfOs2ip(b[..|b| - 1]);
      assert b == b[..|b| - 1] + [b[|b| - 1]];
    }
  }

  lemma {:induction false} ShortestBytesFit(n: nat, len: nat)
    ensures |ShortestBytes(n)| <= len <==> n < Pow256(len)
    ensures Os2ip(ShortestBytes(n)) == n
    decreases n
  {
    if n != 0 {
      ShortestBytesFit(n / 256, if len == 0 then 0 else len - 1);
      assert ShortestBytes(n)[..|ShortestBytes(n)| - 1] == ShortestBytes(n / 256);
    }
  }

  lemma {:induction false} I2ospOfZero(len: nat)
    ensures I2osp(0, len) == Zeros(len)
  {
    if len > 0 {
      I2ospOfZero(len - 1);
      assert Zeros(len) == Zeros(len - 1) + [0];
    }
  }

  /** Padding on the left with zeros is I2OSP of the integer read. */
  lemma {:induction false} PaddingIsI2osp(b: seq<byte>, len: nat)
    requires |b| <= len
    ensures Zeros(len - |b|) + b == I2osp(Os2ip(b), len)
    ensures Os2ip(b) < Pow256(len)
  {
    if b == [] {
      I2ospOfZero(len);
      assert Zeros(len) + [] == Zeros(len);
    } else {
      var front, last := b[..|b| - 1], b[|b| - 1];
      PaddingIsI2osp(front, len - 1);
      assert Zeros(len - |b|) + b == (Zeros(len - |b|) + front) + [last];
      assert Os2ip(b) / 256 == Os2ip(front) && Os2ip(b) % 256 == last;
    }
  }

  /** Leading zeros do not change the integer. */
  lemma LeadingZeros(k: nat, b: seq<byte>)
    ensures Os2ip(Zeros(k) + b) == Os2ip(b)
  {
    PaddingIsI2osp(b, k + |b|);
    Os2ipOfI2osp(Os2ip(b), k + |b|);
  }
}
