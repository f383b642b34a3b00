/** UTF-8 from the side of the characters: Unicode scalar values and their octets, RFC 3629
    section 3. */
module Utf8Scalars {
  import opened BigEndian
  import opened CborSyntax

  /** A code point that is not a surrogate. */
  type Scalar = c: int | 0 <= c < 0xD800 || 0xE000 <= c < 0x11_0000

  function Octets(c: Scalar): seq<byte> {
    if c < 0x80 then [c]
    else if c < 0x800 then [0xC0 + c / 0x40, 0x80 + c % 0x40]
    else if c < 0x1_0000 then [0xE0 + c / 0x1000, 0x80 + c / 0x40 % 0x40, 0x80 + c % 0x40]
    else [0xF0 + c / 0x4_0000, 0x80 + c / 0x1000 % 0x40, 0x80 + c / 0x40 % 0x40, 0x80 + c % 0x40]
  }

  function Utf8Of(cs: seq<Scalar>): seq<byte> {
    if cs == [] then [] else Octets(cs[0]) + Utf8Of(cs[1..])
  }

  lemma OneMore(c: Scalar, rest: seq<byte>)
    ensures ValidUtf8(Octets(c) + rest) <==> ValidUtf8(rest)
  {
    var b := Octets(c) + rest;
    assert b[|Octets(c)|..] == rest;
  }

  lemma {:induction false} ScalarsAreValid(cs: seq<Scalar>)
    ensures ValidUtf8(Utf8Of(cs))
  {
    if cs != [] {
      ScalarsAreValid(cs[1..]);
      OneMore(cs[0], Utf8Of(cs[1..]));
    }
  }

  lemma TwoOctets(x: int, y: int) returns (c: Scalar)
    requires 0xC2 <= x <= 0xDF && 0x80 <= y <= 0xBF
    ensures Octets(c) == [x, y]
  {
    c := (x - 0xC0) * 0x40 + (y - 0x80);
  }

  lemma ThreeOctets(x: int, y: int, z: int) returns (c: Scalar)
    requires 0xE0 <= x <= 0xEF && 0x80 <= y <= 0xBF && 0x80 <= z <= 0xBF
    requires (x == 0xE0 ==> y >= 0xA0) && (x == 0xED ==> y <= 0x9F)
    ensures Octets(c) == [x, y, z]
  {
    c := (x - 0xE0) * 0x1000 + (y - 0x80) * 0x40 + (z - 0x80);
    assert c / 0x40 == (x - 0xE0) * 0x40 + (y - 0x80);
  }

  lemma FourOctets(x: int, y: int, z: int, w: int) returns (c: Scalar)
    requires 0xF0 <= x <= 0xF4 && 0x80 <= y <= 0xBF && 0x80 <= z <= 0xBF && 0x80 <= w <= 0xBF
    requires (x == 0xF0 ==> y >= 0x90) && (x == 0xF4 ==> y <= 0x8F)
    ensures Octets(c) == [x, y, z, w]
  {
    c := (x - 0xF0) * 0x4_0000 + (y - 0x80) * 0x1000 + (z - 0x80) * 0x40 + (w - 0x80);
    assert c / 0x40 == (x - 0xF0) * 0x1000 + (y - 0x80) * 0x40 + (z - 0x80);
    assert c / 0x1000 == (x - 0xF0) * 0x40 + (y - 0x80);
  }

  /** The scalar value at the front of a well-formed string. */
  lemma FirstScalar(b: seq<byte>) returns (c: Scalar)
    requires b != [] && ValidUtf8(b)
    ensures |Octets(c)| <= |b| && b[..|Octets(c)|] == Octets(c)
    ensures ValidUtf8(b[|Octets(c)|..])
  {
    if b[0] < 0x80 {
      c := b[0];
    } else {
      hide Octets;
      if b[0] <= 0xDF {
        c := TwoOctets(b[0], b[1]);
      } else if b[0] <= 0xEF {
        c := ThreeOctets(b[0], b[1], b[2]);
      } else {
        c := FourOctets(b[0], b[1], b[2], b[3]);
      }
    }
  }

  lemma {:induction false} ValidHasScalars(b: seq<byte>) returns (cs: seq<Scalar>)
    requires ValidUtf8(b)
    ensures Utf8Of(cs) == b
    decreases |b|
  {
    if b == [] {
      cs := [];
    } else {
      var c := FirstScalar(b);
      var tail := ValidHasScalars(b[|Octets(c)|..]);
      cs := [c] + tail;
      assert cs[1..] == tail;
      assert b == b[..|Octets(c)|] + b[|Octets(c)|..];
    }
  }

  /** Text is accepted exactly when it is the UTF-8 form of a sequence of scalar values. */
  lemma ValidUtf8Exactly(b: seq<byte>)
    ensures ValidUtf8(b) <==> exists cs: seq<Scalar> :: Utf8Of(cs) == b
  {
    if ValidUtf8(b) {
      var cs := ValidHasScalars(b);
    }
    if cs: seq<Scalar> :| Utf8Of(cs) == b {
      ScalarsAreValid(cs);
    }
  }
}
