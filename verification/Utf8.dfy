/** Well-formed UTF-8 (RFC 3629, section 4), which decides whether a byte field becomes a string. */
module Utf8 {
  import opened Bytes

  predicate Tail(b: byte) {
    0x80 <= b <= 0xBF
  }

  /** The length of the one well-formed character that s starts with, or 0 when there is none. */
  function CharLength(s: seq<byte>): (n: nat)
    requires s != []
    ensures n <= |s|
  {
    var a := s[0];
    if a <= 0x7F then 1
    else if 0xC2 <= a <= 0xDF && |s| >= 2 && Tail(s[1]) then 2
    else if 0xE0 <= a <= 0xEF && |s| >= 3 && SecondOfThree(a, s[1]) && Tail(s[2]) then 3
    else if 0xF0 <= a <= 0xF4 && |s| >= 4 && SecondOfFour(a, s[1]) && Tail(s[2]) && Tail(s[3]) then 4
    else 0
  }

  predicate SecondOfThree(a: byte, b: byte) {
    (if a == 0xE0 then 0xA0 else 0x80) <= b <= (if a == 0xED then 0x9F else 0xBF)
  }

  predicate SecondOfFour(a: byte, b: byte) {
    (if a == 0xF0 then 0x90 else 0x80) <= b <= (if a == 0xF4 then 0x8F else 0xBF)
  }

  predicate Valid(s: seq<byte>)
    decreases |s|
  {
    s == [] || (CharLength(s) > 0 && Valid(s[CharLength(s)..]))
  }

  // ------------------------------------------------- the reference definition

  /** Unicode scalar values: code points that are not surrogates. */
  type Scalar = c: int | 0 <= c < 0xD800 || 0xE000 <= c < 0x110000

  /** The encoding of one scalar value (RFC 3629, section 3). */
  function EncodeScalar(c: Scalar): (s: seq<byte>)
    ensures 1 <= |s| <= 4
  {
    if c < 0x80 then [c]
    else if c < 0x800 then [0xC0 + c / 64, 0x80 + c % 64]
    else if c < 0x10000 then [0xE0 + c / 4096, 0x80 + c / 64 % 64, 0x80 + c % 64]
    else [0xF0 + c / 262144, 0x80 + c / 4096 % 64, 0x80 + c / 64 % 64, 0x80 + c % 64]
  }

  function Encode(cs: seq<Scalar>): seq<byte> {
    if cs == [] then [] else EncodeScalar(cs[0]) + Encode(cs[1..])
  }

  lemma ScalarIsChar(c: Scalar, rest: seq<byte>)
    ensures CharLength(EncodeScalar(c) + rest) == |EncodeScalar(c)|
  {
  }

  lemma LastSix(q: nat, r: nat)
    requires r < 64
    ensures (64 * q + r) / 64 == q && (64 * q + r) % 64 == r
  {
  }

  lemma SixByEach(c: nat)
    ensures c / 4096 == c / 64 / 64 && c / 262144 == c / 64 / 64 / 64
  {
  }

  lemma TwoBytes(a: nat, b: nat) returns (c: Scalar)
    requires 0xC2 <= a <= 0xDF && 0x80 <= b <= 0xBF
    ensures EncodeScalar(c) == [a, b]
  {
    c := 64 * (a - 0xC0) + (b - 0x80);
    LastSix(a - 0xC0, b - 0x80);
  }

  lemma ThreeBytes(a: byte, b: byte, d: byte) returns (c: Scalar)
    requires 0xE0 <= a <= 0xEF && SecondOfThree(a, b) && Tail(d)
    ensures EncodeScalar(c) == [a, b, d]
  {
    var x, y, z := a as int - 0xE0, b as int - 0x80, d as int - 0x80;
    LastSix(x, y);
    LastSix(64 * x + y, z);
    c := 64 * (64 * x + y) + z;
    SixByEach(c);
  }

  lemma FourBytes(a: byte, b: byte, d: byte, e: byte) returns (c: Scalar)
    requires 0xF0 <= a <= 0xF4 && SecondOfFour(a, b) && Tail(d) && Tail(e)
    ensures EncodeScalar(c) == [a, b, d, e]
  {
    var w, x, y, z := a as int - 0xF0, b as int - 0x80, d as int - 0x80, e as int - 0x80;
    LastSix(w, x);
    LastSix(64 * w + x, y);
    LastSix(64 * (64 * w + x) + y, z);
    c := 64 * (64 * (64 * w + x) + y) + z;
    SixByEach(c);
  }

  lemma CharIsScalar(s: seq<byte>) returns (c: Scalar)
    requires s != [] && CharLength(s) > 0
    ensures s[..CharLength(s)] == EncodeScalar(c)
  {
    var n := CharLength(s);
    if n == 1 {
      c := s[0];
    } else if n == 2 {
      c := TwoBytes(s[0], s[1]);
    } else if n == 3 {
      c := ThreeBytes(s[0], s[1], s[2]);
    } else {
      c := FourBytes(s[0], s[1], s[2], s[3]);
    }
  }

  lemma {:induction false} EncodedIsValid(cs: seq<Scalar>)
    ensures Valid(Encode(cs))
  {
    if cs != [] {
      EncodedIsValid(cs[1..]);
      var first, rest := EncodeScalar(cs[0]), Encode(cs[1..]);
      ScalarIsChar(cs[0], rest);
      assert (first + rest)[|first|..] == rest;
    }
  }

  lemma {:induction false} ValidIsEncoded(s: seq<byte>) returns (cs: seq<Scalar>)
    requires Valid(s)
    ensures s == Encode(cs)
    decreases |s|
  {
    cs := [];
    if s != [] {
      var n := CharLength(s);
      var c := CharIsScalar(s);
      var rest := ValidIsEncoded(s[n..]);
      cs := [c] + rest;
      assert cs[1..] == rest && s == s[..n] + s[n..];
    }
  }

  /** The well-formed byte strings are exactly the encodings of sequences of scalar values. */
  lemma ValidExactly(s: seq<byte>)
    ensures Valid(s) <==> exists cs :: s == Encode(cs)
  {
    if Valid(s) {
      var cs := ValidIsEncoded(s);
    }
    if cs :| s == Encode(cs) {
      EncodedIsValid(cs);
    }
  }
}
