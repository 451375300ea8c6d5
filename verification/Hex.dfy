/** Text forms of bytes and numbers: hexadecimal (either case on input) and decimal. */
module Hex {
  import opened AsciiCase
  import opened Bytes

  const DIGITS := "0123456789abcdef"

  function DigitValue(c: char): (v: Option<nat>)
    ensures v.Some? ==> v.value < 16
  {
    if '0' <= c <= '9' then Some(c as int - '0' as int)
    else if 'a' <= c <= 'f' then Some(c as int - 'a' as int + 10)
    else if 'A' <= c <= 'F' then Some(c as int - 'A' as int + 10)
    else None
  }

  function Encode(b: seq<byte>): (s: string)
    ensures |s| == 2 * |b|
  {
    if b == [] then "" else [DIGITS[b[0] / 16], DIGITS[b[0] % 16]] + Encode(b[1..])
  }

  /** Two digits a byte, the high one first. */
  lemma {:induction false} EncodeAt(b: seq<byte>, i: nat)
    requires i < |b|
    ensures Encode(b)[2 * i] == "0123456789abcdef"[b[i] / 16]
    ensures Encode(b)[2 * i + 1] == "0123456789abcdef"[b[i] % 16]
  {
    if i > 0 {
      EncodeAt(b[1..], i - 1);
    }
  }

  /** None for an odd length or a character that is not a hexadecimal digit. */
  function Decode(s: string): Option<seq<byte>> {
    if s == "" then Some([])
    else if |s| == 1 then None
    else
      match (DigitValue(s[0]), DigitValue(s[1]), Decode(s[2..]))
      case (Some(hi), Some(lo), Some(rest)) => Some([16 * hi + lo] + rest)
      case _ => None
  }

  lemma DigitSpelling(c: char, v: nat)
    requires v < 16
    ensures DigitValue(c) == Some(v) <==> LowerChar(c) == DIGITS[v]
  {
  }

  lemma DecodeStep(s: string, b: seq<byte>)
    requires |s| >= 2 && b != []
    ensures Decode(s) == Some(b) <==>
            DigitValue(s[0]) == Some(b[0] / 16) && DigitValue(s[1]) == Some(b[0] % 16) && Decode(s[2..]) == Some(b[1..])
  {
    assert b == [b[0]] + b[1..];
    if Decode(s).Some? {
      var d := Decode(s).value;
      assert d == [d[0]] + d[1..] && d[1..] == Decode(s[2..]).value;
    }
  }

  lemma SpellingStep(s: string, b: seq<byte>)
    requires |s| >= 2 && b != []
    ensures Lower(s) == Encode(b) <==>
            LowerChar(s[0]) == DIGITS[b[0] / 16] && LowerChar(s[1]) == DIGITS[b[0] % 16] && Lower(s[2..]) == Encode(b[1..])
  {
    assert Lower(s) == [LowerChar(s[0]), LowerChar(s[1])] + Lower(s[2..]);
    PairsAgree([LowerChar(s[0]), LowerChar(s[1])], Lower(s[2..]),
               [DIGITS[b[0] / 16], DIGITS[b[0] % 16]], Encode(b[1..]));
  }

  lemma PairsAgree(a: string, x: string, b: string, y: string)
    requires |a| == |b| == 2
    ensures a + x == b + y <==> a[0] == b[0] && a[1] == b[1] && x == y
  {
    assert (a + x)[..2] == a && (b + y)[..2] == b && (a + x)[2..] == x && (b + y)[2..] == y;
  }

  /** Decoding gives b exactly for the spellings of b's hexadecimal form, in any mixture of cases. */
  lemma {:induction false} DecodeExactly(s: string, b: seq<byte>)
    ensures Decode(s) == Some(b) <==> Lower(s) == Encode(b)
    decreases |s|
  {
    if |s| >= 2 && b != [] {
      DecodeExactly(s[2..], b[1..]);
      DigitSpelling(s[0], b[0] / 16);
      DigitSpelling(s[1], b[0] % 16);
      DecodeStep(s, b);
      SpellingStep(s, b);
    }
  }

  lemma EncodeIsInjective(a: seq<byte>, b: seq<byte>)
    requires Encode(a) == Encode(b)
    ensures a == b
  {
    LowerOfEncode(a);
    DecodeExactly(Encode(a), a);
    DecodeExactly(Encode(a), b);
  }

  lemma {:induction false} LowerOfEncode(b: seq<byte>)
    ensures Lower(Encode(b)) == Encode(b)
  {
    if b != [] {
      LowerOfEncode(b[1..]);
      assert Lower(Encode(b))[2..] == Lower(Encode(b[1..]));
    }
  }

  function Decimal(n: nat): (s: string)
    ensures s != ""
  {
    if n < 10 then [DIGITS[n]] else Decimal(n / 10) + [DIGITS[n % 10]]
  }

  lemma DigitsDiffer(i: nat, j: nat)
    requires i < 10 && j < 10 && DIGITS[i] == DIGITS[j]
    ensures i == j
  {
  }

  lemma {:induction false} DecimalIsInjective(m: nat, n: nat)
    requires Decimal(m) == Decimal(n)
    ensures m == n
  {
    var a, b := Decimal(m), Decimal(n);
    assert a[|a| - 1] == DIGITS[m % 10] && b[|b| - 1] == DIGITS[n % 10];
    DigitsDiffer(m % 10, n % 10);
    if m >= 10 && n >= 10 {
      assert a[..|a| - 1] == Decimal(m / 10) && b[..|b| - 1] == Decimal(n / 10);
      DecimalIsInjective(m / 10, n / 10);
    }
  }
}
