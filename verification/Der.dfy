/** DER-encoded ECDSA signatures to fixed-width r || s, with the minimal DER encoder as reference. */
module Der {
  import opened Bytes

  datatype Reason = Sequence | RTag | STag | Size

  /** Abort is an out-of-bounds panic. */
  datatype Outcome = Raw(bytes: seq<byte>) | Invalid(reason: Reason) | Abort

  function Zeros(n: nat): (s: seq<byte>)
    ensures |s| == n
  {
    seq(n, _ => 0)
  }

  // ------------------------------------------------------------ conversion

  /** One INTEGER whose length byte is at pos: its c-byte field and the position after it; None is a panic. */
  function Component(der: seq<byte>, pos: nat, c: nat): (r: Option<(seq<byte>, nat)>)
    ensures r.Some? ==> |r.value.0| == c
  {
    if pos >= |der| then None else
    var len := der[pos];
    var first := pos + 1;
    if len > c && first >= |der| then None else
    var start := if len > c && der[first] == 0x00 then first + 1 else first;
    var actual := if len > c then len - 1 else len;
    var copied := if actual < c then actual else c;
    if start + copied > |der| then None else
    Some((Zeros(c - copied) + der[start..start + copied], first + len))
  }

  function Convert(der: seq<byte>, n: nat): (o: Outcome) {
    if |der| < 8 || der[0] != 0x30 then Invalid(Sequence) else
    if der[2] != 0x02 then Invalid(RTag) else
    match Component(der, 3, n / 2)
    case None => Abort
    case Some((r, pos)) =>
      if pos >= |der| then Abort else
      if der[pos] != 0x02 then Invalid(STag) else
      match Component(der, pos + 1, n / 2)
      case None => Abort
      case Some((s, _)) => if n % 2 != 0 then Abort else Raw(r + s)
  }

  /** A signature of exactly n bytes is taken as raw; anything else must convert from DER. */
  function ParseEcdsa(signature: seq<byte>, n: nat): (o: Outcome) {
    if |signature| == n then Raw(signature)
    else if |signature| > 6 && signature[0] == 0x30 then
      match Convert(signature, n)
      case Raw(b) => Raw(b)
      case Invalid(_) => Invalid(Size)
      case Abort => Abort
    else Invalid(Size)
  }

  // ------------------------------------------------ what conversion accepts

  /** The bytes after the length byte at pos suffice for what is copied of the INTEGER. */
  predicate Fits(der: seq<byte>, pos: nat, c: nat) {
    && pos < |der|
    && var room := der[pos + 1..];
       if der[pos] <= c then der[pos] <= |room|
       else room != [] && (if room[0] == 0x00 then c + 1 else c) <= |room|
  }

  /** The field an INTEGER fills: its bytes after zeros, or, when it is longer than the field, the first c bytes
      after one leading zero if it has that. */
  function Field(der: seq<byte>, pos: nat, c: nat): seq<byte>
    requires Fits(der, pos, c)
  {
    var room := der[pos + 1..];
    if der[pos] <= c then Zeros(c - der[pos]) + room[..der[pos]]
    else if room[0] == 0x00 then room[1..c + 1]
    else room[..c]
  }

  lemma SliceOfTail(s: seq<byte>, k: nat, a: nat, b: nat)
    requires a <= b && k + b <= |s|
    ensures s[k..][a..b] == s[k + a..k + b] && Zeros(0) + s[k..][a..b] == s[k..][a..b]
  {
  }

  lemma ShortComponent(der: seq<byte>, pos: nat, c: nat)
    requires Fits(der, pos, c) && der[pos] <= c
    ensures Component(der, pos, c) == Some((Field(der, pos, c), pos + 1 + der[pos]))
  {
    SliceOfTail(der, pos + 1, 0, der[pos]);
  }

  lemma ZeroLedComponent(der: seq<byte>, pos: nat, c: nat)
    requires Fits(der, pos, c) && der[pos] > c && der[pos + 1] == 0x00
    ensures Component(der, pos, c) == Some((Field(der, pos, c), pos + 1 + der[pos]))
  {
    SliceOfTail(der, pos + 1, 1, c + 1);
  }

  lemma LongComponent(der: seq<byte>, pos: nat, c: nat)
    requires Fits(der, pos, c) && der[pos] > c && der[pos + 1] != 0x00
    ensures Component(der, pos, c) == Some((Field(der, pos, c), pos + 1 + der[pos]))
  {
    SliceOfTail(der, pos + 1, 0, c);
  }

  lemma UnfitComponent(der: seq<byte>, pos: nat, c: nat)
    requires !Fits(der, pos, c)
    ensures Component(der, pos, c) == None
  {
  }

  lemma ComponentExactly(der: seq<byte>, pos: nat, c: nat)
    ensures Component(der, pos, c) ==
            if Fits(der, pos, c) then Some((Field(der, pos, c), pos + 1 + der[pos])) else None
  {
    if !Fits(der, pos, c) {
      UnfitComponent(der, pos, c);
    } else if der[pos] <= c {
      ShortComponent(der, pos, c);
    } else if der[pos + 1] == 0x00 {
      ZeroLedComponent(der, pos, c);
    } else {
      LongComponent(der, pos, c);
    }
  }

  /** SEQUENCE tag, any length byte, then the INTEGER tag. */
  predicate Opens(der: seq<byte>) {
    |der| >= 8 && der[0] == 0x30 && der[2] == 0x02
  }

  /** Where the second INTEGER starts. */
  function STagAt(der: seq<byte>): nat
    requires |der| >= 8
  {
    var len: nat := der[3];
    4 + len
  }

  /** The accepted inputs, minimal or not, and what they convert to; bytes after the second INTEGER are ignored. */
  lemma ConvertsExactly(der: seq<byte>, n: nat, raw: seq<byte>)
    requires n % 2 == 0
    ensures Convert(der, n) == Raw(raw) <==>
            && Opens(der) && Fits(der, 3, n / 2)
            && STagAt(der) < |der| && der[STagAt(der)] == 0x02 && Fits(der, STagAt(der) + 1, n / 2)
            && raw == Field(der, 3, n / 2) + Field(der, STagAt(der) + 1, n / 2)
  {
    ComponentExactly(der, 3, n / 2);
    if Opens(der) {
      ComponentExactly(der, STagAt(der) + 1, n / 2);
    }
  }

  /** Conversion panics exactly when it has begun and the input ends inside what it goes on to read. */
  lemma ConvertAbortsExactly(der: seq<byte>, n: nat)
    requires n % 2 == 0
    ensures Convert(der, n) == Abort <==>
            && Opens(der)
            && (|| !Fits(der, 3, n / 2)
                || STagAt(der) >= |der|
                || (der[STagAt(der)] == 0x02 && !Fits(der, STagAt(der) + 1, n / 2)))
  {
    ComponentExactly(der, 3, n / 2);
    if Opens(der) {
      ComponentExactly(der, STagAt(der) + 1, n / 2);
    }
  }

  lemma {:induction false} PrefixValue(s: seq<byte>, c: nat)
    requires c <= |s|
    ensures BeValue(s[..c]) <= BeValue(s)
    ensures BeValue(s[..c]) == BeValue(s) <==> c == |s| || BeValue(s) == 0
  {
    if c == |s| {
      assert s[..c] == s;
    } else {
      var front := s[..|s| - 1];
      PrefixValue(front, c);
      assert front[..c] == s[..c];
    }
  }

  lemma {:induction false} LeadingZeros(k: nat, s: seq<byte>)
    ensures BeValue(Zeros(k) + s) == BeValue(s)
  {
    var t := Zeros(k) + s;
    if s != [] {
      LeadingZeros(k, s[..|s| - 1]);
      assert t[..|t| - 1] == Zeros(k) + s[..|s| - 1];
    } else if k > 0 {
      LeadingZeros(k - 1, []);
      assert t[..|t| - 1] == Zeros(k - 1) + [];
    }
  }

  lemma ZeroLedValue(v: seq<byte>, c: nat)
    requires |v| > c && v[0] == 0x00
    ensures BeValue(v[1..c + 1]) == BeValue(v) <==> |v| == c + 1 || BeValue(v) == 0
  {
    assert v == Zeros(1) + v[1..];
    LeadingZeros(1, v[1..]);
    assert v[1..c + 1] == v[1..][..c];
    PrefixValue(v[1..], c);
  }

  /** An INTEGER that is all there keeps its value exactly when it fits the field, or is one byte longer with a
      leading zero, or is zero; any other loses its low-order bytes. */
  lemma FieldKeepsValueExactly(der: seq<byte>, pos: nat, c: nat, v: seq<byte>)
    requires Fits(der, pos, c) && pos + 1 + der[pos] <= |der| && v == der[pos + 1..][..der[pos]]
    ensures BeValue(Field(der, pos, c)) == BeValue(v) <==>
            |v| <= c || (|v| == c + 1 && v[0] == 0x00) || BeValue(v) == 0
  {
    var len, room := der[pos], der[pos + 1..];
    if len <= c {
      LeadingZeros(c - len, v);
    } else if v[0] == 0x00 {
      assert room[1..c + 1] == v[1..c + 1];
      ZeroLedValue(v, c);
    } else {
      assert room[..c] == v[..c];
      PrefixValue(v, c);
    }
  }

  // -------------------------------------------------- minimal DER encoding

  /** The big-endian bytes of v without leading zeros (one zero byte for 0). */
  function Minimal(v: nat): (b: seq<byte>)
    ensures b != []
  {
    if v < 256 then [v] else Minimal(v / 256) + [v % 256]
  }

  /** INTEGER contents: a zero byte is put in front when the sign bit would be set. */
  function Contents(v: nat): (b: seq<byte>)
    ensures b != []
  {
    if Minimal(v)[0] >= 128 then [0] + Minimal(v) else Minimal(v)
  }

  function Integer(v: nat): seq<byte>
    requires |Contents(v)| < 128
  {
    [0x02, |Contents(v)|] + Contents(v)
  }

  predicate Encodable(r: nat, s: nat) {
    |Contents(r)| < 128 && |Contents(s)| < 128 && |Integer(r) + Integer(s)| < 256
  }

  /** SEQUENCE of the two INTEGERs; contents of 128 bytes or more take the long length form. */
  function Encode(r: nat, s: nat): seq<byte>
    requires Encodable(r, s)
  {
    var body := Integer(r) + Integer(s);
    (if |body| < 128 then [0x30, |body|] else [0x30, 0x81, |body|]) + body
  }

  lemma {:induction false} MinimalWidth(v: nat, c: nat)
    requires c >= 1 && v < Pow256(c)
    ensures |Minimal(v)| <= c
    ensures Be(v, c) == Zeros(c - |Minimal(v)|) + Minimal(v)
  {
    if v < 256 {
      BeSmall(v, c);
    } else {
      MinimalWidth(v / 256, c - 1);
      assert Be(v, c) == Be(v / 256, c - 1) + [v % 256];
    }
  }

  lemma {:induction false} BeSmall(v: nat, c: nat)
    requires c >= 1 && v < 256
    ensures Be(v, c) == Zeros(c - 1) + [v]
  {
    BeZero(c - 1);
  }

  lemma {:induction false} BeZero(c: nat)
    ensures Be(0, c) == Zeros(c)
  {
    if c > 0 {
      BeZero(c - 1);
    }
  }

  lemma ContentsPads(v: nat, c: nat)
    requires c >= 1 && v < Pow256(c)
    ensures |Contents(v)| <= c + 1
    ensures |Contents(v)| <= c ==> Be(v, c) == Zeros(c - |Contents(v)|) + Contents(v)
    ensures |Contents(v)| == c + 1 ==> Contents(v)[0] == 0 && Be(v, c) == Contents(v)[1..]
  {
    MinimalWidth(v, c);
  }

  /** Reading an INTEGER that encodes v yields the c big-endian bytes of v. */
  lemma ComponentReads(der: seq<byte>, pos: nat, v: nat, c: nat)
    requires 1 <= c < 128 && v < Pow256(c)
    requires pos + 1 + |Contents(v)| <= |der|
    requires der[pos] == |Contents(v)| && der[pos + 1..pos + 1 + |Contents(v)|] == Contents(v)
    ensures Component(der, pos, c) == Some((Be(v, c), pos + 1 + |Contents(v)|))
  {
    ContentsPads(v, c);
    var d, first := Contents(v), pos + 1;
    assert der[first] == der[first..first + |d|][0];
    if |d| > c {
      assert der[first + 1..first + 1 + c] == der[first..first + |d|][1..];
      assert Zeros(0) + d[1..] == d[1..];
    }
  }

  lemma IntegerAt(der: seq<byte>, before: seq<byte>, v: nat, after: seq<byte>)
    requires |Contents(v)| < 128
    requires der == before + Integer(v) + after
    ensures |der| >= |before| + 2 + |Contents(v)|
    ensures der[|before|] == 0x02 && der[|before| + 1] == |Contents(v)|
    ensures der[|before| + 2..|before| + 2 + |Contents(v)|] == Contents(v)
  {
  }

  /** Conversion keeps both numbers, for every field width, exactly when the short length form was used. */
  lemma ConvertPreservesValues(r: nat, s: nat, n: nat)
    requires n % 2 == 0 && 2 <= n <= 240
    requires r < Pow256(n / 2) && s < Pow256(n / 2)
    ensures Encodable(r, s)
    ensures |Integer(r) + Integer(s)| < 128 ==> Convert(Encode(r, s), n) == Raw(Be(r, n / 2) + Be(s, n / 2))
    ensures |Integer(r) + Integer(s)| >= 128 ==> Convert(Encode(r, s), n) == Invalid(RTag)
  {
    ContentsPads(r, n / 2);
    ContentsPads(s, n / 2);
    if |Integer(r) + Integer(s)| < 128 {
      ConvertShortForm(r, s, n);
    }
  }

  lemma ShortFormLayout(r: nat, s: nat)
    requires Encodable(r, s) && |Integer(r) + Integer(s)| < 128
    ensures var head := [0x30, |Integer(r) + Integer(s)|];
            && Encode(r, s) == head + Integer(r) + Integer(s)
            && Encode(r, s) == (head + Integer(r)) + Integer(s) + []
  {
  }

  lemma ConvertShortForm(r: nat, s: nat, n: nat)
    requires n % 2 == 0 && 2 <= n <= 240
    requires r < Pow256(n / 2) && s < Pow256(n / 2)
    requires Encodable(r, s) && |Integer(r) + Integer(s)| < 128
    ensures Convert(Encode(r, s), n) == Raw(Be(r, n / 2) + Be(s, n / 2))
  {
    var der, head := Encode(r, s), [0x30, |Integer(r) + Integer(s)|];
    ShortFormLayout(r, s);
    IntegerAt(der, head, r, Integer(s));
    ComponentReads(der, 3, r, n / 2);
    IntegerAt(der, head + Integer(r), s, []);
    ComponentReads(der, 5 + |Contents(r)|, s, n / 2);
  }

  /** Up to 120 bytes (P-256 and P-384 among them) the short form always suffices; the halves hold r and s. */
  lemma ConvertReadsBack(r: nat, s: nat, n: nat)
    requires n % 2 == 0 && 2 <= n <= 120
    requires r < Pow256(n / 2) && s < Pow256(n / 2)
    ensures Encodable(r, s)
    ensures var o := Convert(Encode(r, s), n);
            o.Raw? && |o.bytes| == n && BeValue(o.bytes[..n / 2]) == r && BeValue(o.bytes[n / 2..]) == s
  {
    var c := n / 2;
    MinimalWidth(r, c);
    MinimalWidth(s, c);
    ConvertPreservesValues(r, s, n);
    BeRoundTrip(r, c);
    BeRoundTrip(s, c);
    var raw := Be(r, c) + Be(s, c);
    assert raw[..c] == Be(r, c) && raw[c..] == Be(s, c);
  }

  /** The format guess is right exactly when the DER encoding does not happen to have the raw length. */
  lemma ParseEcdsaReadsDerUnlessRawSized(r: nat, s: nat, n: nat)
    requires n % 2 == 0 && 2 <= n <= 120
    requires r < Pow256(n / 2) && s < Pow256(n / 2)
    ensures Encodable(r, s)
    ensures ParseEcdsa(Encode(r, s), n) == Raw(Be(r, n / 2) + Be(s, n / 2)) <==> |Encode(r, s)| != n
  {
    var c := n / 2;
    MinimalWidth(r, c);
    MinimalWidth(s, c);
    ConvertPreservesValues(r, s, n);
    var der, raw := Encode(r, s), Be(r, c) + Be(s, c);
    if |der| == n && der == raw {
      RawSizedDiffers(r, s, n);
    }
  }

  /** An encoding of the raw length is never its own conversion: byte 4 of the second half would have to be
      both the INTEGER tag and part of the zero padding of s. */
  lemma RawSizedDiffers(r: nat, s: nat, n: nat)
    requires n % 2 == 0 && 2 <= n <= 120
    requires r < Pow256(n / 2) && s < Pow256(n / 2)
    requires Encodable(r, s) && |Encode(r, s)| == n
    ensures Encode(r, s) != Be(r, n / 2) + Be(s, n / 2)
  {
    var c := n / 2;
    MinimalWidth(r, c);
    MinimalWidth(s, c);
    var der, raw := Encode(r, s), Be(r, c) + Be(s, c);
    assert raw[0] == Be(r, c)[0] && der[0] == 0x30;
    if Be(r, c)[0] == 0x30 {
      assert |Contents(r)| == c && |Contents(s)| == c - 6;
      assert raw[c + 4] == Be(s, c)[4] == 0;
      assert der[c + 4] == Integer(s)[0];
    }
  }

  // ------------------------------------------------- the in-place conversion

  method CopyInto(target: array<byte>, at: nat, src: seq<byte>)
    requires at + |src| <= target.Length
    modifies target
    ensures target[..] == old(target[..at]) + src + old(target[at + |src|..])
  {
    for i := 0 to |src|
      invariant target[..at] == old(target[..at])
      invariant target[at..at + i] == src[..i]
      invariant target[at + i..] == old(target[at + i..])
    {
      target[at + i] := src[i];
    }
  }

  /** Copies one INTEGER into the c bytes of result that start at base; false means a panic. */
  method ReadComponent(der: seq<byte>, pos: nat, c: nat, result: array<byte>, base: nat)
    returns (ok: bool, next: nat)
    requires base + c <= result.Length
    requires forall i | base <= i < result.Length :: result[i] == 0
    modifies result
    ensures result[..base] == old(result[..base])
    ensures forall i | base + c <= i < result.Length :: result[i] == 0
    ensures ok <==> Component(der, pos, c).Some?
    ensures ok ==> Component(der, pos, c) == Some((result[base..base + c], next))
  {
    if pos >= |der| {
      return false, 0;
    }
    var len := der[pos];
    var first := pos + 1;
    if len > c && first >= |der| {
      return false, 0;
    }
    var start := if len > c && der[first] == 0x00 then first + 1 else first;
    var actual := if len > c then len - 1 else len;
    var copied := if actual < c then actual else c;
    if start + copied > |der| {
      return false, 0;
    }
    CopyInto(result, base + (c - copied), der[start..start + copied]);
    assert result[base..base + c] == Zeros(c - copied) + der[start..start + copied];
    return true, first + len;
  }

  method ParseDerSignature(der: seq<byte>, n: nat) returns (o: Outcome)
    ensures o == Convert(der, n)
  {
    if |der| < 8 || der[0] != 0x30 {
      return Invalid(Sequence);
    }
    var c := n / 2;
    var result := new byte[n](_ => 0);
    if der[2] != 0x02 {
      return Invalid(RTag);
    }
    var ok, pos := ReadComponent(der, 3, c, result, 0);
    if !ok || pos >= |der| {
      return Abort;
    }
    ghost var r := result[0..c];
    if der[pos] != 0x02 {
      return Invalid(STag);
    }
    ok, pos := ReadComponent(der, pos + 1, c, result, c);
    if !ok || n % 2 != 0 {
      return Abort;
    }
    assert result[..] == result[..c] + result[c..c + c];
    return Raw(result[..]);
  }
}
