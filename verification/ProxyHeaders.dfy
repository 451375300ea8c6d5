/** Removing hop-by-hop headers from a proxied message (section 6.1 of RFC 7230). */
module ProxyHeaders {
  import opened Bytes

  type Name = string
  type Headers = map<Name, seq<seq<byte>>>

  const COMMA: byte := 0x2C

  // --------------------------------------------------------------- list syntax

  /** Header values that can be read as text: visible ASCII, space and tab. */
  predicate Readable(value: seq<byte>) {
    forall i :: 0 <= i < |value| ==> 32 <= value[i] < 127 || value[i] == 9
  }

  /** The white space that can occur in a readable value. */
  predicate IsBlank(b: byte) {
    b == 32 || b == 9
  }

  function Trim(s: seq<byte>): seq<byte>
    decreases |s|
  {
    if s == [] then s
    else if IsBlank(s[0]) then Trim(s[1..])
    else if IsBlank(s[|s| - 1]) then Trim(s[..|s| - 1])
    else s
  }

  /** The pieces between commas; there is always at least one. */
  function Split(s: seq<byte>): (pieces: seq<seq<byte>>)
    ensures pieces != []
  {
    if s == [] then [[]]
    else
      var pieces := Split(s[1..]);
      if s[0] == COMMA then [[]] + pieces else [[s[0]] + pieces[0]] + pieces[1..]
  }

  // ------------------------------------------------- the reference definition

  /** The slice from i to j lies between two commas, or a comma and an end, and holds none. */
  predicate IsPiece(s: seq<byte>, i: nat, j: nat) {
    && i <= j <= |s|
    && (i == 0 || s[i - 1] == COMMA)
    && (j == |s| || s[j] == COMMA)
    && COMMA !in s[i..j]
  }

  /** The header name that a piece spells, if any; what a valid name is stays with the HTTP library. */
  function NameIn(nameOf: seq<byte> -> Option<Name>, piece: seq<byte>): Option<Name> {
    if Trim(piece) == [] then None else nameOf(Trim(piece))
  }

  /** A Connection value lists a name when one of its comma-separated pieces spells it. */
  ghost predicate Lists(nameOf: seq<byte> -> Option<Name>, value: seq<byte>, name: Name) {
    Readable(value) && exists i: nat, j: nat :: IsPiece(value, i, j) && NameIn(nameOf, value[i..j]) == Some(name)
  }

  const HOP_BY_HOP: seq<Name> := [
    "connection", "proxy-authenticate", "proxy-authorization", "te", "trailer", "transfer-encoding", "upgrade", "host"
  ]
  const KEEP_ALIVE: Name := "keep-alive"

  /** A header is removed when it is hop-by-hop, keep-alive, or listed in the first Connection value. */
  ghost predicate Removed(nameOf: seq<byte> -> Option<Name>, headers: Headers, name: Name) {
    || name in HOP_BY_HOP
    || name == KEEP_ALIVE
    || ("connection" in headers && headers["connection"] != [] && Lists(nameOf, headers["connection"][0], name))
  }

  /** The headers that stay, each with all its values. */
  ghost function Stripped(nameOf: seq<byte> -> Option<Name>, headers: Headers): Headers {
    map name | name in headers && !Removed(nameOf, headers, name) :: headers[name]
  }

  // ---------------------------------------------------------- pieces and splits

  lemma PieceOfTail(s: seq<byte>, i: nat, j: nat)
    requires s != [] && 0 < i <= j <= |s|
    ensures s[1..][i - 1..j - 1] == s[i..j]
    ensures 1 < i ==> (IsPiece(s, i, j) <==> IsPiece(s[1..], i - 1, j - 1))
    ensures s[0] == COMMA && i == 1 ==> (IsPiece(s, 1, j) <==> IsPiece(s[1..], 0, j - 1))
  {
  }

  lemma FirstPieceGrows(s: seq<byte>, j: nat)
    requires s != [] && s[0] != COMMA && 0 < j <= |s|
    ensures s[0..j] == [s[0]] + s[1..][0..j - 1]
    ensures IsPiece(s, 0, j) <==> IsPiece(s[1..], 0, j - 1)
  {
    var rest := s[1..][0..j - 1];
    assert s[0..j] == [s[0]] + rest;
    assert COMMA in s[0..j] <==> COMMA in rest;
  }

  lemma EmptyFirstPiece(s: seq<byte>, k: nat)
    requires s == [] || s[0] == COMMA
    ensures IsPiece(s, 0, k) ==> k == 0
  {
    if 0 < k <= |s| {
      assert s[0] in s[0..k];
    }
  }

  /** The first of the split pieces is the piece that starts at the front. */
  lemma {:induction false} FirstPiece(s: seq<byte>) returns (j: nat)
    ensures IsPiece(s, 0, j) && Split(s)[0] == s[0..j]
    ensures forall k: nat :: IsPiece(s, 0, k) ==> k == j
  {
    if s == [] || s[0] == COMMA {
      j := 0;
      forall k: nat
        ensures IsPiece(s, 0, k) ==> k == 0
      {
        EmptyFirstPiece(s, k);
      }
    } else {
      var j' := FirstPiece(s[1..]);
      j := j' + 1;
      FirstPieceGrows(s, j);
      forall k: nat | IsPiece(s, 0, k)
        ensures k == j
      {
        FirstPieceGrows(s, k);
      }
    }
  }

  /** Every split piece is a slice between commas. */
  lemma {:induction false} SplitIsPiece(s: seq<byte>, n: nat) returns (i: nat, j: nat)
    requires n < |Split(s)|
    ensures IsPiece(s, i, j) && s[i..j] == Split(s)[n] && (n > 0 ==> i > 0)
  {
    if n == 0 {
      i := 0;
      j := FirstPiece(s);
    } else if s[0] == COMMA {
      var i', j' := SplitIsPiece(s[1..], n - 1);
      i, j := i' + 1, j' + 1;
      PieceOfTail(s, i, j);
    } else {
      var i', j' := SplitIsPiece(s[1..], n);
      i, j := i' + 1, j' + 1;
      PieceOfTail(s, i, j);
    }
  }

  /** Every slice between commas is a split piece. */
  lemma {:induction false} PieceIsSplit(s: seq<byte>, i: nat, j: nat) returns (n: nat)
    requires IsPiece(s, i, j)
    ensures n < |Split(s)| && Split(s)[n] == s[i..j] && (i > 0 ==> n > 0)
  {
    if i == 0 {
      var j' := FirstPiece(s);
      n := 0;
    } else {
      PieceOfTail(s, i, j);
      var n' := PieceIsSplit(s[1..], i - 1, j - 1);
      n := if s[0] == COMMA then n' + 1 else n';
    }
  }

  // ------------------------------------------------------------------ stripping

  /** The names that the pieces spell. */
  function NamesIn(nameOf: seq<byte> -> Option<Name>, pieces: seq<seq<byte>>): set<Name> {
    set k | 0 <= k < |pieces| && NameIn(nameOf, pieces[k]).Some? :: NameIn(nameOf, pieces[k]).value
  }

  lemma NamesInOneMore(nameOf: seq<byte> -> Option<Name>, pieces: seq<seq<byte>>, piece: seq<byte>)
    ensures NamesIn(nameOf, pieces + [piece]) ==
              NamesIn(nameOf, pieces) + match NameIn(nameOf, piece) case None => {} case Some(name) => {name}
  {
    var all := pieces + [piece];
    assert forall k :: 0 <= k < |pieces| ==> all[k] == pieces[k];
    assert all[|pieces|] == piece;
  }

  lemma NamesAreListed(nameOf: seq<byte> -> Option<Name>, value: seq<byte>, name: Name)
    requires Readable(value)
    ensures name in NamesIn(nameOf, Split(value)) <==> Lists(nameOf, value, name)
  {
    if name in NamesIn(nameOf, Split(value)) {
      var k: nat :| k < |Split(value)| && NameIn(nameOf, Split(value)[k]) == Some(name);
      var i, j := SplitIsPiece(value, k);
    }
    if Lists(nameOf, value, name) {
      var i: nat, j: nat :| IsPiece(value, i, j) && NameIn(nameOf, value[i..j]) == Some(name);
      var k := PieceIsSplit(value, i, j);
    }
  }

  /** Stripping keeps exactly the headers that are not removed, and stripping twice is stripping once. */
  lemma StrippedTwice(nameOf: seq<byte> -> Option<Name>, headers: Headers)
    ensures Stripped(nameOf, Stripped(nameOf, headers)) == Stripped(nameOf, headers)
  {
    assert HOP_BY_HOP[0] == "connection";
  }

  /** The slice from i to j is a piece between commas without the blanks around it. */
  ghost predicate IsListed(value: seq<byte>, p: nat, i: nat, j: nat, q: nat) {
    && p <= i < j <= q <= |value|
    && (p == 0 || value[p - 1] == 0x2C) && (q == |value| || value[q] == 0x2C)
    && (forall k | p <= k < q :: value[k] != 0x2C)
    && (forall k | p <= k < i || j <= k < q :: value[k] == 0x20 || value[k] == 0x09)
    && value[i] != 0x20 && value[i] != 0x09 && value[j - 1] != 0x20 && value[j - 1] != 0x09
  }

  lemma {:induction false} TrimBounds(s: seq<byte>) returns (a: nat, b: nat)
    ensures a <= b <= |s| && Trim(s) == s[a..b]
    ensures forall i | 0 <= i < a || b <= i < |s| :: IsBlank(s[i])
    ensures a < b ==> !IsBlank(s[a]) && !IsBlank(s[b - 1])
    decreases |s|
  {
    a, b := 0, |s|;
    if s == [] {
    } else if IsBlank(s[0]) {
      var a', b' := TrimBounds(s[1..]);
      a, b := a' + 1, b' + 1;
    } else if IsBlank(s[|s| - 1]) {
      a, b := TrimBounds(s[..|s| - 1]);
    }
  }

  lemma TrimIs(s: seq<byte>, a: nat, b: nat)
    requires a < b <= |s| && (forall i | 0 <= i < a || b <= i < |s| :: IsBlank(s[i]))
    requires !IsBlank(s[a]) && !IsBlank(s[b - 1])
    ensures Trim(s) == s[a..b]
  {
    var a', b' := TrimBounds(s);
    assert a' == a && b' == b;
  }

  /** A Connection value lists exactly the names that its pieces spell, blanks aside. */
  lemma ListsExactly(nameOf: seq<byte> -> Option<Name>, value: seq<byte>, name: Name)
    ensures Lists(nameOf, value, name) <==>
            && (forall k | 0 <= k < |value| :: 0x20 <= value[k] < 0x7F || value[k] == 0x09)
            && exists p: nat, i: nat, j: nat, q: nat ::
                 IsListed(value, p, i, j, q) && nameOf(value[i..j]) == Some(name)
  {
    if Lists(nameOf, value, name) {
      var p: nat, q: nat :| IsPiece(value, p, q) && NameIn(nameOf, value[p..q]) == Some(name);
      var a, b := TrimBounds(value[p..q]);
      assert value[p..q][a..b] == value[p + a..p + b];
      PieceIsListed(value, p, q, a, b);
    }
    if Readable(value) {
      if p: nat, i: nat, j: nat, q: nat :| IsListed(value, p, i, j, q) && nameOf(value[i..j]) == Some(name) {
        ListedIsPiece(value, p, i, j, q);
        assert NameIn(nameOf, value[p..q]) == Some(name);
      }
    }
  }

  lemma PieceIsListed(value: seq<byte>, p: nat, q: nat, a: nat, b: nat)
    requires IsPiece(value, p, q) && a < b <= q - p
    requires forall i | 0 <= i < a || b <= i < q - p :: IsBlank(value[p..q][i])
    requires !IsBlank(value[p..q][a]) && !IsBlank(value[p..q][b - 1])
    ensures IsListed(value, p, p + a, p + b, q)
  {
    forall k | p <= k < q
      ensures value[k] != 0x2C && (k < p + a || p + b <= k ==> value[k] == 0x20 || value[k] == 0x09)
    {
      assert value[k] == value[p..q][k - p];
    }
  }

  lemma ListedIsPiece(value: seq<byte>, p: nat, i: nat, j: nat, q: nat)
    requires IsListed(value, p, i, j, q)
    ensures IsPiece(value, p, q) && Trim(value[p..q]) == value[i..j] != []
  {
    TrimIs(value[p..q], i - p, j - p);
    assert value[p..q][i - p..j - p] == value[i..j];
  }

  /** A header stays, with all its values, exactly when it is none of the nine that always go and the first Connection
      value does not list it. */
  lemma StaysExactly(nameOf: seq<byte> -> Option<Name>, headers: Headers, name: Name)
    ensures var stay := Stripped(nameOf, headers);
            && (name in stay ==> stay[name] == headers[name])
            && (name in stay <==>
                && name in headers
                && name !in {"connection", "keep-alive", "proxy-authenticate", "proxy-authorization", "te", "trailer",
                             "transfer-encoding", "upgrade", "host"}
                && !(&& "connection" in headers && headers["connection"] != []
                     && var value := headers["connection"][0];
                        && (forall k | 0 <= k < |value| :: 0x20 <= value[k] < 0x7F || value[k] == 0x09)
                        && exists p: nat, i: nat, j: nat, q: nat ::
                             IsListed(value, p, i, j, q) && nameOf(value[i..j]) == Some(name)))
  {
    if "connection" in headers && headers["connection"] != [] {
      ListsExactly(nameOf, headers["connection"][0], name);
    }
    AlwaysRemoved(name);
  }

  lemma AlwaysRemoved(name: Name)
    ensures name in HOP_BY_HOP || name == KEEP_ALIVE <==>
            name in {"connection", "keep-alive", "proxy-authenticate", "proxy-authorization", "te", "trailer",
                     "transfer-encoding", "upgrade", "host"}
  {
    assert HOP_BY_HOP[0] == "connection" && HOP_BY_HOP[1] == "proxy-authenticate";
    assert HOP_BY_HOP[2] == "proxy-authorization" && HOP_BY_HOP[3] == "te" && HOP_BY_HOP[4] == "trailer";
    assert HOP_BY_HOP[5] == "transfer-encoding" && HOP_BY_HOP[6] == "upgrade" && HOP_BY_HOP[7] == "host";
  }

  class HeaderMap {
    var entries: Headers

    constructor (entries: Headers)
      ensures this.entries == entries
    {
      this.entries := entries;
    }

    method StripProxyHeaders(nameOf: seq<byte> -> Option<Name>)
      modifies this
      ensures entries == Stripped(nameOf, old(entries))
    {
      ghost var before := entries;
      var listed: seq<Name> := [];
      if "connection" in entries && entries["connection"] != [] {
        var value := entries["connection"][0];
        if Readable(value) {
          listed := CollectNames(nameOf, Split(value));
          forall name
            ensures name in listed <==> Lists(nameOf, value, name)
          {
            NamesAreListed(nameOf, value, name);
          }
        }
      }
      RemoveAll(listed);
      RemoveAll(HOP_BY_HOP);
      entries := entries - {KEEP_ALIVE};
    }

    method RemoveAll(names: seq<Name>)
      modifies this
      ensures entries == old(entries) - Elements(names)
    {
      for i := 0 to |names|
        invariant entries == old(entries) - Elements(names[..i])
      {
        entries := entries - {names[i]};
        assert names[..i + 1] == names[..i] + [names[i]];
      }
      assert names[..|names|] == names;
    }
  }

  function Elements(names: seq<Name>): set<Name> {
    set name | name in names
  }

  method CollectNames(nameOf: seq<byte> -> Option<Name>, pieces: seq<seq<byte>>) returns (names: seq<Name>)
    ensures Elements(names) == NamesIn(nameOf, pieces)
  {
    names := [];
    for i := 0 to |pieces|
      invariant Elements(names) == NamesIn(nameOf, pieces[..i])
    {
      assert pieces[..i + 1] == pieces[..i] + [pieces[i]];
      NamesInOneMore(nameOf, pieces[..i], pieces[i]);
      var found := NameIn(nameOf, pieces[i]);
      if found.Some? {
        names := names + [found.value];
      }
    }
    assert pieces[..|pieces|] == pieces;
  }
}
