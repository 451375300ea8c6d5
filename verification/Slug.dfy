/** Slugs of server and tool names: the attribute-value form of an arbitrary identifier. */
module Slug {
  import opened AsciiCase

  // -------------------------------------------------------------- characters

  predicate IsWord(c: char) {
    'a' <= c <= 'z' || 'A' <= c <= 'Z' || '0' <= c <= '9' || c == '-'
  }

  /** The Unicode White_Space property. */
  predicate IsSpace(c: char) {
    || '\t' <= c <= '\r' || c == ' ' || c == '\U{85}' || c == '\U{A0}' || c == '\U{1680}'
    || '\U{2000}' <= c <= '\U{200A}' || c == '\U{2028}' || c == '\U{2029}' || c == '\U{202F}'
    || c == '\U{205F}' || c == '\U{3000}'
  }

  const WHITE_SPACE :=
    "\t\n\U{B}\U{C}\r \U{85}\U{A0}\U{1680}" +
    "\U{2000}\U{2001}\U{2002}\U{2003}\U{2004}\U{2005}\U{2006}\U{2007}\U{2008}\U{2009}\U{200A}" +
    "\U{2028}\U{2029}\U{202F}\U{205F}\U{3000}"

  function Trim(s: string): string
    decreases |s|
  {
    if s == [] then s
    else if IsSpace(s[0]) then Trim(s[1..])
    else if IsSpace(s[|s| - 1]) then Trim(s[..|s| - 1])
    else s
  }

  function TrimUnderscores(s: string): string
    decreases |s|
  {
    if s == [] then s
    else if s[0] == '_' then TrimUnderscores(s[1..])
    else if s[|s| - 1] == '_' then TrimUnderscores(s[..|s| - 1])
    else s
  }

  // ------------------------------------------------- the reference definition

  /** The length of the longest prefix of word characters. */
  function RunLength(s: string): (n: nat)
    ensures n <= |s| && forall i :: 0 <= i < n ==> IsWord(s[i])
    ensures n < |s| ==> !IsWord(s[n])
  {
    if s == [] || !IsWord(s[0]) then 0 else 1 + RunLength(s[1..])
  }

  /** The maximal runs of word characters, in order and in lower case. */
  function Runs(s: string): seq<string>
    decreases |s|
  {
    if s == [] then []
    else
      var n := RunLength(s);
      if n == 0 then Runs(s[1..]) else [Lower(s[..n])] + Runs(s[n..])
  }

  function Join(rs: seq<string>): string {
    if rs == [] then []
    else if |rs| == 1 then rs[0]
    else Join(rs[..|rs| - 1]) + "_" + rs[|rs| - 1]
  }

  /** The slug of a text. */
  function Slugify(s: string): string {
    Join(Runs(s))
  }

  // ------------------------------------------------ what the definition means

  /** Letters, digits and hyphens. */
  predicate IsSlugChar(c: char) {
    'a' <= c <= 'z' || 'A' <= c <= 'Z' || '0' <= c <= '9' || c == '-'
  }

  /** From position d on, slice k of the text is the k-th run: the slices hold all letters, digits and hyphens and nothing
      else, in order and with gaps between them. */
  ghost predicate AreRuns(s: string, d: nat, at: seq<nat>, to: seq<nat>, rs: seq<string>) {
    && |at| == |to| == |rs|
    && (forall k | 0 <= k < |rs| :: d <= at[k] < to[k] <= |s| && rs[k] == Lower(s[at[k]..to[k]]))
    && (forall k, i | 0 <= k < |rs| && at[k] <= i < to[k] :: IsSlugChar(s[i]))
    && (forall k | 0 < k < |rs| :: to[k - 1] < at[k])
    && (forall i | d <= i < |s| && IsSlugChar(s[i]) :: InSome(at, to, i))
  }

  predicate InSome(at: seq<nat>, to: seq<nat>, i: nat) {
    exists k | 0 <= k < |at| && k < |to| :: at[k] <= i < to[k]
  }

  /** The runs of a text are its maximal slices of letters, digits and hyphens, in lower case. */
  lemma RunsExactly(s: string) returns (at: seq<nat>, to: seq<nat>)
    ensures AreRuns(s, 0, at, to, Runs(s))
  {
    at, to := RunsFrom(s, 0);
    assert s[0..] == s;
  }

  lemma {:induction false} RunsFrom(s: string, d: nat) returns (at: seq<nat>, to: seq<nat>)
    requires d <= |s|
    ensures AreRuns(s, d, at, to, Runs(s[d..]))
    decreases |s| - d
  {
    if d == |s| {
      at, to := [], [];
    } else if !IsWord(s[d]) {
      at, to := RunsFrom(s, d + 1);
      GapOf(s, d);
      GapAdded(s, d, at, to, Runs(s[d + 1..]));
    } else {
      var e := RunOf(s, d);
      var at', to' := RunsFrom(s, e);
      RunAdded(s, d, e, at', to', Runs(s[e..]));
      at, to := [d] + at', [e] + to';
    }
  }

  lemma GapOf(s: string, d: nat)
    requires d < |s| && !IsWord(s[d])
    ensures Runs(s[d..]) == Runs(s[d + 1..]) && !IsSlugChar(s[d])
  {
    assert s[d..][1..] == s[d + 1..];
  }

  lemma GapAdded(s: string, d: nat, at: seq<nat>, to: seq<nat>, rs: seq<string>)
    requires d < |s| && !IsSlugChar(s[d]) && AreRuns(s, d + 1, at, to, rs)
    ensures AreRuns(s, d, at, to, rs)
  {
  }

  lemma RunOf(s: string, d: nat) returns (e: nat)
    requires d < |s| && IsWord(s[d])
    ensures d < e <= |s| && Runs(s[d..]) == [Lower(s[d..e])] + Runs(s[e..])
    ensures forall i | d <= i < e :: IsSlugChar(s[i])
    ensures e < |s| ==> !IsSlugChar(s[e])
  {
    var n := RunLength(s[d..]);
    e := d + n;
    assert s[d..][..n] == s[d..e] && s[d..][n..] == s[e..];
    forall i | d <= i < e
      ensures IsSlugChar(s[i])
    {
      assert s[i] == s[d..][i - d];
    }
  }

  lemma RunAdded(s: string, d: nat, e: nat, at: seq<nat>, to: seq<nat>, rs: seq<string>)
    requires d < e <= |s| && AreRuns(s, e, at, to, rs)
    requires (forall i | d <= i < e :: IsSlugChar(s[i])) && (e < |s| ==> !IsSlugChar(s[e]))
    ensures AreRuns(s, d, [d] + at, [e] + to, [Lower(s[d..e])] + rs)
  {
    var at1, to1 := [d] + at, [e] + to;
    assert |rs| > 0 ==> e < at[0];
    forall i | d <= i < |s| && IsSlugChar(s[i])
      ensures InSome(at1, to1, i)
    {
      if i < e {
        assert at1[0] <= i < to1[0];
      } else {
        var k :| 0 <= k < |at| && k < |to| && at[k] <= i < to[k];
        assert at1[k + 1] <= i < to1[k + 1];
      }
    }
  }

  // --------------------------------------------------- one character at a time

  function Extend(rs: seq<string>, c: char): seq<string>
    requires rs != []
  {
    rs[..|rs| - 1] + [rs[|rs| - 1] + [c]]
  }

  predicate InWord(s: string) {
    s != [] && IsWord(s[|s| - 1])
  }

  /** A non-word character adds nothing; a word character extends the last run inside a word, or starts a run. */
  function Grow(rs: seq<string>, inWord: bool, c: char): seq<string>
    requires inWord ==> rs != []
  {
    if !IsWord(c) then rs
    else if inWord then Extend(rs, LowerChar(c))
    else rs + [[LowerChar(c)]]
  }

  lemma GrowBehind(r: string, rs: seq<string>, inWord: bool, c: char)
    requires inWord ==> rs != []
    ensures Grow([r] + rs, inWord, c) == [r] + Grow(rs, inWord, c)
  {
  }

  lemma RunLengthIs(s: string, n: nat)
    requires n <= |s| && (forall i :: 0 <= i < n ==> IsWord(s[i])) && (n < |s| ==> !IsWord(s[n]))
    ensures RunLength(s) == n
  {
  }

  lemma {:induction false} InWordHasRun(s: string)
    ensures InWord(s) ==> Runs(s) != []
    decreases |s|
  {
    if s != [] && RunLength(s) == 0 {
      InWordHasRun(s[1..]);
    }
  }

  lemma {:induction false} RunsOneMore(s: string, c: char)
    ensures InWord(s) ==> Runs(s) != []
    ensures Runs(s + [c]) == Grow(Runs(s), InWord(s), c)
    decreases |s|
  {
    InWordHasRun(s);
    var n := RunLength(s);
    if n == |s| {
      RunsOfWordAndOne(s, c);
    } else if n == 0 {
      RunsOneMore(s[1..], c);
      RunLengthOneMore(s, c);
      assert (s + [c])[1..] == s[1..] + [c];
    } else {
      RunsOneMore(s[n..], c);
      RunsBehind(s, c, n);
      GrowBehind(Lower(s[..n]), Runs(s[n..]), InWord(s[n..]), c);
    }
  }

  lemma {:induction false} RunLengthOneMore(s: string, c: char)
    requires RunLength(s) < |s|
    ensures RunLength(s + [c]) == RunLength(s)
  {
    if IsWord(s[0]) {
      RunLengthOneMore(s[1..], c);
      assert (s + [c])[1..] == s[1..] + [c];
    }
  }

  lemma FirstRun(s: string, n: nat, word: string, tail: string)
    requires 0 < n == RunLength(s) && word == s[..n] && tail == s[n..]
    ensures Runs(s) == [Lower(word)] + Runs(tail)
  {
  }

  /** A character added at the end leaves alone a first run that ended before it. */
  lemma RunsBehind(s: string, c: char, n: nat)
    requires 0 < n == RunLength(s) < |s|
    ensures Runs(s + [c]) == [Lower(s[..n])] + Runs(s[n..] + [c])
  {
    RunLengthOneMore(s, c);
    SlicesOneMore(s, c, n);
    FirstRun(s + [c], n, s[..n], s[n..] + [c]);
  }

  lemma SlicesOneMore(s: string, c: char, n: nat)
    requires n <= |s|
    ensures (s + [c])[..n] == s[..n] && (s + [c])[n..] == s[n..] + [c]
  {
  }

  lemma RunsOfWordAndOne(s: string, c: char)
    requires RunLength(s) == |s|
    ensures InWord(s) ==> Runs(s) != []
    ensures Runs(s + [c]) == Grow(Runs(s), InWord(s), c)
  {
    RunsOfWord(s);
    if !IsWord(c) {
      RunsOfWordAndGap(s, c);
    } else {
      RunLengthIs(s + [c], |s| + 1);
      RunsOfWord(s + [c]);
      GrowWord(s, c);
    }
  }

  lemma RunsOfWord(s: string)
    requires RunLength(s) == |s|
    ensures Runs(s) == if s == [] then [] else [Lower(s)]
  {
    assert s[..|s|] == s;
  }

  lemma GrowWord(s: string, c: char)
    requires IsWord(c)
    ensures [Lower(s + [c])] == Grow(if s == [] then [] else [Lower(s)], s != [], c)
  {
    var grown := Lower(s) + [LowerChar(c)];
    assert Lower(s + [c]) == grown;
    if s == [] {
      assert grown == [LowerChar(c)];
      assert [] + [grown] == [grown];
    } else {
      assert [Lower(s)][..0] + [grown] == [grown];
    }
  }

  lemma RunsOfWordAndGap(s: string, c: char)
    requires RunLength(s) == |s| && !IsWord(c)
    ensures Runs(s + [c]) == Runs(s)
  {
    var t := s + [c];
    RunLengthIs(t, |s|);
    assert t[..|s|] == s && t[|s|..] == [c];
    assert Runs([c]) == [] by {
      assert [c][1..] == [];
    }
    if s == [] {
      assert t == [c];
    } else {
      RunsOfWord(s);
    }
  }

  lemma JoinOneMore(rs: seq<string>, r: string)
    ensures Join(rs + [r]) == if rs == [] then r else Join(rs) + "_" + r
  {
    assert (rs + [r])[..|rs|] == rs;
  }

  lemma JoinExtended(rs: seq<string>, c: char)
    requires rs != []
    ensures Join(Extend(rs, c)) == Join(rs) + [c]
  {
    var front := rs[..|rs| - 1];
    assert rs == front + [rs[|rs| - 1]];
    JoinOneMore(front, rs[|rs| - 1]);
    JoinOneMore(front, rs[|rs| - 1] + [c]);
    assert front != [] ==> Join(front) + "_" + (rs[|rs| - 1] + [c]) == Join(front) + "_" + rs[|rs| - 1] + [c];
  }

  // ----------------------------------------------------------- shape of a slug

  predicate IsRun(r: string) {
    r != [] && forall i :: 0 <= i < |r| ==> IsWord(r[i]) && LowerChar(r[i]) == r[i]
  }

  lemma {:induction false} RunsAreRuns(s: string)
    ensures forall i :: 0 <= i < |Runs(s)| ==> IsRun(Runs(s)[i])
    decreases |s|
  {
    if s != [] {
      var n := RunLength(s);
      RunsAreRuns(if n == 0 then s[1..] else s[n..]);
    }
  }

  /** A slug neither starts nor ends with a separator, and is empty only without runs. */
  lemma {:induction false} JoinEnds(rs: seq<string>)
    requires forall i :: 0 <= i < |rs| ==> IsRun(rs[i])
    ensures Join(rs) == [] <==> rs == []
    ensures rs != [] ==> IsWord(Join(rs)[0]) && IsWord(Join(rs)[|Join(rs)| - 1])
    ensures forall i :: 0 <= i < |Join(rs)| ==>
              LowerChar(Join(rs)[i]) == Join(rs)[i] && (IsWord(Join(rs)[i]) || Join(rs)[i] == '_')
  {
    if |rs| > 1 {
      JoinEnds(rs[..|rs| - 1]);
    }
  }

  lemma {:induction false} RunsAfterGap(s: string, r: string)
    requires s == [] || !IsWord(s[|s| - 1])
    requires IsRun(r)
    ensures Runs(s + r) == Runs(s) + [r]
  {
    var front, last := r[..|r| - 1], r[|r| - 1];
    assert s + r == s + front + [last];
    RunsOneMore(s + front, last);
    assert r == front + [last];
    if front == [] {
      assert s + front == s;
    } else {
      RunsAfterGap(s, front);
    }
  }

  /** The runs of a slug are the runs it was joined from. */
  lemma {:induction false} RunsOfJoin(rs: seq<string>)
    requires forall i :: 0 <= i < |rs| ==> IsRun(rs[i])
    ensures Runs(Join(rs)) == rs
  {
    if |rs| == 1 {
      RunsAfterGap([], rs[0]);
      assert [] + rs[0] == rs[0] && [] + [rs[0]] == rs;
    } else if |rs| > 1 {
      var front := rs[..|rs| - 1];
      RunsOfJoin(front);
      RunsOneMore(Join(front), '_');
      RunsAfterGap(Join(front) + "_", rs[|rs| - 1]);
    }
  }

  /** Two texts share a slug exactly when their run sequences are equal. */
  lemma SameSlugExactly(a: string, b: string)
    ensures Slugify(a) == Slugify(b) <==> Runs(a) == Runs(b)
  {
    RunsAreRuns(a);
    RunsAreRuns(b);
    RunsOfJoin(Runs(a));
    RunsOfJoin(Runs(b));
  }

  lemma SlugifyIsIdempotent(s: string)
    ensures Slugify(Slugify(s)) == Slugify(s)
  {
    RunsAreRuns(s);
    RunsOfJoin(Runs(s));
  }

  // ------------------------------------------------------------ the slug loop

  lemma {:induction false} TrimKeepsRuns(s: string)
    ensures Runs(Trim(s)) == Runs(s)
    decreases |s|
  {
    if s == [] {
    } else if IsSpace(s[0]) {
      TrimKeepsRuns(s[1..]);
    } else if IsSpace(s[|s| - 1]) {
      var front, last := s[..|s| - 1], s[|s| - 1];
      TrimKeepsRuns(front);
      assert s == front + [last];
      assert Runs(front + [last]) == Runs(front) by {
        RunsOneMore(front, last);
      }
    }
  }

  lemma SlugifyOneMore(s: string, c: char)
    ensures Slugify(s + [c]) ==
              if !IsWord(c) then Slugify(s)
              else if InWord(s) || Slugify(s) == [] then Slugify(s) + [LowerChar(c)]
              else Slugify(s) + "_" + [LowerChar(c)]
  {
    RunsOneMore(s, c);
    if !IsWord(c) {
    } else if InWord(s) {
      JoinExtended(Runs(s), LowerChar(c));
    } else {
      RunsAreRuns(s);
      JoinEnds(Runs(s));
      JoinOneMore(Runs(s), [LowerChar(c)]);
    }
  }

  lemma SlugHasNoOuterSeparator(s: string)
    ensures TrimUnderscores(Slugify(s)) == Slugify(s)
  {
    RunsAreRuns(s);
    JoinEnds(Runs(s));
  }

  /** The loop with its pending-separator flag computes the joined runs. */
  method SlugifyLoop(input: string) returns (slug: string)
    ensures slug == Slugify(input)
  {
    var text := Trim(input);
    var out: string := [];
    var pending := false;
    for i := 0 to |text|
      invariant out == Slugify(text[..i])
      invariant pending == (i > 0 && !InWord(text[..i]))
    {
      assert text[..i + 1] == text[..i] + [text[i]];
      SlugifyOneMore(text[..i], text[i]);
      if IsWord(text[i]) {
        if pending && out != [] {
          out := out + "_";
        }
        pending := false;
        out := out + [LowerChar(text[i])];
      } else {
        pending := true;
      }
    }
    assert text[..|text|] == text;
    TrimKeepsRuns(input);
    SlugHasNoOuterSeparator(input);
    slug := TrimUnderscores(out);
  }

  // -------------------------------------------------------------- server slugs

  const HTTPS := "https://"
  const HTTP := "http://"

  /** A server name without surrounding space, in lower case and without its scheme. */
  function Stripped(resourceId: string): string {
    var lower := Lower(Trim(resourceId));
    if HTTPS <= lower then lower[|HTTPS|..]
    else if HTTP <= lower then lower[|HTTP|..]
    else lower
  }

  /** An override wins unless it is empty, which is the same as having none. */
  function ServerSlug(resourceId: string, overriding: string): string {
    if overriding != [] then Slugify(overriding) else Slugify(Stripped(resourceId))
  }

  lemma {:induction false} TrimOfLower(s: string)
    ensures Trim(Lower(s)) == Lower(Trim(s))
    decreases |s|
  {
    if s == [] {
    } else if IsSpace(s[0]) {
      assert Lower(s)[1..] == Lower(s[1..]);
      TrimOfLower(s[1..]);
    } else if IsSpace(s[|s| - 1]) {
      assert Lower(s)[..|s| - 1] == Lower(s[..|s| - 1]);
      TrimOfLower(s[..|s| - 1]);
    }
  }

  /** Trimming leaves the slice between the outermost characters that are not white space. */
  lemma {:induction false} TrimExactly(s: string) returns (a: nat, b: nat)
    ensures a <= b <= |s| && Trim(s) == s[a..b]
    ensures forall i | 0 <= i < a || b <= i < |s| :: IsSpace(s[i])
    ensures a < b ==> !IsSpace(s[a]) && !IsSpace(s[b - 1])
    decreases |s|
  {
    a, b := 0, |s|;
    if s == [] {
    } else if IsSpace(s[0]) {
      var a', b' := TrimExactly(s[1..]);
      a, b := a' + 1, b' + 1;
    } else if IsSpace(s[|s| - 1]) {
      a, b := TrimExactly(s[..|s| - 1]);
    }
  }

  /** Behind the white space, in lower case, what is stripped is at most one scheme, "https" before "http". */
  lemma StrippedExactly(resourceId: string) returns (a: nat, b: nat)
    ensures a <= b <= |resourceId|
    ensures forall i | 0 <= i < a || b <= i < |resourceId| :: resourceId[i] in WHITE_SPACE
    ensures a < b ==> resourceId[a] !in WHITE_SPACE && resourceId[b - 1] !in WHITE_SPACE
    ensures var name, r := Lower(resourceId[a..b]), Stripped(resourceId);
            if "https://" <= name then name == "https://" + r
            else if "http://" <= name then name == "http://" + r
            else name == r
  {
    a, b := TrimExactly(resourceId);
    forall i | 0 <= i < |resourceId|
      ensures IsSpace(resourceId[i]) <==> resourceId[i] in WHITE_SPACE
    {
      SpacesExactly(resourceId[i]);
    }
  }

  /** The 25 characters of the White_Space property, one by one. */
  lemma SpacesExactly(c: char)
    ensures IsSpace(c) <==> c in WHITE_SPACE
  {
    if '\t' <= c <= '\r' {
      assert WHITE_SPACE[c as int - 9] == c;
    } else if '\U{2000}' <= c <= '\U{200A}' {
      assert WHITE_SPACE[c as int - 0x2000 + 9] == c;
    } else if IsSpace(c) {
      assert WHITE_SPACE[5] == ' ' && WHITE_SPACE[6] == '\U{85}' && WHITE_SPACE[7] == '\U{A0}';
      assert WHITE_SPACE[8] == '\U{1680}' && WHITE_SPACE[20] == '\U{2028}' && WHITE_SPACE[21] == '\U{2029}';
      assert WHITE_SPACE[22] == '\U{202F}' && WHITE_SPACE[23] == '\U{205F}' && WHITE_SPACE[24] == '\U{3000}';
    }
  }

  /** Server names that differ only in ASCII case have one slug. */
  lemma ServerSlugIgnoresCase(a: string, b: string)
    requires Lower(a) == Lower(b)
    ensures ServerSlug(a, []) == ServerSlug(b, [])
  {
    TrimOfLower(a);
    TrimOfLower(b);
  }

  /** A text without spaces, upper case and colons is its own stripped form. */
  lemma StrippedKeeps(s: string)
    requires forall i :: 0 <= i < |s| ==> LowerChar(s[i]) == s[i] && (IsWord(s[i]) || s[i] == '_')
    ensures Stripped(s) == s
  {
    assert Lower(s) == s;
    assert HTTPS[5] == ':' && HTTP[4] == ':';
    assert Trim(s) == s;
  }

  lemma ServerSlugIsIdempotent(resourceId: string)
    ensures ServerSlug(ServerSlug(resourceId, []), []) == ServerSlug(resourceId, [])
  {
    var s := Stripped(resourceId);
    RunsAreRuns(s);
    JoinEnds(Runs(s));
    StrippedKeeps(Slugify(s));
    SlugifyIsIdempotent(s);
  }

  /** Two servers share a slug exactly when what names them, an override or else the stripped name, has the same runs. */
  lemma SameServerSlugExactly(a: string, o: string, b: string, o': string)
    ensures ServerSlug(a, o) == ServerSlug(b, o') <==>
            Runs(if o == [] then Stripped(a) else o) == Runs(if o' == [] then Stripped(b) else o')
  {
    SameSlugExactly(if o == [] then Stripped(a) else o, if o' == [] then Stripped(b) else o');
  }
}
