/** ASCII letter case; characters outside A-Z are left alone. */
module AsciiCase {
  function LowerChar(c: char): char {
    if 'A' <= c <= 'Z' then c + 32 as char else c
  }

  function Lower(s: string): (l: string)
    ensures |l| == |s|
  {
    seq(|s|, i requires 0 <= i < |s| => LowerChar(s[i]))
  }

  const UPPER_CASE := "ABCDEFGHIJKLMNOPQRSTUVWXYZ"
  const LOWER_CASE := "abcdefghijklmnopqrstuvwxyz"

  /** Each of the 26 capitals becomes its small letter, and every other character stays. */
  lemma LowerExactly(s: string, i: nat)
    requires i < |s|
    ensures forall k | 0 <= k < 26 && s[i] == UPPER_CASE[k] :: Lower(s)[i] == LOWER_CASE[k]
    ensures s[i] !in UPPER_CASE ==> Lower(s)[i] == s[i]
  {
    if 'A' <= s[i] <= 'Z' {
      assert UPPER_CASE[s[i] as int - 65] == s[i];
    }
  }
}
