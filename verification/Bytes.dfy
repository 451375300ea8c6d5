/** Bytes, fixed-width integers in both byte orders, and the shared result type. */
module Bytes {

  type byte = x: int | 0 <= x < 256

  datatype Option<+T> = None | Some(value: T)

  datatype Result<+T, +E> = Ok(value: T) | Err(error: E)
  {
    predicate IsFailure() {
      Err?
    }

    function PropagateFailure<U>(): Result<U, E>
      requires Err?
    {
      Err(error)
    }

    function Extract(): T
      requires Ok?
    {
      value
    }
  }

  function Pow256(k: nat): (p: nat)
    ensures p > 0
  {
    if k == 0 then 1 else 256 * Pow256(k - 1)
  }

  /** The k low bytes of n, least significant first. */
  function Le(n: nat, k: nat): (s: seq<byte>)
    ensures |s| == k
  {
    if k == 0 then [] else [n % 256] + Le(n / 256, k - 1)
  }

  function LeValue(s: seq<byte>): (n: nat) {
    if s == [] then 0 else s[0] + 256 * LeValue(s[1..])
  }

  /** The k low bytes of n, most significant first. */
  function Be(n: nat, k: nat): (s: seq<byte>)
    ensures |s| == k
  {
    if k == 0 then [] else Be(n / 256, k - 1) + [n % 256]
  }

  function BeValue(s: seq<byte>): (n: nat) {
    if s == [] then 0 else 256 * BeValue(s[..|s| - 1]) + s[|s| - 1]
  }

  lemma {:induction false} LeRoundTrip(n: nat, k: nat)
    requires n < Pow256(k)
    ensures LeValue(Le(n, k)) == n
  {
    if k > 0 {
      LeRoundTrip(n / 256, k - 1);
      assert Le(n, k)[1..] == Le(n / 256, k - 1);
    }
  }

  lemma {:induction false} LeCanonical(s: seq<byte>)
    ensures LeValue(s) < Pow256(|s|)
    ensures Le(LeValue(s), |s|) == s
  {
    if s != [] {
      LeCanonical(s[1..]);
      assert LeValue(s) % 256 == s[0] && LeValue(s) / 256 == LeValue(s[1..]);
    }
  }

  lemma {:induction false} BeRoundTrip(n: nat, k: nat)
    requires n < Pow256(k)
    ensures BeValue(Be(n, k)) == n
  {
    if k > 0 {
      BeRoundTrip(n / 256, k - 1);
      assert Be(n, k)[..k - 1] == Be(n / 256, k - 1);
    }
  }

  lemma {:induction false} BeCanonical(s: seq<byte>)
    ensures BeValue(s) < Pow256(|s|)
    ensures Be(BeValue(s), |s|) == s
  {
    if s != [] {
      BeCanonical(s[..|s| - 1]);
      assert BeValue(s) % 256 == s[|s| - 1] && BeValue(s) / 256 == BeValue(s[..|s| - 1]);
    }
  }

  lemma PutAfterTake(s: seq<byte>, n: nat)
    requires n <= |s|
    ensures s[..n] + s[n..] == s
  {
  }

  predicate FitsSigned(i: int, k: nat) {
    0 <= 2 * i + Pow256(k) < 2 * Pow256(k)
  }

  /** A two's-complement integer of k bytes, as the unsigned value of the same bits. */
  function Unsigned(i: int, k: nat): (n: nat)
    requires FitsSigned(i, k)
  {
    if i < 0 then i + Pow256(k) else i
  }

  function Signed(n: nat, k: nat): (i: int)
    requires n < Pow256(k)
  {
    if 2 * n >= Pow256(k) then n - Pow256(k) else n
  }

  lemma SignedRoundTrip(i: int, k: nat)
    requires FitsSigned(i, k)
    ensures Unsigned(i, k) < Pow256(k)
    ensures Signed(Unsigned(i, k), k) == i
  {
  }

  lemma UnsignedRoundTrip(n: nat, k: nat)
    requires n < Pow256(k)
    ensures FitsSigned(Signed(n, k), k)
    ensures Unsigned(Signed(n, k), k) == n
  {
  }
}
