/** The sliding window of key-request latencies and the percentiles read from it. */
module Latency {
  const MAX_WINDOW_SIZE := 1000

  /** The last min(n, 1000) of n recorded latencies, in order. */
  function Last(all: seq<nat>): seq<nat> {
    if |all| <= MAX_WINDOW_SIZE then all else all[|all| - MAX_WINDOW_SIZE..]
  }

  // --------------------------------------------------------------------- sorting

  predicate Sorted(s: seq<nat>) {
    forall i, j :: 0 <= i < j < |s| ==> s[i] <= s[j]
  }

  function Insert(x: nat, s: seq<nat>): seq<nat> {
    if s == [] || x <= s[0] then [x] + s else [s[0]] + Insert(x, s[1..])
  }

  function Sort(s: seq<nat>): seq<nat> {
    if s == [] then [] else Insert(s[0], Sort(s[1..]))
  }

  /** How many entries of s are at most v. */
  function AtMost(s: seq<nat>, v: nat): nat {
    if s == [] then 0 else (if s[0] <= v then 1 else 0) + AtMost(s[1..], v)
  }

  /** How many entries of s are at least v. */
  function AtLeast(s: seq<nat>, v: nat): nat {
    if s == [] then 0 else (if s[0] >= v then 1 else 0) + AtLeast(s[1..], v)
  }

  lemma {:induction false} InsertKeeps(x: nat, s: seq<nat>, v: nat)
    ensures |Insert(x, s)| == |s| + 1
    ensures AtMost(Insert(x, s), v) == AtMost([x] + s, v)
    ensures AtLeast(Insert(x, s), v) == AtLeast([x] + s, v)
  {
    assert ([x] + s)[1..] == s;
    if s != [] && x > s[0] {
      InsertKeeps(x, s[1..], v);
      assert ([s[0]] + Insert(x, s[1..]))[1..] == Insert(x, s[1..]);
      assert ([x] + s[1..])[1..] == s[1..];
    }
  }

  /** Sorting moves entries and neither adds, drops nor changes one. */
  lemma {:induction false} SortKeeps(s: seq<nat>, v: nat)
    ensures |Sort(s)| == |s|
    ensures AtMost(Sort(s), v) == AtMost(s, v) && AtLeast(Sort(s), v) == AtLeast(s, v)
  {
    if s != [] {
      SortKeeps(s[1..], v);
      InsertKeeps(s[0], Sort(s[1..]), v);
      assert ([s[0]] + Sort(s[1..]))[1..] == Sort(s[1..]);
    }
  }

  lemma {:induction false} InsertSorts(x: nat, s: seq<nat>)
    requires Sorted(s)
    ensures Sorted(Insert(x, s))
    ensures forall i :: 0 <= i < |Insert(x, s)| ==> Insert(x, s)[i] == x || Insert(x, s)[i] in s
  {
    if s != [] && x > s[0] {
      InsertSorts(x, s[1..]);
    }
  }

  lemma {:induction false} SortSorts(s: seq<nat>)
    ensures Sorted(Sort(s))
  {
    if s != [] {
      SortSorts(s[1..]);
      InsertSorts(s[0], Sort(s[1..]));
    }
  }

  // --------------------------------------------------------------------- ranks

  lemma {:induction false} AllAtMost(s: seq<nat>, n: nat, v: nat)
    requires n <= |s| && forall i :: 0 <= i < n ==> s[i] <= v
    ensures AtMost(s, v) >= n
  {
    if n > 0 {
      AllAtMost(s[1..], n - 1, v);
    }
  }

  lemma {:induction false} AllAtLeast(s: seq<nat>, n: nat, v: nat)
    requires n <= |s| && forall i :: n <= i < |s| ==> s[i] >= v
    ensures AtLeast(s, v) >= |s| - n
  {
    if s != [] {
      AllAtLeast(s[1..], if n == 0 then 0 else n - 1, v);
    }
  }

  /** The index that q percent of n entries point at. */
  function Index(n: nat, q: nat): (i: nat)
    requires 0 < n && q < 100
    ensures i < n
  {
    assert n * q < n * 100;
    n * q / 100
  }

  lemma IndicesAreOrdered(n: nat, q: nat, q': nat)
    requires 0 < n && q <= q' < 100
    ensures Index(n, q) <= Index(n, q')
  {
    assert n * q <= n * q';
  }

  function Percentile(s: seq<nat>, q: nat): nat
    requires s != [] && q < 100
  {
    SortKeeps(s, 0);
    Sort(s)[Index(|s|, q)]
  }

  lemma RankOfSorted(s: seq<nat>, i: nat)
    requires Sorted(s) && i < |s|
    ensures AtMost(s, s[i]) >= i + 1 && AtLeast(s, s[i]) >= |s| - i
  {
    AllAtMost(s, i + 1, s[i]);
    AllAtLeast(s, i, s[i]);
  }

  /** With i = |s| * q / 100, at least i + 1 entries are at most the q-th percentile and at least |s| - i at least it. */
  lemma PercentileRank(s: seq<nat>, q: nat)
    requires s != [] && q < 100
    ensures AtMost(s, Percentile(s, q)) >= |s| * q / 100 + 1
    ensures AtLeast(s, Percentile(s, q)) >= |s| - |s| * q / 100
  {
    SortSorts(s);
    SortKeeps(s, Percentile(s, q));
    RankOfSorted(Sort(s), Index(|s|, q));
  }

  lemma PercentilesAreOrdered(s: seq<nat>, q: nat, q': nat)
    requires s != [] && q <= q' < 100
    ensures Percentile(s, q) <= Percentile(s, q')
  {
    SortSorts(s);
    SortKeeps(s, 0);
    IndicesAreOrdered(|s|, q, q');
  }

  // -------------------------------------------------------------------- the window

  datatype Metrics = Metrics(p50: nat, p95: nat, p99: nat, total: nat)

  /** The metrics collector's window; `recorded` is the history of all latencies it was given. */
  class LatencyWindow {
    var window: seq<nat>
    ghost var recorded: seq<nat>

    ghost predicate Valid()
      reads this
    {
      window == Last(recorded)
    }

    constructor ()
      ensures Valid() && recorded == []
    {
      window, recorded := [], [];
    }

    method RecordKeyRequestLatency(latencyMs: nat)
      requires Valid()
      modifies this
      ensures Valid() && recorded == old(recorded) + [latencyMs]
      ensures window == if |recorded| <= 1000 then recorded else recorded[|recorded| - 1000..]
    {
      recorded := recorded + [latencyMs];
      window := window + [latencyMs];
      if |window| > MAX_WINDOW_SIZE {
        window := window[1..];
      }
    }

    method GetMetrics() returns (m: Metrics)
      requires Valid()
      ensures m.total == |Last(recorded)|
      ensures m.total == 0 ==> m == Metrics(0, 0, 0, 0)
      ensures m.total > 0 ==> && m.p50 == Percentile(Last(recorded), 50)
                              && m.p95 == Percentile(Last(recorded), 95)
                              && m.p99 == Percentile(Last(recorded), 99)
      ensures m.p50 <= m.p95 <= m.p99
    {
      if window == [] {
        return Metrics(0, 0, 0, 0);
      }
      var sorted := Sort(window);
      SortKeeps(window, 0);
      PercentilesAreOrdered(window, 50, 95);
      PercentilesAreOrdered(window, 95, 99);
      var p50, p95, p99 := |sorted| * 50 / 100, |sorted| * 95 / 100, |sorted| * 99 / 100;
      return Metrics(
        if p50 < |sorted| then sorted[p50] else 0,
        if p95 < |sorted| then sorted[p95] else 0,
        if p99 < |sorted| then sorted[p99] else 0,
        |sorted|);
    }
  }
}
