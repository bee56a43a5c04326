/** The request timing log of `backend/app/core/middleware.py`: samples per path, trimmed when
    there are too many, and their percentiles. */
module Timing {
  import opened Arithmetic

  const MAX_SAMPLES := 10000

  const EXEMPT := {"/health", "/metrics", "/ready", "/live"}

  /** Python's slice from index `n` on: a negative index counts from the end. */
  function SliceFrom(samples: seq<real>, n: int): seq<real> {
    if n >= |samples| then []
    else if n >= 0 then samples[n..]
    else if |samples| + n > 0 then samples[|samples| + n..]
    else samples
  }

  /** Append a sample; beyond `max` only the slice from `-max // 2` on is kept. */
  function Record(samples: seq<real>, x: real, max: nat): seq<real> {
    var s := samples + [x];
    if |s| > max then SliceFrom(s, -(max as int) / 2) else s
  }

  datatype Metrics = Metrics(count: nat, avg: real, min: real, max: real, p50: real, p95: real, p99: real, total: real)

  function At(timings: map<string, seq<real>>, key: string): seq<real> {
    if key in timings then timings[key] else []
  }

  function Store(timings: map<string, seq<real>>, key: string, x: real): map<string, seq<real>> {
    timings[key := Record(At(timings, key), x, MAX_SAMPLES)]
  }

  /** `m` describes the samples `d`, whose sorted form is `s`. */
  predicate Summarises(m: Metrics, d: seq<real>, s: seq<real>)
    requires |s| == |d| > 0
  {
    && m.count == |d| && m.total == Total(d) && m.avg * |d| as real == m.total
    && m.min == s[0] && m.max == s[|s| - 1]
    && m.p50 == s[|s| / 2] && m.p95 == s[P95(|s|)] && m.p99 == s[P99(|s|)]
  }

  function Summary(d: seq<real>, s: seq<real>, low: real, high: real): (m: Metrics)
    requires |s| == |d| > 0
    ensures low == s[0] && high == s[|s| - 1] ==> Summarises(m, d, s)
  {
    Metrics(|d|, Average(Total(d), |d|), low, high, s[|s| / 2], s[P95(|s|)], s[P99(|s|)], Total(d))
  }

  class TimingMiddleware {
    var timings: map<string, seq<real>>

    constructor ()
      ensures timings == map[]
    {
      timings := map[];
    }

    method Dispatch(method_: string, path: string, elapsedMs: real)
      modifies this
      ensures timings == if path in EXEMPT then old(timings)
                         else Store(old(timings), method_ + " " + path, elapsedMs)
    {
      if path in EXEMPT {
        return;
      }
      var key := method_ + " " + path;
      var samples := if key in timings then timings[key] else [];
      samples := samples + [elapsedMs];
      timings := timings[key := samples];
      if |samples| > MAX_SAMPLES {
        timings := timings[key := SliceFrom(samples, -MAX_SAMPLES / 2)];
      }
    }

    method MetricsOf(key: string) returns (m: Metrics)
      requires key in timings && timings[key] != []
      ensures Summarises(m, timings[key], Sort(timings[key]))
    {
      var d := timings[key];
      SortedEnds(d);
      m := Summary(d, Sort(d), Min(d), Max(d));
    }
  }

  // ----- trimming -----

  /** The samples after the observations `h`. */
  function Run(h: seq<real>, max: nat): seq<real> {
    if h == [] then [] else Record(Run(h[..|h| - 1], max), h[|h| - 1], max)
  }

  /** How many samples a trim keeps. */
  function Kept(max: nat): nat {
    (max + 1) / 2
  }

  /** `k` counted round a cycle of length `c`. */
  function Cycle(k: nat, c: nat): nat
    requires c > 0
  {
    if k < c then k else Cycle(k - c, c)
  }

  lemma {:induction false} CycleStep(k: nat, c: nat)
    requires c > 0
    ensures Cycle(k, c) < c
    ensures Cycle(k + 1, c) == if Cycle(k, c) + 1 == c then 0 else Cycle(k, c) + 1
  {
    if k >= c {
      CycleStep(k - c, c);
    }
  }

  /** The number of samples after `n` observations. */
  function Length(n: nat, max: nat): nat
    requires max > 0
  {
    if n <= max then n else Kept(max) + Cycle(n - max - 1, max + 1 - Kept(max))
  }

  lemma NextLength(n: nat, max: nat)
    requires max > 0
    ensures Length(n, max) <= max && Length(n, max) <= n
    ensures Length(n + 1, max) == if Length(n, max) + 1 > max then Kept(max) else Length(n, max) + 1
  {
    if n > max {
      CycleStep(n - max - 1, max + 1 - Kept(max));
    }
  }

  /** The number of samples grows by one with every observation and falls to half the maximum
      when it would exceed it. */
  lemma LengthStep(n: nat, max: nat)
    requires max > 0
    ensures Length(n, max) <= max && Length(n, max) <= n
    ensures Length(n + 1, max) == if Length(n, max) + 1 > max then (max + 1) / 2 else Length(n, max) + 1
  {
    NextLength(n, max);
  }

  predicate IsSuffix(s: seq<real>, h: seq<real>, length: nat) {
    length <= |h| && s == h[|h| - length..]
  }

  lemma RecordSuffix(s: seq<real>, h: seq<real>, x: real, k: nat, max: nat)
    requires max > 0 && IsSuffix(s, h, k) && k <= max
    ensures IsSuffix(Record(s, x, max), h + [x], if k + 1 > max then Kept(max) else k + 1)
  {
    assert s + [x] == (h + [x])[|h| - k..];
    if k + 1 > max {
      assert -(max as int) / 2 == -(Kept(max) as int);
      assert (s + [x])[k + 1 - Kept(max)..] == (h + [x])[|h| + 1 - Kept(max)..];
    }
  }

  lemma RunStep(h: seq<real>, x: real, max: nat)
    ensures Run(h + [x], max) == Record(Run(h, max), x, max)
  {
    assert (h + [x])[..|h|] == h;
  }

  /** Across all trims the samples are a suffix of everything observed, never longer than the
      maximum; how long is a function of the number of observations. */
  lemma {:induction false} SamplesAreSuffix(h: seq<real>, max: nat)
    requires max > 0
    ensures Length(|h|, max) <= max && IsSuffix(Run(h, max), h, Length(|h|, max))
  {
    NextLength(|h|, max);
    if h != [] {
      var g, x := h[..|h| - 1], h[|h| - 1];
      assert h == g + [x];
      SamplesAreSuffix(g, max);
      NextLength(|g|, max);
      RunStep(g, x, max);
      RecordSuffix(Run(g, max), g, x, Length(|g|, max), max);
    }
  }

  // ----- several paths -----

  datatype Call = Call(method_: string, path: string, elapsedMs: real) {
    function Key(): string {
      method_ + " " + path
    }
  }

  /** The log after the calls `cs`. */
  function After(cs: seq<Call>): map<string, seq<real>> {
    if cs == [] then map[]
    else
      var c, before := cs[|cs| - 1], After(cs[..|cs| - 1]);
      if c.path in EXEMPT then before else Store(before, c.Key(), c.elapsedMs)
  }

  /** Everything observed for `key`. */
  function Observed(cs: seq<Call>, key: string): seq<real> {
    if cs == [] then []
    else
      var c, before := cs[|cs| - 1], Observed(cs[..|cs| - 1], key);
      if c.path !in EXEMPT && c.Key() == key then before + [c.elapsedMs] else before
  }

  /** Every key's log depends on that key's own observations alone. */
  lemma {:induction false} LogsAreIndependent(cs: seq<Call>, key: string)
    ensures At(After(cs), key) == Run(Observed(cs, key), MAX_SAMPLES)
    ensures key in After(cs) <==> Observed(cs, key) != []
  {
    if cs != [] {
      var c, before := cs[|cs| - 1], cs[..|cs| - 1];
      LogsAreIndependent(before, key);
      RunStep(Observed(before, key), c.elapsedMs, MAX_SAMPLES);
    }
  }

  lemma FirstBlank(m: string, path: string)
    requires ' ' !in m
    ensures (m + " " + path)[|m|] == ' ' && forall i :: 0 <= i < |m| ==> (m + " " + path)[i] != ' '
  {
    forall i | 0 <= i < |m| ensures (m + " " + path)[i] != ' ' {
      assert (m + " " + path)[i] == m[i];
    }
  }

  /** Different requests have different logs, as long as methods contain no blank. */
  lemma KeysDiffer(c: Call, d: Call)
    requires ' ' !in c.method_ && ' ' !in d.method_
    ensures c.Key() == d.Key() <==> c.method_ == d.method_ && c.path == d.path
  {
    if c.Key() == d.Key() {
      var m, n := |c.method_|, |d.method_|;
      FirstBlank(c.method_, c.path);
      FirstBlank(d.method_, d.path);
      assert c.Key()[..m] == c.method_ && d.Key()[..n] == d.method_;
      assert c.Key()[m + 1..] == c.path && d.Key()[n + 1..] == d.path;
    }
  }

  // ----- percentiles -----

  function Insert(x: real, s: seq<real>): seq<real> {
    if s == [] || x <= s[0] then [x] + s else [s[0]] + Insert(x, s[1..])
  }

  function Sort(d: seq<real>): (s: seq<real>)
    ensures |s| == |d|
  {
    if d == [] then [] else
      InsertLength(d[0], Sort(d[1..]));
      Insert(d[0], Sort(d[1..]))
  }

  lemma {:induction false} InsertLength(x: real, s: seq<real>)
    ensures |Insert(x, s)| == |s| + 1
  {
    if s != [] && x > s[0] {
      InsertLength(x, s[1..]);
    }
  }

  predicate Sorted(s: seq<real>) {
    forall i, j :: 0 <= i < j < |s| ==> s[i] <= s[j]
  }

  lemma {:induction false} InsertSorted(x: real, s: seq<real>)
    requires Sorted(s)
    ensures Sorted(Insert(x, s))
    ensures s != [] ==> Insert(x, s)[0] == if x <= s[0] then x else s[0]
  {
    if s != [] && x > s[0] {
      InsertSorted(x, s[1..]);
      Cons(s[0], Insert(x, s[1..]));
    }
  }

  lemma Cons(x: real, s: seq<real>)
    requires Sorted(s) && (s == [] || x <= s[0])
    ensures Sorted([x] + s)
  {
  }

  lemma {:induction false} InsertPermutes(x: real, s: seq<real>)
    ensures multiset(Insert(x, s)) == multiset(s) + multiset{x}
  {
    if s == [] || x <= s[0] {
      assert multiset([x] + s) == multiset{x} + multiset(s);
    } else {
      InsertPermutes(x, s[1..]);
      assert s == [s[0]] + s[1..];
    }
  }

  lemma {:induction false} SortIsSorted(d: seq<real>)
    ensures Sorted(Sort(d))
  {
    if d != [] {
      SortIsSorted(d[1..]);
      InsertSorted(d[0], Sort(d[1..]));
    }
  }

  lemma {:induction false} SortPermutes(d: seq<real>)
    ensures multiset(Sort(d)) == multiset(d)
  {
    if d != [] {
      SortPermutes(d[1..]);
      InsertPermutes(d[0], Sort(d[1..]));
      assert d == [d[0]] + d[1..];
    }
  }

  function Min(d: seq<real>): real
    requires d != []
  {
    if |d| == 1 || d[0] <= Min(d[1..]) then d[0] else Min(d[1..])
  }

  function Max(d: seq<real>): real
    requires d != []
  {
    if |d| == 1 || d[0] >= Max(d[1..]) then d[0] else Max(d[1..])
  }

  lemma {:induction false} InsertEnds(x: real, s: seq<real>)
    requires s != [] && Sorted(s)
    ensures |Insert(x, s)| == |s| + 1
    ensures Insert(x, s)[0] == if x <= s[0] then x else s[0]
    ensures Insert(x, s)[|s|] == if x >= s[|s| - 1] then x else s[|s| - 1]
  {
    InsertLength(x, s);
    if x > s[0] && |s| > 1 {
      InsertEnds(x, s[1..]);
    }
  }

  /** The first and the last of the sorted samples are the least and the greatest. */
  lemma {:induction false} SortedEnds(d: seq<real>)
    requires d != []
    ensures Min(d) == Sort(d)[0] && Max(d) == Sort(d)[|d| - 1]
  {
    if |d| > 1 {
      SortedEnds(d[1..]);
      SortIsSorted(d[1..]);
      InsertEnds(d[0], Sort(d[1..]));
    }
  }

  function Average(total: real, n: nat): (r: real)
    requires n > 0
    ensures r * n as real == total
  {
    total / n as real
  }

  /** 95 percent of `n`, rounded down. */
  function P95(n: nat): nat {
    n * 95 / 100
  }

  /** 99 percent of `n`, rounded down. */
  function P99(n: nat): nat {
    n * 99 / 100
  }

  lemma IndicesAreOrdered(n: nat)
    requires n > 0
    ensures n / 2 <= P95(n) <= P99(n) < n
  {
  }

  /** For every non-empty sample list the percentile indices are in range and
      min <= p50 <= p95 <= p99 <= max. */
  lemma PercentilesAreOrdered(d: seq<real>)
    requires d != []
    ensures var n := |d|;
            Min(d) <= Sort(d)[n / 2] <= Sort(d)[P95(n)] <= Sort(d)[P99(n)] <= Max(d)
  {
    IndicesAreOrdered(|d|);
    SortIsSorted(d);
    SortedEnds(d);
    SortedAt(Sort(d), |d| / 2, P95(|d|), P99(|d|));
  }

  lemma SortedAt(s: seq<real>, i: int, j: int, k: int)
    requires Sorted(s) && 0 <= i <= j <= k < |s|
    ensures s[0] <= s[i] <= s[j] <= s[k] <= s[|s| - 1]
  {
  }

  /** How many samples are below `v`. */
  function Below(d: seq<real>, v: real): nat {
    if d == [] then 0 else (if d[0] < v then 1 else 0) + Below(d[1..], v)
  }

  lemma {:induction false} InsertCounts(x: real, s: seq<real>, v: real)
    ensures Below(Insert(x, s), v) == Below([x] + s, v) && AtMost(Insert(x, s), v) == AtMost([x] + s, v)
  {
    if s != [] && x > s[0] {
      InsertCounts(x, s[1..], v);
      assert ([x] + s)[1..] == s && ([x] + s[1..])[1..] == s[1..];
    }
  }

  lemma {:induction false} SortCounts(d: seq<real>, v: real)
    ensures Below(Sort(d), v) == Below(d, v) && AtMost(Sort(d), v) == AtMost(d, v)
  {
    if d != [] {
      SortCounts(d[1..], v);
      InsertCounts(d[0], Sort(d[1..]), v);
      assert ([d[0]] + Sort(d[1..]))[1..] == Sort(d[1..]);
    }
  }

  lemma {:induction false} SortedCounts(s: seq<real>, k: nat, v: real)
    requires Sorted(s) && k < |s|
    ensures v == s[k] ==> Below(s, v) <= k < AtMost(s, v)
    ensures v <= s[0] ==> Below(s, v) == 0
  {
    if |s| > 1 {
      SortedCounts(s[1..], if k > 0 then k - 1 else 0, v);
    }
  }

  /** What a percentile means: the value at index `k` of the sorted samples has at most `k`
      samples below it and more than `k` at or below it. */
  lemma PercentileRank(d: seq<real>, k: nat)
    requires k < |d|
    ensures Below(d, Sort(d)[k]) <= k < AtMost(d, Sort(d)[k])
  {
    SortIsSorted(d);
    SortedCounts(Sort(d), k, Sort(d)[k]);
    SortCounts(d, Sort(d)[k]);
  }

  /** The reported percentiles are what they are called: at most half, 95 and 99 percent of the
      samples lie below them, and more than that at or below. */
  lemma PercentilesAreExact(d: seq<real>, s: seq<real>, m: Metrics)
    requires d != [] && s == Sort(d) && Summarises(m, d, s)
    ensures 2 * Below(d, m.p50) <= |d| < 2 * AtMost(d, m.p50)
    ensures 100 * Below(d, m.p95) <= 95 * |d| < 100 * AtMost(d, m.p95)
    ensures 100 * Below(d, m.p99) <= 99 * |d| < 100 * AtMost(d, m.p99)
  {
    IndicesAreOrdered(|d|);
    PercentileRank(d, |d| / 2);
    PercentileRank(d, P95(|d|));
    PercentileRank(d, P99(|d|));
  }
}
