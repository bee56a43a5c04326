/** Request metrics of `backend/app/core/telemetry.py`: a counter by method, endpoint and
    status group and a histogram by method and endpoint, fed by the same requests. */
module Telemetry {
  import opened Arithmetic
  import opened Finite
  import opened Text

  datatype Series = Series(method_: string, endpoint: string)

  /** The label of status group `g` reads `{g}xx`. */
  datatype Label = Label(series: Series, group: int)

  type Counts = map<Label, int>

  datatype Entry = Entry(sum: real, count: int, buckets: map<real, int>)

  type Entries = map<Series, Entry>

  function Get(c: Counts, l: Label): int {
    if l in c then c[l] else 0
  }

  function NewEntry(bounds: seq<real>): Entry {
    Entry(0.0, 0, map b | b in bounds :: 0)
  }

  function EntryOf(e: Entries, bounds: seq<real>, s: Series): Entry {
    if s in e then e[s] else NewEntry(bounds)
  }

  class Counter {
    var values: Counts

    constructor ()
      ensures values == map[]
    {
      values := map[];
    }

    method Inc(l: Label)
      modifies this
      ensures values == IncStep(old(values), l)
    {
      values := values[l := (if l in values then values[l] else 0) + 1];
    }

    method Reset()
      modifies this
      ensures values == map[]
    {
      values := map[];
    }
  }

  class Histogram {
    const bounds: seq<real>
    var values: Entries

    constructor (bounds: seq<real>)
      ensures this.bounds == bounds && values == map[]
    {
      this.bounds := bounds;
      values := map[];
    }

    ghost predicate Valid()
      reads this
    {
      forall s :: s in values ==> forall b :: b in bounds ==> b in values[s].buckets
    }

    method Observe(value: real, s: Series)
      requires Valid()
      modifies this
      ensures Valid() && values == ObserveStep(old(values), bounds, s, value)
    {
      var entry := if s in values then values[s] else NewEntry(bounds);
      entry := entry.(sum := entry.sum + value);
      entry := entry.(count := entry.count + 1);
      ghost var before := entry.buckets;
      for i := 0 to |bounds|
        invariant values == old(values)
        invariant entry.sum == EntryOf(old(values), bounds, s).sum + value
        invariant entry.count == EntryOf(old(values), bounds, s).count + 1
        invariant forall b :: b in bounds ==> b in entry.buckets
        invariant entry.buckets == Bumped(before, bounds[..i], value)
      {
        assert bounds[..i + 1][..i] == bounds[..i];
        if value <= bounds[i] {
          entry := entry.(buckets := entry.buckets[bounds[i] := entry.buckets[bounds[i]] + 1]);
        }
      }
      assert bounds[..|bounds|] == bounds;
      values := values[s := entry];
    }
  }

  class MetricsCollector {
    const requests: Counter
    const durations: Histogram

    constructor (bounds: seq<real>)
      ensures fresh(requests) && fresh(durations) && durations.Valid()
      ensures requests.values == map[] && durations.values == map[] && durations.bounds == bounds
    {
      requests := new Counter();
      durations := new Histogram(bounds);
    }

    method ObserveRequest(s: Series, statusCode: int, duration: real)
      requires durations.Valid()
      modifies requests, durations
      ensures durations.Valid()
      ensures requests.values == IncStep(old(requests.values), Label(s, statusCode / 100))
      ensures durations.values == ObserveStep(old(durations.values), durations.bounds, s, duration)
    {
      requests.Inc(Label(s, statusCode / 100));
      durations.Observe(duration, s);
    }

    method Reset()
      modifies requests, durations
      ensures durations.Valid() && requests.values == map[] && durations.values == map[]
    {
      requests.Reset();
      durations.values := map[];
    }
  }

  function IncStep(c: Counts, l: Label): Counts {
    c[l := Get(c, l) + 1]
  }

  /** The bucket loop: every bound at or above the value counts it. */
  function Bumped(buckets: map<real, int>, bounds: seq<real>, value: real): map<real, int> {
    if bounds == [] then buckets
    else
      var done := Bumped(buckets, bounds[..|bounds| - 1], value);
      var b := bounds[|bounds| - 1];
      if value <= b then done[b := (if b in done then done[b] else 0) + 1] else done
  }

  function ObserveStep(e: Entries, bounds: seq<real>, s: Series, value: real): Entries {
    var entry := EntryOf(e, bounds, s);
    e[s := Entry(entry.sum + value, entry.count + 1, Bumped(entry.buckets, bounds, value))]
  }

  // ----- interleavings of the locked sections -----

  /** The sections that run as one. A request is a counter section followed by a histogram
      section, and a reset clears the counters and then the histograms; sections of other
      threads may run in between. An observation that a clear overtakes comes before it: the
      entry being updated is no longer in the histogram. */
  datatype Section =
    | Inc(counted: Label)
    | Observe(series: Series, value: real)
    | ClearCounters
    | ClearHistograms

  datatype State = State(counts: Counts, entries: Entries)

  function Run(h: seq<Section>, bounds: seq<real>): State {
    if h == [] then State(map[], map[])
    else
      var s := Run(h[..|h| - 1], bounds);
      match h[|h| - 1]
      case Inc(l) => s.(counts := IncStep(s.counts, l))
      case Observe(k, v) => s.(entries := ObserveStep(s.entries, bounds, k, v))
      case ClearCounters => s.(counts := map[])
      case ClearHistograms => s.(entries := map[])
  }

  /** Counter sections of a label since the counters were last cleared. */
  ghost function Incs(h: seq<Section>, l: Label): nat {
    if h == [] then 0
    else match h[|h| - 1]
      case ClearCounters => 0
      case Inc(k) => Incs(h[..|h| - 1], l) + (if k == l then 1 else 0)
      case _ => Incs(h[..|h| - 1], l)
  }

  /** Counter sections of a series since the counters were last cleared. */
  ghost function SeriesIncs(h: seq<Section>, s: Series): nat {
    if h == [] then 0
    else match h[|h| - 1]
      case ClearCounters => 0
      case Inc(k) => SeriesIncs(h[..|h| - 1], s) + (if k.series == s then 1 else 0)
      case _ => SeriesIncs(h[..|h| - 1], s)
  }

  /** Values observed for a series since the histograms were last cleared. */
  ghost function Values(h: seq<Section>, s: Series): seq<real> {
    if h == [] then []
    else match h[|h| - 1]
      case ClearHistograms => []
      case Observe(k, v) => if k == s then Values(h[..|h| - 1], s) + [v] else Values(h[..|h| - 1], s)
      case _ => Values(h[..|h| - 1], s)
  }

  /** The request counter of a series, summed over the status groups. */
  ghost function SumOverGroups(c: Counts, s: Series): int {
    Sum(OfSeries(c, s))
  }

  function OfSeries(c: Counts, s: Series): Counts {
    map l | l in c && l.series == s :: c[l]
  }

  lemma SumAfterInc(c: Counts, l: Label, s: Series)
    ensures SumOverGroups(IncStep(c, l), s) == SumOverGroups(c, s) + (if l.series == s then 1 else 0)
  {
    if l.series == s {
      assert OfSeries(IncStep(c, l), s) == OfSeries(c, s)[l := Get(c, l) + 1];
      SumUpdate(OfSeries(c, s), l, Get(c, l) + 1);
    } else {
      assert OfSeries(IncStep(c, l), s) == OfSeries(c, s);
    }
  }

  /** Every counter is the number of its increments; summed over status groups it is the
      number of increments of the series. */
  lemma {:induction false} CountersAreExact(h: seq<Section>, bounds: seq<real>, s: Series)
    ensures forall l :: Get(Run(h, bounds).counts, l) == Incs(h, l)
    ensures SumOverGroups(Run(h, bounds).counts, s) == SeriesIncs(h, s)
  {
    if h == [] {
      assert OfSeries(map[], s) == map[];
    } else {
      var g := h[..|h| - 1];
      CountersAreExact(g, bounds, s);
      match h[|h| - 1]
      case Inc(l) => SumAfterInc(Run(g, bounds).counts, l, s);
      case ClearCounters => assert OfSeries(map[], s) == map[];
      case _ =>
    }
  }

  // ----- buckets -----

  /** How often a bound is listed. */
  function Multiplicity(bounds: seq<real>, b: real): nat {
    if bounds == [] then 0
    else Multiplicity(bounds[..|bounds| - 1], b) + (if bounds[|bounds| - 1] == b then 1 else 0)
  }

  lemma {:induction false} BumpedCounts(buckets: map<real, int>, bounds: seq<real>, value: real, b: real)
    requires b in buckets
    ensures b in Bumped(buckets, bounds, value)
    ensures Bumped(buckets, bounds, value)[b] == buckets[b] + (if value <= b then Multiplicity(bounds, b) else 0)
  {
    if bounds != [] {
      BumpedCounts(buckets, bounds[..|bounds| - 1], value, b);
    }
  }

  /** An entry that holds exactly the given values. */
  ghost predicate Holds(e: Entry, bounds: seq<real>, values: seq<real>) {
    && e.count == |values| && e.sum == Total(values)
    && forall b :: b in bounds ==> b in e.buckets && e.buckets[b] == Multiplicity(bounds, b) * AtMost(values, b)
  }

  lemma HoldsSnoc(e: Entry, bounds: seq<real>, values: seq<real>, v: real)
    requires Holds(e, bounds, values)
    ensures Holds(Entry(e.sum + v, e.count + 1, Bumped(e.buckets, bounds, v)), bounds, values + [v])
  {
    TotalSnoc(values, v);
    forall b | b in bounds
      ensures b in Bumped(e.buckets, bounds, v)
      ensures Bumped(e.buckets, bounds, v)[b] == Multiplicity(bounds, b) * AtMost(values + [v], b)
    {
      BumpedCounts(e.buckets, bounds, v, b);
      AtMostSnoc(values, v, b);
      OneMore(Multiplicity(bounds, b), AtMost(values, b));
    }
  }

  lemma OneMore(m: nat, n: nat)
    ensures m * (n + 1) == m * n + m
  {
  }

  /** The histogram entry of a series holds exactly the values observed since the
      histograms were last cleared. */
  lemma {:induction false} HistogramIsExact(h: seq<Section>, bounds: seq<real>, s: Series)
    ensures s in Run(h, bounds).entries <==> Values(h, s) != []
    ensures Holds(EntryOf(Run(h, bounds).entries, bounds, s), bounds, Values(h, s))
  {
    if h != [] {
      var g := h[..|h| - 1];
      HistogramIsExact(g, bounds, s);
      match h[|h| - 1]
      case Observe(k, v) =>
        if k == s {
          HoldsSnoc(EntryOf(Run(g, bounds).entries, bounds, s), bounds, Values(g, s), v);
        }
      case _ =>
    }
  }

  // ----- results -----

  datatype Request = Request(series: Series, statusCode: int, duration: real)

  /** Requests that run one after the other, with resets (None) in between. */
  function Sequential(rs: seq<Option<Request>>): seq<Section> {
    if rs == [] then []
    else
      Sequential(rs[..|rs| - 1]) +
      match rs[|rs| - 1]
      case None => [ClearCounters, ClearHistograms]
      case Some(r) => [Inc(Label(r.series, r.statusCode / 100)), Observe(r.series, r.duration)]
  }

  lemma {:induction false} SequentialBalances(rs: seq<Option<Request>>, s: Series)
    ensures SeriesIncs(Sequential(rs), s) == |Values(Sequential(rs), s)|
  {
    if rs != [] {
      var g := Sequential(rs[..|rs| - 1]);
      SequentialBalances(rs[..|rs| - 1], s);
      match rs[|rs| - 1]
      case None =>
        assert (g + [ClearCounters, ClearHistograms])[..|g| + 1] == g + [ClearCounters];
      case Some(r) =>
        var x, y := Inc(Label(r.series, r.statusCode / 100)), Observe(r.series, r.duration);
        assert (g + [x, y])[..|g| + 1] == g + [x] && (g + [x])[..|g|] == g;
    }
  }

  /** Conservation: over all runs of requests and resets the request counter of a series,
      summed over status groups, equals the count of its histogram. */
  lemma CounterEqualsHistogram(rs: seq<Option<Request>>, bounds: seq<real>, s: Series)
    ensures var st := Run(Sequential(rs), bounds);
            SumOverGroups(st.counts, s) == EntryOf(st.entries, bounds, s).count
  {
    SequentialBalances(rs, s);
    CountersAreExact(Sequential(rs), bounds, s);
    HistogramIsExact(Sequential(rs), bounds, s);
  }

  /** With interleaved sections the two differ by the requests that are between their two
      sections or fall between the two clears of a reset: increments since the counters were
      cleared less observations since the histograms were. */
  lemma InFlightDifference(h: seq<Section>, bounds: seq<real>, s: Series)
    ensures var st := Run(h, bounds);
            SumOverGroups(st.counts, s) - EntryOf(st.entries, bounds, s).count == SeriesIncs(h, s) - |Values(h, s)|
  {
    CountersAreExact(h, bounds, s);
    HistogramIsExact(h, bounds, s);
  }

  lemma {:induction false} AtMostMonotone(values: seq<real>, a: real, b: real)
    requires a <= b
    ensures AtMost(values, a) <= AtMost(values, b) <= |values|
  {
    if values != [] {
      AtMostMonotone(values[1..], a, b);
    }
  }

  /** Each bucket counts the observations at or below its bound exactly when its bound is
      listed once (or there are none to count). */
  lemma BucketIsExact(h: seq<Section>, bounds: seq<real>, s: Series, b: real)
    requires b in bounds
    ensures var e := EntryOf(Run(h, bounds).entries, bounds, s);
            b in e.buckets &&
            (e.buckets[b] == AtMost(Values(h, s), b) <==> Multiplicity(bounds, b) == 1 || AtMost(Values(h, s), b) == 0)
  {
    HistogramIsExact(h, bounds, s);
    var n, m := AtMost(Values(h, s), b), Multiplicity(bounds, b);
    if m * n == n && n != 0 {
      assert (m - 1) * n == 0;
    }
  }

  /** With distinct bounds the buckets grow with their bounds and never exceed the +Inf
      bucket, which is the count. */
  lemma BucketsAreCumulative(h: seq<Section>, bounds: seq<real>, s: Series, a: real, b: real)
    requires a in bounds && b in bounds && a <= b
    requires Multiplicity(bounds, a) == 1 == Multiplicity(bounds, b)
    ensures var e := EntryOf(Run(h, bounds).entries, bounds, s);
            a in e.buckets && b in e.buckets && 0 <= e.buckets[a] <= e.buckets[b] <= e.count
  {
    HistogramIsExact(h, bounds, s);
    AtMostMonotone(Values(h, s), a, b);
  }
}
