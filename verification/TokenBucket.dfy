/** The token-bucket limiter of `backend/app/core/middleware.py`: one bucket per client,
    shared by all paths, although paths differ in refill rate and burst capacity. */
module TokenBucket {
  import opened Arithmetic

  type Seconds = n: nat | n > 0 witness 1
  type Factor = x: real | x >= 0.0

  datatype Config = Config(defaultLimit: nat, window: Seconds, burst: Factor, pathLimits: seq<(string, nat)>)

  /** The limits the middleware is built with. */
  const DEFAULT := Config(60, 60, 1.5,
    [("/api/v1/format", 10), ("/api/v1/validate", 30), ("/api/v1/preview", 20), ("/api/v1/styles", 100)])

  const EXEMPT := {"/health", "/metrics", "/ready", "/live"}

  datatype Bucket = Bucket(tokens: real, lastRefill: real)

  datatype Response =
    | Exempt
    | Limited(limit: nat, retryAfter: nat, resetAt: int)
    | Served(limit: nat, remaining: int, resetAt: int)

  /** The first configured pattern that the path starts with decides. */
  function LimitFor(limits: seq<(string, nat)>, default_: nat, path: string): nat {
    if limits == [] then default_
    else if limits[0].0 <= path then limits[0].1
    else LimitFor(limits[1..], default_, path)
  }

  function Limit(c: Config, path: string): nat {
    LimitFor(c.pathLimits, c.defaultLimit, path)
  }

  function Rate(c: Config, limit: nat): real {
    limit as real / c.window as real
  }

  function Capacity(c: Config, limit: nat): int {
    (limit as real * c.burst).Floor
  }

  function Min(a: real, b: real): real {
    if a < b then a else b
  }

  /** What the arithmetic of a configuration amounts to for the buckets: the initial fill,
      the cap of a path, and what a path refills in a given time. */
  datatype Policy = Policy(initial: int, cap: string -> int, gain: (string, real) -> real)

  function PolicyOf(c: Config): Policy {
    Policy(c.defaultLimit,
           path => Capacity(c, Limit(c, path)),
           (path, elapsed) => elapsed * Rate(c, Limit(c, path)))
  }

  /** What the bucket holds after the refill, before a token is taken. */
  function Refill(p: Policy, b: Bucket, path: string, now: real): real {
    Min(p.cap(path) as real, b.tokens + p.gain(path, now - b.lastRefill))
  }

  function After(p: Policy, b: Bucket, path: string, now: real): Bucket {
    var tokens := Refill(p, b, path, now);
    Bucket(if tokens < 1.0 then tokens else tokens - 1.0, now)
  }

  type Buckets = map<string, Bucket>

  /** A client seen for the first time starts with the initial fill. */
  function BucketOf(p: Policy, bs: Buckets, ip: string, now: real): Bucket {
    if ip in bs then bs[ip] else Bucket(p.initial as real, now)
  }

  class RateLimiter {
    const config: Config
    var buckets: Buckets

    constructor (config: Config)
      ensures this.config == config && buckets == map[]
    {
      this.config := config;
      buckets := map[];
    }

    method Dispatch(ip: string, path: string, now: real) returns (r: Response)
      modifies this
      ensures var p, q := PolicyOf(config), Request(ip, path, now);
              && buckets == Step(p, old(buckets), q)
              && r == if path in EXEMPT then Exempt
                      else if TakesToken(p, old(buckets), q)
                      then Served(Limit(config, path), buckets[ip].tokens.Floor, (now + config.window as real).Floor)
                      else Limited(Limit(config, path), config.window, (now + config.window as real).Floor)
    {
      if path in EXEMPT {
        return Exempt;
      }
      var limit := FindLimit(path);
      var bucket := if ip in buckets then buckets[ip] else Bucket(config.defaultLimit as real, now);
      var tokens := RefillTokens(bucket, path, limit, now);
      bucket := bucket.(tokens := tokens);
      bucket := bucket.(lastRefill := now);
      buckets := buckets[ip := bucket];
      if bucket.tokens < 1.0 {
        return Limited(limit, config.window, (now + config.window as real).Floor);
      }
      bucket := bucket.(tokens := bucket.tokens - 1.0);
      buckets := buckets[ip := bucket];
      return Served(limit, bucket.tokens.Floor, (bucket.lastRefill + config.window as real).Floor);
    }

    /** The refill arithmetic. */
    method RefillTokens(bucket: Bucket, path: string, limit: nat, now: real) returns (tokens: real)
      requires limit == Limit(config, path)
      ensures tokens == Refill(PolicyOf(config), bucket, path, now)
    {
      var refillRate := limit as real / config.window as real;
      var burstCapacity := (limit as real * config.burst).Floor;
      var elapsed := now - bucket.lastRefill;
      assert PolicyOf(config).gain(path, elapsed) == elapsed * refillRate;
      assert PolicyOf(config).cap(path) == burstCapacity;
      tokens := Min(burstCapacity as real, bucket.tokens + elapsed * refillRate);
    }

    /** The loop over the configured patterns. */
    method FindLimit(path: string) returns (limit: nat)
      ensures limit == Limit(config, path)
    {
      limit := config.defaultLimit;
      var i := 0;
      while i < |config.pathLimits|
        invariant 0 <= i <= |config.pathLimits| && limit == config.defaultLimit
        invariant Limit(config, path) == LimitFor(config.pathLimits[i..], config.defaultLimit, path)
      {
        if config.pathLimits[i].0 <= path {
          limit := config.pathLimits[i].1;
          break;
        }
        i := i + 1;
      }
    }
  }

  // ----- runs -----

  datatype Request = Request(ip: string, path: string, now: real)

  /** The clock does not run backwards. */
  ghost predicate Monotone(h: seq<Request>) {
    forall i, j :: 0 <= i < j < |h| ==> h[i].now <= h[j].now
  }

  function Step(p: Policy, bs: Buckets, q: Request): Buckets {
    if q.path in EXEMPT then bs
    else bs[q.ip := After(p, BucketOf(p, bs, q.ip, q.now), q.path, q.now)]
  }

  predicate TakesToken(p: Policy, bs: Buckets, q: Request) {
    q.path !in EXEMPT && Refill(p, BucketOf(p, bs, q.ip, q.now), q.path, q.now) >= 1.0
  }

  /** The buckets after the requests of `h`. */
  function Run(p: Policy, h: seq<Request>): Buckets {
    if h == [] then map[] else Step(p, Run(p, h[..|h| - 1]), h[|h| - 1])
  }

  /** Admissions of one client whose requests fall in the closed interval [s, t]. */
  ghost function Admissions(p: Policy, h: seq<Request>, ip: string, s: real, t: real): nat {
    if h == [] then 0
    else
      var g, q := h[..|h| - 1], h[|h| - 1];
      Admissions(p, g, ip, s, t) + (if q.ip == ip && s <= q.now <= t && TakesToken(p, Run(p, g), q) then 1 else 0)
  }

  // ----- the potential argument -----

  /** `top` bounds every cap; `f` grows at least as fast as any path
      refills. */
  ghost predicate Bounds(p: Policy, top: real, f: real -> real) {
    && 0.0 <= p.initial as real
    && (forall x, y :: x <= y ==> f(x) <= f(y))
    && (forall path :: 0.0 <= p.cap(path) as real <= top)
    && (forall path, x, y :: x <= y ==> GainWithin(p, path, x, y, f))
  }

  ghost predicate GainWithin(p: Policy, path: string, x: real, y: real, f: real -> real) {
    0.0 <= p.gain(path, y - x) <= f(y) - f(x)
  }

  /** What the client has been admitted in [s, t] so far plus what its bucket still holds
      is paid for by `top` and by the refills since `s`. */
  ghost predicate Potential(b: Bucket, admitted: nat, top: real, f: real -> real, s: real, t: real) {
    && 0.0 <= b.tokens <= top
    && (b.lastRefill < s ==> admitted == 0)
    && (s <= b.lastRefill <= t ==> admitted as real + b.tokens <= top + (f(b.lastRefill) - f(s)))
    && (admitted > 0 ==> admitted as real <= top + (f(t) - f(s)))
  }

  lemma PotentialKept(p: Policy, b: Bucket, path: string, now: real, admitted: nat, top: real, f: real -> real, s: real, t: real)
    requires Bounds(p, top, f) && b.lastRefill <= now
    requires Potential(b, admitted, top, f, s, t)
    ensures var one := if s <= now <= t && Refill(p, b, path, now) >= 1.0 then 1 else 0;
            Potential(After(p, b, path, now), admitted + one, top, f, s, t)
  {
    assert GainWithin(p, path, b.lastRefill, now, f);
    assert s <= now ==> f(s) <= f(now);
    assert now <= t ==> f(now) <= f(t);
  }

  /** A new client's first refill caps the initial fill, however large that is. */
  lemma PotentialStarts(p: Policy, path: string, now: real, top: real, f: real -> real, s: real, t: real)
    requires Bounds(p, top, f)
    ensures var b := Bucket(p.initial as real, now);
            var one := if s <= now <= t && Refill(p, b, path, now) >= 1.0 then 1 else 0;
            Potential(After(p, b, path, now), one, top, f, s, t)
  {
    assert GainWithin(p, path, now, now, f);
    assert s <= now ==> f(s) <= f(now);
    assert now <= t ==> f(now) <= f(t);
  }

  lemma {:induction false} PotentialHolds(p: Policy, h: seq<Request>, ip: string, top: real, f: real -> real, s: real, t: real)
    requires Monotone(h) && Bounds(p, top, f)
    ensures ip !in Run(p, h) ==> Admissions(p, h, ip, s, t) == 0
    ensures ip in Run(p, h) ==>
              && h != [] && Run(p, h)[ip].lastRefill <= h[|h| - 1].now
              && Potential(Run(p, h)[ip], Admissions(p, h, ip, s, t), top, f, s, t)
  {
    if h != [] {
      var g, q := h[..|h| - 1], h[|h| - 1];
      PotentialHolds(p, g, ip, top, f, s, t);
      if q.ip == ip && q.path !in EXEMPT {
        var b := BucketOf(p, Run(p, g), ip, q.now);
        if ip in Run(p, g) {
          PotentialKept(p, b, q.path, q.now, Admissions(p, g, ip, s, t), top, f, s, t);
        } else {
          PotentialStarts(p, q.path, q.now, top, f, s, t);
        }
      }
    }
  }

  // ----- the bounds of a configuration -----

  function LargestOf(limits: seq<(string, nat)>, default_: nat): nat {
    if limits == [] then default_ else Larger(limits[0].1, LargestOf(limits[1..], default_))
  }

  function LargestLimit(c: Config): nat {
    LargestOf(c.pathLimits, c.defaultLimit)
  }

  /** The largest burst capacity. */
  function Ceiling(c: Config): int {
    Capacity(c, LargestLimit(c))
  }

  lemma {:induction false} LimitIsBounded(limits: seq<(string, nat)>, default_: nat, path: string)
    ensures default_ <= LargestOf(limits, default_)
    ensures LimitFor(limits, default_, path) <= LargestOf(limits, default_)
  {
    if limits != [] {
      LimitIsBounded(limits[1..], default_, path);
    }
  }

  lemma MulMonotone(a: real, b: real, x: real)
    requires a <= b && x >= 0.0
    ensures a * x <= b * x
  {
  }

  lemma CapacityAndRateGrow(c: Config, l: nat, m: nat)
    requires l <= m
    ensures 0 <= Capacity(c, l) <= Capacity(c, m) && 0.0 <= Rate(c, l) <= Rate(c, m)
  {
    MulMonotone(0.0, l as real, c.burst);
    MulMonotone(l as real, m as real, c.burst);
    var w := 1.0 / c.window as real;
    MulMonotone(0.0, l as real, w);
    MulMonotone(l as real, m as real, w);
    assert Rate(c, l) == l as real * w && Rate(c, m) == m as real * w;
  }

  lemma GainIsBounded(r: real, rate: real, x: real, y: real)
    requires 0.0 <= r <= rate && x <= y
    ensures 0.0 <= (y - x) * r <= rate * y - rate * x
  {
    var d := y - x;
    MulMonotone(0.0, r, d);
    MulMonotone(r, rate, d);
    assert rate * d == rate * y - rate * x;
  }

  /** All requests of the client that are not exempt have at most the limit `l`. */
  predicate StaysWithin(c: Config, h: seq<Request>, ip: string, l: nat) {
    forall i :: 0 <= i < |h| && h[i].ip == ip && h[i].path !in EXEMPT ==> Limit(c, h[i].path) <= l
  }

  /** The policy with the paths above the limit `l` shut. */
  function Shut(c: Config, l: nat): Policy {
    Policy(c.defaultLimit,
           path => if Limit(c, path) <= l then Capacity(c, Limit(c, path)) else 0,
           (path, elapsed) => if Limit(c, path) <= l then elapsed * Rate(c, Limit(c, path)) else 0.0)
  }

  /** What the limit `l` refills up to a point in time. */
  function RefillOf(c: Config, l: nat): real -> real {
    x => Rate(c, l) * x
  }

  lemma PathBounds(c: Config, l: nat, path: string, x: real, y: real)
    requires x <= y
    ensures 0 <= Shut(c, l).cap(path) <= Capacity(c, l)
    ensures GainWithin(Shut(c, l), path, x, y, RefillOf(c, l))
  {
    RefillSpread(c, l, x, y);
    CapacityAndRateGrow(c, 0, l);
    var m := Limit(c, path);
    if m <= l {
      CapacityAndRateGrow(c, m, l);
      GainIsBounded(Rate(c, m), Rate(c, l), x, y);
    }
  }

  lemma RefillSpread(c: Config, l: nat, s: real, t: real)
    requires s <= t
    ensures RefillOf(c, l)(t) - RefillOf(c, l)(s) == Rate(c, l) * (t - s) >= 0.0
  {
    CapacityAndRateGrow(c, 0, l);
    GainIsBounded(Rate(c, l), Rate(c, l), s, t);
  }

  lemma ShutBounds(c: Config, l: nat)
    ensures Bounds(Shut(c, l), Capacity(c, l) as real, RefillOf(c, l))
  {
    var p, f := Shut(c, l), RefillOf(c, l);
    forall path: string ensures 0 <= p.cap(path) <= Capacity(c, l) {
      PathBounds(c, l, path, 0.0, 0.0);
    }
    forall path, x, y | x <= y ensures GainWithin(p, path, x, y, f) {
      PathBounds(c, l, path, x, y);
    }
    forall x, y | x <= y ensures f(x) <= f(y) {
      RefillSpread(c, l, x, y);
    }
  }

  /** To a client that stays within `l` the shut paths make no difference. */
  lemma {:induction false} ShutAgrees(c: Config, h: seq<Request>, ip: string, l: nat, s: real, t: real)
    requires StaysWithin(c, h, ip, l)
    ensures SameBucket(Run(PolicyOf(c), h), Run(Shut(c, l), h), ip)
    ensures Admissions(PolicyOf(c), h, ip, s, t) == Admissions(Shut(c, l), h, ip, s, t)
  {
    if h != [] {
      var g, q := h[..|h| - 1], h[|h| - 1];
      ShutAgrees(c, g, ip, l, s, t);
      if q.ip == ip && q.path !in EXEMPT {
        assert Limit(c, q.path) <= l;
        ShutRefill(c, l, BucketOf(PolicyOf(c), Run(PolicyOf(c), g), ip, q.now), q.path, q.now);
      }
    }
  }

  lemma ShutRefill(c: Config, l: nat, b: Bucket, path: string, now: real)
    requires Limit(c, path) <= l
    ensures Refill(PolicyOf(c), b, path, now) == Refill(Shut(c, l), b, path, now)
  {
  }

  lemma WithinLargest(c: Config, h: seq<Request>, ip: string)
    ensures StaysWithin(c, h, ip, LargestLimit(c))
  {
    forall i | 0 <= i < |h| ensures Limit(c, h[i].path) <= LargestLimit(c) {
      LimitIsBounded(c.pathLimits, c.defaultLimit, h[i].path);
    }
  }

  // ----- the results -----

  lemma AdmissionsWithin(p: Policy, h: seq<Request>, ip: string, top: real, f: real -> real, s: real, t: real)
    requires Monotone(h) && Bounds(p, top, f) && s <= t
    ensures Admissions(p, h, ip, s, t) as real <= top + (f(t) - f(s))
  {
    PotentialHolds(p, h, ip, top, f, s, t);
    assert 0.0 <= p.cap("") as real <= top;
    assert f(s) <= f(t);
  }

  /** A client that calls only paths with limits of at most `l` is admitted in any interval
      [s, t] at most as often as the burst capacity of `l` plus what `l` refills in that time,
      whatever other clients do. */
  lemma AdmissionsOfPaths(c: Config, h: seq<Request>, ip: string, l: nat, s: real, t: real)
    requires Monotone(h) && StaysWithin(c, h, ip, l) && s <= t
    ensures Admissions(PolicyOf(c), h, ip, s, t) as real <= Capacity(c, l) as real + Rate(c, l) * (t - s)
  {
    ShutBounds(c, l);
    ShutAgrees(c, h, ip, l, s, t);
    RefillSpread(c, l, s, t);
    AdmissionsWithin(Shut(c, l), h, ip, Capacity(c, l) as real, RefillOf(c, l), s, t);
  }

  /** In every run that mixes paths and clients, a client is admitted in any interval [s, t]
      at most as often as the largest burst capacity plus what the largest rate refills in
      that time. */
  lemma AdmissionsAreBounded(c: Config, h: seq<Request>, ip: string, s: real, t: real)
    requires Monotone(h) && s <= t
    ensures Admissions(PolicyOf(c), h, ip, s, t) as real
            <= Ceiling(c) as real + Rate(c, LargestLimit(c)) * (t - s)
  {
    WithinLargest(c, h, ip);
    AdmissionsOfPaths(c, h, ip, LargestLimit(c), s, t);
  }

  /** With the limits the middleware is built with: at most 250 requests in any minute. */
  lemma DefaultMinute(h: seq<Request>, ip: string, s: real)
    requires Monotone(h)
    ensures Admissions(PolicyOf(DEFAULT), h, ip, s, s + 60.0) <= 250
  {
    var l := DEFAULT.pathLimits;
    assert LargestOf(l[4..], 60) == 60;
    assert LargestOf(l[3..], 60) == 100 by { assert l[3..][1..] == l[4..]; }
    assert LargestOf(l[2..], 60) == 100 by { assert l[2..][1..] == l[3..]; }
    assert LargestOf(l[1..], 60) == 100 by { assert l[1..][1..] == l[2..]; }
    assert LargestLimit(DEFAULT) == 100;
    assert Ceiling(DEFAULT) == 150;
    AdmissionsAreBounded(DEFAULT, h, ip, s, s + 60.0);
  }

  /** A client that calls only paths with limits of at most `l` holds at most the burst
      capacity of `l`. */
  lemma TokensOfPaths(c: Config, h: seq<Request>, ip: string, l: nat)
    requires Monotone(h) && StaysWithin(c, h, ip, l) && ip in Run(PolicyOf(c), h)
    ensures 0.0 <= Run(PolicyOf(c), h)[ip].tokens <= Capacity(c, l) as real
  {
    ShutBounds(c, l);
    ShutAgrees(c, h, ip, l, 0.0, 0.0);
    PotentialHolds(Shut(c, l), h, ip, Capacity(c, l) as real, RefillOf(c, l), 0.0, 0.0);
  }

  /** In every run a bucket is never overdrawn and never holds more than the largest burst
      capacity. */
  lemma TokensStayInRange(c: Config, h: seq<Request>, ip: string)
    requires Monotone(h) && ip in Run(PolicyOf(c), h)
    ensures 0.0 <= Run(PolicyOf(c), h)[ip].tokens <= Ceiling(c) as real
  {
    WithinLargest(c, h, ip);
    TokensOfPaths(c, h, ip, LargestLimit(c));
  }

  /** The requests of one client, in order. */
  function OnlyOf(h: seq<Request>, ip: string): seq<Request> {
    if h == [] then []
    else if h[|h| - 1].ip == ip then OnlyOf(h[..|h| - 1], ip) + [h[|h| - 1]]
    else OnlyOf(h[..|h| - 1], ip)
  }

  lemma Snoc(p: Policy, g: seq<Request>, q: Request, ip: string, s: real, t: real)
    ensures Run(p, g + [q]) == Step(p, Run(p, g), q)
    ensures Admissions(p, g + [q], ip, s, t)
            == Admissions(p, g, ip, s, t) + (if q.ip == ip && s <= q.now <= t && TakesToken(p, Run(p, g), q) then 1 else 0)
  {
    assert (g + [q])[..|g + [q]| - 1] == g;
  }

  ghost predicate SameBucket(a: Buckets, b: Buckets, ip: string) {
    (ip in a <==> ip in b) && (ip in a ==> a[ip] == b[ip])
  }

  /** What a client gets depends on its own requests alone. */
  lemma {:induction false} ClientsAreIndependent(p: Policy, h: seq<Request>, ip: string, s: real, t: real)
    ensures SameBucket(Run(p, h), Run(p, OnlyOf(h, ip)), ip)
    ensures Admissions(p, h, ip, s, t) == Admissions(p, OnlyOf(h, ip), ip, s, t)
  {
    if h != [] {
      var g, q := h[..|h| - 1], h[|h| - 1];
      ClientsAreIndependent(p, g, ip, s, t);
      if q.ip == ip {
        Snoc(p, OnlyOf(g, ip), q, ip, s, t);
      }
    }
  }

  /** A rejected client that waits the advertised `Retry-After` is admitted, on a path whose
      burst capacity is at least one token; on any other path it is rejected again. */
  lemma RetryAfterSuffices(c: Config, b: Bucket, path: string, now: real)
    requires 0.0 <= b.tokens && b.lastRefill + c.window as real <= now
    ensures Refill(PolicyOf(c), b, path, now) >= 1.0 <==> Capacity(c, Limit(c, path)) >= 1
  {
    var l := Limit(c, path);
    var elapsed := now - b.lastRefill;
    assert PolicyOf(c).gain(path, elapsed) == elapsed * Rate(c, l);
    assert PolicyOf(c).cap(path) == Capacity(c, l);
    if l > 0 {
      WindowRefills(c, l, elapsed);
    } else {
      assert Capacity(c, 0) == 0;
    }
  }

  lemma WindowRefills(c: Config, l: nat, elapsed: real)
    requires l > 0 && elapsed >= c.window as real
    ensures elapsed * Rate(c, l) >= l as real
  {
    var r := Rate(c, l);
    assert c.window as real * r == l as real;
    MulMonotone(c.window as real, elapsed, r);
  }

  // ----- what a client gets at least -----

  /** The limit of a path is that of the first pattern that is a prefix of it, and the default
      where none is. */
  lemma {:induction false} LimitIsFirstMatch(limits: seq<(string, nat)>, default_: nat, path: string, i: nat)
    requires i <= |limits|
    requires forall k :: 0 <= k < i ==> !(limits[k].0 <= path)
    requires i < |limits| ==> limits[i].0 <= path
    ensures LimitFor(limits, default_, path) == if i < |limits| then limits[i].1 else default_
  {
    if i > 0 {
      LimitIsFirstMatch(limits[1..], default_, path, i - 1);
    }
  }

  /** The limits of the paths with the configuration the middleware is built with. */
  lemma DefaultLimits(rest: string)
    ensures Limit(DEFAULT, "/api/v1/format" + rest) == 10
    ensures Limit(DEFAULT, "/api/v1/validate" + rest) == 30
    ensures Limit(DEFAULT, "/api/v1/preview" + rest) == 20
    ensures Limit(DEFAULT, "/api/v1/styles" + rest) == 100
  {
    var l := DEFAULT.pathLimits;
    var f, v, p, y := "/api/v1/format" + rest, "/api/v1/validate" + rest, "/api/v1/preview" + rest, "/api/v1/styles" + rest;
    assert f[8] == 'f' && v[8] == 'v' && p[8] == 'p' && y[8] == 's';
    assert l[0].0[8] == 'f' && l[1].0[8] == 'v' && l[2].0[8] == 'p' && l[3].0[8] == 's';
    LimitIsFirstMatch(l, 60, f, 0);
    LimitIsFirstMatch(l, 60, v, 1);
    LimitIsFirstMatch(l, 60, p, 2);
    LimitIsFirstMatch(l, 60, y, 3);
  }

  /** A client without a request so far that was not exempt. */
  predicate IsNew(h: seq<Request>, ip: string) {
    forall i :: 0 <= i < |h| && h[i].ip == ip ==> h[i].path in EXEMPT
  }

  /** `k` requests for the same path at the same time. */
  function Volley(ip: string, path: string, now: real, k: nat): seq<Request> {
    if k == 0 then [] else Volley(ip, path, now, k - 1) + [Request(ip, path, now)]
  }

  lemma {:induction false} NewHasNoBucket(p: Policy, h: seq<Request>, ip: string, s: real, t: real)
    requires IsNew(h, ip)
    ensures ip !in Run(p, h) && Admissions(p, h, ip, s, t) == 0
  {
    if h != [] {
      NewHasNoBucket(p, h[..|h| - 1], ip, s, t);
    }
  }

  /** A request without any time to refill caps the tokens and takes one if there is one. */
  lemma VolleyStep(p: Policy, g: seq<Request>, ip: string, path: string, now: real, m: int)
    requires path !in EXEMPT && p.gain(path, 0.0) == 0.0
    requires BucketOf(p, Run(p, g), ip, now) == Bucket(m as real, now)
    ensures var n := Smaller(p.cap(path), m);
            var all := g + [Request(ip, path, now)];
            && Admissions(p, all, ip, now, now) == Admissions(p, g, ip, now, now) + (if n >= 1 then 1 else 0)
            && ip in Run(p, all) && Run(p, all)[ip] == Bucket((if n >= 1 then n - 1 else n) as real, now)
  {
    Snoc(p, g, Request(ip, path, now), ip, now, now);
  }

  /** Of `k` requests at `now`, the last of the run, `n` are served if there are so many, and the
      client's bucket holds the rest of the `n`. */
  ghost predicate Serves(p: Policy, all: seq<Request>, ip: string, now: real, k: nat, n: int) {
    && Admissions(p, all, ip, now, now) == Smaller(k, n)
    && (k > 0 ==> ip in Run(p, all) && Run(p, all)[ip] == Bucket((n - Smaller(k, n)) as real, now))
  }

  lemma {:induction false} VolleyOf(p: Policy, h: seq<Request>, ip: string, path: string, now: real, k: nat)
    requires IsNew(h, ip) && path !in EXEMPT && p.gain(path, 0.0) == 0.0 && p.cap(path) >= 0 && p.initial >= 0
    ensures Serves(p, h + Volley(ip, path, now, k), ip, now, k, Smaller(p.cap(path), p.initial))
  {
    if k == 0 {
      assert h + Volley(ip, path, now, k) == h;
      NewHasNoBucket(p, h, ip, now, now);
    } else {
      var g := h + Volley(ip, path, now, k - 1);
      VolleyOf(p, h, ip, path, now, k - 1);
      assert h + Volley(ip, path, now, k) == g + [Request(ip, path, now)];
      if k == 1 {
        assert g == h;
        NewHasNoBucket(p, h, ip, now, now);
      }
      NextOfVolley(p, g, ip, path, now, k - 1);
    }
  }

  lemma NextOfVolley(p: Policy, g: seq<Request>, ip: string, path: string, now: real, k: nat)
    requires path !in EXEMPT && p.gain(path, 0.0) == 0.0 && p.cap(path) >= 0 && p.initial >= 0
    requires Serves(p, g, ip, now, k, Smaller(p.cap(path), p.initial)) && (k == 0 ==> ip !in Run(p, g))
    ensures Serves(p, g + [Request(ip, path, now)], ip, now, k + 1, Smaller(p.cap(path), p.initial))
  {
    var n := Smaller(p.cap(path), p.initial);
    VolleyStep(p, g, ip, path, now, if k == 0 then p.initial else n - Smaller(k, n));
  }

  lemma PolicyAt(c: Config, path: string)
    ensures var p := PolicyOf(c);
            p.initial == c.defaultLimit && p.cap(path) == Capacity(c, Limit(c, path)) >= 0 && p.gain(path, 0.0) == 0.0
  {
    CapacityAndRateGrow(c, 0, Limit(c, path));
  }

  /** The burst capacity is the limit times the burst factor, rounded down. */
  lemma CapacityIsFloor(c: Config, l: nat)
    ensures Capacity(c, l) as real <= l as real * c.burst < (Capacity(c, l) + 1) as real
  {
  }

  /** Of a new client's requests for one path at one time exactly as many are admitted as the
      initial fill and the path's burst capacity both allow. */
  lemma FirstVolley(c: Config, h: seq<Request>, ip: string, path: string, now: real, k: nat)
    requires IsNew(h, ip) && path !in EXEMPT
    ensures Serves(PolicyOf(c), h + Volley(ip, path, now, k), ip, now, k, Smaller(Capacity(c, Limit(c, path)), c.defaultLimit))
  {
    PolicyAt(c, path);
    VolleyOf(PolicyOf(c), h, ip, path, now, k);
  }

  /** A client's bucket was last refilled by one of its requests. */
  lemma {:induction false} RefilledByRequest(p: Policy, h: seq<Request>, ip: string) returns (i: nat)
    requires ip in Run(p, h)
    ensures i < |h| && h[i].ip == ip && h[i].path !in EXEMPT && Run(p, h)[ip].lastRefill == h[i].now
  {
    var g, q := h[..|h| - 1], h[|h| - 1];
    if q.ip == ip && q.path !in EXEMPT {
      i := |h| - 1;
    } else {
      i := RefilledByRequest(p, g, ip);
    }
  }

  /** The time from `a` to `b` refills at least one token at the limit `l`. */
  predicate FarApart(c: Config, l: nat, a: real, b: real) {
    (b - a) * l as real >= c.window as real
  }

  /** All requests of the client are for paths of the limit `l`. */
  ghost predicate CallsOnly(c: Config, h: seq<Request>, ip: string, l: nat) {
    forall k :: 0 <= k < |h| && h[k].ip == ip ==> h[k].path !in EXEMPT && Limit(c, h[k].path) == l
  }

  ghost predicate AllFarApart(c: Config, h: seq<Request>, ip: string, l: nat) {
    forall j, k :: 0 <= j < k < |h| && h[j].ip == ip == h[k].ip ==> FarApart(c, l, h[j].now, h[k].now)
  }

  /** A client whose requests are at least `window / limit` seconds apart is always served, on
      paths of one limit whose burst capacity is at least one token. */
  lemma SpacedIsServed(c: Config, h: seq<Request>, ip: string, l: nat, i: nat)
    requires Monotone(h) && i < |h| && h[i].ip == ip && CallsOnly(c, h, ip, l) && AllFarApart(c, h, ip, l)
    requires c.defaultLimit >= 1 && Capacity(c, l) >= 1
    ensures TakesToken(PolicyOf(c), Run(PolicyOf(c), h[..i]), h[i])
  {
    LastRefillIsFar(c, h, ip, l, i);
    TokenIfFar(c, l, Run(PolicyOf(c), h[..i]), h[i]);
  }

  lemma TokenIfFar(c: Config, l: nat, bs: Buckets, q: Request)
    requires q.path !in EXEMPT && Limit(c, q.path) == l && c.defaultLimit >= 1 && Capacity(c, l) >= 1
    requires q.ip in bs ==> bs[q.ip].tokens >= 0.0 && FarApart(c, l, bs[q.ip].lastRefill, q.now)
    ensures TakesToken(PolicyOf(c), bs, q)
  {
    ServedAfter(c, BucketOf(PolicyOf(c), bs, q.ip, q.now), q.path, q.now);
  }

  lemma LastRefillIsFar(c: Config, h: seq<Request>, ip: string, l: nat, i: nat)
    requires Monotone(h) && i < |h| && h[i].ip == ip && AllFarApart(c, h, ip, l)
    ensures var bs := Run(PolicyOf(c), h[..i]);
            ip in bs ==> bs[ip].tokens >= 0.0 && FarApart(c, l, bs[ip].lastRefill, h[i].now)
  {
    if ip in Run(PolicyOf(c), h[..i]) {
      var j := RefilledByRequest(PolicyOf(c), h[..i], ip);
      assert h[j].ip == ip == h[i].ip;
      TokensStayInRange(c, h[..i], ip);
    }
  }

  lemma ServedAfter(c: Config, b: Bucket, path: string, now: real)
    requires Capacity(c, Limit(c, path)) >= 1
    requires (b.lastRefill == now && b.tokens >= 1.0) || (FarApart(c, Limit(c, path), b.lastRefill, now) && b.tokens >= 0.0)
    ensures Refill(PolicyOf(c), b, path, now) >= 1.0
  {
    var l := Limit(c, path);
    assert PolicyOf(c).cap(path) == Capacity(c, l) >= 1;
    assert PolicyOf(c).gain(path, now - b.lastRefill) == (now - b.lastRefill) * Rate(c, l);
    if b.lastRefill != now || b.tokens < 1.0 {
      OneTokenLater(c, l, now - b.lastRefill);
    }
  }

  lemma OneTokenLater(c: Config, l: nat, elapsed: real)
    requires elapsed * l as real >= c.window as real
    ensures elapsed * Rate(c, l) >= 1.0
  {
    var w := c.window as real;
    assert elapsed * Rate(c, l) == (elapsed * l as real) / w;
    assert (elapsed * l as real) / w >= w / w == 1.0;
  }
}
