/** The sliding-window limiter of `backend/app/middleware/rate_limit.py`: per subject a log
    of request times, trimmed to the last 60 seconds on every request. */
module SlidingLog {
  import opened Arithmetic
  import opened Text

  const WINDOW := 60.0

  type Log = seq<real>
  type Store = map<string, Log>

  function LogOf(s: Store, subject: string): Log {
    if subject in s then s[subject] else []
  }

  /** The entries later than `cutoff`, in order. */
  function After(log: Log, cutoff: real): Log {
    if log == [] then []
    else if log[0] > cutoff then [log[0]] + After(log[1..], cutoff)
    else After(log[1..], cutoff)
  }

  datatype Response = Passed | TooMany(retryAfter: int)

  /** A request as the limiter sees it: uploads with a bearer token are counted per address
      and token fingerprint. `redis` is the count Redis returned, if it answered. */
  datatype Request = Request(path: string, method_: string, ip: string, fingerprint: Option<string>,
                             redis: Option<int>, now: real) {
    predicate IsHealth() {
      path == "/health"
    }

    predicate IsUpload() {
      path == "/api/v1/documents/upload" && method_ == "POST"
    }

    function Subject(): string {
      if IsUpload() && fingerprint.Some? then ip + ":" + fingerprint.value else ip
    }

    function AsHit(): Hit {
      Hit.Hit(Subject(), now, redis)
    }
  }

  /** What one of the two stores gets to see of a request. */
  datatype Hit = Hit(subject: string, now: real, redis: Option<int>)

  class RateLimiter {
    const requestsPerMinute: int
    const uploadsPerMinute: int
    var requestCounts: Store
    var uploadRequestCounts: Store

    constructor (requestsPerMinute: int, uploadsPerMinute: int)
      ensures this.requestsPerMinute == requestsPerMinute && this.uploadsPerMinute == uploadsPerMinute
      ensures requestCounts == map[] && uploadRequestCounts == map[]
    {
      this.requestsPerMinute := requestsPerMinute;
      this.uploadsPerMinute := uploadsPerMinute;
      requestCounts, uploadRequestCounts := map[], map[];
    }

    /** Evict old entries, add the new one, return the count. */
    method InMemoryCount(subject: string, isUpload: bool, now: real) returns (count: nat)
      modifies this
      ensures if isUpload
              then requestCounts == old(requestCounts)
                   && uploadRequestCounts == Logged(old(uploadRequestCounts), subject, now)
                   && count == |uploadRequestCounts[subject]|
              else uploadRequestCounts == old(uploadRequestCounts)
                   && requestCounts == Logged(old(requestCounts), subject, now)
                   && count == |requestCounts[subject]|
    {
      var store := if isUpload then uploadRequestCounts else requestCounts;
      var cutoff := now - WINDOW;
      var log := LogOf(store, subject);
      var kept: Log := [];
      for i := 0 to |log|
        invariant requestCounts == old(requestCounts) && uploadRequestCounts == old(uploadRequestCounts)
        invariant kept == After(log[..i], cutoff)
      {
        assert log[..i + 1] == log[..i] + [log[i]];
        AfterSnoc(log[..i], log[i], cutoff);
        if log[i] > cutoff {
          kept := kept + [log[i]];
        }
      }
      assert log[..|log|] == log;
      kept := kept + [now];
      store := store[subject := kept];
      if isUpload {
        uploadRequestCounts := store;
      } else {
        requestCounts := store;
      }
      count := |kept|;
    }

    method Dispatch(q: Request) returns (r: Response)
      modifies this
      ensures (requestCounts, uploadRequestCounts) == StepBoth(old((requestCounts, uploadRequestCounts)), q)
      ensures q.IsHealth() ==> r == Passed
      ensures !q.IsHealth() ==>
                r == if Allowed(LogOf(if q.IsUpload() then old(uploadRequestCounts) else old(requestCounts), q.Subject()),
                                if q.IsUpload() then uploadsPerMinute else requestsPerMinute, q.AsHit())
                     then Passed else TooMany(60)
    {
      if q.path == "/health" {
        return Passed;
      }
      var isUpload := q.path == "/api/v1/documents/upload" && q.method_ == "POST";
      var subject, limit := q.ip, requestsPerMinute;
      if isUpload {
        if q.fingerprint.Some? {
          subject := q.ip + ":" + q.fingerprint.value;
        }
        limit := uploadsPerMinute;
      }
      var count: int := InMemoryCount(subject, isUpload, q.now);
      if q.redis.Some? {
        count := Larger(count, q.redis.value);
      }
      if count > limit {
        return TooMany(60);
      }
      return Passed;
    }
  }

  /** A subject's log after one of its requests. */
  function Appended(log: Log, now: real): Log {
    After(log, now - WINDOW) + [now]
  }

  function Logged(s: Store, subject: string, now: real): Store {
    s[subject := Appended(LogOf(s, subject), now)]
  }

  /** What a request does to the general store and the upload store. */
  function StepBoth(stores: (Store, Store), q: Request): (Store, Store) {
    if q.IsHealth() then stores
    else if q.IsUpload() then (stores.0, Logged(stores.1, q.Subject(), q.now))
    else (Logged(stores.0, q.Subject(), q.now), stores.1)
  }

  /** The verdict: the larger of the in-memory count and the Redis count against the limit. */
  predicate Allowed(log: Log, limit: int, q: Hit) {
    var count := |Appended(log, q.now)|;
    (if q.redis.Some? then Larger(count, q.redis.value) else count) <= limit
  }

  // ----- histories of one of the two stores -----

  /** The clock does not run backwards. */
  ghost predicate Monotone(h: seq<Hit>) {
    forall i, j :: 0 <= i < j < |h| ==> h[i].now <= h[j].now
  }

  function Run(h: seq<Hit>): Store {
    if h == [] then map[] else Logged(Run(h[..|h| - 1]), h[|h| - 1].subject, h[|h| - 1].now)
  }

  /** The log a run leaves for one subject. */
  function LogRun(h: seq<Hit>, subject: string): Log {
    if h == [] then []
    else
      var log := LogRun(h[..|h| - 1], subject);
      if h[|h| - 1].subject == subject then Appended(log, h[|h| - 1].now) else log
  }

  /** Subjects do not get in each other's way. */
  lemma {:induction false} SubjectsAreIndependent(h: seq<Hit>, subject: string)
    ensures LogOf(Run(h), subject) == LogRun(h, subject)
  {
    if h != [] {
      SubjectsAreIndependent(h[..|h| - 1], subject);
    }
  }

  /** Times of all requests of a subject, rejected ones included. */
  ghost function Times(h: seq<Hit>, subject: string): Log {
    if h == [] then []
    else
      var rest := Times(h[..|h| - 1], subject);
      if h[|h| - 1].subject == subject then rest + [h[|h| - 1].now] else rest
  }

  lemma {:induction false} AfterTwice(log: Log, a: real, b: real)
    requires a <= b
    ensures After(After(log, a), b) == After(log, b)
  {
    if log != [] {
      AfterTwice(log[1..], a, b);
    }
  }

  lemma {:induction false} AfterSnoc(log: Log, x: real, cutoff: real)
    ensures After(log + [x], cutoff) == if x > cutoff then After(log, cutoff) + [x] else After(log, cutoff)
  {
    if log == [] {
      assert log + [x] == [x];
    } else {
      assert (log + [x])[1..] == log[1..] + [x];
      AfterSnoc(log[1..], x, cutoff);
    }
  }

  lemma {:induction false} TimesAreOld(h: seq<Hit>, subject: string, now: real)
    requires Monotone(h) && (h != [] ==> h[|h| - 1].now <= now)
    ensures forall i :: 0 <= i < |Times(h, subject)| ==> Times(h, subject)[i] <= now
  {
    if h != [] {
      TimesAreOld(h[..|h| - 1], subject, now);
    }
  }

  /** `log` is the last 60 seconds of `times`, seen from the last entry. */
  ghost predicate IsRecent(log: Log, times: Log) {
    if times == [] then log == [] else log == After(times, times[|times| - 1] - WINDOW)
  }

  /** Trimming on the way loses nothing that a later request would still count. */
  lemma RecentLater(log: Log, times: Log, now: real)
    requires IsRecent(log, times) && (times != [] ==> times[|times| - 1] <= now)
    ensures After(log, now - WINDOW) == After(times, now - WINDOW)
  {
    if times != [] {
      AfterTwice(times, times[|times| - 1] - WINDOW, now - WINDOW);
    }
  }

  lemma RecentStep(log: Log, times: Log, now: real)
    requires IsRecent(log, times) && (times != [] ==> times[|times| - 1] <= now)
    ensures IsRecent(Appended(log, now), times + [now])
  {
    RecentLater(log, times, now);
    AfterSnoc(times, now, now - WINDOW);
  }

  /** After every request the stored log is the subject's whole history, rejected requests
      included, cut to the last 60 seconds. */
  lemma {:induction false} StoredLog(h: seq<Hit>, subject: string)
    requires Monotone(h)
    ensures IsRecent(LogRun(h, subject), Times(h, subject))
  {
    if h != [] {
      var g, q := h[..|h| - 1], h[|h| - 1];
      StoredLog(g, subject);
      if q.subject == subject {
        TimesAreOld(g, subject, q.now);
        RecentStep(LogRun(g, subject), Times(g, subject), q.now);
      }
    }
  }

  lemma LogIsHistory(h: seq<Hit>, subject: string, now: real)
    requires Monotone(h) && (h != [] ==> h[|h| - 1].now <= now)
    ensures After(LogRun(h, subject), now - WINDOW) == After(Times(h, subject), now - WINDOW)
  {
    StoredLog(h, subject);
    TimesAreOld(h, subject, now);
    RecentLater(LogRun(h, subject), Times(h, subject), now);
  }

  // ----- what is admitted -----

  /** A half-open interval of 60 seconds, closed on the left or on the right. */
  predicate InWindow(x: real, a: real, leftClosed: bool) {
    if leftClosed then a <= x < a + 60.0 else a < x <= a + 60.0
  }

  ghost function CountIn(log: Log, a: real, leftClosed: bool): nat {
    if log == [] then 0
    else (if InWindow(log[0], a, leftClosed) then 1 else 0) + CountIn(log[1..], a, leftClosed)
  }

  lemma {:induction false} CountInSnoc(log: Log, x: real, a: real, leftClosed: bool)
    ensures CountIn(log + [x], a, leftClosed) == CountIn(log, a, leftClosed) + (if InWindow(x, a, leftClosed) then 1 else 0)
  {
    if log == [] {
      assert log + [x] == [x];
    } else {
      assert (log + [x])[1..] == log[1..] + [x];
      CountInSnoc(log[1..], x, a, leftClosed);
    }
  }

  /** Admitted requests of a subject in the interval that starts at `a`. */
  ghost function AdmittedIn(h: seq<Hit>, limit: int, subject: string, a: real, leftClosed: bool): nat {
    if h == [] then 0
    else
      var g, q := h[..|h| - 1], h[|h| - 1];
      AdmittedIn(g, limit, subject, a, leftClosed)
      + (if q.subject == subject && InWindow(q.now, a, leftClosed) && Allowed(LogRun(g, subject), limit, q) then 1 else 0)
  }

  lemma {:induction false} WindowIsRecent(log: Log, a: real, leftClosed: bool, now: real)
    requires InWindow(now, a, leftClosed)
    ensures CountIn(log, a, leftClosed) <= |After(log, now - WINDOW)|
  {
    if log != [] {
      WindowIsRecent(log[1..], a, leftClosed, now);
    }
  }

  lemma {:induction false} AdmittedAreRequests(h: seq<Hit>, limit: int, subject: string, a: real, leftClosed: bool)
    ensures AdmittedIn(h, limit, subject, a, leftClosed) <= CountIn(Times(h, subject), a, leftClosed)
  {
    if h != [] {
      AdmittedAreRequests(h[..|h| - 1], limit, subject, a, leftClosed);
      CountInSnoc(Times(h[..|h| - 1], subject), h[|h| - 1].now, a, leftClosed);
    }
  }

  /** Whatever Redis answers, a subject is admitted at most `limit` times in any half-open
      60 seconds. */
  lemma {:induction false} AtMostLimit(h: seq<Hit>, limit: int, subject: string, a: real, leftClosed: bool)
    requires Monotone(h)
    ensures AdmittedIn(h, limit, subject, a, leftClosed) <= Larger(0, limit)
  {
    if h != [] {
      var g, q := h[..|h| - 1], h[|h| - 1];
      AtMostLimit(g, limit, subject, a, leftClosed);
      if q.subject == subject && InWindow(q.now, a, leftClosed) {
        LogIsHistory(g, subject, q.now);
        AdmittedAreRequests(g, limit, subject, a, leftClosed);
        WindowIsRecent(Times(g, subject), a, leftClosed, q.now);
      }
    }
  }

  lemma {:induction false} TimesAreSorted(h: seq<Hit>, subject: string)
    requires Monotone(h)
    ensures forall i, j :: 0 <= i < j < |Times(h, subject)| ==> Times(h, subject)[i] <= Times(h, subject)[j]
  {
    if h != [] {
      TimesAreSorted(h[..|h| - 1], subject);
      TimesAreOld(h[..|h| - 1], subject, h[|h| - 1].now);
    }
  }

  /** `log` is what `times` holds from index `n` on, which is everything later than `cutoff`. */
  predicate IsTail(log: Log, times: Log, n: nat, cutoff: real) {
    && n <= |times| && log == times[n..]
    && (forall i :: 0 <= i < n ==> times[i] <= cutoff)
    && forall i :: n <= i < |times| ==> times[i] > cutoff
  }

  lemma {:induction false} AfterIsTail(times: Log, cutoff: real) returns (n: nat)
    requires forall i, j :: 0 <= i < j < |times| ==> times[i] <= times[j]
    ensures IsTail(After(times, cutoff), times, n, cutoff)
  {
    n := 0;
    if times != [] {
      n := AfterIsTail(times[1..], cutoff);
      if times[0] <= cutoff {
        n := n + 1;
      } else {
        assert forall i :: 0 <= i < |times[1..]| ==> times[1..][i] >= times[0];
        assert times == [times[0]] + times[1..];
      }
    }
  }

  /** After a subject's request its stored log is the end of its whole history, rejected requests
      included, that begins with the first request less than 60 seconds before. */
  lemma StoredLogIsTail(h: seq<Hit>, subject: string) returns (n: nat)
    requires Monotone(h) && h != [] && h[|h| - 1].subject == subject
    ensures IsTail(LogOf(Run(h), subject), Times(h, subject), n, h[|h| - 1].now - 60.0)
  {
    SubjectsAreIndependent(h, subject);
    StoredLog(h, subject);
    TimesAreSorted(h, subject);
    n := AfterIsTail(Times(h, subject), h[|h| - 1].now - 60.0);
  }

  /** A request is admitted exactly when fewer than `limit` requests of its subject, admitted
      or not, came in the last 60 seconds and Redis, if it answered, counted no more than
      `limit`: a Redis count only makes a verdict stricter. */
  lemma VerdictFromHistory(h: seq<Hit>, limit: int, q: Hit) returns (n: nat)
    requires Monotone(h) && (h != [] ==> h[|h| - 1].now <= q.now)
    ensures var times := Times(h, q.subject);
            && n <= |times|
            && (forall i :: 0 <= i < |times| ==> (times[i] > q.now - 60.0 <==> n <= i))
            && (Allowed(LogOf(Run(h), q.subject), limit, q) <==> |times| - n < limit && (q.redis.Some? ==> q.redis.value <= limit))
    ensures Allowed(LogOf(Run(h), q.subject), limit, q) ==> Allowed(LogOf(Run(h), q.subject), limit, q.(redis := None))
  {
    SubjectsAreIndependent(h, q.subject);
    LogIsHistory(h, q.subject, q.now);
    TimesAreSorted(h, q.subject);
    n := AfterIsTail(Times(h, q.subject), q.now - 60.0);
  }

  // ----- the two stores -----

  /** The general store and the upload store after the requests `qs`. */
  function RunBoth(qs: seq<Request>): (Store, Store) {
    if qs == [] then (map[], map[]) else StepBoth(RunBoth(qs[..|qs| - 1]), qs[|qs| - 1])
  }

  /** What the upload store sees: requests that post to the upload path, by address, and by
      token fingerprint where there is one. */
  ghost function UploadHits(qs: seq<Request>): seq<Hit> {
    if qs == [] then []
    else
      var before, q := UploadHits(qs[..|qs| - 1]), qs[|qs| - 1];
      if q.path == "/api/v1/documents/upload" && q.method_ == "POST"
      then before + [Hit.Hit(match q.fingerprint case None => q.ip case Some(f) => q.ip + ":" + f, q.now, q.redis)]
      else before
  }

  /** What the general store sees: everything else but health checks, by address. */
  ghost function GeneralHits(qs: seq<Request>): seq<Hit> {
    if qs == [] then []
    else
      var before, q := GeneralHits(qs[..|qs| - 1]), qs[|qs| - 1];
      if q.path == "/health" || (q.path == "/api/v1/documents/upload" && q.method_ == "POST") then before
      else before + [Hit.Hit(q.ip, q.now, q.redis)]
  }

  /** Uploads and other requests are counted apart, and health checks not at all. */
  lemma {:induction false} StoresAreApart(qs: seq<Request>)
    ensures RunBoth(qs) == (Run(GeneralHits(qs)), Run(UploadHits(qs)))
  {
    if qs != [] {
      var g, q := qs[..|qs| - 1], qs[|qs| - 1];
      StoresAreApart(g);
      if q.path == "/health" {
        assert q.path[1] == 'h';
      }
      if !q.IsHealth() {
        var hits := if q.IsUpload() then UploadHits(qs) else GeneralHits(qs);
        assert hits[..|hits| - 1] == if q.IsUpload() then UploadHits(g) else GeneralHits(g);
      }
    }
  }

  /** When two requests of one kind are counted together: other requests when they come from one
      address; uploads when address and token are the same, fingerprints being of one length, or
      when one address reads like the other's with its token. */
  lemma SubjectsMeet(a: Request, b: Request)
    requires a.fingerprint.Some? && b.fingerprint.Some? ==> |a.fingerprint.value| == |b.fingerprint.value|
    ensures !a.IsUpload() && !b.IsUpload() ==> (a.Subject() == b.Subject() <==> a.ip == b.ip)
    ensures a.IsUpload() && b.IsUpload() ==>
              (a.Subject() == b.Subject() <==>
               || (a.ip == b.ip && a.fingerprint == b.fingerprint)
               || (a.fingerprint.None? && b.fingerprint.Some? && a.ip == b.ip + ":" + b.fingerprint.value)
               || (b.fingerprint.None? && a.fingerprint.Some? && b.ip == a.ip + ":" + a.fingerprint.value))
  {
    if a.IsUpload() && b.IsUpload() {
      if a.fingerprint.Some? && b.fingerprint.Some? && a.Subject() == b.Subject() {
        var n := |a.ip|;
        assert a.Subject()[..n] == a.ip && b.Subject()[..n] == b.ip;
        assert a.Subject()[n + 1..] == a.fingerprint.value && b.Subject()[n + 1..] == b.fingerprint.value;
      } else if a.fingerprint.Some? && b.fingerprint.None? {
        assert |a.Subject()| > |a.ip|;
      } else if a.fingerprint.None? && b.fingerprint.Some? {
        assert |b.Subject()| > |b.ip|;
      }
    }
  }
}
