/** The document status cache of `backend/app/services/document_pipeline_service.py`: fresh
    reads, stale reads, and the purge that every write carries out. */
module StatusCache {
  import opened Text

  const MAX_STALE := 90.0

  datatype Cached<P> = Cached(expiry: real, payload: P)

  type Responses<P> = map<string, Cached<P>>

  class Cache<P> {
    var responses: Responses<P>

    constructor ()
      ensures responses == map[]
    {
      responses := map[];
    }

    method GetFresh(key: string, ttl: real, now: real) returns (r: Option<P>)
      ensures r == Fresh(responses, key, ttl, now)
    {
      if ttl <= 0.0 || key !in responses {
        return None;
      }
      var cached := responses[key];
      if now >= cached.expiry {
        return None;
      }
      return Some(cached.payload);
    }

    method GetStale(key: string, ttl: real, now: real) returns (r: Option<P>)
      modifies this
      ensures r == Stale(old(responses), key, ttl, now)
      ensures responses == StaleStep(old(responses), key, ttl, now)
    {
      if ttl <= 0.0 || key !in responses {
        return None;
      }
      var cached := responses[key];
      var staleAge := if now - cached.expiry > 0.0 then now - cached.expiry else 0.0;
      if staleAge > MAX_STALE {
        responses := responses - {key};
        return None;
      }
      return Some(cached.payload);
    }

    method Set(key: string, payload: P, ttl: real, now: real)
      modifies this
      ensures responses == SetStep(old(responses), key, payload, ttl, now)
    {
      if ttl <= 0.0 {
        responses := responses - {key};
        return;
      }
      responses := responses[key := Cached(now + ttl, payload)];
      ghost var written := responses;
      var staleCutoff := now - MAX_STALE;
      var staleKeys := set k | k in responses && responses[k].expiry - ttl < staleCutoff;
      while staleKeys != {}
        invariant staleKeys <= responses.Keys <= written.Keys
        invariant forall k :: k in responses ==> responses[k] == written[k]
        invariant forall k :: k in written ==> (k in responses <==> written[k].expiry - ttl >= staleCutoff || k in staleKeys)
        invariant forall k :: k in staleKeys ==> written[k].expiry - ttl < staleCutoff
      {
        var k :| k in staleKeys;
        responses := responses - {k};
        staleKeys := staleKeys - {k};
      }
      assert responses == Purged(written, ttl, staleCutoff);
    }
  }

  function Fresh<P>(c: Responses<P>, key: string, ttl: real, now: real): Option<P> {
    if ttl > 0.0 && key in c && now < c[key].expiry then Some(c[key].payload) else None
  }

  function Stale<P>(c: Responses<P>, key: string, ttl: real, now: real): Option<P> {
    if ttl > 0.0 && key in c && now - c[key].expiry <= MAX_STALE then Some(c[key].payload) else None
  }

  /** A stale read drops an entry that is too old. */
  function StaleStep<P>(c: Responses<P>, key: string, ttl: real, now: real): Responses<P> {
    if ttl > 0.0 && key in c && now - c[key].expiry > MAX_STALE then c - {key} else c
  }

  function Purged<P>(c: Responses<P>, ttl: real, cutoff: real): Responses<P> {
    map k | k in c && c[k].expiry - ttl >= cutoff :: c[k]
  }

  function SetStep<P>(c: Responses<P>, key: string, payload: P, ttl: real, now: real): Responses<P> {
    if ttl <= 0.0 then c - {key}
    else Purged(c[key := Cached(now + ttl, payload)], ttl, now - MAX_STALE)
  }

  // ----- runs against the log of writes -----

  datatype Event<P> =
    | SetEvent(key: string, now: real, payload: P)
    | StaleEvent(key: string, now: real)

  /** The clock does not run backwards. Fresh reads change nothing and need no event. */
  ghost predicate Monotone<P(!new)>(h: seq<Event<P>>) {
    forall i, j :: 0 <= i < j < |h| ==> h[i].now <= h[j].now
  }

  ghost predicate NotBefore<P(!new)>(h: seq<Event<P>>, now: real) {
    h != [] ==> h[|h| - 1].now <= now
  }

  /** The cache after a run with a constant TTL. */
  function Run<P>(h: seq<Event<P>>, ttl: real): Responses<P> {
    if h == [] then map[]
    else
      var c := Run(h[..|h| - 1], ttl);
      match h[|h| - 1]
      case SetEvent(key, now, payload) => SetStep(c, key, payload, ttl, now)
      case StaleEvent(key, now) => StaleStep(c, key, ttl, now)
  }

  datatype Write<P> = Write(at: real, payload: P)

  /** The last write of a key. */
  ghost function LastWrite<P>(h: seq<Event<P>>, key: string): Option<Write<P>> {
    if h == [] then None
    else
      var e := h[|h| - 1];
      if e.SetEvent? && e.key == key then Some(Write(e.now, e.payload)) else LastWrite(h[..|h| - 1], key)
  }

  /** No write to any key came more than 90 seconds after time `at`. */
  ghost predicate Unpurged<P>(h: seq<Event<P>>, at: real) {
    forall i :: 0 <= i < |h| && h[i].SetEvent? ==> h[i].now <= at + MAX_STALE
  }

  /** The key was written, and neither a purge nor its age has removed it. */
  ghost predicate Kept<P(!new)>(h: seq<Event<P>>, key: string, ttl: real, now: real) {
    var w := LastWrite(h, key);
    w.Some? && Unpurged(h, w.value.at) && now <= w.value.at + ttl + MAX_STALE
  }

  lemma {:induction false} WritesAreOld<P(!new)>(h: seq<Event<P>>, key: string, now: real)
    requires Monotone(h) && NotBefore(h, now)
    ensures LastWrite(h, key).Some? ==> LastWrite(h, key).value.at <= now
    ensures forall i :: 0 <= i < |h| ==> h[i].now <= now
  {
    if h != [] {
      WritesAreOld(h[..|h| - 1], key, h[|h| - 1].now);
    }
  }

  /** A stale read of the key came when what was written at `at` was too old for it. */
  ghost predicate DroppedByRead<P(!new)>(h: seq<Event<P>>, key: string, at: real, ttl: real) {
    exists i :: 0 <= i < |h| && h[i].StaleEvent? && h[i].key == key && h[i].now > at + ttl + MAX_STALE
  }

  /** An entry is there exactly when the key's last write was neither purged by a write nor
      dropped by a stale read, and then it is that write. */
  ghost predicate Mirrors<P(!new)>(c: Responses<P>, h: seq<Event<P>>, key: string, ttl: real) {
    var w := LastWrite(h, key);
    && (key in c <==> w.Some? && Unpurged(h, w.value.at) && !DroppedByRead(h, key, w.value.at, ttl))
    && (key in c ==> c[key] == Cached(w.value.at + ttl, w.value.payload))
  }

  lemma {:induction false} RunMirrorsWrites<P(!new)>(h: seq<Event<P>>, key: string, ttl: real)
    requires Monotone(h) && ttl > 0.0
    ensures Mirrors(Run(h, ttl), h, key, ttl)
  {
    if h != [] {
      var g, e := h[..|h| - 1], h[|h| - 1];
      assert h == g + [e];
      RunMirrorsWrites(g, key, ttl);
      if e.SetEvent? && e.key == key {
        WritesAreOld(h, key, e.now);
      } else if LastWrite(g, key).Some? {
        UnpurgedSnoc(g, e, LastWrite(g, key).value.at);
        DroppedSnoc(g, e, key, LastWrite(g, key).value.at, ttl);
      }
    }
  }

  lemma DroppedSnoc<P(!new)>(g: seq<Event<P>>, e: Event<P>, key: string, at: real, ttl: real)
    ensures DroppedByRead(g + [e], key, at, ttl)
            <==> DroppedByRead(g, key, at, ttl) || (e.StaleEvent? && e.key == key && e.now > at + ttl + MAX_STALE)
  {
    var h := g + [e];
    assert h[|g|] == e;
    if DroppedByRead(g, key, at, ttl) {
      var i :| 0 <= i < |g| && g[i].StaleEvent? && g[i].key == key && g[i].now > at + ttl + MAX_STALE;
      assert h[i] == g[i];
    }
  }

  lemma UnpurgedSnoc<P>(g: seq<Event<P>>, e: Event<P>, at: real)
    ensures Unpurged(g + [e], at) <==> Unpurged(g, at) && (e.SetEvent? ==> e.now <= at + MAX_STALE)
  {
    if Unpurged(g + [e], at) {
      forall i | 0 <= i < |g| && g[i].SetEvent? ensures g[i].now <= at + MAX_STALE {
        assert (g + [e])[i] == g[i];
      }
      assert (g + [e])[|g|] == e;
    }
  }

  /** What every read returns, from the log of writes alone. */
  lemma ReadsFromLog<P(!new)>(h: seq<Event<P>>, key: string, ttl: real, now: real)
    requires Monotone(h) && NotBefore(h, now) && ttl > 0.0
    ensures var w := LastWrite(h, key);
            && Fresh(Run(h, ttl), key, ttl, now) ==
               (if w.Some? && now < w.value.at + ttl && Unpurged(h, w.value.at) then Some(w.value.payload) else None)
            && Stale(Run(h, ttl), key, ttl, now) ==
               (if Kept(h, key, ttl, now) then Some(w.value.payload) else None)
  {
    RunMirrorsWrites(h, key, ttl);
    WritesAreOld(h, key, now);
  }

  /** With a TTL of at most 90 seconds a fresh read hits exactly when the key's last write is
      less than the TTL old, and returns that write. */
  lemma FreshIsExact<P(!new)>(h: seq<Event<P>>, key: string, ttl: real, now: real)
    requires Monotone(h) && NotBefore(h, now) && 0.0 < ttl <= MAX_STALE
    ensures var w := LastWrite(h, key);
            Fresh(Run(h, ttl), key, ttl, now) ==
            if w.Some? && now < w.value.at + ttl then Some(w.value.payload) else None
  {
    ReadsFromLog(h, key, ttl, now);
    WritesAreOld(h, key, now);
  }

  /** With a longer TTL that fails: a write to another key purges an entry that is fresh. */
  lemma LongTtlLosesFresh<P(!new)>(p: P, ttl: real) returns (h: seq<Event<P>>, now: real)
    requires ttl > MAX_STALE
    ensures Monotone(h) && NotBefore(h, now)
    ensures LastWrite(h, "a") == Some(Write(0.0, p)) && now < 0.0 + ttl
    ensures Fresh(Run(h, ttl), "a", ttl, now) == None
  {
    now := (ttl + MAX_STALE) / 2.0;
    h := [SetEvent("a", 0.0, p), SetEvent("b", now, p)];
    assert h[..1] == [h[0]] && [h[0]][..0] == [];
    assert h[1].now > 0.0 + MAX_STALE;
    ReadsFromLog(h, "a", ttl, now);
  }

  /** A fresh read gives the last write as long as it is younger than the TTL. */
  ghost predicate ExactAt<P(!new)>(h: seq<Event<P>>, key: string, ttl: real, now: real) {
    Monotone(h) && NotBefore(h, now) ==>
      var w := LastWrite(h, key);
      Fresh(Run(h, ttl), key, ttl, now) == if w.Some? && now < w.value.at + ttl then Some(w.value.payload) else None
  }

  /** Fresh reads are exact on all runs exactly for TTLs of at most 90 seconds. */
  lemma ExactUpToMaxStale<P(!new)>(p: P, ttl: real)
    requires ttl > 0.0
    ensures (forall h: seq<Event<P>>, key, now :: ExactAt(h, key, ttl, now)) <==> ttl <= 90.0
  {
    if ttl <= MAX_STALE {
      forall h: seq<Event<P>>, key, now ensures ExactAt(h, key, ttl, now) {
        if Monotone(h) && NotBefore(h, now) {
          FreshIsExact(h, key, ttl, now);
        }
      }
    } else {
      var h, now := LongTtlLosesFresh(p, ttl);
      assert !ExactAt(h, "a", ttl, now);
    }
  }

  /** A key written in the last 90 seconds can be read stale; nothing older than the TTL plus
      90 seconds is returned by either read; what is returned is the last write. */
  lemma StaleBounds<P(!new)>(h: seq<Event<P>>, key: string, ttl: real, now: real)
    requires Monotone(h) && NotBefore(h, now) && ttl > 0.0
    ensures var w, r := LastWrite(h, key), Stale(Run(h, ttl), key, ttl, now);
            && (w.Some? && now <= w.value.at + 90.0 ==> r == Some(w.value.payload))
            && (r.Some? ==> w.Some? && r.value == w.value.payload && now <= w.value.at + ttl + 90.0)
            && (Fresh(Run(h, ttl), key, ttl, now).Some? ==> r == Fresh(Run(h, ttl), key, ttl, now))
  {
    ReadsFromLog(h, key, ttl, now);
    WritesAreOld(h, key, now);
  }

  /** The purge of a write never removes an entry that is fresh, for TTLs up to 90 seconds. */
  lemma PurgeSparesFresh<P(!new)>(h: seq<Event<P>>, e: Event<P>, key: string, ttl: real)
    requires Monotone(h) && NotBefore(h, e.now) && e.SetEvent? && e.key != key && 0.0 < ttl <= MAX_STALE
    ensures Fresh(Run(h, ttl), key, ttl, e.now) == Fresh(Run(h + [e], ttl), key, ttl, e.now)
  {
    assert (h + [e])[..|h + [e]| - 1] == h;
    RunMirrorsWrites(h, key, ttl);
  }
}
