/** The CrossRef client's instance cache and retry schedule
    (`backend/app/services/crossref_client.py`). */
module CrossRef {
  import opened Finite
  import opened Text
  import opened Retry

  const CAPACITY := 2000

  /** What one request gives: a usable item, a rate-limit answer, or anything else (no items,
      another status, a network or parse error), after which the client gives up. */
  datatype Outcome<R> = Found(result: R) | RateLimited | Nothing

  /** `respond(q, k)` is the outcome of request number `k` for query `q`, counted from 1. */
  type Service<!R> = (string, int) -> Outcome<R>

  /** The answer that requests from number `k` on lead to. */
  function AnswerFrom<R>(respond: Service<R>, q: string, k: int): Option<R>
    decreases 5 - k
  {
    if k > 4 then None
    else match respond(q, k)
      case Found(r) => Some(r)
      case RateLimited => AnswerFrom(respond, q, k + 1)
      case Nothing => None
  }

  function Answer<R>(respond: Service<R>, q: string): Option<R> {
    AnswerFrom(respond, q, 1)
  }

  /** Request number `n` settles the query: those before it were rate-limited, it was not or was
      the fourth, and its item, if it found one, is the result. */
  predicate AnsweredAt<R(==)>(respond: Service<R>, q: string, n: nat, r: Option<R>) {
    && 1 <= n <= 4
    && (forall k: int :: 1 <= k < n ==> respond(q, k).RateLimited?)
    && (n == 4 || !respond(q, n).RateLimited?)
    && r == match respond(q, n) case Found(item) => Some(item) case _ => None
  }

  lemma AnswerIsSettled<R>(respond: Service<R>, q: string, n: nat, r: Option<R>)
    requires AnsweredAt(respond, q, n, r)
    ensures Answer(respond, q) == r
  {
  }

  /** The newest `n` entries. */
  function Newest<T>(s: seq<T>, n: nat): seq<T> {
    if |s| > n then s[|s| - n..] else s
  }

  class Client<R> {
    /** `_api_cache`: a dictionary, with its keys in insertion order. */
    var keys: seq<string>
    var cache: map<string, R>

    ghost predicate Valid()
      reads this
    {
      && |keys| <= CAPACITY
      && Distinct(keys)
      && (forall k :: k in keys <==> k in cache)
    }

    /** Every cached result is the service's answer. */
    ghost predicate Faithful(respond: Service<R>)
      reads this
    {
      forall k :: k in cache ==> Answer(respond, k) == Some(cache[k])
    }

    constructor ()
      ensures Valid() && keys == [] && cache == map[]
    {
      keys, cache := [], map[];
    }

    method FetchApi(q: string, respond: Service<R>) returns (r: Option<R>, requests: nat, slept: nat)
      requires Valid()
      modifies this
      ensures Valid() && keys == OrderStep(CAPACITY, old(keys), q, Answer(respond, q).Some?)
      ensures forall k :: k in cache ==> cache[k] == if k in old(cache) then old(cache)[k] else Answer(respond, q).value
      ensures forall k :: k in cache && k !in old(cache) ==> k == q && Answer(respond, q).Some?
      ensures old(Faithful(respond)) ==> Faithful(respond) && r == Answer(respond, q)
      ensures if q in old(cache)
              then r == Some(old(cache)[q]) && requests == 0 && slept == 0
              else r == Answer(respond, q) && AnsweredAt(respond, q, requests, r) && slept == Pow2(requests - 1) - 1 <= 7
    {
      if q in cache {
        return Some(cache[q]), 0, 0;
      }
      r, requests, slept := Request(q, respond);
      Remember(q, r);
    }

    /** A found result is cached, and the cache trimmed. */
    method Remember(q: string, r: Option<R>)
      requires Valid() && q !in cache
      modifies this
      ensures Valid() && keys == OrderStep(CAPACITY, old(keys), q, r.Some?)
      ensures forall k :: k in cache ==> if k in old(cache) then cache[k] == old(cache)[k] else k == q && r == Some(cache[k])
    {
      if r.Some? {
        cache := cache[q := r.value];
        keys := keys + [q];
      }
      TrimCache();
    }

    /** The retry loop: up to four requests, with delays of 1, 2 and 4 seconds between them. */
    method Request(q: string, respond: Service<R>) returns (r: Option<R>, requests: nat, slept: nat)
      ensures r == Answer(respond, q)
      ensures AnsweredAt(respond, q, requests, r) && slept == Pow2(requests - 1) - 1 <= 7
    {
      var retryDelays := [1, 2, 4];
      var maxAttempts := |retryDelays| + 1;
      requests, slept := 0, 0;
      for attempt := 1 to maxAttempts + 1
        invariant requests == attempt - 1
        invariant forall k: int :: 1 <= k < attempt ==> respond(q, k).RateLimited?
        invariant slept == Pow2(if attempt == 5 then 3 else attempt - 1) - 1
        invariant Answer(respond, q) == AnswerFrom(respond, q, attempt)
      {
        requests := requests + 1;
        match respond(q, attempt)
        case Found(item) => return Some(item), requests, slept;
        case Nothing => return None, requests, slept;
        case RateLimited =>
        if attempt < maxAttempts {
          slept := slept + retryDelays[attempt - 1];
        }
      }
      r := None;
    }

    /** The `finally` clause: drop the oldest keys beyond the capacity. */
    method TrimCache()
      requires |keys| <= CAPACITY + 1
      requires Distinct(keys) && forall k :: k in keys <==> k in cache
      modifies this
      ensures Valid() && keys == Newest(old(keys), CAPACITY)
      ensures forall k :: k in cache ==> k in old(cache) && cache[k] == old(cache)[k]
    {
      if |keys| > CAPACITY {
        var surplus := keys[..|keys| - CAPACITY];
        var all := keys;
        for i := 0 to |surplus|
          invariant keys == all[i..] && Distinct(keys)
          invariant forall k :: k in keys <==> k in cache
          invariant forall k :: k in cache ==> k in old(cache) && cache[k] == old(cache)[k]
        {
          DropFirst(keys);
          cache := cache - {surplus[i]};
          keys := keys[1..];
        }
      }
    }
  }

  lemma DropFirst(keys: seq<string>)
    requires Distinct(keys) && keys != []
    ensures Distinct(keys[1..]) && forall k :: k in keys[1..] <==> k in keys && k != keys[0]
  {
    assert keys == [keys[0]] + keys[1..];
  }

  /** What a call does to the order of the cached keys. */
  function OrderStep(cap: nat, keys: seq<string>, q: string, success: bool): seq<string> {
    if q in keys || !success then keys else Newest(keys + [q], cap)
  }

  // ----- runs -----

  /** The cached keys, oldest first, after the calls of `h`. */
  function Order<R>(cap: nat, respond: Service<R>, h: seq<string>): seq<string> {
    if h == [] then []
    else
      var q := h[|h| - 1];
      OrderStep(cap, Order(cap, respond, h[..|h| - 1]), q, Answer(respond, q).Some?)
  }

  /** Every query that was fetched with success, in order: an answered query is fetched again
      when it is not among the newest `cap` of those fetched before. */
  function Fetched<R>(cap: nat, respond: Service<R>, h: seq<string>): seq<string> {
    if h == [] then []
    else
      var g, q := h[..|h| - 1], h[|h| - 1];
      var log := Fetched(cap, respond, g);
      if q !in Newest(log, cap) && Answer(respond, q).Some? then log + [q] else log
  }

  lemma NewestSnoc<T>(s: seq<T>, x: T, n: nat)
    ensures Newest(Newest(s, n) + [x], n) == Newest(s + [x], n)
  {
  }

  /** The cache holds exactly the newest `cap` of the successfully fetched queries, in the
      order they were fetched. */
  lemma {:induction false} CacheIsNewest<R>(cap: nat, respond: Service<R>, h: seq<string>)
    ensures Order(cap, respond, h) == Newest(Fetched(cap, respond, h), cap)
  {
    if h != [] {
      var g, q := h[..|h| - 1], h[|h| - 1];
      CacheIsNewest(cap, respond, g);
      NewestSnoc(Fetched(cap, respond, g), q, cap);
    }
  }

  /** Each cached query is cached once, was asked for and has an answer. */
  lemma {:induction false} CachedOnce<R>(cap: nat, respond: Service<R>, h: seq<string>)
    ensures Distinct(Order(cap, respond, h)) && |Order(cap, respond, h)| <= cap
    ensures forall q :: q in Order(cap, respond, h) ==> Answer(respond, q).Some? && q in h
  {
    if h != [] {
      var g, q := h[..|h| - 1], h[|h| - 1];
      CachedOnce(cap, respond, g);
      if q !in Order(cap, respond, g) {
        NewestKeepsDistinct(Order(cap, respond, g), q, cap);
      }
      assert h == g + [q];
    }
  }

  lemma NewestKeepsDistinct(s: seq<string>, x: string, n: nat)
    requires Distinct(s) && x !in s
    ensures Distinct(Newest(s + [x], n)) && |Newest(s + [x], n)| <= n
    ensures forall y :: y in Newest(s + [x], n) ==> y == x || y in s
  {
  }

  /** The different queries of `h` that have an answer. */
  ghost function Answered<R>(respond: Service<R>, h: seq<string>): set<string> {
    set q | q in h && Answer(respond, q).Some?
  }

  lemma {:induction false} AllKeptWithinCapacity<R>(cap: nat, respond: Service<R>, h: seq<string>)
    requires |Answered(respond, h)| <= cap
    ensures forall q :: q in Answered(respond, h) ==> q in Order(cap, respond, h)
  {
    if h != [] {
      var g, q := h[..|h| - 1], h[|h| - 1];
      assert h == g + [q];
      SubsetIsSmaller(Answered(respond, g), Answered(respond, h));
      AllKeptWithinCapacity(cap, respond, g);
      CachedOnce(cap, respond, g);
      var keys := Order(cap, respond, g);
      if q !in keys && Answer(respond, q).Some? {
        var cached := set x | x in keys + [q];
        DistinctSize(keys + [q], cached);
        SubsetIsSmaller(cached, Answered(respond, h));
      }
    }
  }

  /** Every answered query of a run is still cached at its end exactly when there are at most
      `cap` of them. */
  lemma NothingDroppedWithinCapacity<R>(cap: nat, respond: Service<R>, h: seq<string>)
    ensures (forall q :: q in h && Answer(respond, q).Some? ==> q in Order(cap, respond, h))
            <==> |Answered(respond, h)| <= cap
  {
    if |Answered(respond, h)| <= cap {
      AllKeptWithinCapacity(cap, respond, h);
    } else {
      CachedOnce(cap, respond, h);
      var keys := Order(cap, respond, h);
      var cached := set x | x in keys;
      DistinctSize(keys, cached);
      if Answered(respond, h) <= cached {
        SubsetIsSmaller(Answered(respond, h), cached);
      }
    }
  }

  /** The cache is first in, first out: when a key of a full cache is asked for again and a
      new query is fetched next, that key stays exactly when it was not the oldest. */
  lemma HitDoesNotRefresh<R>(cap: nat, respond: Service<R>, h: seq<string>, i: nat, y: string)
    requires |Order(cap, respond, h)| == cap && i < cap
    requires y !in Order(cap, respond, h) && Answer(respond, y).Some?
    ensures var x := Order(cap, respond, h)[i];
            x in Order(cap, respond, h + [x, y]) <==> i > 0
  {
    CachedOnce(cap, respond, h);
    var keys := Order(cap, respond, h);
    var x := keys[i];
    assert (h + [x, y])[..|h| + 1] == h + [x] && (h + [x])[..|h|] == h;
    assert Order(cap, respond, h + [x]) == keys;
    assert Order(cap, respond, h + [x, y]) == keys[1..] + [y];
    if i > 0 {
      assert keys[1..][i - 1] == x;
    }
  }
}
