/** The in-memory cache of `backend/app/core/cache.py`: entries with an expiry time, lazy
    expiry, periodic cleanup, and eviction of the entry that expires first. */
module MemoryCache {
  import opened Finite
  import opened Text

  datatype Entry<V> = Entry(value: V, expiry: real)

  type Store<V> = map<string, Entry<V>>

  datatype Config = Config(defaultTtl: real, maxItems: int, cleanupInterval: real)

  datatype State<V> = State(store: Store<V>, lastCleanup: real)

  predicate LiveEntry<V>(e: Entry<V>, now: real) {
    e.expiry >= now
  }

  function Unexpired<V>(s: Store<V>, now: real): Store<V> {
    map k | k in s && LiveEntry(s[k], now) :: s[k]
  }

  /** A cleanup, when the last one is long enough ago. */
  function Swept<V>(c: Config, s: State<V>, now: real): State<V> {
    if now - s.lastCleanup < c.cleanupInterval then s else State(Unexpired(s.store, now), now)
  }

  /** An entry that no other expires before. */
  predicate Oldest<V>(s: Store<V>, k: string) {
    k in s && forall x :: x in s ==> s[k].expiry <= s[x].expiry
  }

  function WithoutPrefix<V>(s: Store<V>, prefix: string): Store<V> {
    map k | k in s && !(prefix <= k) :: s[k]
  }

  // ----- the class -----

  class Cache<V> {
    const config: Config
    var store: Store<V>
    var lastCleanup: real

    ghost function St(): State<V>
      reads this
    {
      State(store, lastCleanup)
    }

    constructor (config: Config, now: real)
      ensures this.config == config && St() == State(map[], now)
    {
      this.config := config;
      store := map[];
      lastCleanup := now;
    }

    method Cleanup(now: real)
      modifies this
      ensures St() == Swept(config, old(St()), now)
    {
      if now - lastCleanup < config.cleanupInterval {
        return;
      }
      var expired := set k | k in store && store[k].expiry < now;
      while expired != {}
        invariant expired <= store.Keys <= old(store).Keys
        invariant forall k :: k in store ==> store[k] == old(store)[k]
        invariant forall k :: k in old(store) ==> (k in store <==> LiveEntry(old(store)[k], now) || k in expired)
        invariant forall k :: k in expired ==> old(store)[k].expiry < now
      {
        var k :| k in expired;
        store := store - {k};
        expired := expired - {k};
      }
      assert store == Unexpired(old(store), now);
      lastCleanup := now;
    }

    method Get(key: string, now: real) returns (r: Option<V>)
      modifies this
      ensures Step(config, old(St()), Event(Op.Get(key), now, Value(r)), St())
    {
      Cleanup(now);
      if key !in store {
        return None;
      }
      if store[key].expiry < now {
        store := store - {key};
        return None;
      }
      return Some(store[key].value);
    }

    method Set(key: string, value: V, ttl: Option<real>, now: real) returns (r: bool)
      modifies this
      ensures Step(config, old(St()), Event(Op.Set(key, value, ttl), now, Flag(r)), St())
    {
      Cleanup(now);
      var t := if ttl.Some? then ttl.value else config.defaultTtl;
      var expiry := now + t;
      if |store| >= config.maxItems && key !in store {
        Evict();
      }
      store := store[key := Entry(value, expiry)];
      return true;
    }

    method Evict()
      modifies this
      ensures lastCleanup == old(lastCleanup)
      ensures old(store) == map[] ==> store == map[]
      ensures old(store) != map[] ==> exists k :: Oldest(old(store), k) && store == old(store) - {k}
    {
      if store == map[] {
        return;
      }
      var oldest :| oldest in store;
      var rest := store.Keys - {oldest};
      while rest != {}
        invariant rest <= store.Keys && oldest in store && store == old(store) && lastCleanup == old(lastCleanup)
        invariant forall x :: x in store && x !in rest ==> store[oldest].expiry <= store[x].expiry
      {
        var k :| k in rest;
        if store[k].expiry < store[oldest].expiry {
          oldest := k;
        }
        rest := rest - {k};
      }
      store := store - {oldest};
      assert Oldest(old(store), oldest);
    }

    method Exists(key: string, now: real) returns (r: bool)
      modifies this
      ensures Step(config, old(St()), Event(Op.Exists(key), now, Flag(r)), St())
    {
      Cleanup(now);
      if key !in store {
        return false;
      }
      return store[key].expiry >= now;
    }

    method Delete(key: string, now: real) returns (r: bool)
      modifies this
      ensures Step(config, old(St()), Event(Op.Delete(key), now, Flag(r)), St())
    {
      if key in store {
        store := store - {key};
        return true;
      }
      return false;
    }

    method Clear(now: real) returns (r: bool)
      modifies this
      ensures Step(config, old(St()), Event(Op.Clear, now, Flag(r)), St())
    {
      store := map[];
      return true;
    }

    /** `invalidate_cache` on this backend. */
    method Invalidate(prefix: string, now: real)
      modifies this
      ensures Step(config, old(St()), Event(Op.Invalidate(prefix), now, Flag(true)), St())
    {
      var doomed := set k | k in store && prefix <= k;
      while doomed != {}
        invariant doomed <= store.Keys <= old(store).Keys && lastCleanup == old(lastCleanup)
        invariant forall k :: k in store ==> store[k] == old(store)[k]
        invariant forall k :: k in old(store) ==> (k in store <==> !(prefix <= k) || k in doomed)
        invariant forall k :: k in doomed ==> prefix <= k
      {
        var k :| k in doomed;
        store := store - {k};
        doomed := doomed - {k};
      }
      assert store == WithoutPrefix(old(store), prefix);
    }
  }

  // ----- steps -----

  datatype Op<V> =
    | Get(key: string)
    | Set(key: string, value: V, ttl: Option<real>)
    | Exists(key: string)
    | Delete(key: string)
    | Clear
    | Invalidate(prefix: string)

  datatype Result<V> = Value(value: Option<V>) | Flag(flag: bool)

  datatype Event<V> = Event(op: Op<V>, now: real, result: Result<V>)

  function Written<V>(c: Config, op: Op<V>, now: real): Entry<V>
    requires op.Set?
  {
    Entry(op.value, now + (if op.ttl.Some? then op.ttl.value else c.defaultTtl))
  }

  /** What one operation does to the bounded store. Which of several oldest entries goes is
      left open. */
  ghost predicate Step<V>(c: Config, s: State<V>, e: Event<V>, s': State<V>) {
    match e.op
    case Get(key) =>
      var w := Swept(c, s, e.now);
      var hit := key in w.store && LiveEntry(w.store[key], e.now);
      && s' == (if key in w.store && !hit then State(w.store - {key}, w.lastCleanup) else w)
      && e.result == Value(if hit then Some(w.store[key].value) else None)
    case Set(key, _, _) =>
      var w := Swept(c, s, e.now);
      && s'.lastCleanup == w.lastCleanup && e.result == Flag(true)
      && StoredIn(c, w.store, key, Written(c, e.op, e.now), s'.store)
    case Exists(key) =>
      var w := Swept(c, s, e.now);
      s' == w && e.result == Flag(key in w.store && LiveEntry(w.store[key], e.now))
    case Delete(key) => s' == State(s.store - {key}, s.lastCleanup) && e.result == Flag(key in s.store)
    case Clear => s' == State(map[], s.lastCleanup) && e.result == Flag(true)
    case Invalidate(prefix) => s' == State(WithoutPrefix(s.store, prefix), s.lastCleanup) && e.result == Flag(true)
  }

  ghost predicate StoredIn<V>(c: Config, s: Store<V>, key: string, entry: Entry<V>, s': Store<V>) {
    if |s| >= c.maxItems && key !in s && s != map[]
    then exists k :: Oldest(s, k) && s' == (s - {k})[key := entry]
    else s' == s[key := entry]
  }

  // ----- the unbounded reference -----

  /** The reference only ever forgets what it is told to forget. */
  function RefStep<V>(c: Config, m: Store<V>, op: Op<V>, now: real): Store<V> {
    match op
    case Get(_) => m
    case Exists(_) => m
    case Set(key, _, _) => m[key := Written(c, op, now)]
    case Delete(key) => m - {key}
    case Clear => map[]
    case Invalidate(prefix) => WithoutPrefix(m, prefix)
  }

  predicate Holds<V>(m: Store<V>, key: string, now: real) {
    key in m && LiveEntry(m[key], now)
  }

  /** What the reference answers. */
  function RefResult<V>(m: Store<V>, op: Op<V>, now: real): Result<V> {
    match op
    case Get(key) => Value(if Holds(m, key, now) then Some(m[key].value) else None)
    case Exists(key) => Flag(Holds(m, key, now))
    case Delete(key) => Flag(Holds(m, key, now))
    case Set(_, _, _) => Flag(true)
    case Clear => Flag(true)
    case Invalidate(_) => Flag(true)
  }

  function LiveKeys<V>(m: Store<V>, now: real): set<string> {
    set k | k in m && LiveEntry(m[k], now)
  }

  /** Live keys, counting one that is being set, fit. */
  predicate Fits<V>(c: Config, m: Store<V>, op: Op<V>, now: real) {
    op.Set? ==> |LiveKeys(m, now) + {op.key}| <= c.maxItems
  }

  /** The store is part of the reference and holds all of it that is still live. */
  ghost predicate Agrees<V>(s: Store<V>, m: Store<V>, now: real) {
    && (forall k :: k in s ==> k in m && s[k] == m[k])
    && (forall k :: Holds(m, k, now) ==> k in s)
  }

  lemma AgreesLater<V>(s: Store<V>, m: Store<V>, now: real, later: real)
    requires Agrees(s, m, now) && now <= later
    ensures Agrees(s, m, later)
  {
    assert forall k :: Holds(m, k, later) ==> Holds(m, k, now);
  }

  /** Cleanup is invisible. */
  lemma SweepIsInvisible<V>(c: Config, s: State<V>, m: Store<V>, now: real)
    requires Agrees(s.store, m, now)
    ensures Agrees(Swept(c, s, now).store, m, now) && |Swept(c, s, now).store| <= |s.store|
  {
    SubmapIsSmaller(Unexpired(s.store, now), s.store);
  }

  lemma SubmapIsSmaller<V>(a: Store<V>, b: Store<V>)
    requires a.Keys <= b.Keys
    ensures |a| <= |b|
  {
    SubsetIsSmaller(a.Keys, b.Keys);
  }

  /** If the live keys fit, an entry that expires first in a full store has expired. */
  lemma VictimIsExpired<V>(c: Config, s: Store<V>, m: Store<V>, key: string, now: real, k: string)
    requires Agrees(s, m, now) && |s| >= c.maxItems && key !in s && Oldest(s, k)
    requires |LiveKeys(m, now) + {key}| <= c.maxItems
    ensures !LiveEntry(s[k], now)
  {
    if LiveEntry(s[k], now) {
      assert forall x :: x in s ==> Holds(m, x, now);
      SubsetIsSmaller(s.Keys + {key}, LiveKeys(m, now) + {key});
    }
  }

  lemma DroppingExpired<V>(s: Store<V>, m: Store<V>, now: real, k: string)
    requires Agrees(s, m, now) && k in s && !LiveEntry(s[k], now)
    ensures Agrees(s - {k}, m, now)
  {
  }

  lemma Inserting<V>(s: Store<V>, m: Store<V>, key: string, e: Entry<V>, now: real)
    requires Agrees(s, m, now)
    ensures Agrees(s[key := e], m[key := e], now)
  {
    assert forall x :: x != key ==> (Holds(m[key := e], x, now) <==> Holds(m, x, now));
  }

  lemma SetKeepsAgreement<V>(c: Config, s: Store<V>, m: Store<V>, key: string, e: Entry<V>, s': Store<V>, now: real)
    requires Agrees(s, m, now) && StoredIn(c, s, key, e, s')
    requires |LiveKeys(m, now) + {key}| <= c.maxItems
    ensures Agrees(s', m[key := e], now)
  {
    if |s| >= c.maxItems && key !in s && s != map[] {
      var k :| Oldest(s, k) && s' == (s - {k})[key := e];
      VictimIsExpired(c, s, m, key, now, k);
      DroppingExpired(s, m, now, k);
      Inserting(s - {k}, m, key, e, now);
    } else {
      Inserting(s, m, key, e, now);
    }
  }

  /** Conversely, setting a key that does not fit throws out a live entry. */
  lemma OverflowLosesLiveEntry<V>(c: Config, s: Store<V>, m: Store<V>, key: string, e: Entry<V>, s': Store<V>, now: real)
    requires Agrees(s, m, now) && StoredIn(c, s, key, e, s') && |s| <= c.maxItems && c.maxItems >= 1
    requires |LiveKeys(m, now) + {key}| > c.maxItems
    ensures exists k :: Holds(m[key := e], k, now) && k !in s'
  {
    var live := LiveKeys(m, now);
    assert live <= s.Keys by {
      assert forall k :: k in live ==> Holds(m, k, now);
    }
    SubsetIsSmaller(live + {key}, s.Keys + {key});
    assert key !in s;
    SubsetIsSmaller(live, s.Keys);
    assert live == s.Keys && |s| == c.maxItems;
    var k :| Oldest(s, k) && s' == (s - {k})[key := e];
    assert Holds(m[key := e], k, now) && k !in s';
  }

  lemma SizeStaysBounded<V>(c: Config, s: Store<V>, key: string, e: Entry<V>, s': Store<V>)
    requires c.maxItems >= 1 && |s| <= c.maxItems && StoredIn(c, s, key, e, s')
    ensures |s'| <= c.maxItems
  {
    if |s| >= c.maxItems && key !in s && s != map[] {
      var k :| Oldest(s, k) && s' == (s - {k})[key := e];
      assert (s - {k}).Keys == s.Keys - {k};
      assert s'.Keys == (s.Keys - {k}) + {key};
    } else {
      assert s'.Keys == s.Keys + {key};
    }
  }

  lemma StepSize<V>(c: Config, s: State<V>, e: Event<V>, s': State<V>)
    requires c.maxItems >= 1 && |s.store| <= c.maxItems && Step(c, s, e, s')
    ensures |s'.store| <= c.maxItems
  {
    var w := Swept(c, s, e.now);
    SubmapIsSmaller(w.store, s.store);
    match e.op
    case Get(key) => SubmapIsSmaller(s'.store, w.store);
    case Set(key, _, _) => SizeStaysBounded(c, w.store, key, Written(c, e.op, e.now), s'.store);
    case Exists(key) =>
    case Delete(key) => SubmapIsSmaller(s'.store, s.store);
    case Clear =>
    case Invalidate(prefix) => SubmapIsSmaller(s'.store, s.store);
  }

  /** Agreement with the reference survives a step exactly when the live keys fit. */
  lemma StepAgreement<V>(c: Config, s: State<V>, m: Store<V>, e: Event<V>, s': State<V>)
    requires c.maxItems >= 1 && |s.store| <= c.maxItems
    requires Agrees(s.store, m, e.now) && Step(c, s, e, s')
    ensures Agrees(s'.store, RefStep(c, m, e.op, e.now), e.now) <==> Fits(c, m, e.op, e.now)
  {
    SweepIsInvisible(c, s, m, e.now);
    if e.op.Set? {
      var w, entry := Swept(c, s, e.now), Written(c, e.op, e.now);
      if Fits(c, m, e.op, e.now) {
        SetKeepsAgreement(c, w.store, m, e.op.key, entry, s'.store, e.now);
      } else {
        OverflowLosesLiveEntry(c, w.store, m, e.op.key, entry, s'.store, e.now);
      }
    }
  }

  /** The answer of a step is the reference's, unless it is the `delete` of an expired entry
      that has not been swept yet. */
  lemma StepResult<V>(c: Config, s: State<V>, m: Store<V>, e: Event<V>, s': State<V>)
    requires Agrees(s.store, m, e.now) && Step(c, s, e, s')
    ensures e.result == RefResult(m, e.op, e.now) <==>
            !(e.op.Delete? && e.op.key in s.store && !LiveEntry(s.store[e.op.key], e.now))
  {
    SweepIsInvisible(c, s, m, e.now);
    var w := Swept(c, s, e.now);
    assert forall k :: Holds(m, k, e.now) <==> k in w.store && LiveEntry(w.store[k], e.now);
  }

  // ----- runs -----

  /** `states` is a run of the cache through `events`, from an empty cache, with a clock that
      does not run backwards. */
  ghost predicate IsRun<V(!new)>(c: Config, events: seq<Event<V>>, states: seq<State<V>>) {
    && |states| == |events| + 1
    && states[0].store == map[]
    && (forall i :: 0 <= i < |events| ==> Step(c, states[i], events[i], states[i + 1]))
    && (forall i, j :: 0 <= i < j < |events| ==> events[i].now <= events[j].now)
  }

  function RefRun<V>(c: Config, events: seq<Event<V>>): Store<V> {
    if events == [] then map[]
    else
      var e := events[|events| - 1];
      RefStep(c, RefRun(c, events[..|events| - 1]), e.op, e.now)
  }

  /** The live keys fit at every `set` of the run, measured on the reference. */
  ghost predicate AlwaysFits<V(!new)>(c: Config, events: seq<Event<V>>) {
    forall i :: 0 <= i < |events| ==> Fits(c, RefRun(c, events[..i]), events[i].op, events[i].now)
  }

  lemma {:induction false} RunAgrees<V(!new)>(c: Config, events: seq<Event<V>>, states: seq<State<V>>, i: nat)
    requires c.maxItems >= 1 && IsRun(c, events, states) && AlwaysFits(c, events) && i <= |events|
    ensures |states[i].store| <= c.maxItems
    ensures forall now: real :: (i > 0 ==> events[i - 1].now <= now) ==> Agrees(states[i].store, RefRun(c, events[..i]), now)
  {
    if i > 0 {
      RunAgrees(c, events, states, i - 1);
      var e := events[i - 1];
      var m := RefRun(c, events[..i - 1]);
      assert events[..i][..i - 1] == events[..i - 1];
      assert Agrees(states[i - 1].store, m, e.now);
      StepSize(c, states[i - 1], e, states[i]);
      StepAgreement(c, states[i - 1], m, e, states[i]);
      forall now: real | e.now <= now ensures Agrees(states[i].store, RefRun(c, events[..i]), now) {
        AgreesLater(states[i].store, RefRun(c, events[..i]), e.now, now);
      }
    }
  }

  /** Observational equality: on every run in which the live keys fit, the bounded cache never
      exceeds its size and answers every operation like the unbounded map, but for the `delete`
      of an expired entry that is still stored. In terms of the reference alone: `delete` reports
      true for every live key and false for every key the reference does not know. */
  lemma BoundedIsUnbounded<V(!new)>(c: Config, events: seq<Event<V>>, states: seq<State<V>>, i: nat)
    requires c.maxItems >= 1 && IsRun(c, events, states) && AlwaysFits(c, events) && i < |events|
    ensures |states[i].store| <= c.maxItems && |states[i + 1].store| <= c.maxItems
    ensures var e, m := events[i], RefRun(c, events[..i]);
            && (e.result == RefResult(m, e.op, e.now) <==>
                !(e.op.Delete? && e.op.key in states[i].store && !LiveEntry(states[i].store[e.op.key], e.now)))
            && (!e.op.Delete? ==> e.result == RefResult(m, e.op, e.now))
            && (e.op.Delete? && (Holds(m, e.op.key, e.now) || e.op.key !in m) ==> e.result == RefResult(m, e.op, e.now))
  {
    RunAgrees(c, events, states, i);
    RunAgrees(c, events, states, i + 1);
    StepResult(c, states[i], RefRun(c, events[..i]), events[i], states[i + 1]);
  }

  // ----- answers from the log of operations -----

  /** The value last written to the key and still kept, and the time until which it is to be
      found. */
  ghost function LastWrite<V>(c: Config, events: seq<Event<V>>, key: string): Option<(V, real)> {
    if events == [] then None
    else
      var e, before := events[|events| - 1], LastWrite(c, events[..|events| - 1], key);
      match e.op
      case Set(k, v, ttl) =>
        if k != key then before
        else Some((v, e.now + match ttl case Some(t) => t case None => c.defaultTtl))
      case Delete(k) => if k == key then None else before
      case Clear => None
      case Invalidate(prefix) => if |prefix| <= |key| && key[..|prefix|] == prefix then None else before
      case _ => before
  }

  lemma {:induction false} ReferenceIsLog<V>(c: Config, events: seq<Event<V>>, key: string)
    ensures var m, w := RefRun(c, events), LastWrite(c, events, key);
            && (key in m <==> w.Some?)
            && (w.Some? ==> m[key] == Entry(w.value.0, w.value.1))
  {
    if events != [] {
      ReferenceIsLog(c, events[..|events| - 1], key);
    }
  }

  /** On every run in which the live keys fit, a `get` answers the value last written exactly
      until its deadline, the write's time plus its TTL or the default one, unless the key was
      deleted, cleared or invalidated since; `exists` answers likewise, and so does a `delete`
      that does not come after the deadline. */
  lemma AnswersFromLog<V(!new)>(c: Config, events: seq<Event<V>>, states: seq<State<V>>, i: nat)
    requires c.maxItems >= 1 && IsRun(c, events, states) && AlwaysFits(c, events) && i < |events|
    ensures var e := events[i];
            && (e.op.Get? ==>
                  var w := LastWrite(c, events[..i], e.op.key);
                  e.result == Value(if w.Some? && e.now <= w.value.1 then Some(w.value.0) else None))
            && (e.op.Exists? ==>
                  var w := LastWrite(c, events[..i], e.op.key);
                  e.result == Flag(w.Some? && e.now <= w.value.1))
            && (e.op.Delete? ==>
                  var w := LastWrite(c, events[..i], e.op.key);
                  (w.Some? ==> e.now <= w.value.1) ==> e.result == Flag(w.Some?))
            && (e.op.Set? || e.op.Clear? || e.op.Invalidate? ==> e.result == Flag(true))
  {
    BoundedIsUnbounded(c, events, states, i);
    var e := events[i];
    if e.op.Get? || e.op.Exists? || e.op.Delete? {
      ReferenceIsLog(c, events[..i], e.op.key);
    }
  }

  /** Whatever the size, the `get` that follows a `set` finds the value exactly until its
      deadline. */
  lemma SetThenGet<V>(c: Config, s: State<V>, set_: Event<V>, s': State<V>, get: Event<V>, s'': State<V>)
    requires set_.op.Set? && get.op == Op.Get(set_.op.key) && Step(c, s, set_, s') && Step(c, s', get, s'')
    ensures var ttl := match set_.op.ttl case Some(t) => t case None => c.defaultTtl;
            get.result == Value(if get.now <= set_.now + ttl then Some(set_.op.value) else None)
  {
  }

  // ----- garbage -----

  ghost predicate TtlsAreNatural<V(!new)>(c: Config, events: seq<Event<V>>) {
    && c.defaultTtl >= 0.0
    && forall i :: 0 <= i < |events| && events[i].op.Set? && events[i].op.ttl.Some? ==> events[i].op.ttl.value >= 0.0
  }

  ghost predicate OnlyYoungGarbage<V>(s: State<V>, now: real) {
    s.lastCleanup <= now && forall k :: k in s.store ==> s.store[k].expiry >= s.lastCleanup
  }

  lemma StepKeepsYoung<V>(c: Config, s: State<V>, e: Event<V>, s': State<V>)
    requires Step(c, s, e, s') && OnlyYoungGarbage(s, e.now)
    requires e.op.Set? ==> Written(c, e.op, e.now).expiry >= e.now
    ensures OnlyYoungGarbage(s', e.now)
  {
  }

  lemma {:induction false} GarbageStaysYoung<V(!new)>(c: Config, events: seq<Event<V>>, states: seq<State<V>>, i: nat)
    requires IsRun(c, events, states) && TtlsAreNatural(c, events) && i < |events|
    requires states[0].lastCleanup <= events[0].now
    ensures OnlyYoungGarbage(states[i], events[i].now) && OnlyYoungGarbage(states[i + 1], events[i].now)
  {
    if i > 0 {
      GarbageStaysYoung(c, events, states, i - 1);
    }
    StepKeepsYoung(c, states[i], events[i], states[i + 1]);
  }

  /** Expired entries do not stay: after every `get`, `set` and `exists` an entry that is still
      stored expired less than a cleanup interval ago, if at all, and a `get` leaves no expired
      entry under its own key. */
  lemma GarbageIsBounded<V(!new)>(c: Config, events: seq<Event<V>>, states: seq<State<V>>, i: nat)
    requires IsRun(c, events, states) && TtlsAreNatural(c, events) && i < |events|
    requires states[0].lastCleanup <= events[0].now
    ensures var e, s := events[i], states[i + 1].store;
            && (e.op.Get? || e.op.Set? || e.op.Exists? ==>
                  forall k :: k in s ==> s[k].expiry >= e.now || s[k].expiry > e.now - c.cleanupInterval)
            && (e.op.Get? && e.op.key in s ==> s[e.op.key].expiry >= e.now)
  {
    GarbageStaysYoung(c, events, states, i);
    YoungAfterCleanup(c, states[i], events[i], states[i + 1]);
  }

  lemma YoungAfterCleanup<V>(c: Config, s: State<V>, e: Event<V>, s': State<V>)
    requires Step(c, s, e, s') && OnlyYoungGarbage(s, e.now) && OnlyYoungGarbage(s', e.now)
    ensures e.op.Get? || e.op.Set? || e.op.Exists? ==>
              forall k :: k in s'.store ==> s'.store[k].expiry >= e.now || s'.store[k].expiry > e.now - c.cleanupInterval
    ensures e.op.Get? && e.op.key in s'.store ==> s'.store[e.op.key].expiry >= e.now
  {
    assert s'.lastCleanup == Swept(c, s, e.now).lastCleanup || e.op.Delete? || e.op.Clear? || e.op.Invalidate?;
  }

  /** `delete` does not look at expiry: on some run it reports an expired key as deleted. */
  lemma DeleteSeesExpired<V(!new)>(v: V) returns (c: Config, events: seq<Event<V>>, states: seq<State<V>>)
    ensures c.maxItems >= 1 && IsRun(c, events, states) && AlwaysFits(c, events) && |events| == 2
    ensures events[1].op == Op.Delete("k") && events[1].result == Flag(true)
    ensures RefResult(RefRun(c, events[..1]), events[1].op, events[1].now) == Flag(false)
  {
    c := Config(300.0, 10000, 60.0);
    var e0 := Event(Op.Set("k", v, Some(1.0)), 0.0, Flag(true));
    var e1: Event<V> := Event(Op.Delete("k"), 2.0, Flag(true));
    var s0: State<V> := State(map[], 0.0);
    var s1 := State(map["k" := Entry(v, 1.0)], 0.0);
    var s2: State<V> := State(map[], 0.0);
    events, states := [e0, e1], [s0, s1, s2];
    assert s1.store - {"k"} == map[];
    assert Step(c, s0, e0, s1) && Step(c, s1, e1, s2);
    assert events[..0] == [] && events[..1] == [e0];
    assert RefRun(c, [e0]) == map["k" := Entry(v, 1.0)] by {
      assert [e0][..0] == [];
    }
    assert LiveKeys(RefRun(c, events[..0]), 0.0) + {"k"} == {"k"};
  }
}
