/** The three-tier API-key limiter of `backend/app/services/api_key_rate_limiter.py`, once
    over Redis counters with expiry and once over in-memory dictionaries. */
module ApiKeyLimiter {
  import opened Arithmetic
  import opened Text

  datatype Tier = Min | Hour | Day

  function Length(t: Tier): int {
    match t case Min => 60 case Hour => 3600 case Day => 86400
  }

  /** Seconds that a Redis counter outlives its last increment. */
  function Ttl(t: Tier): int {
    match t case Min => 120 case Hour => 7200 case Day => 172800
  }

  /** Clock readings are not negative. */
  type Time = x: real | x >= 0.0

  /** The number of the window that the clock's whole seconds fall in. */
  function Window(t: Tier, now: Time): int {
    now.Floor / Length(t)
  }

  datatype Limits = Limits(perMin: int, perHour: int, perDay: int) {
    function Of(t: Tier): int {
      match t case Min => perMin case Hour => perHour case Day => perDay
    }
  }

  datatype Result = Result(allowed: bool, limit: int, remaining: int, resetAt: int, retryAfter: Option<real>)

  function Reject(t: Tier, limit: int, now: Time): Result {
    var resetAt := (Window(t, now) + 1) * Length(t);
    var wait := resetAt as real - now;
    Result(false, limit, 0, resetAt, Some(if wait > 0.0 then wait else 0.0))
  }

  /** The verdict for a call that is number `minute`, `hour`, `day` in its windows. */
  function Verdict(l: Limits, now: Time, minute: int, hour: int, day: int): Result {
    if minute > l.perMin then Reject(Min, l.perMin, now)
    else if hour > l.perHour then Reject(Hour, l.perHour, now)
    else if day > l.perDay then Reject(Day, l.perDay, now)
    else Result(true, Smaller(l.perMin, Smaller(l.perHour, l.perDay)),
                Smaller(l.perMin - minute, Smaller(l.perHour - hour, l.perDay - day)),
                (Window(Min, now) + 1) * 60, None)
  }

  // ----- Redis -----

  type Key = (string, Tier, int)

  datatype Entry = Entry(count: int, expiresAt: real)

  type Redis = map<Key, Entry>

  /** A counter whose expiry has passed reads as absent. */
  function RedisCount(r: Redis, key: Key, now: Time): int {
    if key in r && now < r[key].expiresAt then r[key].count else 0
  }

  function Incremented(r: Redis, key: Key, now: Time): Redis {
    r[key := Entry(RedisCount(r, key, now) + 1, now + Ttl(key.1) as real)]
  }

  function RedisStep(r: Redis, id: string, now: Time): Redis {
    var r1 := Incremented(r, (id, Min, Window(Min, now)), now);
    var r2 := Incremented(r1, (id, Hour, Window(Hour, now)), now);
    Incremented(r2, (id, Day, Window(Day, now)), now)
  }

  // ----- memory -----

  type Counts = map<int, int>

  /** The three dictionaries of one key. */
  datatype Tiers = Tiers(min: Counts, hour: Counts, day: Counts) {
    function At(t: Tier): Counts {
      match t case Min => min case Hour => hour case Day => day
    }
  }

  const NO_TIERS := Tiers(map[], map[], map[])

  type Memory = map<string, Tiers>

  function TiersOf(m: Memory, id: string): Tiers {
    if id in m then m[id] else NO_TIERS
  }

  function CountAt(c: Counts, w: int): int {
    if w in c then c[w] else 0
  }

  /** The current window's count goes up by one and past windows go. */
  function CountsStep(c: Counts, w: int): Counts {
    map x | x in c.Keys + {w} && x >= w :: if x == w then CountAt(c, w) + 1 else c[x]
  }

  function MemoryStep(m: Memory, id: string, now: Time): Memory {
    var ts := TiersOf(m, id);
    m[id := Tiers(CountsStep(ts.min, Window(Min, now)),
                  CountsStep(ts.hour, Window(Hour, now)),
                  CountsStep(ts.day, Window(Day, now)))]
  }

  // ----- the two implementations -----

  class Limiter {
    var redis: Redis
    var memory: Memory

    constructor ()
      ensures redis == map[] && memory == map[]
    {
      redis := map[];
      memory := map[];
    }

    /** INCR and EXPIRE of one counter. */
    method Incr(key: Key, now: Time) returns (count: int)
      modifies this`redis
      ensures count == RedisCount(old(redis), key, now) + 1
      ensures redis == Incremented(old(redis), key, now)
    {
      count := RedisCount(redis, key, now) + 1;
      redis := redis[key := Entry(count, now + Ttl(key.1) as real)];
    }

    method CheckRedis(id: string, l: Limits, now: Time) returns (r: Result)
      modifies this`redis
      ensures redis == RedisStep(old(redis), id, now)
      ensures var n := t => RedisCount(old(redis), (id, t, Window(t, now)), now) + 1;
              r == Verdict(l, now, n(Min), n(Hour), n(Day))
    {
      var minCount := Incr((id, Min, Window(Min, now)), now);
      var hourCount := Incr((id, Hour, Window(Hour, now)), now);
      var dayCount := Incr((id, Day, Window(Day, now)), now);
      if minCount > l.perMin {
        return Reject(Min, l.perMin, now);
      }
      if hourCount > l.perHour {
        return Reject(Hour, l.perHour, now);
      }
      if dayCount > l.perDay {
        return Reject(Day, l.perDay, now);
      }
      var remainingMinute := Larger(0, l.perMin - minCount);
      var remainingHour := Larger(0, l.perHour - hourCount);
      var remainingDay := Larger(0, l.perDay - dayCount);
      return Result(true, Smaller(l.perMin, Smaller(l.perHour, l.perDay)),
                    Smaller(remainingMinute, Smaller(remainingHour, remainingDay)),
                    (Window(Min, now) + 1) * 60, None);
    }

    method CheckMemory(id: string, l: Limits, now: Time) returns (r: Result)
      modifies this`memory
      ensures memory == MemoryStep(old(memory), id, now)
      ensures var n := t => CountAt(TiersOf(old(memory), id).At(t), Window(t, now)) + 1;
              r == Verdict(l, now, n(Min), n(Hour), n(Day))
    {
      var minCount, hourCount, dayCount := CountMemory(id, now);
      if minCount > l.perMin {
        return Reject(Min, l.perMin, now);
      }
      if hourCount > l.perHour {
        return Reject(Hour, l.perHour, now);
      }
      if dayCount > l.perDay {
        return Reject(Day, l.perDay, now);
      }
      return Result(true, Smaller(l.perMin, Smaller(l.perHour, l.perDay)),
                    Smaller(l.perMin - minCount, Smaller(l.perHour - hourCount, l.perDay - dayCount)),
                    (Window(Min, now) + 1) * 60, None);
    }

    /** The counting part of `_check_memory`. */
    method CountMemory(id: string, now: Time) returns (minCount: int, hourCount: int, dayCount: int)
      modifies this`memory
      ensures memory == MemoryStep(old(memory), id, now)
      ensures var n := t => CountAt(TiersOf(old(memory), id).At(t), Window(t, now)) + 1;
              minCount == n(Min) && hourCount == n(Hour) && dayCount == n(Day)
    {
      if id !in memory {
        memory := memory[id := NO_TIERS];
      }
      var limits;
      limits, minCount, hourCount, dayCount := CountTiers(memory[id], now);
      memory := memory[id := limits];
      CleanupMemory(id, now);
      CountedIsStep(old(memory), id, now, limits);
    }

    method CleanupMemory(id: string, now: Time)
      modifies this`memory
      ensures id !in old(memory) ==> memory == old(memory)
      ensures id in old(memory) ==>
                memory == old(memory)[id := CurrentTiers(old(memory)[id], now)]
    {
      if id in memory {
        var limits := memory[id];
        var min := DropStale(limits.min, Window(Min, now));
        var hour := DropStale(limits.hour, Window(Hour, now));
        var day := DropStale(limits.day, Window(Day, now));
        memory := memory[id := Tiers(min, hour, day)];
      }
    }
  }

  function Current(c: Counts, w: int): Counts {
    map x | x in c && x >= w :: c[x]
  }

  /** What is left of the three tiers when their past windows are deleted. */
  function CurrentTiers(ts: Tiers, now: Time): Tiers {
    Tiers(Current(ts.min, Window(Min, now)), Current(ts.hour, Window(Hour, now)), Current(ts.day, Window(Day, now)))
  }

  lemma CleanedIsStep(c: Counts, w: int)
    ensures Current(c[w := CountAt(c, w) + 1], w) == CountsStep(c, w)
  {
  }

  /** Counting in all tiers and then cleaning up is the step of the specification. */
  lemma CountedIsStep(m: Memory, id: string, now: Time, counted: Tiers)
    requires IsCounted(TiersOf(m, id), now, counted)
    ensures m[id := CurrentTiers(counted, now)] == MemoryStep(m, id, now)
  {
    forall t: Tier ensures Current(counted.At(t), Window(t, now)) == CountsStep(TiersOf(m, id).At(t), Window(t, now)) {
      CleanedIsStep(TiersOf(m, id).At(t), Window(t, now));
    }
    assert counted.At(Min) == counted.min && counted.At(Hour) == counted.hour && counted.At(Day) == counted.day;
  }

  /** The current windows' counts, each one up. */
  method CountTiers(ts: Tiers, now: Time) returns (counted: Tiers, minCount: int, hourCount: int, dayCount: int)
    ensures var n := t => CountAt(ts.At(t), Window(t, now)) + 1;
            minCount == n(Min) && hourCount == n(Hour) && dayCount == n(Day)
    ensures IsCounted(ts, now, counted)
  {
    minCount := CountAt(ts.min, Window(Min, now)) + 1;
    hourCount := CountAt(ts.hour, Window(Hour, now)) + 1;
    dayCount := CountAt(ts.day, Window(Day, now)) + 1;
    counted := ts.(min := ts.min[Window(Min, now) := minCount]);
    counted := counted.(hour := ts.hour[Window(Hour, now) := hourCount]);
    counted := counted.(day := ts.day[Window(Day, now) := dayCount]);
  }

  predicate IsCounted(ts: Tiers, now: Time, counted: Tiers) {
    forall t: Tier :: counted.At(t) == ts.At(t)[Window(t, now) := CountAt(ts.At(t), Window(t, now)) + 1]
  }

  /** Deletes the windows before `w` one by one. */
  method DropStale(c: Counts, w: int) returns (kept: Counts)
    ensures kept == Current(c, w)
  {
    kept := c;
    var stale := set x | x in c && x < w;
    while stale != {}
      invariant stale <= c.Keys && forall x :: x in stale ==> x < w
      invariant kept.Keys == Current(c, w).Keys + stale
      invariant forall x :: x in kept ==> kept[x] == c[x]
    {
      var x :| x in stale;
      kept := kept - {x};
      stale := stale - {x};
    }
  }

  // ----- call histories -----

  datatype Call = Call(id: string, limits: Limits, now: Time)

  /** The clock does not run backwards. */
  ghost predicate Monotone(h: seq<Call>) {
    forall i, j :: 0 <= i < j < |h| ==> h[i].now <= h[j].now
  }

  function RedisRun(h: seq<Call>): Redis {
    if h == [] then map[] else RedisStep(RedisRun(h[..|h| - 1]), h[|h| - 1].id, h[|h| - 1].now)
  }

  function MemoryRun(h: seq<Call>): Memory {
    if h == [] then map[] else MemoryStep(MemoryRun(h[..|h| - 1]), h[|h| - 1].id, h[|h| - 1].now)
  }

  /** Calls of `id` in window `w` of tier `t`: what both implementations are to count. */
  ghost function Calls(h: seq<Call>, id: string, t: Tier, w: int): nat {
    if h == [] then 0
    else
      var q := h[|h| - 1];
      Calls(h[..|h| - 1], id, t, w) + (if q.id == id && Window(t, q.now) == w then 1 else 0)
  }

  /** The verdict on a call after history `h`, from the history alone. */
  ghost function Expected(h: seq<Call>, q: Call): Result {
    var n := t => Calls(h, q.id, t, Window(t, q.now)) + 1;
    Verdict(q.limits, q.now, n(Min), n(Hour), n(Day))
  }

  lemma WindowMonotone(t: Tier, a: Time, b: Time)
    requires a <= b
    ensures 0 <= Window(t, a) <= Window(t, b)
  {
  }

  lemma {:induction false} NoCallsAhead(h: seq<Call>, id: string, t: Tier, w: int)
    requires forall i :: 0 <= i < |h| && h[i].id == id ==> Window(t, h[i].now) != w
    ensures Calls(h, id, t, w) == 0
  {
    if h != [] {
      NoCallsAhead(h[..|h| - 1], id, t, w);
    }
  }

  /** A Redis counter in store holds the number of calls in its window and outlives it. */
  ghost predicate RedisInv(r: Redis, h: seq<Call>) {
    forall id: string, t: Tier, w: int :: KeyInv(r, h, (id, t, w))
  }

  ghost predicate KeyInv(r: Redis, h: seq<Call>, key: Key) {
    if key in r
    then r[key].count == Calls(h, key.0, key.1, key.2) && r[key].expiresAt >= ((key.2 + 2) * Length(key.1)) as real
    else Calls(h, key.0, key.1, key.2) == 0
  }

  /** Inside the window the counter is alive. */
  lemma AliveInWindow(r: Redis, h: seq<Call>, id: string, t: Tier, now: Time)
    requires KeyInv(r, h, (id, t, Window(t, now)))
    ensures RedisCount(r, (id, t, Window(t, now)), now) == Calls(h, id, t, Window(t, now))
  {
    assert now < (now.Floor + 1) as real <= ((Window(t, now) + 2) * Length(t)) as real;
  }

  /** The three counters of a step do not get in each other's way. */
  lemma RedisStepAt(r: Redis, id: string, now: Time, key: Key)
    ensures var r' := RedisStep(r, id, now);
            if key.0 == id && key.2 == Window(key.1, now)
            then key in r' && r'[key] == Entry(RedisCount(r, key, now) + 1, now + Ttl(key.1) as real)
            else (key in r' <==> key in r) && (key in r ==> r'[key] == r[key])
  {
  }

  lemma {:induction false} RedisCounts(h: seq<Call>)
    ensures RedisInv(RedisRun(h), h)
  {
    if h != [] {
      var g, q := h[..|h| - 1], h[|h| - 1];
      RedisCounts(g);
      forall id: string, t: Tier, w: int ensures KeyInv(RedisRun(h), h, (id, t, w)) {
        assert KeyInv(RedisRun(g), g, (id, t, w));
        RedisStepAt(RedisRun(g), q.id, q.now, (id, t, w));
        if id == q.id && w == Window(t, q.now) {
          AliveInWindow(RedisRun(g), g, id, t, q.now);
          ExpiryReaches(t, q.now);
        }
      }
    }
  }

  lemma ExpiryReaches(t: Tier, now: Time)
    ensures now + Ttl(t) as real >= ((Window(t, now) + 2) * Length(t)) as real
  {
    assert now >= now.Floor as real >= (Window(t, now) * Length(t)) as real;
  }

  /** The time of the last call of `id`, if any. */
  ghost function LastCall(h: seq<Call>, id: string): Option<Time> {
    if h == [] then None
    else if h[|h| - 1].id == id then Some(h[|h| - 1].now)
    else LastCall(h[..|h| - 1], id)
  }

  lemma {:induction false} LastCallIsLast(h: seq<Call>, id: string)
    requires Monotone(h)
    ensures LastCall(h, id).None? ==> forall i :: 0 <= i < |h| ==> h[i].id != id
    ensures LastCall(h, id).Some? ==>
              && h != [] && LastCall(h, id).value <= h[|h| - 1].now
              && forall i :: 0 <= i < |h| && h[i].id == id ==> h[i].now <= LastCall(h, id).value
  {
    if h != [] && h[|h| - 1].id != id {
      LastCallIsLast(h[..|h| - 1], id);
    }
  }

  /** What a run leaves in one tier of one key. */
  ghost function CountsRun(h: seq<Call>, id: string, t: Tier): Counts {
    if h == [] then map[]
    else
      var c := CountsRun(h[..|h| - 1], id, t);
      if h[|h| - 1].id == id then CountsStep(c, Window(t, h[|h| - 1].now)) else c
  }

  lemma {:induction false} TierByTier(h: seq<Call>, id: string, t: Tier)
    ensures TiersOf(MemoryRun(h), id).At(t) == CountsRun(h, id, t)
  {
    if h != [] {
      TierByTier(h[..|h| - 1], id, t);
    }
  }

  lemma OneWindowLeft(c: Counts, w: int)
    requires forall x :: x in c ==> x <= w
    ensures CountsStep(c, w) == map[w := CountAt(c, w) + 1]
  {
  }

  /** After any run each tier of a key holds exactly one window, that of the key's last call,
      with the number of calls made in it. */
  lemma {:induction false} OneLiveWindow(h: seq<Call>, id: string, t: Tier)
    requires Monotone(h)
    ensures CountsRun(h, id, t) == match LastCall(h, id)
                                   case None => map[]
                                   case Some(last) => map[Window(t, last) := Calls(h, id, t, Window(t, last))]
    decreases |h|, 0
  {
    if h != [] {
      var g, q := h[..|h| - 1], h[|h| - 1];
      OneLiveWindow(g, id, t);
      if q.id == id {
        LastCallIsLast(g, id);
        if LastCall(g, id).Some? {
          WindowMonotone(t, LastCall(g, id).value, q.now);
        }
        MemoryCounts(g, id, t, q.now);
        OneWindowLeft(CountsRun(g, id, t), Window(t, q.now));
      }
    }
  }

  /** At any time from the last call on, memory counts the calls of the current window. */
  lemma {:induction false} MemoryCounts(h: seq<Call>, id: string, t: Tier, now: Time)
    requires Monotone(h) && (h != [] ==> h[|h| - 1].now <= now)
    ensures CountAt(CountsRun(h, id, t), Window(t, now)) == Calls(h, id, t, Window(t, now))
    decreases |h|, 1
  {
    OneLiveWindow(h, id, t);
    LastCallIsLast(h, id);
    var last := LastCall(h, id);
    if last.None? {
      NoCallsAhead(h, id, t, Window(t, now));
    } else if Window(t, last.value) != Window(t, now) {
      forall i | 0 <= i < |h| && h[i].id == id ensures Window(t, h[i].now) != Window(t, now) {
        WindowMonotone(t, h[i].now, last.value);
        WindowMonotone(t, last.value, now);
      }
      NoCallsAhead(h, id, t, Window(t, now));
    }
  }

  // ----- what an answer says -----

  /** Windows are counted in whole minutes, hours and days. */
  lemma WindowsAre(now: Time)
    ensures (60 * Window(Min, now)) as real <= now < (60 * (Window(Min, now) + 1)) as real
    ensures (3600 * Window(Hour, now)) as real <= now < (3600 * (Window(Hour, now) + 1)) as real
    ensures (86400 * Window(Day, now)) as real <= now < (86400 * (Window(Day, now) + 1)) as real
  {
  }

  /** `at` is the next multiple of `length` after `now`. */
  predicate IsNextReset(at: int, now: real, length: int)
    requires length > 0
  {
    now < at as real <= now + length as real && at % length == 0
  }

  predicate Rejects(r: Result, now: Time, limit: int, length: int)
    requires length > 0
  {
    !r.allowed && r.limit == limit && r.remaining == 0 && IsNextReset(r.resetAt, now, length)
    && r.retryAfter == Some(r.resetAt as real - now)
  }

  /** What remains of the limits is the least of what the three tiers have left, and the limit
      is their least. */
  predicate Admits(r: Result, l: Limits, now: Time, minute: int, hour: int, day: int) {
    && r.allowed && r.retryAfter == None && IsNextReset(r.resetAt, now, 60)
    && r.limit in {l.perMin, l.perHour, l.perDay} && r.limit <= l.perMin && r.limit <= l.perHour && r.limit <= l.perDay
    && r.remaining in {l.perMin - minute, l.perHour - hour, l.perDay - day}
    && 0 <= r.remaining <= l.perMin - minute && r.remaining <= l.perHour - hour && r.remaining <= l.perDay - day
  }

  /** The first tier whose limit the call exceeds rejects it until that tier's next window;
      a call that exceeds none is admitted. */
  lemma VerdictIsExact(l: Limits, now: Time, minute: int, hour: int, day: int)
    ensures var r := Verdict(l, now, minute, hour, day);
            if minute > l.perMin then Rejects(r, now, l.perMin, 60)
            else if hour > l.perHour then Rejects(r, now, l.perHour, 3600)
            else if day > l.perDay then Rejects(r, now, l.perDay, 86400)
            else Admits(r, l, now, minute, hour, day)
  {
    NextWindow(Min, now);
    RejectIsExact(Min, l.perMin, now);
    RejectIsExact(Hour, l.perHour, now);
    RejectIsExact(Day, l.perDay, now);
  }

  lemma RejectIsExact(t: Tier, limit: int, now: Time)
    ensures Rejects(Reject(t, limit, now), now, limit, Length(t))
  {
    NextWindow(t, now);
  }

  lemma NextWindow(t: Tier, now: Time)
    ensures IsNextReset((Window(t, now) + 1) * Length(t), now, Length(t))
  {
    WindowsAre(now);
    Multiples(Window(t, now) + 1, t);
  }

  lemma Multiples(k: int, t: Tier)
    ensures (k * Length(t)) % Length(t) == 0
  {
    match t
    case Min => assert (k * 60) % 60 == 0;
    case Hour => assert (k * 3600) % 3600 == 0;
    case Day => assert (k * 86400) % 86400 == 0;
  }

  lemma {:induction false} NoneAfter(h: seq<Call>, id: string, t: Tier, w: int)
    requires forall i :: 0 <= i < |h| ==> Window(t, h[i].now) < w
    ensures Calls(h, id, t, w) == 0
  {
    if h != [] {
      NoneAfter(h[..|h| - 1], id, t, w);
    }
  }

  /** At the reset time of a tier none of the calls so far counts in that tier's window, nor in
      that of a shorter tier. */
  lemma ResetIsFresh(h: seq<Call>, id: string, t: Tier, u: Tier, now: Time, at: int)
    requires Monotone(h) && (h != [] ==> h[|h| - 1].now <= now)
    requires IsNextReset(at, now, Length(t)) && Length(u) <= Length(t)
    ensures Calls(h, id, u, Window(u, at as real)) == 0
  {
    var w := Window(u, at as real);
    ResetStartsWindow(t, u, at);
    forall i | 0 <= i < |h| ensures Window(u, h[i].now) < w {
      WindowsAre(h[i].now);
    }
    NoneAfter(h, id, u, w);
  }

  lemma ResetStartsWindow(t: Tier, u: Tier, at: int)
    requires at >= 0 && at % Length(t) == 0 && Length(u) <= Length(t)
    ensures at == Window(u, at as real) * Length(u)
  {
    TiersNest(t, u, at);
    MultipleStartsWindow(u, at);
  }

  lemma MultipleStartsWindow(u: Tier, at: int)
    requires at >= 0 && at % Length(u) == 0
    ensures at == Window(u, at as real) * Length(u)
  {
    assert (at as real).Floor == at;
  }

  /** The length of a longer window is a multiple of that of a shorter one. */
  lemma TiersNest(t: Tier, u: Tier, at: int)
    requires at % Length(t) == 0 && Length(u) <= Length(t)
    ensures at % Length(u) == 0
  {
    match t
    case Min =>
    case Hour =>
      var k := at / 3600;
      assert at == 60 * (60 * k);
    case Day =>
      var k := at / 86400;
      assert at == 3600 * (24 * k) == 60 * (1440 * k);
  }

  /** A client that comes back at the reset time of the day tier is admitted, if its limits
      admit anything; at the reset time of another tier it is not rejected by that tier again. */
  lemma ResetSuffices(h: seq<Call>, q: Call, t: Tier, at: int)
    requires Monotone(h) && (h != [] ==> h[|h| - 1].now <= q.now)
    requires IsNextReset(at, q.now, Length(t)) && Least(q.limits) >= 1
    ensures var again := Expected(h + [q], q.(now := at as real));
            && (t == Day ==> again.allowed)
            && (t == Hour && !again.allowed ==> Rejects(again, at as real, q.limits.perDay, 86400))
            && (t == Min && !again.allowed ==> again.limit in {q.limits.perHour, q.limits.perDay} && again.resetAt % 3600 == 0)
  {
    forall u: Tier | Length(u) <= Length(t) ensures Calls(h + [q], q.id, u, Window(u, at as real)) == 0 {
      ResetIsFresh(h + [q], q.id, t, u, q.now, at);
    }
    var n := u => Calls(h + [q], q.id, u, Window(u, at as real)) + 1;
    FreshVerdict(q.limits, at as real, n(Min), n(Hour), n(Day));
  }

  lemma FreshVerdict(l: Limits, now: Time, minute: int, hour: int, day: int)
    requires Least(l) >= 1 && minute == 1
    ensures var r := Verdict(l, now, minute, hour, day);
            && (hour == 1 == day ==> r.allowed)
            && (hour == 1 && !r.allowed ==> Rejects(r, now, l.perDay, 86400))
            && (!r.allowed ==> r.limit in {l.perHour, l.perDay} && r.resetAt % 3600 == 0)
  {
    VerdictIsExact(l, now, minute, hour, day);
    var r := Verdict(l, now, minute, hour, day);
    assert r.resetAt % 86400 == 0 ==> r.resetAt == 3600 * (24 * (r.resetAt / 86400));
  }

  // ----- refinement -----

  /** On every run with a non-decreasing clock the Redis limiter and the in-memory limiter
      give the same answer in every field: the one that the call history determines. */
  lemma MemoryRefinesRedis(h: seq<Call>, q: Call)
    requires Monotone(h) && (h != [] ==> h[|h| - 1].now <= q.now)
    ensures var n := t => RedisCount(RedisRun(h), (q.id, t, Window(t, q.now)), q.now) + 1;
            Verdict(q.limits, q.now, n(Min), n(Hour), n(Day)) == Expected(h, q)
    ensures var n := t => CountAt(TiersOf(MemoryRun(h), q.id).At(t), Window(t, q.now)) + 1;
            Verdict(q.limits, q.now, n(Min), n(Hour), n(Day)) == Expected(h, q)
  {
    RedisCounts(h);
    forall t: Tier
      ensures RedisCount(RedisRun(h), (q.id, t, Window(t, q.now)), q.now) == Calls(h, q.id, t, Window(t, q.now))
      ensures CountAt(TiersOf(MemoryRun(h), q.id).At(t), Window(t, q.now)) == Calls(h, q.id, t, Window(t, q.now))
    {
      assert KeyInv(RedisRun(h), h, (q.id, t, Window(t, q.now)));
      AliveInWindow(RedisRun(h), h, q.id, t, q.now);
      MemoryCounts(h, q.id, t, q.now);
      TierByTier(h, q.id, t);
    }
  }

  // ----- what is admitted -----

  predicate Fixed(h: seq<Call>, id: string, l: Limits) {
    forall i :: 0 <= i < |h| && h[i].id == id ==> h[i].limits == l
  }

  ghost predicate Admitted(h: seq<Call>, i: nat)
    requires i < |h|
  {
    Expected(h[..i], h[i]).allowed
  }

  /** Admitted calls of `id` in one window. */
  ghost function AdmittedIn(h: seq<Call>, id: string, t: Tier, w: int): nat {
    if h == [] then 0
    else
      var q := h[|h| - 1];
      AdmittedIn(h[..|h| - 1], id, t, w)
      + (if q.id == id && Window(t, q.now) == w && Expected(h[..|h| - 1], q).allowed then 1 else 0)
  }

  /** Admitted calls of `id` in the half-open interval [a, b). */
  ghost function AdmittedBetween(h: seq<Call>, id: string, a: real, b: real): nat {
    if h == [] then 0
    else
      var q := h[|h| - 1];
      AdmittedBetween(h[..|h| - 1], id, a, b)
      + (if q.id == id && a <= q.now < b && Expected(h[..|h| - 1], q).allowed then 1 else 0)
  }

  /** No window of any tier admits more than its limit. */
  lemma {:induction false} WindowAdmitsAtMostLimit(h: seq<Call>, id: string, l: Limits, t: Tier, w: int)
    requires Fixed(h, id, l)
    ensures AdmittedIn(h, id, t, w) <= Calls(h, id, t, w)
    ensures AdmittedIn(h, id, t, w) <= Larger(0, l.Of(t))
  {
    if h != [] {
      WindowAdmitsAtMostLimit(h[..|h| - 1], id, l, t, w);
    }
  }

  /** A minute lies in one hour and one day. */
  lemma MinutesNest(a: Time, b: Time)
    requires Window(Min, a) == Window(Min, b)
    ensures Window(Hour, a) == Window(Hour, b) && Window(Day, a) == Window(Day, b)
  {
    assert Window(Hour, a) == Window(Min, a) / 60 && Window(Hour, b) == Window(Min, b) / 60;
    assert Window(Day, a) == Window(Min, a) / 1440 && Window(Day, b) == Window(Min, b) / 1440;
  }

  lemma {:induction false} CallsGrow(h: seq<Call>, i: nat, id: string, t: Tier, w: int)
    requires i <= |h|
    ensures Calls(h[..i], id, t, w) <= Calls(h, id, t, w)
    decreases |h|
  {
    if i < |h| {
      CallsGrow(h[..|h| - 1], i, id, t, w);
      assert h[..|h| - 1][..i] == h[..i];
    } else {
      assert h[..i] == h;
    }
  }

  /** Within a minute the admitted calls of a key come first: once one is rejected, so are
      all that follow. */
  lemma AdmittedArePrefix(h: seq<Call>, id: string, l: Limits, i: nat, j: nat)
    requires Fixed(h, id, l) && i < j < |h| && h[i].id == id == h[j].id
    requires Window(Min, h[i].now) == Window(Min, h[j].now)
    ensures Admitted(h, j) ==> Admitted(h, i)
  {
    MinutesNest(h[i].now, h[j].now);
    forall t: Tier ensures Calls(h[..i], id, t, Window(t, h[j].now)) <= Calls(h[..j], id, t, Window(t, h[j].now)) {
      CallsGrow(h[..j], i, id, t, Window(t, h[j].now));
      assert h[..j][..i] == h[..i];
    }
  }

  /** The least of the three limits. */
  function Least(l: Limits): int {
    Smaller(l.perMin, Smaller(l.perHour, l.perDay))
  }

  /** What a minute window admits, its hour and its day admit as well. */
  lemma {:induction false} AdmittedNest(h: seq<Call>, id: string, w: int)
    ensures AdmittedIn(h, id, Min, w) <= AdmittedIn(h, id, Hour, w / 60)
    ensures AdmittedIn(h, id, Min, w) <= AdmittedIn(h, id, Day, w / 1440)
  {
    if h != [] {
      var q := h[|h| - 1];
      AdmittedNest(h[..|h| - 1], id, w);
      assert Window(Hour, q.now) == Window(Min, q.now) / 60;
      assert Window(Day, q.now) == Window(Min, q.now) / 1440;
    }
  }

  lemma MinuteAdmitsLeast(h: seq<Call>, id: string, l: Limits, w: int)
    requires Fixed(h, id, l)
    ensures AdmittedIn(h, id, Min, w) <= Larger(0, Least(l))
  {
    AdmittedNest(h, id, w);
    WindowAdmitsAtMostLimit(h, id, l, Min, w);
    WindowAdmitsAtMostLimit(h, id, l, Hour, w / 60);
    WindowAdmitsAtMostLimit(h, id, l, Day, w / 1440);
  }

  /** Any half-open interval as long as a tier's window meets at most two of its windows, and
      so admits at most twice the tier's limit. */
  lemma TwiceTheLimit(h: seq<Call>, id: string, l: Limits, t: Tier, a: Time)
    requires Fixed(h, id, l)
    ensures AdmittedBetween(h, id, a, a + Length(t) as real) <= 2 * Larger(0, l.Of(t))
  {
    var w := Window(t, a);
    TwoWindows(h, id, t, a);
    WindowAdmitsAtMostLimit(h, id, l, t, w);
    WindowAdmitsAtMostLimit(h, id, l, t, w + 1);
  }

  /** Any half-open 60 seconds admit at most twice the least limit. */
  lemma SixtySeconds(h: seq<Call>, id: string, l: Limits, a: Time)
    requires Fixed(h, id, l)
    ensures AdmittedBetween(h, id, a, a + 60.0) <= 2 * Larger(0, Least(l))
  {
    var w := Window(Min, a);
    TwoWindows(h, id, Min, a);
    MinuteAdmitsLeast(h, id, l, w);
    MinuteAdmitsLeast(h, id, l, w + 1);
  }

  lemma {:induction false} TwoWindows(h: seq<Call>, id: string, t: Tier, a: Time)
    ensures AdmittedBetween(h, id, a, a + Length(t) as real)
            <= AdmittedIn(h, id, t, Window(t, a)) + AdmittedIn(h, id, t, Window(t, a) + 1)
  {
    if h != [] {
      TwoWindows(h[..|h| - 1], id, t, a);
      var q := h[|h| - 1];
      if a <= q.now < a + Length(t) as real {
        assert a.Floor <= q.now.Floor <= a.Floor + Length(t);
      }
    }
  }

  // ----- the bound is met: the windows are fixed, not sliding -----

  /** The last second of a day. */
  const LATE: Time := 86399.0

  /** `n` calls in the last second of a day and the others a second later, when all three
      windows have turned over. */
  function Burst(l: Limits, n: nat, k: nat): seq<Call> {
    seq(k, i => Call("k", l, if i < n then LATE else LATE + 1.0))
  }

  lemma BurstWindows(t: Tier)
    ensures Window(t, LATE + 1.0) == Window(t, LATE) + 1
  {
    assert LATE.Floor == 86399 && (LATE + 1.0).Floor == 86400;
  }

  lemma {:induction false} BurstCounts(l: Limits, n: nat, k: nat, t: Tier)
    ensures Calls(Burst(l, n, k), "k", t, Window(t, LATE)) == Smaller(n, k)
    ensures Calls(Burst(l, n, k), "k", t, Window(t, LATE + 1.0)) == Larger(0, k - n)
  {
    if k > 0 {
      BurstCounts(l, n, k - 1, t);
      BurstWindows(t);
      assert Burst(l, n, k)[..k - 1] == Burst(l, n, k - 1);
    }
  }

  lemma {:induction false} BurstIsAdmitted(l: Limits, n: nat, k: nat)
    requires k <= 2 * n && n == Least(l)
    ensures AdmittedBetween(Burst(l, n, k), "k", LATE, LATE + 60.0) == k
  {
    if k > 0 {
      BurstIsAdmitted(l, n, k - 1);
      assert Burst(l, n, k)[..k - 1] == Burst(l, n, k - 1);
      var now := if k - 1 < n then LATE else LATE + 1.0;
      forall t: Tier ensures Calls(Burst(l, n, k - 1), "k", t, Window(t, now)) < n {
        BurstCounts(l, n, k - 1, t);
      }
    }
  }

  /** The bound of `SixtySeconds` is met: for all limits some run has twice the least of them
      admitted within two seconds. */
  lemma SixtySecondsIsTight(l: Limits) returns (h: seq<Call>)
    ensures Monotone(h) && Fixed(h, "k", l)
    ensures AdmittedBetween(h, "k", LATE, LATE + 60.0) == 2 * Larger(0, Least(l))
  {
    var n := Larger(0, Least(l));
    h := Burst(l, n, 2 * n);
    if n > 0 {
      BurstIsAdmitted(l, n, 2 * n);
    }
  }

  /** A tier's limit as a sliding window: no interval of any run that is as long as the tier's
      window admits more. */
  ghost predicate TierSlides(l: Limits, t: Tier) {
    forall h, id, a: Time :: SlidesAt(h, id, l, t, a)
  }

  ghost predicate SlidesAt(h: seq<Call>, id: string, l: Limits, t: Tier, a: Time) {
    Monotone(h) && Fixed(h, id, l) ==> AdmittedBetween(h, id, a, a + Length(t) as real) <= Larger(0, l.Of(t))
  }

  /** The minute limit slides exactly when it admits nothing, or the hour or day limit is at
      most half of it. */
  lemma MinuteSlides(l: Limits)
    ensures TierSlides(l, Min) <==> l.perMin <= 0 || 2 * Smaller(l.perHour, l.perDay) <= l.perMin
  {
    if l.perMin <= 0 || 2 * Smaller(l.perHour, l.perDay) <= l.perMin {
      forall h, id, a: Time ensures SlidesAt(h, id, l, Min, a) {
        if Fixed(h, id, l) {
          SixtySeconds(h, id, l, a);
        }
      }
    } else {
      var h := SixtySecondsIsTight(l);
      assert !SlidesAt(h, "k", l, Min, LATE);
    }
  }

  lemma {:induction false} LongerAdmitsMore(h: seq<Call>, id: string, a: real, b: real, c: real)
    requires b <= c
    ensures AdmittedBetween(h, id, a, b) <= AdmittedBetween(h, id, a, c)
  {
    if h != [] {
      LongerAdmitsMore(h[..|h| - 1], id, a, b, c);
    }
  }

  lemma {:induction false} NothingAdmitted(h: seq<Call>, id: string, l: Limits, a: real, b: real)
    requires Fixed(h, id, l) && Least(l) <= 0
    ensures AdmittedBetween(h, id, a, b) == 0
  {
    if h != [] {
      NothingAdmitted(h[..|h| - 1], id, l, a, b);
    }
  }

  /** The limiter is described as a sliding window. Its three limits all are one only where
      nothing is ever admitted: when one of them is not positive. */
  lemma SlidingClaim(l: Limits)
    ensures (forall t: Tier :: TierSlides(l, t)) <==> Least(l) <= 0
  {
    if Least(l) <= 0 {
      forall t: Tier, h, id, a: Time ensures SlidesAt(h, id, l, t, a) {
        if Fixed(h, id, l) {
          NothingAdmitted(h, id, l, a, a + Length(t) as real);
        }
      }
    } else {
      var t := if Least(l) == l.perMin then Min else if Least(l) == l.perHour then Hour else Day;
      assert Least(l) == l.Of(t);
      LeastDoesNotSlide(l, t);
    }
  }

  lemma LeastDoesNotSlide(l: Limits, t: Tier)
    requires 0 < Least(l) == l.Of(t)
    ensures !TierSlides(l, t)
  {
    var h := SixtySecondsIsTight(l);
    LongerAdmitsMore(h, "k", LATE, LATE + 60.0, LATE + Length(t) as real);
    assert !SlidesAt(h, "k", l, t, LATE);
  }
}
