/** The request limit by client address (_rate_limited in sepko/security_middleware.py): a store that
    prunes and evicts, against the full history of calls.  Times are in milliseconds. */
module RateLimit {

  const WINDOW := 60_000
  const MAX := 120
  const CAPACITY := 5000
  const EVICT := 2000

  datatype Hit = Hit(ip: string, at: int)

  // ---------- the simple form ----------

  /** Calls of an address less than a window ago. */
  function RecentOf(history: seq<Hit>, ip: string, now: int): seq<int> {
    if history == [] then []
    else
      var n := |history| - 1;
      RecentOf(history[..n], ip, now)
      + if history[n].ip == ip && now - history[n].at < WINDOW then [history[n].at] else []
  }

  /** Limited: more than MAX calls of the address, the last one included, within the window. */
  predicate Limited(history: seq<Hit>, ip: string, now: int) { |RecentOf(history, ip, now)| > MAX }

  /** The calls of the address in the last minute. */
  function InLastMinute(history: seq<Hit>, ip: string, now: int): set<nat> {
    set i: nat | i < |history| && history[i].ip == ip && now - history[i].at < 60_000
  }

  lemma {:induction false} RecentCounts(history: seq<Hit>, ip: string, now: int)
    ensures |RecentOf(history, ip, now)| == |InLastMinute(history, ip, now)|
  {
    if history == [] {
      assert InLastMinute(history, ip, now) == {};
    } else {
      var n: nat := |history| - 1;
      RecentCounts(history[..n], ip, now);
      var before := InLastMinute(history[..n], ip, now);
      if history[n].ip == ip && now - history[n].at < 60_000 {
        assert InLastMinute(history, ip, now) == before + {n};
      } else {
        assert InLastMinute(history, ip, now) == before;
      }
    }
  }

  /** An address is limited exactly when it made more than 120 calls in the last minute. */
  lemma LimitedExactly(history: seq<Hit>, ip: string, now: int)
    ensures Limited(history, ip, now) <==> |InLastMinute(history, ip, now)| > 120
  {
    RecentCounts(history, ip, now);
  }

  function Pruned(times: seq<int>, now: int): seq<int> {
    if times == [] then []
    else
      var n := |times| - 1;
      Pruned(times[..n], now) + if now - times[n] < WINDOW then [times[n]] else []
  }

  // ---------- lists of times ----------

  lemma {:induction false} PruneTwice(times: seq<int>, now: int, later: int)
    requires now <= later
    ensures Pruned(Pruned(times, now), later) == Pruned(times, later)
  {
    if times != [] {
      var n := |times| - 1;
      PruneTwice(times[..n], now, later);
      var p := Pruned(times[..n], now);
      if now - times[n] < WINDOW {
        assert (p + [times[n]])[..|p|] == p;
      } else {
        assert p + [] == p;
      }
    }
  }

  /** Times that never decrease and do not lie in the future. */
  predicate Ascending(times: seq<int>, now: int) {
    (forall i, j | 0 <= i < j < |times| :: times[i] <= times[j]) && (forall i | 0 <= i < |times| :: times[i] <= now)
  }

  lemma {:induction false} PrunedAscending(times: seq<int>, now: int, bound: int)
    requires Ascending(times, bound)
    ensures Ascending(Pruned(times, now), bound)
    ensures times != [] ==> forall i | 0 <= i < |Pruned(times, now)| :: Pruned(times, now)[i] <= times[|times| - 1]
  {
    if times != [] {
      var n := |times| - 1;
      PrunedAscending(times[..n], now, bound);
      if n > 0 { assert times[n - 1] <= times[n]; }
    }
  }

  /** A list whose last time is more than a window old prunes to nothing, now and later. */
  lemma {:induction false} StalePrunesToNothing(times: seq<int>, now: int, later: int)
    requires Ascending(times, now) && now <= later && StaleList(times, now)
    ensures Pruned(times, later) == []
  {
    if times != [] {
      var n := |times| - 1;
      if n > 0 { assert times[n - 1] <= times[n]; }
      StalePrunesToNothing(times[..n], now, later);
    }
  }

  predicate StaleList(times: seq<int>, now: int) { times == [] || now - times[|times| - 1] > WINDOW }

  // ---------- the store against the history ----------

  type Store = map<string, seq<int>>

  function Kept(hits: Store, ip: string): seq<int> { if ip in hits then hits[ip] else [] }

  /** What is kept of an address prunes, at any later time, to what the history says. */
  ghost predicate Exact(times: seq<int>, history: seq<Hit>, ip: string, clock: int) {
    Ascending(times, clock) && forall later | later >= clock :: Pruned(times, later) == RecentOf(history, ip, later)
  }

  ghost predicate StoreOk(hits: Store, history: seq<Hit>, clock: int) {
    forall ip: string :: Exact(Kept(hits, ip), history, ip, clock)
  }

  lemma CallKeepsOthers(times: seq<int>, history: seq<Hit>, ip: string, other: string, clock: int, now: int)
    requires Exact(times, history, other, clock) && other != ip && now >= clock
    ensures Exact(times, history + [Hit(ip, now)], other, now)
  {
    var after := history + [Hit(ip, now)];
    assert after[..|history|] == history;
    forall later | later >= now ensures Pruned(times, later) == RecentOf(after, other, later) {
      assert RecentOf(after, other, later) == RecentOf(history, other, later) + [];
    }
  }

  lemma CallRecorded(times: seq<int>, history: seq<Hit>, ip: string, clock: int, now: int)
    requires Exact(times, history, ip, clock) && now >= clock
    ensures Exact(Pruned(times, now) + [now], history + [Hit(ip, now)], ip, now)
    ensures Pruned(times, now) + [now] == RecentOf(history + [Hit(ip, now)], ip, now)
  {
    var p, after := Pruned(times, now), history + [Hit(ip, now)];
    assert after[..|history|] == history && (p + [now])[..|p|] == p;
    PrunedAscending(times, now, clock);
    forall later | later >= now ensures Pruned(p + [now], later) == RecentOf(after, ip, later) {
      PruneTwice(times, now, later);
    }
  }

  lemma StoreAfterCall(hits: Store, history: seq<Hit>, clock: int, ip: string, now: int)
    requires StoreOk(hits, history, clock) && now >= clock
    ensures var recent := Pruned(Kept(hits, ip), now) + [now];
      && StoreOk(hits[ip := recent], history + [Hit(ip, now)], now)
      && recent == RecentOf(history + [Hit(ip, now)], ip, now)
  {
    var recent := Pruned(Kept(hits, ip), now) + [now];
    CallRecorded(Kept(hits, ip), history, ip, clock, now);
    var left, after := hits[ip := recent], history + [Hit(ip, now)];
    forall other: string ensures Exact(Kept(left, other), after, other, now) {
      assert Exact(Kept(hits, other), history, other, clock);
      if other != ip { CallKeepsOthers(Kept(hits, other), history, ip, other, clock, now); }
    }
  }

  /** Dropping stale addresses changes no answer. */
  lemma StoreAfterEviction(hits: Store, left: Store, history: seq<Hit>, now: int)
    requires StoreOk(hits, history, now)
    requires forall ip | ip in left :: ip in hits && left[ip] == hits[ip]
    requires forall ip | ip in hits && ip !in left :: StaleList(hits[ip], now)
    ensures StoreOk(left, history, now)
  {
    forall ip: string ensures Exact(Kept(left, ip), history, ip, now) {
      assert Exact(Kept(hits, ip), history, ip, now);
      if ip in hits && ip !in left {
        forall later | later >= now ensures Pruned([], later) == RecentOf(history, ip, later) {
          StalePrunesToNothing(hits[ip], now, later);
        }
      }
    }
  }

  // ---------- the store in place ----------

  /** The stale keys among the first n, in insertion order. */
  function StaleKeys(hits: Store, order: seq<string>, now: int, n: nat): (keys: seq<string>)
    requires n <= |order|
    ensures forall k | k in keys :: k in hits && StaleList(hits[k], now)
  {
    if n == 0 then []
    else
      StaleKeys(hits, order, now, n - 1)
      + if order[n - 1] in hits && StaleList(hits[order[n - 1]], now) then [order[n - 1]] else []
  }

  class Limiter {
    var hits: Store
    var order: seq<string>     // keys in insertion order
    ghost var history: seq<Hit>
    ghost var clock: int

    ghost predicate Valid()
      reads this
    {
      StoreOk(hits, history, clock)
    }

    constructor (now: int)
      ensures Valid() && history == [] && clock == now
    {
      hits, order := map[], [];
      history, clock := [], now;
    }

    /** _rate_limited, called at a time not before the last call. */
    method RateLimited(ip: string, now: int) returns (limited: bool)
      requires Valid() && now >= clock
      modifies this
      ensures Valid() && clock == now
      ensures history == old(history) + [Hit(ip, now)]
      ensures limited <==> Limited(history, ip, now)
    {
      StoreAfterCall(hits, history, clock, ip, now);
      var recent := Pruned(Kept(hits, ip), now) + [now];
      if ip !in hits { order := order + [ip]; }
      hits := hits[ip := recent];
      history := history + [Hit(ip, now)];
      clock := now;
      limited := |recent| > MAX;
      if |hits| > CAPACITY { Evict(now); }
    }

    /** At most EVICT stale addresses are dropped, the oldest keys first. */
    method Evict(now: int)
      requires Valid() && now == clock
      modifies this`hits, this`order
      ensures Valid()
      ensures |old(hits)| - |hits| <= EVICT
      ensures forall ip | ip in old(hits) && !StaleList(old(hits)[ip], now) :: ip in hits && hits[ip] == old(hits)[ip]
    {
      var stale := StaleKeys(hits, order, now, |order|);
      var n := if |stale| < EVICT then |stale| else EVICT;
      var i := 0;
      while i < n
        invariant i <= n
        invariant |old(hits)| - |hits| <= i
        invariant forall ip | ip in hits :: ip in old(hits) && hits[ip] == old(hits)[ip]
        invariant forall ip | ip in old(hits) && ip !in hits :: StaleList(old(hits)[ip], now)
      {
        assert stale[i] in stale;
        PopShrinks(hits, stale[i]);
        hits := hits - {stale[i]};
        order := Without(order, stale[i]);
        i := i + 1;
      }
      StoreAfterEviction(old(hits), hits, history, now);
    }
  }

  lemma PopShrinks(m: Store, k: string)
    ensures |m| - 1 <= |m - {k}| <= |m|
  {
    var rest := m - {k};
    assert rest.Keys == m.Keys - {k};
    assert |rest.Keys| == |rest| && |m.Keys| == |m|;
  }

  /** The list with a key taken out. */
  function Without(keys: seq<string>, k: string): seq<string> {
    if keys == [] then []
    else (if keys[0] == k then [] else [keys[0]]) + Without(keys[1..], k)
  }
}
