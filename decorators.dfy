/**
 * The handler decorators: the per-user sliding-window rate limiter, the
 * performance monitor that records every handler call once, and the
 * administrator gate.
 *
 * Clock readings (`time.time()`) are passed in as `real` seconds; the
 * handler a decorator wraps is code this model does not see, so its outcome
 * is a parameter.
 */
module Decorators {
  import opened Wrappers
  import opened TimeKeys
  import Monitor
  import RealTimeStats
  import Bot
  import Config

  const DefaultMaxRequests: int := 10
  const DefaultWindowSeconds: int := 60

  /** The timestamps the window keeps: those less than `window` seconds
      before `now`, in their original order. */
  function Pruned(ts: seq<real>, now: real, window: int): (r: seq<real>)
    ensures |r| <= |ts|
    ensures forall i :: 0 <= i < |r| ==> now - r[i] < window as real && r[i] in ts
    ensures forall x :: x in ts && now - x < window as real ==> x in r
  {
    if ts == [] then []
    else
      var rest := Pruned(ts[1..], now, window);
      if now - ts[0] < window as real then [ts[0]] + rest else rest
  }

  /** Pruning works element by element, so it keeps the order of what it
      keeps. */
  lemma {:induction false} PrunedAppend(a: seq<real>, b: seq<real>, now: real, window: int)
    ensures Pruned(a + b, now, window) == Pruned(a, now, window) + Pruned(b, now, window)
  {
    if a == [] {
      assert a + b == b;
    } else {
      assert (a + b)[0] == a[0];
      assert (a + b)[1..] == a[1..] + b;
      PrunedAppend(a[1..], b, now, window);
    }
  }

  /** Pruning again at a later instant gives what pruning once at that
      instant gives. */
  lemma {:induction false} PrunedLater(ts: seq<real>, t1: real, t2: real, window: int)
    requires t1 <= t2
    ensures Pruned(Pruned(ts, t1, window), t2, window) == Pruned(ts, t2, window)
  {
    if ts != [] {
      PrunedLater(ts[1..], t1, t2, window);
    }
  }

  /** The result of one check: whether the request is admitted, and the
      user's timestamps afterwards. */
  datatype Decision = Decision(admitted: bool, history: seq<real>)

  /** One `rate_limit` check: prune the user's list to the window, reject
      when it already holds `maxRequests` entries, otherwise append `now`. */
  function CheckStep(h: seq<real>, now: real, maxRequests: int, window: int): (d: Decision)
    ensures d.admitted <==> |Pruned(h, now, window)| < maxRequests
    ensures d.history == Pruned(h, now, window) + (if d.admitted then [now] else [])
  {
    var kept := Pruned(h, now, window);
    if |kept| >= maxRequests then Decision(false, kept) else Decision(true, kept + [now])
  }

  /** A check never lets a list within the limit grow past it. */
  lemma CheckBounded(h: seq<real>, now: real, maxRequests: int, window: int)
    requires |h| <= maxRequests
    ensures |CheckStep(h, now, maxRequests, window).history| <= maxRequests
  {
  }

  /** After a check every stored timestamp lies inside the window ending at
      the check, so an entry exactly `window` seconds old is gone. */
  lemma CheckWindow(h: seq<real>, now: real, maxRequests: int, window: int)
    requires window > 0
    ensures forall x :: x in CheckStep(h, now, maxRequests, window).history ==> now - x < window as real
    ensures forall x :: x in h && now - x == window as real ==> x !in CheckStep(h, now, maxRequests, window).history
  {
  }

  /** A sequence of checks for one user: the admission of each, and the list
      left at the end. */
  datatype Trace = Trace(admitted: seq<bool>, history: seq<real>)

  function Run(h: seq<real>, times: seq<real>, maxRequests: int, window: int): (r: Trace)
    ensures |r.admitted| == |times|
    decreases |times|
  {
    if times == [] then Trace([], h)
    else
      var d := CheckStep(h, times[0], maxRequests, window);
      var rest := Run(d.history, times[1..], maxRequests, window);
      Trace([d.admitted] + rest.admitted, rest.history)
  }

  /** Starting from a list within the limit (an empty one in particular),
      no sequence of checks makes it longer than the limit. */
  lemma {:induction false} RunBounded(h: seq<real>, times: seq<real>, maxRequests: int, window: int)
    requires |h| <= maxRequests
    ensures |Run(h, times, maxRequests, window).history| <= maxRequests
    decreases |times|
  {
    if times != [] {
      CheckBounded(h, times[0], maxRequests, window);
      RunBounded(CheckStep(h, times[0], maxRequests, window).history, times[1..], maxRequests, window);
    }
  }

  function Repeat<T>(x: T, n: nat): (r: seq<T>)
    ensures |r| == n && forall i :: 0 <= i < n ==> r[i] == x
  {
    if n == 0 then [] else [x] + Repeat(x, n - 1)
  }

  /** Checks at one instant, starting from `k` earlier ones at that instant:
      a check is admitted exactly while fewer than `maxRequests` are stored. */
  lemma {:induction false} BurstFrom(t: real, k: nat, n: nat, maxRequests: int, window: int)
    requires window > 0 && k <= maxRequests
    ensures forall i :: 0 <= i < n ==>
              (Run(Repeat(t, k), Repeat(t, n), maxRequests, window).admitted[i] <==> k + i < maxRequests)
    decreases n
  {
    if n > 0 {
      var h := Repeat(t, k);
      assert Pruned(h, t, window) == h by { PrunedSame(t, k, window); }
      var d := CheckStep(h, t, maxRequests, window);
      assert d.admitted <==> k < maxRequests;
      var k' := if k < maxRequests then k + 1 else k;
      assert d.history == Repeat(t, k');
      var rest := Run(Repeat(t, k'), Repeat(t, n - 1), maxRequests, window);
      BurstFrom(t, k', n - 1, maxRequests, window);
      BurstShift(h, t, n, maxRequests, window, d.admitted, rest.admitted);
      BurstCombine(k, k', n, maxRequests, [d.admitted] + rest.admitted, d.admitted, rest.admitted);
    }
  }

  lemma BurstShift(h: seq<real>, t: real, n: nat, maxRequests: int, window: int,
                   first: bool, later: seq<bool>)
    requires n > 0
    requires first == CheckStep(h, t, maxRequests, window).admitted
    requires later == Run(CheckStep(h, t, maxRequests, window).history, Repeat(t, n - 1), maxRequests, window).admitted
    ensures Run(h, Repeat(t, n), maxRequests, window).admitted == [first] + later
  {
    assert Repeat(t, n)[0] == t && Repeat(t, n)[1..] == Repeat(t, n - 1);
  }

  lemma BurstCombine(k: nat, k': nat, n: nat, maxRequests: int, all: seq<bool>, first: bool, later: seq<bool>)
    requires n > 0 && |later| == n - 1 && all == [first] + later
    requires first <==> k < maxRequests
    requires k' == (if k < maxRequests then k + 1 else k)
    requires k <= maxRequests
    requires forall i :: 0 <= i < n - 1 ==> (later[i] <==> k' + i < maxRequests)
    ensures forall i :: 0 <= i < n ==> (all[i] <==> k + i < maxRequests)
  {
    forall i | 0 <= i < n
      ensures all[i] <==> k + i < maxRequests
    {
      if i > 0 {
        assert all[i] == later[i - 1];
      }
    }
  }

  /** Timestamps taken at the instant of the check all stay in a positive
      window. */
  lemma {:induction false} PrunedSame(t: real, k: nat, window: int)
    requires window > 0
    ensures Pruned(Repeat(t, k), t, window) == Repeat(t, k)
  {
    if k > 0 {
      assert Repeat(t, k)[1..] == Repeat(t, k - 1);
      PrunedSame(t, k - 1, window);
    }
  }

  /** With limit `N`, `N + 1` checks at one instant from an empty list: the
      first `N` are admitted and the last is rejected. */
  lemma Burst(t: real, maxRequests: nat, window: int)
    requires window > 0
    ensures Run([], Repeat(t, maxRequests + 1), maxRequests, window).admitted == Repeat(true, maxRequests) + [false]
  {
    BurstFrom(t, 0, maxRequests + 1, maxRequests, window);
    assert Repeat(t, 0) == [];
  }

  /** Once a full window has passed since the last stored timestamp, a check
      is admitted again (for any positive limit) and starts a fresh list. */
  lemma Recovery(h: seq<real>, last: real, now: real, maxRequests: int, window: int)
    requires forall i :: 0 <= i < |h| ==> h[i] <= last
    requires now >= last + window as real
    ensures CheckStep(h, now, maxRequests, window).admitted <==> maxRequests > 0
    ensures maxRequests > 0 ==> CheckStep(h, now, maxRequests, window).history == [now]
  {
    PrunedAllOld(h, now, window);
  }

  /** Nothing survives pruning when every timestamp is at least a window
      old. */
  lemma {:induction false} PrunedAllOld(h: seq<real>, now: real, window: int)
    requires forall i :: 0 <= i < |h| ==> now - h[i] >= window as real
    ensures Pruned(h, now, window) == []
  {
    if h != [] {
      PrunedAllOld(h[1..], now, window);
    }
  }

  /** The list comprehension that drops the timestamps older than the
      window, as a loop over the list. */
  method PruneWindow(h: seq<real>, now: real, window: int) returns (kept: seq<real>)
    ensures kept == Pruned(h, now, window)
  {
    kept := [];
    var i := 0;
    while i < |h|
      invariant 0 <= i <= |h|
      invariant kept == Pruned(h[..i], now, window)
    {
      PrunedSnoc(h, i, now, window);
      if now - h[i] < window as real {
        kept := kept + [h[i]];
      }
      i := i + 1;
    }
    assert h[..i] == h;
  }

  lemma PrunedSnoc(h: seq<real>, i: nat, now: real, window: int)
    requires i < |h|
    ensures Pruned(h[..i + 1], now, window) ==
              Pruned(h[..i], now, window) + (if now - h[i] < window as real then [h[i]] else [])
  {
    assert h[..i + 1] == h[..i] + [h[i]];
    PrunedAppend(h[..i], [h[i]], now, window);
  }

  /** `rate_limit_storage`: each user's recent request times. */
  class RateLimiter {
    var storage: map<int, seq<real>>

    constructor ()
      ensures storage == map[]
    {
      storage := map[];
    }

    /** The list of a user, as the `defaultdict(list)` reads it. */
    function History(userId: int): seq<real>
      reads this
    {
      if userId in storage then storage[userId] else []
    }

    /** No user's list is longer than `maxRequests`. */
    ghost predicate Bounded(maxRequests: int)
      reads this
    {
      forall u :: u in storage ==> |storage[u]| <= maxRequests
    }

    /** The `rate_limit` wrapper's check for `userId` at time `now`: the
        handler runs exactly when `admitted`. */
    method Check(userId: int, now: real, maxRequests: int, windowSeconds: int) returns (admitted: bool)
      modifies this
      ensures admitted == CheckStep(old(History(userId)), now, maxRequests, windowSeconds).admitted
      ensures storage == old(storage)[userId := CheckStep(old(History(userId)), now, maxRequests, windowSeconds).history]
      ensures old(Bounded(maxRequests)) && maxRequests >= 0 ==> Bounded(maxRequests)
      ensures windowSeconds > 0 ==> forall x :: x in History(userId) ==> now - x < windowSeconds as real
    {
      var h := History(userId);
      ghost var wasBounded := Bounded(maxRequests);
      var kept := PruneWindow(h, now, windowSeconds);
      if wasBounded && maxRequests >= 0 {
        assert userId in storage ==> |storage[userId]| <= maxRequests;
        CheckBounded(h, now, maxRequests, windowSeconds);
      }
      if windowSeconds > 0 {
        CheckWindow(h, now, maxRequests, windowSeconds);
      }
      if |kept| >= maxRequests {
        storage := storage[userId := kept];
        admitted := false;
      } else {
        storage := storage[userId := kept + [now]];
        admitted := true;
      }
    }
  }

  /** How a handler call ended: with a result, or with an exception. */
  datatype Outcome = Returned(result: string) | Raised(message: string)

  /** `monitor_performance`: the wrapped handler's outcome is passed through
      unchanged (an exception is re-raised), the system monitor, when the bot
      has one, records the call exactly once with the error flag set exactly
      when the handler raised, and the statistics manager, when there is one,
      records the user's activity under the handler's name. */
  method MonitorPerformance(monitor: Monitor.SystemMonitor?, stats: RealTimeStats.StatsManager?,
                            handler: Outcome, responseTime: real, now: int,
                            userId: int, handlerName: string, chatType: string, pipelineOk: bool)
    returns (out: Outcome)
    requires monitor != null ==> monitor.Valid() && InRange(now) && InRange(now - 25 * HourSeconds)
    requires stats != null ==> stats.Valid() && InRange(now)
    modifies monitor, stats
    ensures out == handler
    ensures monitor != null ==> monitor.Valid()
    ensures monitor != null ==> monitor.requestCount == old(monitor.requestCount) + 1
    ensures monitor != null ==>
              monitor.errorCount == old(monitor.errorCount) + (if handler.Raised? then 1 else 0)
    ensures monitor != null && handler.Raised? ==> monitor.lastErrorMessage == Text.SliceTo(handler.message, 100)
    ensures monitor != null ==>
              |monitor.responseTimes| > 0 && monitor.responseTimes[|monitor.responseTimes| - 1] == responseTime
    ensures stats != null ==> stats.Valid() && userId in stats.activeUsers
    ensures stats != null ==> stats.userLastActivity == old(stats.userLastActivity)[userId := now]
    ensures stats != null ==> stats.activeUsers == old(stats.activeUsers) + {userId}
    ensures stats != null && stats.redisAvailable && pipelineOk ==>
              stats.redis == RealTimeStats.ActivityPipeline(old(stats.redis), userId, handlerName, chatType, now)
    ensures stats != null && !(stats.redisAvailable && pipelineOk) ==> stats.redis == old(stats.redis)
    ensures stats != null && stats.redisAvailable ==>
              stats.fallbackStats == old(stats.fallbackStats) && stats.fallbackOrder == old(stats.fallbackOrder)
    ensures stats != null && !stats.redisAvailable ==>
              stats.fallbackStats
              == RealTimeStats.Bump(RealTimeStats.Bump(RealTimeStats.Bump(old(stats.fallbackStats),
                   RealTimeStats.DailyFallbackKey(now)), RealTimeStats.HourlyFallbackKey(now)),
                   RealTimeStats.ActionFallbackKey(handlerName))
    ensures stats != null && !stats.redisAvailable ==>
              stats.fallbackOrder
              == RealTimeStats.AppendNew(old(stats.fallbackOrder),
                   [RealTimeStats.DailyFallbackKey(now), RealTimeStats.HourlyFallbackKey(now),
                    RealTimeStats.ActionFallbackKey(handlerName)])
    ensures stats != null ==> stats.redisAvailable == old(stats.redisAvailable)
  {
    var errorMessage := if handler.Raised? then handler.message else "";
    if monitor != null {
      monitor.RecordRequest(responseTime, handler.Raised?, errorMessage, now);
    }
    if stats != null {
      stats.UpdateUserActivity(userId, handlerName, chatType, now, pipelineOk);
    }
    out := handler;
  }

  /** What `admin_required` does with a call. */
  datatype Gate = Denied | Ran(outcome: Outcome)

  /** `admin_required`: the handler runs only for an administrator of a
      handler object that has a bot; everyone else gets the refusal. */
  function AdminRequired(hasBot: bool, adminIds: seq<int>, userId: int, handler: Outcome): (g: Gate)
    ensures g.Ran? <==> hasBot && Bot.IsAdmin(adminIds, userId)
    ensures g.Ran? ==> g.outcome == handler
  {
    if !(hasBot && Bot.IsAdmin(adminIds, userId)) then Denied else Ran(handler)
  }

  /** With the administrators read from `ADMIN_IDS`, a handler behind the
      gate runs only for a user whose id some part of the variable spells;
      a user with a negative id is always refused. */
  lemma AdminGateFromEnv(raw: Option<string>, userId: int, handler: Outcome)
    ensures AdminRequired(true, Config.AdminIds(raw), userId, handler).Ran? <==>
              exists i :: 0 <= i < |Config.AdminParts(raw)| && Config.NamesId(Config.AdminParts(raw)[i], userId)
    ensures userId < 0 ==> AdminRequired(true, Config.AdminIds(raw), userId, handler) == Denied
  {
    var ids := Config.AdminIds(raw);
    Bot.AdminFromEnv(raw, userId);
    assert AdminRequired(true, ids, userId, handler).Ran? == Bot.IsAdmin(ids, userId);
  }
}
