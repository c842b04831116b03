/**
 * The request and health bookkeeping of `SystemMonitor`: request and error
 * counters, a response-time log capped at 1000 entries, hourly rollups keyed
 * by hour key and pruned by string comparison, and the read-only status,
 * error-rate, average and trend computations.
 *
 * Host sampling (CPU, memory, disk, network) is not modelled: CPU and memory
 * percentages are inputs of the status view.
 */
module Monitor {
  import opened Wrappers
  import opened Text
  import opened TimeKeys

  /** The number of response times the log keeps. */
  const LogCapacity: nat := 1000

  /** One entry of `hourly_stats`. */
  datatype HourStat = HourStat(requests: int, errors: int, totalResponseTime: real)

  /** One entry of the report built by `get_hourly_stats`. */
  datatype HourSummary = HourSummary(requests: int, errors: int, avgResponse: real, errorRate: real)

  datatype Status = Normal | Warning | Critical

  function Severity(s: Status): nat {
    match s
    case Normal => 0
    case Warning => 1
    case Critical => 2
  }

  /** Health status from CPU and memory percentages; every threshold is
      strict, so exactly 90 is a warning and exactly 70 is normal. */
  function ClassifyStatus(cpu: real, memory: real): (s: Status)
    ensures s == Critical <==> cpu > 90.0 || memory > 90.0
    ensures s == Warning <==> cpu <= 90.0 && memory <= 90.0 && (cpu > 70.0 || memory > 70.0)
    ensures s == Normal <==> cpu <= 70.0 && memory <= 70.0
  {
    if cpu > 90.0 || memory > 90.0 then Critical
    else if cpu > 70.0 || memory > 70.0 then Warning
    else Normal
  }

  /** More load never gives a milder status. */
  lemma StatusMonotone(cpu: real, memory: real, cpu': real, memory': real)
    requires cpu <= cpu' && memory <= memory'
    ensures Severity(ClassifyStatus(cpu, memory)) <= Severity(ClassifyStatus(cpu', memory'))
  {
  }

  /** `errors / max(requests, 1) * 100`. */
  function ErrorRate(errors: int, requests: int): (r: real)
    ensures requests >= 1 ==> r * requests as real == errors as real * 100.0
    ensures requests < 1 ==> r == errors as real * 100.0
  {
    var denominator := if requests > 1 then requests else 1;
    var fraction := errors as real / denominator as real;
    assert fraction * denominator as real == errors as real;
    fraction * 100.0
  }

  /** With no more errors than requests the rate is a percentage, and it is 0
      before any request has been recorded. */
  lemma ErrorRateBounds(errors: int, requests: int)
    requires 0 <= errors <= requests
    ensures 0.0 <= ErrorRate(errors, requests) <= 100.0
    ensures requests == 0 ==> ErrorRate(errors, requests) == 0.0
  {
    if requests >= 1 {
      var r := ErrorRate(errors, requests);
      var n := requests as real;
      assert r * n == errors as real * 100.0;
      assert errors as real <= n;
      if r > 100.0 {
        MulStrict(100.0, r, n);
      }
      if r < 0.0 {
        MulStrict(r, 0.0, n);
      }
    }
  }

  lemma MulStrict(a: real, b: real, n: real)
    requires a < b && n > 0.0
    ensures a * n < b * n
  {
    assert (b - a) * n > 0.0;
  }

  function Sum(s: seq<real>): real {
    if s == [] then 0.0 else s[0] + Sum(s[1..])
  }

  lemma {:induction false} SumBounds(s: seq<real>, lo: real, hi: real)
    requires forall i :: 0 <= i < |s| ==> lo <= s[i] <= hi
    ensures |s| as real * lo <= Sum(s) <= |s| as real * hi
  {
    if s != [] {
      SumBounds(s[1..], lo, hi);
      assert (|s| - 1) as real * lo + lo == |s| as real * lo;
      assert (|s| - 1) as real * hi + hi == |s| as real * hi;
    }
  }

  lemma {:induction false} SumAppend(a: seq<real>, b: seq<real>)
    ensures Sum(a + b) == Sum(a) + Sum(b)
  {
    if a == [] {
      assert a + b == b;
    } else {
      assert (a + b)[1..] == a[1..] + b;
      SumAppend(a[1..], b);
    }
  }

  /** The mean of the last (at most) 100 response times; 0 for an empty log. */
  function AverageRecent(times: seq<real>): (avg: real)
    ensures times == [] ==> avg == 0.0
    ensures times != [] ==> avg * |Tail(times, 100)| as real == Sum(Tail(times, 100))
  {
    if times == [] then 0.0
    else
      var recent := Tail(times, 100);
      Sum(recent) / |recent| as real
  }

  /** The mean of a non-empty run lies between its bounds. */
  lemma MeanBounds(s: seq<real>, lo: real, hi: real)
    requires s != []
    requires forall i :: 0 <= i < |s| ==> lo <= s[i] <= hi
    ensures lo <= Sum(s) / |s| as real <= hi
  {
    var n := |s| as real;
    SumBounds(s, lo, hi);
    var avg := Sum(s) / n;
    assert avg * n == Sum(s);
    if avg < lo {
      MulStrict(avg, lo, n);
    }
    if avg > hi {
      MulStrict(hi, avg, n);
    }
  }

  /** The average lies between the smallest and largest logged time (and is
      0 for an empty log). */
  lemma AverageRecentBounds(times: seq<real>, lo: real, hi: real)
    requires forall i :: 0 <= i < |times| ==> lo <= times[i] <= hi
    requires times != [] || lo <= 0.0 <= hi
    ensures lo <= AverageRecent(times) <= hi
  {
    if times != [] {
      var recent := Tail(times, 100);
      forall i | 0 <= i < |recent|
        ensures lo <= recent[i] <= hi
      {
        assert recent[i] == times[|times| - |recent| + i];
      }
      MeanBounds(recent, lo, hi);
    }
  }

  datatype Trend =
    | InsufficientData
    | InsufficientHistory
    | Improving(improvement: real)
    | Degrading(improvement: real)
    | Stable(improvement: real)

  /** Python's ZeroDivisionError when the older half averages to 0. */
  datatype TrendError = ZeroOlderAverage

  function RecentWindow(times: seq<real>): seq<real>
    requires |times| >= 100
  {
    times[|times| - 50..]
  }

  function OlderWindow(times: seq<real>): seq<real>
    requires |times| >= 100
  {
    times[|times| - 100..|times| - 50]
  }

  /** Trend of the last 50 response times against the 50 before them. */
  function PerformanceTrend(times: seq<real>): (r: Result<Trend, TrendError>)
    ensures |times| < 10 ==> r == Ok(InsufficientData)
    ensures 10 <= |times| < 100 ==> r == Ok(InsufficientHistory)
    ensures |times| >= 100 ==> (r.Err? <==> Sum(OlderWindow(times)) == 0.0)
    ensures |times| >= 100 && Sum(OlderWindow(times)) != 0.0 ==>
              && r.Ok? && !r.value.InsufficientData? && !r.value.InsufficientHistory?
              && r.value.improvement == Change(Sum(OlderWindow(times)) / 50.0, Sum(RecentWindow(times)) / 50.0)
  {
    if |times| < 10 then Ok(InsufficientData)
    else if |times| < 100 then Ok(InsufficientHistory)
    else
      var recentAvg := Sum(RecentWindow(times)) / 50.0;
      var olderAvg := Sum(OlderWindow(times)) / 50.0;
      if olderAvg == 0.0 then Err(ZeroOlderAverage)
      else
        var improvement := Change(olderAvg, recentAvg);
        if improvement > 10.0 then Ok(Improving(improvement))
        else if improvement < -10.0 then Ok(Degrading(improvement))
        else Ok(Stable(improvement))
  }

  /** For positive latencies the ±10% rule on the relative change reads:
      improving iff the recent mean is below 90% of the older mean, degrading
      iff it is above 110%, stable otherwise. */
  lemma TrendThresholds(times: seq<real>)
    requires |times| >= 100
    requires Sum(OlderWindow(times)) > 0.0
    ensures var recent, older := Sum(RecentWindow(times)), Sum(OlderWindow(times));
      && (PerformanceTrend(times).Ok? && PerformanceTrend(times).value.Improving? <==> recent < 0.9 * older)
      && (PerformanceTrend(times).Ok? && PerformanceTrend(times).value.Degrading? <==> recent > 1.1 * older)
      && (PerformanceTrend(times).Ok? && PerformanceTrend(times).value.Stable? <==> 0.9 * older <= recent <= 1.1 * older)
  {
    var recentAvg := Sum(RecentWindow(times)) / 50.0;
    var olderAvg := Sum(OlderWindow(times)) / 50.0;
    ChangeAbove(olderAvg, recentAvg);
    ChangeBelow(olderAvg, recentAvg);
  }

  /** The relative change, in percent, from the older mean `o` to the
      recent mean `r`; positive when latency went down. */
  function Change(o: real, r: real): real
    requires o != 0.0
  {
    (o - r) / o * 100.0
  }

  lemma ChangeTimes(o: real, r: real)
    requires o > 0.0
    ensures Change(o, r) * o == (o - r) * 100.0
  {
    var q := (o - r) / o;
    assert q * o == o - r;
  }

  lemma ChangeAbove(o: real, r: real)
    requires o > 0.0
    ensures Change(o, r) > 10.0 <==> r < 0.9 * o
  {
    var x := Change(o, r);
    ChangeTimes(o, r);
    if x > 10.0 {
      MulStrict(10.0, x, o);
    }
    if x < 10.0 {
      MulStrict(x, 10.0, o);
    }
  }

  lemma ChangeBelow(o: real, r: real)
    requires o > 0.0
    ensures Change(o, r) < -10.0 <==> r > 1.1 * o
  {
    var x := Change(o, r);
    ChangeTimes(o, r);
    if x < -10.0 {
      MulStrict(x, -10.0, o);
    }
    if x > -10.0 {
      MulStrict(-10.0, x, o);
    }
  }

  function AddToBucket(m: map<string, HourStat>, key: string, responseTime: real, isError: bool): HourStat {
    var prev := if key in m then m[key] else HourStat(0, 0, 0.0);
    HourStat(prev.requests + 1, prev.errors + (if isError then 1 else 0), prev.totalResponseTime + responseTime)
  }

  /** The key of the hour 25 hours before `now`; buckets below it are dropped. */
  function CutoffKey(now: int): string
    requires InRange(now) && InRange(now - 25 * HourSeconds)
  {
    HourKey(now - 25 * HourSeconds)
  }

  /** The buckets `_cleanup_old_stats` keeps: those whose key does not
      compare below the cutoff. */
  function Retained(m: map<string, HourStat>, cutoff: string): (r: map<string, HourStat>)
    ensures forall k :: k in r <==> k in m && !StrLess(k, cutoff)
    ensures forall k :: k in r ==> r[k] == m[k]
  {
    map k | k in m && !StrLess(k, cutoff) :: m[k]
  }

  /** Because hour keys are zero-padded, the string comparison keeps exactly
      the buckets of the last 25 hours (the cutoff hour included). */
  lemma RetentionWindow(m: map<string, HourStat>, now: int, t: int)
    requires InRange(now) && InRange(now - 25 * HourSeconds) && InRange(t)
    ensures HourKey(t) in Retained(m, CutoffKey(now))
        <==> HourKey(t) in m && HourIndex(t) >= HourIndex(now) - 25
  {
    HourKeyOrder(t, now - 25 * HourSeconds);
    HourIndexBack(now, 25);
  }

  /** What `record_request` does to the rollups: the current hour's bucket
      gains one request, the response time and an error iff the request
      failed; every other surviving bucket is unchanged. */
  lemma RecordedBucket(m: map<string, HourStat>, now: int, responseTime: real, isError: bool)
    requires InRange(now) && InRange(now - 25 * HourSeconds)
    ensures var r := Retained(m[HourKey(now) := AddToBucket(m, HourKey(now), responseTime, isError)], CutoffKey(now));
      && HourKey(now) in r
      && r[HourKey(now)].requests == (if HourKey(now) in m then m[HourKey(now)].requests else 0) + 1
      && r[HourKey(now)].errors == (if HourKey(now) in m then m[HourKey(now)].errors else 0) + (if isError then 1 else 0)
      && r[HourKey(now)].totalResponseTime
         == (if HourKey(now) in m then m[HourKey(now)].totalResponseTime else 0.0) + responseTime
      && forall k :: k in r && k != HourKey(now) ==> k in m && r[k] == m[k]
  {
    HourKeyOrder(now, now - 25 * HourSeconds);
    HourIndexBack(now, 25);
  }

  /** The report entry for one hour key: zeros for an hour with no bucket. */
  function SummaryOf(m: map<string, HourStat>, key: string): (s: HourSummary)
    ensures key !in m ==> s == HourSummary(0, 0, 0.0, 0.0)
    ensures key in m ==> s.requests == m[key].requests && s.errors == m[key].errors
    ensures key in m ==> s.avgResponse * (if m[key].requests >= 1 then m[key].requests else 1) as real
                         == m[key].totalResponseTime
    ensures key in m ==> s.errorRate == ErrorRate(m[key].errors, m[key].requests)
  {
    if key in m then
      var b := m[key];
      var denominator := if b.requests > 1 then b.requests else 1;
      HourSummary(b.requests, b.errors, b.totalResponseTime / denominator as real, ErrorRate(b.errors, b.requests))
    else HourSummary(0, 0, 0.0, 0.0)
  }

  /** The key of the hour `j` hours before `now`. */
  function HourKeyBack(now: int, j: int): string
    requires 0 <= j && InRange(now - j * HourSeconds)
  {
    HourKey(now - j * HourSeconds)
  }

  /** Distinct offsets name distinct hours. */
  lemma HourKeyBackDistinct(now: int, i: int, j: int)
    requires InRange(now) && 0 <= i && 0 <= j && i != j
    requires InRange(now - i * HourSeconds) && InRange(now - j * HourSeconds)
    ensures HourKeyBack(now, i) != HourKeyBack(now, j)
  {
    HourKeySame(now - i * HourSeconds, now - j * HourSeconds);
    HourIndexBack(now, i);
    HourIndexBack(now, j);
  }

  /** The report over the last `n` hours: the entry of each hour key from
      `now` back to `n - 1` hours before it. */
  function HourlyReport(m: map<string, HourStat>, now: int, n: nat): map<string, HourSummary>
    requires InRange(now) && (n > 0 ==> InRange(now - (n - 1) * HourSeconds))
    decreases n
  {
    if n == 0 then map[]
    else
      if n > 1 then BackInRange(now, n - 2, n - 1, HourSeconds); HourlyReport(m, now, n - 1)[HourKeyBack(now, n - 1) := SummaryOf(m, HourKeyBack(now, n - 1))]
      else map[HourKeyBack(now, 0) := SummaryOf(m, HourKeyBack(now, 0))]
  }

  lemma HourlyReportStep(m: map<string, HourStat>, now: int, i: nat)
    requires InRange(now) && InRange(now - i * HourSeconds)
    ensures HourlyReport(m, now, i + 1)
            == HourlyReport(m, now, i)[HourKey(now - i * HourSeconds) := SummaryOf(m, HourKey(now - i * HourSeconds))]
  {
    if i == 0 {
      assert now - 0 * HourSeconds == now;
    }
  }

  /** The keys of the last `n` hours. */
  function HourKeysBack(now: int, n: nat): set<string>
    requires InRange(now) && (n > 0 ==> InRange(now - (n - 1) * HourSeconds))
    decreases n
  {
    if n == 0 then {}
    else if n == 1 then {HourKeyBack(now, 0)}
    else
      BackInRange(now, n - 2, n - 1, HourSeconds);
      HourKeysBack(now, n - 1) + {HourKeyBack(now, n - 1)}
  }

  /** The key of the hour `j` hours back is among the keys of the last `n`
      hours exactly when `j < n`. */
  lemma {:induction false} HourKeysBackMembers(now: int, n: nat, j: nat)
    requires InRange(now) && (n > 0 ==> InRange(now - (n - 1) * HourSeconds))
    requires InRange(now - j * HourSeconds)
    ensures HourKeyBack(now, j) in HourKeysBack(now, n) <==> j < n
    decreases n
  {
    if n > 0 {
      if j != n - 1 {
        HourKeyBackDistinct(now, j, n - 1);
      }
      if n > 1 {
        BackInRange(now, n - 2, n - 1, HourSeconds);
        HourKeysBackMembers(now, n - 1, j);
      }
    }
  }

  /** There are `n` keys of the last `n` hours. */
  lemma {:induction false} HourKeysBackCount(now: int, n: nat)
    requires InRange(now) && (n > 0 ==> InRange(now - (n - 1) * HourSeconds))
    ensures |HourKeysBack(now, n)| == n
    decreases n
  {
    if n > 1 {
      BackInRange(now, n - 2, n - 1, HourSeconds);
      HourKeysBackCount(now, n - 1);
      HourKeysBackMembers(now, n - 1, n - 1);
    }
  }

  /** The report holds exactly the keys of the last `n` hours, `n` of
      them. */
  lemma {:induction false} HourlyReportKeys(m: map<string, HourStat>, now: int, n: nat)
    requires InRange(now) && (n > 0 ==> InRange(now - (n - 1) * HourSeconds))
    ensures HourlyReport(m, now, n).Keys == HourKeysBack(now, n)
    ensures |HourlyReport(m, now, n)| == n
    decreases n
  {
    if n > 1 {
      BackInRange(now, n - 2, n - 1, HourSeconds);
      HourlyReportKeys(m, now, n - 1);
    }
    HourKeysBackCount(now, n);
    assert |HourlyReport(m, now, n)| == |HourlyReport(m, now, n).Keys|;
  }

  /** The entry of each of the last `n` hours is the summary of its
      bucket, zeros for an hour without one. */
  lemma {:induction false} HourlyReportEntries(m: map<string, HourStat>, now: int, n: nat, j: nat)
    requires InRange(now) && j < n && InRange(now - (n - 1) * HourSeconds)
    ensures InRange(now - j * HourSeconds)
    ensures var key := HourKeyBack(now, j);
      key in HourlyReport(m, now, n) && HourlyReport(m, now, n)[key] == SummaryOf(m, key)
    decreases n
  {
    BackInRange(now, j, n - 1, HourSeconds);
    if j < n - 1 {
      BackInRange(now, n - 2, n - 1, HourSeconds);
      HourlyReportEntries(m, now, n - 1, j);
      BackInRange(now, j, n - 1, HourSeconds);
    }
  }

  /** The read-only part of `get_real_system_status` that does not sample
      the host. */
  datatype StatusView = StatusView(
    status: Status,
    totalRequests: int,
    apiCalls: int,
    errorCount: int,
    errorRate: real,
    avgResponseTime: real,
    uptimeSeconds: int,
    lastErrorTime: Option<int>,
    lastErrorMessage: string)

  class SystemMonitor {
    const startTime: int
    var requestCount: int
    var errorCount: int
    var responseTimes: seq<real>
    var apiCallCount: int
    var lastErrorTime: Option<int>
    var lastErrorMessage: string
    var hourlyStats: map<string, HourStat>

    /** The counters stay consistent with each other and the log stays
        within its capacity. */
    ghost predicate Valid()
      reads this
    {
      && 0 <= errorCount <= requestCount
      && 0 <= apiCallCount
      && |responseTimes| <= LogCapacity
    }

    constructor (now: int)
      ensures Valid()
      ensures startTime == now
      ensures requestCount == 0 && errorCount == 0 && apiCallCount == 0
      ensures responseTimes == [] && hourlyStats == map[]
      ensures lastErrorTime == None && lastErrorMessage == ""
    {
      startTime := now;
      requestCount := 0;
      errorCount := 0;
      responseTimes := [];
      apiCallCount := 0;
      lastErrorTime := None;
      lastErrorMessage := "";
      hourlyStats := map[];
    }

    /** `record_request`, with the clock reading `now` passed in. */
    method RecordRequest(responseTime: real, isError: bool, errorMsg: string, now: int)
      requires Valid()
      requires InRange(now) && InRange(now - 25 * HourSeconds)
      modifies this
      ensures Valid()
      ensures requestCount == old(requestCount) + 1
      ensures errorCount == old(errorCount) + (if isError then 1 else 0)
      ensures responseTimes == Tail(old(responseTimes) + [responseTime], LogCapacity)
      ensures lastErrorTime == (if isError then Some(now) else old(lastErrorTime))
      ensures lastErrorMessage == (if isError then SliceTo(errorMsg, 100) else old(lastErrorMessage))
      ensures apiCallCount == old(apiCallCount)
      ensures hourlyStats == Retained(
                old(hourlyStats)[HourKey(now) := AddToBucket(old(hourlyStats), HourKey(now), responseTime, isError)],
                CutoffKey(now))
    {
      RecordOutcome(responseTime, isError, errorMsg, now);
      BumpHour(HourKey(now), responseTime, isError);
      CleanupOldStats(now);
    }

    /** The counters and the response-time log of `record_request`. */
    method RecordOutcome(responseTime: real, isError: bool, errorMsg: string, now: int)
      requires Valid()
      modifies this`requestCount, this`errorCount, this`responseTimes, this`lastErrorTime, this`lastErrorMessage
      ensures Valid()
      ensures requestCount == old(requestCount) + 1
      ensures errorCount == old(errorCount) + (if isError then 1 else 0)
      ensures responseTimes == Tail(old(responseTimes) + [responseTime], LogCapacity)
      ensures lastErrorTime == (if isError then Some(now) else old(lastErrorTime))
      ensures lastErrorMessage == (if isError then SliceTo(errorMsg, 100) else old(lastErrorMessage))
    {
      requestCount := requestCount + 1;
      responseTimes := responseTimes + [responseTime];
      if isError {
        errorCount := errorCount + 1;
        lastErrorTime := Some(now);
        lastErrorMessage := SliceTo(errorMsg, 100);
      }
      if |responseTimes| > LogCapacity {
        responseTimes := responseTimes[|responseTimes| - LogCapacity..];
      }
    }

    /** The bucket update of `record_request`: the bucket of `currentHour`,
        created empty when missing, counts one more request, one more error
        when there was one, and the response time. */
    method BumpHour(currentHour: string, responseTime: real, isError: bool)
      modifies this`hourlyStats
      ensures hourlyStats == old(hourlyStats)[currentHour := AddToBucket(old(hourlyStats), currentHour, responseTime, isError)]
    {
      if currentHour !in hourlyStats {
        hourlyStats := hourlyStats[currentHour := HourStat(0, 0, 0.0)];
      }
      var bucket := hourlyStats[currentHour];
      bucket := bucket.(requests := bucket.requests + 1);
      bucket := bucket.(totalResponseTime := bucket.totalResponseTime + responseTime);
      if isError {
        bucket := bucket.(errors := bucket.errors + 1);
      }
      hourlyStats := hourlyStats[currentHour := bucket];
    }

    /** `record_api_call`: only the outbound call counter moves. */
    method RecordApiCall()
      requires Valid()
      modifies this`apiCallCount
      ensures Valid()
      ensures apiCallCount == old(apiCallCount) + 1
    {
      apiCallCount := apiCallCount + 1;
    }

    /** `_cleanup_old_stats`: collects the keys below the cutoff, then
        deletes them one by one. */
    method CleanupOldStats(now: int)
      requires InRange(now) && InRange(now - 25 * HourSeconds)
      modifies this`hourlyStats
      ensures hourlyStats == Retained(old(hourlyStats), CutoffKey(now))
    {
      var cutoffKey := HourKey(now - 25 * HourSeconds);
      var keysToRemove := set key | key in hourlyStats && StrLess(key, cutoffKey);
      ghost var removed: set<string> := {};
      while keysToRemove != {}
        invariant keysToRemove !! removed
        invariant keysToRemove + removed == set key | key in old(hourlyStats) && StrLess(key, cutoffKey)
        invariant hourlyStats == map key | key in old(hourlyStats) && key !in removed :: old(hourlyStats)[key]
        decreases keysToRemove
      {
        var key :| key in keysToRemove;
        hourlyStats := hourlyStats - {key};
        keysToRemove := keysToRemove - {key};
        removed := removed + {key};
      }
    }

    /** `get_hourly_stats`: one report entry per hour key of the last
        `hours` hours, newest first; hours without a bucket report zeros. */
    method GetHourlyStats(hours: int, now: int) returns (stats: map<string, HourSummary>)
      requires InRange(now)
      requires hours > 0 ==> InRange(now - (hours - 1) * HourSeconds)
      ensures stats == HourlyReport(hourlyStats, now, if hours > 0 then hours else 0)
    {
      stats := map[];
      var i := 0;
      while i < hours
        invariant 0 <= i && (hours > 0 ==> i <= hours) && (hours <= 0 ==> i == 0)
        invariant stats == HourlyReport(hourlyStats, now, i)
      {
        BackInRange(now, i, hours - 1, HourSeconds);
        HourlyReportStep(hourlyStats, now, i);
        var hourKey := HourKey(now - i * HourSeconds);
        stats := stats[hourKey := SummaryOf(hourlyStats, hourKey)];
        i := i + 1;
      }
    }

    /** `get_performance_trend`. */
    function GetPerformanceTrend(): Result<Trend, TrendError>
      reads this
    {
      PerformanceTrend(responseTimes)
    }

    /** The status, counters, error rate and average of
        `get_real_system_status`, for given CPU and memory percentages. */
    function StatusReport(cpu: real, memory: real, now: int): (v: StatusView)
      requires Valid()
      reads this
      ensures v.status == Critical <==> cpu > 90.0 || memory > 90.0
      ensures v.status == Warning <==> !(cpu > 90.0 || memory > 90.0) && (cpu > 70.0 || memory > 70.0)
      ensures v.totalRequests == requestCount && v.errorCount == errorCount && v.apiCalls == apiCallCount
      ensures v.uptimeSeconds == now - startTime && v.lastErrorTime == lastErrorTime
      ensures 0.0 <= v.errorRate <= 100.0
      ensures requestCount >= 1 ==> v.errorRate * requestCount as real == errorCount as real * 100.0
      ensures requestCount == 0 ==> v.errorRate == 0.0
      ensures responseTimes == [] ==> v.avgResponseTime == 0.0
      ensures responseTimes != [] ==>
                v.avgResponseTime * |Tail(responseTimes, 100)| as real == Sum(Tail(responseTimes, 100))
      ensures lastErrorMessage == [] ==> v.lastErrorMessage == "无"
      ensures lastErrorMessage != [] ==> v.lastErrorMessage == lastErrorMessage
    {
      ErrorRateBounds(errorCount, requestCount);
      StatusView(
        ClassifyStatus(cpu, memory),
        requestCount,
        apiCallCount,
        errorCount,
        ErrorRate(errorCount, requestCount),
        AverageRecent(responseTimes),
        now - startTime,
        lastErrorTime,
        if lastErrorMessage == [] then "无" else lastErrorMessage)
    }
  }
}
