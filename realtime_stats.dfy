/**
 * `RealTimeStatsManager`: per-activity counters kept either in Redis
 * (hashes and sets, see module `Redis`) or, when the connection probe at
 * start-up failed, in an in-memory counter map, plus the active-user set and
 * last-activity map kept in memory in both modes.
 *
 * Every operation takes the clock reading `now` as a parameter.
 */
module RealTimeStats {
  import opened Wrappers
  import opened Text
  import opened TimeKeys
  import opened Redis

  datatype Source = FromRedis | FromMemory

  /** The dictionary returned by `get_real_time_stats` (without the
      `last_updated` clock text). */
  datatype Snapshot = Snapshot(
    todayMessages: int,
    todayActiveUsers: int,
    currentHourMessages: int,
    currentHourUsers: int,
    onlineUsers: int,
    totalActionTypes: map<string, HValue>,
    todayActionTypes: map<string, HValue>,
    chatTypes: map<string, HValue>,
    source: Source)

  /** The dictionary returned by `get_user_statistics`. */
  datatype UserStatistics = UserStatistics(
    totalRegisteredUsers: int,
    actionDistribution: map<string, HValue>,
    source: Source)

  /** The Redis keys the manager uses, by family. */
  datatype StatKey =
    | DailyUsers
    | DailyMessages
    | HourlyMessages
    | MinuteMessages
    | ActionTypes
    | ChatTypes
    | ActiveUsers(stamp: string)
    | UserStats(userId: int)
    | DailyActionTypes(day: string)

  type Db = Store<StatKey>

  /** The key string each key stands for. */
  function KeyName(k: StatKey): string {
    match k
    case DailyUsers => "daily_users"
    case DailyMessages => "daily_messages"
    case HourlyMessages => "hourly_messages"
    case MinuteMessages => "minute_messages"
    case ActionTypes => "action_types"
    case ChatTypes => "chat_types"
    case ActiveUsers(stamp) => "active_users:" + stamp
    case UserStats(userId) => "user_stats:" + IntToString(userId)
    case DailyActionTypes(day) => "action_types:" + day
  }

  /** Each key family is told apart by the prefix of its key string. */
  lemma KeyNameFamily(k: StatKey)
    ensures k.ActiveUsers? <==> StartsWith(KeyName(k), "active_users:")
    ensures k.UserStats? <==> StartsWith(KeyName(k), "user_stats:")
    ensures k.DailyActionTypes? <==> StartsWith(KeyName(k), "action_types:")
  {
    var n := KeyName(k);
    match k
    case ActiveUsers(stamp) =>
      PrefixOf("active_users:", stamp);
      NotPrefix(n, "user_stats:", 0);
      NotPrefix(n, "action_types:", 4);
    case UserStats(userId) =>
      PrefixOf("user_stats:", IntToString(userId));
      NotPrefix(n, "active_users:", 0);
      NotPrefix(n, "action_types:", 0);
    case DailyActionTypes(day) =>
      PrefixOf("action_types:", day);
      NotPrefix(n, "active_users:", 4);
      NotPrefix(n, "user_stats:", 0);
    case _ =>
      NotPrefix(n, "user_stats:", 10);
      NotPrefix(n, "active_users:", 12);
      NotPrefix(n, "action_types:", 12);
  }


  /** Distinct keys name distinct Redis keys, so keying the store by
      `StatKey` loses nothing. */
  lemma KeyNameInjective(a: StatKey, b: StatKey)
    requires KeyName(a) == KeyName(b)
    ensures a == b
  {
    KeyNameFamily(a);
    KeyNameFamily(b);
    if a.ActiveUsers? {
      PrefixInjective("active_users:", a.stamp, b.stamp);
    } else if a.DailyActionTypes? {
      PrefixInjective("action_types:", a.day, b.day);
    } else if a.UserStats? {
      PrefixInjective("user_stats:", IntToString(a.userId), IntToString(b.userId));
      IntToStringInjective(a.userId, b.userId);
    }
  }

  /** The sixteen commands `update_user_activity` queues on its Redis
      pipeline, for given day, hour and minute stamps. */
  function PipelineCommands(userId: int, action: string, chatType: string,
                            today: string, hour: string, minute: string, now: int): (cmds: seq<Command<StatKey>>)
    ensures |cmds| == 16
  {
    [ HIncrByCmd(DailyUsers, today, 1),
      HIncrByCmd(DailyMessages, today, 1),
      SAddCmd(ActiveUsers(today), userId),
      HIncrByCmd(HourlyMessages, hour, 1),
      SAddCmd(ActiveUsers(hour), userId),
      HIncrByCmd(MinuteMessages, minute, 1),
      HIncrByCmd(UserStats(userId), "total_messages", 1),
      HIncrByCmd(UserStats(userId), "messages_" + today, 1),
      HSetCmd(UserStats(userId), "last_activity", TimeVal(now)),
      HIncrByCmd(ActionTypes, action, 1),
      HIncrByCmd(DailyActionTypes(today), action, 1),
      HIncrByCmd(ChatTypes, chatType, 1),
      ExpireCmd(ActiveUsers(today), 7 * DaySeconds),
      ExpireCmd(ActiveUsers(hour), 25 * HourSeconds),
      ExpireCmd(UserStats(userId), 30 * DaySeconds),
      ExpireCmd(MinuteMessages, HourSeconds) ]
  }

  /** The pipeline, executed on the store. */
  function PipelineOn(st: Db, userId: int, action: string, chatType: string,
                      today: string, hour: string, minute: string, now: int): Db
  {
    Execute(st, PipelineCommands(userId, action, chatType, today, hour, minute, now))
  }

  /** The pipeline of an activity at `now`. */
  function ActivityPipeline(st: Db, userId: int, action: string, chatType: string, now: int): Db
    requires InRange(now)
  {
    PipelineOn(st, userId, action, chatType, DayKey(now), HourKey(now), MinuteKey(now), now)
  }

  /** The hashes the activity pipeline writes. */
  predicate PipelineHash(k: StatKey, userId: int, today: string) {
    || k.DailyUsers? || k.DailyMessages? || k.HourlyMessages? || k.MinuteMessages?
    || k.ActionTypes? || k.ChatTypes? || k == UserStats(userId) || k == DailyActionTypes(today)
  }

  /** The nine counters the pipeline increments: the day's users and
      messages, the hour's and the minute's messages, the user's total and
      per-day messages, the action (overall and for the day) and the chat
      type. */
  predicate PipelineCounter(k: StatKey, f: string, userId: int, action: string, chatType: string,
                            today: string, hour: string, minute: string)
  {
    || (k == DailyUsers && f == today)
    || (k == DailyMessages && f == today)
    || (k == HourlyMessages && f == hour)
    || (k == MinuteMessages && f == minute)
    || (k == UserStats(userId) && (f == "total_messages" || f == "messages_" + today))
    || (k == ActionTypes && f == action)
    || (k == DailyActionTypes(today) && f == action)
    || (k == ChatTypes && f == chatType)
  }

  /** The command at position `j` of the pipeline writes field `f` of hash
      `k`. */
  predicate Writer(j: int, k: StatKey, f: string, userId: int, action: string, chatType: string,
                   today: string, hour: string, minute: string)
  {
    || (j == 0 && k == DailyUsers && f == today)
    || (j == 1 && k == DailyMessages && f == today)
    || (j == 3 && k == HourlyMessages && f == hour)
    || (j == 5 && k == MinuteMessages && f == minute)
    || (j == 6 && k == UserStats(userId) && f == "total_messages")
    || (j == 7 && k == UserStats(userId) && f == "messages_" + today)
    || (j == 8 && k == UserStats(userId) && f == "last_activity")
    || (j == 9 && k == ActionTypes && f == action)
    || (j == 10 && k == DailyActionTypes(today) && f == action)
    || (j == 11 && k == ChatTypes && f == chatType)
  }

  /** The hash fields each pipeline command writes. */
  lemma PipelineWriters(userId: int, action: string, chatType: string,
                        today: string, hour: string, minute: string, now: int, k: StatKey, f: string)
    ensures forall j :: 0 <= j < 16 && Writes(PipelineCommands(userId, action, chatType, today, hour, minute, now)[j], k, f)
              ==> Writer(j, k, f, userId, action, chatType, today, hour, minute)
  {
  }

  /** The three fields of a user's hash are distinct. */
  lemma UserFieldsDistinct(today: string)
    ensures "messages_" + today != "total_messages"
    ensures "messages_" + today != "last_activity"
  {
    assert ("messages_" + today)[0] == 'm';
  }

  /** The day's counters gain one. */
  lemma DayCounters(st: Db, userId: int, action: string, chatType: string,
                    today: string, hour: string, minute: string, now: int, k: StatKey)
    requires (k == DailyUsers || k == DailyMessages) && Numeric(st, k, today)
    ensures HGet(PipelineOn(st, userId, action, chatType, today, hour, minute, now), k, today)
            == Some(IntVal(Count(st, k, today) + 1))
  {
    var cmds := PipelineCommands(userId, action, chatType, today, hour, minute, now);
    if k.DailyUsers? {
      ExecuteCounter(st, cmds, 0, DailyUsers, today);
    } else {
      ExecuteCounter(st, cmds, 1, DailyMessages, today);
    }
  }

  /** The hour's and the minute's message counters gain one. */
  lemma HourCounters(st: Db, userId: int, action: string, chatType: string,
                     today: string, hour: string, minute: string, now: int, k: StatKey, f: string)
    requires ((k == HourlyMessages && f == hour) || (k == MinuteMessages && f == minute)) && Numeric(st, k, f)
    ensures HGet(PipelineOn(st, userId, action, chatType, today, hour, minute, now), k, f)
            == Some(IntVal(Count(st, k, f) + 1))
  {
    ExecuteCounter(st, PipelineCommands(userId, action, chatType, today, hour, minute, now), if k.HourlyMessages? then 3 else 5, k, f);
  }

  /** The user's total and per-day message counters gain one. */
  lemma UserCounters(st: Db, userId: int, action: string, chatType: string,
                     today: string, hour: string, minute: string, now: int, f: string)
    requires (f == "total_messages" || f == "messages_" + today) && Numeric(st, UserStats(userId), f)
    ensures HGet(PipelineOn(st, userId, action, chatType, today, hour, minute, now), UserStats(userId), f)
            == Some(IntVal(Count(st, UserStats(userId), f) + 1))
  {
    UserFieldsDistinct(today);
    PipelineWriters(userId, action, chatType, today, hour, minute, now, UserStats(userId), f);
    ExecuteCounter(st, PipelineCommands(userId, action, chatType, today, hour, minute, now),
                   if f == "total_messages" then 6 else 7, UserStats(userId), f);
  }

  /** The action's counters, overall and for the day, and the chat type's
      counter gain one. */
  lemma ActionCounters(st: Db, userId: int, action: string, chatType: string,
                       today: string, hour: string, minute: string, now: int, k: StatKey, f: string)
    requires ((k == ActionTypes || k == DailyActionTypes(today)) && f == action) || (k == ChatTypes && f == chatType)
    requires Numeric(st, k, f)
    ensures HGet(PipelineOn(st, userId, action, chatType, today, hour, minute, now), k, f)
            == Some(IntVal(Count(st, k, f) + 1))
  {
    ExecuteCounter(st, PipelineCommands(userId, action, chatType, today, hour, minute, now),
                   if k.ActionTypes? then 9 else if k.DailyActionTypes? then 10 else 11, k, f);
  }

  /** The pipeline adds one to each of its counters (Redis refuses the
      increment on a field holding a timestamp). */
  lemma PipelineCounters(st: Db, userId: int, action: string, chatType: string,
                         today: string, hour: string, minute: string, now: int, k: StatKey, f: string)
    requires PipelineCounter(k, f, userId, action, chatType, today, hour, minute) && Numeric(st, k, f)
    ensures HGet(PipelineOn(st, userId, action, chatType, today, hour, minute, now), k, f)
            == Some(IntVal(Count(st, k, f) + 1))
  {
    if k.DailyUsers? || k.DailyMessages? {
      DayCounters(st, userId, action, chatType, today, hour, minute, now, k);
    } else if k.HourlyMessages? || k.MinuteMessages? {
      HourCounters(st, userId, action, chatType, today, hour, minute, now, k, f);
    } else if k.UserStats? {
      UserCounters(st, userId, action, chatType, today, hour, minute, now, f);
    } else {
      ActionCounters(st, userId, action, chatType, today, hour, minute, now, k, f);
    }
  }

  /** The pipeline stamps the user's last activity. */
  lemma PipelineStamp(st: Db, userId: int, action: string, chatType: string,
                      today: string, hour: string, minute: string, now: int)
    ensures HGet(PipelineOn(st, userId, action, chatType, today, hour, minute, now), UserStats(userId), "last_activity")
            == Some(TimeVal(now))
  {
    ExecuteSet(st, PipelineCommands(userId, action, chatType, today, hour, minute, now), 8, UserStats(userId), "last_activity");
  }

  /** The pipeline adds the user to the day's and the hour's active-user
      sets and to no other set. */
  lemma PipelineSets(st: Db, userId: int, action: string, chatType: string,
                     today: string, hour: string, minute: string, now: int, k: StatKey)
    requires today != hour
    ensures var r := PipelineOn(st, userId, action, chatType, today, hour, minute, now);
      && (k == ActiveUsers(today) || k == ActiveUsers(hour) ==> Members(r, k) == Members(st, k) + {userId})
      && (k != ActiveUsers(today) && k != ActiveUsers(hour) ==> Members(r, k) == Members(st, k))
  {
    var cmds := PipelineCommands(userId, action, chatType, today, hour, minute, now);
    if k == ActiveUsers(today) {
      ExecuteAdd(st, cmds, 2, k);
    } else if k == ActiveUsers(hour) {
      ExecuteAdd(st, cmds, 4, k);
    } else {
      ExecuteKeepsSet(st, cmds, k);
    }
  }

  /** The pipeline touches no hash outside the ones it writes. */
  lemma PipelineFrame(st: Db, userId: int, action: string, chatType: string,
                      today: string, hour: string, minute: string, now: int, k: StatKey, f: string)
    requires !PipelineHash(k, userId, today)
    ensures HGet(PipelineOn(st, userId, action, chatType, today, hour, minute, now), k, f) == HGet(st, k, f)
  {
    ExecuteKeepsField(st, PipelineCommands(userId, action, chatType, today, hour, minute, now), k, f);
  }

  /** Two activities of one user in the same hour add 2 to the hour's
      message counter but grow the hour's active-user set by at most one. */
  lemma TwoActivitiesSameHour(st: Db, userId: int, a1: string, c1: string, t1: int, a2: string, c2: string, t2: int)
    requires InRange(t1) && InRange(t2) && HourIndex(t1) == HourIndex(t2)
    requires Numeric(st, HourlyMessages, HourKey(t1))
    ensures var r := ActivityPipeline(ActivityPipeline(st, userId, a1, c1, t1), userId, a2, c2, t2);
      && Count(r, HourlyMessages, HourKey(t2)) == Count(st, HourlyMessages, HourKey(t1)) + 2
      && SCard(r, ActiveUsers(HourKey(t2))) <= SCard(st, ActiveUsers(HourKey(t1))) + 1
  {
    HourKeySame(t1, t2);
    var key := ActiveUsers(HourKey(t1));
    var mid := ActivityPipeline(st, userId, a1, c1, t1);
    var r := ActivityPipeline(mid, userId, a2, c2, t2);
    assert DayKey(t1) != HourKey(t1) && DayKey(t2) != HourKey(t2);
    PipelineCounters(st, userId, a1, c1, DayKey(t1), HourKey(t1), MinuteKey(t1), t1, HourlyMessages, HourKey(t1));
    PipelineCounters(mid, userId, a2, c2, DayKey(t2), HourKey(t2), MinuteKey(t2), t2, HourlyMessages, HourKey(t2));
    PipelineSets(st, userId, a1, c1, DayKey(t1), HourKey(t1), MinuteKey(t1), t1, key);
    PipelineSets(mid, userId, a2, c2, DayKey(t2), HourKey(t2), MinuteKey(t2), t2, key);
    assert Members(r, key) == Members(st, key) + {userId};
    var s := Members(st, key);
    if userId in s {
      assert s + {userId} == s;
    } else {
      assert |s + {userId}| == |s| + 1;
    }
  }

  /** A memory-mode counter: `fallback_stats[key]` of a `defaultdict(int)`. */
  function Tally(m: map<string, int>, key: string): int {
    if key in m then m[key] else 0
  }

  /** `fallback_stats[key] += 1`. */
  function Bump(m: map<string, int>, key: string): (r: map<string, int>)
    ensures r.Keys == m.Keys + {key}
    ensures forall k :: Tally(r, k) == Tally(m, k) + (if k == key then 1 else 0)
  {
    m[key := Tally(m, key) + 1]
  }

  function DailyFallbackKey(now: int): string
    requires InRange(now)
  {
    "daily_users_" + DayKey(now)
  }

  function HourlyFallbackKey(now: int): string
    requires InRange(now)
  {
    "hourly_messages_" + HourKey(now)
  }

  function ActionFallbackKey(action: string): string {
    "action_" + action
  }

  /** Three distinct counters each gain one, and no other counter moves. */
  lemma BumpThree(m: map<string, int>, d: string, h: string, a: string)
    requires d != h && d != a && h != a
    ensures var r := Bump(Bump(Bump(m, d), h), a);
      && r.Keys == m.Keys + {d, h, a}
      && |{d, h, a}| == 3
      && forall k :: Tally(r, k) == Tally(m, k) + (if k in {d, h, a} then 1 else 0)
  {
  }

  /** The three memory-mode counter keys of an activity are distinct. */
  lemma FallbackKeysDistinct(action: string, now: int)
    requires InRange(now)
    ensures DailyFallbackKey(now) != HourlyFallbackKey(now)
    ensures DailyFallbackKey(now) != ActionFallbackKey(action)
    ensures HourlyFallbackKey(now) != ActionFallbackKey(action)
  {
    assert DailyFallbackKey(now)[0] == 'd';
    assert HourlyFallbackKey(now)[0] == 'h';
    assert ActionFallbackKey(action)[0] == 'a';
  }

  /** The memory-mode update: the day, hour and action counters are three
      distinct keys, each gains one and no other counter moves; the chat type
      plays no part. */
  lemma FallbackUpdate(m: map<string, int>, action: string, now: int)
    requires InRange(now)
    ensures var r := Bump(Bump(Bump(m, DailyFallbackKey(now)), HourlyFallbackKey(now)), ActionFallbackKey(action));
      var touched := {DailyFallbackKey(now), HourlyFallbackKey(now), ActionFallbackKey(action)};
      && r.Keys == m.Keys + touched
      && |touched| == 3
      && forall k :: Tally(r, k) == Tally(m, k) + (if k in touched then 1 else 0)
  {
    FallbackKeysDistinct(action, now);
    BumpThree(m, DailyFallbackKey(now), HourlyFallbackKey(now), ActionFallbackKey(action));
  }

  /** The users `get_real_time_stats` reports online in memory mode: those
      whose `(now - last).seconds`, the difference modulo a day, is under 300. */
  function OnlineBySeconds(lastActivity: map<int, int>, now: int): set<int> {
    set u | u in lastActivity && (now - lastActivity[u]) % DaySeconds < 300
  }

  /** The users `_get_online_users_count` counts in memory mode: those
      active at or after `now - 300`. */
  function OnlineSince(lastActivity: map<int, int>, now: int): set<int> {
    set u | u in lastActivity && lastActivity[u] >= now - 300
  }

  /** The two memory-mode online counts select the same users when every
      recorded activity lies less than a day in the past and none exactly
      300 seconds back. */
  lemma OnlineCountsAgree(lastActivity: map<int, int>, now: int)
    requires forall u :: u in lastActivity ==> 0 <= now - lastActivity[u] < DaySeconds && now - lastActivity[u] != 300
    ensures OnlineBySeconds(lastActivity, now) == OnlineSince(lastActivity, now)
  {
    forall u | u in lastActivity
      ensures u in OnlineBySeconds(lastActivity, now) <==> u in OnlineSince(lastActivity, now)
    {
      var d := now - lastActivity[u];
      assert d % DaySeconds == d;
    }
  }

  /** They differ otherwise: a user active exactly a day ago is online for
      `get_real_time_stats` but not for `_get_online_users_count`, and one
      active exactly 300 seconds ago the other way round. */
  lemma OnlineCountsDiffer(now: int)
    ensures 1 in OnlineBySeconds(map[1 := now - DaySeconds], now)
    ensures 1 !in OnlineSince(map[1 := now - DaySeconds], now)
    ensures 1 !in OnlineBySeconds(map[1 := now - 300], now)
    ensures 1 in OnlineSince(map[1 := now - 300], now)
  {
    assert (now - (now - DaySeconds)) % DaySeconds == 0;
    assert (now - (now - 300)) % DaySeconds == 300;
  }

  /** Memory-mode `total_action_types`: for each counter key starting with
      `action_`, in insertion order, the key with every `action_` removed
      maps to the count; a later key overwrites an earlier one that
      collapses to the same name. */
  function FallbackActionTypes(order: seq<string>, m: map<string, int>): map<string, int>
    requires forall i :: 0 <= i < |order| ==> order[i] in m
  {
    if order == [] then map[]
    else
      var prev := FallbackActionTypes(order[..|order| - 1], m);
      var k := order[|order| - 1];
      if StartsWith(k, "action_") then prev[ReplaceAll(k, "action_", "") := m[k]] else prev
  }

  /** A name is reported iff some `action_` key collapses to it. */
  lemma {:induction false} FallbackActionTypesKeys(order: seq<string>, m: map<string, int>, name: string)
    requires forall i :: 0 <= i < |order| ==> order[i] in m
    ensures name in FallbackActionTypes(order, m)
        <==> exists i :: 0 <= i < |order| && StartsWith(order[i], "action_") && ReplaceAll(order[i], "action_", "") == name
  {
    if order != [] {
      var init := order[..|order| - 1];
      FallbackActionTypesKeys(init, m, name);
      assert forall i :: 0 <= i < |init| ==> init[i] == order[i];
    }
  }

  /** An action whose name does not itself contain `action_`, and whose key
      is the only one collapsing to that name, is reported with its count. */
  lemma {:induction false} FallbackActionTypesPlain(order: seq<string>, m: map<string, int>, action: string)
    requires forall i :: 0 <= i < |order| ==> order[i] in m
    requires !Contains(action, "action_") && ActionFallbackKey(action) in order
    requires forall i :: 0 <= i < |order| && StartsWith(order[i], "action_") && ReplaceAll(order[i], "action_", "") == action
               ==> order[i] == ActionFallbackKey(action)
    ensures action in FallbackActionTypes(order, m) && FallbackActionTypes(order, m)[action] == m[ActionFallbackKey(action)]
  {
    var key := ActionFallbackKey(action);
    var init := order[..|order| - 1];
    var last := order[|order| - 1];
    ReplaceAbsent(action, "action_", "");
    ReplaceLeading(action, "action_", "");
    assert ReplaceAll(key, "action_", "") == action;
    assert forall i :: 0 <= i < |init| ==> init[i] == order[i];
    if last == key {
      assert StartsWith(last, "action_");
    } else {
      assert key in init by {
        var i :| 0 <= i < |order| && order[i] == key;
        assert i < |order| - 1;
      }
      FallbackActionTypesPlain(init, m, action);
    }
  }

  /** Memory-mode counts in the shape of Redis hash fields. */
  function AsCounters(m: map<string, int>): map<string, HValue> {
    map k | k in m :: IntVal(m[k])
  }

  /** The maximum `minute_messages` counter of the minute `j` minutes back. */
  function MinuteCount(st: Db, now: int, j: int): int
    requires 0 <= j && InRange(now - j * MinuteSeconds)
  {
    Count(st, MinuteMessages, MinuteKey(now - j * MinuteSeconds))
  }

  /** The data of one date is absent. */
  predicate Purged(st: Db, day: string) {
    HGet(st, DailyUsers, day) == None && HGet(st, DailyMessages, day) == None
    && Members(st, ActiveUsers(day)) == {}
  }

  /** Two stores hold the same data for one date. */
  predicate SameDay(st: Db, st': Db, day: string) {
    && HGet(st, DailyUsers, day) == HGet(st', DailyUsers, day)
    && HGet(st, DailyMessages, day) == HGet(st', DailyMessages, day)
    && Members(st, ActiveUsers(day)) == Members(st', ActiveUsers(day))
  }

  /** Cleanup of one date: its active-user set and its two daily counters. */
  function PurgeDay(st: Db, day: string): Db {
    HDel(HDel(Delete(st, ActiveUsers(day)), DailyUsers, day), DailyMessages, day)
  }

  /** Cleanup of the `count` dates `from`, `from + 1`, ... days back,
      nearest first. */
  function PurgeDays(st: Db, now: int, from: nat, count: nat): Db
    requires InRange(now) && (count > 0 ==> InRange(now - (from + count - 1) * DaySeconds))
    decreases count
  {
    if count == 0 then st
    else
      BackInRange(now, from, from + count - 1, DaySeconds);
      PurgeDays(PurgeDay(st, DayKey(now - from * DaySeconds)), now, from + 1, count - 1)
  }

  /** Cleaning one date removes its data and leaves every other date's. */
  lemma PurgeDayEffect(st: Db, day: string, other: string)
    ensures Purged(PurgeDay(st, day), day)
    ensures other != day ==> SameDay(PurgeDay(st, day), st, other)
  {
  }

  /** Purging removes exactly the data of the purged dates: for any instant,
      its date's counters and set are gone iff its day lies in the range,
      and are otherwise untouched. */
  lemma PurgeWindow(st: Db, now: int, from: nat, count: nat, t: int)
    requires InRange(now) && (count > 0 ==> InRange(now - (from + count - 1) * DaySeconds)) && InRange(t)
    ensures var back := DayIndex(now) - DayIndex(t);
      from <= back < from + count ==> Purged(PurgeDays(st, now, from, count), DayKey(t))
    ensures var back := DayIndex(now) - DayIndex(t);
      !(from <= back < from + count) ==> SameDay(PurgeDays(st, now, from, count), st, DayKey(t))
  {
    var back := DayIndex(now) - DayIndex(t);
    if from <= back < from + count {
      PurgeInside(st, now, from, count, t);
    } else {
      PurgeOutside(st, now, from, count, t);
    }
  }

  /** A date inside the range is purged. */
  lemma {:induction false} PurgeInside(st: Db, now: int, from: nat, count: nat, t: int)
    requires InRange(now) && count > 0 && InRange(now - (from + count - 1) * DaySeconds) && InRange(t)
    requires from <= DayIndex(now) - DayIndex(t) < from + count
    ensures Purged(PurgeDays(st, now, from, count), DayKey(t))
    decreases count
  {
    var day := PurgedDay(now, from, count, t);
    var next := PurgeDaysStep(st, now, from, count);
    if DayIndex(now) - DayIndex(t) == from {
      PurgeDayEffect(st, day, day);
      PurgeKeepsGone(next, now, from + 1, count - 1, day);
    } else {
      PurgeInside(next, now, from + 1, count - 1, t);
    }
  }

  /** A date outside the range keeps its data. */
  lemma {:induction false} PurgeOutside(st: Db, now: int, from: nat, count: nat, t: int)
    requires InRange(now) && (count > 0 ==> InRange(now - (from + count - 1) * DaySeconds)) && InRange(t)
    requires !(from <= DayIndex(now) - DayIndex(t) < from + count)
    ensures SameDay(PurgeDays(st, now, from, count), st, DayKey(t))
    decreases count
  {
    if count > 0 {
      var day := PurgedDay(now, from, count, t);
      var next := PurgeDaysStep(st, now, from, count);
      PurgeDayEffect(st, day, DayKey(t));
      PurgeOutside(next, now, from + 1, count - 1, t);
    }
  }

  /** One date purged, and the rest of the range still to go. */
  lemma PurgeDaysStep(st: Db, now: int, from: nat, count: nat) returns (next: Db)
    requires InRange(now) && count > 0 && InRange(now - (from + count - 1) * DaySeconds)
    ensures InRange(now - from * DaySeconds)
    ensures next == PurgeDay(st, DayKey(now - from * DaySeconds))
    ensures count - 1 > 0 ==> InRange(now - ((from + 1) + (count - 1) - 1) * DaySeconds)
    ensures PurgeDays(st, now, from, count) == PurgeDays(next, now, from + 1, count - 1)
  {
    BackInRange(now, from, from + count - 1, DaySeconds);
    next := PurgeDay(st, DayKey(now - from * DaySeconds));
  }

  /** The first date a purge removes, and whether it is the date of `t`. */
  lemma PurgedDay(now: int, from: nat, count: nat, t: int) returns (day: string)
    requires InRange(now) && count > 0 && InRange(now - (from + count - 1) * DaySeconds) && InRange(t)
    ensures InRange(now - from * DaySeconds) && day == DayKey(now - from * DaySeconds)
    ensures DayKey(t) == day <==> DayIndex(now) - DayIndex(t) == from
  {
    BackInRange(now, from, from + count - 1, DaySeconds);
    day := DayKey(now - from * DaySeconds);
    DayIndexBack(now, from);
    DayKeySame(t, now - from * DaySeconds);
  }

  /** Data already removed stays removed through further purging. */
  lemma {:induction false} PurgeKeepsGone(st: Db, now: int, from: nat, count: nat, day: string)
    requires InRange(now) && (count > 0 ==> InRange(now - (from + count - 1) * DaySeconds))
    requires Purged(st, day)
    ensures Purged(PurgeDays(st, now, from, count), day)
    decreases count
  {
    if count > 0 {
      BackInRange(now, from, from + count - 1, DaySeconds);
      var next := PurgeDay(st, DayKey(now - from * DaySeconds));
      PurgeKeepsGone(next, now, from + 1, count - 1, day);
    }
  }

  /** `cleanup_old_data` in Redis mode touches exactly the dates 8 to 14
      days back. */
  lemma CleanupWindow(st: Db, now: int, t: int)
    requires InRange(now) && InRange(now - 14 * DaySeconds) && InRange(t)
    ensures var back := DayIndex(now) - DayIndex(t);
      8 <= back <= 14 ==> Purged(PurgeDays(st, now, 8, 7), DayKey(t))
    ensures var back := DayIndex(now) - DayIndex(t);
      !(8 <= back <= 14) ==> SameDay(PurgeDays(st, now, 8, 7), st, DayKey(t))
  {
    PurgeWindow(st, now, 8, 7, t);
  }

  /** The insertion order of a dict after `keys` are touched in turn: each
      key not yet present goes to the end. */
  function AppendNew(order: seq<string>, keys: seq<string>): seq<string>
    decreases |keys|
  {
    if keys == [] then order
    else AppendNew(Touch(order, keys[0]), keys[1..])
  }

  /** The insertion order after one key is touched. */
  function Touch(order: seq<string>, key: string): seq<string> {
    if key in order then order else order + [key]
  }

  lemma AppendNewThree(order: seq<string>, x: string, y: string, z: string)
    ensures AppendNew(order, [x, y, z]) == Touch(Touch(Touch(order, x), y), z)
  {
    var o1 := Touch(order, x);
    var o2 := Touch(o1, y);
    assert [x, y, z][1..] == [y, z] && [y, z][1..] == [z] && [z][1..] == [];
    assert AppendNew(order, [x, y, z]) == AppendNew(o1, [y, z]);
    assert AppendNew(o1, [y, z]) == AppendNew(o2, [z]);
    assert AppendNew(o2, [z]) == AppendNew(Touch(o2, z), []);
  }

  /** The old order is kept as a prefix, and the keys present afterwards
      are exactly the old ones and the touched ones. */
  lemma {:induction false} AppendNewOrder(order: seq<string>, keys: seq<string>)
    ensures |order| <= |AppendNew(order, keys)| && AppendNew(order, keys)[..|order|] == order
    ensures forall k :: k in AppendNew(order, keys) <==> k in order || k in keys
    decreases |keys|
  {
    if keys != [] {
      var next := Touch(order, keys[0]);
      AppendNewOrder(next, keys[1..]);
      assert next[..|order|] == order;
      assert AppendNew(order, keys)[..|order|] == AppendNew(order, keys)[..|next|][..|order|];
      assert keys == [keys[0]] + keys[1..];
    }
  }

  class StatsManager {
    const redisUrl: string
    var redisAvailable: bool
    var redis: Db
    var fallbackStats: map<string, int>
    /** The keys of `fallbackStats` in insertion order, as a Python dict keeps them. */
    var fallbackOrder: seq<string>
    var activeUsers: set<int>
    var userLastActivity: map<int, int>

    ghost predicate Valid()
      reads this
    {
      && (forall i, j :: 0 <= i < j < |fallbackOrder| ==> fallbackOrder[i] != fallbackOrder[j])
      && (forall k :: k in fallbackStats <==> k in fallbackOrder)
      && activeUsers == userLastActivity.Keys
    }

    /** A manager starts in memory mode with no data. */
    constructor (url: string)
      ensures Valid()
      ensures redisUrl == url && !redisAvailable
      ensures fallbackStats == map[] && activeUsers == {} && userLastActivity == map[]
    {
      redisUrl := url;
      redisAvailable := false;
      redis := Empty();
      fallbackStats := map[];
      fallbackOrder := [];
      activeUsers := {};
      userLastActivity := map[];
    }

    /** `initialize`: the only place the mode is set. `connected` is the
        outcome of the connection and `PING`; `server` is what the Redis
        server holds. */
    method Initialize(connected: bool, server: Db)
      modifies this`redisAvailable, this`redis
      ensures redisAvailable == connected
      ensures connected ==> redis == server
    {
      if connected {
        redis := server;
        redisAvailable := true;
      } else {
        redisAvailable := false;
      }
    }

    method BumpFallback(key: string)
      requires Valid()
      modifies this`fallbackStats, this`fallbackOrder
      ensures Valid()
      ensures fallbackStats == Bump(old(fallbackStats), key)
      ensures fallbackOrder == if key in old(fallbackStats) then old(fallbackOrder) else old(fallbackOrder) + [key]
      ensures fallbackOrder == Touch(old(fallbackOrder), key)
    {
      if key !in fallbackStats {
        fallbackOrder := fallbackOrder + [key];
        fallbackStats := fallbackStats[key := 0];
      }
      fallbackStats := fallbackStats[key := fallbackStats[key] + 1];
    }

    /** `update_user_activity`. `pipelineOk` is whether the pipeline's
        `EXECUTE` succeeds; a failure is logged and swallowed, and the mode
        never changes. */
    method UpdateUserActivity(userId: int, action: string, chatType: string, now: int, pipelineOk: bool)
      requires Valid() && InRange(now)
      modifies this`activeUsers, this`userLastActivity, this`redis, this`fallbackStats, this`fallbackOrder
      ensures Valid()
      ensures activeUsers == old(activeUsers) + {userId}
      ensures userLastActivity == old(userLastActivity)[userId := now]
      ensures redisAvailable && pipelineOk ==> redis == ActivityPipeline(old(redis), userId, action, chatType, now)
      ensures !(redisAvailable && pipelineOk) ==> redis == old(redis)
      ensures redisAvailable ==> fallbackStats == old(fallbackStats) && fallbackOrder == old(fallbackOrder)
      ensures !redisAvailable ==>
                fallbackStats == Bump(Bump(Bump(old(fallbackStats), DailyFallbackKey(now)), HourlyFallbackKey(now)),
                                      ActionFallbackKey(action))
      ensures !redisAvailable ==>
                fallbackOrder
                == AppendNew(old(fallbackOrder), [DailyFallbackKey(now), HourlyFallbackKey(now), ActionFallbackKey(action)])
    {
      activeUsers := activeUsers + {userId};
      userLastActivity := userLastActivity[userId := now];
      if redisAvailable {
        if pipelineOk {
          redis := ActivityPipeline(redis, userId, action, chatType, now);
        }
      } else {
        RecordFallback(action, now);
      }
    }

    /** The memory-mode branch of `update_user_activity`. */
    method RecordFallback(action: string, now: int)
      requires Valid() && InRange(now)
      modifies this`fallbackStats, this`fallbackOrder
      ensures Valid()
      ensures fallbackStats == Bump(Bump(Bump(old(fallbackStats), DailyFallbackKey(now)), HourlyFallbackKey(now)),
                                    ActionFallbackKey(action))
      ensures fallbackOrder
              == AppendNew(old(fallbackOrder), [DailyFallbackKey(now), HourlyFallbackKey(now), ActionFallbackKey(action)])
    {
      var day, hour, act := DailyFallbackKey(now), HourlyFallbackKey(now), ActionFallbackKey(action);
      BumpFallback(day);
      BumpFallback(hour);
      BumpFallback(act);
      AppendNewThree(old(fallbackOrder), day, hour, act);
    }

    /** `_get_online_users_count`. */
    method OnlineUsersCount(now: int) returns (n: int)
      requires InRange(now) && InRange(now - 4 * MinuteSeconds)
      ensures redisAvailable ==> n >= 0
      ensures redisAvailable ==> forall j :: 0 <= j < 5 ==> MinuteCount(redis, now, j) <= n
      ensures redisAvailable ==> n == 0 || exists j :: 0 <= j < 5 && MinuteCount(redis, now, j) == n
      ensures !redisAvailable ==> n == |OnlineSince(userLastActivity, now)|
    {
      if redisAvailable {
        n := 0;
        var i := 0;
        while i < 5
          invariant 0 <= i <= 5 && n >= 0
          invariant forall j :: 0 <= j < i ==> MinuteCount(redis, now, j) <= n
          invariant n == 0 || exists j :: 0 <= j < i && MinuteCount(redis, now, j) == n
        {
          var minuteKey := MinuteKey(now - i * MinuteSeconds);
          var count := HGet(redis, MinuteMessages, minuteKey);
          if count.Some? && count.value.IntVal? {
            if count.value.n > n {
              n := count.value.n;
            }
          }
          assert MinuteCount(redis, now, i) <= n;
          i := i + 1;
        }
      } else {
        n := |OnlineSince(userLastActivity, now)|;
      }
    }

    /** `get_real_time_stats`. */
    method GetRealTimeStats(now: int) returns (s: Snapshot)
      requires Valid() && InRange(now) && InRange(now - 4 * MinuteSeconds)
      ensures s.source == (if redisAvailable then FromRedis else FromMemory)
      ensures redisAvailable ==>
                && s.todayMessages == Count(redis, DailyMessages, DayKey(now))
                && s.todayActiveUsers == SCard(redis, ActiveUsers(DayKey(now)))
                && s.currentHourMessages == Count(redis, HourlyMessages, HourKey(now))
                && s.currentHourUsers == SCard(redis, ActiveUsers(HourKey(now)))
                && s.totalActionTypes == HGetAll(redis, ActionTypes)
                && s.todayActionTypes == HGetAll(redis, DailyActionTypes(DayKey(now)))
                && s.chatTypes == HGetAll(redis, ChatTypes)
                && (forall j :: 0 <= j < 5 ==> MinuteCount(redis, now, j) <= s.onlineUsers)
      ensures !redisAvailable ==>
                && s.todayMessages == (if DailyFallbackKey(now) in fallbackStats then fallbackStats[DailyFallbackKey(now)] else 0)
                && s.todayActiveUsers == |activeUsers| && s.currentHourUsers == |activeUsers|
                && s.currentHourMessages == (if HourlyFallbackKey(now) in fallbackStats then fallbackStats[HourlyFallbackKey(now)] else 0)
                && s.onlineUsers == |OnlineBySeconds(userLastActivity, now)|
                && s.totalActionTypes == AsCounters(FallbackActionTypes(fallbackOrder, fallbackStats))
                && s.todayActionTypes == map[] && s.chatTypes == map[]
    {
      var today, hour := DayKey(now), HourKey(now);
      if redisAvailable {
        var online := OnlineUsersCount(now);
        s := Snapshot(
          Count(redis, DailyMessages, today),
          SCard(redis, ActiveUsers(today)),
          Count(redis, HourlyMessages, hour),
          SCard(redis, ActiveUsers(hour)),
          online,
          HGetAll(redis, ActionTypes),
          HGetAll(redis, DailyActionTypes(today)),
          HGetAll(redis, ChatTypes),
          FromRedis);
      } else {
        var actions := FallbackActionTypes(fallbackOrder, fallbackStats);
        s := Snapshot(
          if DailyFallbackKey(now) in fallbackStats then fallbackStats[DailyFallbackKey(now)] else 0,
          |activeUsers|,
          if HourlyFallbackKey(now) in fallbackStats then fallbackStats[HourlyFallbackKey(now)] else 0,
          |activeUsers|,
          |OnlineBySeconds(userLastActivity, now)|,
          AsCounters(actions),
          map[],
          map[],
          FromMemory);
      }
    }

    /** `get_user_statistics`: the distinct users seen since start-up, and
        the all-time action counters in Redis mode. */
    function GetUserStatistics(): (r: UserStatistics)
      reads this
      ensures r.totalRegisteredUsers == |activeUsers|
      ensures r.source == FromRedis <==> redisAvailable
      ensures redisAvailable ==> r.actionDistribution == HGetAll(redis, ActionTypes)
      ensures !redisAvailable ==> r.actionDistribution == map[]
    {
      if redisAvailable then UserStatistics(|activeUsers|, HGetAll(redis, ActionTypes), FromRedis)
      else UserStatistics(|activeUsers|, map[], FromMemory)
    }

    /** `cleanup_old_data`: nothing in memory mode; in Redis mode the data of
        the dates 8 to 14 days back, one date at a time. */
    method CleanupOldData(now: int)
      requires InRange(now) && InRange(now - 14 * DaySeconds)
      modifies this`redis
      ensures !redisAvailable ==> redis == old(redis)
      ensures redisAvailable ==> redis == PurgeDays(old(redis), now, 8, 7)
    {
      if !redisAvailable {
        return;
      }
      var i := 8;
      while i < 15
        invariant 8 <= i <= 15
        invariant PurgeDays(redis, now, i, 15 - i) == PurgeDays(old(redis), now, 8, 7)
      {
        BackInRange(now, i, 14, DaySeconds);
        var oldDate := DayKey(now - i * DaySeconds);
        ghost var before := redis;
        assert PurgeDays(before, now, i, 15 - i) == PurgeDays(PurgeDay(before, oldDate), now, i + 1, 14 - i);
        redis := Delete(redis, ActiveUsers(oldDate));
        redis := HDel(redis, DailyUsers, oldDate);
        redis := HDel(redis, DailyMessages, oldDate);
        assert redis == PurgeDay(before, oldDate);
        i := i + 1;
      }
    }
  }
}
