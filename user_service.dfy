/**
 * The per-user activity record kept by the user service: registration,
 * message counters that roll over by calendar day and by week, the level and
 * badge tiers derived from them, per-user settings, and the short
 * conversation history used as chat context.
 *
 * The service's dictionaries are keyed by `str(user_id)`; `str` is
 * injective on integers (`Text.IntToStringInjective`), so here they are keyed
 * by the id itself. Timestamps are instants as in `TimeKeys`; the ISO text of
 * `last_activity` is rendered by `Stamp`, and the date of `daily_usage` keys
 * is the day index.
 */
module Users {
  import opened Wrappers
  import opened Text
  import opened TimeKeys

  /** The Telegram user fields the service copies. */
  datatype TgUser = TgUser(id: int, username: Option<string>, firstName: string, lastName: Option<string>)

  /** A setting's value: the defaults are a string and a boolean, and
      `update_user_setting` stores whatever it is given. */
  datatype SettingValue = StrSetting(s: string) | BoolSetting(b: bool)

  datatype UserRecord = UserRecord(
    id: int,
    username: Option<string>,
    firstName: string,
    lastName: Option<string>,
    joinDate: int,
    totalMessages: int,
    todayMessages: int,
    weekMessages: int,
    lastActivity: int,
    settings: map<string, SettingValue>,
    dailyUsage: map<int, int>)

  function DefaultSettings(): map<string, SettingValue> {
    map["language" := StrSetting("zh"), "notifications" := BoolSetting(true), "mode" := StrSetting("chat")]
  }

  /** `daily_usage.get(day, 0)`. */
  function DailyOf(usage: map<int, int>, day: int): int {
    if day in usage then usage[day] else 0
  }

  /** The record `register_user` creates for a new user at `now`. */
  function NewRecord(u: TgUser, now: int): (rec: UserRecord)
    ensures rec.totalMessages == 0 && rec.todayMessages == 0 && rec.weekMessages == 0
    ensures rec.joinDate == now && rec.lastActivity == now
    ensures rec.settings == DefaultSettings() && rec.dailyUsage == map[]
    ensures rec.id == u.id && rec.username == u.username && rec.firstName == u.firstName && rec.lastName == u.lastName
  {
    UserRecord(u.id, u.username, u.firstName, u.lastName, now, 0, 0, 0, now, DefaultSettings(), map[])
  }

  /** The users after `register_user(u)` at `now`: a new user gets a fresh
      record; a known user has only the profile fields and the last activity
      refreshed; no other user is touched. */
  function Registered(users: map<int, UserRecord>, u: TgUser, now: int): (r: map<int, UserRecord>)
    ensures r.Keys == users.Keys + {u.id}
    ensures forall k :: k in users && k != u.id ==> r[k] == users[k]
    ensures u.id !in users ==> r[u.id] == NewRecord(u, now)
    ensures u.id in users ==>
              var was, now' := users[u.id], r[u.id];
              && now'.username == u.username && now'.firstName == u.firstName && now'.lastName == u.lastName
              && now'.lastActivity == now
              && now'.id == was.id && now'.joinDate == was.joinDate
              && now'.totalMessages == was.totalMessages && now'.todayMessages == was.todayMessages
              && now'.weekMessages == was.weekMessages
              && now'.settings == was.settings && now'.dailyUsage == was.dailyUsage
  {
    if u.id !in users then users[u.id := NewRecord(u, now)]
    else
      users[u.id := users[u.id].(username := u.username, firstName := u.firstName, lastName := u.lastName,
                                 lastActivity := now)]
  }

  /** `current_time - timedelta(days=current_time.weekday())`: the same time
      of day on the Monday of the current week. */
  function WeekStart(now: int): int {
    now - Weekday(now) * DaySeconds
  }

  /** One user's record after `update_user_activity` at `now`. */
  function Touch(rec: UserRecord, now: int): (r: UserRecord)
    ensures r.totalMessages == rec.totalMessages + 1
    ensures r.todayMessages == if DayIndex(rec.lastActivity) != DayIndex(now) then 1 else rec.todayMessages + 1
    ensures r.weekMessages == if rec.lastActivity < WeekStart(now) then 1 else rec.weekMessages + 1
    ensures r.lastActivity == now
    ensures DailyOf(r.dailyUsage, DayIndex(now)) == DailyOf(rec.dailyUsage, DayIndex(now)) + 1
    ensures forall d :: d != DayIndex(now) ==> DailyOf(r.dailyUsage, d) == DailyOf(rec.dailyUsage, d)
    ensures r.dailyUsage.Keys == rec.dailyUsage.Keys + {DayIndex(now)}
    ensures r == rec.(totalMessages := r.totalMessages, todayMessages := r.todayMessages,
                      weekMessages := r.weekMessages, lastActivity := now, dailyUsage := r.dailyUsage)
  {
    var today := DayIndex(now);
    rec.(totalMessages := rec.totalMessages + 1,
         todayMessages := if DayIndex(rec.lastActivity) != today then 1 else rec.todayMessages + 1,
         weekMessages := if rec.lastActivity < WeekStart(now) then 1 else rec.weekMessages + 1,
         lastActivity := now,
         dailyUsage := rec.dailyUsage[today := DailyOf(rec.dailyUsage, today) + 1])
  }

  /** The users after `update_user_activity(id)` at `now`: nothing changes
      for an unregistered id. */
  function Touched(users: map<int, UserRecord>, id: int, now: int): (r: map<int, UserRecord>)
    ensures id !in users ==> r == users
    ensures r.Keys == users.Keys
    ensures forall k :: k in users && k != id ==> r[k] == users[k]
    ensures id in users ==> r[id] == Touch(users[id], now)
  {
    if id in users then users[id := Touch(users[id], now)] else users
  }

  /** The day counter agrees with the daily usage of the day of the last
      activity, and no later day has usage. */
  predicate Consistent(rec: UserRecord) {
    && rec.todayMessages == DailyOf(rec.dailyUsage, DayIndex(rec.lastActivity))
    && forall d :: d in rec.dailyUsage ==> d <= DayIndex(rec.lastActivity)
  }

  lemma DayIndexMonotone(a: int, b: int)
    requires a <= b
    ensures DayIndex(a) <= DayIndex(b)
  {
  }

  /** A fresh record is consistent, and with a clock that does not go back
      every activity update keeps it so: `today_messages` is then the number
      of messages counted on the current day. */
  lemma TouchConsistent(rec: UserRecord, now: int)
    requires Consistent(rec) && rec.lastActivity <= now
    ensures Consistent(Touch(rec, now))
  {
    DayIndexMonotone(rec.lastActivity, now);
    var r := Touch(rec, now);
    if DayIndex(rec.lastActivity) != DayIndex(now) {
      assert DayIndex(now) !in rec.dailyUsage;
    }
  }

  lemma NewRecordConsistent(u: TgUser, now: int)
    ensures Consistent(NewRecord(u, now))
  {
  }

  /** Registering a known user again moves `last_activity` without resetting
      the day counter, so on a new day a re-registration followed by a message
      continues yesterday's count instead of starting at 1. */
  lemma ReRegisterCarriesDayCount(users: map<int, UserRecord>, u: TgUser, t: int)
    requires u.id in users && DayIndex(users[u.id].lastActivity) < DayIndex(t)
    ensures Touched(Registered(users, u, t), u.id, t)[u.id].todayMessages == users[u.id].todayMessages + 1
    ensures Touched(users, u.id, t)[u.id].todayMessages == 1
  {
  }

  /** The week starts at the current time of day on Monday, not at midnight:
      on a Monday, a message sent earlier that same day resets the weekly
      count. */
  lemma WeekResetsWithinMonday(rec: UserRecord, now: int)
    requires Weekday(now) == 0 && rec.lastActivity < now
    ensures Touch(rec, now).weekMessages == 1
  {
  }

  /** `calculate_user_level`'s thresholds, lowest first. */
  const LevelThresholds: seq<int> := [100, 500, 1000, 2000, 5000]

  datatype Level = Newcomer | Bronze | Silver | Gold | Diamond | Legend {
    function Rank(): nat {
      match this
      case Newcomer => 0
      case Bronze => 1
      case Silver => 2
      case Gold => 3
      case Diamond => 4
      case Legend => 5
    }

    /** The title the bot shows. */
    function Title(): string {
      match this
      case Newcomer => "🌱 初来乍到"
      case Bronze => "🥉 青铜新手"
      case Silver => "🥈 白银达人"
      case Gold => "🥇 黄金高手"
      case Diamond => "💎 钻石专家"
      case Legend => "🏆 传奇大师"
    }
  }

  /** How many of the thresholds `n` reaches. */
  function Reached(thresholds: seq<int>, n: int): (r: nat)
    ensures r <= |thresholds|
  {
    if thresholds == [] then 0
    else (if n >= thresholds[0] then 1 else 0) + Reached(thresholds[1..], n)
  }

  /** `calculate_user_level`: the level's rank is the number of thresholds
      the message total reaches. */
  function UserLevel(total: int): (l: Level)
    ensures l.Rank() == Reached(LevelThresholds, total)
  {
    LevelReached(total);
    if total >= 5000 then Legend
    else if total >= 2000 then Diamond
    else if total >= 1000 then Gold
    else if total >= 500 then Silver
    else if total >= 100 then Bronze
    else Newcomer
  }

  lemma LevelReached(n: int)
    ensures Reached(LevelThresholds, n) ==
              (if n >= 100 then 1 else 0) + (if n >= 500 then 1 else 0) + (if n >= 1000 then 1 else 0)
              + (if n >= 2000 then 1 else 0) + (if n >= 5000 then 1 else 0)
  {
    assert [5000][1..] == [];
    assert Reached([5000], n) == if n >= 5000 then 1 else 0;
    assert [2000, 5000][1..] == [5000];
    assert Reached([2000, 5000], n) == (if n >= 2000 then 1 else 0) + Reached([5000], n);
    assert [1000, 2000, 5000][1..] == [2000, 5000];
    assert Reached([1000, 2000, 5000], n) == (if n >= 1000 then 1 else 0) + Reached([2000, 5000], n);
    assert [500, 1000, 2000, 5000][1..] == [1000, 2000, 5000];
    assert Reached([500, 1000, 2000, 5000], n) == (if n >= 500 then 1 else 0) + Reached([1000, 2000, 5000], n);
    assert LevelThresholds[1..] == [500, 1000, 2000, 5000];
  }

  predicate Ascending(t: seq<int>) {
    forall i, j :: 0 <= i < j < |t| ==> t[i] < t[j]
  }

  /** An ascending list of thresholds is reached not at all exactly below its
      first threshold. */
  lemma {:induction false} ReachedNone(t: seq<int>, n: int)
    requires Ascending(t)
    ensures Reached(t, n) == 0 <==> t == [] || n < t[0]
  {
    if t != [] && n < t[0] {
      ReachedNone(t[1..], n);
      if t[1..] != [] {
        assert t[0] < t[1];
      }
    }
  }

  lemma {:induction false} ReachedMonotone(thresholds: seq<int>, a: int, b: int)
    requires a <= b
    ensures Reached(thresholds, a) <= Reached(thresholds, b)
  {
    if thresholds != [] {
      ReachedMonotone(thresholds[1..], a, b);
    }
  }

  /** More messages never mean a lower level. */
  lemma LevelMonotone(a: int, b: int)
    requires a <= b
    ensures UserLevel(a).Rank() <= UserLevel(b).Rank()
  {
    ReachedMonotone(LevelThresholds, a, b);
  }

  /** The activity badge's thresholds, lowest first, and its names. */
  const ActivityThresholds: seq<int> := [100, 500, 1000]
  const ActivityNames: seq<string> := ["📈 比较活跃", "⚡ 非常活跃", "🔥 超级活跃"]
  /** The loyalty badge's thresholds in days since joining. */
  const LoyaltyThresholds: seq<int> := [30, 180, 365]
  const LoyaltyNames: seq<string> := ["🤝 月度用户", "🌟 半年伙伴", "🎂 一年老友"]
  /** The daily badge's thresholds in messages today. */
  const DailyThresholds: seq<int> := [20, 50]
  const DailyNames: seq<string> := ["👍 今日活跃", "💪 今日达人"]

  /** The badge of a tier family: none below the first threshold, otherwise
      the name of the highest threshold reached. */
  function Tier(thresholds: seq<int>, names: seq<string>, n: int): (b: Option<string>)
    requires |names| == |thresholds| && Ascending(thresholds)
    ensures b.None? <==> Reached(thresholds, n) == 0
    ensures b == if Reached(thresholds, n) == 0 then None else Some(names[Reached(thresholds, n) - 1])
  {
    if thresholds == [] then None
    else
      assert Ascending(thresholds[1..]);
      var higher := Tier(thresholds[1..], names[1..], n);
      ReachedNone(thresholds[1..], n);
      if higher.Some? then
        assert n >= thresholds[1] > thresholds[0];
        higher
      else if n >= thresholds[0] then Some(names[0])
      else None
  }

  /** `(now - join_date).days`: whole days, rounded down. */
  function DaysSince(joinDate: int, now: int): int {
    (now - joinDate) / DaySeconds
  }

  /** The badges of `calculate_user_badges`, in order: activity, loyalty,
      today's use. */
  function BadgeList(rec: UserRecord, now: int): (bs: seq<string>)
    ensures |bs| <= 3
    ensures bs == [] <==> rec.totalMessages < 100 && DaysSince(rec.joinDate, now) < 30 && rec.todayMessages < 20
    ensures forall i :: 0 <= i < |bs| ==> |bs[i]| > 0 && bs[i][0] != '暂'
  {
    TierConstants();
    ReachedNone(ActivityThresholds, rec.totalMessages);
    ReachedNone(LoyaltyThresholds, DaysSince(rec.joinDate, now));
    ReachedNone(DailyThresholds, rec.todayMessages);
    var activity := Tier(ActivityThresholds, ActivityNames, rec.totalMessages);
    var loyalty := Tier(LoyaltyThresholds, LoyaltyNames, DaysSince(rec.joinDate, now));
    var daily := Tier(DailyThresholds, DailyNames, rec.todayMessages);
    Present(activity) + Present(loyalty) + Present(daily)
  }

  lemma TierConstants()
    ensures Ascending(ActivityThresholds) && Ascending(LoyaltyThresholds) && Ascending(DailyThresholds)
    ensures |ActivityNames| == 3 && |LoyaltyNames| == 3 && |DailyNames| == 2
  {
  }

  /** The activity badge by band, highest first as the `if`/`elif` chain
      tests them. */
  function ActivityBadge(total: int): Option<string> {
    if total >= 1000 then Some("🔥 超级活跃")
    else if total >= 500 then Some("⚡ 非常活跃")
    else if total >= 100 then Some("📈 比较活跃")
    else None
  }

  /** The loyalty badge by band. */
  function LoyaltyBadge(days: int): Option<string> {
    if days >= 365 then Some("🎂 一年老友")
    else if days >= 180 then Some("🌟 半年伙伴")
    else if days >= 30 then Some("🤝 月度用户")
    else None
  }

  /** The daily badge by band. */
  function DailyBadge(today: int): Option<string> {
    if today >= 50 then Some("💪 今日达人")
    else if today >= 20 then Some("👍 今日活跃")
    else None
  }

  /** Each tier family awards the badge of the highest band reached, as the
      source's `if`/`elif` chains do. */
  lemma TierBands(n: int)
    ensures Tier(ActivityThresholds, ActivityNames, n) == ActivityBadge(n)
    ensures Tier(LoyaltyThresholds, LoyaltyNames, n) == LoyaltyBadge(n)
    ensures Tier(DailyThresholds, DailyNames, n) == DailyBadge(n)
  {
    TierConstants();
    ReachedThree(ActivityThresholds, n);
    ReachedThree(LoyaltyThresholds, n);
    ReachedTwo(DailyThresholds, n);
  }

  lemma ReachedThree(t: seq<int>, n: int)
    requires |t| == 3 && t[0] < t[1] < t[2]
    ensures Reached(t, n) == if n >= t[2] then 3 else if n >= t[1] then 2 else if n >= t[0] then 1 else 0
  {
    assert t[1..][0] == t[1] && t[1..][1] == t[2];
    ReachedTwo(t[1..], n);
  }

  lemma ReachedTwo(t: seq<int>, n: int)
    requires |t| == 2 && t[0] < t[1]
    ensures Reached(t, n) == if n >= t[1] then 2 else if n >= t[0] then 1 else 0
  {
    assert t[1..][1..] == [];
    assert Reached(t[1..], n) == (if n >= t[1] then 1 else 0) + Reached(t[1..][1..], n);
  }

  /** The badges awarded: the activity, loyalty and daily badge of the
      bands reached, in that order. */
  lemma BadgeBands(rec: UserRecord, now: int)
    ensures BadgeList(rec, now)
         == Present(ActivityBadge(rec.totalMessages)) + Present(LoyaltyBadge(DaysSince(rec.joinDate, now)))
            + Present(DailyBadge(rec.todayMessages))
  {
    TierBands(rec.totalMessages);
    TierBands(DaysSince(rec.joinDate, now));
    TierBands(rec.todayMessages);
  }

  function Present(b: Option<string>): seq<string> {
    if b.Some? then [b.value] else []
  }

  /** `calculate_user_badges`: the badges joined by a space, or the
      no-badge text. */
  function UserBadges(rec: UserRecord, now: int): (s: string)
    ensures s == "暂无徽章" <==> BadgeList(rec, now) == []
  {
    var bs := BadgeList(rec, now);
    if bs == [] then "暂无徽章"
    else
      assert Join(bs, " ")[0] == bs[0][0];
      Join(bs, " ")
  }

  /** The conversation history keeps this many entries. */
  const HistoryLimit: nat := 20

  /** A history after `add_to_conversation_history`: the two messages are
      appended and only the last `HistoryLimit` entries kept. */
  function Exchange(h: seq<string>, userMsg: string, botMsg: string): (r: seq<string>)
    ensures |r| == if |h| + 2 <= HistoryLimit then |h| + 2 else HistoryLimit
    ensures r[|r| - 2..] == [userMsg, botMsg]
    ensures r == (h + [userMsg, botMsg])[|h| + 2 - |r|..]
  {
    Tail(h + [userMsg, botMsg], HistoryLimit)
  }

  /** Histories built only by this operation hold whole (user, bot) pairs:
      trimming to an even limit keeps the length even. */
  lemma ExchangePairs(h: seq<string>, userMsg: string, botMsg: string)
    requires |h| % 2 == 0
    ensures |Exchange(h, userMsg, botMsg)| % 2 == 0
  {
  }

  class UserService {
    var users: map<int, UserRecord>
    var conversationHistory: map<int, seq<string>>

    /** A service whose data file held `loaded`. */
    constructor (loaded: map<int, UserRecord>)
      ensures users == loaded && conversationHistory == map[]
    {
      users := loaded;
      conversationHistory := map[];
    }

    /** `register_user` at `now`. */
    method RegisterUser(u: TgUser, now: int)
      modifies this`users
      ensures users == Registered(old(users), u, now)
    {
      if u.id !in users {
        users := users[u.id := NewRecord(u, now)];
      } else {
        var rec := users[u.id];
        users := users[u.id := rec.(username := u.username, firstName := u.firstName, lastName := u.lastName,
                                    lastActivity := now)];
      }
    }

    /** `update_user_activity` at `now`. */
    method UpdateUserActivity(userId: int, now: int)
      modifies this`users
      ensures users == Touched(old(users), userId, now)
    {
      if userId in users {
        users := users[userId := Touch(users[userId], now)];
      }
    }

    /** `get_conversation_context`. */
    function ConversationContext(userId: int): seq<string>
      reads this
    {
      if userId in conversationHistory then conversationHistory[userId] else []
    }

    /** `add_to_conversation_history`. */
    method AddToConversationHistory(userId: int, userMsg: string, botMsg: string)
      modifies this`conversationHistory
      ensures conversationHistory == old(conversationHistory)[userId := Exchange(old(ConversationContext(userId)), userMsg, botMsg)]
    {
      if userId !in conversationHistory {
        conversationHistory := conversationHistory[userId := []];
      }
      var history := conversationHistory[userId] + [userMsg, botMsg];
      if |history| > HistoryLimit {
        history := history[|history| - HistoryLimit..];
      }
      conversationHistory := conversationHistory[userId := history];
    }

    /** `clear_conversation_history`. */
    method ClearConversationHistory(userId: int)
      modifies this`conversationHistory
      ensures conversationHistory == old(conversationHistory) - {userId}
      ensures ConversationContext(userId) == []
    {
      if userId in conversationHistory {
        conversationHistory := conversationHistory - {userId};
      }
    }

    /** `update_user_setting`: only a registered user's setting changes. */
    method UpdateUserSetting(userId: int, setting: string, value: SettingValue)
      modifies this`users
      ensures userId !in old(users) ==> users == old(users)
      ensures userId in old(users) ==>
                users == old(users)[userId := old(users)[userId].(settings := old(users)[userId].settings[setting := value])]
    {
      if userId in users {
        var rec := users[userId];
        users := users[userId := rec.(settings := rec.settings[setting := value])];
      }
    }

    /** `get_active_users_today`: the users whose `last_activity` text starts
        with today's date. */
    method GetActiveUsersToday(now: int) returns (count: nat)
      requires InRange(now) && forall u :: u in users ==> InRange(users[u].lastActivity)
      ensures count == |ActiveToday(users, now)|
    {
      var today := DayKey(now);
      var pending := users.Keys;
      count := 0;
      ghost var seen: set<int> := {};
      while pending != {}
        invariant pending <= users.Keys && seen == users.Keys - pending
        invariant count == |ActiveIn(users, now, seen)|
        decreases |pending|
      {
        NonEmpty(pending);
        var u :| u in pending;
        var active := StartsWith(Stamp(users[u].lastActivity), today);
        ActiveInAdd(users, now, seen, u);
        if active {
          count := count + 1;
        }
        pending := pending - {u};
        seen := seen + {u};
      }
      assert seen == users.Keys;
    }
  }

  lemma NonEmpty(s: set<int>)
    requires s != {}
    ensures exists x :: x in s
  {
    if forall x :: x !in s {
      assert false;
    }
  }

  /** `datetime.isoformat()` of an instant in whole seconds:
      the date, `T`, and `HH:MM:SS`. */
  function Stamp(t: int): (s: string)
    requires InRange(t)
    ensures |s| == 16 && s[..7] == DayKey(t)
  {
    DayKey(t) + "T" + Pad(t % DaySeconds / HourSeconds, 2) + ":" + Pad(t % HourSeconds / MinuteSeconds, 2)
      + ":" + Pad(t % MinuteSeconds, 2)
  }

  /** A stamp starts with a day's date exactly when it is on that day. */
  lemma StampOnDay(t: int, now: int)
    requires InRange(t) && InRange(now)
    ensures StartsWith(Stamp(t), DayKey(now)) <==> DayIndex(t) == DayIndex(now)
  {
    DayKeySame(t, now);
  }

  /** The users among `among` whose last activity stamp starts with today's
      date. */
  ghost function ActiveIn(users: map<int, UserRecord>, now: int, among: set<int>): set<int>
    requires InRange(now) && forall u :: u in users ==> InRange(users[u].lastActivity)
  {
    set u | u in among && u in users && StartsWith(Stamp(users[u].lastActivity), DayKey(now))
  }

  ghost function ActiveToday(users: map<int, UserRecord>, now: int): set<int>
    requires InRange(now) && forall u :: u in users ==> InRange(users[u].lastActivity)
  {
    ActiveIn(users, now, users.Keys)
  }

  lemma ActiveInAdd(users: map<int, UserRecord>, now: int, seen: set<int>, u: int)
    requires InRange(now) && forall v :: v in users ==> InRange(users[v].lastActivity)
    requires u in users && u !in seen
    ensures |ActiveIn(users, now, seen + {u})| ==
              |ActiveIn(users, now, seen)| + (if StartsWith(Stamp(users[u].lastActivity), DayKey(now)) then 1 else 0)
  {
    if StartsWith(Stamp(users[u].lastActivity), DayKey(now)) {
      assert ActiveIn(users, now, seen + {u}) == ActiveIn(users, now, seen) + {u};
    } else {
      assert ActiveIn(users, now, seen + {u}) == ActiveIn(users, now, seen);
    }
  }

  /** The active-today count is the number of users whose last activity
      falls on the current day. */
  lemma ActiveTodayMeaning(users: map<int, UserRecord>, now: int)
    requires InRange(now) && forall u :: u in users ==> InRange(users[u].lastActivity)
    ensures ActiveToday(users, now) == set u | u in users && DayIndex(users[u].lastActivity) == DayIndex(now)
  {
    forall u | u in users {
      StampOnDay(users[u].lastActivity, now);
    }
  }
}
