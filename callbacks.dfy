/**
 * The inline-keyboard callback handler: routing a button's callback data to
 * a screen, the help, setting and administrator sub-menus, and the two
 * summaries the user-statistics screen shows (the chat-type distribution
 * and the five most used actions of the day).
 *
 * Screens are named, not rendered: the fixed texts and the Telegram edits
 * are not modelled.
 */
module Callbacks {
  import opened Wrappers
  import opened Text
  import Bot

  // ---------------------------------------------------------------------
  // Routing

  /** Where `handle_callback` sends a callback. */
  datatype Route =
    | StartChat
    | SettingsMenu
    | Features
    | HelpMenu
    | HelpCategory(category: string)
    | SettingOption(option: string)
    | AdminAction(action: string)
    | Unknown

  /** `s.split(c, 1)[1]`: the text after the first `c`; `None` where
      Python would raise `IndexError`. */
  function AfterFirst(s: string, c: char): (r: Option<string>)
    ensures r.None? <==> c !in s
    ensures r.Some? ==> |r.value| < |s| && s[|s| - |r.value| - 1] == c && r.value == s[|s| - |r.value|..]
                        && c !in s[..|s| - |r.value| - 1]
  {
    if s == [] then None
    else if s[0] == c then Some(s[1..])
    else
      var r := AfterFirst(s[1..], c);
      if r.Some? then AfterFirstCons(s, c, r.value); r
      else assert s == [s[0]] + s[1..]; r
  }

  lemma AfterFirstCons(s: string, c: char, v: string)
    requires s != [] && s[0] != c
    requires |v| < |s| - 1 && s[1..][|s| - 1 - |v| - 1] == c && v == s[1..][|s| - 1 - |v|..]
    requires c !in s[1..][..|s| - 1 - |v| - 1]
    ensures s[|s| - |v| - 1] == c && v == s[|s| - |v|..] && c !in s[..|s| - |v| - 1]
  {
    var n := |s| - |v| - 1;
    assert s[..n] == [s[0]] + s[1..][..n - 1];
  }

  /** After a prefix whose only `c` is its last character, the split yields
      the rest of the text. */
  lemma {:induction false} AfterPrefix(p: string, rest: string, c: char)
    requires p != [] && p[|p| - 1] == c && c !in p[..|p| - 1]
    ensures AfterFirst(p + rest, c) == Some(rest)
  {
    if |p| == 1 {
      assert (p + rest)[1..] == rest;
    } else {
      assert p[0] in p[..|p| - 1];
      assert (p + rest)[1..] == p[1..] + rest;
      assert p[1..][..|p| - 2] == p[1..|p| - 1];
      AfterPrefix(p[1..], rest, c);
    }
  }

  /** The exact callbacks, tried first. */
  const Exact: set<string> := {"start_chat", "settings", "features", "help"}

  /** `handle_callback`'s if/elif chain: the four exact strings, then the
      prefixes `help_`, `setting_` and `admin_`, each passing on what
      follows the first `_`. */
  function RouteOf(data: string): (r: Route)
    ensures r == StartChat <==> data == "start_chat"
    ensures r == SettingsMenu <==> data == "settings"
    ensures r == Features <==> data == "features"
    ensures r == HelpMenu <==> data == "help"
    ensures r.HelpCategory? <==> StartsWith(data, "help_")
    ensures r.SettingOption? <==> StartsWith(data, "setting_")
    ensures r.AdminAction? <==> StartsWith(data, "admin_")
    ensures r.HelpCategory? ==> data == "help_" + r.category
    ensures r.SettingOption? ==> data == "setting_" + r.option
    ensures r.AdminAction? ==> data == "admin_" + r.action
    ensures r.Unknown? <==> data !in Exact && !StartsWith(data, "help_") && !StartsWith(data, "setting_")
                            && !StartsWith(data, "admin_")
  {
    ExactNotPrefixed(data);
    PrefixThenRest("help_", data);
    PrefixThenRest("setting_", data);
    PrefixThenRest("admin_", data);
    PrefixesExclusive(data);
    if data == "start_chat" then StartChat
    else if data == "settings" then SettingsMenu
    else if data == "features" then Features
    else if data == "help" then HelpMenu
    else if StartsWith(data, "help_") then HelpCategory(data[5..])
    else if StartsWith(data, "setting_") then SettingOption(data[8..])
    else if StartsWith(data, "admin_") then AdminAction(data[6..])
    else Unknown
  }

  /** The three prefixes begin with different letters. */
  lemma PrefixesExclusive(data: string)
    ensures StartsWith(data, "help_") ==> data[0] == 'h'
    ensures StartsWith(data, "setting_") ==> data[0] == 's'
    ensures StartsWith(data, "admin_") ==> data[0] == 'a'
  {
    if StartsWith(data, "help_") {
      assert data[..5][0] == data[0];
    }
    if StartsWith(data, "setting_") {
      assert data[..8][0] == data[0];
    }
    if StartsWith(data, "admin_") {
      assert data[..6][0] == data[0];
    }
  }

  /** A text that starts with a prefix is the prefix and what follows. */
  lemma PrefixThenRest(p: string, data: string)
    ensures StartsWith(data, p) ==> data == p + data[|p|..]
  {
    if StartsWith(data, p) {
      assert data == data[..|p|] + data[|p|..];
    }
  }

  /** No exact callback starts with one of the prefixes. */
  lemma ExactNotPrefixed(data: string)
    ensures data in Exact ==> !StartsWith(data, "help_") && !StartsWith(data, "setting_") && !StartsWith(data, "admin_")
  {
    if data == "start_chat" {
      assert data[..5][0] != "help_"[0] && data[..6][0] != "admin_"[0] && data[..8][1] != "setting_"[1];
    } else if data == "settings" {
      assert data[..5][0] != "help_"[0] && data[..6][0] != "admin_"[0] && data[..8][7] != "setting_"[7];
    } else if data == "features" {
      assert data[..5][0] != "help_"[0] && data[..6][0] != "admin_"[0] && data[..8][0] != "setting_"[0];
    }
  }

  /** The route passes `data.split("_", 1)[1]`: for each prefix, what
      follows the first `_`. */
  lemma RouteSplitsAtFirstUnderscore(data: string)
    ensures RouteOf(data).HelpCategory? ==> AfterFirst(data, '_') == Some(RouteOf(data).category)
    ensures RouteOf(data).SettingOption? ==> AfterFirst(data, '_') == Some(RouteOf(data).option)
    ensures RouteOf(data).AdminAction? ==> AfterFirst(data, '_') == Some(RouteOf(data).action)
  {
    var r := RouteOf(data);
    if r.HelpCategory? {
      PrefixSplit("help_", data);
    } else if r.SettingOption? {
      PrefixSplit("setting_", data);
    } else if r.AdminAction? {
      PrefixSplit("admin_", data);
    }
  }

  /** The three prefixes each end with their only `_`. */
  lemma PrefixSplit(p: string, data: string)
    requires p in {"help_", "setting_", "admin_"} && StartsWith(data, p)
    ensures AfterFirst(data, '_') == Some(data[|p|..])
  {
    assert data == p + data[|p|..];
    AfterPrefix(p, data[|p|..], '_');
  }

  /** The callback data a route is reached by. */
  function DataOf(r: Route): string
    requires !r.Unknown?
  {
    match r
    case StartChat => "start_chat"
    case SettingsMenu => "settings"
    case Features => "features"
    case HelpMenu => "help"
    case HelpCategory(c) => "help_" + c
    case SettingOption(o) => "setting_" + o
    case AdminAction(a) => "admin_" + a
  }

  /** Every route is reached by exactly one callback: routing the data of a
      route gives the route back, and a routed callback is the data of its
      route. */
  lemma RouteRoundTrip(r: Route, data: string)
    ensures !r.Unknown? ==> RouteOf(DataOf(r)) == r
    ensures !RouteOf(data).Unknown? ==> DataOf(RouteOf(data)) == data
  {
    if !r.Unknown? {
      var d := DataOf(r);
      match r
      case HelpCategory(c) =>
        assert d[..5] == "help_";
        assert d[5..] == c;
      case SettingOption(o) =>
        assert d[..8] == "setting_";
        assert d[8..] == o;
      case AdminAction(a) =>
        assert d[..6] == "admin_";
        assert d[6..] == a;
      case _ =>
    }
  }

  /** A prefix route passes everything after the first `_`:
      `admin_detailed_stats` asks for the action `detailed_stats`. */
  lemma PrefixKeepsUnderscores()
    ensures RouteOf("admin_detailed_stats") == AdminAction("detailed_stats")
  {
    assert "admin_detailed_stats"[..6] == "admin_";
    assert "admin_detailed_stats" == "admin_" + "detailed_stats";
  }

  // ---------------------------------------------------------------------
  // Screens

  /** The help topics `help_content` holds. */
  datatype HelpTopic = ChatHelp | ToolsHelp | SettingsHelp | Faq

  function TopicName(t: HelpTopic): string {
    match t
    case ChatHelp => "chat"
    case ToolsHelp => "tools"
    case SettingsHelp => "settings"
    case Faq => "faq"
  }

  /** What a callback leaves on the screen. */
  datatype Screen =
    | StartChatScreen
    | SettingsScreen
    | FeaturesScreen
    | HelpMenuScreen
    | HelpScreen(topic: HelpTopic)
    | HelpNotFound
    | LanguageMenu
    | SystemStatus
    | UserStatistics
    | BroadcastSoon
    | SystemSettingsSoon
    | PermissionDenied
    | UnknownOperation
    | RequestFailed

  const HelpCategories: set<string> := {"chat", "tools", "settings", "faq"}

  /** `help_content.get(category, "❓ 帮助内容未找到")`. */
  function HelpScreenFor(category: string): (s: Screen)
    ensures s == HelpNotFound <==> category !in HelpCategories
    ensures s.HelpScreen? ==> TopicName(s.topic) == category
    ensures s.HelpScreen? || s == HelpNotFound
  {
    if category == "chat" then HelpScreen(ChatHelp)
    else if category == "tools" then HelpScreen(ToolsHelp)
    else if category == "settings" then HelpScreen(SettingsHelp)
    else if category == "faq" then HelpScreen(Faq)
    else HelpNotFound
  }

  /** Every topic is shown by its own category. */
  lemma HelpTopicsReachable(t: HelpTopic)
    ensures HelpScreenFor(TopicName(t)) == HelpScreen(t)
  {
  }

  /** The options whose handler this class does not define: calling one
      raises, and the generic handler shows the error screen. */
  const UndefinedOptions: set<string> := {"mode", "notifications", "data"}

  /** `handle_setting_option`; `None` when nothing is sent. */
  function SettingScreen(option: string): (s: Option<Screen>)
    ensures s == Some(LanguageMenu) <==> option == "language"
    ensures s == Some(RequestFailed) <==> option in UndefinedOptions
    ensures s.None? <==> option != "language" && option !in UndefinedOptions
  {
    if option == "language" then Some(LanguageMenu)
    else if option in UndefinedOptions then Some(RequestFailed)
    else None
  }

  const AdminActions: set<string> := {"status", "users", "broadcast", "settings"}

  /** `handle_admin_action`: the administrator check comes first; an
      unrecognised action sends nothing. */
  function AdminScreen(isAdmin: bool, action: string): (s: Option<Screen>)
    ensures !isAdmin ==> s == Some(PermissionDenied)
    ensures isAdmin ==> (s.None? <==> action !in AdminActions)
    ensures s != Some(PermissionDenied) ==> isAdmin
  {
    if !isAdmin then Some(PermissionDenied)
    else if action == "status" then Some(SystemStatus)
    else if action == "users" then Some(UserStatistics)
    else if action == "broadcast" then Some(BroadcastSoon)
    else if action == "settings" then Some(SystemSettingsSoon)
    else None
  }

  /** `handle_callback` for a press by `userId`; `None` when nothing is
      sent. */
  function HandleCallback(data: string, adminIds: seq<int>, userId: int): (s: Option<Screen>)
    ensures s == Some(UnknownOperation) <==> RouteOf(data).Unknown?
    ensures s == Some(PermissionDenied) <==> StartsWith(data, "admin_") && !Bot.IsAdmin(adminIds, userId)
    ensures s == Some(RequestFailed) <==> StartsWith(data, "setting_") && data[8..] in UndefinedOptions
    ensures s.None? <==>
              (StartsWith(data, "setting_") && data[8..] != "language" && data[8..] !in UndefinedOptions)
              || (StartsWith(data, "admin_") && Bot.IsAdmin(adminIds, userId) && data[6..] !in AdminActions)
    ensures data == "start_chat" ==> s == Some(StartChatScreen)
    ensures data == "settings" ==> s == Some(SettingsScreen)
    ensures data == "features" ==> s == Some(FeaturesScreen)
    ensures data == "help" ==> s == Some(HelpMenuScreen)
    ensures StartsWith(data, "help_") ==> s == Some(HelpScreenFor(data[5..]))
    ensures StartsWith(data, "setting_") ==> s == SettingScreen(data[8..])
    ensures StartsWith(data, "admin_") ==> s == AdminScreen(Bot.IsAdmin(adminIds, userId), data[6..])
  {
    match RouteOf(data)
    case StartChat => Some(StartChatScreen)
    case SettingsMenu => Some(SettingsScreen)
    case Features => Some(FeaturesScreen)
    case HelpMenu => Some(HelpMenuScreen)
    case HelpCategory(c) => Some(HelpScreenFor(c))
    case SettingOption(o) =>
      assert data[8..] == o;
      SettingScreen(o)
    case AdminAction(a) =>
      assert data[6..] == a;
      AdminScreen(Bot.IsAdmin(adminIds, userId), a)
    case Unknown => Some(UnknownOperation)
  }

  /** Several buttons the bot itself shows have no route: the back buttons
      (`back_to_main`, `admin`) and the language choices get the
      unknown-operation reply, and the administrator's `admin_performance`
      and `admin_detailed_stats` buttons get no reply at all. */
  lemma DeadButtons(adminIds: seq<int>, userId: int)
    ensures HandleCallback("back_to_main", adminIds, userId) == Some(UnknownOperation)
    ensures HandleCallback("set_lang_zh", adminIds, userId) == Some(UnknownOperation)
    ensures HandleCallback("admin", adminIds, userId) == Some(UnknownOperation)
    ensures Bot.IsAdmin(adminIds, userId) ==> HandleCallback("admin_performance", adminIds, userId).None?
    ensures Bot.IsAdmin(adminIds, userId) ==> HandleCallback("admin_detailed_stats", adminIds, userId).None?
  {
    UnroutedButtons(adminIds, userId);
    PerformanceSilent(adminIds, userId);
    DetailedStatsSilent(adminIds, userId);
  }

  lemma PerformanceSilent(adminIds: seq<int>, userId: int)
    ensures Bot.IsAdmin(adminIds, userId) ==> HandleCallback("admin_performance", adminIds, userId).None?
  {
    assert "admin_performance" == "admin_" + "performance";
    AdminButtonSilent("performance", adminIds, userId);
  }

  lemma DetailedStatsSilent(adminIds: seq<int>, userId: int)
    ensures Bot.IsAdmin(adminIds, userId) ==> HandleCallback("admin_detailed_stats", adminIds, userId).None?
  {
    assert "admin_detailed_stats" == "admin_" + "detailed_stats";
    AdminButtonSilent("detailed_stats", adminIds, userId);
  }

  lemma UnroutedButtons(adminIds: seq<int>, userId: int)
    ensures HandleCallback("back_to_main", adminIds, userId) == Some(UnknownOperation)
    ensures HandleCallback("set_lang_zh", adminIds, userId) == Some(UnknownOperation)
    ensures HandleCallback("admin", adminIds, userId) == Some(UnknownOperation)
  {
    Unrouted("back_to_main", 0, 0, 0);
    Unrouted("set_lang_zh", 0, 3, 0);
    Unrouted("admin", 0, 0, 5);
  }

  /** A callback that is no exact one and differs from each prefix at some
      position has no route. */
  lemma Unrouted(data: string, i: nat, j: nat, k: nat)
    requires data !in Exact
    requires i < 5 && (i < |data| ==> data[i] != "help_"[i])
    requires j < 8 && (j < |data| ==> data[j] != "setting_"[j])
    requires k < 6 && (k < |data| ==> data[k] != "admin_"[k])
    ensures RouteOf(data).Unknown?
  {
    NotPrefix(data, "help_", i);
    NotPrefix(data, "setting_", j);
    NotPrefix(data, "admin_", k);
  }

  /** An administrator's `admin_` button for an action outside the four
      handled ones gets no reply. */
  lemma AdminButtonSilent(action: string, adminIds: seq<int>, userId: int)
    requires action !in AdminActions
    ensures Bot.IsAdmin(adminIds, userId) ==> HandleCallback("admin_" + action, adminIds, userId).None?
  {
    PrefixOf("admin_", action);
    assert ("admin_" + action)[6..] == action;
  }

  // ---------------------------------------------------------------------
  // Chat-type distribution

  /** One line of `_format_chat_types`: its emoji, the type, the count and
      the percentage of the total. The one-decimal rendering is not
      modelled. */
  datatype ChatTypeLine = ChatTypeLine(emoji: string, chatType: string, count: int, percentage: real)

  /** The distribution as shown: "暂无数据", or one line per type. */
  datatype ChatTypesText = NoChatData | Lines(lines: seq<ChatTypeLine>)

  /** `sum(int(count) for count in chat_types.values())`. */
  function Total(entries: seq<(string, int)>): int {
    if entries == [] then 0 else Total(entries[..|entries| - 1]) + entries[|entries| - 1].1
  }

  /** The line of one entry. */
  function LineOf(e: (string, int), total: int): ChatTypeLine
    requires total != 0
  {
    ChatTypeLine(if e.0 == "private" then "💬" else "👥", e.0, e.1, (e.1 as real / total as real) * 100.0)
  }

  /** The lines of the first entries, as the loop appends them. */
  function LinesOf(entries: seq<(string, int)>, total: int): (lines: seq<ChatTypeLine>)
    requires total != 0
    ensures |lines| == |entries|
    ensures forall i :: 0 <= i < |lines| ==> lines[i] == LineOf(entries[i], total)
  {
    if entries == [] then [] else LinesOf(entries[..|entries| - 1], total) + [LineOf(entries[|entries| - 1], total)]
  }

  /** `_format_chat_types`, over the dictionary's entries in order. */
  method FormatChatTypes(chatTypes: seq<(string, int)>) returns (text: ChatTypesText)
    ensures chatTypes == [] || Total(chatTypes) == 0 ==> text == NoChatData
    ensures chatTypes != [] && Total(chatTypes) != 0 ==> text == Lines(LinesOf(chatTypes, Total(chatTypes)))
  {
    if chatTypes == [] {
      return NoChatData;
    }
    var total := Total(chatTypes);
    if total == 0 {
      return NoChatData;
    }
    var formatted: seq<ChatTypeLine> := [];
    for i := 0 to |chatTypes|
      invariant formatted == LinesOf(chatTypes[..i], total)
    {
      assert chatTypes[..i + 1][..i] == chatTypes[..i];
      var (chatType, count) := chatTypes[i];
      var percentage := (count as real / total as real) * 100.0;
      var emoji := if chatType == "private" then "💬" else "👥";
      formatted := formatted + [ChatTypeLine(emoji, chatType, count, percentage)];
    }
    assert chatTypes[..|chatTypes|] == chatTypes;
    return Lines(formatted);
  }

  /** The sum of the shown percentages. */
  function PercentSum(lines: seq<ChatTypeLine>): real {
    if lines == [] then 0.0 else PercentSum(lines[..|lines| - 1]) + lines[|lines| - 1].percentage
  }

  lemma {:induction false} PercentSumOf(entries: seq<(string, int)>, total: int)
    requires total != 0
    ensures PercentSum(LinesOf(entries, total)) == (Total(entries) as real / total as real) * 100.0
  {
    if entries != [] {
      var init := entries[..|entries| - 1];
      var lines := LinesOf(entries, total);
      assert lines[..|lines| - 1] == LinesOf(init, total);
      PercentSumOf(init, total);
      DivideSum(Total(init) as real, entries[|entries| - 1].1 as real, total as real);
    }
  }

  lemma DivideSum(a: real, b: real, t: real)
    requires t != 0.0
    ensures (a / t) * 100.0 + (b / t) * 100.0 == ((a + b) / t) * 100.0
  {
  }

  /** The percentages of a shown distribution add up to 100. */
  lemma PercentagesAddUp(chatTypes: seq<(string, int)>)
    requires chatTypes != [] && Total(chatTypes) != 0
    ensures PercentSum(LinesOf(chatTypes, Total(chatTypes))) == 100.0
  {
    PercentSumOf(chatTypes, Total(chatTypes));
    WholeRatio(Total(chatTypes) as real);
  }

  lemma WholeRatio(t: real)
    requires t != 0.0
    ensures (t / t) * 100.0 == 100.0
  {
    assert t / t == 1.0;
  }

  /** A line is marked 💬 exactly for private chats. */
  lemma PrivateMarked(chatTypes: seq<(string, int)>)
    requires Total(chatTypes) != 0
    ensures forall i :: 0 <= i < |chatTypes| ==>
              (LinesOf(chatTypes, Total(chatTypes))[i].emoji == "💬" <==> chatTypes[i].0 == "private")
  {
  }

  // ---------------------------------------------------------------------
  // Top actions

  /** How many actions the statistics screen lists. */
  const TopCount: nat := 5

  /** Inserting an entry in front of the entries with a count no larger:
      the step of a stable sort by count, largest first. */
  function Insert(x: (string, int), s: seq<(string, int)>): (r: seq<(string, int)>)
    ensures |r| == |s| + 1 && multiset(r) == multiset(s) + multiset{x}
    ensures r[0] == x || (s != [] && r[0] == s[0])
  {
    if s == [] || s[0].1 <= x.1 then [x] + s
    else
      var rest := Insert(x, s[1..]);
      assert s == [s[0]] + s[1..];
      [s[0]] + rest
  }

  /** `sorted(items, key=count, reverse=True)`. Python's sort is stable
      also in reverse, so equal counts keep their order. */
  function SortByCount(s: seq<(string, int)>): (r: seq<(string, int)>)
    ensures |r| == |s| && multiset(r) == multiset(s)
  {
    if s == [] then [] else
      assert s == [s[0]] + s[1..];
      Insert(s[0], SortByCount(s[1..]))
  }

  /** Counts never increase along the sequence. */
  predicate Descending(s: seq<(string, int)>) {
    forall i :: 0 < i < |s| ==> s[i - 1].1 >= s[i].1
  }

  lemma {:induction false} InsertDescending(x: (string, int), s: seq<(string, int)>)
    requires Descending(s)
    ensures Descending(Insert(x, s))
  {
    if s != [] && s[0].1 > x.1 {
      InsertDescending(x, s[1..]);
    }
  }

  lemma {:induction false} SortDescending(s: seq<(string, int)>)
    ensures Descending(SortByCount(s))
  {
    if s != [] {
      SortDescending(s[1..]);
      InsertDescending(s[0], SortByCount(s[1..]));
    }
  }

  /** In a descending sequence every earlier count is at least every later
      one. */
  lemma {:induction false} DescendingPairs(s: seq<(string, int)>, i: nat, j: nat)
    requires Descending(s) && i <= j < |s|
    ensures s[i].1 >= s[j].1
    decreases j - i
  {
    if i < j {
      DescendingPairs(s, i, j - 1);
    }
  }

  /** The entries with a given count, in order. */
  function WithCount(s: seq<(string, int)>, c: int): seq<(string, int)> {
    if s == [] then []
    else (if s[0].1 == c then [s[0]] else []) + WithCount(s[1..], c)
  }

  lemma {:induction false} InsertStable(x: (string, int), s: seq<(string, int)>, c: int)
    ensures WithCount(Insert(x, s), c) == WithCount([x] + s, c)
  {
    var r := Insert(x, s);
    assert ([x] + s)[1..] == s;
    if s == [] || s[0].1 <= x.1 {
    } else {
      InsertStable(x, s[1..], c);
      assert r[1..] == Insert(x, s[1..]);
      assert ([x] + s[1..])[1..] == s[1..];
    }
  }

  /** The sort is stable: for every count, the entries with that count
      appear in the order they had. */
  lemma {:induction false} SortStable(s: seq<(string, int)>, c: int)
    ensures WithCount(SortByCount(s), c) == WithCount(s, c)
  {
    if s != [] {
      SortStable(s[1..], c);
      InsertStable(s[0], SortByCount(s[1..]), c);
      assert ([s[0]] + SortByCount(s[1..]))[1..] == SortByCount(s[1..]);
    }
  }

  /** The list the statistics screen shows: the five largest counts, or
      `None` for "暂无数据" when there are no actions. */
  function TopActions(actions: seq<(string, int)>): (top: Option<seq<(string, int)>>)
    ensures top.None? <==> actions == []
    ensures top.Some? ==> |top.value| == (if |actions| < TopCount then |actions| else TopCount)
    ensures top.Some? ==> top.value == SortByCount(actions)[..|top.value|]
  {
    if actions == [] then None
    else
      var sorted := SortByCount(actions);
      Some(sorted[..if |sorted| < TopCount then |sorted| else TopCount])
  }

  /** The listed actions are in descending count order, and no action left
      out has a larger count than one listed. */
  lemma TopActionsLargest(actions: seq<(string, int)>)
    requires actions != []
    ensures Descending(TopActions(actions).value)
    ensures var top := TopActions(actions).value;
            forall i, j :: 0 <= i < |top| <= j < |actions| ==> top[i].1 >= SortByCount(actions)[j].1
  {
    var sorted := SortByCount(actions);
    SortDescending(actions);
    var top := TopActions(actions).value;
    forall i, j | 0 <= i < |top| <= j < |actions|
      ensures top[i].1 >= sorted[j].1
    {
      DescendingPairs(sorted, i, j);
    }
  }
}
