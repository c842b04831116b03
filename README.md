# tg-aibot bookkeeping core in Dafny

This project models the bookkeeping layer of a Telegram chat bot written in
Python (`tg-aibot`): the state it keeps and the decisions it takes around the
chat model. The network, the chat model and the host sampling are not part
of the model. Each Python module becomes one Dafny module:

| Dafny file | Python module | what it holds |
|---|---|---|
| `decorators.dfy` (`Decorators`) | `utils/decorators.py` | the per-user sliding-window rate limiter (a class over the per-user timestamp lists), the `monitor_performance` wrapper that records each handler call once, the `admin_required` gate |
| `system_monitor.dfy` (`Monitor`) | `services/system_monitor.py` | the `SystemMonitor` class: request and error counters, the response-time log capped at 1000 entries, hourly rollups pruned by comparing zero-padded hour keys as strings, the health status, the error rate, the average and the performance trend |
| `realtime_stats.dfy` (`RealTimeStats`) | `services/realtime_stats.py` | the `StatsManager` class in its two modes (Redis hashes and sets, or in-memory counters), the sixteen-command activity pipeline, the two online-user estimates, the statistics snapshot and the cleanup of dates 8 to 14 days back |
| `redis_model.dfy` (`Redis`) | Redis as the statistics manager uses it | a value store with the semantics of `HINCRBY`, `HSET`, `HGET`, `HGETALL`, `HDEL`, `SADD`, `SCARD` and `DEL`, and pipelines as lists of queued commands |
| `user_service.dfy` (`Users`) | `services/user_service.py` | the `UserService` class: registration, message counters that roll over by day and by week, levels and badges, settings, and the conversation history capped at 20 entries |
| `helpers.dfy` (`Helpers`) | `utils/helpers.py` | message splitting (as the source's nested loops, proved against a function), Markdown escaping (as the source's replace loop), command tokenising, truncation, relative-time labels and text cleaning |
| `messages.dfy` (`Messages`) | `core/handlers/messages.py` | whether to answer, the special-command classification, the translation and calculation extraction, the chat prompt and history update, how a reply is sent |
| `callbacks.dfy` (`Callbacks`) | `core/handlers/callbacks.py` | callback routing, the help, setting and administrator sub-menus, the chat-type distribution (as the source's loop) and the five most used actions |
| `config.dfy` (`Config`) | `config/config.py` | `ADMIN_IDS` parsing, the boolean feature flags, `validate` |
| `bot.dfy` (`Bot`) | `core/bot.py` | `is_admin` and `should_respond_in_group` |
| `time_keys.dfy` (`TimeKeys`) | the `strftime` bucket keys | instants as whole seconds, day, hour and minute keys, and their ordering |
| `text.dfy` (`Text`) | Python `str` operations | `strip`, `split`, `lower`, `replace`, `join`, `str(int)`, string comparison, slicing |
| `wrappers.dfy` (`Wrappers`) | — | `Option` and `Result` |

The clock is a parameter throughout. An instant is a whole number of seconds
since 0001-01-01T00:00, the first instant of Python's calendar. The date part
of every bucket key is the day index written with seven zero-padded digits.
Like `%Y-%m-%d`, this form has a fixed width, is injective and keeps the
order of days. `TimeKeys.DayKeyOrder` and `TimeKeys.HourKeyOrder` prove that
it does, and this is what the hourly cleanup relies on when it compares keys
as strings.

Several behaviours of the code as written are stated and proved as they are:

- **Long paragraphs.** A paragraph too long for a message is split into
  sentences only when no part is being filled. After a short paragraph it
  becomes a part on its own, even when it exceeds the limit
  (`Helpers.LongParagraphAfterShortOne`).
- **Two online counts.** In memory mode, `get_real_time_stats` counts users by
  `timedelta.seconds`, which is the difference modulo a day.
  `_get_online_users_count` compares against `now - 300`. The two agree
  when every activity is less than a day old and none is exactly 300 seconds
  back. They disagree on activity exactly a day old and on activity exactly
  300 seconds back (`RealTimeStats.OnlineCountsAgree`, `RealTimeStats.OnlineCountsDiffer`).
- **Operators before weather.** An operator character beats a weather word:
  `C++ weather` goes to the calculator, which refuses it
  (`Messages.OperatorBeatsWeather`).
- **Pattern order.** The translation patterns are tried in order, not by
  position in the text (`Messages.PatternOrderBeatsPosition`).
- **Dead buttons.** Several buttons the bot shows have no route:
  `back_to_main`, `set_lang_zh`, `admin`, `admin_performance` and
  `admin_detailed_stats` (`Callbacks.DeadButtons`).
- **Re-registration.** Registering a known user again moves `last_activity`.
  The day counter then continues across midnight instead of restarting
  (`Users.ReRegisterCarriesDayCount`).
- **Week start.** The week starts at the current time of day on Monday, not
  at midnight (`Users.WeekResetsWithinMonday`).
- **Truncation.** `truncate_text` with a limit shorter than the suffix slices
  from the end (`Helpers.TruncateNegativeSlice`).
- **Text cleaning.** `clean_text` removes control characters after
  stripping, so its result can start with a space
  (`Helpers.CleanTextMayStartWithSpace`).
- **Future times.** A datetime in the future is labelled `-1天前`
  (`Helpers.FutureIsDaysAgo`).

## Model

| member | source | states |
|---|---|---|
| `Bot.AnyMention` | core/bot.py:145-150 | true iff some entity is a `mention` whose text slice, lower-cased, is `@` and the bot's lower-cased username |
| `Bot.ShouldRespondInGroup` | core/bot.py:135-158 | false without bot info, message or non-empty text; otherwise true iff some entity mentions the bot or the replied-to message's sender is the bot |
| `Bot.AnyMentionInsert` | core/bot.py:146-150 | inserting an entity that is not a mention, at any position, leaves the mention search unchanged |
| `Bot.OtherEntitiesIgnored` | core/bot.py:145-158 | entities of any type other than `mention` do not affect the decision |
| `Bot.MentionIgnoresCase` | core/bot.py:148-149 | `@MyBot` in the text addresses a bot named `mybot` |
| `Bot.AdminFromEnv` | core/bot.py:131-133 | with `ADMIN_IDS` from the environment, a user is an administrator iff some comma-separated part spells the id in digits; a negative id never is |
| `Config.IdOf` | config/config.py:58-59 | a part yields an id only when its stripped form is digits, and the id is then non-negative |
| `Config.AdminIdsOf` | config/config.py:57-60 | at most one id per part, all non-negative |
| `Config.AdminIdsInclude` | config/config.py:57-60 | every part that names an id contributes it |
| `Config.AdminIdsSource` | config/config.py:57-60 | every kept id comes from a part that names it |
| `Config.AdminIdsMembers` | config/config.py:57-60 | an id is kept iff some part names it |
| `Config.AdminIdsAppend` | config/config.py:57-60 | ids keep the order of their parts: the ids of a concatenation are the concatenated ids |
| `Config.AdminIdsUnset` | config/config.py:58 | an unset or empty variable names no administrator |
| `Config.SignedPartDropped` | config/config.py:59 | a part starting with a sign (`-5`, `+5`) is dropped |
| `Config.FlagSpelling` | config/config.py:32-36 | a flag is on iff it is unset or spells `true` in any mix of case |
| `Config.Validate` | config/config.py:69-81 | passes iff token, key, API type and URL are all acceptable; otherwise reports the first failing check in the order token, key, type (carrying the type), URL |
| `Config.DefaultsValidate` | config/config.py:24-25 | with `API_TYPE` and `API_BASE_URL` unset, the defaults pass, so validation succeeds iff a token and a key are given |
| `Decorators.Pruned` | utils/decorators.py:26-29 | keeps exactly the timestamps less than `window` seconds before `now`, drawn from the list |
| `Decorators.PrunedAppend` | utils/decorators.py:26-29 | pruning works element by element, so it keeps the order of what it keeps |
| `Decorators.PrunedLater` | utils/decorators.py:26-29 | pruning at `t1` and then at a later `t2` equals pruning once at `t2` |
| `Decorators.PruneWindow` | utils/decorators.py:26-29 | the comprehension as a loop computes `Pruned` |
| `Decorators.PrunedAllOld` | utils/decorators.py:26-29 | nothing survives when every timestamp is at least a window old |
| `Decorators.CheckStep` | utils/decorators.py:26-39 | admitted iff the pruned list holds fewer than `max_requests`; the new list is the pruned one, plus `now` last iff admitted |
| `Decorators.CheckBounded` | utils/decorators.py:26-39 | a check never makes a list within the limit exceed it |
| `Decorators.CheckWindow` | utils/decorators.py:26-29 | after a check every stored timestamp is inside the window; one exactly `window` seconds old is gone |
| `Decorators.RunBounded` | utils/decorators.py:26-39 | from a list within the limit, no sequence of checks makes it longer than the limit |
| `Decorators.BurstFrom` | utils/decorators.py:26-41 | checks at one instant after `k` earlier ones are admitted exactly while `k + i` is below the limit |
| `Decorators.Burst` | utils/decorators.py:26-41 | with limit N, N checks at one instant are admitted and the next is rejected |
| `Decorators.Recovery` | utils/decorators.py:26-41 | once a full window has passed since the last stored timestamp, a check is admitted again (for a positive limit) and starts a fresh list |
| `Decorators.RateLimiter.constructor` | utils/decorators.py:15 | the storage starts empty |
| `Decorators.RateLimiter.Check` | utils/decorators.py:17-43 | the handler runs iff `CheckStep` admits; only this user's list changes, to `CheckStep`'s list; the per-user bound is preserved; every stored time is inside the window |
| `Decorators.MonitorPerformance` | utils/decorators.py:59-98 | the handler's outcome passes through unchanged; the monitor counts exactly one more request, one more error iff the handler raised, logs the response time last and keeps the error text's first 100 characters; the statistics manager adds the user to the active set, stamps their last activity, and runs the activity pipeline under the handler's name in Redis mode or bumps the three fallback counters, extending their insertion order, in memory mode; the mode never changes |
| `Decorators.AdminRequired` | utils/decorators.py:100-111 | the handler runs, with its outcome unchanged, iff the object has a bot and the user is an administrator |
| `Decorators.AdminGateFromEnv` | utils/decorators.py:106-108 | behind the gate a handler runs only for a user whose id some part of `ADMIN_IDS` spells; a negative id is always refused |
| `Helpers.ParagraphStep` | utils/helpers.py:22-27 | a paragraph joins the current part, with a blank line, iff both fit; otherwise a non-empty current part is finished, stripped, and the paragraph starts the next |
| `Helpers.SplitLong` | utils/helpers.py:10-44 | a text within the limit comes back as the only part |
| `Helpers.SplitLongMessage` | utils/helpers.py:10-44 | the source's nested loops compute `SplitLong` |
| `Helpers.PackParagraph` | utils/helpers.py:22-39 | one turn of the paragraph loop is `ParagraphStep` |
| `Helpers.PackSentences` | utils/helpers.py:30-39 | the sentence loop computes the sentence fold |
| `Helpers.PackSentence` | utils/helpers.py:32-39 | one turn of the sentence loop: blank sentences skipped, a sentence with `。` joins the part when it fits and else starts a new one |
| `Helpers.SentencesStripped` | utils/helpers.py:30-39 | the sentence loop only finishes stripped parts |
| `Helpers.ParagraphsStripped` | utils/helpers.py:21-39 | the paragraph loop only finishes stripped parts |
| `Helpers.SplitStripped` | utils/helpers.py:21-42 | every part of a split long text is whitespace-stripped |
| `Helpers.ParagraphsFit` | utils/helpers.py:21-27 | when every paragraph fits with its blank line, everything built so far fits |
| `Helpers.SplitFits` | utils/helpers.py:19-42 | when every paragraph fits with its blank line, every part is within the limit |
| `Helpers.LongParagraphAfterShortOne` | utils/helpers.py:22-27 | a long last paragraph after a non-empty part becomes the last part whole, longer than the limit |
| `Helpers.EscapeMarkdown` | utils/helpers.py:67-74 | the replace loop puts a backslash before each of the 18 special characters and leaves every other character alone |
| `Helpers.ReplaceEscapes` | utils/helpers.py:71-72 | replacing one more special character in an escaped text escapes it too and touches no earlier escape |
| `Helpers.EscapedLength` | utils/helpers.py:69-72 | escaping adds exactly one character per special character |
| `Helpers.UnescapeEscaped` | utils/helpers.py:69-72 | for a text without backslashes, dropping the escapes gives the text back |
| `Helpers.ExtractCommandArgs` | utils/helpers.py:77-86 | no command, and no arguments, iff the input is blank |
| `Helpers.CommandArgsCover` | utils/helpers.py:79-86 | the lower-cased first token is the command and the other tokens, in order, are the arguments; together they hold exactly the non-whitespace characters; no argument is empty or contains whitespace |
| `Helpers.CommandArgsLayout` | utils/helpers.py:79-86 | the tokens are maximal runs: the text is whitespace, the command's token, then for each argument a non-empty whitespace run and the argument, then whitespace |
| `Helpers.TruncateText` | utils/helpers.py:114-119 | a text within the limit is unchanged; a longer one ends with the suffix, and with room for the suffix has exactly the limit's length and keeps the text's prefix |
| `Helpers.TruncateUnchanged` | utils/helpers.py:116-119 | with room for the suffix, the text comes back unchanged iff it fits |
| `Helpers.TruncateNegativeSlice` | utils/helpers.py:119 | without room for the suffix the slice counts from the end: `"ab..."` with limit 0 comes back unchanged |
| `Helpers.FormatBucket` | utils/helpers.py:47-64 | the label by elapsed time: just now under a minute, minutes under an hour, hours under a day, yesterday, days under a week (negative for the future), else the date, each with its count |
| `Helpers.FutureIsDaysAgo` | utils/helpers.py:59-62 | one second in the future reads `-1天前` |
| `Helpers.CollapseSpace` | utils/helpers.py:105 | every non-whitespace character kept in order; whitespace only as single plain spaces, never two adjacent; empty iff the input is; starts with a space iff the input does |
| `Helpers.CollapseSpaced` | utils/helpers.py:105 | for a text laid out as whitespace runs between words, each non-empty run becomes exactly one space and the words are untouched |
| `Helpers.CollapseSpaceRuns` | utils/helpers.py:105 | the input is its maximal whitespace runs and its words, and the result is the same words with each run replaced by one space |
| `Helpers.CollapseKeepsWords` | utils/helpers.py:105 | the result has the same words as the input |
| `Helpers.CollapseLast` | utils/helpers.py:105 | the result ends with whitespace iff the input does |
| `Helpers.RemoveControl` | utils/helpers.py:109 | no control character remains, only characters of the input do, and a text without control characters is unchanged |
| `Helpers.RemoveControlCons` | utils/helpers.py:109 | a control character at the front is dropped, any other kept in front of the rest |
| `Helpers.RemoveControlAppend` | utils/helpers.py:109 | removal works piece by piece over a concatenation, so the other characters keep their order |
| `Helpers.NonSpaceRemoveControl` | utils/helpers.py:105-109 | dropping whitespace and dropping control characters commute |
| `Helpers.CleanText` | utils/helpers.py:102-111 | no control character and no whitespace but the plain space; its non-whitespace characters are the input's non-whitespace, non-control characters in order |
| `Helpers.RemoveControlSpaced` | utils/helpers.py:109 | when the gaps hold no control character, removal acts word by word |
| `Helpers.WordsRemoveControl` | utils/helpers.py:107-109 | in a text spaced only by plain spaces, removing control characters leaves each word without its control characters, and words made only of them disappear |
| `Helpers.CleanTextWords` | utils/helpers.py:102-111 | the words of the cleaned text are the input's words, each without its control characters, leaving out those that become empty |
| `Helpers.CleanTextMayStartWithSpace` | utils/helpers.py:105-109 | a NUL before a space leaves the space in front |
| `Messages.ShouldRespond` | core/handlers/messages.py:38-47 | always for a private chat; otherwise exactly the group rule |
| `Messages.Classify` | core/handlers/messages.py:87-103 | translation iff a translation keyword occurs; calculation iff not and an operator or `计算` occurs; weather iff neither and a weather word occurs; else none |
| `Messages.TranslationTrigger` | core/handlers/messages.py:92 | translation is asked for iff the lowered text contains `translate` or `译` |
| `Messages.OperatorBeatsWeather` | core/handlers/messages.py:96-101 | `C++ weather` is a calculation request and the calculator refuses it |
| `Messages.Capture` | core/handlers/messages.py:111-119 | no match iff the rest holds only newlines; a capture is stripped and single-line |
| `Messages.Search` | core/handlers/messages.py:117-119 | a capture is stripped and single-line |
| `Messages.SearchFound` | core/handlers/messages.py:117-118 | a pattern matches only where its keyword occurs |
| `Messages.SearchAtKeyword` | core/handlers/messages.py:111-119 | a keyword, a colon, whitespace and a word capture the word |
| `Messages.TranslationText` | core/handlers/messages.py:110-119 | the first matching pattern's capture, stripped and single-line |
| `Messages.TranslationReply` | core/handlers/messages.py:105-123 | the format hint iff no pattern matches |
| `Messages.HintWithoutKeyword` | core/handlers/messages.py:116-123 | a text naming neither `translate` nor `译` gets the format hint |
| `Messages.PatternOrderBeatsPosition` | core/handlers/messages.py:116-119 | in `译:<a> 翻译:<b>` the `翻译` pattern wins although it comes later |
| `Messages.CalcExpression` | core/handlers/messages.py:131-136 | the expression is stripped |
| `Messages.CalcAfterKeyword` | core/handlers/messages.py:131-133 | the keyword, a colon, whitespace and a word give the word as the expression |
| `Messages.AdmissibleChars` | core/handlers/messages.py:139-140 | removing spaces first changes nothing: admitted iff every character is a digit, operator, point, parenthesis or space |
| `Messages.CalculationReply` | core/handlers/messages.py:125-147 | the expression is evaluated iff all its characters are allowed, else refused |
| `Messages.ExpressionAfterKeyword` | core/handlers/messages.py:131-143 | `计算: 1+1` evaluates `1+1` |
| `Messages.ProcessSpecialCommands` | core/handlers/messages.py:87-103 | none iff no command applies; otherwise the reply of the classified command |
| `Messages.Prompt` | core/handlers/messages.py:158-167 | ends with the user's line; is only that line without history; otherwise starts with the joined last ten entries and a newline, with nothing else between them and the user's line |
| `Messages.PromptKeepsLastTen` | core/handlers/messages.py:165 | history older than the last ten entries does not change the prompt |
| `Messages.PromptOneEntry` | core/handlers/messages.py:164-167 | with one entry the prompt is the entry, a newline and the user's line |
| `Messages.ProcessAiChat` | core/handlers/messages.py:158-177 | the prompt is built from the stored history, the answer is returned, and exactly the (user, assistant) turn is appended to that user's history |
| `Messages.ChatTurnRecorded` | core/handlers/messages.py:173-175 | the stored history ends with the user's line and then the answer |
| `Messages.SmartReply` | core/handlers/messages.py:184-194 | one message when the reply fits, otherwise the split's parts, all stripped |
| `Messages.SmartReplyIsSplit` | core/handlers/messages.py:186-190 | what is sent is always `split_long_message`'s result |
| `Callbacks.AfterFirst` | core/handlers/callbacks.py:44 | the text after the first `_`, which exists iff `_` occurs |
| `Callbacks.RouteOf` | core/handlers/callbacks.py:35-50 | the four exact strings first, then `help_`, `setting_`, `admin_`, each carrying what follows the prefix; unknown iff none applies |
| `Callbacks.ExactNotPrefixed` | core/handlers/callbacks.py:35-48 | no exact callback starts with a prefix |
| `Callbacks.RouteSplitsAtFirstUnderscore` | core/handlers/callbacks.py:43-48 | the carried text is what `split("_", 1)[1]` gives |
| `Callbacks.RouteRoundTrip` | core/handlers/callbacks.py:35-50 | every route is reached by exactly one callback: data and route determine each other |
| `Callbacks.PrefixKeepsUnderscores` | core/handlers/callbacks.py:47-48 | `admin_detailed_stats` asks for the action `detailed_stats` |
| `Callbacks.HelpScreenFor` | core/handlers/callbacks.py:276 | not found iff the category is not chat, tools, settings or faq; otherwise the topic of that name |
| `Callbacks.HelpTopicsReachable` | core/handlers/callbacks.py:195-276 | every topic is shown by its own category |
| `Callbacks.SettingScreen` | core/handlers/callbacks.py:290-299 | the language menu iff `language`; the error screen iff an option whose handler is not defined; nothing otherwise |
| `Callbacks.AdminScreen` | core/handlers/callbacks.py:317-332 | refused for a non-administrator; otherwise nothing iff the action is not one of the four |
| `Callbacks.HandleCallback` | core/handlers/callbacks.py:25-54 | `start_chat`, `settings`, `features` and `help` show their own screens; a `help_` press shows `HelpScreenFor` of the rest, a `setting_` press `SettingScreen` of the option, an `admin_` press `AdminScreen` of the administrator check and the action; unknown operation iff unrouted; refused iff an `admin_` press by a non-administrator; error screen iff an undefined setting; no reply iff an unhandled setting or an administrator's unhandled action |
| `Callbacks.Unrouted` | core/handlers/callbacks.py:35-50 | data that is no exact callback and differs from each prefix has no route |
| `Callbacks.DeadButtons` | core/handlers/callbacks.py:35-50 | `back_to_main`, `set_lang_zh` and `admin` get the unknown reply; `admin_performance` and `admin_detailed_stats` get none |
| `Callbacks.AdminButtonSilent` | core/handlers/callbacks.py:325-332 | an administrator's button for another action gets no reply |
| `Callbacks.LinesOf` | core/handlers/callbacks.py:463-467 | one line per entry, in order |
| `Callbacks.FormatChatTypes` | core/handlers/callbacks.py:454-469 | no data for an empty distribution or a zero total; otherwise the loop builds one line per type with its share |
| `Callbacks.PercentagesAddUp` | core/handlers/callbacks.py:459-467 | the shown percentages sum to 100 |
| `Callbacks.PrivateMarked` | core/handlers/callbacks.py:466 | a line is marked 💬 iff its type is `private` |
| `Callbacks.Insert` | core/handlers/callbacks.py:413 | one more entry, a permutation |
| `Callbacks.SortByCount` | core/handlers/callbacks.py:413 | a permutation of the entries |
| `Callbacks.SortDescending` | core/handlers/callbacks.py:413 | the sorted counts never increase |
| `Callbacks.SortStable` | core/handlers/callbacks.py:413 | entries of equal count keep their order |
| `Callbacks.TopActions` | core/handlers/callbacks.py:409-414 | no data iff there are no actions; otherwise the first min(5, n) of the sorted entries |
| `Callbacks.TopActionsLargest` | core/handlers/callbacks.py:411-414 | the listed actions descend and none left out has a larger count than a listed one |
| `RealTimeStats.KeyNameFamily` | services/realtime_stats.py:65-86 | each key family is told apart by its key string's prefix |
| `RealTimeStats.KeyNameInjective` | services/realtime_stats.py:65-86 | distinct keys name distinct Redis keys |
| `RealTimeStats.PipelineCommands` | services/realtime_stats.py:62-94 | the pipeline queues sixteen commands |
| `RealTimeStats.DayCounters` | services/realtime_stats.py:65-66 | the day's user and message counters gain one |
| `RealTimeStats.HourCounters` | services/realtime_stats.py:70-74 | the hour's and minute's message counters gain one |
| `RealTimeStats.UserCounters` | services/realtime_stats.py:77-78 | the user's total and per-day counters gain one |
| `RealTimeStats.ActionCounters` | services/realtime_stats.py:82-86 | the action's counters, overall and for the day, and the chat type's counter gain one |
| `RealTimeStats.PipelineCounters` | services/realtime_stats.py:65-86 | every counter the pipeline increments gains exactly one |
| `RealTimeStats.PipelineStamp` | services/realtime_stats.py:79 | the user's last activity is stamped with `now` |
| `RealTimeStats.PipelineSets` | services/realtime_stats.py:67-71 | the user joins the day's and the hour's active sets and no other set changes |
| `RealTimeStats.PipelineFrame` | services/realtime_stats.py:62-94 | no hash outside those the pipeline writes changes |
| `RealTimeStats.TwoActivitiesSameHour` | services/realtime_stats.py:65-74 | two activities of one user in one hour add 2 to the hour's counter but at most 1 to the hour's set |
| `RealTimeStats.Bump` | services/realtime_stats.py:98-100 | one counter gains one and no other moves |
| `RealTimeStats.BumpThree` | services/realtime_stats.py:98-100 | three distinct counters gain one each, nothing else moves |
| `RealTimeStats.FallbackKeysDistinct` | services/realtime_stats.py:98-100 | the day, hour and action keys are distinct |
| `RealTimeStats.FallbackUpdate` | services/realtime_stats.py:96-100 | memory mode: the day, hour and action counters each gain one, no other counter moves, the chat type plays no part |
| `RealTimeStats.OnlineCountsAgree` | services/realtime_stats.py:151-203 | the two memory-mode online counts agree when all activity is under a day old and none exactly 300 seconds back |
| `RealTimeStats.OnlineCountsDiffer` | services/realtime_stats.py:151-203 | they differ for activity exactly a day ago and exactly 300 seconds ago |
| `RealTimeStats.FallbackActionTypesKeys` | services/realtime_stats.py:162-166 | a name is reported iff some `action_` key collapses to it under the replace-all |
| `RealTimeStats.FallbackActionTypesPlain` | services/realtime_stats.py:162-166 | an action without `action_` in its name, alone in collapsing to it, is reported with its count |
| `RealTimeStats.PurgeDayEffect` | services/realtime_stats.py:270-272 | one date's set and counters go, every other date's stay |
| `RealTimeStats.PurgeWindow` | services/realtime_stats.py:268-272 | a purge removes a date's data iff its day is in the range, and leaves it untouched otherwise |
| `RealTimeStats.PurgeKeepsGone` | services/realtime_stats.py:268-272 | removed data stays removed |
| `RealTimeStats.CleanupWindow` | services/realtime_stats.py:264-272 | cleanup removes exactly the dates 8 to 14 days back |
| `RealTimeStats.StatsManager.constructor` | services/realtime_stats.py:19-27 | memory mode, no data |
| `RealTimeStats.StatsManager.Initialize` | services/realtime_stats.py:29-46 | the mode is Redis iff connection and ping succeed |
| `RealTimeStats.StatsManager.BumpFallback` | services/realtime_stats.py:98-100 | one counter gains one; a new key goes last in insertion order |
| `RealTimeStats.AppendNewOrder` | services/realtime_stats.py:98-100 | adding keys in insertion order keeps the old order as a prefix, and the keys present are the old ones and the added ones |
| `RealTimeStats.StatsManager.RecordFallback` | services/realtime_stats.py:96-100 | the three memory-mode counters gain one each; the keys new to the dictionary join its insertion order in day, hour, action order |
| `RealTimeStats.StatsManager.UpdateUserActivity` | services/realtime_stats.py:48-103 | the user is active and stamped `now` in both modes; Redis mode applies the pipeline iff it executes; memory mode bumps the three counters and extends the insertion order as `RecordFallback` does; the mode never changes |
| `RealTimeStats.StatsManager.OnlineUsersCount` | services/realtime_stats.py:181-207 | Redis mode: the maximum of the five minute counters, or 0; memory mode: the users active at or after `now - 300` |
| `RealTimeStats.StatsManager.GetRealTimeStats` | services/realtime_stats.py:105-171 | Redis mode: the day's and hour's counters and set sizes and the three hashes; memory mode: the counters, the active-set size twice, the `timedelta.seconds` online count and the collapsed action names |
| `RealTimeStats.StatsManager.GetUserStatistics` | services/realtime_stats.py:209-231 | the number of users seen, and the action counters in Redis mode only |
| `RealTimeStats.StatsManager.CleanupOldData` | services/realtime_stats.py:258-277 | nothing in memory mode; in Redis mode the loop purges the dates 8 to 14 days back |
| `Redis.HSet` | services/realtime_stats.py:79 | the field holds the value; nothing else changes |
| `Redis.HIncrBy` | services/realtime_stats.py:65 | a numeric field gains the amount, a missing one counts as 0; the command is refused otherwise; nothing else changes |
| `Redis.HDel` | services/realtime_stats.py:271-272 | the field is gone; nothing else changes |
| `Redis.HGetAll` | services/realtime_stats.py:125-129 | exactly the hash's fields and values |
| `Redis.SAdd` | services/realtime_stats.py:67 | the set gains the member; no other set changes |
| `Redis.SCard` | services/realtime_stats.py:118 | the size of the set |
| `Redis.SAddCard` | services/realtime_stats.py:67-71 | adding grows a set by one iff the member is new |
| `Redis.SAddIdempotent` | services/realtime_stats.py:67 | adding twice is adding once |
| `Redis.Delete` | services/realtime_stats.py:270 | the key is gone as hash and set; no other key changes |
| `Redis.ExecuteKeepsField` | services/realtime_stats.py:62-94 | commands that do not write a field leave it alone |
| `Redis.ExecuteCounter` | services/realtime_stats.py:62-94 | a field one command increments gains that amount |
| `Redis.ExecuteSet` | services/realtime_stats.py:62-94 | a field last written by `HSET` holds that value |
| `Redis.ExecuteKeepsSet` | services/realtime_stats.py:62-94 | commands that add nothing to a set leave it alone |
| `Redis.ExecuteAdd` | services/realtime_stats.py:62-94 | a set one command adds to gains that member |
| `Monitor.ClassifyStatus` | services/system_monitor.py:71-79 | critical iff CPU or memory is above 90; warning iff not and one is above 70; normal otherwise |
| `Monitor.StatusMonotone` | services/system_monitor.py:71-79 | more load never gives a milder status |
| `Monitor.ErrorRate` | services/system_monitor.py:82 | errors per request, in percent, with at least one request as divisor |
| `Monitor.ErrorRateBounds` | services/system_monitor.py:82 | a percentage when errors do not exceed requests, and 0 with no requests |
| `Monitor.AverageRecent` | services/system_monitor.py:67-68 | 0 for an empty log; otherwise the mean of the last 100 logged times, whose count times the average is their sum |
| `Monitor.AverageRecentBounds` | services/system_monitor.py:67-68 | the recent average lies between any bounds of the logged times, and an empty log's 0 within any bounds around 0 |
| `Monitor.PerformanceTrend` | services/system_monitor.py:194-228 | not enough data under 10 times, not enough history under 100, otherwise an error iff the older fifty average to zero, and else the reported change is the percentage change from the older fifty's mean to the recent fifty's |
| `Monitor.TrendThresholds` | services/system_monitor.py:209-228 | for a positive older average: improving iff the recent sum is under 90% of the older, degrading iff over 110%, else stable |
| `Monitor.Retained` | services/system_monitor.py:186-192 | keeps exactly the buckets whose key does not compare below the cutoff, unchanged |
| `Monitor.RetentionWindow` | services/system_monitor.py:181-192 | the string comparison keeps exactly the buckets of the last 25 hours |
| `Monitor.RecordedBucket` | services/system_monitor.py:129-145 | the current hour's bucket gains the request, its time and the error iff there was one; every other kept bucket is unchanged |
| `Monitor.SummaryOf` | services/system_monitor.py:160-177 | zeros for an hour without a bucket; otherwise the bucket's counts, an average that times the request count (at least 1) gives the bucket's total time, and the bucket's error rate |
| `Monitor.HourKeyBackDistinct` | services/system_monitor.py:156-158 | distinct offsets name distinct hours |
| `Monitor.HourKeysBackMembers` | services/system_monitor.py:156-158 | the key `j` hours back is among the last `n` hours' keys iff `j < n` |
| `Monitor.HourKeysBackCount` | services/system_monitor.py:156-158 | the last `n` hours have `n` keys |
| `Monitor.HourlyReportKeys` | services/system_monitor.py:151-179 | the report holds exactly the last `n` hours' keys, `n` of them |
| `Monitor.HourlyReportEntries` | services/system_monitor.py:151-179 | each hour's entry is its bucket's summary |
| `Monitor.SystemMonitor.constructor` | services/system_monitor.py:18-28 | all counters zero, empty log and rollups, no error |
| `Monitor.SystemMonitor.RecordRequest` | services/system_monitor.py:115-145 | one more request, one more error iff failed, the time logged last with at most 1000 kept, the error time and first 100 characters on failure, the bucket updated and old buckets dropped |
| `Monitor.SystemMonitor.RecordOutcome` | services/system_monitor.py:117-127 | the counters, the capped log and the last error |
| `Monitor.SystemMonitor.BumpHour` | services/system_monitor.py:131-142 | the current bucket, created empty when missing, gains the request |
| `Monitor.SystemMonitor.RecordApiCall` | services/system_monitor.py:147-149 | the call counter gains one |
| `Monitor.SystemMonitor.CleanupOldStats` | services/system_monitor.py:181-192 | the deletion loop leaves exactly `Retained` |
| `Monitor.SystemMonitor.GetHourlyStats` | services/system_monitor.py:151-179 | the loop builds the report of the last `hours` hours |
| `Monitor.SystemMonitor.StatusReport` | services/system_monitor.py:63-103 | critical iff CPU or memory is above 90, warning iff not critical and one is above 70; the counters and uptime as recorded; the error rate is errors per hundred requests and 0 without requests; the average is the mean of the last 100 times and 0 with an empty log; the last error as recorded, or `无` when there is none |
| `Users.NewRecord` | services/user_service.py:48-69 | zero counters, join and activity at `now`, default settings, no usage, the user's profile |
| `Users.Registered` | services/user_service.py:43-80 | a new user gets a fresh record; a known one only its profile and last activity; no other user changes |
| `Users.Touch` | services/user_service.py:93-120 | total +1; today reset to 1 on a new day else +1; week reset to 1 before the week start else +1; activity `now`; today's usage +1; nothing else changes |
| `Users.Touched` | services/user_service.py:86-122 | an unregistered id changes nothing; a registered one is touched; no other user changes |
| `Users.TouchConsistent` | services/user_service.py:99-120 | with a clock that does not go back, the day counter stays the current day's usage |
| `Users.NewRecordConsistent` | services/user_service.py:48-69 | a fresh record is consistent |
| `Users.ReRegisterCarriesDayCount` | services/user_service.py:72-103 | re-registering on a new day makes the next message continue the old day count |
| `Users.WeekResetsWithinMonday` | services/user_service.py:106-110 | on a Monday, a message from earlier that day resets the week count |
| `Users.UserLevel` | services/user_service.py:145-158 | the level's rank is the number of thresholds 100/500/1000/2000/5000 reached |
| `Users.LevelMonotone` | services/user_service.py:145-158 | more messages never mean a lower level |
| `Users.Tier` | services/user_service.py:168-189 | no badge iff no threshold is reached; otherwise the name of the highest threshold reached |
| `Users.TierBands` | services/user_service.py:169-189 | each family's tier is its if/elif chain: the highest band reached wins |
| `Users.BadgeList` | services/user_service.py:160-189 | at most three badges, none iff all three measures are below their first thresholds |
| `Users.BadgeBands` | services/user_service.py:160-189 | the badges are the activity, loyalty and daily bands' badges, in that order, each present only when reached |
| `Users.UserBadges` | services/user_service.py:191 | the no-badge text iff there is no badge |
| `Users.Exchange` | services/user_service.py:197-211 | the last 20 of the history plus the two messages, which come last |
| `Users.ExchangePairs` | services/user_service.py:204-211 | an even history stays even |
| `Users.UserService.constructor` | services/user_service.py:18-22 | the loaded users, no history |
| `Users.UserService.RegisterUser` | services/user_service.py:43-80 | the users become `Registered` |
| `Users.UserService.UpdateUserActivity` | services/user_service.py:86-122 | the users become `Touched` |
| `Users.UserService.AddToConversationHistory` | services/user_service.py:197-211 | only this user's history changes, to `Exchange` |
| `Users.UserService.ClearConversationHistory` | services/user_service.py:213-217 | only this user's history is removed |
| `Users.UserService.UpdateUserSetting` | services/user_service.py:219-228 | nothing for an unknown user; otherwise only that setting |
| `Users.UserService.GetActiveUsersToday` | services/user_service.py:234-244 | the loop counts the users whose stamp starts with today's date |
| `Users.Stamp` | services/user_service.py:113 | a 16-character stamp starting with the day's date |
| `Users.StampOnDay` | services/user_service.py:241 | a stamp starts with a date iff it is on that day |
| `Users.ActiveTodayMeaning` | services/user_service.py:234-244 | the active-today users are those whose last activity is on the current day |
| `TimeKeys.Weekday` | services/user_service.py:106 | Monday 0 to Sunday 6 |
| `TimeKeys.DayKey` | services/realtime_stats.py:52 | a seven-character date |
| `TimeKeys.HourKey` | services/realtime_stats.py:53 | a ten-character hour key |
| `TimeKeys.MinuteKey` | services/realtime_stats.py:54 | a thirteen-character minute key |
| `TimeKeys.DayKeyOrder` | services/realtime_stats.py:52 | day keys compare as strings as their days compare, and are equal iff the days are |
| `TimeKeys.DayKeySame` | services/realtime_stats.py:52 | two instants share a day key iff they are on one day |
| `TimeKeys.HourKeyOrder` | services/system_monitor.py:183-189 | hour keys compare as strings as their hours compare, and are equal iff the hours are |
| `TimeKeys.HourKeySame` | services/realtime_stats.py:53 | two instants share an hour key iff they are in one hour |
| `TimeKeys.DayIndexBack` | services/realtime_stats.py:269 | going back `n` days moves the day back by `n` |
| `TimeKeys.HourIndexBack` | services/system_monitor.py:183 | going back `n` hours moves the hour back by `n` |
| `Text.Strip` | utils/helpers.py:107 | stripped, empty iff blank, a stripped text unchanged |
| `Text.StripMargins` | utils/helpers.py:107 | the input is the stripped text with only whitespace before and after it |
| `Text.StripKeepsNonSpace` | utils/helpers.py:107 | stripping keeps every non-whitespace character, in order |
| `Text.SplitOn` | utils/helpers.py:19 | at least one piece; joined with the separator they give the text back |
| `Text.SplitOnLeftmost` | utils/helpers.py:19 | no piece contains the separator, and every cut is at the leftmost occurrence: no occurrence starts inside a piece and runs into the separator after it |
| `Text.SplitOnChars` | utils/helpers.py:30 | one piece more than the input has delimiters, none containing a delimiter |
| `Text.SplitOnCharsRoundTrip` | utils/helpers.py:30 | putting the delimiters back between the pieces gives the input |
| `Text.Words` | utils/helpers.py:79 | non-empty tokens without whitespace |
| `Text.WordsSpaced` | utils/helpers.py:79 | the tokens are maximal runs: the text is a whitespace run, the first token, a non-empty whitespace run, the next token, and so on, ending with a whitespace run |
| `Text.WordsOfSpaced` | utils/helpers.py:79 | conversely, the tokens of whitespace-separated pieces without whitespace are exactly the non-empty pieces |
| `Text.WordsStrip` | utils/helpers.py:79 | stripping first does not change the tokens |
| `Text.WordsCoverText` | utils/helpers.py:79 | the tokens concatenated are the non-whitespace characters; none iff blank |
| `Text.NatToString` | config/config.py:58 | digits whose value is the number, with no leading zero |
| `Text.IntToStringInjective` | services/user_service.py:45 | distinct ids are distinct keys |
| `Text.SliceTo` | utils/helpers.py:119 | a prefix, with Python's clamping and negative bounds: the whole text for a bound at or past its length, empty for a bound below minus its length |
| `Text.Slice` | core/bot.py:148 | the slice for in-range bounds, the rest of the text when only the end is past it, and empty when the start is past the end or the text |
| `Text.Tail` | services/user_service.py:209-210 | the last `n` elements, or all of them |
| `Text.TailOfAppend` | core/handlers/messages.py:165 | elements before the last `n` do not reach the tail |

## Left out

- Telegram I/O is not modelled: replies, message edits, keyboards, typing actions, reactions and the fixed message texts. Screens are named, not rendered. `core/handlers/commands.py`, `core/handlers/media.py`, `services/media_service.py`, `main.py` and `scripts/` are not part of this model.
- The chat model (`services/openai_service.py`) is not part of this model. Its answer is a parameter of `Messages.ProcessAiChat`.
- `handle_text_message` is not modelled as a whole: its orchestration, its typing delay and its random reaction are left out. Its parts are modelled: `should_respond`, special commands, the AI chat and the smart reply.
- Python's `eval` in the calculator is not modelled. `Messages.CalculationReply` decides only whether the expression is evaluated, not its value or the error reply.
- `is_valid_url` is not modelled, because its regex depends on Python's Unicode classes.
- The following are not modelled: the psutil host sampling, uptime formatting, `get_performance_metrics` and `get_system_status_summary`. CPU and memory percentages are inputs to `Monitor.ClassifyStatus` and `Monitor.SystemMonitor.StatusReport`.
- Redis specifics not modelled:
  - The Redis connection is abstracted: `initialize` takes the connection outcome and the server contents as parameters.
  - A failed pipeline is a `pipelineOk` flag.
  - `EXPIRE` is a no-op, so key time-to-live is not modelled.
  - Values that are not integers are not modelled. A timestamp field is refused by `HINCRBY` and read as 0 by `Count`.
- Redis-mode statistics that depend on the server's other clients are not modelled.
- Concurrency is not modelled. Every operation is atomic; the background hourly task and asyncio interleavings are not modelled.
- Clock and text formats:
  - Clocks are parameters. Instants are whole seconds, and response times are `real` seconds.
  - `datetime.isoformat()` microseconds are not modelled.
  - Calendar dates are rendered as the zero-padded day index.
  - `last_updated` clock texts are left out.
  - One-decimal percentage rendering is left out.
- Operations that compute bucket keys require the instant to lie in Python's datetime range (`TimeKeys.InRange`), where Python would raise `OverflowError` outside it.
- Text semantics:
  - `str.lower`, `re.IGNORECASE` and `str.isdigit` are ASCII-only.
  - `\s` and `str.strip` use the Unicode whitespace set of `Text.IsSpace`.
  - The regex engine is modelled only for the three translation patterns and the `计算` pattern.
- Mention offsets are modelled as code-point offsets. Telegram counts them in UTF-16 units.
- JSON persistence is not modelled: `load_users_data` and `save_users_data`.
- Also not modelled:
  - the `weekly_usage` and `favorite_features` record fields, which nothing updates;
  - `get_user_data`, `get_user_stats`, `get_all_users_count` and `get_conversation_context`, which are plain lookups (`get_conversation_context` is `UserService.ConversationContext`).
- `log_user_action`, `typing_action` and `error_handler` only log or send, and are not modelled.
- The `@rate_limit` call sites apply the decorator without arguments. That misuse is not modelled: the wrapper is modelled with explicit limit and window.
- The Redis close and cleanup at shutdown are not modelled.
- `GetPerformanceTrend` and `Bot.IsAdmin` are stated through `Monitor.PerformanceTrend` and `Bot.AdminFromEnv` rather than contracts of their own.
- RealTimeStats.StatsManager.GetRealTimeStats: in Redis mode it states only that the online figure is at least every one of the five minute counters. The exact value is the contract of `RealTimeStats.StatsManager.OnlineUsersCount`.
- Decorators.MonitorPerformance: the monitor's response-time log and hourly buckets are stated only through `Monitor.SystemMonitor.RecordRequest`, which it calls; its own contract names the counters, the last logged time and the error text.
- Redis read failures are not modelled: store reads always succeed. The exception paths that return the error snapshot of `get_real_time_stats` (services/realtime_stats.py:173-179), an online count of 0 (services/realtime_stats.py:205-207) and the error dictionaries of `get_user_statistics` and `get_performance_metrics` (services/realtime_stats.py:229-231, 254-256) are left out.
- RealTimeStats.PipelineCommands: its contract states only the number of commands. Their effect is stated by the pipeline lemmas beside it.
- Callbacks.Insert and Callbacks.SortByCount: their contracts state the permutation. Order and stability are stated by `Callbacks.SortDescending` and `Callbacks.SortStable`.
