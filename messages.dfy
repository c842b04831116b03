/**
 * The text-message handler's decisions: whether to answer at all, which
 * special command a text asks for (translation, calculation, weather), what
 * the translation and calculation requests extract from the text, the prompt
 * built for an ordinary chat turn and the messages a reply is sent as.
 *
 * The chat model's answer, Python's `eval` and the Telegram calls are not
 * modelled; the answer is a parameter.
 */
module Messages {
  import opened Wrappers
  import opened Text
  import Bot
  import Helpers
  import Users

  /** `should_respond`: private chats are always answered; in a group the
      message must mention the bot or reply to it. */
  function ShouldRespond(chatType: string, botInfo: Option<Bot.BotInfo>, message: Option<Bot.Message>): (respond: bool)
    ensures chatType == "private" ==> respond
    ensures chatType != "private" && (botInfo.None? || message.None? || message.value.text.None? || message.value.text.value == [])
            ==> !respond
    ensures chatType != "private" && botInfo.Some? && message.Some? && message.value.text.Some? && message.value.text.value != [] ==>
              (respond <==>
                 (exists i :: 0 <= i < |message.value.entities|
                              && Bot.MentionsBot(message.value.entities[i], message.value.text.value, botInfo.value.username))
                 || message.value.replyFromId == Some(botInfo.value.id))
  {
    chatType == "private" || Bot.ShouldRespondInGroup(botInfo, message)
  }

  // ---------------------------------------------------------------------
  // Special commands

  /** The three special commands, in the order they are tried. */
  datatype Kind = Translation | Calculation | Weather

  /** `text.lower().strip()`. */
  function Lowered(text: string): string {
    Strip(Lower(text))
  }

  /** The single-character operators `+ - * / =`, looked for in the text as
      typed. */
  const Operators: set<char> := {'+', '-', '*', '/', '='}

  predicate AsksTranslation(low: string) {
    Contains(low, "翻译") || Contains(low, "translate") || Contains(low, "译")
  }

  predicate HasOperator(text: string) {
    exists i :: 0 <= i < |text| && text[i] in Operators
  }

  predicate AsksCalculation(text: string, low: string) {
    HasOperator(text) || Contains(low, "计算")
  }

  predicate AsksWeather(low: string) {
    Contains(low, "天气") || Contains(low, "weather")
  }

  /** The classification `process_special_commands` makes: the first
      command, in the fixed order translation, calculation, weather, whose
      trigger the text has. */
  function Classify(text: string): (k: Option<Kind>)
    ensures k == Some(Translation) <==> AsksTranslation(Lowered(text))
    ensures k == Some(Calculation) <==> !AsksTranslation(Lowered(text)) && AsksCalculation(text, Lowered(text))
    ensures k == Some(Weather) <==>
              !AsksTranslation(Lowered(text)) && !AsksCalculation(text, Lowered(text)) && AsksWeather(Lowered(text))
    ensures k.None? ==> !AsksTranslation(Lowered(text)) && !AsksCalculation(text, Lowered(text)) && !AsksWeather(Lowered(text))
  {
    var low := Lowered(text);
    if AsksTranslation(low) then Some(Translation)
    else if AsksCalculation(text, low) then Some(Calculation)
    else if AsksWeather(low) then Some(Weather)
    else None
  }

  /** The keyword `翻译` contains `译`, so translation is asked for exactly
      when the lowered text contains `translate` or `译`. */
  lemma TranslationTrigger(low: string)
    ensures AsksTranslation(low) <==> Contains(low, "translate") || Contains(low, "译")
  {
    if Contains(low, "翻译") {
      assert "翻译" == "翻" + "译";
      ContainsSuffixOf(low, "翻", "译");
    }
  }

  /** A text with an operator and a weather word is a calculation request:
      `C++ weather` goes to the calculator, which then refuses it. */
  lemma OperatorBeatsWeather()
    ensures Classify("C++ weather") == Some(Calculation)
    ensures CalculationReply("C++ weather") == Unsupported
  {
    NoTranslationInCpp();
    NoKeywordInCpp();
    CppRejected();
    assert "C++ weather"[1] in Operators;
  }

  lemma CppRejected()
    ensures !Admissible("C++ weather")
  {
    var t := "C++ weather";
    assert t[0] == 'C' && 'C' !in Allowed;
    RejectedAt(t, 0);
  }

  /** One character outside the allowed set rejects the expression. */
  lemma RejectedAt(e: string, i: nat)
    requires i < |e| && e[i] !in Allowed
    ensures !Admissible(e)
  {
    AdmissibleChars(e);
  }

  lemma NoTranslationInCpp()
    ensures !AsksTranslation(Lowered("C++ weather"))
  {
    var t := "C++ weather";
    forall i | 0 <= i < |t|
      ensures LowerChar(t[i]) != 'n' && LowerChar(t[i]) != '译'
    {
    }
    NoTranslationWithout(t);
  }

  /** Without an `n` or a `译`, none of the translation triggers occurs. */
  lemma NoTranslationWithout(text: string)
    requires forall i :: 0 <= i < |text| ==> LowerChar(text[i]) != 'n' && LowerChar(text[i]) != '译'
    ensures !AsksTranslation(Lowered(text))
  {
    var l := Lower(text);
    assert 'n' !in l && '译' !in l;
    var low := Strip(l);
    StripChars(l);
    if Contains(low, "translate") {
      ContainsChar(low, "translate", 'n');
    }
    if Contains(low, "译") {
      ContainsChar(low, "译", '译');
    }
    TranslationTrigger(low);
  }

  lemma NoKeywordInCpp()
    ensures CalcExpression("C++ weather") == "C++ weather"
  {
    var t := "C++ weather";
    assert IsStripped(t) && '计' !in t;
    NoKeywordWithout(t);
  }

  /** Without a `计`, the calculation keyword does not occur and the whole
      stripped text is the expression. */
  lemma NoKeywordWithout(text: string)
    requires IsStripped(text) && '计' !in text
    ensures CalcExpression(text) == text
  {
    SearchFound(text, "计算", false);
    if Contains(text, "计算") {
      ContainsChar(text, "计算", '计');
    }
  }

  // ---------------------------------------------------------------------
  // Pattern search: `re.search(keyword + r'[:：]\s*(.+)', text)`

  /** The two colons a keyword may be followed by. */
  const Colons: set<char> := {':', '：'}

  /** What `.+` can match: the text up to the first newline. */
  function LineOf(s: string): (r: string)
    ensures |r| <= |s| && r == s[..|r|] && '\n' !in r
    ensures |r| == |s| || s[|r|] == '\n'
  {
    if s == [] || s[0] == '\n' then [] else [s[0]] + LineOf(s[1..])
  }

  predicate OnlyNewlines(t: string) {
    forall i :: 0 <= i < |t| ==> t[i] == '\n'
  }

  /** The group `\s*(.+)` captures at the start of `t`, stripped. Greedy
      `\s*` stops at the first non-whitespace character and `(.+)` runs to
      the end of that line; when the rest is blank the match backs off into
      the whitespace, which strips to nothing; and when the rest holds only
      newlines, which `.` does not match, there is no match here. */
  function Capture(t: string): (r: Option<string>)
    ensures r.None? <==> OnlyNewlines(t)
    ensures r.Some? ==> IsStripped(r.value) && '\n' !in r.value
  {
    var w := LStrip(t);
    LStripEmpty(t);
    assert OnlyNewlines(t) ==> AllSpace(t);
    if w != [] then
      var line := LineOf(w);
      StripChars(line);
      Some(Strip(line))
    else if OnlyNewlines(t) then None
    else Some([])
  }

  /** The keyword at the start of `text`, compared ignoring ASCII case when
      `ignoreCase` is set (`re.IGNORECASE`). */
  predicate KeywordAt(text: string, kw: string, ignoreCase: bool)
    requires |kw| <= |text|
  {
    (if ignoreCase then Lower(text[..|kw|]) else text[..|kw|]) == kw
  }

  /** `re.search`: the capture at the first position where the keyword, a
      colon and a successful capture follow. */
  function Search(text: string, kw: string, ignoreCase: bool): (r: Option<string>)
    ensures r.Some? ==> IsStripped(r.value) && '\n' !in r.value
    decreases |text|
  {
    if |text| < |kw| + 1 then None
    else if KeywordAt(text, kw, ignoreCase) && text[|kw|] in Colons && Capture(text[|kw| + 1..]).Some? then
      Capture(text[|kw| + 1..])
    else Search(text[1..], kw, ignoreCase)
  }

  /** A pattern only matches where its keyword occurs. */
  lemma {:induction false} SearchFound(text: string, kw: string, ignoreCase: bool)
    ensures Search(text, kw, ignoreCase).Some? ==> Contains(if ignoreCase then Lower(text) else text, kw)
    decreases |text|
  {
    var t := if ignoreCase then Lower(text) else text;
    if |text| >= |kw| + 1 {
      assert t[..|kw|] == (if ignoreCase then Lower(text[..|kw|]) else text[..|kw|]);
      assert (if ignoreCase then Lower(text[1..]) else text[1..]) == t[1..];
      SearchFound(text[1..], kw, ignoreCase);
    }
  }

  // ---------------------------------------------------------------------
  // Translation

  const TranslationHint: string := "请使用格式: 翻译: 要翻译的内容"

  /** The text to translate: the first of the three patterns, in the order
      `翻译`, `translate`, `译`, that matches anywhere in the text. */
  function TranslationText(text: string): (r: Option<string>)
    ensures r.Some? ==> IsStripped(r.value) && '\n' !in r.value
  {
    match Search(text, "翻译", true)
    case Some(c) => Some(c)
    case None =>
      match Search(text, "translate", true)
      case Some(c) => Some(c)
      case None => Search(text, "译", true)
  }

  /** `handle_translation_request`. */
  function TranslationReply(text: string): (reply: string)
    ensures TranslationText(text).None? <==> reply == TranslationHint
  {
    match TranslationText(text)
    case Some(c) => "🌐 **翻译结果:**\n\n原文: " + c + "\n译文: [需要集成翻译API]"
    case None => TranslationHint
  }

  /** A text that names neither `translate` nor `译` gets the format hint. */
  lemma HintWithoutKeyword(text: string)
    requires !Contains(Lower(text), "translate") && !Contains(Lower(text), "译")
    ensures TranslationReply(text) == TranslationHint
  {
    SearchFound(text, "翻译", true);
    SearchFound(text, "translate", true);
    SearchFound(text, "译", true);
    TranslationTrigger(Lower(text));
  }

  /** The patterns are tried in order, not by position: in
      `译:<first> 翻译:<second>` the `翻译` pattern wins although `译:` comes
      first (`译:a 翻译:b` gives `b`). */
  lemma PatternOrderBeatsPosition(first: string, second: string)
    requires '翻' !in first
    requires second != [] && NoSpace(second) && '\n' !in second
    ensures TranslationText("译:" + first + " 翻译:" + second) == Some(second)
  {
    var pre := "译:" + first + " ";
    var rest := "翻译:" + second;
    assert "译:" + first + " 翻译:" + second == pre + rest;
    forall i | 0 <= i < |pre|
      ensures pre[i] != '翻' && LowerChar(pre[i]) != '翻'
    {
      if 2 <= i < |pre| - 1 {
        assert pre[i] == first[i - 2];
      }
    }
    SearchSkipPrefix(pre, rest, "翻译", true);
    KeywordFirst(second);
  }

  /** The keyword `翻译`, a colon and a word: the word is captured. */
  lemma KeywordFirst(w: string)
    requires w != [] && NoSpace(w) && '\n' !in w
    ensures Search("翻译:" + w, "翻译", true) == Some(w)
  {
    var kw := "翻译";
    assert Lower(kw) == kw;
    assert kw + [':'] == "翻译:";
    SearchAtKeyword(kw, ':', "", w, true);
    EmptyPad(kw + [':'], w);
  }

  lemma EmptyPad(head: string, w: string)
    ensures head + "" + w == head + w
  {
    assert head + "" == head;
  }

  /** Characters that cannot start the keyword are passed over. */
  lemma {:induction false} SearchSkipPrefix(pre: string, rest: string, kw: string, ignoreCase: bool)
    requires |kw| > 0 && |rest| >= |kw| + 1
    requires forall i :: 0 <= i < |pre| ==> pre[i] != kw[0] && LowerChar(pre[i]) != kw[0]
    ensures Search(pre + rest, kw, ignoreCase) == Search(rest, kw, ignoreCase)
    decreases |pre|
  {
    if pre != [] {
      var t := pre[1..] + rest;
      assert pre + rest == [pre[0]] + t;
      SearchSkip(pre[0], t, kw, ignoreCase);
      SearchSkipPrefix(pre[1..], rest, kw, ignoreCase);
    } else {
      assert pre + rest == rest;
    }
  }

  /** A position whose character cannot start the keyword is passed over. */
  lemma SearchSkip(c: char, t: string, kw: string, ignoreCase: bool)
    requires |kw| > 0 && |t| >= |kw| && c != kw[0] && LowerChar(c) != kw[0]
    ensures Search([c] + t, kw, ignoreCase) == Search(t, kw, ignoreCase)
  {
    var text := [c] + t;
    assert text[1..] == t;
    if ignoreCase {
      assert Lower(text[..|kw|])[0] == LowerChar(c);
    } else {
      assert text[..|kw|][0] == c;
    }
  }

  /** The keyword, a colon, some whitespace and a word: the word is
      captured. */
  lemma SearchAtKeyword(kw: string, colon: char, pad: string, w: string, ignoreCase: bool)
    requires Lower(kw) == kw && colon in Colons && AllSpace(pad) && w != [] && NoSpace(w) && '\n' !in w
    ensures Search(kw + [colon] + pad + w, kw, ignoreCase) == Some(w)
  {
    var text := kw + [colon] + pad + w;
    assert text[..|kw|] == kw && text[|kw|] == colon;
    assert text[|kw| + 1..] == pad + w;
    CaptureAfterSpaces(pad, w);
  }

  /** Leading whitespace, then a word without whitespace or newline: the
      capture is the word. */
  lemma CaptureAfterSpaces(pad: string, w: string)
    requires AllSpace(pad) && w != [] && NoSpace(w) && '\n' !in w
    ensures Capture(pad + w) == Some(w)
  {
    LStripPad(pad, w);
    var line := LineOf(w);
    assert line == w;
    assert IsStripped(w);
  }

  lemma {:induction false} LStripPad(pad: string, w: string)
    requires AllSpace(pad) && (w == [] || !IsSpace(w[0]))
    ensures LStrip(pad + w) == w
  {
    if pad == [] {
      assert pad + w == w;
    } else {
      assert (pad + w)[1..] == pad[1..] + w;
      LStripPad(pad[1..], w);
    }
  }

  // ---------------------------------------------------------------------
  // Calculation

  /** The characters `allowed_chars` holds. */
  const Allowed: set<char> := {'0', '1', '2', '3', '4', '5', '6', '7', '8', '9', '+', '-', '*', '/', '.', '(', ')', ' '}

  /** The expression: what follows `计算:` or `计算：` when present (matched
      case-sensitively), else the whole text, stripped. */
  function CalcExpression(text: string): (e: string)
    ensures IsStripped(e)
  {
    match Search(text, "计算", false)
    case Some(e) => e
    case None => Strip(text)
  }

  /** `all(c in allowed_chars for c in expression.replace(' ', ''))`. */
  predicate Admissible(e: string) {
    var bare := ReplaceAll(e, " ", "");
    forall i :: 0 <= i < |bare| ==> bare[i] in Allowed
  }

  /** The characters left after removing the spaces are exactly the
      non-space characters. */
  lemma {:induction false} UnspacedChars(e: string)
    ensures forall c :: c in ReplaceAll(e, " ", "") <==> c in e && c != ' '
    decreases |e|
  {
    if |e| >= 1 {
      UnspacedChars(e[1..]);
      assert e == [e[0]] + e[1..];
      if e[..1] == " " {
        assert ReplaceAll(e, " ", "") == ReplaceAll(e[1..], " ", "");
      } else {
        assert ReplaceAll(e, " ", "") == [e[0]] + ReplaceAll(e[1..], " ", "");
      }
    }
  }

  /** Removing the spaces first changes nothing, since the space is itself
      allowed: an expression is admitted exactly when every character is a
      digit, an operator, a point, a parenthesis or a space. */
  lemma AdmissibleChars(e: string)
    ensures Admissible(e) <==> forall i :: 0 <= i < |e| ==> e[i] in Allowed
  {
    UnspacedChars(e);
    var bare := ReplaceAll(e, " ", "");
    if Admissible(e) {
      forall i | 0 <= i < |e|
        ensures e[i] in Allowed
      {
        if e[i] != ' ' {
          assert e[i] in bare;
        }
      }
    }
    if forall i :: 0 <= i < |e| ==> e[i] in Allowed {
      forall i | 0 <= i < |bare|
        ensures bare[i] in Allowed
      {
        assert bare[i] in e;
      }
    }
  }

  /** What the calculator does with the text: evaluate the expression, or
      refuse it with "只支持基本数学运算". */
  datatype CalcOutcome = Evaluate(expression: string) | Unsupported

  /** The admission filter of `handle_calculation_request`. */
  function CalculationReply(text: string): (out: CalcOutcome)
    ensures out.Evaluate? ==> out.expression == CalcExpression(text)
    ensures out.Evaluate? <==> forall i :: 0 <= i < |CalcExpression(text)| ==> CalcExpression(text)[i] in Allowed
  {
    var e := CalcExpression(text);
    AdmissibleChars(e);
    if Admissible(e) then Evaluate(e) else Unsupported
  }

  /** The expression is taken after the keyword: `计算: 1+1` evaluates
      `1+1`. */
  lemma ExpressionAfterKeyword()
    ensures CalculationReply("计算: 1+1") == Evaluate("1+1")
  {
    KeywordExpression();
    AdmissibleChars("1+1");
  }

  lemma KeywordExpression()
    ensures CalcExpression("计算: 1+1") == "1+1"
  {
    var pad, w := " ", "1+1";
    assert "计算" + [':'] + pad + w == "计算: 1+1";
    assert AllSpace(pad) && NoSpace(w) && '\n' !in w;
    CalcAfterKeyword(pad, w);
  }

  /** The keyword, a colon, whitespace and a word: the word is the
      expression. */
  lemma CalcAfterKeyword(pad: string, w: string)
    requires AllSpace(pad) && w != [] && NoSpace(w) && '\n' !in w
    ensures CalcExpression("计算" + [':'] + pad + w) == w
  {
    var kw := "计算";
    assert Lower(kw) == kw;
    SearchAtKeyword(kw, ':', pad, w, false);
  }

  // ---------------------------------------------------------------------
  // Special commands together

  /** The reply of a special command. */
  datatype SpecialReply =
    | Translated(reply: string)
    | Calculated(outcome: CalcOutcome)
    | WeatherSoon

  /** `process_special_commands`: `None` sends the text to the chat model. */
  function ProcessSpecialCommands(text: string): (r: Option<SpecialReply>)
    ensures r.None? <==> Classify(text).None?
    ensures Classify(text) == Some(Translation) ==> r == Some(Translated(TranslationReply(text)))
    ensures Classify(text) == Some(Calculation) ==> r == Some(Calculated(CalculationReply(text)))
    ensures Classify(text) == Some(Weather) ==> r == Some(WeatherSoon)
  {
    match Classify(text)
    case None => None
    case Some(Translation) => Some(Translated(TranslationReply(text)))
    case Some(Calculation) => Some(Calculated(CalculationReply(text)))
    case Some(Weather) => Some(WeatherSoon)
  }

  // ---------------------------------------------------------------------
  // Chat turns

  /** How many history entries the prompt carries. */
  const PromptEntries: nat := 10

  /** The prompt `process_ai_chat` sends: the last ten history entries, one
      per line, then the user's text. */
  function Prompt(history: seq<string>, text: string): (p: string)
    ensures EndsWith(p, "用户: " + text)
    ensures history == [] ==> p == "用户: " + text
    ensures history != [] ==> StartsWith(p, Join(Tail(history, PromptEntries), "\n") + "\n")
    ensures history != [] ==> |p| == |Join(Tail(history, PromptEntries), "\n")| + 1 + |"用户: " + text|
  {
    var line := "用户: " + text;
    if history != [] then
      var head := Join(Tail(history, PromptEntries), "\n") + "\n";
      ConcatEnds(head, line);
      head + line
    else
      ConcatEnds([], line);
      assert [] + line == line;
      line
  }

  /** Only the last ten entries reach the prompt: older history does not
      change it. */
  lemma PromptKeepsLastTen(older: seq<string>, recent: seq<string>, text: string)
    requires |recent| >= PromptEntries
    ensures Prompt(older + recent, text) == Prompt(recent, text)
  {
    TailOfAppend(older, recent, PromptEntries);
  }

  /** With one entry the prompt is that entry, a newline and the text. */
  lemma PromptOneEntry(entry: string, text: string)
    ensures Prompt([entry], text) == entry + "\n用户: " + text
  {
  }

  /** `process_ai_chat`: the prompt is built from the stored history, and
      the turn, the user's text and the model's `answer`, is appended to
      it. */
  method ProcessAiChat(service: Users.UserService, userId: int, text: string, answer: string)
    returns (prompt: string, reply: string)
    modifies service`conversationHistory
    ensures prompt == Prompt(old(service.ConversationContext(userId)), text)
    ensures reply == answer
    ensures service.conversationHistory ==
              old(service.conversationHistory)[userId := Users.Exchange(old(service.ConversationContext(userId)),
                                                                          "用户: " + text, "助手: " + answer)]
  {
    var history := service.ConversationContext(userId);
    prompt := Prompt(history, text);
    reply := answer;
    service.AddToConversationHistory(userId, "用户: " + text, "助手: " + answer);
  }

  /** The stored history after a chat turn ends with exactly that turn. */
  lemma ChatTurnRecorded(history: seq<string>, text: string, answer: string)
    ensures var h := Users.Exchange(history, "用户: " + text, "助手: " + answer);
            |h| >= 2 && h[|h| - 2] == "用户: " + text && h[|h| - 1] == "助手: " + answer
  {
    var h := Users.Exchange(history, "用户: " + text, "助手: " + answer);
    assert h[|h| - 2..][0] == h[|h| - 2];
  }

  // ---------------------------------------------------------------------
  // Sending

  /** The messages `send_smart_reply` sends, in order: the reply itself when
      it fits, else the parts of `split_long_message`. */
  function SmartReply(response: string, maxLength: int): (sent: seq<string>)
    ensures |response| <= maxLength ==> sent == [response]
    ensures |response| > maxLength ==> Helpers.AllStripped(sent)
  {
    if |response| <= maxLength then [response]
    else
      Helpers.SplitStripped(response, maxLength);
      Helpers.SplitLong(response, maxLength)
  }

  /** The length test in `send_smart_reply` repeats the one at the top of
      `split_long_message`, so the reply is always sent as the split's
      parts. */
  lemma SmartReplyIsSplit(response: string, maxLength: int)
    ensures SmartReply(response, maxLength) == Helpers.SplitLong(response, maxLength)
  {
  }
}
