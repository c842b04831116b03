/**
 * The text helpers: splitting a long reply into messages, Markdown escaping,
 * command tokenising, truncation, relative-time labels and text cleaning.
 */
module Helpers {
  import opened Wrappers
  import opened Text
  import opened TimeKeys

  const DefaultSplitLength: int := 4000

  /** What `split_long_message` has built so far: the finished parts and
      the part being filled. */
  datatype Acc = Acc(parts: seq<string>, current: string)

  /** The sentence delimiters of the split: `[.!?。！？]`. */
  const Punctuation: set<char> := {'.', '!', '?', '。', '！', '？'}

  /** One sentence of a paragraph too long for a part: blank sentences are
      skipped; otherwise the stripped sentence with a `。` joins the current
      part when it fits, and else starts a new one. */
  function SentenceStep(acc: Acc, sentence: string, maxLength: int): Acc {
    var s := Strip(sentence);
    if s == [] then acc
    else
      var piece := s + "。";
      if |acc.current| + |piece| <= maxLength then Acc(acc.parts, acc.current + piece)
      else Acc(acc.parts + (if acc.current != [] then [Strip(acc.current)] else []), piece)
  }

  /** The sentence loop, over the first sentences. */
  function Sentences(acc: Acc, ss: seq<string>, maxLength: int): Acc
    decreases |ss|
  {
    if ss == [] then acc else SentenceStep(Sentences(acc, ss[..|ss| - 1], maxLength), ss[|ss| - 1], maxLength)
  }

  /** One paragraph: it joins the current part, with a blank line, when
      both fit together; otherwise a non-empty current part is finished and
      the paragraph starts the next one; and a paragraph too long even for an
      empty part is packed sentence by sentence. */
  function ParagraphStep(acc: Acc, p: string, maxLength: int): (r: Acc)
    ensures |acc.current| + |p| + 2 <= maxLength ==> r == Acc(acc.parts, acc.current + p + "\n\n")
    ensures |acc.current| + |p| + 2 > maxLength && acc.current != [] ==>
              r == Acc(acc.parts + [Strip(acc.current)], p + "\n\n")
  {
    if |acc.current| + |p| + 2 <= maxLength then Acc(acc.parts, acc.current + p + "\n\n")
    else if acc.current != [] then Acc(acc.parts + [Strip(acc.current)], p + "\n\n")
    else Sentences(acc, SplitOnChars(p, Punctuation), maxLength)
  }

  /** The paragraph loop, over the first paragraphs. */
  function Paragraphs(acc: Acc, ps: seq<string>, maxLength: int): Acc
    decreases |ps|
  {
    if ps == [] then acc else ParagraphStep(Paragraphs(acc, ps[..|ps| - 1], maxLength), ps[|ps| - 1], maxLength)
  }

  /** The parts at the end: the finished ones and the last, if any. */
  function Finish(acc: Acc): seq<string> {
    acc.parts + (if acc.current != [] then [Strip(acc.current)] else [])
  }

  /** `split_long_message(text, max_length)`. */
  function SplitLong(text: string, maxLength: int): (parts: seq<string>)
    ensures |text| <= maxLength ==> parts == [text]
  {
    if |text| <= maxLength then [text]
    else Finish(Paragraphs(Acc([], []), SplitOn(text, "\n\n"), maxLength))
  }

  /** `split_long_message`, with the source's paragraph loop. */
  method SplitLongMessage(text: string, maxLength: int) returns (parts: seq<string>)
    ensures parts == SplitLong(text, maxLength)
  {
    if |text| <= maxLength {
      return [text];
    }
    parts := [];
    var current := "";
    var paragraphs := SplitOn(text, "\n\n");
    for i := 0 to |paragraphs|
      invariant Acc(parts, current) == Paragraphs(Acc([], []), paragraphs[..i], maxLength)
    {
      ParagraphsSnoc(Acc([], []), paragraphs, i, maxLength);
      parts, current := PackParagraph(parts, current, paragraphs[i], maxLength);
    }
    assert paragraphs[..|paragraphs|] == paragraphs;
    if current != [] {
      parts := parts + [Strip(current)];
    }
  }

  /** One turn of the paragraph loop. */
  method PackParagraph(parts0: seq<string>, current0: string, paragraph: string, maxLength: int)
    returns (parts: seq<string>, current: string)
    ensures Acc(parts, current) == ParagraphStep(Acc(parts0, current0), paragraph, maxLength)
  {
    parts, current := parts0, current0;
    if |current| + |paragraph| + 2 <= maxLength {
      current := current + paragraph + "\n\n";
    } else if current != [] {
      parts := parts + [Strip(current)];
      current := paragraph + "\n\n";
    } else {
      parts, current := PackSentences(parts, current, SplitOnChars(paragraph, Punctuation), maxLength);
    }
  }

  lemma ParagraphsSnoc(acc: Acc, ps: seq<string>, i: nat, maxLength: int)
    requires i < |ps|
    ensures Paragraphs(acc, ps[..i + 1], maxLength) == ParagraphStep(Paragraphs(acc, ps[..i], maxLength), ps[i], maxLength)
  {
    assert ps[..i + 1][..i] == ps[..i];
  }

  /** The sentence loop of `split_long_message`. */
  method PackSentences(parts0: seq<string>, current0: string, sentences: seq<string>, maxLength: int)
    returns (parts: seq<string>, current: string)
    ensures Acc(parts, current) == Sentences(Acc(parts0, current0), sentences, maxLength)
  {
    parts, current := parts0, current0;
    for j := 0 to |sentences|
      invariant Acc(parts, current) == Sentences(Acc(parts0, current0), sentences[..j], maxLength)
    {
      SentencesSnoc(Acc(parts0, current0), sentences, j, maxLength);
      parts, current := PackSentence(parts, current, sentences[j], maxLength);
    }
    assert sentences[..|sentences|] == sentences;
  }

  /** One turn of the sentence loop. */
  method PackSentence(parts0: seq<string>, current0: string, sentence: string, maxLength: int)
    returns (parts: seq<string>, current: string)
    ensures Acc(parts, current) == SentenceStep(Acc(parts0, current0), sentence, maxLength)
  {
    parts, current := parts0, current0;
    var s := Strip(sentence);
    if s != [] {
      var piece := s + "。";
      if |current| + |piece| <= maxLength {
        current := current + piece;
      } else {
        if current != [] {
          parts := parts + [Strip(current)];
        }
        current := piece;
      }
    }
  }

  lemma SentencesSnoc(acc: Acc, ss: seq<string>, j: nat, maxLength: int)
    requires j < |ss|
    ensures Sentences(acc, ss[..j + 1], maxLength) == SentenceStep(Sentences(acc, ss[..j], maxLength), ss[j], maxLength)
  {
    assert ss[..j + 1][..j] == ss[..j];
  }

  predicate AllStripped(parts: seq<string>) {
    forall i :: 0 <= i < |parts| ==> IsStripped(parts[i])
  }

  lemma {:induction false} SentencesStripped(acc: Acc, ss: seq<string>, maxLength: int)
    requires AllStripped(acc.parts)
    ensures AllStripped(Sentences(acc, ss, maxLength).parts)
    decreases |ss|
  {
    if ss != [] {
      SentencesStripped(acc, ss[..|ss| - 1], maxLength);
      SentenceStepStripped(Sentences(acc, ss[..|ss| - 1], maxLength), ss[|ss| - 1], maxLength);
    }
  }

  lemma SentenceStepStripped(acc: Acc, sentence: string, maxLength: int)
    requires AllStripped(acc.parts)
    ensures AllStripped(SentenceStep(acc, sentence, maxLength).parts)
  {
    var r := SentenceStep(acc, sentence, maxLength);
    if r.parts != acc.parts {
      assert r.parts == acc.parts + [Strip(acc.current)];
      AllStrippedSnoc(acc.parts, Strip(acc.current));
    }
  }

  lemma AllStrippedSnoc(parts: seq<string>, part: string)
    requires AllStripped(parts) && IsStripped(part)
    ensures AllStripped(parts + [part])
  {
    forall i | 0 <= i < |parts + [part]|
      ensures IsStripped((parts + [part])[i])
    {
      if i < |parts| {
        assert (parts + [part])[i] == parts[i];
      }
    }
  }

  lemma {:induction false} ParagraphsStripped(acc: Acc, ps: seq<string>, maxLength: int)
    requires AllStripped(acc.parts)
    ensures AllStripped(Paragraphs(acc, ps, maxLength).parts)
    decreases |ps|
  {
    if ps != [] {
      ParagraphsStripped(acc, ps[..|ps| - 1], maxLength);
      ParagraphStepStripped(Paragraphs(acc, ps[..|ps| - 1], maxLength), ps[|ps| - 1], maxLength);
    }
  }

  lemma ParagraphStepStripped(acc: Acc, p: string, maxLength: int)
    requires AllStripped(acc.parts)
    ensures AllStripped(ParagraphStep(acc, p, maxLength).parts)
  {
    if |acc.current| + |p| + 2 > maxLength {
      if acc.current != [] {
        AllStrippedSnoc(acc.parts, Strip(acc.current));
      } else {
        SentencesStripped(acc, SplitOnChars(p, Punctuation), maxLength);
      }
    }
  }

  /** Every part a split of a long text produces is whitespace-stripped. */
  lemma SplitStripped(text: string, maxLength: int)
    requires |text| > maxLength
    ensures AllStripped(SplitLong(text, maxLength))
  {
    ParagraphsStripped(Acc([], []), SplitOn(text, "\n\n"), maxLength);
  }

  /** Everything built so far fits in a message. */
  predicate Fits(acc: Acc, maxLength: int) {
    |acc.current| <= maxLength && forall i :: 0 <= i < |acc.parts| ==> |acc.parts[i]| <= maxLength
  }

  lemma {:induction false} ParagraphsFit(acc: Acc, ps: seq<string>, maxLength: int)
    requires Fits(acc, maxLength)
    requires forall i :: 0 <= i < |ps| ==> |ps[i]| + 2 <= maxLength
    ensures Fits(Paragraphs(acc, ps, maxLength), maxLength)
    decreases |ps|
  {
    if ps != [] {
      ParagraphsFit(acc, ps[..|ps| - 1], maxLength);
    }
  }

  /** When every paragraph, with its blank line, fits in a message, so does
      every part. */
  lemma SplitFits(text: string, maxLength: int)
    requires forall p :: p in SplitOn(text, "\n\n") ==> |p| + 2 <= maxLength
    ensures forall part :: part in SplitLong(text, maxLength) ==> |part| <= maxLength
  {
    if |text| > maxLength {
      var ps := SplitOn(text, "\n\n");
      forall i | 0 <= i < |ps|
        ensures |ps[i]| + 2 <= maxLength
      {
        assert ps[i] in ps;
      }
      ParagraphsFit(Acc([], []), ps, maxLength);
    }
  }

  /** A long paragraph that follows a non-empty part is never split into
      sentences: as the last paragraph it becomes the last part whole, even
      when it is longer than the limit. */
  lemma LongParagraphAfterShortOne(ps: seq<string>, maxLength: int)
    requires |ps| >= 2
    requires Paragraphs(Acc([], []), ps[..|ps| - 1], maxLength).current != []
    requires ps[|ps| - 1] != [] && |ps[|ps| - 1]| > maxLength && NoSpace(ps[|ps| - 1])
    ensures var parts := Finish(Paragraphs(Acc([], []), ps, maxLength));
            |parts| > 0 && parts[|parts| - 1] == ps[|ps| - 1]
  {
    var p := ps[|ps| - 1];
    assert ps[..|ps| - 1] == ps[..|ps| - 1];
    StripTrailingBlankLine(p);
  }

  /** Stripping a non-blank paragraph with its blank line gives the
      paragraph back. */
  lemma StripTrailingBlankLine(p: string)
    requires p != [] && NoSpace(p)
    ensures Strip(p + "\n\n") == p
  {
    var s := p + "\n\n";
    assert LStrip(s) == s;
    assert s[..|s| - 1] == p + "\n";
    assert (p + "\n")[..|p|] == p;
    assert RStrip(p + "\n") == RStrip(p);
    assert RStrip(p) == p;
  }

  /** The Markdown characters `escape_markdown` escapes, in its order. */
  const MarkdownSpecials: seq<char> :=
    ['_', '*', '[', ']', '(', ')', '~', '`', '>', '#', '+', '-', '=', '|', '{', '}', '.', '!']

  /** The text with a backslash put before every character of `cs`. */
  function Escaped(s: string, cs: set<char>): string {
    if s == [] then [] else (if s[0] in cs then ['\\', s[0]] else [s[0]]) + Escaped(s[1..], cs)
  }

  /** How many characters of `s` are in `cs`. */
  function CountIn(s: string, cs: set<char>): nat {
    if s == [] then 0 else (if s[0] in cs then 1 else 0) + CountIn(s[1..], cs)
  }

  function Elems(s: seq<char>): set<char> {
    set c | c in s
  }

  lemma ReplaceCharCons(x: char, t: string, d: char, rep: string)
    ensures ReplaceAll([x] + t, [d], rep) == (if x == d then rep else [x]) + ReplaceAll(t, [d], rep)
  {
    var s := [x] + t;
    assert s[..1] == [x] && s[1..] == t;
  }

  /** Replacing one more character, absent from the escaped set and not a
      backslash, in an escaped text escapes it too. */
  lemma {:induction false} ReplaceEscapes(s: string, cs: set<char>, d: char)
    requires d !in cs && d != '\\'
    ensures ReplaceAll(Escaped(s, cs), [d], ['\\', d]) == Escaped(s, cs + {d})
  {
    if s != [] {
      ReplaceEscapes(s[1..], cs, d);
      var rest := Escaped(s[1..], cs);
      if s[0] in cs {
        ReplaceAfterEscape(s[0], rest, d);
      } else {
        ReplaceCharCons(s[0], rest, d, ['\\', d]);
      }
    }
  }

  /** A character escaped already is left alone by the replacement of
      another one. */
  lemma ReplaceAfterEscape(c: char, rest: string, d: char)
    requires c != d && d != '\\'
    ensures ReplaceAll(['\\', c] + rest, [d], ['\\', d]) == ['\\', c] + ReplaceAll(rest, [d], ['\\', d])
  {
    assert ['\\', c] + rest == ['\\'] + ([c] + rest);
    ReplaceCharCons('\\', [c] + rest, d, ['\\', d]);
    ReplaceCharCons(c, rest, d, ['\\', d]);
  }

  /** `escape_markdown`: one `str.replace` per special character, in
      order. */
  method EscapeMarkdown(text: string) returns (r: string)
    ensures r == Escaped(text, Elems(MarkdownSpecials))
  {
    r := text;
    assert Elems(MarkdownSpecials[..0]) == {};
    EscapedNone(text);
    for i := 0 to |MarkdownSpecials|
      invariant r == Escaped(text, Elems(MarkdownSpecials[..i]))
    {
      var c := MarkdownSpecials[i];
      ElemsSnoc(MarkdownSpecials, i);
      SpecialsDistinct(i);
      ReplaceEscapes(text, Elems(MarkdownSpecials[..i]), c);
      r := ReplaceAll(r, [c], ['\\', c]);
    }
    assert MarkdownSpecials[..|MarkdownSpecials|] == MarkdownSpecials;
  }

  /** No special character is listed twice. */
  lemma SpecialsDistinct(i: nat)
    requires i < |MarkdownSpecials|
    ensures MarkdownSpecials[i] !in Elems(MarkdownSpecials[..i]) && MarkdownSpecials[i] != '\\'
  {
  }

  lemma ElemsSnoc(s: seq<char>, i: nat)
    requires i < |s|
    ensures Elems(s[..i + 1]) == Elems(s[..i]) + {s[i]}
  {
    assert s[..i + 1] == s[..i] + [s[i]];
  }

  lemma {:induction false} EscapedNone(s: string)
    ensures Escaped(s, {}) == s
  {
    if s != [] {
      EscapedNone(s[1..]);
    }
  }

  /** Escaping adds exactly one character per special character. */
  lemma {:induction false} EscapedLength(s: string, cs: set<char>)
    ensures |Escaped(s, cs)| == |s| + CountIn(s, cs)
  {
    if s != [] {
      EscapedLength(s[1..], cs);
    }
  }

  /** Drop the backslash of each backslash pair. */
  function Unescape(t: string): string
    decreases |t|
  {
    if t == [] then []
    else if t[0] == '\\' && |t| >= 2 then [t[1]] + Unescape(t[2..])
    else [t[0]] + Unescape(t[1..])
  }

  /** For a text without backslashes, removing the escapes gives the text
      back: every other character is left as it was. */
  lemma {:induction false} UnescapeEscaped(s: string, cs: set<char>)
    requires '\\' !in s && '\\' !in cs
    ensures Unescape(Escaped(s, cs)) == s
  {
    if s != [] {
      UnescapeEscaped(s[1..], cs);
      var e := Escaped(s, cs);
      if s[0] in cs {
        assert e[2..] == Escaped(s[1..], cs);
      } else {
        assert e[1..] == Escaped(s[1..], cs);
      }
      assert s == [s[0]] + s[1..];
    }
  }

  /** The result of `extract_command_args`: `(None, [])` for blank input. */
  datatype CommandArgs = CommandArgs(command: Option<string>, args: seq<string>)

  /** `extract_command_args`: the first whitespace-separated token,
      lower-cased, and the remaining tokens in order. */
  function ExtractCommandArgs(text: string): (r: CommandArgs)
    ensures r.command.None? <==> AllSpace(text)
    ensures r.command.None? ==> r.args == []
  {
    WordsCoverText(Strip(text));
    StripBlank(text);
    var parts := Words(Strip(text));
    if parts == [] then CommandArgs(None, [])
    else CommandArgs(Some(Lower(parts[0])), parts[1..])
  }

  lemma StripBlank(s: string)
    ensures AllSpace(Strip(s)) <==> AllSpace(s)
  {
    var r := Strip(s);
    if r != [] {
      assert !IsSpace(r[0]);
    }
  }

  /** The command and the arguments hold, in order, exactly the
      non-whitespace characters of the input (the command lower-cased); no
      token is empty or contains whitespace. */
  lemma CommandArgsCover(text: string)
    requires !AllSpace(text)
    ensures var r := ExtractCommandArgs(text);
            var w := Words(Strip(text));
            && r.command == Some(Lower(w[0])) && r.args == w[1..]
            && w[0] + Concat(r.args) == NonSpace(Strip(text))
            && forall i :: 0 <= i < |r.args| ==> r.args[i] != [] && NoSpace(r.args[i])
  {
    var w := Words(Strip(text));
    WordsCoverText(Strip(text));
    StripBlank(text);
    assert w != [];
    assert Concat(w) == w[0] + Concat(w[1..]);
  }

  /** The tokens are maximal runs: the text is a whitespace run, the token
      the command was made from, a non-empty whitespace run, the first
      argument, and so on, ending with a whitespace run. */
  lemma CommandArgsLayout(text: string) returns (first: string, gaps: seq<string>)
    requires !AllSpace(text)
    ensures var r := ExtractCommandArgs(text);
            && r.command == Some(Lower(first))
            && first != [] && NoSpace(first)
            && |gaps| == |r.args| + 2 && GoodGaps(gaps)
            && text == Spaced(gaps, [first] + r.args)
  {
    var w := Words(Strip(text));
    WordsStrip(text);
    StripBlank(text);
    WordsCoverText(Strip(text));
    first := w[0];
    gaps := WordsSpaced(text);
    assert w == [first] + w[1..];
  }

  /** `truncate_text(text, max_length, suffix)`. */
  function TruncateText(text: string, maxLength: int, suffix: string): (r: string)
    ensures |text| <= maxLength ==> r == text
    ensures |text| > maxLength ==> EndsWith(r, suffix)
    ensures |text| > maxLength && maxLength >= |suffix| ==>
              |r| == maxLength && r[..maxLength - |suffix|] == text[..maxLength - |suffix|]
  {
    if |text| <= maxLength then text
    else
      var head := SliceTo(text, maxLength - |suffix|);
      assert (head + suffix)[|head|..] == suffix;
      head + suffix
  }

  /** With room for the suffix, the text comes back unchanged exactly when
      it fits. */
  lemma TruncateUnchanged(text: string, maxLength: int, suffix: string)
    requires maxLength >= |suffix|
    ensures TruncateText(text, maxLength, suffix) == text <==> |text| <= maxLength
  {
  }

  /** Without room for the suffix, the negative slice counts from the end:
      `truncate_text("ab...", 0)` returns the text unchanged, though it is
      longer than the limit. */
  lemma TruncateNegativeSlice()
    ensures TruncateText("ab...", 0, "...") == "ab..."
  {
    assert SliceTo("ab...", -3) == "ab";
  }

  /** The label `format_datetime` chooses for an instant `dt`, seen at
      `now`. */
  datatype Ago = JustNow | MinutesAgo(minutes: int) | HoursAgo(hours: int) | Yesterday | DaysAgo(days: int) | OnDate(day: int)

  /** `format_datetime`: `timedelta` normalises the difference to whole
      days, rounded down, and the seconds left over. */
  function FormatBucket(dt: int, now: int): (a: Ago)
    ensures a == JustNow <==> 0 <= now - dt < 60
    ensures a.MinutesAgo? <==> 60 <= now - dt < 3600
    ensures a.MinutesAgo? ==> 1 <= a.minutes < 60 && 60 * a.minutes <= now - dt < 60 * (a.minutes + 1)
    ensures a.HoursAgo? <==> 3600 <= now - dt < DaySeconds
    ensures a.HoursAgo? ==> 1 <= a.hours < 24 && 3600 * a.hours <= now - dt < 3600 * (a.hours + 1)
    ensures a == Yesterday <==> DaySeconds <= now - dt < 2 * DaySeconds
    ensures a.DaysAgo? <==> now - dt < 0 || 2 * DaySeconds <= now - dt < 7 * DaySeconds
    ensures a.DaysAgo? ==> a.days < 7 && a.days != 0 && a.days != 1
                           && a.days * DaySeconds <= now - dt < (a.days + 1) * DaySeconds
    ensures a.OnDate? <==> now - dt >= 7 * DaySeconds
    ensures a.OnDate? ==> a.day == DayIndex(dt)
  {
    var diff := now - dt;
    var days, seconds := diff / DaySeconds, diff % DaySeconds;
    assert diff == DaySeconds * days + seconds;
    if days == 0 then
      if seconds < 60 then JustNow
      else if seconds < 3600 then MinutesAgo(seconds / 60)
      else HoursAgo(seconds / 3600)
    else if days == 1 then Yesterday
    else if days < 7 then DaysAgo(days)
    else OnDate(DayIndex(dt))
  }

  /** The text of a label; a date is written as its day key. */
  function Label(a: Ago): string
    requires a.OnDate? ==> 0 <= a.day < 10000000
  {
    match a
    case JustNow => "刚刚"
    case MinutesAgo(m) => IntToString(m) + "分钟前"
    case HoursAgo(h) => IntToString(h) + "小时前"
    case Yesterday => "昨天"
    case DaysAgo(d) => IntToString(d) + "天前"
    case OnDate(d) => Pad(d, 7)
  }

  /** An instant in the future is labelled with a negative number of days:
      one second ahead reads as `-1天前`. */
  lemma FutureIsDaysAgo(now: int)
    ensures FormatBucket(now + 1, now) == DaysAgo(-1)
    ensures Label(DaysAgo(-1)) == "-1天前"
  {
    assert NatToString(1) == "1";
  }

  /** The control characters `clean_text` removes: U+0000 to U+001F and
      U+007F to U+009F. */
  predicate IsControl(c: char) {
    c <= '\U{1F}' || '\U{7F}' <= c <= '\U{9F}'
  }

  /** `re.sub(r'\s+', ' ', s)`: every run of whitespace becomes one space. */
  function CollapseSpace(s: string): (r: string)
    ensures forall i :: 0 <= i < |r| && IsSpace(r[i]) ==> r[i] == ' '
    ensures forall i :: 0 <= i < |r| - 1 ==> !(IsSpace(r[i]) && IsSpace(r[i + 1]))
    ensures NonSpace(r) == NonSpace(s)
    ensures r == [] <==> s == []
    ensures r != [] ==> (IsSpace(r[0]) <==> IsSpace(s[0]))
    decreases |s|
  {
    if s == [] then []
    else if IsSpace(s[0]) then
      var rest := CollapseSpace(s[|s| - |LStrip(s)|..]);
      LStripKeepsNonSpace(s);
      assert ([' '] + rest)[1..] == rest;
      [' '] + rest
    else
      var rest := CollapseSpace(s[1..]);
      assert ([s[0]] + rest)[1..] == rest;
      [s[0]] + rest
  }

  /** `re.sub(r'[\x00-\x1f\x7f-\x9f]', '', s)`. */
  function RemoveControl(s: string): (r: string)
    ensures |r| <= |s|
    ensures forall i :: 0 <= i < |r| ==> !IsControl(r[i]) && r[i] in s
    ensures (forall i :: 0 <= i < |s| ==> !IsControl(s[i])) ==> r == s
  {
    if s == [] then []
    else if IsControl(s[0]) then RemoveControl(s[1..])
    else
      assert s == [s[0]] + s[1..];
      [s[0]] + RemoveControl(s[1..])
  }

  /** Removing control characters works piece by piece, so with
      `RemoveControlCons` it keeps the other characters in their order. */
  lemma {:induction false} RemoveControlAppend(a: string, b: string)
    ensures RemoveControl(a + b) == RemoveControl(a) + RemoveControl(b)
  {
    if a != [] {
      var c, x := a[0], a[1..];
      assert a == [c] + x;
      AppendRight([c], x, b, x + b);
      RemoveControlCons(c, x + b);
      RemoveControlCons(c, x);
      RemoveControlAppend(x, b);
      var kept := if IsControl(c) then "" else [c];
      AppendRight(kept, RemoveControl(x), RemoveControl(b), RemoveControl(x) + RemoveControl(b));
    } else {
      assert a + b == b;
    }
  }

  /** Dropping whitespace and dropping control characters commute. */
  lemma {:induction false} NonSpaceRemoveControl(s: string)
    ensures NonSpace(RemoveControl(s)) == RemoveControl(NonSpace(s))
  {
    if s != [] {
      NonSpaceRemoveControl(s[1..]);
      var t := s[1..];
      if !IsControl(s[0]) {
        assert ([s[0]] + RemoveControl(t))[1..] == RemoveControl(t);
      }
      if !IsSpace(s[0]) {
        assert ([s[0]] + NonSpace(t))[1..] == NonSpace(t);
      }
    }
  }

  /** The only whitespace character in `s` is the plain space. */
  predicate PlainSpaces(s: string) {
    forall i :: 0 <= i < |s| && IsSpace(s[i]) ==> s[i] == ' '
  }

  lemma StripKeepsPlainSpaces(s: string)
    requires PlainSpaces(s)
    ensures PlainSpaces(Strip(s))
  {
    var pre, post := StripMargins(s);
    PlainSpacesSplit(pre + Strip(s), post);
    PlainSpacesSplit(pre, Strip(s));
  }

  /** `clean_text`: collapse whitespace runs, strip, then drop control
      characters. */
  function CleanText(text: string): (r: string)
    ensures forall i :: 0 <= i < |r| ==> !IsControl(r[i])
    ensures forall i :: 0 <= i < |r| && IsSpace(r[i]) ==> r[i] == ' '
    ensures NonSpace(r) == RemoveControl(NonSpace(text))
  {
    var collapsed := CollapseSpace(text);
    StripKeepsPlainSpaces(collapsed);
    StripKeepsNonSpace(collapsed);
    NonSpaceRemoveControl(Strip(collapsed));
    RemoveControl(Strip(collapsed))
  }

  lemma RemoveControlCons(c: char, t: string)
    ensures RemoveControl([c] + t) == (if IsControl(c) then [] else [c]) + RemoveControl(t)
  {
    assert ([c] + t)[1..] == t;
  }

  lemma CollapseExample()
    ensures CollapseSpace("\U{0} a") == "\U{0} a"
  {
    assert "\U{0} a" == ['\U{0}'] + " a";
    CollapseKeeps('\U{0}', " a");
    CollapseSpaceWord('a');
  }

  lemma CollapseKeeps(c: char, t: string)
    requires !IsSpace(c)
    ensures CollapseSpace([c] + t) == [c] + CollapseSpace(t)
  {
    assert ([c] + t)[1..] == t;
  }

  /** One space before a word is kept as it is. */
  lemma CollapseSpaceWord(c: char)
    requires !IsSpace(c)
    ensures CollapseSpace([' ', c]) == [' ', c]
  {
    var w := [c];
    assert [' '] + w == [' ', c];
    CollapseRun([' '] + w);
    LStripSpaceWord(c);
    CollapseSingle(c);
  }

  lemma CollapseSingle(c: char)
    requires !IsSpace(c)
    ensures CollapseSpace([c]) == [c]
  {
    assert [c][1..] == [];
    assert CollapseSpace([]) == [];
  }

  lemma CollapseRun(s: string)
    requires s != [] && IsSpace(s[0])
    ensures CollapseSpace(s) == [' '] + CollapseSpace(LStrip(s))
  {
    assert s[|s| - |LStrip(s)|..] == LStrip(s);
  }

  lemma LStripSpaceWord(c: char)
    requires !IsSpace(c)
    ensures LStrip([' ', c]) == [c]
  {
    assert [' ', c][1..] == [c];
  }

  /** Control characters go after stripping, so the result need not be
      stripped: a leading NUL before a space leaves the space in front. */
  lemma CleanTextMayStartWithSpace()
    ensures CleanText("\U{0} a") == " a"
  {
    var s := "\U{0} a";
    CollapseExample();
    assert IsStripped(s);
    RemoveControlExample();
  }

  lemma RemoveControlExample()
    ensures RemoveControl("\U{0} a") == " a"
  {
    RemoveControlCons('\U{0}', " a");
    RemoveControlCons(' ', "a");
    RemoveControlCons('a', "");
    assert ['\U{0}'] + " a" == "\U{0} a" && [' '] + "a" == " a" && ['a'] + "" == "a";
  }

  /** Each gap collapsed: an empty gap stays empty, any other becomes one space. */
  function Squash(gaps: seq<string>): seq<string> {
    seq(|gaps|, i requires 0 <= i < |gaps| => if gaps[i] == [] then "" else " ")
  }

  /** A text laid out as whitespace runs and words collapses run by run:
      every non-empty run of whitespace becomes exactly one space and the
      words are untouched. */
  lemma {:induction false} CollapseSpaced(gaps: seq<string>, w: seq<string>)
    requires |gaps| == |w| + 1 && GoodGaps(gaps)
    requires forall i :: 0 <= i < |w| ==> w[i] != [] && NoSpace(w[i])
    ensures CollapseSpace(Spaced(gaps, w)) == Spaced(Squash(gaps), w)
    decreases |w|
  {
    var sq := Squash(gaps);
    if w == [] {
      CollapseGap(gaps[0], []);
      assert gaps[0] + [] == gaps[0];
    } else {
      assert GoodGaps(gaps[1..]);
      CollapseSpaced(gaps[1..], w[1..]);
      assert Squash(gaps[1..]) == sq[1..];
      CollapseSpacedStep(gaps[0], w[0], Spaced(gaps[1..], w[1..]), Spaced(sq[1..], w[1..]));
    }
  }

  lemma CollapseSpacedStep(gap: string, word: string, t: string, ct: string)
    requires AllSpace(gap) && word != [] && NoSpace(word) && CollapseSpace(t) == ct
    ensures CollapseSpace(gap + word + t) == (if gap == [] then "" else " ") + word + ct
  {
    var x := word + t;
    assert gap + word + t == gap + x;
    assert !IsSpace(x[0]);
    CollapseGap(gap, x);
    CollapseWord(word, t);
  }

  /** A whitespace run in front of a word, or at the end, collapses to one
      space, or to nothing when it is empty. */
  lemma CollapseGap(gap: string, x: string)
    requires AllSpace(gap) && (x == [] || !IsSpace(x[0]))
    ensures CollapseSpace(gap + x) == (if gap == [] then "" else " ") + CollapseSpace(x)
  {
    if gap == [] {
      assert gap + x == x;
    } else {
      CollapseRun(gap + x);
      LStripSpacePrefix(gap, x);
    }
  }

  /** A word passes through the collapse unchanged. */
  lemma {:induction false} CollapseWord(word: string, t: string)
    requires NoSpace(word)
    ensures CollapseSpace(word + t) == word + CollapseSpace(t)
    decreases |word|
  {
    if word == [] {
      assert word + t == t;
    } else {
      CollapseWord(word[1..], t);
      assert word == [word[0]] + word[1..];
      CollapseWordStep(word[0], word[1..], t);
    }
  }

  lemma CollapseWordStep(c: char, rest: string, t: string)
    requires !IsSpace(c) && CollapseSpace(rest + t) == rest + CollapseSpace(t)
    ensures CollapseSpace([c] + rest + t) == [c] + rest + CollapseSpace(t)
  {
    AppendRight([c], rest, t, rest + t);
    CollapseKeeps(c, rest + t);
    AppendRight([c], rest, CollapseSpace(t), rest + CollapseSpace(t));
  }

  /** `s` ends with a whitespace character. */
  predicate EndsSpace(s: string) {
    s != [] && IsSpace(s[|s| - 1])
  }

  /** The collapsed text ends in whitespace exactly when the input does. */
  lemma {:induction false} CollapseLast(s: string)
    ensures EndsSpace(CollapseSpace(s)) <==> EndsSpace(s)
    decreases |s|
  {
    if s != [] {
      if IsSpace(s[0]) {
        var t := LStrip(s);
        var pre := LStripMargin(s);
        CollapseRun(s);
        CollapseLast(t);
        EndsSpaceCons(' ', CollapseSpace(t));
        EndsSpacePadded(pre, t);
      } else {
        CollapseKeeps(s[0], s[1..]);
        CollapseLast(s[1..]);
        EndsSpaceCons(s[0], CollapseSpace(s[1..]));
        EndsSpaceCons(s[0], s[1..]);
        assert s == [s[0]] + s[1..];
      }
    }
  }

  lemma EndsSpaceCons(c: char, x: string)
    ensures EndsSpace([c] + x) <==> if x == [] then IsSpace(c) else EndsSpace(x)
  {
    assert ([c] + x)[|x|] == if x == [] then c else x[|x| - 1];
  }

  lemma EndsSpacePadded(pre: string, t: string)
    requires pre != [] && AllSpace(pre)
    ensures EndsSpace(pre + t) <==> t == [] || EndsSpace(t)
  {
    if t == [] {
      assert pre + t == pre;
    } else {
      assert (pre + t)[|pre + t| - 1] == t[|t| - 1];
    }
  }

  lemma SquashGood(gaps: seq<string>)
    requires GoodGaps(gaps)
    ensures GoodGaps(Squash(gaps))
  {
    var sq := Squash(gaps);
    forall i | 0 <= i < |sq|
      ensures AllSpace(sq[i]) && (0 < i < |sq| - 1 ==> sq[i] != [])
    {
    }
  }

  /** `re.sub(r'\s+', ' ', s)` replaces each maximal whitespace run of `s`
      by exactly one space: `s` is runs and words, and the result is the
      same words with each non-empty run squashed. */
  lemma CollapseSpaceRuns(s: string) returns (gaps: seq<string>)
    ensures |gaps| == |Words(s)| + 1 && GoodGaps(gaps) && s == Spaced(gaps, Words(s))
    ensures CollapseSpace(s) == Spaced(Squash(gaps), Words(s))
  {
    gaps := WordsSpaced(s);
    CollapseSpaced(gaps, Words(s));
  }

  /** Collapsing whitespace keeps the words of the text. */
  lemma CollapseKeepsWords(s: string)
    ensures Words(CollapseSpace(s)) == Words(s)
  {
    var gaps := CollapseSpaceRuns(s);
    SquashGood(gaps);
    WordsOfSpaced(Squash(gaps), Words(s));
  }

  /** `RemoveControl` applied to every word. */
  function RemoveControlEach(w: seq<string>): (r: seq<string>)
    ensures |r| == |w|
    ensures forall i :: 0 <= i < |w| ==> r[i] == RemoveControl(w[i])
  {
    if w == [] then [] else [RemoveControl(w[0])] + RemoveControlEach(w[1..])
  }

  /** The words of a cleaned text: each word without its control
      characters, and the words that were only control characters gone. */
  function CleanWords(w: seq<string>): seq<string> {
    Nonblank(RemoveControlEach(w))
  }

  lemma PlainSpacesSplit(a: string, b: string)
    requires PlainSpaces(a + b)
    ensures PlainSpaces(a) && PlainSpaces(b)
  {
    forall i | 0 <= i < |b| && IsSpace(b[i])
      ensures b[i] == ' '
    {
      assert b[i] == (a + b)[|a| + i];
    }
    forall i | 0 <= i < |a| && IsSpace(a[i])
      ensures a[i] == ' '
    {
      assert a[i] == (a + b)[i];
    }
  }

  /** In a text whose only whitespace is the plain space, no gap holds a
      control character. */
  lemma {:induction false} PlainGaps(gaps: seq<string>, w: seq<string>)
    requires |gaps| == |w| + 1 && (forall i :: 0 <= i < |gaps| ==> AllSpace(gaps[i]))
    requires PlainSpaces(Spaced(gaps, w))
    ensures forall i :: 0 <= i < |gaps| ==> RemoveControl(gaps[i]) == gaps[i]
    decreases |w|
  {
    if w != [] {
      var t := Spaced(gaps[1..], w[1..]);
      assert Spaced(gaps, w) == gaps[0] + (w[0] + t);
      PlainSpacesSplit(gaps[0], w[0] + t);
      PlainSpacesSplit(w[0], t);
      PlainGaps(gaps[1..], w[1..]);
      forall i | 1 <= i < |gaps|
        ensures RemoveControl(gaps[i]) == gaps[i]
      {
        assert gaps[i] == gaps[1..][i - 1];
      }
    } else {
      PlainGap(gaps[0]);
    }
  }

  lemma PlainGap(gap: string)
    requires AllSpace(gap) && PlainSpaces(gap)
    ensures RemoveControl(gap) == gap
  {
    assert forall i :: 0 <= i < |gap| ==> gap[i] == ' ';
  }

  /** Control characters go word by word when the gaps have none. */
  lemma {:induction false} RemoveControlSpaced(gaps: seq<string>, w: seq<string>)
    requires |gaps| == |w| + 1
    requires forall i :: 0 <= i < |gaps| ==> RemoveControl(gaps[i]) == gaps[i]
    ensures RemoveControl(Spaced(gaps, w)) == Spaced(gaps, RemoveControlEach(w))
    decreases |w|
  {
    var rw := RemoveControlEach(w);
    if w == [] {
      assert rw == [];
    } else {
      RemoveControlSpaced(gaps[1..], w[1..]);
      assert rw[1..] == RemoveControlEach(w[1..]);
      RemoveControlStep(gaps[0], w[0], Spaced(gaps[1..], w[1..]), Spaced(gaps[1..], rw[1..]));
    }
  }

  lemma RemoveControlStep(gap: string, word: string, t: string, rt: string)
    requires RemoveControl(gap) == gap && RemoveControl(t) == rt
    ensures RemoveControl(gap + word + t) == gap + RemoveControl(word) + rt
  {
    var x := word + t;
    AppendRight(gap, word, t, x);
    RemoveControlAppend(gap, x);
    RemoveControlAppend(word, t);
    AppendRight(gap, RemoveControl(word), rt, RemoveControl(word) + rt);
  }

  /** Dropping control characters from a text spaced only by plain spaces
      drops them from each word. */
  lemma WordsRemoveControl(y: string)
    requires PlainSpaces(y)
    ensures Words(RemoveControl(y)) == CleanWords(Words(y))
  {
    var w := Words(y);
    var gaps := WordsSpaced(y);
    PlainGaps(gaps, w);
    RemoveControlSpaced(gaps, w);
    var rw := RemoveControlEach(w);
    forall i | 0 <= i < |rw|
      ensures NoSpace(rw[i])
    {
      assert NoSpace(w[i]);
    }
    WordsOfSpaced(gaps, rw);
  }

  /** The words of `clean_text(text)` are the words of `text`, each with its
      control characters dropped, leaving out those that become empty. */
  lemma CleanTextWords(text: string)
    ensures Words(CleanText(text)) == CleanWords(Words(text))
  {
    var c := CollapseSpace(text);
    StripKeepsPlainSpaces(c);
    WordsRemoveControl(Strip(c));
    WordsStrip(c);
    CollapseKeepsWords(text);
  }
}
