/**
 * The Python string operations the bot relies on, over `string` (`seq<char>`):
 * whitespace stripping and splitting, substring tests, `str.replace`,
 * `sep.join`, decimal rendering, string ordering and slicing.
 * Case mapping is ASCII only.
 */
module Text {

  /** `str.isspace()` for one character (the Unicode whitespace set). */
  predicate IsSpace(c: char) {
    || c == ' '
    || '\t' <= c <= '\r'
    || '\U{1C}' <= c <= '\U{1F}'
    || c == '\U{85}' || c == '\U{A0}' || c == '\U{1680}'
    || '\U{2000}' <= c <= '\U{200A}'
    || c == '\U{2028}' || c == '\U{2029}' || c == '\U{202F}' || c == '\U{205F}' || c == '\U{3000}'
  }

  predicate AllSpace(s: string) {
    forall i :: 0 <= i < |s| ==> IsSpace(s[i])
  }

  predicate NoSpace(s: string) {
    forall i :: 0 <= i < |s| ==> !IsSpace(s[i])
  }

  /** What `str.strip()` returns: empty, or neither end is whitespace. */
  predicate IsStripped(s: string) {
    s == [] || (!IsSpace(s[0]) && !IsSpace(s[|s| - 1]))
  }

  function LStrip(s: string): (r: string)
    ensures |r| <= |s| && r == s[|s| - |r|..]
    ensures r == [] || !IsSpace(r[0])
    ensures AllSpace(s[..|s| - |r|])
  {
    if |s| > 0 && IsSpace(s[0]) then LStrip(s[1..]) else s
  }

  function RStrip(s: string): (r: string)
    ensures |r| <= |s| && r == s[..|r|]
    ensures r == [] || !IsSpace(r[|r| - 1])
    ensures AllSpace(s[|r|..])
  {
    if |s| > 0 && IsSpace(s[|s| - 1]) then
      var r := RStrip(s[..|s| - 1]);
      assert s[|r|..] == s[..|s| - 1][|r|..] + [s[|s| - 1]];
      AllSpaceConcat(s[..|s| - 1][|r|..], [s[|s| - 1]]);
      r
    else s
  }

  /** `str.strip()`: the text without leading and trailing whitespace. */
  function Strip(s: string): (r: string)
    ensures IsStripped(r) && |r| <= |s|
    ensures r == [] <==> AllSpace(s)
    ensures IsStripped(s) ==> r == s
  {
    StripEnds(s);
    StripEmpty(s);
    StripIdle(s);
    RStrip(LStrip(s))
  }

  lemma StripEnds(s: string)
    ensures IsStripped(RStrip(LStrip(s)))
  {
    var l := LStrip(s);
    var r := RStrip(l);
    if r != [] {
      assert r[0] == l[0];
    }
  }

  lemma StripEmpty(s: string)
    ensures RStrip(LStrip(s)) == [] <==> AllSpace(s)
  {
    var l := LStrip(s);
    LStripEmpty(s);
    if RStrip(l) == [] {
      assert l == l[0..];
    }
  }

  lemma AllSpaceConcat(a: string, b: string)
    requires AllSpace(a) && AllSpace(b)
    ensures AllSpace(a + b)
  {
    forall i | 0 <= i < |a + b|
      ensures IsSpace((a + b)[i])
    {
      if i < |a| {
        assert (a + b)[i] == a[i];
      } else {
        assert (a + b)[i] == b[i - |a|];
      }
    }
  }

  lemma StripIdle(s: string)
    ensures IsStripped(s) ==> RStrip(LStrip(s)) == s
  {
  }

  function LowerChar(c: char): char {
    if 'A' <= c <= 'Z' then (c as int + 32) as char else c
  }

  /** `str.lower()` restricted to ASCII letters. */
  function Lower(s: string): (r: string)
    ensures |r| == |s| && forall i :: 0 <= i < |s| ==> r[i] == LowerChar(s[i])
  {
    if s == [] then [] else [LowerChar(s[0])] + Lower(s[1..])
  }

  predicate StartsWith(s: string, p: string) {
    |p| <= |s| && s[..|p|] == p
  }

  /** A prefix followed by anything starts with that prefix. */
  lemma PrefixOf(p: string, rest: string)
    ensures StartsWith(p + rest, p)
  {
    assert (p + rest)[..|p|] == p;
  }

  /** A text that differs from `p` at one position does not start with it. */
  lemma NotPrefix(n: string, p: string, i: nat)
    requires i < |p| && (i < |n| ==> n[i] != p[i])
    ensures !StartsWith(n, p)
  {
    if |p| <= |n| {
      assert n[..|p|][i] == n[i];
    }
  }

  predicate EndsWith(s: string, p: string) {
    |p| <= |s| && s[|s| - |p|..] == p
  }

  /** A concatenation starts with its first part and ends with its last. */
  lemma ConcatEnds(a: string, b: string)
    ensures StartsWith(a + b, a) && EndsWith(a + b, b)
  {
    assert (a + b)[..|a|] == a;
    assert (a + b)[|a|..] == b;
  }

  /** Python's `p in s` for strings. */
  predicate Contains(s: string, p: string)
    decreases |s|
  {
    StartsWith(s, p) || (|s| > 0 && Contains(s[1..], p))
  }

  /** Every character of an occurrence is a character of the text. */
  lemma {:induction false} ContainsChar(s: string, p: string, c: char)
    requires Contains(s, p) && c in p
    ensures c in s
    decreases |s|
  {
    if StartsWith(s, p) {
      assert s[..|p|] == p;
    } else {
      ContainsChar(s[1..], p, c);
    }
  }

  /** Stripping only removes characters. */
  lemma StripChars(s: string)
    ensures forall i :: 0 <= i < |Strip(s)| ==> Strip(s)[i] in s
  {
    var k := StripIsSlice(s);
    var r := Strip(s);
    forall i | 0 <= i < |r|
      ensures r[i] in s
    {
      assert r[i] == s[k + i];
    }
  }

  /** The stripped text is a slice of the original, starting at `k`. */
  lemma StripIsSlice(s: string) returns (k: nat)
    ensures k + |Strip(s)| <= |s| && Strip(s) == s[k..k + |Strip(s)|]
  {
    var l := LStrip(s);
    k := |s| - |l|;
    PrefixOfSuffix(s, k, |RStrip(l)|);
  }

  /** The text is its stripped form with only whitespace before and after. */
  lemma StripMargins(s: string) returns (pre: string, post: string)
    ensures s == pre + Strip(s) + post
    ensures AllSpace(pre) && AllSpace(post)
  {
    pre := LStripMargin(s);
    post := RStripMargin(LStrip(s));
    Regroup(s, pre, LStrip(s), RStrip(LStrip(s)), post);
  }

  lemma LStripMargin(s: string) returns (pre: string)
    ensures s == pre + LStrip(s) && AllSpace(pre)
  {
    pre := s[..|s| - |LStrip(s)|];
  }

  lemma RStripMargin(s: string) returns (post: string)
    ensures s == RStrip(s) + post && AllSpace(post)
  {
    post := s[|RStrip(s)|..];
  }

  lemma Regroup(s: string, pre: string, l: string, r: string, post: string)
    requires s == pre + l && l == r + post
    ensures s == pre + r + post
  {
  }

  lemma PrefixOfSuffix(s: string, k: nat, n: nat)
    requires k + n <= |s|
    ensures s[k..][..n] == s[k..k + n]
  {
  }

  /** A string whose suffix contains `p` contains `p`. */
  lemma {:induction false} ContainsInSuffix(s: string, k: nat, p: string)
    requires k <= |s| && Contains(s[k..], p)
    ensures Contains(s, p)
  {
    if k > 0 {
      assert s[1..][k - 1..] == s[k..];
      ContainsInSuffix(s[1..], k - 1, p);
    }
  }

  /** A string containing `a + b` contains `b`. */
  lemma {:induction false} ContainsSuffixOf(s: string, a: string, b: string)
    requires Contains(s, a + b)
    ensures Contains(s, b)
    decreases |s|
  {
    if StartsWith(s, a + b) {
      assert s[|a|..][..|b|] == (a + b)[|a|..];
      ContainsInSuffix(s, |a|, b);
    } else {
      ContainsSuffixOf(s[1..], a, b);
    }
  }

  /** `sep.join(parts)`. */
  function Join(parts: seq<string>, sep: string): string {
    if |parts| == 0 then []
    else if |parts| == 1 then parts[0]
    else parts[0] + sep + Join(parts[1..], sep)
  }

  lemma JoinConsHead(c: char, parts: seq<string>, sep: string)
    requires |parts| >= 1
    ensures Join([[c] + parts[0]] + parts[1..], sep) == [c] + Join(parts, sep)
  {
    var q := [[c] + parts[0]] + parts[1..];
    assert q[1..] == parts[1..];
  }

  /** `s.split(sep)` for a non-empty separator: the pieces between the
      non-overlapping occurrences of `sep`, scanning left to right. */
  function SplitOn(s: string, sep: string): (parts: seq<string>)
    requires |sep| > 0
    ensures |parts| >= 1
    ensures Join(parts, sep) == s
    decreases |s|
  {
    if |s| < |sep| then [s]
    else if s[..|sep|] == sep then
      var rest := SplitOn(s[|sep|..], sep);
      assert Join([[]] + rest, sep) == [] + sep + Join(rest, sep) by {
        assert ([[]] + rest)[1..] == rest;
      }
      assert s == sep + s[|sep|..];
      [[]] + rest
    else
      var rest := SplitOn(s[1..], sep);
      JoinConsHead(s[0], rest, sep);
      assert s == [s[0]] + s[1..];
      [[s[0]] + rest[0]] + rest[1..]
  }

  /** No piece holds the separator, and no piece but the last is followed
      by an occurrence that starts inside it: each cut is at the leftmost
      occurrence, as `str.split` makes it. */
  predicate CutsLeftmost(parts: seq<string>, sep: string)
    requires |sep| > 0
  {
    && (forall i :: 0 <= i < |parts| ==> !Contains(parts[i], sep))
    && (forall i :: 0 <= i < |parts| - 1 ==> !Contains(parts[i] + sep[..|sep| - 1], sep))
  }

  lemma {:induction false} SplitOnLeftmost(s: string, sep: string)
    requires |sep| > 0
    ensures CutsLeftmost(SplitOn(s, sep), sep)
    decreases |s|
  {
    var parts := SplitOn(s, sep);
    if |s| < |sep| {
      ContainsLength(s, sep);
    } else if s[..|sep|] == sep {
      var rest := SplitOn(s[|sep|..], sep);
      SplitOnLeftmost(s[|sep|..], sep);
      CutAtSeparator(rest, sep);
    } else {
      var rest := SplitOn(s[1..], sep);
      SplitOnLeftmost(s[1..], sep);
      JoinStartsWithHead(rest, sep);
      CutInsideWord(s, rest, sep);
    }
  }

  /** The pieces after a separator at the front: an empty piece, then the rest. */
  lemma CutAtSeparator(rest: seq<string>, sep: string)
    requires |sep| > 0 && CutsLeftmost(rest, sep)
    ensures CutsLeftmost([[]] + rest, sep)
  {
    var parts := [[]] + rest;
    ContainsLength([], sep);
    ContainsLength([] + sep[..|sep| - 1], sep);
    forall i | 1 <= i < |parts|
      ensures parts[i] == rest[i - 1]
    {
    }
  }

  /** The pieces when the text does not start with the separator: the first
      character joins the first piece. */
  lemma CutInsideWord(s: string, rest: seq<string>, sep: string)
    requires |sep| > 0 && |s| > 0 && !StartsWith(s, sep) && |rest| >= 1
    requires CutsLeftmost(rest, sep) && s[1..] == Join(rest, sep)
    requires StartsWith(Join(rest, sep), rest[0])
    requires |rest| >= 2 ==> StartsWith(Join(rest, sep), rest[0] + sep)
    ensures CutsLeftmost([[s[0]] + rest[0]] + rest[1..], sep)
  {
    var parts := [[s[0]] + rest[0]] + rest[1..];
    assert s == [s[0]] + Join(rest, sep);
    ContainsCons(s[0], rest[0], sep);
    if StartsWith(parts[0], sep) {
      PrefixCons(s[0], Join(rest, sep), rest[0]);
      StartsTrans(s, parts[0], sep);
    }
    if |rest| >= 2 {
      var tail := rest[0] + sep[..|sep| - 1];
      assert parts[0] + sep[..|sep| - 1] == [s[0]] + tail;
      ContainsCons(s[0], tail, sep);
      if StartsWith([s[0]] + tail, sep) {
        PrefixCons(s[0], Join(rest, sep), rest[0] + sep);
        assert StartsWith(rest[0] + sep, tail) by {
          assert (rest[0] + sep)[..|tail|] == tail;
        }
        PrefixCons(s[0], rest[0] + sep, tail);
        StartsTrans([s[0]] + (rest[0] + sep), [s[0]] + tail, sep);
        StartsTrans(s, [s[0]] + (rest[0] + sep), sep);
      }
    }
    forall i | 1 <= i < |parts|
      ensures parts[i] == rest[i]
    {
    }
  }

  lemma {:induction false} ContainsLength(s: string, p: string)
    ensures Contains(s, p) ==> |p| <= |s|
    decreases |s|
  {
    if |s| > 0 {
      ContainsLength(s[1..], p);
    }
  }

  lemma ContainsCons(c: char, x: string, p: string)
    ensures Contains([c] + x, p) ==> StartsWith([c] + x, p) || Contains(x, p)
  {
    assert ([c] + x)[1..] == x;
  }

  lemma PrefixCons(c: char, s: string, t: string)
    requires StartsWith(s, t)
    ensures StartsWith([c] + s, [c] + t)
  {
    assert ([c] + s)[..|t| + 1] == [c] + s[..|t|];
  }

  lemma StartsTrans(s: string, t: string, p: string)
    requires StartsWith(s, t) && StartsWith(t, p)
    ensures StartsWith(s, p)
  {
    assert s[..|p|] == s[..|t|][..|p|];
  }

  /** A join starts with its first piece, and with the first separator
      when there are more pieces. */
  lemma JoinStartsWithHead(parts: seq<string>, sep: string)
    requires |parts| >= 1
    ensures StartsWith(Join(parts, sep), parts[0])
    ensures |parts| >= 2 ==> StartsWith(Join(parts, sep), parts[0] + sep)
  {
    if |parts| >= 2 {
      var j := Join(parts, sep);
      assert j == (parts[0] + sep) + Join(parts[1..], sep);
      assert j[..|parts[0] + sep|] == parts[0] + sep;
      assert j[..|parts[0]|] == parts[0];
    }
  }

  /** `re.split('[...]', s)` for a one-character class: the pieces between
      the characters of `delims`. */
  function SplitOnChars(s: string, delims: set<char>): (parts: seq<string>)
    ensures |parts| == |DelimsOf(s, delims)| + 1
    ensures forall i :: 0 <= i < |parts| ==>
              forall j :: 0 <= j < |parts[i]| ==> parts[i][j] !in delims
  {
    if s == [] then [[]]
    else
      var rest := SplitOnChars(s[1..], delims);
      if s[0] in delims then [[]] + rest
      else [[s[0]] + rest[0]] + rest[1..]
  }

  /** The characters of `s` that belong to `delims`, in order. */
  function DelimsOf(s: string, delims: set<char>): (d: string)
    ensures forall i :: 0 <= i < |d| ==> d[i] in delims
  {
    if s == [] then []
    else if s[0] in delims then [s[0]] + DelimsOf(s[1..], delims)
    else DelimsOf(s[1..], delims)
  }

  /** `parts[0] + ds[0] + parts[1] + ds[1] + ... + parts[|ds|]`. */
  function Interleave(parts: seq<string>, ds: string): string
    requires |parts| == |ds| + 1
  {
    if ds == [] then parts[0]
    else parts[0] + [ds[0]] + Interleave(parts[1..], ds[1..])
  }

  lemma {:induction false} InterleaveConsHead(c: char, parts: seq<string>, ds: string)
    requires |parts| == |ds| + 1
    ensures Interleave([[c] + parts[0]] + parts[1..], ds) == [c] + Interleave(parts, ds)
  {
    var q := [[c] + parts[0]] + parts[1..];
    if ds != [] {
      assert q[1..] == parts[1..];
    }
  }

  /** Putting the removed delimiters back between the pieces gives the
      input again. */
  lemma {:induction false} SplitOnCharsRoundTrip(s: string, delims: set<char>)
    ensures Interleave(SplitOnChars(s, delims), DelimsOf(s, delims)) == s
  {
    if s != [] {
      var rest := SplitOnChars(s[1..], delims);
      SplitOnCharsRoundTrip(s[1..], delims);
      if s[0] in delims {
        assert ([[]] + rest)[1..] == rest;
        assert s == [] + [s[0]] + s[1..];
      } else {
        InterleaveConsHead(s[0], rest, DelimsOf(s[1..], delims));
        assert s == [s[0]] + s[1..];
      }
    }
  }

  /** `s.replace(pat, rep)`: every non-overlapping occurrence of `pat`,
      scanning left to right, is replaced. */
  function ReplaceAll(s: string, pat: string, rep: string): string
    requires |pat| > 0
    decreases |s|
  {
    if |s| < |pat| then s
    else if s[..|pat|] == pat then rep + ReplaceAll(s[|pat|..], pat, rep)
    else [s[0]] + ReplaceAll(s[1..], pat, rep)
  }

  /** An occurrence at the very start is replaced first. */
  lemma ReplaceLeading(s: string, pat: string, rep: string)
    requires |pat| > 0
    ensures ReplaceAll(pat + s, pat, rep) == rep + ReplaceAll(s, pat, rep)
  {
    var t := pat + s;
    assert t[..|pat|] == pat && t[|pat|..] == s;
  }

  /** Strings with a common prefix are equal only if their rests are. */
  /** Splitting two concatenations at the same length. */
  lemma ConcatSplit(p: string, x: string, q: string, y: string)
    requires |p| == |q| && p + x == q + y
    ensures p == q && x == y
  {
    assert p == (p + x)[..|p|] && q == (q + y)[..|q|];
    assert x == (p + x)[|p|..] && y == (q + y)[|q|..];
  }

  lemma PrefixInjective(p: string, a: string, b: string)
    requires p + a == p + b
    ensures a == b
  {
    assert a == (p + a)[|p|..] && b == (p + b)[|p|..];
  }

  /** Replacing a pattern that does not occur changes nothing. */
  lemma {:induction false} ReplaceAbsent(s: string, pat: string, rep: string)
    requires |pat| > 0 && !Contains(s, pat)
    ensures ReplaceAll(s, pat, rep) == s
    decreases |s|
  {
    if |s| >= |pat| {
      ReplaceAbsent(s[1..], pat, rep);
      assert [s[0]] + s[1..] == s;
    }
  }

  /** Length of the run of non-whitespace characters at the start of `s`. */
  function TokenLength(s: string): (n: nat)
    ensures n <= |s| && NoSpace(s[..n])
    ensures n < |s| ==> IsSpace(s[n])
  {
    if s == [] || IsSpace(s[0]) then 0 else 1 + TokenLength(s[1..])
  }

  /** `s.split()`: the maximal runs of non-whitespace characters. */
  function Words(s: string): (w: seq<string>)
    ensures forall i :: 0 <= i < |w| ==> w[i] != [] && NoSpace(w[i])
    decreases |s|
  {
    var t := LStrip(s);
    if t == [] then []
    else
      var n := TokenLength(t);
      var rest := Words(t[n..]);
      WordsCons(t[..n], rest);
      [t[..n]] + rest
  }

  lemma WordsCons(w: string, rest: seq<string>)
    requires w != [] && NoSpace(w)
    requires forall i :: 0 <= i < |rest| ==> rest[i] != [] && NoSpace(rest[i])
    ensures forall i :: 0 <= i < |[w] + rest| ==> ([w] + rest)[i] != [] && NoSpace(([w] + rest)[i])
  {
    forall i | 0 <= i < |[w] + rest|
      ensures ([w] + rest)[i] != [] && NoSpace(([w] + rest)[i])
    {
      if i > 0 {
        assert ([w] + rest)[i] == rest[i - 1];
      }
    }
  }

  /** The characters of `s` that are not whitespace, in order. */
  function NonSpace(s: string): string {
    if s == [] then []
    else if IsSpace(s[0]) then NonSpace(s[1..])
    else [s[0]] + NonSpace(s[1..])
  }

  function Concat(w: seq<string>): string {
    if w == [] then [] else w[0] + Concat(w[1..])
  }

  lemma {:induction false} NonSpaceAppend(a: string, b: string)
    ensures NonSpace(a + b) == NonSpace(a) + NonSpace(b)
  {
    if a != [] {
      assert (a + b)[1..] == a[1..] + b;
      NonSpaceAppend(a[1..], b);
    } else {
      assert a + b == b;
    }
  }

  lemma {:induction false} NonSpaceOfAllSpace(s: string)
    requires AllSpace(s)
    ensures NonSpace(s) == []
  {
    if s != [] {
      NonSpaceOfAllSpace(s[1..]);
    }
  }

  lemma {:induction false} NonSpaceOfNoSpace(s: string)
    requires NoSpace(s)
    ensures NonSpace(s) == s
  {
    if s != [] {
      NonSpaceOfNoSpace(s[1..]);
    }
  }

  lemma LStripKeepsNonSpace(s: string)
    ensures NonSpace(s) == NonSpace(LStrip(s))
  {
    var t := LStrip(s);
    assert s == s[..|s| - |t|] + t;
    NonSpaceAppend(s[..|s| - |t|], t);
    NonSpaceOfAllSpace(s[..|s| - |t|]);
  }

  /** Stripping keeps every non-whitespace character, in order. */
  lemma StripKeepsNonSpace(s: string)
    ensures NonSpace(Strip(s)) == NonSpace(s)
  {
    var pre, post := StripMargins(s);
    NonSpaceOfPadded(pre, Strip(s), post);
  }

  /** Whitespace around a text adds nothing to its non-whitespace. */
  lemma NonSpaceOfPadded(pre: string, mid: string, post: string)
    requires AllSpace(pre) && AllSpace(post)
    ensures NonSpace(pre + mid + post) == NonSpace(mid)
  {
    NonSpaceAppend(pre + mid, post);
    NonSpaceAppend(pre, mid);
    NonSpaceOfAllSpace(pre);
    NonSpaceOfAllSpace(post);
  }

  lemma TokenNonSpace(t: string)
    ensures NonSpace(t) == t[..TokenLength(t)] + NonSpace(t[TokenLength(t)..])
  {
    var n := TokenLength(t);
    assert t == t[..n] + t[n..];
    NonSpaceAppend(t[..n], t[n..]);
    NonSpaceOfNoSpace(t[..n]);
  }

  lemma LStripEmpty(s: string)
    ensures LStrip(s) == [] <==> AllSpace(s)
  {
    var t := LStrip(s);
    assert s == s[..|s| - |t|] + t;
    if t != [] {
      assert s[|s| - |t|] == t[0];
    }
  }

  /** `str.split()` loses exactly the whitespace: the words, concatenated,
      are the non-whitespace characters of the input in order, and there are
      no words iff the input is blank. */
  lemma {:induction false} WordsCoverText(s: string)
    ensures Concat(Words(s)) == NonSpace(s)
    ensures Words(s) == [] <==> AllSpace(s)
    decreases |s|
  {
    var t := LStrip(s);
    LStripKeepsNonSpace(s);
    LStripEmpty(s);
    if t != [] {
      var n := TokenLength(t);
      WordsCoverText(t[n..]);
      TokenNonSpace(t);
      var w := Words(s);
      assert w == [t[..n]] + Words(t[n..]);
      assert w[1..] == Words(t[n..]);
    } else {
      NonSpaceOfAllSpace(s);
    }
  }

  /** `gaps[0] + w[0] + gaps[1] + ... + w[|w| - 1] + gaps[|w|]`. */
  function Spaced(gaps: seq<string>, w: seq<string>): string
    requires |gaps| == |w| + 1
    decreases |w|
  {
    if w == [] then gaps[0] else gaps[0] + w[0] + Spaced(gaps[1..], w[1..])
  }

  /** Every gap is whitespace, and every gap between two words is non-empty. */
  predicate GoodGaps(gaps: seq<string>) {
    && (forall i :: 0 <= i < |gaps| ==> AllSpace(gaps[i]))
    && (forall i :: 0 < i < |gaps| - 1 ==> gaps[i] != [])
  }

  /** The words that are not empty, in order. */
  function Nonblank(w: seq<string>): (r: seq<string>)
    ensures (forall i :: 0 <= i < |w| ==> w[i] != []) ==> r == w
  {
    if w == [] then []
    else
      var rest := Nonblank(w[1..]);
      assert w == [w[0]] + w[1..];
      (if w[0] == [] then [] else [w[0]]) + rest
  }

  /** `str.split()` cuts at maximal runs: the text is whitespace, the first
      word, a non-empty whitespace run, the second word, and so on, ending
      with whitespace. */
  lemma {:induction false} WordsSpaced(s: string) returns (gaps: seq<string>)
    ensures |gaps| == |Words(s)| + 1 && GoodGaps(gaps) && s == Spaced(gaps, Words(s))
    decreases |s|, 1
  {
    if LStrip(s) == [] {
      LStripEmpty(s);
      WordsAllSpace(s);
      gaps := [s];
    } else {
      gaps := WordsSpacedCons(s);
    }
  }

  /** The inductive step of `WordsSpaced`: a first word exists. */
  lemma {:induction false} WordsSpacedCons(s: string) returns (gaps: seq<string>)
    requires LStrip(s) != []
    ensures |gaps| == |Words(s)| + 1 && GoodGaps(gaps) && s == Spaced(gaps, Words(s))
    decreases |s|, 0
  {
    var pre, word, tail := WordsUnfold(s);
    var g := WordsSpaced(tail);
    var rest := Words(tail);
    assert forall i :: 0 <= i < |rest| ==> rest[i] != [] && NoSpace(rest[i]);
    gaps := SpacedCons(s, Words(s), pre, word, tail, g, rest);
  }

  /** One step of `split()`: the leading whitespace, the first word, the rest. */
  lemma WordsUnfold(s: string) returns (pre: string, word: string, tail: string)
    requires LStrip(s) != []
    ensures s == pre + word + tail && AllSpace(pre) && |tail| < |s|
    ensures tail == [] || IsSpace(tail[0])
    ensures Words(s) == [word] + Words(tail)
  {
    var t := LStrip(s);
    var n := TokenLength(t);
    pre := LStripMargin(s);
    word, tail := t[..n], t[n..];
    assert t == word + tail;
    Regroup(s, pre, t, word, tail);
  }

  /** A word in front of a spaced text that is empty or starts with
      whitespace: the leading whitespace becomes the new first gap. */
  lemma SpacedCons(s: string, w: seq<string>, pre: string, word: string, tail: string,
                   g: seq<string>, rest: seq<string>)
    returns (gaps: seq<string>)
    requires s == pre + word + tail && w == [word] + rest
    requires AllSpace(pre) && |g| == |rest| + 1 && GoodGaps(g) && tail == Spaced(g, rest)
    requires tail == [] || IsSpace(tail[0])
    requires forall i :: 0 <= i < |rest| ==> rest[i] != [] && NoSpace(rest[i])
    ensures |gaps| == |w| + 1 && GoodGaps(gaps) && s == Spaced(gaps, w)
  {
    gaps := [pre] + g;
    assert gaps[1..] == g && w[1..] == rest;
    if rest != [] && g[0] == [] {
      SpacedHead(g, rest);
    }
    forall i | 0 < i < |gaps| - 1
      ensures gaps[i] != []
    {
      assert gaps[i] == g[i - 1];
    }
  }

  lemma SpacedHead(gaps: seq<string>, w: seq<string>)
    requires |gaps| == |w| + 1 && |w| >= 1 && gaps[0] == [] && w[0] != []
    ensures Spaced(gaps, w) != [] && Spaced(gaps, w)[0] == w[0][0]
  {
  }

  /** The converse: whatever words are spelled out with such gaps, `split()`
      returns exactly the non-empty ones. Together with `WordsSpaced` this
      fixes `Words` as the maximal runs of non-whitespace. */
  lemma {:induction false} WordsOfSpaced(gaps: seq<string>, w: seq<string>)
    requires |gaps| == |w| + 1 && GoodGaps(gaps)
    requires forall i :: 0 <= i < |w| ==> NoSpace(w[i])
    ensures Words(Spaced(gaps, w)) == Nonblank(w)
    decreases |w|
  {
    if w == [] {
      WordsAllSpace(gaps[0]);
    } else {
      WordsOfSpaced(gaps[1..], w[1..]);
      WordsOfSpacedStep(gaps, w);
    }
  }

  lemma WordsOfSpacedStep(gaps: seq<string>, w: seq<string>)
    requires |gaps| == |w| + 1 && GoodGaps(gaps) && w != []
    requires forall i :: 0 <= i < |w| ==> NoSpace(w[i])
    requires Words(Spaced(gaps[1..], w[1..])) == Nonblank(w[1..])
    ensures Words(Spaced(gaps, w)) == Nonblank(w)
  {
    var r := Spaced(gaps[1..], w[1..]);
    var x := w[0] + r;
    assert Spaced(gaps, w) == gaps[0] + x;
    WordsSpacePrefix(gaps[0], x);
    NonblankCons(w);
    if w[0] == [] {
      assert x == r;
    } else {
      assert |w| >= 2 ==> gaps[1..][0] != [];
      SpacedLeadingGap(gaps[1..], w[1..]);
      WordsWordFirst(w[0], r);
    }
  }

  /** A spaced text whose first gap is non-empty, or that has no word,
      is empty or starts with whitespace. */
  lemma SpacedLeadingGap(gaps: seq<string>, w: seq<string>)
    requires |gaps| == |w| + 1 && AllSpace(gaps[0]) && (w == [] || gaps[0] != [])
    ensures Spaced(gaps, w) == [] || IsSpace(Spaced(gaps, w)[0])
  {
  }

  lemma NonblankCons(w: seq<string>)
    requires w != []
    ensures Nonblank(w) == (if w[0] == [] then [] else [w[0]]) + Nonblank(w[1..])
  {
  }

  lemma {:induction false} LStripSpacePrefix(g: string, y: string)
    requires AllSpace(g)
    ensures LStrip(g + y) == LStrip(y)
    decreases |g|
  {
    if g != [] {
      assert (g + y)[1..] == g[1..] + y;
      LStripSpacePrefix(g[1..], y);
    } else {
      assert g + y == y;
    }
  }

  lemma WordsSpacePrefix(g: string, y: string)
    requires AllSpace(g)
    ensures Words(g + y) == Words(y)
  {
    LStripSpacePrefix(g, y);
  }

  lemma WordsAllSpace(s: string)
    requires AllSpace(s)
    ensures Words(s) == []
  {
    LStripEmpty(s);
  }

  lemma {:induction false} TokenLengthWord(w: string, r: string)
    requires NoSpace(w) && (r == [] || IsSpace(r[0]))
    ensures TokenLength(w + r) == |w|
    decreases |w|
  {
    if w != [] {
      assert (w + r)[1..] == w[1..] + r;
      TokenLengthWord(w[1..], r);
    } else {
      assert w + r == r;
    }
  }

  /** A word followed by nothing or by whitespace is split off whole. */
  lemma WordsWordFirst(w: string, r: string)
    requires w != [] && NoSpace(w) && (r == [] || IsSpace(r[0]))
    ensures Words(w + r) == [w] + Words(r)
  {
    var t := w + r;
    assert LStrip(t) == t;
    TokenLengthWord(w, r);
    assert t[..|w|] == w && t[|w|..] == r;
  }

  /** Trailing whitespace does not change the words. */
  lemma WordsSpaceSuffix(y: string, post: string)
    requires AllSpace(post)
    ensures Words(y + post) == Words(y)
  {
    var gaps := WordsSpaced(y);
    SpacedAppend(gaps, Words(y), post);
    var gaps2 := GoodGapsExtend(gaps, post);
    WordsOfSpaced(gaps2, Words(y));
  }

  /** Whitespace added to the last gap keeps the gaps good. */
  lemma GoodGapsExtend(gaps: seq<string>, post: string) returns (gaps2: seq<string>)
    requires |gaps| >= 1 && GoodGaps(gaps) && AllSpace(post)
    ensures gaps2 == gaps[..|gaps| - 1] + [gaps[|gaps| - 1] + post] && GoodGaps(gaps2)
  {
    var n := |gaps| - 1;
    gaps2 := gaps[..n] + [gaps[n] + post];
    AllSpaceConcat(gaps[n], post);
    forall i | 0 <= i < |gaps2|
      ensures AllSpace(gaps2[i]) && (0 < i < |gaps2| - 1 ==> gaps2[i] != [])
    {
      if i < n {
        assert gaps2[i] == gaps[i];
      }
    }
  }

  lemma {:induction false} SpacedAppend(gaps: seq<string>, w: seq<string>, post: string)
    requires |gaps| == |w| + 1
    ensures Spaced(gaps, w) + post == Spaced(gaps[..|gaps| - 1] + [gaps[|gaps| - 1] + post], w)
    decreases |w|
  {
    var n := |gaps| - 1;
    var gaps2 := gaps[..n] + [gaps[n] + post];
    if w != [] {
      SpacedAppend(gaps[1..], w[1..], post);
      assert gaps2[1..] == gaps[1..][..n - 1] + [gaps[1..][n - 1] + post];
      assert gaps2[0] == gaps[0];
      AppendRight(gaps[0] + w[0], Spaced(gaps[1..], w[1..]), post, Spaced(gaps2[1..], w[1..]));
    }
  }

  lemma AppendRight(a: string, x: string, post: string, y: string)
    requires x + post == y
    ensures a + x + post == a + y
  {
    assert a + x + post == a + (x + post);
  }

  /** Whitespace around a text does not change its words. */
  lemma WordsPadded(pre: string, y: string, post: string)
    requires AllSpace(pre) && AllSpace(post)
    ensures Words(pre + y + post) == Words(y)
  {
    assert pre + y + post == pre + (y + post);
    WordsSpacePrefix(pre, y + post);
    WordsSpaceSuffix(y, post);
  }

  /** Stripping does not change the words. */
  lemma WordsStrip(s: string)
    ensures Words(Strip(s)) == Words(s)
  {
    var pre, post := StripMargins(s);
    WordsPadded(pre, Strip(s), post);
  }

  function Digit(d: int): char
    requires 0 <= d < 10
  {
    ('0' as int + d) as char
  }

  predicate IsDigit(c: char) {
    '0' <= c <= '9'
  }

  /** `str.isdigit()` for ASCII digits: non-empty and all digits. */
  predicate IsDigits(s: string) {
    |s| > 0 && forall i :: 0 <= i < |s| ==> IsDigit(s[i])
  }

  /** `int(s)` for a string of ASCII digits. */
  function DigitsValue(s: string): nat
    requires forall i :: 0 <= i < |s| ==> IsDigit(s[i])
  {
    if s == [] then 0
    else
      assert IsDigit(s[|s| - 1]);
      DigitsValue(s[..|s| - 1]) * 10 + (s[|s| - 1] as int - '0' as int)
  }

  /** `str(n)` for a natural number; `int` of it gives `n` back. */
  function NatToString(n: nat): (s: string)
    ensures IsDigits(s)
    ensures DigitsValue(s) == n
    ensures s[0] == '0' <==> n == 0
    ensures |s| > 1 ==> s[0] != '0'
  {
    if n < 10 then [Digit(n)]
    else
      var s := NatToString(n / 10) + [Digit(n % 10)];
      assert s[..|s| - 1] == NatToString(n / 10);
      assert s[0] == NatToString(n / 10)[0];
      s
  }

  /** `str(n)` for an integer. */
  function IntToString(n: int): string {
    if n < 0 then "-" + NatToString(-n) else NatToString(n)
  }

  /** `str(n)` starts with a minus sign exactly for a negative `n`. */
  lemma IntToStringSign(n: int)
    ensures |IntToString(n)| > 0
    ensures IntToString(n)[0] == '-' <==> n < 0
    ensures n < 0 ==> IntToString(n)[1..] == NatToString(-n)
  {
    if n >= 0 {
      assert IsDigit(NatToString(n)[0]);
    }
  }

  /** Distinct integers are written differently. */
  lemma IntToStringInjective(a: int, b: int)
    requires IntToString(a) == IntToString(b)
    ensures a == b
  {
    IntToStringSign(a);
    IntToStringSign(b);
  }

  /** Python's `a < b` on strings: lexicographic by code point, a proper
      prefix being smaller. */
  predicate StrLess(a: string, b: string)
    decreases |a|
  {
    if |b| == 0 then false
    else if |a| == 0 then true
    else if a[0] != b[0] then a[0] < b[0]
    else StrLess(a[1..], b[1..])
  }

  lemma {:induction false} StrLessIrreflexive(a: string)
    ensures !StrLess(a, a)
  {
    if |a| > 0 {
      StrLessIrreflexive(a[1..]);
    }
  }

  /** Comparing `x + u` with `y + v` for equally long `x`, `y` compares
      `x` with `y` first and falls back to `u`, `v` on a tie. */
  lemma {:induction false} StrLessConcat(x: string, u: string, y: string, v: string)
    requires |x| == |y|
    ensures StrLess(x + u, y + v) <==> StrLess(x, y) || (x == y && StrLess(u, v))
  {
    if |x| == 0 {
      assert x + u == u && y + v == v;
    } else {
      assert (x + u)[0] == x[0] && (y + v)[0] == y[0];
      assert (x + u)[1..] == x[1..] + u && (y + v)[1..] == y[1..] + v;
      if x[0] == y[0] {
        StrLessConcat(x[1..], u, y[1..], v);
        assert x == [x[0]] + x[1..] && y == [y[0]] + y[1..];
      }
    }
  }

  /** `s[:k]`, with Python's clamping and negative `k` counting from the end. */
  function SliceTo(s: string, k: int): (r: string)
    ensures |r| <= |s| && r == s[..|r|]
    ensures 0 <= k <= |s| ==> |r| == k
    ensures k < 0 && -k <= |s| ==> |r| == |s| + k
    ensures k >= |s| ==> r == s
    ensures k < -|s| ==> r == []
  {
    if k >= |s| then s
    else if k >= 0 then s[..k]
    else if k + |s| >= 0 then s[..k + |s|]
    else []
  }

  /** `s[a:b]` for non-negative bounds. */
  function Slice(s: string, a: nat, b: nat): (r: string)
    ensures a <= b <= |s| ==> r == s[a..b]
    ensures a <= |s| < b ==> r == s[a..]
    ensures b <= a || |s| <= a ==> r == []
  {
    var lo := if a <= |s| then a else |s|;
    var hi := if b <= |s| then b else |s|;
    if lo <= hi then s[lo..hi] else []
  }

  /** `s[-n:]` for `n > 0`: the last `n` elements, or all of them. */
  function Tail<T>(s: seq<T>, n: nat): (r: seq<T>)
    requires n > 0
    ensures |r| == if |s| <= n then |s| else n
    ensures r == s[|s| - |r|..]
  {
    if |s| <= n then s else s[|s| - n..]
  }

  /** Elements before the last `n` do not reach the tail. */
  lemma TailOfAppend<T>(a: seq<T>, b: seq<T>, n: nat)
    requires 0 < n <= |b|
    ensures Tail(a + b, n) == Tail(b, n)
  {
    assert (a + b)[|a + b| - n..] == b[|b| - n..];
  }
}
