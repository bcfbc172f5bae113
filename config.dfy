/** The line patterns and keyword lists of config.py, each regular expression written
    out as a predicate or scanner over one line. Lines come from `SplitLines`, so they
    hold no line break and the pattern `.` matches each of their characters. */
module Config {
  import opened Text

  // ---------------------------------------------------------------------------
  // OPTION_PATTERN  ^[A-Ha-h][\.、．\)）]\s*(.+)

  predicate IsOptionLetter(c: char) { 'A' <= c <= 'H' || 'a' <= c <= 'h' }

  predicate IsOptionDelimiter(c: char) { c == '.' || c == '、' || c == '．' || c == ')' || c == '）' }

  /** `OPTION_PATTERN.match(s)`, giving group 1. When everything after the delimiter
      is blank, the greedy `\s*` gives its last character back to `.+`. */
  function MatchOption(s: string): (g: Option<string>)
    ensures g.Some? <==> |s| >= 3 && IsOptionLetter(s[0]) && IsOptionDelimiter(s[1])
    ensures g.Some? ==> g.value != [] && |g.value| <= |s| - 2 && g.value == s[|s| - |g.value|..]
  {
    if |s| >= 3 && IsOptionLetter(s[0]) && IsOptionDelimiter(s[1]) then
      var rest := s[2..];
      var t := LStrip(rest);
      Some(if t != [] then t else rest[|rest| - 1..])
    else None
  }

  /** Stripped, the captured option text is the stripped text after the delimiter. */
  lemma MatchOptionStripped(s: string)
    requires MatchOption(s).Some?
    ensures Strip(MatchOption(s).value) == Strip(s[2..])
  {
    var rest := s[2..];
    StripOfLStrip(rest);
    if LStrip(rest) == [] {
      StripOfBlank(rest);
      StripOfBlank(rest[|rest| - 1..]);
    }
  }

  // ---------------------------------------------------------------------------
  // JUDGE_PATTERN  [（\(]\s*[）\)]

  predicate IsOpenBracket(c: char) { c == '（' || c == '(' }
  predicate IsCloseBracket(c: char) { c == '）' || c == ')' }

  /** The judge pattern matches at `i`: an opening bracket, blanks, a closing bracket. */
  predicate JudgeMarkerAt(s: string, i: nat) {
    i < |s| && IsOpenBracket(s[i]) && (var k := SkipSpaces(s, i + 1); k < |s| && IsCloseBracket(s[k]))
  }

  /** `JUDGE_PATTERN.search(s)` */
  predicate HasJudgeMarker(s: string) {
    exists i: nat | i < |s| :: JudgeMarkerAt(s, i)
  }

  /** The judge marker is exactly an opening bracket of either width, only blanks, and a
      closing bracket of either width. */
  lemma JudgeMarkerIff(s: string)
    ensures HasJudgeMarker(s) <==>
      exists i, j | 0 <= i < j < |s| ::
        IsOpenBracket(s[i]) && IsCloseBracket(s[j]) && forall k | i < k < j :: IsSpace(s[k])
  {
    if HasJudgeMarker(s) {
      var i: nat :| i < |s| && JudgeMarkerAt(s, i);
      var j := SkipSpaces(s, i + 1);
      assert IsOpenBracket(s[i]) && IsCloseBracket(s[j]);
    }
    if exists i, j | 0 <= i < j < |s| ::
        IsOpenBracket(s[i]) && IsCloseBracket(s[j]) && forall k | i < k < j :: IsSpace(s[k]) {
      var i, j :| 0 <= i < j < |s| &&
        IsOpenBracket(s[i]) && IsCloseBracket(s[j]) && forall k | i < k < j :: IsSpace(s[k]);
      var k := SkipSpaces(s, i + 1);
      assert k == j;
      assert JudgeMarkerAt(s, i);
    }
  }

  /** Full-width and half-width brackets may be mixed. */
  lemma MixedWidthJudgeMarkers()
    ensures HasJudgeMarker("（ )") && HasJudgeMarker("(）") && HasJudgeMarker("（　）")
  {
    assert JudgeMarkerAt("（ )", 0);
    assert JudgeMarkerAt("(）", 0);
    assert JudgeMarkerAt("（　）", 0);
  }

  // ---------------------------------------------------------------------------
  // SECTION_PATTERN  ^第[一二三四五六七八九十\d]+[章节]|^[一二三四五六七八九十]+、.*(题|答案)

  predicate IsCjkNumeral(c: char) {
    c == '一' || c == '二' || c == '三' || c == '四' || c == '五'
    || c == '六' || c == '七' || c == '八' || c == '九' || c == '十'
  }

  predicate IsChapterNumeral(c: char) { IsCjkNumeral(c) || IsDigit(c) }

  /** First alternative: "第", a numeral run, then 章 or 节. */
  predicate IsChapterHeading(s: string) {
    |s| >= 1 && s[0] == '第' &&
    var k := SkipWhile(s, 1, IsChapterNumeral);
    1 < k < |s| && (s[k] == '章' || s[k] == '节')
  }

  /** Second alternative: a Chinese numeral run, "、", and later 题 or 答案. */
  predicate IsPartHeading(s: string) {
    var k := SkipWhile(s, 0, IsCjkNumeral);
    0 < k < |s| && s[k] == '、' && (Contains(s[k + 1..], "题") || Contains(s[k + 1..], "答案"))
  }

  /** `SECTION_PATTERN.match(s)` */
  predicate IsSectionHeader(s: string) {
    IsChapterHeading(s) || IsPartHeading(s)
  }

  /** Position `k` ends a run of Chinese numerals with "、", and 题 or 答案 follows. */
  predicate PartHeadingAt(s: string, k: int) {
    0 < k < |s| && (forall m | 0 <= m < k :: IsCjkNumeral(s[m])) && s[k] == '、'
    && (Contains(s[k + 1..], "题") || Contains(s[k + 1..], "答案"))
  }

  /** The second alternative holds exactly when the line is numeral run + "、" + text
      that mentions 题 or 答案. */
  lemma PartHeadingIff(s: string)
    ensures IsPartHeading(s) <==> exists k :: PartHeadingAt(s, k)
  {
    var k0 := SkipWhile(s, 0, IsCjkNumeral);
    if IsPartHeading(s) {
      assert PartHeadingAt(s, k0);
    }
    forall k | PartHeadingAt(s, k)
      ensures IsPartHeading(s)
    {
      PartHeadingRun(s, k);
    }
  }

  lemma PartHeadingRun(s: string, k: int)
    requires PartHeadingAt(s, k)
    ensures SkipWhile(s, 0, IsCjkNumeral) == k
  {
    assert !IsCjkNumeral(s[k]);
  }

  lemma SectionHeaderExamples()
    ensures IsSectionHeader("一、填空题") && IsSectionHeader("第3章 总则") && IsSectionHeader("二、判断题答案")
    ensures !IsSectionHeader("一、概述") && !IsSectionHeader("第一部分")
  {
    var a := "一、填空题";
    assert SkipWhile(a, 0, IsCjkNumeral) == 1;
    assert OccursAt(a[2..], "题", 2);
    var b := "第3章 总则";
    assert SkipWhile(b, 1, IsChapterNumeral) == 2;
    var c := "二、判断题答案";
    assert SkipWhile(c, 0, IsCjkNumeral) == 1;
    assert OccursAt(c[2..], "题", 2);
    var d := "一、概述";
    assert SkipWhile(d, 0, IsCjkNumeral) == 1;
    assert !Contains(d[2..], "题") by {
      forall i: nat | i <= |d[2..]| ensures !OccursAt(d[2..], "题", i) {
        if i + 1 <= |d[2..]| { assert d[2..][i..i + 1][0] == d[2 + i]; }
      }
    }
    assert !Contains(d[2..], "答案") by {
      forall i: nat | i <= |d[2..]| ensures !OccursAt(d[2..], "答案", i) {
        if i + 2 <= |d[2..]| { assert d[2..][i..i + 2][0] == d[2 + i]; }
      }
    }
    var e := "第一部分";
    assert SkipWhile(e, 1, IsChapterNumeral) == 2;
    assert SkipWhile(e, 0, IsCjkNumeral) == 0;
  }

  // ---------------------------------------------------------------------------
  // ANSWER_LINE_PATTERN  (?:答案|参考答案)\s*[:：\s]\s*(.+), used with `search`

  /** What `\s*[:：\s]\s*(.+)` captures when it matches at the start of `r`, following
      the order in which the regular expression engine backtracks. */
  function MatchAnswerTail(r: string): (g: Option<string>)
    ensures g.Some? ==> g.value != [] && |g.value| < |r| && g.value == r[|r| - |g.value|..]
  {
    var a := SkipSpaces(r, 0);
    if a < |r| && (r[a] == ':' || r[a] == '：') then
      if a + 1 < |r| then
        var t := SkipSpaces(r, a + 1);
        Some(if t < |r| then r[t..] else r[|r| - 1..])
      else if a >= 1 then Some(r[a..])
      else None
    else if a < |r| then
      if a >= 1 then Some(r[a..]) else None
    else if |r| >= 2 then Some(r[|r| - 1..])
    else None
  }

  /** The pattern tried at position `p`: the alternative 答案 first, then 参考答案. */
  function MatchAnswerLineAt(line: string, p: nat): Option<string> {
    var first := if OccursAt(line, "答案", p) then MatchAnswerTail(line[p + 2..]) else None;
    if first.Some? then first
    else if OccursAt(line, "参考答案", p) then MatchAnswerTail(line[p + 4..])
    else None
  }

  function SearchAnswerLineFrom(line: string, p: nat): Option<string>
    decreases |line| + 1 - p
  {
    if p > |line| then None
    else
      var here := MatchAnswerLineAt(line, p);
      if here.Some? then here else SearchAnswerLineFrom(line, p + 1)
  }

  /** `ANSWER_LINE_PATTERN.search(line)`, giving group 1. */
  function SearchAnswerLine(line: string): Option<string> {
    SearchAnswerLineFrom(line, 0)
  }

  /** A match is the leftmost position at which the pattern matches, and what it captures
      is a non-empty tail of the line that leaves at least one separator behind the keyword. */
  lemma {:induction false} SearchAnswerLineFromSound(line: string, p: nat)
    requires SearchAnswerLineFrom(line, p).Some?
    ensures exists q: nat | p <= q <= |line| ::
      MatchAnswerLineAt(line, q) == SearchAnswerLineFrom(line, p)
      && forall m: nat | p <= m < q :: MatchAnswerLineAt(line, m).None?
    decreases |line| + 1 - p
  {
    if MatchAnswerLineAt(line, p).None? {
      SearchAnswerLineFromSound(line, p + 1);
    }
  }

  lemma AnswerLineCapture(line: string)
    requires SearchAnswerLine(line).Some?
    ensures SearchAnswerLine(line).value != []
    ensures exists q: nat | q <= |line| ::
      (OccursAt(line, "答案", q) || OccursAt(line, "参考答案", q))
      && q + 2 < |line| - |SearchAnswerLine(line).value|
    ensures SearchAnswerLine(line).value == line[|line| - |SearchAnswerLine(line).value|..]
  {
    SearchAnswerLineFromSound(line, 0);
    var q: nat :| q <= |line| && MatchAnswerLineAt(line, q) == SearchAnswerLine(line);
    var g := SearchAnswerLine(line).value;
    if OccursAt(line, "答案", q) && MatchAnswerTail(line[q + 2..]).Some? {
      assert MatchAnswerTail(line[q + 2..]) == Some(g);
      TailCapture(line, q + 2, g);
    } else {
      assert OccursAt(line, "参考答案", q);
      assert MatchAnswerTail(line[q + 4..]) == Some(g);
      TailCapture(line, q + 4, g);
    }
  }

  lemma TailCapture(line: string, p: nat, g: string)
    requires p <= |line| && MatchAnswerTail(line[p..]) == Some(g)
    ensures g != [] && p < |line| - |g| && g == line[|line| - |g|..]
  {
    assert line[p..][|line[p..]| - |g|..] == line[|line| - |g|..];
  }

  /** Search finds a match whenever the pattern matches at some later position. */
  lemma {:induction false} SearchAnswerLineFromComplete(line: string, p: nat, q: nat)
    requires p <= q <= |line| && MatchAnswerLineAt(line, q).Some?
    ensures SearchAnswerLineFrom(line, p).Some?
    decreases q - p
  {
    if p < q && MatchAnswerLineAt(line, p).None? {
      SearchAnswerLineFromComplete(line, p + 1, q);
    }
  }

  /** "答案：" or "参考答案：" at the start of a line captures what follows. */
  lemma ExplicitAnswerLine(v: string)
    requires v != [] && !IsSpace(v[0])
    ensures SearchAnswerLine("答案：" + v) == Some(v)
    ensures SearchAnswerLine("参考答案：" + v) == Some(v)
  {
    var l1 := "答案：" + v;
    assert OccursAt(l1, "答案", 0);
    assert l1[2..] == "：" + v;
    assert SkipSpaces(l1[2..], 0) == 0;
    assert SkipSpaces(l1[2..], 1) == 1;
    var l2 := "参考答案：" + v;
    assert l2[0] == '参';
    assert !OccursAt(l2, "答案", 0);
    assert OccursAt(l2, "参考答案", 0);
    assert l2[4..] == "：" + v;
    assert SkipSpaces(l2[4..], 0) == 0;
    assert SkipSpaces(l2[4..], 1) == 1;
  }

  // ---------------------------------------------------------------------------
  // Keyword lists

  const FillMarkers: seq<string> := ["____", "______", "（ ）", "( )", "___", "________"]

  const ComprehensiveKeywords: seq<string> := [
    "综合应用", "综合题", "综合应用题", "综合运用", "综合性", "综合案例", "综合训练", "综合练习", "综合分析"
  ]

  const CaseKeywords: seq<string> := [
    "案例分析", "案例题", "案例", "情景题", "情境题", "情景分析", "案例背景", "阅读下列材料", "阅读以下材料"
  ]

  /** "___" is itself a fill marker, so three underscores in a row are enough. */
  lemma UnderscoreRunIsFillMarker(stem: string)
    requires Contains(stem, "___")
    ensures ContainsAny(stem, FillMarkers)
  {
    assert FillMarkers[4] == "___";
  }

  /** "案例" is itself a case keyword, and lowering the stem keeps it. */
  lemma CaseWordIsCaseKeyword(stem: string)
    requires Contains(stem, "案例")
    ensures ContainsAny(Lower(stem), CaseKeywords)
  {
    var i: nat :| i <= |stem| && OccursAt(stem, "案例", i);
    LowerKeepsOccurrence(stem, "案例", i);
    assert CaseKeywords[2] == "案例";
    assert Contains(Lower(stem), CaseKeywords[2]);
  }
}
