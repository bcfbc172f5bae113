/** What the three answer aligners of recognizers/ share: the line extractors they
    copy from one another (explicit answer lines, trailing choice letters, numbered
    answer lists), the diff-based fill pieces, and the strategies
    that write answers into the question list in place. Each strategy is a method over
    the list of `Question` objects, proved against a function on their values. */
module AlignCommon {
  import opened Text
  import opened Config
  import opened Records
  import opened QuestionDetector
  import opened DetectorLemmas

  // ---------------------------------------------------------------------------
  // difflib.SequenceMatcher, supplied from outside

  datatype Tag = Equal | Replace | Insert | Delete

  /** One entry of `get_opcodes()`: `a[i1:i2]` becomes `b[j1:j2]`. */
  datatype Opcode = Opcode(tag: Tag, i1: nat, i2: nat, j1: nat, j2: nat)

  /** `SequenceMatcher(None, a, b)`: its edit script and its similarity ratio. */
  datatype Matcher = Matcher(opcodes: (string, string) -> seq<Opcode>, ratio: (string, string) -> real)

  function Min(a: nat, b: nat): nat { if a <= b then a else b }

  // ---------------------------------------------------------------------------
  // One value per accepted line

  function Present(o: Option<string>): seq<string> {
    match o
    case Some(v) => [v]
    case None => []
  }

  /** The values `f` gives for the lines it accepts, in line order: the loops that
      append one capture per matching line. */
  function Captures(lines: seq<string>, f: string -> Option<string>): (r: seq<string>)
    ensures |r| <= |lines|
  {
    if lines == [] then []
    else Captures(lines[..|lines| - 1], f) + Present(f(lines[|lines| - 1]))
  }

  /** The numbers of the lines `f` accepts, in order. */
  function CaptureLines(lines: seq<string>, f: string -> Option<string>): (idx: seq<nat>)
    ensures Increasing(idx) && forall k | 0 <= k < |idx| :: idx[k] < |lines|
  {
    if lines == [] then []
    else
      var prev := CaptureLines(lines[..|lines| - 1], f);
      if f(lines[|lines| - 1]).Some? then prev + [|lines| - 1] else prev
  }

  /** The k-th capture is what the k-th accepted line gives, and no accepted line is
      skipped. */
  lemma CapturesFromLines(lines: seq<string>, f: string -> Option<string>)
    ensures var idx := CaptureLines(lines, f);
      |idx| == |Captures(lines, f)|
      && (forall k | 0 <= k < |idx| :: f(lines[idx[k]]) == Some(Captures(lines, f)[k]))
      && (forall i | 0 <= i < |lines| && f(lines[i]).Some? :: i in idx)
  {
    CapturesMatchLines(lines, f);
    CaptureLinesComplete(lines, f);
  }

  lemma {:induction false} CapturesMatchLines(lines: seq<string>, f: string -> Option<string>)
    ensures var idx := CaptureLines(lines, f);
      |idx| == |Captures(lines, f)|
      && forall k | 0 <= k < |idx| :: f(lines[idx[k]]) == Some(Captures(lines, f)[k])
  {
    if lines != [] {
      var n := |lines| - 1;
      var init := lines[..n];
      CapturesMatchLines(init, f);
      var prev := CaptureLines(init, f);
      assert Captures(lines, f) == Captures(init, f) + Present(f(lines[n]));
      assert forall k | 0 <= k < |prev| :: lines[prev[k]] == init[prev[k]];
      if f(lines[n]).Some? {
        assert CaptureLines(lines, f) == prev + [n];
      } else {
        assert CaptureLines(lines, f) == prev;
      }
    }
  }

  lemma {:induction false} CaptureLinesComplete(lines: seq<string>, f: string -> Option<string>)
    ensures forall i | 0 <= i < |lines| && f(lines[i]).Some? :: i in CaptureLines(lines, f)
  {
    if lines != [] {
      var n := |lines| - 1;
      var init := lines[..n];
      CaptureLinesComplete(init, f);
      assert forall i | 0 <= i < |init| :: lines[i] == init[i];
    }
  }

  /** The loop `for line in lines: if accepted: answers.append(value)`. */
  method CollectCaptures(lines: seq<string>, f: string -> Option<string>) returns (caps: seq<string>)
    ensures caps == Captures(lines, f)
  {
    caps := [];
    for k := 0 to |lines|
      invariant caps == Captures(lines[..k], f)
    {
      assert lines[..k + 1][..k] == lines[..k];
      var v := f(lines[k]);
      if v.Some? {
        caps := caps + [v.value];
      }
    }
    assert lines[..|lines|] == lines;
  }

  /** `ANSWER_LINE_PATTERN.search(line)`, group 1 stripped. */
  function LineAnswer(line: string): Option<string> {
    match SearchAnswerLine(line)
    case Some(g) => Some(Strip(g))
    case None => None
  }

  /** `_extract_answers_from_text`: the stripped answer of each line carrying one, in
      line order, with no such line skipped. */
  function ExplicitAnswers(text: string): (r: seq<string>)
    ensures var lines := SplitLines(text);
      var idx := CaptureLines(lines, LineAnswer);
      |idx| == |r| && (forall k | 0 <= k < |r| :: LineAnswer(lines[idx[k]]) == Some(r[k]))
      && (forall i | 0 <= i < |lines| && LineAnswer(lines[i]).Some? :: i in idx)
  {
    CapturesFromLines(SplitLines(text), LineAnswer);
    Captures(SplitLines(text), LineAnswer)
  }

  // ---------------------------------------------------------------------------
  // Trailing choice letters: ^\d+[^\n]*?[。\.）\)]\s*([A-Ha-h]+)\s*$ on the stripped line

  predicate IsChoiceEnd(c: char) { c == '。' || c == '.' || c == '）' || c == ')' }
  predicate IsNotNewline(c: char) { c != '\n' }

  /** The letters are the run of A-H/a-h ending the stripped line; blanks and one of
      `。.）)` precede them, and the line starts with a digit with no newline before
      the delimiter. At most one delimiter position can fit, so the lazy part of the
      pattern has a single choice. */
  function TrailingLetters(line: string): Option<string> {
    TrailingLettersOf(Strip(line))
  }

  function TrailingLettersOf(s: string): Option<string> {
    var e := SkipBackWhile(s, |s|, IsOptionLetter);
    var q := SkipBackWhile(s, e, IsSpace);
    if e < |s| && 2 <= q && IsDigit(s[0]) && IsChoiceEnd(s[q - 1]) && q - 1 <= SkipWhile(s, 0, IsNotNewline)
    then Some(s[e..])
    else None
  }

  /** The pattern read directly: digit first, a delimiter at `q` with no newline before
      it, blanks, then the letters `v` up to the end. */
  predicate TrailingShape(s: string, q: nat, v: string) {
    1 <= q && q + 1 + |v| <= |s| && IsDigit(s[0]) && IsChoiceEnd(s[q]) && v != []
    && (forall k | 0 <= k < q :: s[k] != '\n')
    && s[|s| - |v|..] == v
    && (forall k | q < k < |s| - |v| :: IsSpace(s[k]))
    && (forall k | |s| - |v| <= k < |s| :: IsOptionLetter(s[k]))
  }

  lemma TrailingLettersHaveShape(s: string)
    requires TrailingLettersOf(s).Some?
    ensures TrailingShape(s, SkipBackWhile(s, SkipBackWhile(s, |s|, IsOptionLetter), IsSpace) - 1, TrailingLettersOf(s).value)
  {
  }

  lemma ShapeGivesTrailingLetters(s: string, q: nat, v: string)
    requires TrailingShape(s, q, v)
    ensures TrailingLettersOf(s) == Some(v)
  {
    var x := |s| - |v|;
    assert !IsOptionLetter(s[x - 1]);
    SkipBackWhileAt(s, |s|, IsOptionLetter, x);
    assert !IsSpace(s[q]);
    SkipBackWhileAt(s, x, IsSpace, q + 1);
    var n := SkipWhile(s, 0, IsNotNewline);
    assert q <= n;
  }

  /** The letters found are exactly those the pattern captures. */
  lemma TrailingLettersIff(line: string, v: string)
    ensures TrailingLetters(line) == Some(v) <==> exists q :: TrailingShape(Strip(line), q, v)
  {
    var s := Strip(line);
    if TrailingLettersOf(s) == Some(v) {
      TrailingLettersHaveShape(s);
    }
    if q: nat :| TrailingShape(s, q, v) {
      ShapeGivesTrailingLetters(s, q, v);
    }
  }

  /** `_extract_inline_choice_answers`: the trailing letters of each line ending in
      some, in line order, with no such line skipped. */
  function InlineChoiceAnswers(text: string): (r: seq<string>)
    ensures var lines := SplitLines(text);
      var idx := CaptureLines(lines, TrailingLetters);
      |idx| == |r| && (forall k | 0 <= k < |r| :: TrailingLetters(lines[idx[k]]) == Some(r[k]))
      && (forall i | 0 <= i < |lines| && TrailingLetters(lines[i]).Some? :: i in idx)
  {
    CapturesFromLines(SplitLines(text), TrailingLetters);
    Captures(SplitLines(text), TrailingLetters)
  }

  // ---------------------------------------------------------------------------
  // Numbered answer lists: (\d+)\s*[\.、]\s*([^0-9]+?)(?=\d+\s*[\.、]|$) and the
  // unspaced (\d+)\.([^0-9]+?)(?=\d+\.|$), under re.findall

  predicate IsNotDigit(c: char) { !IsDigit(c) }

  predicate IsIndexDelimiter(c: char, spaced: bool) { c == '.' || (spaced && c == '、') }

  /** Where the delimiter must stand once the digits end at `d`. */
  function DelimiterPos(s: string, d: nat, spaced: bool): (k: nat)
    requires d <= |s|
    ensures d <= k <= |s|
  {
    if spaced then SkipSpaces(s, d) else d
  }

  /** `\d+\s*[\.、]` (spaced) or `\d+\.` matches at `p`. */
  predicate IndexAt(s: string, p: nat, spaced: bool) {
    p < |s| &&
    var d := SkipWhile(s, p, IsDigit);
    var k := DelimiterPos(s, d, spaced);
    p < d && k < |s| && IsIndexDelimiter(s[k], spaced)
  }

  /** `([^0-9]+?)(?=\d+\s*[\.、]|$)` can capture `s[a..e)`: non-digits, then the lookahead
      (a number and its delimiter, or the end). */
  predicate AnswerFrom(s: string, a: nat, e: nat, spaced: bool) {
    a < e <= |s| && (forall i | a <= i < e :: !IsDigit(s[i])) && (e == |s| || IndexAt(s, e, spaced))
  }

  /** `\d+\s*[\.、]` can only match where a digit stands. */
  lemma IndexAtDigit(s: string, p: nat, spaced: bool)
    requires IndexAt(s, p, spaced)
    ensures IsDigit(s[p])
  {
  }

  /** A lazy answer from `a` can only end where the non-digit run from `a` ends. */
  lemma AnswerEndsWithRun(s: string, a: nat, spaced: bool)
    ensures forall e | AnswerFrom(s, a, e, spaced) :: e == SkipWhile(s, a, IsNotDigit)
  {
    forall e | AnswerFrom(s, a, e, spaced)
      ensures e == SkipWhile(s, a, IsNotDigit)
    {
      var r := SkipWhile(s, a, IsNotDigit);
      if e < r {
        IndexAtDigit(s, e, spaced);
      }
    }
  }

  /** The answer group once the delimiter is passed and the blanks after it end at `g`:
      the non-digit run from `g`, ending where the next number and delimiter (or the
      end) begins; when no such run fits, the spaced pattern gives back one blank as a
      one-character answer (`blank` says whether there is a blank to give back). */
  function AnswerSpan(s: string, g: nat, blank: bool, spaced: bool): (m: Option<(nat, nat)>)
    requires 1 <= g <= |s| && (blank ==> IsSpace(s[g - 1]))
    ensures m.Some? ==> g - 1 <= m.value.0 < m.value.1 <= |s|
    ensures m.Some? ==> AnswerFrom(s, m.value.0, m.value.1, spaced)
  {
    if g < |s| && !IsDigit(s[g]) then
      var e := SkipWhile(s, g, IsNotDigit);
      if e == |s| || IndexAt(s, e, spaced) then Some((g, e)) else None
    else if blank && (g == |s| || IndexAt(s, g, spaced)) then Some((g - 1, g))
    else None
  }

  /** The span found is the lazy group's: it ends at the first place the lookahead holds,
      it starts at `g` unless no answer fits there, and when none is found no answer fits
      at `g` or at the blank before it. */
  lemma AnswerSpanIsLazy(s: string, g: nat, blank: bool, spaced: bool)
    requires 1 <= g <= |s| && (blank ==> IsSpace(s[g - 1]))
    ensures var m := AnswerSpan(s, g, blank, spaced);
      m.Some? ==> forall e | m.value.0 < e < m.value.1 :: !IndexAt(s, e, spaced)
    ensures var m := AnswerSpan(s, g, blank, spaced);
      m.Some? ==> m.value.0 == g || (blank && m.value.0 == g - 1 && forall e :: !AnswerFrom(s, g, e, spaced))
    ensures var m := AnswerSpan(s, g, blank, spaced);
      m.None? ==> forall e :: !AnswerFrom(s, g, e, spaced) && !(blank && AnswerFrom(s, g - 1, e, spaced))
  {
    AnswerEndsWithRun(s, g, spaced);
    var m := AnswerSpan(s, g, blank, spaced);
    if g < |s| && !IsDigit(s[g]) {
      var e := SkipWhile(s, g, IsNotDigit);
      forall e' | g < e' < e
        ensures !IndexAt(s, e', spaced)
      {
        if IndexAt(s, e', spaced) {
          IndexAtDigit(s, e', spaced);
        }
      }
      if blank {
        AnswerEndsWithRun(s, g - 1, spaced);
        assert SkipWhile(s, g - 1, IsNotDigit) == e;
      }
    } else if blank {
      AnswerEndsWithRun(s, g - 1, spaced);
      assert SkipWhile(s, g - 1, IsNotDigit) == g;
    }
  }

  /** The whole pattern matches at `p` with its answer group at `s[a..e)`: the digit run
      from `p`, blanks (spaced form only), the delimiter, blanks, then the answer. */
  predicate IndexedShape(s: string, p: nat, spaced: bool, a: nat, e: nat) {
    IndexAt(s, p, spaced) &&
    var k := DelimiterPos(s, SkipWhile(s, p, IsDigit), spaced);
    AnswerFrom(s, a, e, spaced) && k + 1 <= a && (!spaced ==> a == k + 1)
    && forall i | k + 1 <= i < a :: IsSpace(s[i])
  }

  /** The pattern tried at `p`: the end of the number and the bounds of the answer. */
  function IndexedAnswerAt(s: string, p: nat, spaced: bool): (m: Option<(nat, nat, nat)>)
    ensures m.Some? ==> p < m.value.0 < m.value.1 < m.value.2 <= |s|
    ensures m.Some? ==> m.value.0 == SkipWhile(s, p, IsDigit) && !IsDigit(s[m.value.0])
    ensures m.Some? ==> IndexedShape(s, p, spaced, m.value.1, m.value.2)
  {
    if IndexAt(s, p, spaced) then
      var d := SkipWhile(s, p, IsDigit);
      var k := DelimiterPos(s, d, spaced);
      var g := if spaced then SkipSpaces(s, k + 1) else k + 1;
      match AnswerSpan(s, g, k + 1 < g, spaced)
      case Some(span) => Some((d, span.0, span.1))
      case None => None
    else None
  }

  /** The match found at `p` is the one the regex engine picks: of all the ways the
      pattern matches there, the one whose answer starts latest (the blanks before it
      are taken greedily), ending at the first place the lookahead holds; and when
      nothing is found, the pattern does not match at `p` at all. */
  lemma IndexedAnswerAtIsMatch(s: string, p: nat, spaced: bool)
    ensures var m := IndexedAnswerAt(s, p, spaced);
      m.Some? ==> forall e | m.value.1 < e < m.value.2 :: !IndexAt(s, e, spaced)
    ensures var m := IndexedAnswerAt(s, p, spaced);
      m.Some? ==> forall a: nat, e: nat | m.value.1 < a :: !IndexedShape(s, p, spaced, a, e)
    ensures IndexedAnswerAt(s, p, spaced).None? ==> forall a: nat, e: nat :: !IndexedShape(s, p, spaced, a, e)
  {
    if IndexAt(s, p, spaced) {
      var d := SkipWhile(s, p, IsDigit);
      var k := DelimiterPos(s, d, spaced);
      var g := if spaced then SkipSpaces(s, k + 1) else k + 1;
      var span := AnswerSpan(s, g, k + 1 < g, spaced);
      AnswerSpanIsLazy(s, g, k + 1 < g, spaced);
      assert IndexedAnswerAt(s, p, spaced) == if span.Some? then Some((d, span.value.0, span.value.1)) else None;
      forall a: nat, e: nat | IndexedShape(s, p, spaced, a, e)
        ensures span.Some? && a <= span.value.0
      {
        ShapeStartsInBlanks(s, p, spaced, a, e);
        SpanCoversAnswer(s, g, k + 1 < g, spaced, a, e);
      }
    }
  }

  /** A match's answer starts among the blanks after the delimiter. */
  lemma ShapeStartsInBlanks(s: string, p: nat, spaced: bool, a: nat, e: nat)
    requires IndexedShape(s, p, spaced, a, e)
    ensures var k := DelimiterPos(s, SkipWhile(s, p, IsDigit), spaced);
      var g := if spaced then SkipSpaces(s, k + 1) else k + 1;
      k + 1 <= a <= g <= |s| && AnswerFrom(s, a, e, spaced)
      && (forall i | a <= i < g :: IsSpace(s[i])) && (a < g ==> k + 1 < g)
  {
  }

  /** Any answer starting at or among the blanks before `g` is covered by the span found. */
  lemma SpanCoversAnswer(s: string, g: nat, blank: bool, spaced: bool, a: nat, e: nat)
    requires 1 <= g <= |s| && (blank ==> IsSpace(s[g - 1]))
    requires a <= g && (a < g ==> blank) && (forall i | a <= i < g :: IsSpace(s[i]))
    requires AnswerFrom(s, a, e, spaced)
    ensures var m := AnswerSpan(s, g, blank, spaced); m.Some? && a <= m.value.0
  {
    AnswerSpanIsLazy(s, g, blank, spaced);
    if a < g {
      AnswerPastBlanks(s, a, e, g, spaced);
    }
  }

  /** An answer that starts among the blanks before `g` either is the one blank just
      before `g` or runs on past `g`. */
  lemma AnswerPastBlanks(s: string, a: nat, e: nat, g: nat, spaced: bool)
    requires a < g <= |s| && forall i | a <= i < g :: IsSpace(s[i])
    requires AnswerFrom(s, a, e, spaced)
    ensures (e == g && AnswerFrom(s, g - 1, g, spaced)) || AnswerFrom(s, g, e, spaced)
  {
  }

  /** The (number, raw answer) pairs `re.findall` returns, scanning from `p`. */
  function IndexedAnswersFrom(s: string, p: nat, spaced: bool): (pairs: seq<(nat, string)>)
    ensures forall k | 0 <= k < |pairs| ::
      pairs[k].1 != [] && forall i | 0 <= i < |pairs[k].1| :: !IsDigit(pairs[k].1[i])
    decreases |s| - p
  {
    if p >= |s| then []
    else
      match IndexedAnswerAt(s, p, spaced)
      case Some(m) =>
        var answer := s[m.1..m.2];
        assert forall k | 0 <= k < |answer| :: answer[k] == s[m.1 + k];
        [(NumberValue(s[p..m.0]), answer)] + IndexedAnswersFrom(s, m.2, spaced)
      case None => IndexedAnswersFrom(s, p + 1, spaced)
  }

  /** The positions at which `re.findall` records a match, scanning from `p` up to `n`:
      `at(q)` is the end of the match tried at `q`, if any; a match resumes the scan at its
      end, a failure one position on. */
  function ScanStarts(at: nat -> Option<nat>, n: nat, p: nat): (r: seq<nat>)
    requires forall q: nat | q < n :: at(q).Some? ==> q < at(q).value <= n
    ensures forall i | 0 <= i < |r| :: p <= r[i] < n && at(r[i]).Some?
    decreases n - p
  {
    if p >= n then []
    else
      match at(p)
      case Some(e) => [p] + ScanStarts(at, n, e)
      case None => ScanStarts(at, n, p + 1)
  }

  /** No match starts in `[lo, hi)`. */
  predicate NoMatchIn(at: nat -> Option<nat>, lo: nat, hi: nat) {
    forall q: nat | lo <= q < hi :: at(q).None?
  }

  /** Each of the match positions `r` starts at or after the end of the one before. */
  predicate Chained(at: nat -> Option<nat>, r: seq<nat>) {
    forall i | 0 <= i < |r| - 1 :: at(r[i]).Some? && at(r[i]).value <= r[i + 1]
  }

  /** No match starts after the end of one of the positions `r` and before the next,
      or, after the last, before `n`. */
  predicate Gapless(at: nat -> Option<nat>, r: seq<nat>, n: nat) {
    forall i | 0 <= i < |r| :: at(r[i]).Some? && NoMatchIn(at, at(r[i]).value, if i == |r| - 1 then n else r[i + 1])
  }

  /** Each match the scan records starts at or after the end of the one before. */
  lemma {:induction false} ScanStartsOrdered(at: nat -> Option<nat>, n: nat, p: nat)
    requires forall q: nat | q < n :: at(q).Some? ==> q < at(q).value <= n
    ensures Chained(at, ScanStarts(at, n, p))
    decreases n - p
  {
    if p < n {
      match at(p)
      case Some(e) =>
        ScanStartsOrdered(at, n, e);
        var rest := ScanStarts(at, n, e);
        var r := [p] + rest;
        assert ScanStarts(at, n, p) == r;
        forall i | 0 <= i < |r| - 1
          ensures at(r[i]).Some? && at(r[i]).value <= r[i + 1]
        {
          if i > 0 {
            assert r[i] == rest[i - 1] && r[i + 1] == rest[i];
          }
        }
      case None =>
        ScanStartsOrdered(at, n, p + 1);
        assert ScanStarts(at, n, p) == ScanStarts(at, n, p + 1);
    }
  }

  /** No match starts between `p` and the first match the scan records. */
  lemma {:induction false} ScanStartsFirst(at: nat -> Option<nat>, n: nat, p: nat)
    requires forall q: nat | q < n :: at(q).Some? ==> q < at(q).value <= n
    ensures NoMatchIn(at, p, if ScanStarts(at, n, p) == [] then n else ScanStarts(at, n, p)[0])
    decreases n - p
  {
    if p < n && at(p).None? {
      ScanStartsFirst(at, n, p + 1);
    }
  }

  /** No match starts between the end of one recorded match and the start of the next,
      or after the end of the last. */
  lemma {:induction false} ScanStartsComplete(at: nat -> Option<nat>, n: nat, p: nat)
    requires forall q: nat | q < n :: at(q).Some? ==> q < at(q).value <= n
    ensures Gapless(at, ScanStarts(at, n, p), n)
    decreases n - p
  {
    if p < n {
      match at(p)
      case Some(e) =>
        ScanStartsComplete(at, n, e);
        ScanStartsFirst(at, n, e);
        var rest := ScanStarts(at, n, e);
        var r := [p] + rest;
        assert ScanStarts(at, n, p) == r;
        forall i | 0 <= i < |r|
          ensures at(r[i]).Some? && NoMatchIn(at, at(r[i]).value, if i == |r| - 1 then n else r[i + 1])
        {
          if i > 0 {
            assert r[i] == rest[i - 1];
          }
        }
      case None =>
        ScanStartsComplete(at, n, p + 1);
        assert ScanStarts(at, n, p) == ScanStarts(at, n, p + 1);
    }
  }

  /** Where the match tried at `q` ends. */
  function IndexedEnds(s: string, spaced: bool): nat -> Option<nat> {
    q => match IndexedAnswerAt(s, q, spaced) case Some(m) => Some(m.2) case None => None
  }

  /** The pair a match at `q` contributes: its digit run read as a number, and its answer. */
  function IndexedPair(s: string, q: nat, spaced: bool): (nat, string)
    requires IndexedAnswerAt(s, q, spaced).Some?
  {
    var m := IndexedAnswerAt(s, q, spaced).value;
    (NumberValue(s[q..m.0]), s[m.1..m.2])
  }

  /** The scan returns exactly the matches `re.findall` finds, in order: one pair per
      match position, and no match starts between them. */
  lemma {:induction false} IndexedAnswersAreMatches(s: string, p: nat, spaced: bool)
    ensures var starts := ScanStarts(IndexedEnds(s, spaced), |s|, p);
      var pairs := IndexedAnswersFrom(s, p, spaced);
      |pairs| == |starts| && forall i | 0 <= i < |pairs| :: pairs[i] == IndexedPair(s, starts[i], spaced)
    decreases |s| - p
  {
    if p < |s| {
      match IndexedAnswerAt(s, p, spaced)
      case Some(m) => IndexedAnswersAreMatches(s, m.2, spaced);
      case None => IndexedAnswersAreMatches(s, p + 1, spaced);
    }
  }

  /** `answer.strip().strip('（）() ')` */
  function Cleaned(raw: string): string {
    StripBrackets(Strip(raw))
  }

  /** Every pair with its answer cleaned. */
  function CleanedPairs(pairs: seq<(nat, string)>): (r: seq<(nat, string)>)
    ensures |r| == |pairs| && forall j | 0 <= j < |pairs| :: r[j] == (pairs[j].0, Cleaned(pairs[j].1))
  {
    seq(|pairs|, j requires 0 <= j < |pairs| => (pairs[j].0, Cleaned(pairs[j].1)))
  }

  // ---------------------------------------------------------------------------
  // Diff-based fill pieces

  /** What one opcode contributes: an inserted span, stripped and then stripped of
      brackets; and, when `blankReplace` holds, a replacement of a blank-only span. */
  function DiffPiece(op: Opcode, withAns: string, withoutAns: string, blankReplace: bool): (r: seq<string>)
    ensures |r| <= 1
    ensures r != [] ==> op.tag == Insert || (blankReplace && op.tag == Replace && Strip(Slice(withoutAns, op.i1, op.i2)) == [])
  {
    if op.tag == Insert then
      var seg := Strip(Slice(withAns, op.j1, op.j2));
      if seg != [] then [StripBrackets(seg)] else []
    else if blankReplace && op.tag == Replace then
      var seg := Strip(Slice(withAns, op.j1, op.j2));
      if seg != [] && Strip(Slice(withoutAns, op.i1, op.i2)) == [] then [seg] else []
    else []
  }

  function DiffPieces(ops: seq<Opcode>, withAns: string, withoutAns: string, blankReplace: bool): (r: seq<string>)
    ensures |r| <= |ops|
  {
    if ops == [] then []
    else DiffPieces(ops[..|ops| - 1], withAns, withoutAns, blankReplace) + DiffPiece(ops[|ops| - 1], withAns, withoutAns, blankReplace)
  }

  /** `"；".join(pieces) if pieces else None` */
  function JoinPieces(pieces: seq<string>): (r: Option<string>)
    ensures r.None? <==> pieces == []
  {
    if pieces == [] then None else Some(Join("；", pieces))
  }

  /** `_extract_fill_answer` of answer_aligner_old.py and answer_aligner_bak.py: the
      diff alone, inserts and blank replacements. */
  function DiffFillAnswer(m: Matcher, withAns: string, withoutAns: string): (r: Option<string>)
    ensures r.None? <==> forall op <- m.opcodes(withoutAns, withAns) :: DiffPiece(op, withAns, withoutAns, true) == []
  {
    DiffPiecesEmpty(m.opcodes(withoutAns, withAns), withAns, withoutAns, true);
    JoinPieces(DiffPieces(m.opcodes(withoutAns, withAns), withAns, withoutAns, true))
  }

  /** A diff-based answer is present exactly when some opcode contributes a piece. */
  lemma {:induction false} DiffPiecesEmpty(ops: seq<Opcode>, withAns: string, withoutAns: string, blankReplace: bool)
    ensures DiffPieces(ops, withAns, withoutAns, blankReplace) == [] <==>
      forall op <- ops :: DiffPiece(op, withAns, withoutAns, blankReplace) == []
  {
    if ops != [] {
      var init := ops[..|ops| - 1];
      DiffPiecesEmpty(init, withAns, withoutAns, blankReplace);
      assert ops == init + [ops[|ops| - 1]];
    }
  }

  // ---------------------------------------------------------------------------
  // Writing answers into the question list

  /** `questions[i].answer = a` on a list of distinct objects. */
  method SetAnswer(qs: seq<Question>, i: nat, a: Option<string>)
    requires Distinct(qs) && i < |qs|
    modifies qs[i]
    ensures Snapshot(qs) == old(Snapshot(qs))[i := old(Snapshot(qs))[i].(answer := a)]
  {
    qs[i].answer := a;
  }

  /** The explicit answers laid over the first records in order; unless `overwrite`
      holds an answered record keeps its answer. */
  function Positional(rs: seq<QuestionRecord>, answers: seq<string>, overwrite: bool): (r: seq<QuestionRecord>)
    ensures SameShape(rs, r)
    ensures forall k | 0 <= k < |rs| :: r[k].answer == if k < |answers| && (overwrite || !Answered(rs[k].answer)) then Some(answers[k]) else rs[k].answer
  {
    seq(|rs|, k requires 0 <= k < |rs| =>
      if k < |answers| && (overwrite || !Answered(rs[k].answer)) then rs[k].(answer := Some(answers[k])) else rs[k])
  }

  method AssignPositional(qs: seq<Question>, answers: seq<string>, overwrite: bool)
    requires Distinct(qs) && |answers| <= |qs|
    modifies qs
    ensures Snapshot(qs) == Positional(old(Snapshot(qs)), answers, overwrite)
  {
    ghost var rs := Snapshot(qs);
    for k := 0 to |answers|
      invariant Snapshot(qs) == Positional(rs, answers[..k], overwrite)
    {
      if overwrite || !Answered(qs[k].answer) {
        SetAnswer(qs, k, Some(answers[k]));
      }
      assert Snapshot(qs) == Positional(rs, answers[..k + 1], overwrite);
    }
    assert answers[..|answers|] == answers;
  }

  predicate IsChoiceTarget(r: QuestionRecord, unansweredOnly: bool) {
    r.qtype == Choice && (unansweredOnly ==> !Answered(r.answer))
  }

  /** `[i for i, q in enumerate(qs) if q.type == "choice"]`, with `and not q.answer`
      when `unansweredOnly` holds. */
  function ChoiceIndices(rs: seq<QuestionRecord>, unansweredOnly: bool): (idx: seq<nat>)
    ensures Increasing(idx)
    ensures forall k | 0 <= k < |idx| :: idx[k] < |rs| && IsChoiceTarget(rs[idx[k]], unansweredOnly)
    ensures forall i | 0 <= i < |rs| && IsChoiceTarget(rs[i], unansweredOnly) :: i in idx
  {
    if rs == [] then []
    else
      var init := rs[..|rs| - 1];
      var prev := ChoiceIndices(init, unansweredOnly);
      assert forall k | 0 <= k < |prev| :: rs[prev[k]] == init[prev[k]];
      if IsChoiceTarget(rs[|rs| - 1], unansweredOnly) then prev + [|rs| - 1] else prev
  }

  /** The first `n` pairs of `zip(vals, idx)` written one after the other. */
  function AssignAt(rs: seq<QuestionRecord>, idx: seq<nat>, vals: seq<string>, n: nat): (r: seq<QuestionRecord>)
    requires n <= |idx| && n <= |vals| && forall k | 0 <= k < |idx| :: idx[k] < |rs|
    ensures |r| == |rs|
  {
    if n == 0 then rs
    else
      var prev := AssignAt(rs, idx, vals, n - 1);
      prev[idx[n - 1] := prev[idx[n - 1]].(answer := Some(vals[n - 1]))]
  }

  /** With increasing positions, the j-th position gets the j-th value and every other
      record is untouched. */
  lemma {:induction false} AssignAtEffect(rs: seq<QuestionRecord>, idx: seq<nat>, vals: seq<string>, n: nat)
    requires n <= |idx| && n <= |vals| && forall k | 0 <= k < |idx| :: idx[k] < |rs|
    requires Increasing(idx)
    ensures var r := AssignAt(rs, idx, vals, n);
      SameShape(rs, r)
      && (forall j | 0 <= j < n :: r[idx[j]].answer == Some(vals[j]))
      && (forall i | 0 <= i < |rs| && i !in idx[..n] :: r[i] == rs[i])
  {
    if n > 0 {
      AssignAtEffect(rs, idx, vals, n - 1);
      var prev := AssignAt(rs, idx, vals, n - 1);
      var r := AssignAt(rs, idx, vals, n);
      var p := idx[n - 1];
      assert r == prev[p := prev[p].(answer := Some(vals[n - 1]))];
      assert SameShape(prev, r);
      SameShapeTransitive(rs, prev, r);
      forall j | 0 <= j < n
        ensures r[idx[j]].answer == Some(vals[j])
      {
        if j < n - 1 {
          assert idx[j] < p;
        }
      }
      assert idx[..n] == idx[..n - 1] + [p];
      forall i | 0 <= i < |rs| && i !in idx[..n]
        ensures r[i] == rs[i]
      {
        assert i !in idx[..n - 1] && i != p;
      }
    }
  }

  /** The trailing-letter strategy: `zip(inline_choice, choice_idxs)`. */
  function InlineAssigned(rs: seq<QuestionRecord>, letters: seq<string>, unansweredOnly: bool): seq<QuestionRecord> {
    var idx := ChoiceIndices(rs, unansweredOnly);
    AssignAt(rs, idx, letters, Min(|letters|, |idx|))
  }

  /** The j-th targeted choice question gets the j-th letters, as far as both lists
      go; no other record changes. */
  lemma InlineAssignedEffect(rs: seq<QuestionRecord>, letters: seq<string>, unansweredOnly: bool)
    ensures var r := InlineAssigned(rs, letters, unansweredOnly);
      var idx := ChoiceIndices(rs, unansweredOnly);
      SameShape(rs, r)
      && (forall j | 0 <= j < Min(|letters|, |idx|) :: r[idx[j]].answer == Some(letters[j]))
      && (forall i | 0 <= i < |rs| && !IsChoiceTarget(rs[i], unansweredOnly) :: r[i] == rs[i])
  {
    var idx := ChoiceIndices(rs, unansweredOnly);
    var n := Min(|letters|, |idx|);
    AssignAtEffect(rs, idx, letters, n);
    forall i | 0 <= i < |rs| && !IsChoiceTarget(rs[i], unansweredOnly)
      ensures i !in idx[..n]
    {
    }
  }

  method AssignInline(qs: seq<Question>, letters: seq<string>, unansweredOnly: bool)
    requires Distinct(qs)
    modifies qs
    ensures Snapshot(qs) == InlineAssigned(old(Snapshot(qs)), letters, unansweredOnly)
  {
    var rs := Snapshot(qs);
    var idx := ChoiceIndices(rs, unansweredOnly);
    for k := 0 to Min(|letters|, |idx|)
      invariant Snapshot(qs) == AssignAt(rs, idx, letters, k)
    {
      SetAnswer(qs, idx[k], Some(letters[k]));
    }
  }

  /** One pair of the pairwise pass: an answered record is skipped; a fill record takes
      the extracted answer when it is non-empty; a choice record takes the answered
      copy's answer. */
  function PairStep(base: QuestionRecord, answered: QuestionRecord, fill: (string, string) -> Option<string>): QuestionRecord {
    if Answered(base.answer) then base
    else if base.qtype == Fill then
      var fa := fill(answered.stem, base.stem);
      if Answered(fa) then base.(answer := fa) else base
    else if base.qtype == Choice && Answered(answered.answer) then base.(answer := answered.answer)
    else base
  }

  function PairwiseFilled(rs: seq<QuestionRecord>, answered: seq<QuestionRecord>, fill: (string, string) -> Option<string>): (r: seq<QuestionRecord>)
    requires |answered| == |rs|
    ensures SameShape(rs, r)
  {
    seq(|rs|, k requires 0 <= k < |rs| => PairStep(rs[k], answered[k], fill))
  }

  /** Against a re-segmentation, whose records carry no answer, the pairwise pass only
      ever answers unanswered fill records: its choice branch cannot fire. */
  lemma PairwiseOnlyFill(rs: seq<QuestionRecord>, answered: seq<QuestionRecord>, fill: (string, string) -> Option<string>)
    requires |answered| == |rs| && forall a <- answered :: a.answer.None?
    ensures forall k | 0 <= k < |rs| :: PairwiseFilled(rs, answered, fill)[k] != rs[k] ==>
      rs[k].qtype == Fill && !Answered(rs[k].answer)
  {
    forall k | 0 <= k < |rs|
      ensures PairwiseFilled(rs, answered, fill)[k] != rs[k] ==> rs[k].qtype == Fill && !Answered(rs[k].answer)
    {
      assert answered[k] in answered;
    }
  }

  method PairwiseFill(qs: seq<Question>, answered: seq<QuestionRecord>, fill: (string, string) -> Option<string>)
    requires Distinct(qs) && |answered| == |qs|
    modifies qs
    ensures Snapshot(qs) == PairwiseFilled(old(Snapshot(qs)), answered, fill)
  {
    ghost var rs := Snapshot(qs);
    for k := 0 to |qs|
      invariant forall j | 0 <= j < |qs| :: qs[j].Record() == if j < k then PairStep(rs[j], answered[j], fill) else rs[j]
    {
      var base := qs[k];
      if Answered(base.answer) {
        continue;
      }
      if base.qtype == Fill {
        var fa := fill(answered[k].stem, base.stem);
        if Answered(fa) {
          SetAnswer(qs, k, fa);
        }
      } else if base.qtype == Choice && Answered(answered[k].answer) {
        SetAnswer(qs, k, answered[k].answer);
      }
    }
  }

  // ---------------------------------------------------------------------------
  // The similarity fallback

  /** The scan for the best candidate over the first `n` candidates, starting from
      index -1 and score 0.0 and moving only on a strictly greater score. */
  function BestIn(stem: string, cands: seq<QuestionRecord>, ratio: (string, string) -> real, n: nat): (int, real)
    requires n <= |cands|
  {
    if n == 0 then (-1, 0.0)
    else
      var prev := BestIn(stem, cands, ratio, n - 1);
      var score := ratio(stem, cands[n - 1].stem);
      if score > prev.1 then (n - 1, score) else prev
  }

  /** The scan finds the first candidate of strictly positive maximal score, or -1 when
      no score is positive. */
  lemma {:induction false} BestInFirstMax(stem: string, cands: seq<QuestionRecord>, ratio: (string, string) -> real, n: nat)
    requires n <= |cands|
    ensures var (i, s) := BestIn(stem, cands, ratio, n);
      (i == -1 && s == 0.0 && forall j | 0 <= j < n :: ratio(stem, cands[j].stem) <= 0.0)
      || (0 <= i < n && s == ratio(stem, cands[i].stem) && s > 0.0
          && (forall j | 0 <= j < n :: ratio(stem, cands[j].stem) <= s)
          && (forall j | 0 <= j < i :: ratio(stem, cands[j].stem) < s))
  {
    if n > 0 {
      BestInFirstMax(stem, cands, ratio, n - 1);
    }
  }

  method FindBest(stem: string, cands: seq<QuestionRecord>, ratio: (string, string) -> real) returns (bestIdx: int, bestScore: real)
    ensures (bestIdx, bestScore) == BestIn(stem, cands, ratio, |cands|)
  {
    bestIdx, bestScore := -1, 0.0;
    for k := 0 to |cands|
      invariant (bestIdx, bestScore) == BestIn(stem, cands, ratio, k)
    {
      var score := ratio(stem, cands[k].stem);
      if score > bestScore {
        bestScore := score;
        bestIdx := k;
      }
    }
  }

  /** The records and the candidates not yet consumed. */
  datatype Pool = Pool(records: seq<QuestionRecord>, remaining: seq<QuestionRecord>)

  /** The pass over base record `i`. */
  function SimilarityStep(p: Pool, i: nat, m: Matcher, fill: (string, string) -> Option<string>): Pool
    requires i < |p.records|
  {
    var base := p.records[i];
    if Answered(base.answer) || base.qtype != Fill then p
    else
      var best := BestIn(base.stem, p.remaining, m.ratio, |p.remaining|);
      if best.0 >= 0 && best.1 >= 0.6 then
        BestInRange(base.stem, p.remaining, m.ratio);
        var cand := p.remaining[best.0];
        var rest := p.remaining[..best.0] + p.remaining[best.0 + 1..];
        var fa := fill(cand.stem, base.stem);
        Pool(if Answered(fa) then p.records[i := base.(answer := fa)] else p.records, rest)
      else p
  }

  lemma BestInRange(stem: string, cands: seq<QuestionRecord>, ratio: (string, string) -> real)
    ensures BestIn(stem, cands, ratio, |cands|).0 < |cands|
  {
    BestInFirstMax(stem, cands, ratio, |cands|);
  }

  function SimilarityUpTo(rs: seq<QuestionRecord>, answered: seq<QuestionRecord>, m: Matcher,
                          fill: (string, string) -> Option<string>, n: nat): (p: Pool)
    requires n <= |rs|
    ensures |p.records| == |rs|
  {
    if n == 0 then Pool(rs, answered)
    else SimilarityStep(SimilarityUpTo(rs, answered, m, fill, n - 1), n - 1, m, fill)
  }

  /** The similarity fallback over all base records. */
  function SimilarityFilled(rs: seq<QuestionRecord>, answered: seq<QuestionRecord>, m: Matcher,
                            fill: (string, string) -> Option<string>): seq<QuestionRecord> {
    SimilarityUpTo(rs, answered, m, fill, |rs|).records
  }

  /** One pass changes at most record `i`, only an unanswered fill record, and only its
      answer; it consumes exactly one candidate when the best score reaches 0.6, whether
      or not an answer comes out of it, and none otherwise. */
  lemma SimilarityStepEffect(p: Pool, i: nat, m: Matcher, fill: (string, string) -> Option<string>)
    requires i < |p.records|
    ensures var q := SimilarityStep(p, i, m, fill);
      var base := p.records[i];
      SameShape(p.records, q.records)
      && (forall k | 0 <= k < |p.records| && k != i :: q.records[k] == p.records[k])
      && (q.records[i] != base ==> !Answered(base.answer) && base.qtype == Fill)
      && (var best := BestIn(base.stem, p.remaining, m.ratio, |p.remaining|);
          if !Answered(base.answer) && base.qtype == Fill && best.0 >= 0 && best.1 >= 0.6 then
            0 <= best.0 < |p.remaining|
            && multiset(q.remaining) + multiset{p.remaining[best.0]} == multiset(p.remaining)
          else q.remaining == p.remaining)
  {
    var base := p.records[i];
    var best := BestIn(base.stem, p.remaining, m.ratio, |p.remaining|);
    if !Answered(base.answer) && base.qtype == Fill && best.0 >= 0 && best.1 >= 0.6 {
      BestInRange(base.stem, p.remaining, m.ratio);
      var b := best.0;
      assert p.remaining == p.remaining[..b] + [p.remaining[b]] + p.remaining[b + 1..];
    }
  }

  lemma {:induction false} SimilarityKeepsShape(rs: seq<QuestionRecord>, answered: seq<QuestionRecord>, m: Matcher,
                                                 fill: (string, string) -> Option<string>, n: nat)
    requires n <= |rs|
    ensures SameShape(rs, SimilarityUpTo(rs, answered, m, fill, n).records)
  {
    if n > 0 {
      var p := SimilarityUpTo(rs, answered, m, fill, n - 1);
      SimilarityKeepsShape(rs, answered, m, fill, n - 1);
      SimilarityStepEffect(p, n - 1, m, fill);
      SameShapeTransitive(rs, p.records, SimilarityStep(p, n - 1, m, fill).records);
    }
  }

  method SimilarityFallback(qs: seq<Question>, answered: seq<QuestionRecord>, m: Matcher,
                            fill: (string, string) -> Option<string>)
    requires Distinct(qs)
    modifies qs
    ensures Snapshot(qs) == SimilarityFilled(old(Snapshot(qs)), answered, m, fill)
  {
    ghost var rs := Snapshot(qs);
    var remaining := answered;
    for i := 0 to |qs|
      invariant Pool(Snapshot(qs), remaining) == SimilarityUpTo(rs, answered, m, fill, i)
    {
      remaining := SimilarityVisit(qs, i, remaining, m, fill);
    }
  }

  /** The body of the fallback loop for base record `i`; returns the new candidate list. */
  method SimilarityVisit(qs: seq<Question>, i: nat, remaining: seq<QuestionRecord>, m: Matcher,
                         fill: (string, string) -> Option<string>) returns (rest: seq<QuestionRecord>)
    requires Distinct(qs) && i < |qs|
    modifies qs
    ensures Pool(Snapshot(qs), rest) == SimilarityStep(Pool(old(Snapshot(qs)), remaining), i, m, fill)
  {
    rest := remaining;
    var base := qs[i];
    if Answered(base.answer) || base.qtype != Fill {
      return;
    }
    var bestIdx, bestScore := FindBest(base.stem, remaining, m.ratio);
    if bestIdx >= 0 && bestScore >= 0.6 {
      BestInRange(base.stem, remaining, m.ratio);
      var cand := remaining[bestIdx];
      rest := remaining[..bestIdx] + remaining[bestIdx + 1..];
      var fa := fill(cand.stem, base.stem);
      if Answered(fa) {
        SetAnswer(qs, i, fa);
      }
    }
  }

  // ---------------------------------------------------------------------------
  // The global diff fallback, `_align_by_sequence`

  /** The stripped inserted spans of the edit script, in order. */
  function InsertSegments(ops: seq<Opcode>, withText: string): (segs: seq<string>)
    ensures |segs| <= |ops|
  {
    if ops == [] then []
    else
      var op := ops[|ops| - 1];
      InsertSegments(ops[..|ops| - 1], withText) + if op.tag == Insert then [Strip(Slice(withText, op.j1, op.j2))] else []
  }

  /** `[seg for seg in segs if seg and len(seg) < 200]` */
  function ShortSegments(segs: seq<string>): (r: seq<string>)
    ensures forall k | 0 <= k < |r| :: r[k] != [] && |r[k]| < 200 && r[k] in segs
  {
    if segs == [] then []
    else
      var s := segs[|segs| - 1];
      var prev := ShortSegments(segs[..|segs| - 1]);
      assert forall x <- prev :: x in segs;
      prev + if s != [] && |s| < 200 then [s] else []
  }

  function SequenceAnswers(withText: string, withoutText: string, m: Matcher): seq<string> {
    ShortSegments(InsertSegments(m.opcodes(withoutText, withText), withText))
  }

  /** The k-th short inserted segment goes to record k, only if its answer is None. */
  function SequenceAligned(rs: seq<QuestionRecord>, answers: seq<string>): (r: seq<QuestionRecord>)
    ensures SameShape(rs, r)
    ensures forall k | 0 <= k < |rs| && rs[k].answer.Some? :: r[k] == rs[k]
  {
    seq(|rs|, k requires 0 <= k < |rs| =>
      if k < |answers| && rs[k].answer.None? then rs[k].(answer := Some(answers[k])) else rs[k])
  }

  method CollectInsertSegments(ops: seq<Opcode>, withText: string) returns (segs: seq<string>)
    ensures segs == InsertSegments(ops, withText)
  {
    segs := [];
    for k := 0 to |ops|
      invariant segs == InsertSegments(ops[..k], withText)
    {
      assert ops[..k + 1][..k] == ops[..k];
      if ops[k].tag == Insert {
        segs := segs + [Strip(Slice(withText, ops[k].j1, ops[k].j2))];
      }
    }
    assert ops[..|ops|] == ops;
  }

  /** `_align_by_sequence(with_ans_text, without_ans_text, questions)` */
  method AlignBySequence(withText: string, withoutText: string, qs: seq<Question>, m: Matcher)
    requires Distinct(qs)
    modifies qs
    ensures Snapshot(qs) == SequenceAligned(old(Snapshot(qs)), SequenceAnswers(withText, withoutText, m))
  {
    ghost var rs := Snapshot(qs);
    var extra := CollectInsertSegments(m.opcodes(withoutText, withText), withText);
    var answers := ShortSegments(extra);
    for k := 0 to |answers|
      invariant Snapshot(qs) == SequenceAligned(rs, answers[..k])
    {
      SequenceAlignedSnoc(rs, answers, k);
      if k < |qs| && qs[k].answer.None? {
        SetAnswer(qs, k, Some(answers[k]));
      }
    }
    assert answers[..|answers|] == answers;
  }

  lemma SequenceAlignedSnoc(rs: seq<QuestionRecord>, answers: seq<string>, k: nat)
    requires k < |answers|
    ensures var prev := SequenceAligned(rs, answers[..k]);
      (k < |rs| ==> prev[k] == rs[k])
      && SequenceAligned(rs, answers[..k + 1])
           == if k < |rs| && rs[k].answer.None? then prev[k := rs[k].(answer := Some(answers[k]))] else prev
  {
  }

  // ---------------------------------------------------------------------------
  // The stages the live and the old aligner share, in their order

  /** Explicit answer lines, no more than the questions, laid over the first ones. */
  function ExplicitStep(base: seq<QuestionRecord>, extracted: seq<string>, overwrite: bool): (r: seq<QuestionRecord>)
    ensures SameShape(base, r)
  {
    if extracted != [] && |extracted| <= |base| then Positional(base, extracted, overwrite) else base
  }

  /** With no more answer lines than questions, the k-th line answers the k-th question
      (an answered one only when `overwrite` holds) and later questions are untouched;
      with more lines than questions, nothing is assigned. */
  lemma ExplicitStepEffect(base: seq<QuestionRecord>, extracted: seq<string>, overwrite: bool)
    ensures var r := ExplicitStep(base, extracted, overwrite);
      (|extracted| > |base| ==> r == base)
      && (|extracted| <= |base| ==>
            (forall k | 0 <= k < |extracted| && (overwrite || !Answered(base[k].answer)) :: r[k].answer == Some(extracted[k]))
            && (forall k | 0 <= k < |base| && (k >= |extracted| || (!overwrite && Answered(base[k].answer))) :: r[k] == base[k]))
  {
    var r := ExplicitStep(base, extracted, overwrite);
    if extracted != [] && |extracted| <= |base| {
      forall k | 0 <= k < |base| && (k >= |extracted| || (!overwrite && Answered(base[k].answer)))
        ensures r[k] == base[k]
      {
        assert r[k].answer == base[k].answer;
      }
    }
  }

  /** Trailing letters given to the targeted choice questions in order. */
  function InlineStep(s1: seq<QuestionRecord>, inline: seq<string>, unansweredOnly: bool): seq<QuestionRecord> {
    if inline != [] then InlineAssigned(s1, inline, unansweredOnly) else s1
  }

  lemma InlineStepKeepsQuestions(s1: seq<QuestionRecord>, inline: seq<string>, unansweredOnly: bool)
    ensures SameShape(s1, InlineStep(s1, inline, unansweredOnly))
  {
    if inline != [] {
      InlineAssignedEffect(s1, inline, unansweredOnly);
    }
  }

  /** The fill strategies against the re-segmented answer text, then the global diff. */
  function LateStages(s2: seq<QuestionRecord>, text: string, withoutAns: string, m: Matcher,
                      fill: (string, string) -> Option<string>): seq<QuestionRecord> {
    var answered := Detect(text, map[]);
    var s3 := if |answered| == |s2| then PairwiseFilled(s2, answered, fill) else s2;
    var s4 := if answered != [] then SimilarityFilled(s3, answered, m, fill) else s3;
    SequenceAligned(s4, SequenceAnswers(text, withoutAns, m))
  }

  lemma LateStagesKeepQuestions(s2: seq<QuestionRecord>, text: string, withoutAns: string, m: Matcher,
                                fill: (string, string) -> Option<string>)
    ensures SameShape(s2, LateStages(s2, text, withoutAns, m, fill))
  {
    var answered := Detect(text, map[]);
    var s3 := if |answered| == |s2| then PairwiseFilled(s2, answered, fill) else s2;
    var s4 := if answered != [] then SimilarityFilled(s3, answered, m, fill) else s3;
    SimilarityKeepsShape(s3, answered, m, fill, |s3|);
    SameShapeTransitive(s2, s3, s4);
    SameShapeTransitive(s2, s4, SequenceAligned(s4, SequenceAnswers(text, withoutAns, m)));
  }

  /** Against the re-segmented answer text, whose records carry no answers, the
      pairwise pass answers only unanswered fill questions: its choice branch cannot
      fire. */
  lemma PairwiseChoiceBranchDead(s2: seq<QuestionRecord>, text: string, fill: (string, string) -> Option<string>)
    requires |Detect(text, map[])| == |s2|
    ensures var r := PairwiseFilled(s2, Detect(text, map[]), fill);
      forall k | 0 <= k < |s2| :: r[k] != s2[k] ==> s2[k].qtype == Fill && !Answered(s2[k].answer)
  {
    var answered := Detect(text, map[]);
    DetectWellFormed(text, map[]);
    PairwiseOnlyFill(s2, answered, fill);
  }

  method ApplyExplicit(qs: seq<Question>, extracted: seq<string>, overwrite: bool)
    requires Distinct(qs)
    modifies qs
    ensures Snapshot(qs) == ExplicitStep(old(Snapshot(qs)), extracted, overwrite)
  {
    if extracted != [] && |extracted| <= |qs| {
      AssignPositional(qs, extracted, overwrite);
    }
  }

  method ApplyInline(qs: seq<Question>, text: string, unansweredOnly: bool)
    requires Distinct(qs)
    modifies qs
    ensures Snapshot(qs) == InlineStep(old(Snapshot(qs)), InlineChoiceAnswers(text), unansweredOnly)
  {
    var inline := CollectCaptures(SplitLines(text), TrailingLetters);
    if inline != [] {
      AssignInline(qs, inline, unansweredOnly);
    }
  }

  method ApplyLateStages(qs: seq<Question>, text: string, withoutAns: string, m: Matcher,
                         fill: (string, string) -> Option<string>)
    requires Distinct(qs)
    modifies qs
    ensures Snapshot(qs) == LateStages(old(Snapshot(qs)), text, withoutAns, m, fill)
  {
    var answered := DetectQuestions(text, map[]);
    if |answered| == |qs| {
      PairwiseFill(qs, answered, fill);
    }
    if answered != [] {
      SimilarityFallback(qs, answered, m, fill);
    }
    AlignBySequence(text, withoutAns, qs, m);
  }
}
