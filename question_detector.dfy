/** recognizers/question_detector.py: the line-by-line scanner that turns a document's
    plain text into question records, and the type classifier it calls on each stem.
    The scanner is specified as a fold of `StepLine` over the lines (`Detect`) and
    implemented by the `Detector` class and the `DetectQuestions` method. */
module QuestionDetector {
  import opened Text
  import opened Config
  import opened Records

  // ---------------------------------------------------------------------------
  // Patterns used by _detect_type

  predicate IsOpenQuote(c: char) { c == '"' || c == '\U{201c}' }
  predicate IsCloseQuote(c: char) { c == '"' || c == '\U{201d}' }
  predicate IsNotQuote(c: char) { c != '"' && c != '\U{201c}' && c != '\U{201d}' }

  /** `["“](\s+)["”]` matches at `i`: a quote, blanks only, a quote. */
  predicate BlankInQuotesAt(s: string, i: nat) {
    i < |s| && IsOpenQuote(s[i]) &&
    var k := SkipSpaces(s, i + 1);
    i + 1 < k < |s| && IsCloseQuote(s[k])
  }

  predicate HasBlankInQuotes(s: string) {
    exists i: nat | i < |s| :: BlankInQuotesAt(s, i)
  }

  /** `re.sub(r'["“][^"“”]+["”]', '', s[i:])`: every quoted span holding no quote
      character is removed, scanning left to right. */
  function RemoveQuotedFrom(s: string, i: nat): (r: string)
    requires i <= |s|
    ensures |r| <= |s| - i
    decreases |s| - i
  {
    if i == |s| then []
    else if IsOpenQuote(s[i]) then
      var k := SkipWhile(s, i + 1, IsNotQuote);
      if i + 1 < k < |s| && IsCloseQuote(s[k]) then RemoveQuotedFrom(s, k + 1)
      else [s[i]] + RemoveQuotedFrom(s, i + 1)
    else [s[i]] + RemoveQuotedFrom(s, i + 1)
  }

  /** A character that may follow a blank gap after a CJK ideograph. */
  predicate IsGapFollower(c: char) { IsCjk(c) || c in "，。、；：！？）》" }

  /** `[一-鿿]\s+[一-鿿，。、；：！？）》]` matches at `i`. */
  predicate CjkGapAt(s: string, i: nat) {
    i < |s| && IsCjk(s[i]) &&
    var k := SkipSpaces(s, i + 1);
    i + 1 < k < |s| && IsGapFollower(s[k])
  }

  predicate HasCjkGap(s: string) {
    exists i: nat | i < |s| :: CjkGapAt(s, i)
  }

  /** `\s{2,}` */
  predicate HasSpaceRun(s: string) {
    exists i: nat | i + 1 < |s| :: IsSpace(s[i]) && IsSpace(s[i + 1])
  }

  /** `_detect_type`. The keyword lists hold no ASCII letters, so lowering a keyword
      leaves it unchanged. `hasMultipleCorrect` is accepted and ignored, as in the
      source. The second pair of keyword tests repeats tests that already failed. */
  function DetectType(stem: string, options: seq<string>, hasMultipleCorrect: bool): (t: QType)
    ensures t == Choice <==> |options| >= 2
    ensures t == Judge <==> |options| < 2 && HasJudgeMarker(stem)
    ensures t != Multi
  {
    if |options| >= 2 then Choice
    else if HasJudgeMarker(stem) then Judge
    else if ContainsAny(stem, FillMarkers) then Fill
    else if ContainsAny(Lower(stem), ComprehensiveKeywords) then Comprehensive
    else if ContainsAny(Lower(stem), CaseKeywords) then Case
    else if HasBlankInQuotes(stem) then Fill
    else if HasCjkGap(RemoveQuotedFrom(stem, 0)) then Fill
    else if HasSpaceRun(stem) then Fill
    else if ContainsAny(Lower(stem), CaseKeywords) then Case
    else if ContainsAny(Lower(stem), ComprehensiveKeywords) then Comprehensive
    else if |stem| >= 120 then
      if Contains(stem, "案例") || Contains(stem, "情景") || Contains(stem, "情境") then Case
      else Comprehensive
    else Short
  }

  // ---------------------------------------------------------------------------
  // Line patterns used by detect_questions

  /** `^\s*(答案|参考答案|答案要点)\s*[:：]` after the keyword `word` starting at `a`,
      giving the stripped text after the colon. */
  function AnswerHeaderAfter(s: string, a: nat, word: string): (content: Option<string>)
    ensures content.Some? ==> OccursAt(s, word, a)
  {
    if OccursAt(s, word, a) then
      var k := SkipSpaces(s, a + |word|);
      if k < |s| && (s[k] == ':' || s[k] == '：') then Some(Strip(s[k + 1..])) else None
    else None
  }

  /** `re.match(r'^\s*(答案|参考答案|答案要点)\s*[:：]\s*(.*)$', s)`, giving
      `group(2).strip()`; the alternatives are tried in order. */
  function MatchAnswerHeader(s: string): Option<string> {
    var a := SkipSpaces(s, 0);
    var first := AnswerHeaderAfter(s, a, "答案");
    if first.Some? then first
    else
      var second := AnswerHeaderAfter(s, a, "参考答案");
      if second.Some? then second else AnswerHeaderAfter(s, a, "答案要点")
  }

  /** `^[一二三四五六七八九十]+\s*[、，.]` */
  predicate IsNumeralHeading(s: string) {
    var k := SkipWhile(s, 0, IsCjkNumeral);
    0 < k &&
    var m := SkipSpaces(s, k);
    m < |s| && (s[m] == '、' || s[m] == '，' || s[m] == '.')
  }

  predicate IsNumberDelimiter(c: char) { c == ')' || c == '）' || c == '.' || c == '、' }

  /** `^\s*[（(]?\s*(\d+)\s*[)）\.、]\s*(.+)`, giving `group(2).strip()`. Whatever
      the greedy blanks give back to `(.+)`, the stripped capture is the stripped text
      after the delimiter. */
  function MatchNumberedLine(line: string): (stem: Option<string>)
    ensures stem.Some? ==> |stem.value| < |line|
    ensures stem.Some? ==>
      var a := SkipSpaces(line, 0);
      a < |line| && (IsOpenBracket(line[a]) || IsDigit(line[a]))
  {
    var a := SkipSpaces(line, 0);
    var b := if a < |line| && IsOpenBracket(line[a]) then a + 1 else a;
    var c := SkipSpaces(line, b);
    var d := SkipWhile(line, c, IsDigit);
    if d == c then None
    else
      var e := SkipSpaces(line, d);
      if e + 1 < |line| && IsNumberDelimiter(line[e]) then
        Some(Strip(line[e + 1..]))
      else None
  }

  /** `\d+\s*[\.、]` matches at `p`, giving the end of the match. */
  function DigitDelimEnd(s: string, p: nat): (e: Option<nat>)
    ensures e.Some? ==> p < e.value <= |s|
  {
    if p < |s| && IsDigit(s[p]) then
      var q := SkipWhile(s, p, IsDigit);
      var r := SkipSpaces(s, q);
      if r < |s| && (s[r] == '.' || s[r] == '、') then Some(r + 1) else None
    else None
  }

  function CountDigitDelimFrom(s: string, p: nat): nat
    requires p <= |s|
    decreases |s| - p
  {
    if p == |s| then 0
    else
      match DigitDelimEnd(s, p)
      case Some(e) => 1 + CountDigitDelimFrom(s, e)
      case None => CountDigitDelimFrom(s, p + 1)
  }

  /** `len(re.findall(r'\d+\s*[\.、]', s))` */
  function CountDigitDelim(s: string): nat {
    CountDigitDelimFrom(s, 0)
  }

  predicate Increasing(xs: seq<nat>) {
    forall i, j | 0 <= i < j < |xs| :: xs[i] < xs[j]
  }

  /** `(?<!^)(?:\s|　)+(\d{1,3})[\.、]\s*` matches at `p`, giving the end of the match.
      The full-width blank is itself whitespace. */
  function EmbeddedMarkerEnd(s: string, p: nat): (e: Option<nat>)
    ensures e.Some? ==> 1 <= p < e.value <= |s|
  {
    if 1 <= p < |s| && IsSpace(s[p]) then
      var q := SkipSpaces(s, p);
      var r := SkipWhile(s, q, IsDigit);
      if 1 <= r - q <= 3 && r < |s| && (s[r] == '.' || s[r] == '、') then Some(SkipSpaces(s, r + 1))
      else None
    else None
  }

  function EmbeddedMarkersFrom(s: string, p: nat): (starts: seq<nat>)
    requires p <= |s|
    ensures forall k | 0 <= k < |starts| :: p <= starts[k] < |s| && EmbeddedMarkerEnd(s, starts[k]).Some?
    ensures Increasing(starts)
    ensures forall k | 0 <= k < |starts| - 1 :: EmbeddedMarkerEnd(s, starts[k]).value <= starts[k + 1]
    decreases |s| - p
  {
    if p == |s| then []
    else
      match EmbeddedMarkerEnd(s, p)
      case Some(e) =>
        var rest := EmbeddedMarkersFrom(s, e);
        EmbeddedMarkersCons(s, p, e, rest);
        [p] + rest
      case None => EmbeddedMarkersFrom(s, p + 1)
  }

  lemma EmbeddedMarkersCons(s: string, p: nat, e: nat, rest: seq<nat>)
    requires EmbeddedMarkerEnd(s, p) == Some(e)
    requires forall k | 0 <= k < |rest| :: e <= rest[k] < |s| && EmbeddedMarkerEnd(s, rest[k]).Some?
    requires Increasing(rest)
    requires forall k | 0 <= k < |rest| - 1 :: EmbeddedMarkerEnd(s, rest[k]).value <= rest[k + 1]
    ensures var starts := [p] + rest;
      (forall k | 0 <= k < |starts| :: p <= starts[k] < |s| && EmbeddedMarkerEnd(s, starts[k]).Some?)
      && Increasing(starts)
      && forall k | 0 <= k < |starts| - 1 :: EmbeddedMarkerEnd(s, starts[k]).value <= starts[k + 1]
  {
    ConsInRange(s, p, e, rest);
    ConsIncreasing(p, e, rest);
    ConsSpaced(s, p, e, rest);
  }

  lemma ConsInRange(s: string, p: nat, e: nat, rest: seq<nat>)
    requires EmbeddedMarkerEnd(s, p) == Some(e)
    requires forall k | 0 <= k < |rest| :: e <= rest[k] < |s| && EmbeddedMarkerEnd(s, rest[k]).Some?
    ensures forall k | 0 <= k < |[p] + rest| :: p <= ([p] + rest)[k] < |s| && EmbeddedMarkerEnd(s, ([p] + rest)[k]).Some?
  {
    var starts := [p] + rest;
    forall k | 0 <= k < |starts|
      ensures p <= starts[k] < |s| && EmbeddedMarkerEnd(s, starts[k]).Some?
    {
      if k > 0 {
        assert starts[k] == rest[k - 1];
      }
    }
  }

  lemma ConsIncreasing(p: nat, e: nat, rest: seq<nat>)
    requires p < e && Increasing(rest) && forall k | 0 <= k < |rest| :: e <= rest[k]
    ensures Increasing([p] + rest)
  {
    var starts := [p] + rest;
    forall i, j | 0 <= i < j < |starts|
      ensures starts[i] < starts[j]
    {
      assert starts[j] == rest[j - 1];
      if i > 0 {
        assert starts[i] == rest[i - 1];
      }
    }
  }

  lemma ConsSpaced(s: string, p: nat, e: nat, rest: seq<nat>)
    requires EmbeddedMarkerEnd(s, p) == Some(e)
    requires forall k | 0 <= k < |rest| :: e <= rest[k] && EmbeddedMarkerEnd(s, rest[k]).Some?
    requires forall k | 0 <= k < |rest| - 1 :: EmbeddedMarkerEnd(s, rest[k]).value <= rest[k + 1]
    ensures forall k | 0 <= k < |[p] + rest| - 1 :: EmbeddedMarkerEnd(s, ([p] + rest)[k]).value <= ([p] + rest)[k + 1]
  {
    ConsSpacedBy(x => EmbeddedMarkerEnd(s, x), p, e, rest);
  }

  /** `ConsSpaced` for any end function, so that the proof does not look into the marker pattern. */
  lemma ConsSpacedBy(end: nat -> Option<nat>, p: nat, e: nat, rest: seq<nat>)
    requires end(p) == Some(e)
    requires forall k | 0 <= k < |rest| :: e <= rest[k] && end(rest[k]).Some?
    requires forall k | 0 <= k < |rest| - 1 :: end(rest[k]).value <= rest[k + 1]
    ensures forall k | 0 <= k < |[p] + rest| - 1 :: end(([p] + rest)[k]).Some? && end(([p] + rest)[k]).value <= ([p] + rest)[k + 1]
  {
    var starts := [p] + rest;
    forall k | 0 <= k < |starts| - 1
      ensures end(starts[k]).Some? && end(starts[k]).value <= starts[k + 1]
    {
      assert starts[k + 1] == rest[k];
      if k > 0 {
        assert starts[k] == rest[k - 1];
      }
    }
  }

  /** The start positions of `re.finditer` of the embedded question number pattern. */
  function EmbeddedMarkers(s: string): (starts: seq<nat>)
    ensures forall k | 0 <= k < |starts| :: 1 <= starts[k] < |s| && EmbeddedMarkerEnd(s, starts[k]).Some?
    ensures Increasing(starts)
    ensures forall k | 0 <= k < |starts| - 1 :: EmbeddedMarkerEnd(s, starts[k]).value <= starts[k + 1]
  {
    if s == [] then [] else EmbeddedMarkersFrom(s, 1)
  }

  /** The option split points, where `(?=[A-Ha-h][\.、．\)）])` matches. */
  predicate OptionMarkerAt(s: string, i: nat) {
    i + 1 < |s| && IsOptionLetter(s[i]) && IsOptionDelimiter(s[i + 1])
  }

  function OptionMarkersFrom(s: string, i: nat): (cuts: seq<nat>)
    requires i <= |s|
    ensures forall k | 0 <= k < |cuts| :: i <= cuts[k] < |s| && OptionMarkerAt(s, cuts[k])
    ensures forall j | i <= j < |s| && OptionMarkerAt(s, j) :: j in cuts
    ensures Increasing(cuts)
    decreases |s| - i
  {
    if i == |s| then []
    else if OptionMarkerAt(s, i) then [i] + OptionMarkersFrom(s, i + 1)
    else OptionMarkersFrom(s, i + 1)
  }

  function OptionMarkers(s: string): seq<nat> {
    OptionMarkersFrom(s, 0)
  }

  /** The pieces of `s` between consecutive cut positions: `re.split` by a lookahead
      that matches at each cut, and the slicing loop of the run-on split. */
  function CutAt(s: string, cuts: seq<nat>): (pieces: seq<string>)
    ensures |pieces| == |cuts| + 1
  {
    seq(|cuts| + 1, k requires 0 <= k <= |cuts| => CutPiece(s, cuts, k))
  }

  function Concat(parts: seq<string>): string {
    if parts == [] then [] else Concat(parts[..|parts| - 1]) + parts[|parts| - 1]
  }

  /** One piece of a cut: the text between cut `k - 1` (or the start) and cut `k`
      (or the end). */
  function CutPiece(s: string, cuts: seq<nat>, k: nat): string
    requires k <= |cuts|
  {
    Slice(s, if k == 0 then 0 else cuts[k - 1], if k < |cuts| then cuts[k] else |s|)
  }

  lemma CutPieceOfPrefix(s: string, cuts: seq<nat>, k: nat)
    requires cuts != [] && k < |cuts|
    requires Increasing(cuts) && cuts[|cuts| - 1] <= |s|
    ensures CutPiece(s, cuts, k) == CutPiece(s[..cuts[|cuts| - 1]], cuts[..|cuts| - 1], k)
  {
    var c := cuts[|cuts| - 1];
    var lo := if k == 0 then 0 else cuts[k - 1];
    var hi := cuts[k];
    assert lo <= hi <= c;
    assert s[..c][lo..hi] == s[lo..hi];
  }

  /** Dropping the last cut: the earlier pieces are those of the prefix before it. */
  lemma CutAtLast(s: string, cuts: seq<nat>)
    requires cuts != [] && Increasing(cuts) && cuts[|cuts| - 1] <= |s|
    ensures CutAt(s, cuts) == CutAt(s[..cuts[|cuts| - 1]], cuts[..|cuts| - 1]) + [s[cuts[|cuts| - 1]..]]
  {
    var c := cuts[|cuts| - 1];
    var init := cuts[..|cuts| - 1];
    var pieces := CutAt(s, cuts);
    var sub := CutAt(s[..c], init);
    forall k | 0 <= k < |sub|
      ensures pieces[k] == sub[k]
    {
      CutPieceOfPrefix(s, cuts, k);
    }
    assert pieces[|sub|] == s[c..];
  }

  /** Cutting at increasing positions within the string loses no text. */
  lemma {:induction false} CutAtConcat(s: string, cuts: seq<nat>)
    requires Increasing(cuts) && forall k | 0 <= k < |cuts| :: cuts[k] <= |s|
    ensures Concat(CutAt(s, cuts)) == s
    decreases |cuts|
  {
    var pieces := CutAt(s, cuts);
    if cuts == [] {
      assert pieces[0] == s[0..|s|] == s;
      assert pieces == [s];
      assert Concat(pieces) == Concat([]) + s;
    } else {
      var c := cuts[|cuts| - 1];
      var init := cuts[..|cuts| - 1];
      CutAtLast(s, cuts);
      CutAtConcat(s[..c], init);
      assert pieces[..|pieces| - 1] == CutAt(s[..c], init);
      assert s == s[..c] + s[c..];
    }
  }

  function StripAll(xs: seq<string>): (r: seq<string>)
    ensures |r| == |xs| && forall k | 0 <= k < |xs| :: r[k] == Strip(xs[k])
  {
    seq(|xs|, k requires 0 <= k < |xs| => Strip(xs[k]))
  }

  /** The non-empty stripped pieces a run-on stem is cut into, each cut made at the
      blank before an embedded question number. */
  function RunOnPieces(s: string): seq<string> {
    NonEmpty(StripAll(CutAt(s, EmbeddedMarkers(s))))
  }

  // ---------------------------------------------------------------------------
  // The scanner as a fold over the lines

  /** What format_info records for one line; a missing entry reads as all false. */
  datatype LineFormat = LineFormat(isStrike: bool, isBold: bool, isUnderline: bool)

  const PlainFormat := LineFormat(false, false, false)

  function FormatOf(formats: map<nat, LineFormat>, lineIdx: nat): LineFormat {
    if lineIdx in formats then formats[lineIdx] else PlainFormat
  }

  /** The question being collected, `current`; a missing stem is the empty string. */
  datatype Buffer = Buffer(stem: string, options: seq<string>, emphasis: seq<string>, isStrike: bool)

  const EmptyBuffer := Buffer([], [], [], false)

  datatype ScanState = ScanState(
    current: Buffer, questionId: int, inAnswerSection: bool, questions: seq<QuestionRecord>)

  const InitialState := ScanState(EmptyBuffer, 1, false, [])

  /** `has_multiple_correct` */
  predicate HasMultipleCorrect(emphasis: seq<string>) {
    exists e <- emphasis :: Contains(e, "多个") || Contains(e, "都对")
  }

  predicate StartsWithAnswerWord(s: string) {
    StartsWith(s, "答案") || StartsWith(s, "参考答案")
  }

  predicate SplitsRunOn(b: Buffer) {
    |EmbeddedMarkers(b.stem)| > 0 && b.options == [] && |RunOnPieces(b.stem)| >= 2
  }

  function RunOnRecords(parts: seq<string>, id: int, hasMultipleCorrect: bool): (rs: seq<QuestionRecord>)
    ensures |rs| == |parts|
  {
    seq(|parts|, k requires 0 <= k < |parts| =>
      QuestionRecord(id + k, DetectType(parts[k], [], hasMultipleCorrect), parts[k], None, None))
  }

  lemma RunOnRecordsSnoc(parts: seq<string>, k: nat, id: int, hasMultipleCorrect: bool)
    requires k < |parts|
    ensures RunOnRecords(parts[..k + 1], id, hasMultipleCorrect)
         == RunOnRecords(parts[..k], id, hasMultipleCorrect)
            + [QuestionRecord(id + k, DetectType(parts[k], [], hasMultipleCorrect), parts[k], None, None)]
  {
    assert parts[..k + 1][..k] == parts[..k];
  }

  /** The records `commit_current` appends for buffer `b` when the next id is `id`. */
  function Emitted(b: Buffer, id: int): (rs: seq<QuestionRecord>)
    ensures rs == [] <==> b.stem == [] || b.isStrike || StartsWithAnswerWord(LStrip(b.stem))
  {
    if b.stem == [] || b.isStrike || StartsWithAnswerWord(LStrip(b.stem)) then []
    else
      var hmc := HasMultipleCorrect(b.emphasis);
      if SplitsRunOn(b) then RunOnRecords(RunOnPieces(b.stem), id, hmc)
      else [QuestionRecord(id, DetectType(b.stem, b.options, hmc), b.stem,
                           if b.options == [] then None else Some(b.options), None)]
  }

  /** `commit_current()` */
  function Commit(st: ScanState): ScanState {
    var out := Emitted(st.current, st.questionId);
    st.(current := EmptyBuffer, questionId := st.questionId + |out|, questions := st.questions + out)
  }

  /** The option text one split piece contributes: none for a blank piece or one that
      does not start with an option marker. */
  function OptionTextOf(part: string): (r: seq<string>)
    ensures |r| <= 1
  {
    var seg := Strip(part);
    if seg == [] then []
    else
      match MatchOption(seg)
      case Some(g) => [Strip(g)]
      case None => []
  }

  /** The option texts the loop over the split pieces appends. */
  function OptionTexts(parts: seq<string>): seq<string> {
    if parts == [] then [] else OptionTexts(parts[..|parts| - 1]) + OptionTextOf(parts[|parts| - 1])
  }

  function Tagged(texts: seq<string>): (r: seq<string>)
    ensures |r| == |texts|
  {
    seq(|texts|, k requires 0 <= k < |texts| => "option:" + texts[k])
  }

  lemma TaggedAppend(texts: seq<string>, t: string)
    ensures Tagged(texts + [t]) == Tagged(texts) + ["option:" + t]
  {
  }

  /** The buffer after an option line `s` while a stem is open. */
  function AddOptionsTo(b: Buffer, s: string, isUnderline: bool): Buffer {
    var texts := OptionTexts(CutAt(s, OptionMarkers(s)));
    b.(options := b.options + texts, emphasis := if isUnderline then b.emphasis + Tagged(texts) else b.emphasis)
  }

  const AnswerKeywords: seq<string> := ["应对", "思路", "举措", "要点", "特点", "含义", "体现"]

  /** Inside an answer block, a numbered line that is evidently a new question. */
  predicate IsQuestionInAnswerSection(t: string) {
    var r := RStrip(t);
    Contains(t, "（ ）") || Contains(t, "( )") || Contains(t, "（　 ）")
    || (r != [] && r[|r| - 1] == '？' && |t| < 60)
  }

  /** Inside an answer block, a numbered line that looks like answer content. */
  predicate LooksLikeAnswerContent(t: string) {
    CountDigitDelim(t) >= 2 || ContainsAny(t, AnswerKeywords)
  }

  /** A numbered line with stem text `t`, after the earlier patterns failed. */
  function OnNumberedLine(st: ScanState, t: string, fmt: LineFormat): ScanState {
    if st.inAnswerSection && !IsQuestionInAnswerSection(t) && LooksLikeAnswerContent(t) then st
    else
      var st1 := if st.inAnswerSection && IsQuestionInAnswerSection(t) then st.(inAnswerSection := false) else st;
      if CountDigitDelim(t) >= 5 then st1
      else
        Commit(st1).(current := OpenedBuffer(t, fmt))
  }

  /** The buffer a numbered line opens. */
  function OpenedBuffer(t: string, fmt: LineFormat): Buffer {
    Buffer(t, [], if fmt.isBold || fmt.isUnderline then ["stem_marked"] else [], fmt.isStrike)
  }

  /** A line that is neither blank, a section title nor an answer header: an option
      line, a numbered line, or a continuation of the open stem. */
  function BodyLine(st: ScanState, line: string, stripped: string, fmt: LineFormat): ScanState {
    if MatchOption(stripped).Some? && st.current.stem != [] then
      st.(current := AddOptionsTo(st.current, stripped, fmt.isUnderline))
    else
      var numbered := MatchNumberedLine(line);
      if numbered.Some? then OnNumberedLine(st, numbered.value, fmt)
      else if st.current.stem != [] then
        st.(current := st.current.(stem := st.current.stem + " " + stripped))
      else st
  }

  /** One pass of the loop of `detect_questions` over line number `lineIdx`. */
  function StepLine(st: ScanState, line: string, lineIdx: nat, formats: map<nat, LineFormat>): ScanState {
    var stripped := Strip(line);
    if stripped == [] || IsSectionHeader(stripped) then st
    else
      var header := MatchAnswerHeader(stripped);
      if header.Some? then
        if |header.value| < 10 then st.(inAnswerSection := true) else st
      else
        var st1 := if IsNumeralHeading(stripped) then st.(inAnswerSection := false) else st;
        BodyLine(st1, line, stripped, FormatOf(formats, lineIdx))
  }

  /** `[line.rstrip() for line in text.splitlines()]` */
  function SourceLines(text: string): (lines: seq<string>)
    ensures |lines| == |SplitLines(text)|
  {
    var ls := SplitLines(text);
    seq(|ls|, k requires 0 <= k < |ls| => RStrip(ls[k]))
  }

  function Scan(lines: seq<string>, formats: map<nat, LineFormat>, n: nat): ScanState
    requires n <= |lines|
  {
    if n == 0 then InitialState else StepLine(Scan(lines, formats, n - 1), lines[n - 1], n - 1, formats)
  }

  /** `detect_questions(text, format_info)` */
  function Detect(text: string, formats: map<nat, LineFormat>): seq<QuestionRecord> {
    var lines := SourceLines(text);
    Commit(Scan(lines, formats, |lines|)).questions
  }

  // ---------------------------------------------------------------------------
  // The scanner as the source runs it: a mutable `current` and question list

  class Detector {
    var stem: string
    var options: seq<string>
    var emphasis: seq<string>
    var isStrike: bool
    var questionId: int
    var questions: seq<QuestionRecord>

    function Current(): Buffer
      reads this
    {
      Buffer(stem, options, emphasis, isStrike)
    }

    function State(inAnswerSection: bool): ScanState
      reads this
    {
      ScanState(Current(), questionId, inAnswerSection, questions)
    }

    constructor ()
      ensures State(false) == InitialState
    {
      stem, options, emphasis, isStrike := [], [], [], false;
      questionId := 1;
      questions := [];
    }

    method ResetCurrent()
      modifies this
      ensures Current() == EmptyBuffer
      ensures questionId == old(questionId) && questions == old(questions)
    {
      stem, options, emphasis, isStrike := [], [], [], false;
    }

    /** `commit_current()` */
    method CommitCurrent()
      modifies this
      ensures Current() == EmptyBuffer
      ensures questions == old(questions) + Emitted(old(Current()), old(questionId))
      ensures questionId == old(questionId) + |Emitted(old(Current()), old(questionId))|
    {
      ghost var b := Current();
      if stem != [] {
        if isStrike {
          ResetCurrent();
          return;
        }
        var hasMultipleCorrect := HasMultipleCorrect(emphasis);
        var stemText := stem;
        if StartsWithAnswerWord(LStrip(stemText)) {
          ResetCurrent();
          return;
        }
        var embedded := EmbeddedMarkers(stemText);
        if |embedded| > 0 && options == [] {
          var parts := CutRunOn(stemText, embedded);
          parts := NonEmpty(parts);
          assert parts == RunOnPieces(stemText);
          if |parts| >= 2 {
            assert SplitsRunOn(b);
            assert Emitted(b, questionId) == RunOnRecords(parts, questionId, hasMultipleCorrect);
            AppendRunOn(parts, hasMultipleCorrect);
            ResetCurrent();
            return;
          }
        }
        assert !SplitsRunOn(b);
        var qType := DetectType(stemText, options, hasMultipleCorrect);
        questions := questions + [QuestionRecord(questionId, qType, stemText, if options == [] then None else Some(options), None)];
        questionId := questionId + 1;
      }
      ResetCurrent();
    }

    /** Appends one record per piece of a run-on stem, with consecutive ids. */
    method AppendRunOn(parts: seq<string>, hasMultipleCorrect: bool)
      modifies this
      ensures questions == old(questions) + RunOnRecords(parts, old(questionId), hasMultipleCorrect)
      ensures questionId == old(questionId) + |parts|
    {
      for k := 0 to |parts|
        invariant questionId == old(questionId) + k
        invariant questions == old(questions) + RunOnRecords(parts[..k], old(questionId), hasMultipleCorrect)
      {
        var qType := DetectType(parts[k], [], hasMultipleCorrect);
        var r := QuestionRecord(questionId, qType, parts[k], None, None);
        RunOnRecordsSnoc(parts, k, old(questionId), hasMultipleCorrect);
        AppendAssoc(old(questions), RunOnRecords(parts[..k], old(questionId), hasMultipleCorrect), [r]);
        questions := questions + [r];
        questionId := questionId + 1;
      }
      assert parts[..|parts|] == parts;
    }

    /** An option line while a stem is open: split before every option letter and
        append each option's text. */
    method AddOptions(s: string, isUnderline: bool)
      modifies this
      ensures Current() == AddOptionsTo(old(Current()), s, isUnderline)
      ensures questionId == old(questionId) && questions == old(questions)
    {
      var parts := CutAt(s, OptionMarkers(s));
      AppendOptionTexts(parts, isUnderline);
    }

    /** The loop over the split pieces of an option line: the texts are collected in
        order and appended to the options (and, for an underlined line, to the
        emphasis marks). */
    method AppendOptionTexts(parts: seq<string>, isUnderline: bool)
      modifies this
      ensures options == old(options) + OptionTexts(parts)
      ensures emphasis == if isUnderline then old(emphasis) + Tagged(OptionTexts(parts)) else old(emphasis)
      ensures stem == old(stem) && isStrike == old(isStrike)
      ensures questionId == old(questionId) && questions == old(questions)
    {
      var found := CollectOptionTexts(parts);
      AppendFound(found, isUnderline);
    }

    method AppendFound(found: seq<string>, isUnderline: bool)
      modifies this
      ensures options == old(options) + found
      ensures emphasis == if isUnderline then old(emphasis) + Tagged(found) else old(emphasis)
      ensures stem == old(stem) && isStrike == old(isStrike)
      ensures questionId == old(questionId) && questions == old(questions)
    {
      options := options + found;
      if isUnderline {
        emphasis := emphasis + Tagged(found);
      }
    }

    /** The loop of `detect_questions` over all lines, from a fresh scanner; returns
        the final value of `in_answer_section`. */
    method ScanLines(lines: seq<string>, formats: map<nat, LineFormat>) returns (inAnswerSection: bool)
      requires State(false) == InitialState
      modifies this
      ensures State(inAnswerSection) == Scan(lines, formats, |lines|)
    {
      inAnswerSection := false;
      for lineIdx := 0 to |lines|
        invariant State(inAnswerSection) == Scan(lines, formats, lineIdx)
      {
        inAnswerSection := FeedLine(lines[lineIdx], lineIdx, formats, inAnswerSection);
      }
    }

    /** One pass of the line loop; returns the new value of `in_answer_section`. */
    method FeedLine(line: string, lineIdx: nat, formats: map<nat, LineFormat>, inAnswerSection: bool)
      returns (inAnswer: bool)
      modifies this
      ensures State(inAnswer) == StepLine(old(State(inAnswerSection)), line, lineIdx, formats)
    {
      inAnswer := inAnswerSection;
      var stripped := Strip(line);
      if stripped == [] {
        return;
      }
      var lineFormat := FormatOf(formats, lineIdx);
      if IsSectionHeader(stripped) {
        return;
      }
      var header := MatchAnswerHeader(stripped);
      if header.Some? {
        if |header.value| < 10 {
          inAnswer := true;
        }
        return;
      }
      if IsNumeralHeading(stripped) {
        inAnswer := false;
      }
      inAnswer := FeedBodyLine(line, stripped, lineFormat, inAnswer);
    }

    /** The option, numbered-line and continuation branches of the line loop. */
    method FeedBodyLine(line: string, stripped: string, lineFormat: LineFormat, inAnswerSection: bool)
      returns (inAnswer: bool)
      modifies this
      ensures State(inAnswer) == BodyLine(old(State(inAnswerSection)), line, stripped, lineFormat)
    {
      inAnswer := inAnswerSection;
      if MatchOption(stripped).Some? && stem != [] {
        AddOptions(stripped, lineFormat.isUnderline);
        return;
      }
      var numbered := MatchNumberedLine(line);
      if numbered.Some? {
        inAnswer := FeedNumberedLine(numbered.value, lineFormat, inAnswer);
        return;
      }
      if stem != [] {
        stem := stem + " " + stripped;
      }
    }

    /** A numbered line with stem text `stemText`. */
    method FeedNumberedLine(stemText: string, lineFormat: LineFormat, inAnswerSection: bool)
      returns (inAnswer: bool)
      modifies this
      ensures State(inAnswer) == OnNumberedLine(old(State(inAnswerSection)), stemText, lineFormat)
    {
      inAnswer := inAnswerSection;
      if inAnswer {
        if IsQuestionInAnswerSection(stemText) {
          inAnswer := false;
        } else if LooksLikeAnswerContent(stemText) {
          return;
        }
      }
      if CountDigitDelim(stemText) >= 5 {
        return;
      }
      OpenQuestion(stemText, lineFormat, inAnswer);
    }

    /** Commits the open question and starts a new one with stem `stemText`. */
    method OpenQuestion(stemText: string, lineFormat: LineFormat, ghost inAnswer: bool)
      modifies this
      ensures State(inAnswer) == Commit(old(State(inAnswer))).(current := OpenedBuffer(stemText, lineFormat))
    {
      ghost var before := State(inAnswer);
      CommitCurrent();
      assert State(inAnswer) == Commit(before);
      stem := stemText;
      isStrike := lineFormat.isStrike;
      if lineFormat.isBold || lineFormat.isUnderline {
        emphasis := emphasis + ["stem_marked"];
      }
    }
  }

  /** The slicing loop of the run-on split: the stripped text before each embedded
      question number, then the stripped rest. */
  method CutRunOn(stemText: string, embedded: seq<nat>) returns (parts: seq<string>)
    ensures parts == StripAll(CutAt(stemText, embedded))
  {
    parts := [];
    var lastIdx: nat := 0;
    for k := 0 to |embedded|
      invariant parts == PiecesMapped(Strip, stemText, embedded, k)
      invariant lastIdx == if k == 0 then 0 else embedded[k - 1]
    {
      var piece := Slice(stemText, lastIdx, embedded[k]);
      assert piece == CutPiece(stemText, embedded, k);
      parts := parts + [Strip(piece)];
      lastIdx := embedded[k];
    }
    var rest := Slice(stemText, lastIdx, |stemText|);
    assert rest == CutPiece(stemText, embedded, |embedded|);
    parts := parts + [Strip(rest)];
    StrippedPieces(stemText, embedded);
  }

  /** The first `n` pieces of a cut, each passed through `f`. */
  function PiecesMapped(f: string -> string, s: string, cuts: seq<nat>, n: nat): (r: seq<string>)
    requires n <= |cuts| + 1
    ensures |r| == n && forall j | 0 <= j < n :: r[j] == f(CutPiece(s, cuts, j))
  {
    if n == 0 then [] else PiecesMapped(f, s, cuts, n - 1) + [f(CutPiece(s, cuts, n - 1))]
  }

  /** All pieces, stripped one by one, are the stripped cut. */
  lemma StrippedPieces(s: string, cuts: seq<nat>)
    ensures PiecesMapped(Strip, s, cuts, |cuts| + 1) == StripAll(CutAt(s, cuts))
  {
    var parts := PiecesMapped(Strip, s, cuts, |cuts| + 1);
    var pieces := CutAt(s, cuts);
    forall j | 0 <= j < |pieces|
      ensures parts[j] == StripAll(pieces)[j]
    {
      assert pieces[j] == CutPiece(s, cuts, j);
    }
  }

  /** The option texts of the split pieces of an option line, in order. */
  method CollectOptionTexts(parts: seq<string>) returns (found: seq<string>)
    ensures found == OptionTexts(parts)
  {
    found := [];
    for k := 0 to |parts|
      invariant found == OptionTexts(parts[..k])
    {
      assert parts[..k + 1][..k] == parts[..k];
      ghost var next := OptionTexts(parts[..k + 1]);
      assert next == found + OptionTextOf(parts[k]);
      var seg := Strip(parts[k]);
      if seg != [] {
        var optMatch := MatchOption(seg);
        if optMatch.Some? {
          var optText := Strip(optMatch.value);
          assert OptionTextOf(parts[k]) == [optText];
          found := found + [optText];
        } else {
          assert OptionTextOf(parts[k]) == [];
        }
      } else {
        assert OptionTextOf(parts[k]) == [];
      }
      assert found == next;
    }
    assert parts[..|parts|] == parts;
  }

  /** `detect_questions(text, format_info)`, run line by line. */
  method DetectQuestions(text: string, formats: map<nat, LineFormat>) returns (questions: seq<QuestionRecord>)
    ensures questions == Detect(text, formats)
  {
    var lines := SourceLines(text);
    var d := new Detector();
    var inAnswerSection := d.ScanLines(lines, formats);
    d.CommitCurrent();
    questions := d.questions;
  }
}
