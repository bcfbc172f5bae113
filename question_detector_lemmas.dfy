/** Properties of the scanner of recognizers/question_detector.py, stated over the fold
    `Scan`/`Detect` and its steps. */
module DetectorLemmas {
  import opened Text
  import opened Config
  import opened Records
  import opened QuestionDetector

  // ---------------------------------------------------------------------------
  // Emitted records

  /** What every record of `detect_questions` satisfies: no answer, never `multi`, a
      non-empty stem, `None` rather than an empty option list, and `choice` exactly
      when there are two or more options. */
  predicate WellFormedRecord(r: QuestionRecord) {
    r.answer == None && r.qtype != Multi && r.stem != []
    && (r.options.Some? ==> r.options.value != [])
    && (r.qtype == Choice <==> r.options.Some? && |r.options.value| >= 2)
  }

  /** The scanner state: the records so far are numbered 1, 2, ... in order and the
      counter is one past the last of them. */
  predicate WellFormed(st: ScanState) {
    st.questionId == |st.questions| + 1
    && (forall k | 0 <= k < |st.questions| :: st.questions[k].id == k + 1)
    && (forall k | 0 <= k < |st.questions| :: WellFormedRecord(st.questions[k]))
  }

  /** A commit numbers its records consecutively from the counter. */
  lemma EmittedWellFormed(b: Buffer, id: int)
    ensures forall k | 0 <= k < |Emitted(b, id)| ::
      Emitted(b, id)[k].id == id + k && WellFormedRecord(Emitted(b, id)[k])
  {
    var rs := Emitted(b, id);
    if rs != [] {
      var hmc := HasMultipleCorrect(b.emphasis);
      if SplitsRunOn(b) {
        var parts := RunOnPieces(b.stem);
        assert rs == RunOnRecords(parts, id, hmc);
        forall k | 0 <= k < |rs|
          ensures rs[k].id == id + k && WellFormedRecord(rs[k])
        {
          assert parts[k] != [];
          PieceRecordWellFormed(parts[k], id + k, hmc);
        }
      } else {
        var opts := if b.options == [] then None else Some(b.options);
        assert rs == [QuestionRecord(id, DetectType(b.stem, b.options, hmc), b.stem, opts, None)];
      }
    }
  }

  lemma PieceRecordWellFormed(part: string, id: int, hmc: bool)
    requires part != []
    ensures WellFormedRecord(QuestionRecord(id, DetectType(part, [], hmc), part, None, None))
  {
  }

  /** The three outcomes of `commit_current`: nothing for an empty, struck-through or
      answer-like stem; one record per piece of a run-on stem, without options; one
      record otherwise. The buffer is always reset. */
  lemma CommitOutcomes(st: ScanState)
    ensures Commit(st).current == EmptyBuffer && Commit(st).inAnswerSection == st.inAnswerSection
    ensures var b := st.current;
      var out := Commit(st).questions[|st.questions|..];
      Commit(st).questions[..|st.questions|] == st.questions
      && (b.stem == [] || b.isStrike || StartsWithAnswerWord(LStrip(b.stem)) ==> out == [])
      && (out != [] && SplitsRunOn(b) ==>
            |out| == |RunOnPieces(b.stem)| >= 2
            && forall k | 0 <= k < |out| :: out[k].stem == RunOnPieces(b.stem)[k] && out[k].options == None)
      && (out != [] && !SplitsRunOn(b) ==> |out| == 1 && out[0].stem == b.stem)
  {
    var out := Emitted(st.current, st.questionId);
    EmittedOutcomes(st.current, st.questionId);
    assert Commit(st).questions == st.questions + out;
    assert Commit(st).questions[|st.questions|..] == out;
  }

  lemma EmittedOutcomes(b: Buffer, id: int)
    ensures var out := Emitted(b, id);
      (out != [] && SplitsRunOn(b) ==>
         |out| == |RunOnPieces(b.stem)| >= 2
         && forall k | 0 <= k < |out| :: out[k].stem == RunOnPieces(b.stem)[k] && out[k].options == None)
      && (out != [] && !SplitsRunOn(b) ==> |out| == 1 && out[0].stem == b.stem)
  {
    if Emitted(b, id) != [] {
      if SplitsRunOn(b) {
        EmittedRunOn(b, id);
      } else {
        EmittedSingle(b, id);
      }
    }
  }

  lemma EmittedRunOn(b: Buffer, id: int)
    requires Emitted(b, id) != [] && SplitsRunOn(b)
    ensures var out := Emitted(b, id);
      |out| == |RunOnPieces(b.stem)| >= 2
      && forall k | 0 <= k < |out| :: out[k].stem == RunOnPieces(b.stem)[k] && out[k].options == None
  {
    var parts := RunOnPieces(b.stem);
    var hmc := HasMultipleCorrect(b.emphasis);
    assert Emitted(b, id) == RunOnRecords(parts, id, hmc);
  }

  lemma EmittedSingle(b: Buffer, id: int)
    requires Emitted(b, id) != [] && !SplitsRunOn(b)
    ensures |Emitted(b, id)| == 1 && Emitted(b, id)[0].stem == b.stem
  {
  }

  /** `t` opens with a question number of one to three digits and its delimiter, as
      in `8.` or `12、`. */
  predicate StartsWithNumber(t: string) {
    exists n | 1 <= n <= 3 :: n < |t| && (forall i | 0 <= i < n :: IsDigit(t[i])) && (t[n] == '.' || t[n] == '、')
  }

  /** The cuts are made at the blank before each embedded number, so every piece after
      the first still starts with its own question number once stripped. */
  lemma MarkerPieceNumbered(s: string, k: nat)
    requires 1 <= k <= |EmbeddedMarkers(s)|
    ensures StartsWithNumber(Strip(CutPiece(s, EmbeddedMarkers(s), k)))
  {
    var c, hi := PieceBounds(s, k);
    NumberInStretch(s, c, hi);
  }

  /** A stretch `s[c..hi]` that holds the whole match of the embedded number pattern at
      `c` strips to a text that starts with the number. */
  lemma NumberInStretch(s: string, c: nat, hi: nat)
    requires EmbeddedMarkerEnd(s, c).Some? && EmbeddedMarkerEnd(s, c).value <= hi <= |s|
    ensures StartsWithNumber(Strip(s[c..hi]))
  {
    var q, r := MarkerShape(s, c);
    ShapeInPiece(s, c, hi, q, r);
    NumberAfterBlanks(s[c..hi], q - c, r - c);
  }

  /** Every record text of a run-on split but the leading one keeps its question number. */
  lemma RunOnPiecesNumbered(s: string)
    ensures forall t <- RunOnPieces(s) :: t == Strip(CutPiece(s, EmbeddedMarkers(s), 0)) || StartsWithNumber(t)
  {
    var cuts := EmbeddedMarkers(s);
    var stripped := StripAll(CutAt(s, cuts));
    forall t <- RunOnPieces(s)
      ensures t == Strip(CutPiece(s, cuts, 0)) || StartsWithNumber(t)
    {
      assert t in stripped;
      var k :| 0 <= k < |stripped| && stripped[k] == t;
      if k > 0 {
        MarkerPieceNumbered(s, k);
      }
    }
  }

  /** Piece `k` of the run-on cut runs from marker `k - 1` to the next marker or the
      end, past the whole match at its start. */
  lemma PieceBounds(s: string, k: nat) returns (c: nat, hi: nat)
    requires 1 <= k <= |EmbeddedMarkers(s)|
    ensures EmbeddedMarkerEnd(s, c).Some? && EmbeddedMarkerEnd(s, c).value <= hi <= |s|
    ensures CutPiece(s, EmbeddedMarkers(s), k) == s[c..hi]
  {
    var cuts := EmbeddedMarkers(s);
    c := cuts[k - 1];
    hi := if k < |cuts| then cuts[k] else |s|;
  }

  lemma ShapeInPiece(s: string, c: nat, hi: nat, q: nat, r: nat)
    requires c < q < r < hi <= |s| && r - q <= 3
    requires (forall i | c <= i < q :: IsSpace(s[i])) && !IsSpace(s[q])
    requires (forall i | q <= i < r :: IsDigit(s[i])) && (s[r] == '.' || s[r] == '、')
    ensures var piece := s[c..hi];
      (forall i | 0 <= i < q - c :: IsSpace(piece[i])) && !IsSpace(piece[q - c])
      && (forall i | q - c <= i < r - c :: IsDigit(piece[i])) && (piece[r - c] == '.' || piece[r - c] == '、')
  {
  }

  /** A piece that opens with blanks up to `q`, digits up to `r` and then a delimiter
      strips to a text that starts with the number. */
  lemma NumberAfterBlanks(piece: string, q: nat, r: nat)
    requires q < r < |piece| && r - q <= 3
    requires (forall i | 0 <= i < q :: IsSpace(piece[i])) && !IsSpace(piece[q])
    requires (forall i | q <= i < r :: IsDigit(piece[i])) && (piece[r] == '.' || piece[r] == '、')
    ensures StartsWithNumber(Strip(piece))
  {
    LeadingBlanksStripped(piece, q);
    var l := piece[q..];
    forall i | 0 <= i < r - q
      ensures IsDigit(l[i])
    {
      assert l[i] == piece[q + i];
    }
    assert l[r - q] == piece[r];
    StripKeepsNumber(l, r - q);
  }

  /** The parts of an embedded number match at `c`: blanks up to `q`, digits up to `r`,
      then the delimiter. */
  lemma MarkerShape(s: string, c: nat) returns (q: nat, r: nat)
    requires EmbeddedMarkerEnd(s, c).Some?
    ensures c < q < r < EmbeddedMarkerEnd(s, c).value && r - q <= 3
    ensures (forall i | c <= i < q :: IsSpace(s[i])) && !IsSpace(s[q])
    ensures (forall i | q <= i < r :: IsDigit(s[i])) && (s[r] == '.' || s[r] == '、')
  {
    q := SkipSpaces(s, c);
    r := SkipWhile(s, q, IsDigit);
  }

  /** Blanks before the first non-blank character are what `strip` removes first. */
  lemma LeadingBlanksStripped(piece: string, m: nat)
    requires m < |piece| && !IsSpace(piece[m]) && forall i | 0 <= i < m :: IsSpace(piece[i])
    ensures Strip(piece) == Strip(piece[m..])
  {
    SkipWhileAt(piece, 0, IsSpace, m);
    SkipWhileAt(piece[m..], 0, IsSpace, 0);
  }

  lemma StripKeepsNumber(l: string, n: nat)
    requires 1 <= n <= 3 && n < |l| && (forall i | 0 <= i < n :: IsDigit(l[i])) && (l[n] == '.' || l[n] == '、')
    ensures StartsWithNumber(Strip(l))
  {
    SkipWhileAt(l, 0, IsSpace, 0);
    assert TrimLeft(l, IsSpace) == l;
    var t := TrimRight(l, IsSpace);
    TrimRightDropped(l, IsSpace);
    assert |t| > n;
    assert forall i | 0 <= i <= n :: t[i] == l[i];
  }

  lemma CommitWellFormed(st: ScanState)
    requires WellFormed(st)
    ensures WellFormed(Commit(st)) && st.questions <= Commit(st).questions
  {
    EmittedWellFormed(st.current, st.questionId);
    var out := Emitted(st.current, st.questionId);
    var qs := Commit(st).questions;
    assert qs == st.questions + out;
    forall k | |st.questions| <= k < |qs|
      ensures qs[k].id == k + 1 && WellFormedRecord(qs[k])
    {
      assert qs[k] == out[k - |st.questions|];
    }
  }

  lemma OnNumberedLineWellFormed(st: ScanState, t: string, fmt: LineFormat)
    requires WellFormed(st)
    ensures WellFormed(OnNumberedLine(st, t, fmt)) && st.questions <= OnNumberedLine(st, t, fmt).questions
  {
    var st1 := if st.inAnswerSection && IsQuestionInAnswerSection(t) then st.(inAnswerSection := false) else st;
    SameRecordsWellFormed(st, st1);
    var r := OnNumberedLine(st, t, fmt);
    if st.inAnswerSection && !IsQuestionInAnswerSection(t) && LooksLikeAnswerContent(t) {
      assert r == st;
    } else if CountDigitDelim(t) >= 5 {
      assert r == st1;
    } else {
      var c := Commit(st1);
      CommitWellFormed(st1);
      assert r == c.(current := OpenedBuffer(t, fmt));
      SameRecordsWellFormed(c, r);
    }
  }

  /** Well-formedness depends on the records and the counter only. */
  lemma SameRecordsWellFormed(a: ScanState, b: ScanState)
    requires a.questions == b.questions && a.questionId == b.questionId
    ensures WellFormed(a) <==> WellFormed(b)
  {
  }

  lemma BodyLineWellFormed(st: ScanState, line: string, stripped: string, fmt: LineFormat)
    requires WellFormed(st)
    ensures WellFormed(BodyLine(st, line, stripped, fmt)) && st.questions <= BodyLine(st, line, stripped, fmt).questions
  {
    var numbered := MatchNumberedLine(line);
    if numbered.Some? {
      OnNumberedLineWellFormed(st, numbered.value, fmt);
    }
  }

  /** One line keeps the records numbered and well formed, and never alters a record
      already emitted. */
  lemma StepLineWellFormed(st: ScanState, line: string, lineIdx: nat, formats: map<nat, LineFormat>)
    requires WellFormed(st)
    ensures WellFormed(StepLine(st, line, lineIdx, formats))
    ensures st.questions <= StepLine(st, line, lineIdx, formats).questions
  {
    var stripped := Strip(line);
    var fmt := FormatOf(formats, lineIdx);
    StepLineShape(st, line, lineIdx, formats);
    BodyLineWellFormed(st, line, stripped, fmt);
    BodyLineWellFormed(st.(inAnswerSection := false), line, stripped, fmt);
  }

  /** A line either leaves the records and the counter alone or is a body line, after
      perhaps leaving the answer section. */
  lemma StepLineShape(st: ScanState, line: string, lineIdx: nat, formats: map<nat, LineFormat>)
    ensures var r := StepLine(st, line, lineIdx, formats);
      var stripped, fmt := Strip(line), FormatOf(formats, lineIdx);
      (r.questions == st.questions && r.questionId == st.questionId)
      || r == BodyLine(st, line, stripped, fmt)
      || r == BodyLine(st.(inAnswerSection := false), line, stripped, fmt)
  {
    var stripped := Strip(line);
    if stripped == [] || IsSectionHeader(stripped) {
    } else if MatchAnswerHeader(stripped).Some? {
    } else if IsNumeralHeading(stripped) {
    } else {
    }
  }

  lemma ScanUnfold(lines: seq<string>, formats: map<nat, LineFormat>, n: nat)
    requires 0 < n <= |lines|
    ensures Scan(lines, formats, n) == StepLine(Scan(lines, formats, n - 1), lines[n - 1], n - 1, formats)
  {
  }

  lemma {:induction false} ScanWellFormed(lines: seq<string>, formats: map<nat, LineFormat>, n: nat)
    requires n <= |lines|
    ensures WellFormed(Scan(lines, formats, n))
  {
    if n > 0 {
      var prev := Scan(lines, formats, n - 1);
      var line := lines[n - 1];
      var lineIdx: nat := n - 1;
      ScanWellFormed(lines, formats, n - 1);
      StepLineWellFormed(prev, line, lineIdx, formats);
      ScanUnfold(lines, formats, n);
    }
  }

  /** The ids of `detect_questions` are exactly 1..N in order, and every record is well
      formed. */
  lemma DetectWellFormed(text: string, formats: map<nat, LineFormat>)
    ensures var qs := Detect(text, formats);
      forall k | 0 <= k < |qs| :: qs[k].id == k + 1 && WellFormedRecord(qs[k])
  {
    var lines := SourceLines(text);
    ScanWellFormed(lines, formats, |lines|);
    CommitWellFormed(Scan(lines, formats, |lines|));
  }

  // ---------------------------------------------------------------------------
  // Answer mode

  /** An answer header with under 10 characters after the colon, on a line that is not
      a section title. */
  predicate ShortAnswerHeader(stripped: string) {
    stripped != [] && !IsSectionHeader(stripped)
    && MatchAnswerHeader(stripped).Some? && |MatchAnswerHeader(stripped).value| < 10
  }

  lemma BodyLineNeverEntersAnswerMode(st: ScanState, line: string, stripped: string, fmt: LineFormat)
    ensures BodyLine(st, line, stripped, fmt).inAnswerSection ==> st.inAnswerSection
  {
  }

  /** Answer mode is entered by a short answer header and by nothing else. */
  lemma AnswerModeEntered(st: ScanState, line: string, lineIdx: nat, formats: map<nat, LineFormat>)
    requires !st.inAnswerSection
    ensures StepLine(st, line, lineIdx, formats).inAnswerSection <==> ShortAnswerHeader(Strip(line))
  {
    var stripped := Strip(line);
    if stripped != [] && !IsSectionHeader(stripped) && MatchAnswerHeader(stripped).None? {
      var st1 := if IsNumeralHeading(stripped) then st.(inAnswerSection := false) else st;
      BodyLineNeverEntersAnswerMode(st1, line, stripped, FormatOf(formats, lineIdx));
    }
  }

  /** Answer mode is left only by a "一、"-style heading that is neither a section title
      nor an answer header, or by a numbered line that is evidently a question. */
  lemma AnswerModeLeft(st: ScanState, line: string, lineIdx: nat, formats: map<nat, LineFormat>)
    requires st.inAnswerSection && !StepLine(st, line, lineIdx, formats).inAnswerSection
    ensures var s := Strip(line);
      s != [] && !IsSectionHeader(s) && MatchAnswerHeader(s).None?
      && (IsNumeralHeading(s)
          || (MatchNumberedLine(line).Some? && IsQuestionInAnswerSection(MatchNumberedLine(line).value)))
  {
  }

  /** A section title or type heading is skipped whole: the state, answer mode included,
      is unchanged. */
  lemma SectionLineIgnored(st: ScanState, line: string, lineIdx: nat, formats: map<nat, LineFormat>)
    requires IsSectionHeader(Strip(line))
    ensures StepLine(st, line, lineIdx, formats) == st
  {
  }

  /** "一、填空题" is consumed as a section title before the heading test, so it does not
      leave answer mode. */
  lemma FillSectionTitleKeepsAnswerMode(st: ScanState, lineIdx: nat, formats: map<nat, LineFormat>)
    ensures StepLine(st, "一、填空题", lineIdx, formats) == st
  {
    FillTitleStripped();
    SectionHeaderExamples();
    SectionLineIgnored(st, "一、填空题", lineIdx, formats);
  }

  lemma FillTitleStripped()
    ensures Strip("一、填空题") == "一、填空题"
  {
    var s := "一、填空题";
    assert SkipSpaces(s, 0) == 0 by { assert !IsSpace(s[0]); }
    assert SkipBackWhile(s, |s|, IsSpace) == |s| by { assert !IsSpace(s[|s| - 1]); }
  }

  /** Inside answer mode, a numbered line that is not evidently a question and looks like
      answer content is skipped. */
  lemma AnswerContentSkipped(st: ScanState, t: string, fmt: LineFormat)
    requires st.inAnswerSection && !IsQuestionInAnswerSection(t) && LooksLikeAnswerContent(t)
    ensures OnNumberedLine(st, t, fmt) == st
  {
  }

  // ---------------------------------------------------------------------------
  // Numbered, option and continuation lines

  /** A numbered line whose text holds five or more number+delimiter pairs never opens a
      question and never commits the open one. */
  lemma CrowdedNumberedLineNeverOpens(st: ScanState, t: string, fmt: LineFormat)
    requires CountDigitDelim(t) >= 5
    ensures var r := OnNumberedLine(st, t, fmt);
      r.current == st.current && r.questions == st.questions && r.questionId == st.questionId
  {
  }

  /** An option line never opens, commits or closes a question: with a stem open it adds
      options only, and without one it changes nothing. */
  lemma OptionLineNeverOpens(st: ScanState, line: string, fmt: LineFormat)
    requires MatchOption(Strip(line)).Some?
    ensures var r := BodyLine(st, line, Strip(line), fmt);
      r.questions == st.questions && r.questionId == st.questionId
      && r.inAnswerSection == st.inAnswerSection
      && r.current.stem == st.current.stem && r.current.isStrike == st.current.isStrike
      && (st.current.stem == [] ==> r == st)
  {
    if st.current.stem == [] {
      OptionLineNotNumbered(line);
    }
  }

  /** A line whose first non-blank character is an option letter is not a numbered
      line. */
  lemma OptionLineNotNumbered(line: string)
    requires MatchOption(Strip(line)).Some?
    ensures MatchNumberedLine(line).None?
  {
    var s := Strip(line);
    StripFirst(line);
    var c := s[0];
    assert IsOptionLetter(c);
    FirstCharNotNumbered(line, c);
  }

  lemma FirstCharNotNumbered(line: string, c: char)
    requires SkipSpaces(line, 0) < |line| && line[SkipSpaces(line, 0)] == c
    requires IsOptionLetter(c)
    ensures MatchNumberedLine(line).None?
  {
    assert !IsOpenBracket(c) && !IsDigit(c);
  }

  /** A line that is neither an option line under an open stem nor a numbered line is
      appended to the open stem after exactly one space, or dropped when none is open. */
  lemma ContinuationLine(st: ScanState, line: string, fmt: LineFormat)
    requires !(MatchOption(Strip(line)).Some? && st.current.stem != []) && MatchNumberedLine(line).None?
    ensures var r := BodyLine(st, line, Strip(line), fmt);
      r == if st.current.stem == [] then st
           else st.(current := st.current.(stem := st.current.stem + [' '] + Strip(line)))
  {
  }

  // ---------------------------------------------------------------------------
  // The classifier

  /** `_detect_type` without the repeated keyword tests and without the ignored flag:
      the first-match chain as it is evidently meant to read. */
  function ClassifyOnce(stem: string, options: seq<string>): QType {
    if |options| >= 2 then Choice
    else if HasJudgeMarker(stem) then Judge
    else if ContainsAny(stem, FillMarkers) then Fill
    else if ContainsAny(Lower(stem), ComprehensiveKeywords) then Comprehensive
    else if ContainsAny(Lower(stem), CaseKeywords) then Case
    else if HasBlankInQuotes(stem) || HasCjkGap(RemoveQuotedFrom(stem, 0)) || HasSpaceRun(stem) then Fill
    else if |stem| >= 120 then
      if Contains(stem, "案例") || Contains(stem, "情景") || Contains(stem, "情境") then Case
      else Comprehensive
    else Short
  }

  /** The second pair of keyword tests can never fire, and `has_multiple_correct` never
      matters. */
  lemma DetectTypeIgnoresRechecks(stem: string, options: seq<string>, hasMultipleCorrect: bool)
    ensures DetectType(stem, options, hasMultipleCorrect) == ClassifyOnce(stem, options)
  {
  }

  /** The "（ ）" and "( )" fill markers never decide `fill`: a stem holding one is a
      judge question unless it has two or more options. */
  lemma EmptyBracketsAreJudge(stem: string, options: seq<string>, hasMultipleCorrect: bool)
    requires |options| < 2 && (Contains(stem, "（ ）") || Contains(stem, "( )"))
    ensures DetectType(stem, options, hasMultipleCorrect) == Judge
  {
    var w := if Contains(stem, "（ ）") then "（ ）" else "( )";
    var i: nat :| i <= |stem| && OccursAt(stem, w, i);
    assert stem[i..i + 3] == w;
    assert stem[i] == w[0] && stem[i + 1] == w[1] && stem[i + 2] == w[2];
    assert SkipSpaces(stem, i + 1) == i + 2 by {
      assert IsSpace(stem[i + 1]) && !IsSpace(stem[i + 2]);
    }
    assert JudgeMarkerAt(stem, i);
  }

  /** The last resort of the classifier: a long stem with no earlier match is
      comprehensive or case, a shorter one is short. */
  lemma LengthFallback(stem: string, options: seq<string>, hasMultipleCorrect: bool)
    requires |options| < 2 && !HasJudgeMarker(stem) && !ContainsAny(stem, FillMarkers)
    requires !ContainsAny(Lower(stem), ComprehensiveKeywords) && !ContainsAny(Lower(stem), CaseKeywords)
    requires !HasBlankInQuotes(stem) && !HasCjkGap(RemoveQuotedFrom(stem, 0)) && !HasSpaceRun(stem)
    ensures var t := DetectType(stem, options, hasMultipleCorrect);
      (|stem| >= 120 ==> t == Case || t == Comprehensive) && (|stem| < 120 ==> t == Short)
  {
  }
}
