/** recognizers/answer_aligner.py: the aligner in use. Questions come from the text
    without answers; the text with answers is tried with four strategies in turn:
    explicit answer lines, trailing choice letters, pairwise and similarity matching of
    fill stems, and a global diff. */
module AnswerAligner {
  import opened Text
  import opened Records
  import opened QuestionDetector
  import opened DetectorLemmas
  import opened AlignCommon

  // ---------------------------------------------------------------------------
  // Bracketed fill answers: re.findall(r"（([^）]+)）|\(([^)]+)\)", stem)

  predicate IsNotFullClose(c: char) { c != '）' }
  predicate IsNotHalfClose(c: char) { c != ')' }

  /** The pattern at `p`: a full-width or half-width opening bracket, a non-empty run
      free of the matching closing bracket, then that closing bracket. The bounds of the
      group come back. */
  function BracketGroupAt(s: string, p: nat): (m: Option<(nat, nat)>)
    ensures m.Some? ==> p < m.value.0 < m.value.1 < |s|
  {
    if p < |s| && s[p] == '（' then
      var c := SkipWhile(s, p + 1, IsNotFullClose);
      if p + 1 < c < |s| then Some((p + 1, c)) else None
    else if p < |s| && s[p] == '(' then
      var c := SkipWhile(s, p + 1, IsNotHalfClose);
      if p + 1 < c < |s| then Some((p + 1, c)) else None
    else None
  }

  /** The groups `re.findall` returns from `p` on: each match resumes the scan after
      its closing bracket. */
  function BracketGroups(s: string, p: nat): (r: seq<string>)
    ensures forall g <- r :: g != []
    decreases |s| - p
  {
    if p >= |s| then []
    else
      match BracketGroupAt(s, p)
      case Some(m) => [s[m.0..m.1]] + BracketGroups(s, m.1 + 1)
      case None => BracketGroups(s, p + 1)
  }

  /** No group is found exactly when the pattern matches nowhere. */
  lemma {:induction false} BracketGroupsNone(s: string, p: nat)
    ensures BracketGroups(s, p) == [] <==> forall q | p <= q < |s| :: BracketGroupAt(s, q).None?
    decreases |s| - p
  {
    if p < |s| {
      match BracketGroupAt(s, p)
      case Some(m) =>
      case None => BracketGroupsNone(s, p + 1);
    }
  }

  /** `_extract_fill_answer`: the bracket contents, each stripped, when there are any;
      otherwise the inserted spans of the diff, stripped of blanks and brackets. It gives
      nothing exactly when the stem has no bracket group and no opcode of the diff is an
      insert of a non-blank span. */
  function ExtractFillAnswer(m: Matcher, withAns: string, withoutAns: string): (r: Option<string>)
    ensures r.None? <==>
      (forall q | 0 <= q < |withAns| :: BracketGroupAt(withAns, q).None?)
      && forall op <- m.opcodes(withoutAns, withAns) ::
           op.tag != Insert || Strip(Slice(withAns, op.j1, op.j2)) == []
  {
    BracketGroupsNone(withAns, 0);
    DiffPiecesEmpty(m.opcodes(withoutAns, withAns), withAns, withoutAns, false);
    var pieces := StripAll(BracketGroups(withAns, 0));
    if pieces != [] then Some(Join("；", pieces))
    else JoinPieces(DiffPieces(m.opcodes(withoutAns, withAns), withAns, withoutAns, false))
  }

  /** The fill extractor as the strategies take it: (stem with answers, stem without). */
  function LiveFill(m: Matcher): (string, string) -> Option<string> {
    (withAns, withoutAns) => ExtractFillAnswer(m, withAns, withoutAns)
  }

  // ---------------------------------------------------------------------------
  // align_answers

  /** The answers of `align_answers(with_ans_text, without_ans_text)`, question by
      question. Aligning only ever sets answers: the questions of the text without
      answers keep their number, order, ids, types, stems and options. */
  function Align(withAns: Option<string>, withoutAns: string, m: Matcher): (r: seq<QuestionRecord>)
    ensures SameShape(Detect(withoutAns, map[]), r)
  {
    var base := Detect(withoutAns, map[]);
    AlignWithKeepsQuestions(base, if withAns.Some? then withAns.value else [], withoutAns, m);
    if withAns.None? || withAns.value == [] then base
    else AlignWith(base, withAns.value, withoutAns, m)
  }

  function AlignWith(base: seq<QuestionRecord>, text: string, withoutAns: string, m: Matcher): seq<QuestionRecord> {
    var extracted := ExplicitAnswers(text);
    if extracted != [] && |extracted| == |base| then Positional(base, extracted, true)
    else LateStages(InlineStep(ExplicitStep(base, extracted, true), InlineChoiceAnswers(text), false), text, withoutAns, m, LiveFill(m))
  }

  method AlignAnswers(withAns: Option<string>, withoutAns: string, m: Matcher) returns (qs: seq<Question>)
    ensures Distinct(qs) && Snapshot(qs) == Align(withAns, withoutAns, m)
  {
    var records := DetectQuestions(withoutAns, map[]);
    qs := MakeQuestions(records);
    if withAns.Some? && withAns.value != [] {
      AlignInPlace(qs, withAns.value, withoutAns, m);
      assert Snapshot(qs) == AlignWith(records, withAns.value, withoutAns, m);
    }
  }

  /** The body of `if with_ans_text:`. */
  method AlignInPlace(qs: seq<Question>, text: string, withoutAns: string, m: Matcher)
    requires Distinct(qs)
    modifies qs
    ensures Snapshot(qs) == AlignWith(old(Snapshot(qs)), text, withoutAns, m)
  {
    var extracted := CollectCaptures(SplitLines(text), LineAnswer);
    if extracted != [] && |extracted| == |qs| {
      AssignPositional(qs, extracted, true);
      return;
    }
    ghost var s0 := Snapshot(qs);
    ApplyExplicit(qs, extracted, true);
    ghost var s1 := Snapshot(qs);
    ApplyInline(qs, text, false);
    ghost var s2 := Snapshot(qs);
    ApplyLateStages(qs, text, withoutAns, m, LiveFill(m));
    assert s1 == ExplicitStep(s0, ExplicitAnswers(text), true);
    assert s2 == InlineStep(s1, InlineChoiceAnswers(text), false);
  }

  // ---------------------------------------------------------------------------
  // Properties

  /** Without an answer text the questions come back unanswered. */
  lemma NoAnswerText(withAns: Option<string>, withoutAns: string, m: Matcher)
    requires withAns.None? || withAns.value == []
    ensures Align(withAns, withoutAns, m) == Detect(withoutAns, map[])
    ensures forall r <- Align(withAns, withoutAns, m) :: r.answer.None?
  {
    DetectWellFormed(withoutAns, map[]);
  }

  lemma AlignWithKeepsQuestions(base: seq<QuestionRecord>, text: string, withoutAns: string, m: Matcher)
    ensures SameShape(base, AlignWith(base, text, withoutAns, m))
  {
    var extracted := ExplicitAnswers(text);
    if !(extracted != [] && |extracted| == |base|) {
      var s1 := ExplicitStep(base, extracted, true);
      var s2 := InlineStep(s1, InlineChoiceAnswers(text), false);
      InlineStepKeepsQuestions(s1, InlineChoiceAnswers(text), false);
      SameShapeTransitive(base, s1, s2);
      LateStagesKeepQuestions(s2, text, withoutAns, m, LiveFill(m));
      SameShapeTransitive(base, s2, LateStages(s2, text, withoutAns, m, LiveFill(m)));
    }
  }

  /** When the text with answers has exactly one explicit answer line per question, the
      k-th line answers the k-th question and nothing else is consulted. */
  lemma ExplicitLinesAnswerAll(text: string, withoutAns: string, m: Matcher)
    requires var n := |Detect(withoutAns, map[])|; n > 0 && |ExplicitAnswers(text)| == n
    ensures var r := Align(Some(text), withoutAns, m);
      forall k | 0 <= k < |r| :: r[k].answer == Some(ExplicitAnswers(text)[k])
  {
  }
}
