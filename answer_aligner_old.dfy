/** recognizers/answer_aligner_old.py: the earlier aligner. A run of numbered answers
    after the first answer line wins outright; otherwise bracketed verdicts answer the
    judge questions, then explicit answer lines, trailing choice letters and the fill
    strategies fill only what is still unanswered. */
module AnswerAlignerOld {
  import opened Text
  import opened Config
  import opened Records
  import opened QuestionDetector
  import opened DetectorLemmas
  import opened AlignCommon

  // ---------------------------------------------------------------------------
  // _extract_inline_indexed_answers

  /** `re.match(r'\s*(答案|参考答案)', line)` */
  predicate OpensAnswers(line: string) {
    var a := SkipSpaces(line, 0);
    OccursAt(line, "答案", a) || OccursAt(line, "参考答案", a)
  }

  /** The first line at or after `i` that opens the answers. */
  function FirstAnswerLine(lines: seq<string>, i: nat): (r: Option<nat>)
    requires i <= |lines|
    ensures r.Some? ==> (i <= r.value < |lines| && OpensAnswers(lines[r.value])
      && forall j | i <= j < r.value :: !OpensAnswers(lines[j]))
    ensures r.None? ==> forall j | i <= j < |lines| :: !OpensAnswers(lines[j])
    decreases |lines| - i
  {
    if i == |lines| then None
    else if OpensAnswers(lines[i]) then Some(i)
    else FirstAnswerLine(lines, i + 1)
  }

  /** Where `^\s*(答案|参考答案)\s*[:：]?\s*` stops matching; 0 when it does not match.
      What is left of an opening line starts with no blank. */
  function AnswerPrefixEnd(line: string): (c: nat)
    ensures c <= |line|
    ensures !OpensAnswers(line) ==> c == 0
    ensures OpensAnswers(line) ==> 2 <= c && (c == |line| || !IsSpace(line[c]))
  {
    var a := SkipSpaces(line, 0);
    if OccursAt(line, "答案", a) || OccursAt(line, "参考答案", a) then
      var w := if OccursAt(line, "答案", a) then a + 2 else a + 4;
      var b := SkipSpaces(line, w);
      if b < |line| && (line[b] == ':' || line[b] == '：') then SkipSpaces(line, b + 1) else b
    else 0
  }

  /** The stripped lines from `i` on that continue the answers: non-empty, starting with
      a digit and not opening answers themselves. */
  function ContinuationRun(lines: seq<string>, i: nat): (run: seq<string>)
    requires i <= |lines|
    ensures forall s <- run :: s != [] && IsDigit(s[0])
    ensures NoBreaksFrom(lines, i) ==> NoBreaksFrom(run, 0)
    decreases |lines| - i
  {
    if i == |lines| then []
    else
      var next := Strip(lines[i]);
      StripNoLineBreak(lines[i]);
      if next != [] && IsDigit(next[0]) && !OpensAnswers(next) then [next] + ContinuationRun(lines, i + 1)
      else []
  }

  /** A line starting with a digit never opens answers, so the third test of the
      continuation rule decides nothing. */
  lemma ContinuationCheckDead(s: string)
    requires s != [] && IsDigit(s[0])
    ensures !OpensAnswers(s)
  {
    assert SkipSpaces(s, 0) == 0;
  }

  /** The answer line without its prefix, followed by its continuation lines. Built
      from lines without breaks it holds none, so the pattern's `$` can only match at
      its end. */
  function Combined(lines: seq<string>, start: nat): (r: string)
    requires start < |lines|
    ensures NoBreaksFrom(lines, start) ==> NoLineBreak(r)
  {
    JoinNoLineBreak("", ContinuationRun(lines, start + 1));
    lines[start][AnswerPrefixEnd(lines[start])..] + Join("", ContinuationRun(lines, start + 1))
  }

  /** The cleaned pairs entered one after the other, a later entry for the same number
      replacing an earlier one; empty answers are dropped. */
  function AnswerMapOf(cps: seq<(nat, string)>): map<int, string> {
    if cps == [] then map[]
    else
      var prev := AnswerMapOf(cps[..|cps| - 1]);
      var (qid, answer) := cps[|cps| - 1];
      if answer != [] then prev[qid := answer] else prev
  }

  predicate HasAnswer(cps: seq<(nat, string)>, j: int, k: int) {
    0 <= j < |cps| && cps[j].0 == k && cps[j].1 != []
  }

  /** A number is in the map exactly when some pair gives it a non-empty answer, and it
      then maps to the last such answer. */
  lemma AnswerMapLaterWins(cps: seq<(nat, string)>)
    ensures LaterWins(cps, AnswerMapOf(cps))
  {
    forall k {
      AnswerMapKey(cps, k);
    }
  }

  lemma {:induction false} AnswerMapKey(cps: seq<(nat, string)>, k: int)
    ensures k in AnswerMapOf(cps) <==> exists j :: HasAnswer(cps, j, k)
    ensures k in AnswerMapOf(cps) ==> LastAnswerIs(cps, k, AnswerMapOf(cps)[k])
  {
    if cps != [] {
      var n := |cps| - 1;
      var init := cps[..n];
      AnswerMapKey(init, k);
      var prev := AnswerMapOf(init);
      var mp := AnswerMapOf(cps);
      var (qid, answer) := cps[n];
      assert mp == if answer != [] then prev[qid := answer] else prev;
      if answer != [] && k == qid {
        assert HasAnswer(cps, n, k);
      } else {
        assert forall j | 0 <= j < n :: HasAnswer(init, j, k) == HasAnswer(cps, j, k);
        if k in prev {
          var j :| 0 <= j < n && HasAnswer(init, j, k) && prev[k] == init[j].1
            && forall j2 | j < j2 < n :: !HasAnswer(init, j2, k);
          assert HasAnswer(cps, j, k);
        }
      }
    }
  }

  /** `mp` holds a number exactly when some pair gives it a non-empty answer, and maps
      it to the last such answer. */
  ghost predicate LaterWins(cps: seq<(nat, string)>, mp: map<int, string>) {
    (forall k :: k in mp <==> exists j :: HasAnswer(cps, j, k))
    && forall k | k in mp :: LastAnswerIs(cps, k, mp[k])
  }

  /** `v` is the answer of the last pair that gives `k` a non-empty answer. */
  predicate LastAnswerIs(cps: seq<(nat, string)>, k: int, v: string) {
    exists j | 0 <= j < |cps| :: HasAnswer(cps, j, k) && v == cps[j].1
      && forall j2 | j < j2 < |cps| :: !HasAnswer(cps, j2, k)
  }

  /** `_extract_inline_indexed_answers(text)`: empty without an answer line; otherwise a
      number is present exactly when some cleaned pair of the combined answer lines gives
      it a non-empty answer, and it maps to the last such answer. */
  function IndexedAnswerMap(text: string): (r: map<int, string>)
    ensures FirstAnswerLine(SplitLines(text), 0).None? ==> r == map[]
    ensures FirstAnswerLine(SplitLines(text), 0).Some? ==>
      LaterWins(AnswerLinePairs(SplitLines(text), FirstAnswerLine(SplitLines(text), 0).value), r)
  {
    var lines := SplitLines(text);
    match FirstAnswerLine(lines, 0)
    case None => map[]
    case Some(start) =>
      var cps := AnswerLinePairs(lines, start);
      AnswerMapLaterWins(cps);
      AnswerMapOf(cps)
  }

  /** The cleaned (number, answer) pairs `findall` gives on the combined answer lines. */
  function AnswerLinePairs(lines: seq<string>, start: nat): seq<(nat, string)>
    requires start < |lines|
  {
    CleanedPairs(IndexedAnswersFrom(Combined(lines, start), 0, false))
  }

  lemma JoinCons(x: string, rest: seq<string>)
    ensures Join("", [x] + rest) == x + Join("", rest)
  {
    if rest != [] {
      var init := rest[..|rest| - 1];
      JoinCons(x, init);
      assert ([x] + rest)[..|rest|] == [x] + init;
    }
  }

  method ExtractInlineIndexedAnswers(text: string) returns (answerMap: map<int, string>)
    ensures answerMap == IndexedAnswerMap(text)
  {
    var lines := SplitLines(text);
    var startIdx := FindAnswerLine(lines);
    if startIdx.None? {
      return map[];
    }
    var combined := CombineAnswerLines(lines, startIdx.value);
    answerMap := EnterPairs(IndexedAnswersFrom(combined, 0, false));
  }

  /** The loop over the `findall` pairs: each non-empty cleaned answer is entered. */
  method EnterPairs(pairs: seq<(nat, string)>) returns (answerMap: map<int, string>)
    ensures answerMap == AnswerMapOf(CleanedPairs(pairs))
  {
    ghost var cps := CleanedPairs(pairs);
    answerMap := map[];
    for k := 0 to |pairs|
      invariant answerMap == AnswerMapOf(cps[..k])
    {
      assert cps[..k + 1][..k] == cps[..k];
      var (qid, raw) := pairs[k];
      var answer := Cleaned(raw);
      if answer != [] {
        answerMap := answerMap[qid := answer];
      }
    }
    assert cps[..|pairs|] == cps;
  }

  method FindAnswerLine(lines: seq<string>) returns (startIdx: Option<nat>)
    ensures startIdx == FirstAnswerLine(lines, 0)
  {
    startIdx := None;
    for i := 0 to |lines|
      invariant FirstAnswerLine(lines, 0) == FirstAnswerLine(lines, i)
    {
      if OpensAnswers(lines[i]) {
        startIdx := Some(i);
        return;
      }
    }
  }

  method CombineAnswerLines(lines: seq<string>, start: nat) returns (combined: string)
    requires start < |lines|
    ensures combined == Combined(lines, start)
  {
    combined := lines[start][AnswerPrefixEnd(lines[start])..];
    for i := start + 1 to |lines|
      invariant combined + Join("", ContinuationRun(lines, i)) == Combined(lines, start)
    {
      var next, stop := NextContinuation(lines, i);
      if stop {
        return;
      }
      AppendAssoc(combined, next, Join("", ContinuationRun(lines, i + 1)));
      combined := combined + next;
    }
  }

  /** One pass of the continuation loop: the stripped line `i` when it continues the
      answers, or the signal to stop. */
  method NextContinuation(lines: seq<string>, i: nat) returns (next: string, stop: bool)
    requires i < |lines|
    ensures stop ==> ContinuationRun(lines, i) == []
    ensures !stop ==> Join("", ContinuationRun(lines, i)) == next + Join("", ContinuationRun(lines, i + 1))
  {
    next := Strip(lines[i]);
    ContinuationStep(lines, i, next);
    stop := !(next != [] && IsDigit(next[0]) && !OpensAnswers(next));
  }

  lemma ContinuationStep(lines: seq<string>, i: nat, next: string)
    requires i < |lines| && next == Strip(lines[i])
    ensures Join("", ContinuationRun(lines, i))
      == if next != [] && IsDigit(next[0]) && !OpensAnswers(next) then next + Join("", ContinuationRun(lines, i + 1)) else []
  {
    if next != [] && IsDigit(next[0]) && !OpensAnswers(next) {
      JoinCons(next, ContinuationRun(lines, i + 1));
    }
  }

  // ---------------------------------------------------------------------------
  // Bracketed verdicts: [（\(]\s*([对错A-Ha-h]+)\s*[）\)], the last one of a line

  predicate IsVerdictChar(c: char) { c == '对' || c == '错' || IsOptionLetter(c) }

  /** The pattern at `p`: the bounds of the group and the end of the match. */
  function VerdictAt(s: string, p: nat): (m: Option<(nat, nat, nat)>)
    ensures m.Some? ==> p < m.value.0 < m.value.1 < m.value.2 <= |s|
  {
    if p < |s| && IsOpenBracket(s[p]) then
      var a := SkipSpaces(s, p + 1);
      var b := SkipWhile(s, a, IsVerdictChar);
      var e := SkipSpaces(s, b);
      if a < b && e < |s| && IsCloseBracket(s[e]) then Some((a, b, e + 1)) else None
    else None
  }

  /** No match starts inside another: its inner characters are no opening brackets. */
  lemma VerdictsApart(s: string, p: nat, q: nat)
    requires VerdictAt(s, p).Some? && p < q < VerdictAt(s, p).value.2
    ensures VerdictAt(s, q).None?
  {
    var a := SkipSpaces(s, p + 1);
    var b := SkipWhile(s, a, IsVerdictChar);
    if q < a {
      assert IsSpace(s[q]);
    } else if q < b {
      assert IsVerdictChar(s[q]);
    }
  }

  /** The group of the last match at or after `p` (the groups hold no blanks, so
      stripping them changes nothing). */
  function LastVerdictFrom(s: string, p: nat): (r: Option<string>)
    ensures r.Some? ==> r.value != [] && forall i | 0 <= i < |r.value| :: IsVerdictChar(r.value[i])
    decreases |s| - p
  {
    if p >= |s| then None
    else
      match VerdictAt(s, p)
      case Some(m) =>
        var later := LastVerdictFrom(s, m.2);
        if later.Some? then later else Some(s[m.0..m.1])
      case None => LastVerdictFrom(s, p + 1)
  }

  function LastVerdict(line: string): Option<string> {
    LastVerdictFrom(line, 0)
  }

  /** The scan finds the group of the last match at or after `p`, and finds nothing
      exactly when there is no match there. */
  lemma {:induction false} LastVerdictIsLast(s: string, p: nat)
    ensures LastVerdictFrom(s, p).None? <==> forall q | p <= q < |s| :: VerdictAt(s, q).None?
    ensures LastVerdictFrom(s, p).Some? ==>
      exists q | p <= q < |s| :: VerdictAt(s, q).Some?
        && LastVerdictFrom(s, p).value == s[VerdictAt(s, q).value.0..VerdictAt(s, q).value.1]
        && forall r | q < r < |s| :: VerdictAt(s, r).None?
    decreases |s| - p
  {
    if p < |s| {
      match VerdictAt(s, p)
      case Some(m) =>
        LastVerdictIsLast(s, m.2);
        forall r | p < r < m.2
          ensures VerdictAt(s, r).None?
        {
          VerdictsApart(s, p, r);
        }
      case None =>
        LastVerdictIsLast(s, p + 1);
    }
  }

  /** `_extract_inline_bracket_answers` over the first `n` lines. */
  function BracketAnswersUpTo(lines: seq<string>, n: nat): map<nat, string>
    requires n <= |lines|
  {
    map i: nat | i < n && LastVerdict(lines[i]).Some? :: LastVerdict(lines[i]).value
  }

  method ExtractInlineBracketAnswers(lines: seq<string>) returns (answerMap: map<nat, string>)
    ensures answerMap == BracketAnswersUpTo(lines, |lines|)
  {
    answerMap := map[];
    for idx := 0 to |lines|
      invariant answerMap == BracketAnswersUpTo(lines, idx)
    {
      var found := LastVerdict(lines[idx]);
      BracketAnswersSnoc(lines, idx);
      if found.Some? {
        answerMap := answerMap[idx := found.value];
      }
    }
  }

  lemma BracketAnswersSnoc(lines: seq<string>, idx: nat)
    requires idx < |lines|
    ensures var found := LastVerdict(lines[idx]);
      BracketAnswersUpTo(lines, idx + 1)
        == if found.Some? then BracketAnswersUpTo(lines, idx)[idx := found.value] else BracketAnswersUpTo(lines, idx)
  {
  }

  // ---------------------------------------------------------------------------
  // Bracketed verdicts for judge questions

  /** The first line from `i` on that holds the stem prefix and has a verdict. */
  function FirstBracketLine(lines: seq<string>, bmap: map<nat, string>, prefix: string, i: nat): (r: Option<nat>)
    requires i <= |lines|
    ensures r.Some? ==> (i <= r.value < |lines| && Contains(lines[r.value], prefix) && r.value in bmap
      && forall j | i <= j < r.value :: !(Contains(lines[j], prefix) && j in bmap))
    ensures r.None? ==> forall j | i <= j < |lines| :: !(Contains(lines[j], prefix) && j in bmap)
    decreases |lines| - i
  {
    if i == |lines| then None
    else if Contains(lines[i], prefix) && i in bmap then Some(i)
    else FirstBracketLine(lines, bmap, prefix, i + 1)
  }

  /** `q.stem[:min(20, len(q.stem))]` */
  function StemPrefix(stem: string): (p: string)
    ensures |p| <= 20 && |p| <= |stem| && p == stem[..|p|]
  {
    stem[..Min(20, |stem|)]
  }

  function BracketStep(r: QuestionRecord, lines: seq<string>, bmap: map<nat, string>): QuestionRecord {
    if r.qtype == Judge && r.stem != [] then
      match FirstBracketLine(lines, bmap, StemPrefix(r.stem), 0)
      case Some(j) => r.(answer := Some(bmap[j]))
      case None => r
    else r
  }

  function BracketAssigned(rs: seq<QuestionRecord>, lines: seq<string>, bmap: map<nat, string>): (r: seq<QuestionRecord>)
    ensures SameShape(rs, r)
  {
    seq(|rs|, k requires 0 <= k < |rs| => BracketStep(rs[k], lines, bmap))
  }

  /** Only judge questions with a stem are answered, each with the verdict of the first
      line that holds the first twenty characters of its stem and has a verdict. */
  lemma BracketAnswersJudgeOnly(rs: seq<QuestionRecord>, text: string)
    ensures var lines := SplitLines(text);
      var bmap := BracketAnswersUpTo(lines, |lines|);
      var r := BracketAssigned(rs, lines, bmap);
      forall k | 0 <= k < |rs| :: r[k] != rs[k] ==>
        rs[k].qtype == Judge && rs[k].stem != []
        && exists j | 0 <= j < |lines| :: Contains(lines[j], StemPrefix(rs[k].stem))
             && LastVerdict(lines[j]) == r[k].answer
             && forall i | 0 <= i < j :: !(Contains(lines[i], StemPrefix(rs[k].stem)) && LastVerdict(lines[i]).Some?)
  {
    var lines := SplitLines(text);
    var bmap := BracketAnswersUpTo(lines, |lines|);
    forall k | 0 <= k < |rs| && BracketAssigned(rs, lines, bmap)[k] != rs[k]
      ensures rs[k].qtype == Judge && rs[k].stem != []
        && exists j | 0 <= j < |lines| :: Contains(lines[j], StemPrefix(rs[k].stem))
             && LastVerdict(lines[j]) == BracketAssigned(rs, lines, bmap)[k].answer
             && forall i | 0 <= i < j :: !(Contains(lines[i], StemPrefix(rs[k].stem)) && LastVerdict(lines[i]).Some?)
    {
      var j := FirstBracketLine(lines, bmap, StemPrefix(rs[k].stem), 0).value;
      assert forall i | 0 <= i < j :: (i in bmap <==> LastVerdict(lines[i]).Some?);
    }
  }

  /** Conversely, a judge question with a stem takes the verdict of the first line that holds
      its stem prefix and has a verdict, and keeps its record when no line does. */
  lemma BracketAnswersJudgeFound(rs: seq<QuestionRecord>, text: string)
    ensures var lines := SplitLines(text);
      var bmap := BracketAnswersUpTo(lines, |lines|);
      var r := BracketAssigned(rs, lines, bmap);
      forall k, j | 0 <= k < |rs| && 0 <= j < |lines| ::
        rs[k].qtype == Judge && rs[k].stem != []
        && Contains(lines[j], StemPrefix(rs[k].stem)) && LastVerdict(lines[j]).Some?
        && (forall i | 0 <= i < j :: !(Contains(lines[i], StemPrefix(rs[k].stem)) && LastVerdict(lines[i]).Some?))
        ==> r[k] == rs[k].(answer := LastVerdict(lines[j]))
    ensures var lines := SplitLines(text);
      var bmap := BracketAnswersUpTo(lines, |lines|);
      var r := BracketAssigned(rs, lines, bmap);
      forall k | 0 <= k < |rs| ::
        (forall j | 0 <= j < |lines| :: !(Contains(lines[j], StemPrefix(rs[k].stem)) && LastVerdict(lines[j]).Some?))
        ==> r[k] == rs[k]
  {
    var lines := SplitLines(text);
    var bmap := BracketAnswersUpTo(lines, |lines|);
    forall k, j | 0 <= k < |rs| && 0 <= j < |lines|
      && rs[k].qtype == Judge && rs[k].stem != []
      && Contains(lines[j], StemPrefix(rs[k].stem)) && LastVerdict(lines[j]).Some?
      && (forall i | 0 <= i < j :: !(Contains(lines[i], StemPrefix(rs[k].stem)) && LastVerdict(lines[i]).Some?))
      ensures BracketAssigned(rs, lines, bmap)[k] == rs[k].(answer := LastVerdict(lines[j]))
    {
      FirstBracketLineIs(lines, StemPrefix(rs[k].stem), j);
    }
    forall k | 0 <= k < |rs|
      && (forall j | 0 <= j < |lines| :: !(Contains(lines[j], StemPrefix(rs[k].stem)) && LastVerdict(lines[j]).Some?))
      ensures BracketAssigned(rs, lines, bmap)[k] == rs[k]
    {
      assert forall i | 0 <= i < |lines| :: (i in bmap <==> LastVerdict(lines[i]).Some?);
    }
  }

  /** Over the verdict map of all lines, the first line with the prefix and a verdict is `j`. */
  lemma FirstBracketLineIs(lines: seq<string>, prefix: string, j: nat)
    requires j < |lines| && Contains(lines[j], prefix) && LastVerdict(lines[j]).Some?
    requires forall i | 0 <= i < j :: !(Contains(lines[i], prefix) && LastVerdict(lines[i]).Some?)
    ensures var bmap := BracketAnswersUpTo(lines, |lines|);
      FirstBracketLine(lines, bmap, prefix, 0) == Some(j) && bmap[j] == LastVerdict(lines[j]).value
  {
    var bmap := BracketAnswersUpTo(lines, |lines|);
    assert forall i | 0 <= i <= j :: (i in bmap <==> LastVerdict(lines[i]).Some?);
  }

  method ApplyBracketAnswers(qs: seq<Question>, lines: seq<string>, bmap: map<nat, string>)
    requires Distinct(qs)
    modifies qs
    ensures Snapshot(qs) == BracketAssigned(old(Snapshot(qs)), lines, bmap)
  {
    ghost var rs := Snapshot(qs);
    for k := 0 to |qs|
      invariant forall j | 0 <= j < |qs| :: qs[j].Record() == if j < k then BracketStep(rs[j], lines, bmap) else rs[j]
    {
      var q := qs[k];
      if q.qtype == Judge && q.stem != [] {
        var lineIdx := FindBracketLine(lines, bmap, StemPrefix(q.stem));
        if lineIdx.Some? {
          SetAnswer(qs, k, Some(bmap[lineIdx.value]));
        }
      }
    }
  }

  method FindBracketLine(lines: seq<string>, bmap: map<nat, string>, prefix: string) returns (r: Option<nat>)
    ensures r == FirstBracketLine(lines, bmap, prefix, 0)
  {
    r := None;
    for lineIdx := 0 to |lines|
      invariant FirstBracketLine(lines, bmap, prefix, 0) == FirstBracketLine(lines, bmap, prefix, lineIdx)
    {
      if Contains(lines[lineIdx], prefix) && lineIdx in bmap {
        r := Some(lineIdx);
        return;
      }
    }
  }

  // ---------------------------------------------------------------------------
  // align_answers

  /** Every question whose number has an indexed answer takes it. */
  function IndexedAssigned(rs: seq<QuestionRecord>, mp: map<int, string>): (r: seq<QuestionRecord>)
    ensures SameShape(rs, r)
  {
    seq(|rs|, k requires 0 <= k < |rs| => if rs[k].id in mp then rs[k].(answer := Some(mp[rs[k].id])) else rs[k])
  }

  method ApplyIndexed(qs: seq<Question>, mp: map<int, string>)
    requires Distinct(qs)
    modifies qs
    ensures Snapshot(qs) == IndexedAssigned(old(Snapshot(qs)), mp)
  {
    ghost var rs := Snapshot(qs);
    for k := 0 to |qs|
      invariant forall j | 0 <= j < |qs| :: qs[j].Record() == if j < k && rs[j].id in mp then rs[j].(answer := Some(mp[rs[j].id])) else rs[j]
    {
      if qs[k].id in mp {
        SetAnswer(qs, k, Some(mp[qs[k].id]));
      }
    }
  }

  /** The fill extractor of this aligner: the diff alone. */
  function OldFill(m: Matcher): (string, string) -> Option<string> {
    (withAns, withoutAns) => DiffFillAnswer(m, withAns, withoutAns)
  }

  /** `align_answers` of this aligner. Aligning only ever sets answers. */
  function AlignOld(withAns: Option<string>, withoutAns: string, m: Matcher): (r: seq<QuestionRecord>)
    ensures SameShape(Detect(withoutAns, map[]), r)
  {
    var base := Detect(withoutAns, map[]);
    AlignOldWithKeepsQuestions(base, if withAns.Some? then withAns.value else [], withoutAns, m);
    if withAns.None? || withAns.value == [] then base
    else AlignOldWith(base, withAns.value, withoutAns, m)
  }

  function AlignOldWith(base: seq<QuestionRecord>, text: string, withoutAns: string, m: Matcher): seq<QuestionRecord> {
    var mp := IndexedAnswerMap(text);
    if mp != map[] then IndexedAssigned(base, mp)
    else AfterBrackets(BracketPhase(base, text), text, withoutAns, m)
  }

  function BracketPhase(base: seq<QuestionRecord>, text: string): (r: seq<QuestionRecord>)
    ensures SameShape(base, r)
  {
    var lines := SplitLines(text);
    var bmap := BracketAnswersUpTo(lines, |lines|);
    if bmap != map[] then BracketAssigned(base, lines, bmap) else base
  }

  function AfterBrackets(s0: seq<QuestionRecord>, text: string, withoutAns: string, m: Matcher): seq<QuestionRecord> {
    var extracted := ExplicitAnswers(text);
    if extracted != [] && |extracted| == |s0| then Positional(s0, extracted, false)
    else LateStages(InlineStep(ExplicitStep(s0, extracted, false), InlineChoiceAnswers(text), true), text, withoutAns, m, OldFill(m))
  }

  method AlignAnswersOld(withAns: Option<string>, withoutAns: string, m: Matcher) returns (qs: seq<Question>)
    ensures Distinct(qs) && Snapshot(qs) == AlignOld(withAns, withoutAns, m)
  {
    var records := DetectQuestions(withoutAns, map[]);
    qs := MakeQuestions(records);
    match withAns
    case Some(text) =>
      if text != [] {
        AlignOldInPlace(qs, text, withoutAns, m);
      }
    case None =>
  }

  method AlignOldInPlace(qs: seq<Question>, text: string, withoutAns: string, m: Matcher)
    requires Distinct(qs)
    modifies qs
    ensures Snapshot(qs) == AlignOldWith(old(Snapshot(qs)), text, withoutAns, m)
  {
    var mp := ExtractInlineIndexedAnswers(text);
    if mp != map[] {
      ApplyIndexed(qs, mp);
      return;
    }
    ghost var s0 := Snapshot(qs);
    var lines := SplitLines(text);
    var bmap := ExtractInlineBracketAnswers(lines);
    if bmap != map[] {
      ApplyBracketAnswers(qs, lines, bmap);
    }
    assert Snapshot(qs) == BracketPhase(s0, text);
    AfterBracketsInPlace(qs, text, withoutAns, m);
  }

  method AfterBracketsInPlace(qs: seq<Question>, text: string, withoutAns: string, m: Matcher)
    requires Distinct(qs)
    modifies qs
    ensures Snapshot(qs) == AfterBrackets(old(Snapshot(qs)), text, withoutAns, m)
  {
    var extracted := CollectCaptures(SplitLines(text), LineAnswer);
    if extracted != [] && |extracted| == |qs| {
      AssignPositional(qs, extracted, false);
      return;
    }
    ghost var s0 := Snapshot(qs);
    ApplyExplicit(qs, extracted, false);
    ghost var s1 := Snapshot(qs);
    ApplyInline(qs, text, true);
    ghost var s2 := Snapshot(qs);
    ApplyLateStages(qs, text, withoutAns, m, OldFill(m));
    assert s1 == ExplicitStep(s0, ExplicitAnswers(text), false);
    assert s2 == InlineStep(s1, InlineChoiceAnswers(text), true);
  }

  // ---------------------------------------------------------------------------
  // Properties

  /** Once a run of numbered answers is found, it alone decides: each question whose
      number it lists takes that answer, and every other question stays unanswered. */
  lemma IndexedAnswersDecide(text: string, withoutAns: string, m: Matcher)
    requires text != [] && IndexedAnswerMap(text) != map[]
    ensures var base := Detect(withoutAns, map[]);
      var r := AlignOld(Some(text), withoutAns, m);
      var mp := IndexedAnswerMap(text);
      |r| == |base| && forall k | 0 <= k < |r| ::
        r[k].answer == if base[k].id in mp then Some(mp[base[k].id]) else None
  {
    DetectWellFormed(withoutAns, map[]);
  }

  lemma AlignOldWithKeepsQuestions(base: seq<QuestionRecord>, text: string, withoutAns: string, m: Matcher)
    ensures SameShape(base, AlignOldWith(base, text, withoutAns, m))
  {
    if IndexedAnswerMap(text) == map[] {
      var s0 := BracketPhase(base, text);
      var extracted := ExplicitAnswers(text);
      if !(extracted != [] && |extracted| == |s0|) {
        var s1 := ExplicitStep(s0, extracted, false);
        var s2 := InlineStep(s1, InlineChoiceAnswers(text), true);
        InlineStepKeepsQuestions(s1, InlineChoiceAnswers(text), true);
        SameShapeTransitive(s0, s1, s2);
        LateStagesKeepQuestions(s2, text, withoutAns, m, OldFill(m));
        SameShapeTransitive(s0, s2, LateStages(s2, text, withoutAns, m, OldFill(m)));
      }
      SameShapeTransitive(base, s0, AfterBrackets(s0, text, withoutAns, m));
    }
  }
}
