/** recognizers/answer_aligner_bak.py: the aligner that reads the answer text block by
    block. The questions are grouped by type; for each type the answer block is the
    first answer line within four lines after a line naming the type, running to the
    next line that names any type. Its numbered answers go to the questions of that
    type with the same number, unless they are answered already. */
module AnswerAlignerBak {
  import opened Text
  import opened Records
  import opened QuestionDetector
  import opened AlignCommon
  import DetectorLemmas

  // ---------------------------------------------------------------------------
  // Type keywords

  /** `type_keywords.get(q_type, [str(q_type)])` */
  function TypeKeywords(t: QType): (kws: seq<string>)
    ensures kws != [] && forall w <- kws :: w != []
  {
    match t
    case Fill => ["填空题", "填空"]
    case Judge => ["判断题", "判断"]
    case Choice => ["选择题", "选择", "单选题", "单选"]
    case Short => ["简答题", "简答", "论述"]
    case Comprehensive => ["综合应用题", "综合应用", "综合题", "综合"]
    case Case => ["案例分析题", "案例分析", "案例题"]
    case Multi => [t.Name()]
  }

  /** Every keyword of the table; the name of a type outside the table is not one. */
  const AllKeywords: seq<string> :=
    TypeKeywords(Fill) + TypeKeywords(Judge) + TypeKeywords(Choice) + TypeKeywords(Short)
    + TypeKeywords(Comprehensive) + TypeKeywords(Case)

  /** A line that names a type (any keyword of the table). */
  predicate NamesType(line: string) {
    ContainsAny(line, AllKeywords)
  }

  // ---------------------------------------------------------------------------
  // Grouping by type, in first-seen order

  function GroupOrder(rs: seq<QuestionRecord>): (order: seq<QType>) {
    if rs == [] then []
    else
      var prev := GroupOrder(rs[..|rs| - 1]);
      if rs[|rs| - 1].qtype in prev then prev else prev + [rs[|rs| - 1].qtype]
  }

  /** The order lists each type present exactly once, and no other. */
  lemma {:induction false} GroupOrderFacts(rs: seq<QuestionRecord>)
    ensures var order := GroupOrder(rs);
      (forall i, j | 0 <= i < j < |order| :: order[i] != order[j])
      && (forall k | 0 <= k < |rs| :: rs[k].qtype in order)
      && (forall t <- order :: exists k | 0 <= k < |rs| :: rs[k].qtype == t)
  {
    if rs != [] {
      var init := rs[..|rs| - 1];
      GroupOrderFacts(init);
      var prev := GroupOrder(init);
      assert forall k | 0 <= k < |init| :: rs[k] == init[k];
      assert forall t <- prev :: exists k | 0 <= k < |init| :: rs[k].qtype == t;
    }
  }

  /** The positions of the questions of type `t`, in order. */
  function Group(rs: seq<QuestionRecord>, t: QType): (idx: seq<nat>)
    ensures Increasing(idx)
    ensures forall k | 0 <= k < |idx| :: idx[k] < |rs| && rs[idx[k]].qtype == t
    ensures forall k | 0 <= k < |rs| && rs[k].qtype == t :: k in idx
  {
    if rs == [] then []
    else
      var init := rs[..|rs| - 1];
      var prev := Group(init, t);
      assert forall k | 0 <= k < |prev| :: rs[prev[k]] == init[prev[k]];
      if rs[|rs| - 1].qtype == t then prev + [|rs| - 1] else prev
  }

  lemma GroupOrderSnoc(rs: seq<QuestionRecord>, k: nat)
    requires k < |rs|
    ensures var prev := GroupOrder(rs[..k]);
      GroupOrder(rs[..k + 1]) == if rs[k].qtype in prev then prev else prev + [rs[k].qtype]
  {
    assert rs[..k + 1][..k] == rs[..k];
  }

  lemma GroupSnoc(rs: seq<QuestionRecord>, k: nat, t: QType)
    requires k < |rs|
    ensures Group(rs[..k + 1], t) == Group(rs[..k], t) + if rs[k].qtype == t then [k] else []
  {
    assert rs[..k + 1][..k] == rs[..k];
  }

  lemma GroupOutsideOrder(rs: seq<QuestionRecord>, t: QType)
    requires t !in GroupOrder(rs)
    ensures Group(rs, t) == []
  {
    GroupOrderFacts(rs);
  }

  method BuildTypeGroups(rs: seq<QuestionRecord>) returns (order: seq<QType>, groups: map<QType, seq<nat>>)
    ensures order == GroupOrder(rs)
    ensures forall t <- order :: t in groups && groups[t] == Group(rs, t)
  {
    order, groups := [], map[];
    for k := 0 to |rs|
      invariant order == GroupOrder(rs[..k])
      invariant forall t :: t in groups <==> t in order
      invariant forall t <- order :: groups[t] == Group(rs[..k], t)
    {
      GroupOrderSnoc(rs, k);
      var t := rs[k].qtype;
      GroupSnoc(rs, k, t);
      if t !in groups {
        GroupOutsideOrder(rs[..k], t);
        order := order + [t];
        groups := groups[t := []];
      }
      groups := groups[t := groups[t] + [k]];
      forall u <- order
        ensures groups[u] == Group(rs[..k + 1], u)
      {
        GroupSnoc(rs, k, u);
      }
    }
    assert rs[..|rs|] == rs;
  }

  // ---------------------------------------------------------------------------
  // Locating and collecting a block

  /** `re.match(r'^\s*答案\s*[:：]?', line)` */
  predicate OpensAnswerBlock(line: string) {
    OccursAt(line, "答案", SkipSpaces(line, 0))
  }

  /** The first answer line among `lines[j:min(i + 5, len(lines))]`. */
  function AnswerLineAfter(lines: seq<string>, i: nat, j: nat): (r: Option<nat>)
    ensures r.Some? ==> j <= r.value < |lines| && r.value < i + 5 && OpensAnswerBlock(lines[r.value])
    ensures r.Some? ==> forall j2 | j <= j2 < r.value :: !OpensAnswerBlock(lines[j2])
    ensures r.None? ==> forall j2 | j <= j2 < |lines| && j2 < i + 5 :: !OpensAnswerBlock(lines[j2])
    decreases |lines| - j
  {
    if j >= |lines| || j >= i + 5 then None
    else if OpensAnswerBlock(lines[j]) then Some(j)
    else AnswerLineAfter(lines, i, j + 1)
  }

  /** A line holding a keyword, with an answer line within the next four lines. */
  predicate HasBlockAfter(lines: seq<string>, kws: seq<string>, i: nat) {
    i < |lines| && ContainsAny(lines[i], kws) && AnswerLineAfter(lines, i, i + 1).Some?
  }

  /** Line `i0` is the first keyword line from `i` on with an answer line after it. */
  predicate FirstBlockLine(lines: seq<string>, kws: seq<string>, i: nat, i0: nat) {
    i <= i0 && HasBlockAfter(lines, kws, i0) && forall i1 | i <= i1 < i0 :: !HasBlockAfter(lines, kws, i1)
  }

  /** The start of the block: the answer line found after the first line holding a
      keyword that has one; `None` when no keyword line has one. */
  function BlockStartFrom(lines: seq<string>, kws: seq<string>, i: nat): (r: Option<nat>)
    ensures r.Some? ==> r.value < |lines| && OpensAnswerBlock(lines[r.value])
    ensures r.None? <==> forall i1 | i <= i1 < |lines| :: !HasBlockAfter(lines, kws, i1)
    decreases |lines| - i
  {
    if i >= |lines| then None
    else if HasBlockAfter(lines, kws, i) then AnswerLineAfter(lines, i, i + 1)
    else BlockStartFrom(lines, kws, i + 1)
  }

  /** A block found from line `i` starts at the answer line after the first keyword line
      from `i` on that has one. */
  lemma {:induction false} BlockStartFromFirst(lines: seq<string>, kws: seq<string>, i: nat)
    ensures BlockStartFrom(lines, kws, i).Some? ==>
      exists i0: nat :: FirstBlockLine(lines, kws, i, i0) && BlockStartFrom(lines, kws, i) == AnswerLineAfter(lines, i0, i0 + 1)
    decreases |lines| - i
  {
    if i < |lines| {
      if HasBlockAfter(lines, kws, i) {
        assert FirstBlockLine(lines, kws, i, i);
      } else if BlockStartFrom(lines, kws, i + 1).Some? {
        BlockStartFromFirst(lines, kws, i + 1);
        var i0: nat :| FirstBlockLine(lines, kws, i + 1, i0) && BlockStartFrom(lines, kws, i + 1) == AnswerLineAfter(lines, i0, i0 + 1);
        FirstBlockLineStep(lines, kws, i, i0);
      }
    }
  }

  /** A line without a block before the first one from `i + 1` leaves it the first from `i`. */
  lemma FirstBlockLineStep(lines: seq<string>, kws: seq<string>, i: nat, i0: nat)
    requires !HasBlockAfter(lines, kws, i) && FirstBlockLine(lines, kws, i + 1, i0)
    ensures FirstBlockLine(lines, kws, i, i0)
  {
  }

  /** The block text from line `i` on: stripped non-empty lines, each followed by a
      blank, up to a line after the first that names a type. */
  function BlockTextFrom(lines: seq<string>, start: nat, i: nat): (r: string)
    decreases |lines| - i
  {
    if i >= |lines| then []
    else
      var line := Strip(lines[i]);
      if line == [] then BlockTextFrom(lines, start, i + 1)
      else if i > start && NamesType(line) then []
      else line + " " + BlockTextFrom(lines, start, i + 1)
  }

  /** The block text ends with a blank when it is not empty, and it holds no line break
      when the lines it is built from hold none; so the pattern's `$` can only match at
      its end. */
  lemma {:induction false} BlockTextShape(lines: seq<string>, start: nat, i: nat)
    ensures var r := BlockTextFrom(lines, start, i); r == [] || r[|r| - 1] == ' '
    ensures NoBreaksFrom(lines, i) ==> NoLineBreak(BlockTextFrom(lines, start, i))
    decreases |lines| - i
  {
    if i < |lines| {
      StripNoLineBreak(lines[i]);
      BlockTextShape(lines, start, i + 1);
    }
  }

  method FindAnswerLineAfter(lines: seq<string>, i: nat) returns (r: Option<nat>)
    requires i < |lines|
    ensures r == AnswerLineAfter(lines, i, i + 1)
  {
    r := None;
    for j := i + 1 to Min(i + 5, |lines|)
      invariant AnswerLineAfter(lines, i, i + 1) == AnswerLineAfter(lines, i, j)
    {
      if OpensAnswerBlock(lines[j]) {
        r := Some(j);
        return;
      }
    }
  }

  method FindBlockStart(lines: seq<string>, kws: seq<string>) returns (r: Option<nat>)
    ensures r == BlockStartFrom(lines, kws, 0)
  {
    r := None;
    for i := 0 to |lines|
      invariant BlockStartFrom(lines, kws, 0) == BlockStartFrom(lines, kws, i)
    {
      if ContainsAny(lines[i], kws) {
        var found := FindAnswerLineAfter(lines, i);
        if found.Some? {
          r := found;
          return;
        }
      }
    }
  }

  method CollectBlockText(lines: seq<string>, start: nat) returns (answerText: string)
    requires start < |lines|
    ensures answerText == BlockTextFrom(lines, start, start)
  {
    answerText := [];
    for i := start to |lines|
      invariant answerText + BlockTextFrom(lines, start, i) == BlockTextFrom(lines, start, start)
    {
      var line := Strip(lines[i]);
      ghost var rest := BlockTextFrom(lines, start, i + 1);
      BlockTextUnfold(lines, start, i, line, rest);
      if line != [] {
        if i > start && NamesType(line) {
          return;
        }
        AppendAssoc(answerText, line + " ", rest);
        answerText := answerText + (line + " ");
      }
    }
  }

  lemma BlockTextUnfold(lines: seq<string>, start: nat, i: nat, line: string, rest: string)
    requires i < |lines| && line == Strip(lines[i]) && rest == BlockTextFrom(lines, start, i + 1)
    ensures BlockTextFrom(lines, start, i) ==
        if line == [] then rest
        else if i > start && NamesType(line) then []
        else (line + " ") + rest
  {
  }

  // ---------------------------------------------------------------------------
  // Parsing a block

  predicate IsVerdictMark(c: char) { c in "×√对错TF" }

  /** The judge pattern matches at `p` with its mark at `a`: the digit run from `p`,
      blanks, the delimiter, blanks, then the mark. */
  predicate JudgeShape(s: string, p: nat, a: nat) {
    IndexAt(s, p, true) &&
    var k := DelimiterPos(s, SkipWhile(s, p, IsDigit), true);
    k + 1 <= a < |s| && (forall i | k + 1 <= i < a :: IsSpace(s[i])) && IsVerdictMark(s[a])
  }

  /** `(\d+)\s*[\.、]\s*([×√对错TF])` at `p`: the end of the number and the mark. */
  function JudgeAnswerAt(s: string, p: nat): (m: Option<(nat, nat)>)
    ensures m.Some? ==> p < m.value.0 < m.value.1 < |s| && IsVerdictMark(s[m.value.1])
    ensures m.Some? ==> m.value.0 == SkipWhile(s, p, IsDigit) && !IsDigit(s[m.value.0])
    ensures m.Some? ==> JudgeShape(s, p, m.value.1)
  {
    if IndexAt(s, p, true) then
      var d := SkipWhile(s, p, IsDigit);
      var g := SkipSpaces(s, DelimiterPos(s, d, true) + 1);
      if g < |s| && IsVerdictMark(s[g]) then Some((d, g)) else None
    else None
  }

  /** The mark found is the only one the pattern can match at `p`, and when none is
      found the pattern does not match at `p`. */
  lemma JudgeAnswerAtIsMatch(s: string, p: nat)
    ensures JudgeAnswerAt(s, p).Some? ==> forall a: nat | JudgeShape(s, p, a) :: a == JudgeAnswerAt(s, p).value.1
    ensures JudgeAnswerAt(s, p).None? ==> forall a: nat :: !JudgeShape(s, p, a)
  {
    forall a: nat | JudgeShape(s, p, a)
      ensures JudgeAnswerAt(s, p).Some? && a == JudgeAnswerAt(s, p).value.1
    {
      var g := SkipSpaces(s, DelimiterPos(s, SkipWhile(s, p, IsDigit), true) + 1);
      assert a <= g;
    }
  }

  /** Where the judge match tried at `q` ends: just past its mark. */
  function JudgeEnds(s: string): nat -> Option<nat> {
    q => match JudgeAnswerAt(s, q) case Some(m) => Some(m.1 + 1) case None => None
  }

  /** The pair a judge match at `q` contributes: its digit run read as a number, and its mark. */
  function JudgePair(s: string, q: nat): (nat, string)
    requires JudgeAnswerAt(s, q).Some?
  {
    var m := JudgeAnswerAt(s, q).value;
    (NumberValue(s[q..m.0]), [s[m.1]])
  }

  function JudgeAnswersFrom(s: string, p: nat): (pairs: seq<(nat, string)>)
    ensures forall k | 0 <= k < |pairs| :: |pairs[k].1| == 1 && IsVerdictMark(pairs[k].1[0])
    decreases |s| - p
  {
    if p >= |s| then []
    else
      match JudgeAnswerAt(s, p)
      case Some(m) => [(NumberValue(s[p..m.0]), [s[m.1]])] + JudgeAnswersFrom(s, m.1 + 1)
      case None => JudgeAnswersFrom(s, p + 1)
  }
  /** The judge scan returns exactly the matches `re.findall` finds, in order. */
  lemma {:induction false} JudgeAnswersAreMatches(s: string, p: nat)
    ensures |JudgeAnswersFrom(s, p)| == |ScanStarts(JudgeEnds(s), |s|, p)|
    ensures forall i | 0 <= i < |JudgeAnswersFrom(s, p)| ::
      JudgeAnswersFrom(s, p)[i] == JudgePair(s, ScanStarts(JudgeEnds(s), |s|, p)[i])
    decreases |s| - p
  {
    if p < |s| {
      match JudgeAnswerAt(s, p)
      case Some(m) => JudgeAnswersAreMatches(s, m.1 + 1);
      case None => JudgeAnswersAreMatches(s, p + 1);
    }
  }


  function ParseBlock(t: QType, text: string): seq<(nat, string)> {
    if t == Judge then JudgeAnswersFrom(text, 0) else IndexedAnswersFrom(text, 0, true)
  }

  /** The numbered answers of a block, each cleaned. */
  function BlockPairs(t: QType, text: string): seq<(nat, string)> {
    CleanedPairs(ParseBlock(t, text))
  }

  // ---------------------------------------------------------------------------
  // Assigning a block

  /** Every position of the group is one of `n` questions. */
  predicate Within(group: seq<nat>, n: nat) {
    forall k | 0 <= k < |group| :: group[k] < n
  }

  /** The first member of the group, from position `i` of the group on, with the
      given number. */
  function FirstWithId(rs: seq<QuestionRecord>, group: seq<nat>, qid: int, i: nat): (r: Option<nat>)
    requires Within(group, |rs|)
    ensures r.Some? ==> r.value in group && rs[r.value].id == qid
    ensures r.Some? ==> exists i0 | i <= i0 < |group| ::
      group[i0] == r.value && forall i1 | i <= i1 < i0 :: rs[group[i1]].id != qid
    ensures r.None? <==> forall i1 | i <= i1 < |group| :: rs[group[i1]].id != qid
    decreases |group| - i
  {
    if i >= |group| then None
    else if rs[group[i]].id == qid then Some(group[i])
    else FirstWithId(rs, group, qid, i + 1)
  }

  /** One answer: the first question of the group with its number takes it, unless
      that question is answered already. */
  function AssignPair(rs: seq<QuestionRecord>, group: seq<nat>, qid: int, answer: string): seq<QuestionRecord>
    requires Within(group, |rs|)
  {
    match FirstWithId(rs, group, qid, 0)
    case Some(k) => if !Answered(rs[k].answer) then rs[k := rs[k].(answer := Some(answer))] else rs
    case None => rs
  }

  function AssignPairs(rs: seq<QuestionRecord>, group: seq<nat>, cps: seq<(nat, string)>, n: nat): (r: seq<QuestionRecord>)
    requires n <= |cps| && Within(group, |rs|)
    ensures |r| == |rs|
  {
    if n == 0 then rs
    else AssignPair(AssignPairs(rs, group, cps, n - 1), group, cps[n - 1].0, cps[n - 1].1)
  }

  /** Among the first `n` answers, the first that carries `qid` and is not empty. */
  function FirstFilled(cps: seq<(nat, string)>, qid: int, n: nat): (r: Option<nat>)
    requires n <= |cps|
    ensures r.Some? ==> (r.value < n && cps[r.value].0 == qid && cps[r.value].1 != []
      && forall j | 0 <= j < r.value :: cps[j].0 == qid ==> cps[j].1 == [])
    ensures r.None? ==> forall j | 0 <= j < n :: cps[j].0 == qid ==> cps[j].1 == []
  {
    if n == 0 then None
    else
      var prev := FirstFilled(cps, qid, n - 1);
      if prev.Some? then prev
      else if cps[n - 1].0 == qid && cps[n - 1].1 != [] then Some(n - 1)
      else None
  }

  /** What an unanswered question with number `qid`, the first of its group with that
      number, holds after the first `n` answers: the first non-empty answer with its
      number; failing that the empty string, when some answer carries its number (an
      empty answer leaves the question unanswered, so the next one overwrites it);
      otherwise what it held before. */
  function SettledAnswer(cps: seq<(nat, string)>, qid: int, n: nat, held: Option<string>): Option<string>
    requires n <= |cps|
  {
    match FirstFilled(cps, qid, n)
    case Some(j) => Some(cps[j].1)
    case None => if exists j | 0 <= j < n :: cps[j].0 == qid then Some([]) else held
  }

  /** The cleaned answers of the block of type `t`, if there is a non-empty block. */
  function BlockAnswers(lines: seq<string>, t: QType): Option<seq<(nat, string)>> {
    match BlockStartFrom(lines, TypeKeywords(t), 0)
    case None => None
    case Some(start) =>
      var text := BlockTextFrom(lines, start, start);
      if text == [] then None else Some(BlockPairs(t, text))
  }

  /** A judge block's answers are single marks from ×√对错TF: cleaning a mark leaves it. */
  lemma BlockAnswersJudgeMarks(lines: seq<string>)
    ensures var r := BlockAnswers(lines, Judge);
      r.Some? ==> forall k | 0 <= k < |r.value| :: |r.value[k].1| == 1 && IsVerdictMark(r.value[k].1[0])
  {
    var r := BlockAnswers(lines, Judge);
    if r.Some? {
      var start := BlockStartFrom(lines, TypeKeywords(Judge), 0).value;
      var pairs := JudgeAnswersFrom(BlockTextFrom(lines, start, start), 0);
      forall k | 0 <= k < |pairs|
        ensures Cleaned(pairs[k].1) == pairs[k].1
      {
        MarkCleaned(pairs[k].1);
      }
    }
  }

  /** A single mark is neither a blank nor a bracket, so cleaning leaves it. */
  lemma MarkCleaned(a: string)
    requires |a| == 1 && IsVerdictMark(a[0])
    ensures Cleaned(a) == a
  {
    assert SkipWhile(a, 0, IsSpace) == 0;
    assert SkipBackWhile(a, 1, IsSpace) == 1;
    assert SkipWhile(a, 0, IsBracketOrBlank) == 0;
    assert SkipBackWhile(a, 1, IsBracketOrBlank) == 1;
  }

  /** The block of type `t`, assigned to the group. */
  function GroupStep(rs: seq<QuestionRecord>, lines: seq<string>, t: QType, group: seq<nat>): (r: seq<QuestionRecord>)
    requires Within(group, |rs|)
    ensures |r| == |rs|
  {
    match BlockAnswers(lines, t)
    case None => rs
    case Some(cps) => AssignPairs(rs, group, cps, |cps|)
  }

  method AssignFirstWithId(qs: seq<Question>, group: seq<nat>, qid: int, answer: string)
    requires Distinct(qs) && Within(group, |qs|)
    modifies qs
    ensures Snapshot(qs) == AssignPair(old(Snapshot(qs)), group, qid, answer)
  {
    ghost var rs := Snapshot(qs);
    for i := 0 to |group|
      invariant Snapshot(qs) == rs
      invariant FirstWithId(rs, group, qid, 0) == FirstWithId(rs, group, qid, i)
    {
      var q := qs[group[i]];
      if q.id == qid {
        if !Answered(q.answer) {
          SetAnswer(qs, group[i], Some(answer));
        }
        return;
      }
    }
  }

  /** The block's cleaned answers, each to the first question of the group with its
      number unless that one is answered. */
  method AssignBlock(qs: seq<Question>, group: seq<nat>, cps: seq<(nat, string)>)
    requires Distinct(qs) && Within(group, |qs|)
    modifies qs
    ensures Snapshot(qs) == AssignPairs(old(Snapshot(qs)), group, cps, |cps|)
  {
    ghost var rs := Snapshot(qs);
    for p := 0 to |cps|
      invariant Snapshot(qs) == AssignPairs(rs, group, cps, p)
    {
      AssignFirstWithId(qs, group, cps[p].0, cps[p].1);
    }
  }

  method AlignGroup(qs: seq<Question>, lines: seq<string>, t: QType, group: seq<nat>)
    requires Distinct(qs) && Within(group, |qs|)
    modifies qs
    ensures Snapshot(qs) == GroupStep(old(Snapshot(qs)), lines, t, group)
  {
    var block := FindBlockAnswers(lines, t);
    match block
    case None =>
    case Some(cps) => AssignBlock(qs, group, cps);
  }

  /** The block of type `t`: found, collected and parsed, or nothing. */
  method FindBlockAnswers(lines: seq<string>, t: QType) returns (block: Option<seq<(nat, string)>>)
    ensures block == BlockAnswers(lines, t)
  {
    var start := FindBlockStart(lines, TypeKeywords(t));
    if start.None? {
      return None;
    }
    var answerText := CollectBlockText(lines, start.value);
    if answerText == [] {
      return None;
    }
    block := Some(BlockPairs(t, answerText));
  }

  // ---------------------------------------------------------------------------
  // align_answers

  /** What the block of type `t` gives an unanswered question with number `qid` that
      held `held`: its settled answer, or `held` when the type has no block. */
  function GroupAnswer(lines: seq<string>, t: QType, qid: int, held: Option<string>): Option<string> {
    match BlockAnswers(lines, t)
    case None => held
    case Some(cps) => SettledAnswer(cps, qid, |cps|, held)
  }

  /** A base question once the types `types` are aligned: an unanswered question of one
      of them holds what its type's block gives its number; any other is unchanged. */
  function Decided(b: QuestionRecord, lines: seq<string>, types: seq<QType>): QuestionRecord {
    if b.qtype in types && !Answered(b.answer) then b.(answer := GroupAnswer(lines, b.qtype, b.id, b.answer)) else b
  }

  /** The groups of `base`, in order, each assigned its block. */
  function AlignGroups(base: seq<QuestionRecord>, lines: seq<string>, order: seq<QType>, n: nat): (r: seq<QuestionRecord>)
    requires n <= |order|
    ensures |r| == |base|
  {
    if n == 0 then base
    else
      var t := order[n - 1];
      GroupStep(AlignGroups(base, lines, order, n - 1), lines, t, Group(base, t))
  }

  function AlignBak(withAns: Option<string>, withoutAns: string): seq<QuestionRecord> {
    var base := Detect(withoutAns, map[]);
    if withAns.None? || withAns.value == [] then base
    else
      var order := GroupOrder(base);
      AlignGroups(base, SplitLines(withAns.value), order, |order|)
  }

  method AlignAnswersBak(withAns: Option<string>, withoutAns: string) returns (qs: seq<Question>)
    ensures Distinct(qs) && Snapshot(qs) == AlignBak(withAns, withoutAns)
  {
    var records := DetectQuestions(withoutAns, map[]);
    qs := MakeQuestions(records);
    if withAns.None? || withAns.value == [] {
      return;
    }
    var order, groups := BuildTypeGroups(records);
    var lines := SplitLines(withAns.value);
    for g := 0 to |order|
      invariant Snapshot(qs) == AlignGroups(records, lines, order, g)
    {
      AlignGroup(qs, lines, order[g], groups[order[g]]);
    }
  }

  // ---------------------------------------------------------------------------
  // Properties

  /** A question changes only if it belongs to the group, was unanswered, and one of the
      first `n` answers carries its number; it then holds that answer. */
  lemma {:induction false} AssignPairsEffect(rs: seq<QuestionRecord>, group: seq<nat>, cps: seq<(nat, string)>, n: nat)
    requires n <= |cps| && Within(group, |rs|)
    ensures var r := AssignPairs(rs, group, cps, n);
      SameShape(rs, r)
      && forall k | 0 <= k < |rs| && r[k] != rs[k] ::
           k in group && !Answered(rs[k].answer)
           && exists j | 0 <= j < n :: cps[j].0 == rs[k].id && r[k].answer == Some(cps[j].1)
  {
    if n > 0 {
      AssignPairsEffect(rs, group, cps, n - 1);
      var prev := AssignPairs(rs, group, cps, n - 1);
      var r := AssignPairs(rs, group, cps, n);
      assert Within(group, |prev|);
      match FirstWithId(prev, group, cps[n - 1].0, 0)
      case Some(k0) =>
        forall k | 0 <= k < |rs| && r[k] != rs[k]
          ensures k in group && !Answered(rs[k].answer)
            && exists j | 0 <= j < n :: cps[j].0 == rs[k].id && r[k].answer == Some(cps[j].1)
        {
          if k == k0 && r[k] != prev[k] {
            assert cps[n - 1].0 == rs[k].id && r[k].answer == Some(cps[n - 1].1);
          } else {
            assert r[k] == prev[k];
          }
        }
      case None =>
    }
  }

  /** `r` differs from `rs` only in the answers of unanswered members of the group. */
  predicate ChangesOnly(rs: seq<QuestionRecord>, r: seq<QuestionRecord>, group: seq<nat>) {
    SameShape(rs, r)
    && forall k | 0 <= k < |rs| && r[k] != rs[k] :: k in group && !Answered(rs[k].answer)
  }

  /** `r` keeps every answered question of `base` and every question whose type is not
      among `types`. */
  predicate KeepsAnswers(base: seq<QuestionRecord>, r: seq<QuestionRecord>, types: seq<QType>) {
    SameShape(base, r)
    && (forall k | 0 <= k < |base| && Answered(base[k].answer) :: r[k] == base[k])
    && (forall k | 0 <= k < |base| && base[k].qtype !in types :: r[k] == base[k])
  }

  /** `a` is `b`, unanswered, given an answer of the block of type `t` that carries its
      number. */
  predicate SetFromBlock(lines: seq<string>, t: QType, b: QuestionRecord, a: QuestionRecord) {
    !Answered(b.answer)
    && match BlockAnswers(lines, t)
       case None => false
       case Some(cps) => exists j | 0 <= j < |cps| :: cps[j].0 == b.id && a == b.(answer := Some(cps[j].1))
  }

  /** Aligning one block only ever sets answers of unanswered questions of the group,
      each to an answer of the block with the question's number. */
  lemma GroupStepEffect(rs: seq<QuestionRecord>, lines: seq<string>, t: QType, group: seq<nat>)
    requires Within(group, |rs|)
    ensures var r := GroupStep(rs, lines, t, group);
      ChangesOnly(rs, r, group)
      && forall k | 0 <= k < |rs| && r[k] != rs[k] :: SetFromBlock(lines, t, rs[k], r[k])
  {
    match BlockAnswers(lines, t)
    case None =>
    case Some(cps) => AssignPairsEffect(rs, group, cps, |cps|);
  }

  /** With the groups of the base, aligning the first `n` types of the order keeps every
      answered question and every question of another type. */
  lemma {:induction false} AlignGroupsKeepAnswers(base: seq<QuestionRecord>, lines: seq<string>, order: seq<QType>, n: nat)
    requires n <= |order|
    ensures KeepsAnswers(base, AlignGroups(base, lines, order, n), order[..n])
  {
    if n > 0 {
      AlignGroupsKeepAnswers(base, lines, order, n - 1);
      KeepsAfterGroup(base, lines, order, n);
    }
  }

  lemma KeepsAfterGroup(base: seq<QuestionRecord>, lines: seq<string>, order: seq<QType>, n: nat)
    requires 0 < n <= |order|
    requires KeepsAnswers(base, AlignGroups(base, lines, order, n - 1), order[..n - 1])
    ensures KeepsAnswers(base, AlignGroups(base, lines, order, n), order[..n])
  {
    var t := order[n - 1];
    var prev := AlignGroups(base, lines, order, n - 1);
    var group := Group(base, t);
    var r := AlignGroups(base, lines, order, n);
    assert r == GroupStep(prev, lines, t, group);
    GroupStepChanges(prev, lines, t, group);
    assert order[..n] == order[..n - 1] + [t];
    KeepStep(base, prev, r, order[..n - 1], t, group);
  }

  lemma GroupStepChanges(rs: seq<QuestionRecord>, lines: seq<string>, t: QType, group: seq<nat>)
    requires Within(group, |rs|)
    ensures ChangesOnly(rs, GroupStep(rs, lines, t, group), group)
  {
    GroupStepEffect(rs, lines, t, group);
  }

  /** One step of `AlignGroupsKeepAnswers`, on the records alone. */
  lemma KeepStep(base: seq<QuestionRecord>, prev: seq<QuestionRecord>, r: seq<QuestionRecord>,
                 types: seq<QType>, t: QType, group: seq<nat>)
    requires KeepsAnswers(base, prev, types) && ChangesOnly(prev, r, group)
    requires forall k | 0 <= k < |group| :: group[k] < |base| && base[group[k]].qtype == t
    ensures KeepsAnswers(base, r, types + [t])
  {
    SameShapeTransitive(base, prev, r);
    forall k | 0 <= k < |base| && base[k].qtype !in types + [t]
      ensures r[k] == base[k]
    {
      assert r[k] == prev[k] by {
        if r[k] != prev[k] {
          assert false;
        }
      }
    }
  }

  /** Each question of the result is the base question, or the base question, unanswered,
      given an answer of the block of its own type that carries its number. */
  lemma {:induction false} AlignGroupsFromBlocks(base: seq<QuestionRecord>, lines: seq<string>, order: seq<QType>, n: nat)
    requires n <= |order|
    requires forall i, j | 0 <= i < j < |order| :: order[i] != order[j]
    ensures var r := AlignGroups(base, lines, order, n);
      forall k | 0 <= k < |base| :: r[k] == base[k] || SetFromBlock(lines, base[k].qtype, base[k], r[k])
  {
    if n > 0 {
      var t := order[n - 1];
      assert t !in order[..n - 1];
      AlignGroupsFromBlocks(base, lines, order, n - 1);
      AlignGroupsKeepAnswers(base, lines, order, n - 1);
      var prev := AlignGroups(base, lines, order, n - 1);
      var group := Group(base, t);
      GroupStepEffect(prev, lines, t, group);
      var r := GroupStep(prev, lines, t, group);
      forall k | 0 <= k < |base|
        ensures r[k] == base[k] || SetFromBlock(lines, base[k].qtype, base[k], r[k])
      {
        if r[k] != prev[k] {
          var j :| 0 <= j < |group| && group[j] == k;
          assert base[k].qtype == t && prev[k] == base[k];
        }
      }
    }
  }

  /** The block aligner keeps the detected questions; without answer text it returns
      them as detected, and otherwise each question either keeps its detected state or
      takes an answer of its own type's block carrying its number. */
  lemma AlignBakFromBlocks(withAns: Option<string>, withoutAns: string)
    ensures var base := Detect(withoutAns, map[]);
      var r := AlignBak(withAns, withoutAns);
      SameShape(base, r)
      && ((withAns.None? || withAns.value == []) ==> r == base)
      && (withAns.Some? ==> forall k | 0 <= k < |base| ::
            r[k] == base[k] || SetFromBlock(SplitLines(withAns.value), base[k].qtype, base[k], r[k]))
  {
    var base := Detect(withoutAns, map[]);
    if withAns.Some? && withAns.value != [] {
      var order := GroupOrder(base);
      var lines := SplitLines(withAns.value);
      GroupOrderFacts(base);
      AlignGroupsKeepAnswers(base, lines, order, |order|);
      AlignGroupsFromBlocks(base, lines, order, |order|);
    }
  }

  /** Records with the same numbers give the same search results. */
  lemma {:induction false} FirstWithIdSame(a: seq<QuestionRecord>, b: seq<QuestionRecord>, group: seq<nat>, qid: int, i: nat)
    requires Within(group, |a|) && |a| == |b|
    requires forall k | 0 <= k < |a| :: a[k].id == b[k].id
    ensures FirstWithId(a, group, qid, i) == FirstWithId(b, group, qid, i)
    decreases |group| - i
  {
    if i < |group| {
      FirstWithIdSame(a, b, group, qid, i + 1);
    }
  }

  /** With numbers 1, 2, ... in order, each member of a group is the first of the group
      with its number. */
  lemma FirstWithIdDense(rs: seq<QuestionRecord>, group: seq<nat>, k: nat)
    requires Within(group, |rs|) && k in group
    requires forall j | 0 <= j < |rs| :: rs[j].id == j + 1
    ensures FirstWithId(rs, group, rs[k].id, 0) == Some(k)
  {
    var i :| 0 <= i < |group| && group[i] == k;
    assert rs[group[i]].id == rs[k].id;
  }

  /** One more answer `(n', a)`: an unanswered question with number `n'` takes `a`;
      `if not q.answer: q.answer = ans`. */
  lemma SettledSnoc(cps: seq<(nat, string)>, qid: int, n: nat, held: Option<string>)
    requires 0 < n <= |cps| && !Answered(held)
    ensures var before := SettledAnswer(cps, qid, n - 1, held);
      SettledAnswer(cps, qid, n, held) ==
        if cps[n - 1].0 == qid && !Answered(before) then Some(cps[n - 1].1) else before
  {
    var carried := exists j | 0 <= j < n :: cps[j].0 == qid;
    var carriedBefore := exists j | 0 <= j < n - 1 :: cps[j].0 == qid;
    if cps[n - 1].0 == qid {
      assert carried;
    } else {
      assert carried == carriedBefore by {
        if j :| 0 <= j < n && cps[j].0 == qid {
          assert j < n - 1;
        }
      }
    }
  }

  /** One more answer, for one question: both sides of `AssignPairsDecides` move alike. */
  lemma AssignPairStep(rs: seq<QuestionRecord>, prev: seq<QuestionRecord>, group: seq<nat>,
                       cps: seq<(nat, string)>, n: nat, k: nat)
    requires 0 < n <= |cps| && Within(group, |rs|) && k < |rs| && SameShape(rs, prev)
    requires FirstWithId(prev, group, cps[n - 1].0, 0) == FirstWithId(rs, group, cps[n - 1].0, 0)
    requires prev[k] == if FirstWithId(rs, group, rs[k].id, 0) == Some(k) && !Answered(rs[k].answer)
      then rs[k].(answer := SettledAnswer(cps, rs[k].id, n - 1, rs[k].answer)) else rs[k]
    ensures var r := AssignPair(prev, group, cps[n - 1].0, cps[n - 1].1);
      r[k] == if FirstWithId(rs, group, rs[k].id, 0) == Some(k) && !Answered(rs[k].answer)
        then rs[k].(answer := SettledAnswer(cps, rs[k].id, n, rs[k].answer)) else rs[k]
  {
    if !Answered(rs[k].answer) {
      SettledSnoc(cps, rs[k].id, n, rs[k].answer);
    }
    var f := FirstWithId(prev, group, cps[n - 1].0, 0);
    if f.Some? && f.value != k {
      assert AssignPair(prev, group, cps[n - 1].0, cps[n - 1].1)[k] == prev[k];
    }
  }

  /** The whole effect of the first `n` answers: the first member of the group with a
      given number, if unanswered, settles on the first non-empty answer with that
      number (the empty string when all of them are empty); every other question is
      left as it was. */
  lemma {:induction false} AssignPairsDecides(rs: seq<QuestionRecord>, group: seq<nat>, cps: seq<(nat, string)>, n: nat)
    requires n <= |cps| && Within(group, |rs|)
    ensures var r := AssignPairs(rs, group, cps, n);
      SameShape(rs, r) && forall k | 0 <= k < |rs| ::
        r[k] == if FirstWithId(rs, group, rs[k].id, 0) == Some(k) && !Answered(rs[k].answer)
          then rs[k].(answer := SettledAnswer(cps, rs[k].id, n, rs[k].answer)) else rs[k]
  {
    if n > 0 {
      AssignPairsDecides(rs, group, cps, n - 1);
      var prev := AssignPairs(rs, group, cps, n - 1);
      FirstWithIdSame(prev, rs, group, cps[n - 1].0, 0);
      forall k | 0 <= k < |rs|
        ensures AssignPairs(rs, group, cps, n)[k] ==
          if FirstWithId(rs, group, rs[k].id, 0) == Some(k) && !Answered(rs[k].answer)
          then rs[k].(answer := SettledAnswer(cps, rs[k].id, n, rs[k].answer)) else rs[k]
      {
        AssignPairStep(rs, prev, group, cps, n, k);
      }
    }
  }

  /** One type's block: with a block, as `AssignPairsDecides` says; without one, nothing
      changes. */
  lemma GroupStepDecides(rs: seq<QuestionRecord>, lines: seq<string>, t: QType, group: seq<nat>)
    requires Within(group, |rs|)
    ensures var r := GroupStep(rs, lines, t, group);
      SameShape(rs, r) && forall k | 0 <= k < |rs| ::
        r[k] == if FirstWithId(rs, group, rs[k].id, 0) == Some(k) && !Answered(rs[k].answer)
          then rs[k].(answer := GroupAnswer(lines, t, rs[k].id, rs[k].answer)) else rs[k]
  {
    match BlockAnswers(lines, t)
    case None =>
    case Some(cps) => AssignPairsDecides(rs, group, cps, |cps|);
  }

  /** `GroupStepDecides` for the question at `k`. */
  lemma GroupStepDecidesAt(rs: seq<QuestionRecord>, lines: seq<string>, t: QType, group: seq<nat>, k: nat)
    requires Within(group, |rs|) && k < |rs|
    ensures GroupStep(rs, lines, t, group)[k] ==
      if FirstWithId(rs, group, rs[k].id, 0) == Some(k) && !Answered(rs[k].answer)
      then rs[k].(answer := GroupAnswer(lines, t, rs[k].id, rs[k].answer)) else rs[k]
  {
    GroupStepDecides(rs, lines, t, group);
  }

  /** One more type `t`, for one question. */
  lemma DecideStep(base: seq<QuestionRecord>, prev: seq<QuestionRecord>, r: seq<QuestionRecord>,
                   lines: seq<string>, types: seq<QType>, t: QType, group: seq<nat>, k: nat)
    requires k < |base| && SameShape(base, prev) && |r| == |base| && t !in types
    requires prev[k] == Decided(base[k], lines, types)
    requires Within(group, |prev|) && (k in group <==> base[k].qtype == t)
    requires forall j | 0 <= j < |prev| :: prev[j].id == j + 1
    requires r[k] == if FirstWithId(prev, group, prev[k].id, 0) == Some(k) && !Answered(prev[k].answer)
      then prev[k].(answer := GroupAnswer(lines, t, prev[k].id, prev[k].answer)) else prev[k]
    ensures r[k] == Decided(base[k], lines, types + [t])
  {
    if base[k].qtype == t {
      FirstWithIdDense(prev, group, k);
    }
  }

  /** `r` keeps the questions of `base`, each as `Decided` over the types `types`. */
  predicate AllDecided(base: seq<QuestionRecord>, r: seq<QuestionRecord>, lines: seq<string>, types: seq<QType>) {
    SameShape(base, r) && forall k | 0 <= k < |base| :: r[k] == Decided(base[k], lines, types)
  }

  /** One more type of the order for the whole list: its group's block decides its
      questions. */
  lemma GroupDecides(base: seq<QuestionRecord>, lines: seq<string>, order: seq<QType>, n: nat)
    requires 0 < n <= |order|
    requires forall i, j | 0 <= i < j < |order| :: order[i] != order[j]
    requires forall k | 0 <= k < |base| :: base[k].id == k + 1
    requires AllDecided(base, AlignGroups(base, lines, order, n - 1), lines, order[..n - 1])
    ensures AllDecided(base, AlignGroups(base, lines, order, n), lines, order[..n])
  {
    var t := order[n - 1];
    var prev := AlignGroups(base, lines, order, n - 1);
    var group := Group(base, t);
    var r := GroupStep(prev, lines, t, group);
    assert SameShape(base, r) by {
      GroupStepDecides(prev, lines, t, group);
      SameShapeTransitive(base, prev, r);
    }
    forall k | 0 <= k < |base|
      ensures r[k] == Decided(base[k], lines, order[..n])
    {
      DistinctPrefixSnoc(order, n);
      GroupStepDecidesAt(prev, lines, t, group, k);
      DecideStep(base, prev, r, lines, order[..n - 1], t, group, k);
    }
  }

  /** With the base numbered 1, 2, ... and the types of the order distinct, aligning the
      first `n` types gives each unanswered question of those types what its type's block
      gives its number, and leaves every other question as it was. */
  lemma {:induction false} AlignGroupsDecide(base: seq<QuestionRecord>, lines: seq<string>, order: seq<QType>, n: nat)
    requires n <= |order|
    requires forall i, j | 0 <= i < j < |order| :: order[i] != order[j]
    requires forall k | 0 <= k < |base| :: base[k].id == k + 1
    ensures AllDecided(base, AlignGroups(base, lines, order, n), lines, order[..n])
  {
    if n > 0 {
      AlignGroupsDecide(base, lines, order, n - 1);
      GroupDecides(base, lines, order, n);
    }
  }

  /** Of distinct types, the `n`-th is not among the first `n - 1`, which it extends. */
  lemma DistinctPrefixSnoc(order: seq<QType>, n: nat)
    requires 0 < n <= |order|
    requires forall i, j | 0 <= i < j < |order| :: order[i] != order[j]
    ensures order[n - 1] !in order[..n - 1] && order[..n] == order[..n - 1] + [order[n - 1]]
  {
  }

  /** Aligning every type present, for a base numbered 1, 2, ... with no answers:
      each question holds what its type's block gives its number. */
  lemma AlignAllGroups(base: seq<QuestionRecord>, lines: seq<string>)
    requires forall k | 0 <= k < |base| :: base[k].id == k + 1 && base[k].answer == None
    ensures var order := GroupOrder(base);
      var r := AlignGroups(base, lines, order, |order|);
      SameShape(base, r) && forall k | 0 <= k < |base| ::
        r[k].answer == GroupAnswer(lines, base[k].qtype, base[k].id, None)
  {
    var order := GroupOrder(base);
    GroupOrderFacts(base);
    assert order[..|order|] == order;
    AlignGroupsDecide(base, lines, order, |order|);
  }

  /** `align_answers` of the block aligner, both ways: the questions are those detected,
      and each ends with exactly what the block of its own type gives its number, or no
      answer when there is no answer text or no block for its type. */
  lemma AlignBakAnswers(withAns: Option<string>, withoutAns: string)
    ensures var base := Detect(withoutAns, map[]);
      var r := AlignBak(withAns, withoutAns);
      SameShape(base, r) && forall k | 0 <= k < |base| ::
        r[k].answer == if withAns.None? || withAns.value == [] then None
          else GroupAnswer(SplitLines(withAns.value), base[k].qtype, base[k].id, None)
  {
    var base := Detect(withoutAns, map[]);
    DetectorLemmas.DetectWellFormed(withoutAns, map[]);
    if withAns.Some? && withAns.value != [] {
      AlignAllGroups(base, SplitLines(withAns.value));
    }
  }
}
