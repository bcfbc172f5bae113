/** ui/streamlit_app.py, lines 17-72: the token logic that grades a user's answer
    against the stored one (`normalize_tokens`, `_letters_to_options`,
    `evaluate_answer`). */
module Grading {
  import opened Text
  import opened Records

  // ---------------------------------------------------------------------------
  // The user's answer

  /** What the answer widgets hand over: nothing, a string, or the list a
      multi-select gives. */
  datatype UserAnswer = Blank | Typed(text: string) | Picked(items: seq<string>)

  /** Python truthiness of the user's answer. */
  predicate Given(u: UserAnswer) {
    match u
    case Blank => false
    case Typed(s) => s != []
    case Picked(items) => items != []
  }

  /** `repr` of a list of strings, for strings without quotes or backslashes. */
  function ListRepr(items: seq<string>): string {
    "[" + Join(", ", seq(|items|, k requires 0 <= k < |items| => "'" + items[k] + "'")) + "]"
  }

  /** `str(user_ans)` */
  function RawText(u: UserAnswer): string {
    match u
    case Blank => "None"
    case Typed(s) => s
    case Picked(items) => ListRepr(items)
  }

  /** `" ".join(user_ans) if isinstance(user_ans, list) else user_ans` */
  function JoinedPicks(u: UserAnswer): UserAnswer {
    match u
    case Picked(items) => Typed(Join(" ", items))
    case _ => u
  }

  // ---------------------------------------------------------------------------
  // normalize_tokens

  /** `.replace("；", ";").replace("，", ",")` on one character. */
  function AsciiPunct(c: char): char {
    if c == '；' then ';' else if c == '，' then ',' else c
  }

  function ReplacePunct(s: string): (r: string)
    ensures |r| == |s| && forall k | 0 <= k < |s| :: r[k] == AsciiPunct(s[k])
  {
    seq(|s|, k requires 0 <= k < |s| => AsciiPunct(s[k]))
  }

  /** The class `[;，,、/\s]`. */
  predicate IsTokenSep(c: char) { c == ';' || c == '，' || c == ',' || c == '、' || c == '/' || IsSpace(c) }

  predicate IsNotSep(c: char) { !IsTokenSep(c) }

  /** `re.split(r"[;，,、/\s]+", s)`: the pieces between maximal separator runs, with
      an empty piece at either end when `s` starts or ends with a separator. */
  function SplitOnSeps(s: string): (parts: seq<string>)
    ensures parts != []
    ensures forall k, i | 0 <= k < |parts| && 0 <= i < |parts[k]| :: parts[k][i] in s && !IsTokenSep(parts[k][i])
    decreases |s|
  {
    var i := SkipWhile(s, 0, IsNotSep);
    if i == |s| then [s]
    else
      var j := SkipWhile(s, i, IsTokenSep);
      [s[..i]] + SplitOnSeps(s[j..])
  }

  function LowerAll(xs: seq<string>): (r: seq<string>)
    ensures |r| == |xs| && forall k | 0 <= k < |xs| :: r[k] == Lower(xs[k])
  {
    seq(|xs|, k requires 0 <= k < |xs| => Lower(xs[k]))
  }

  /** A character a token can hold: no separator, no `；` and no upper-case letter. */
  predicate IsTokenChar(c: char) {
    !IsTokenSep(c) && c != '；' && !IsAsciiUpper(c)
  }

  predicate IsToken(t: string) {
    t != [] && forall i | 0 <= i < |t| :: IsTokenChar(t[i])
  }

  predicate AllTokens(ts: seq<string>) {
    forall k | 0 <= k < |ts| :: IsToken(ts[k])
  }

  /** `normalize_tokens(text)` for a string: strip, strip brackets and blanks, unify
      the full-width separators, split, and keep the non-empty pieces lowered. A piece
      holds no whitespace, so `p.strip()` leaves it as it is. Every token is non-empty
      and holds no separator, no `；` and no upper-case letter. */
  function NormalizeTokens(text: string): (r: seq<string>)
    ensures AllTokens(r)
  {
    if text == [] then []
    else
      var s := ReplacePunct(StripBrackets(Strip(text)));
      PiecesAreTokens(s);
      LowerAll(NonEmpty(SplitOnSeps(s)))
  }

  /** `normalize_tokens(user_ans)`: a falsy answer has no tokens, any other is read
      through `str`. */
  function AnswerTokens(u: UserAnswer): seq<string> {
    if Given(u) then NormalizeTokens(RawText(u)) else []
  }

  /** `normalize_tokens(correct_ans)` for the stored answer, which may be missing. */
  function CorrectTokens(a: Option<string>): seq<string> {
    if a.Some? then NormalizeTokens(a.value) else []
  }

  // ---------------------------------------------------------------------------
  // _letters_to_options

  /** `ord` needs a string of one character. */
  predicate OneCharEach(letters: seq<string>) {
    forall k | 0 <= k < |letters| :: |letters[k]| == 1
  }

  /** `ord(ch.upper()) - ord("A")` for a one-character string. */
  function LetterIndex(ch: string): int
    requires |ch| == 1
  {
    UpperChar(ch[0]) as int - 'A' as int
  }

  /** The text an option letter stands for: the option stripped, then lower-cased. */
  function OptionText(option: string): string {
    Lower(Strip(option))
  }

  /** Every option's text, as the letters see them. */
  function OptionTextsOf(options: seq<string>): (texts: seq<string>)
    ensures |texts| == |options| && forall i | 0 <= i < |options| :: texts[i] == OptionText(options[i])
  {
    seq(|options|, i requires 0 <= i < |options| => OptionText(options[i]))
  }

  /** The texts the letters name, in order, skipping letters out of range: with
      `texts == OptionTextsOf(options)`, `_letters_to_options(letters, options)`. */
  function Picks(letters: seq<string>, texts: seq<string>): (mapped: seq<string>)
    requires OneCharEach(letters)
    ensures |mapped| <= |letters|
  {
    if letters == [] then []
    else
      var prev := Picks(letters[..|letters| - 1], texts);
      var idx := LetterIndex(letters[|letters| - 1]);
      if 0 <= idx < |texts| then prev + [texts[idx]] else prev
  }

  method LettersToOptions(letters: seq<string>, options: seq<string>) returns (mapped: seq<string>)
    requires OneCharEach(letters)
    ensures mapped == Picks(letters, OptionTextsOf(options))
  {
    var texts := OptionTextsOf(options);
    mapped := [];
    for k := 0 to |letters|
      invariant mapped == Picks(letters[..k], texts)
    {
      PicksSnoc(letters, texts, k);
      var idx := LetterIndex(letters[k]);
      if 0 <= idx < |texts| {
        mapped := mapped + [texts[idx]];
      }
    }
    assert letters[..|letters|] == letters;
  }

  lemma PicksSnoc(letters: seq<string>, texts: seq<string>, k: nat)
    requires OneCharEach(letters) && k < |letters|
    ensures var idx := LetterIndex(letters[k]);
      Picks(letters[..k + 1], texts)
        == if 0 <= idx < |texts| then Picks(letters[..k], texts) + [texts[idx]] else Picks(letters[..k], texts)
  {
    assert letters[..k + 1][..k] == letters[..k];
  }

  /** A text is picked exactly when some letter names a position in range holding it. */
  lemma {:induction false} PicksMembers(letters: seq<string>, texts: seq<string>, x: string)
    requires OneCharEach(letters)
    ensures x in Picks(letters, texts) <==>
      exists k | 0 <= k < |letters| :: 0 <= LetterIndex(letters[k]) < |texts| && x == texts[LetterIndex(letters[k])]
  {
    if letters != [] {
      var init := letters[..|letters| - 1];
      PicksMembers(init, texts, x);
      assert forall k | 0 <= k < |init| :: init[k] == letters[k];
    }
  }

  /** When every letter is in range, each is mapped, in order. */
  lemma {:induction false} PicksAllInRange(letters: seq<string>, texts: seq<string>)
    requires OneCharEach(letters)
    requires forall k | 0 <= k < |letters| :: 0 <= LetterIndex(letters[k]) < |texts|
    ensures var mapped := Picks(letters, texts);
      |mapped| == |letters| && forall k | 0 <= k < |letters| :: mapped[k] == texts[LetterIndex(letters[k])]
  {
    if letters != [] {
      PicksAllInRange(letters[..|letters| - 1], texts);
    }
  }

  // ---------------------------------------------------------------------------
  // evaluate_answer

  /** `str.isalpha()` on one character, for the Latin letters and the CJK ideographs. */
  predicate IsAlpha(c: char) { IsAsciiUpper(c) || IsAsciiLower(c) || IsCjk(c) }

  /** `all(len(tok) == 1 and tok.isalpha() for tok in correct_tokens)` */
  predicate AllLetters(tokens: seq<string>) {
    forall k | 0 <= k < |tokens| :: |tokens[k]| == 1 && IsAlpha(tokens[k][0])
  }

  const TrueWords: seq<string> := ["正确", "对", "√", "t", "true", "yes"]
  const FalseWords: seq<string> := ["错误", "错", "×", "f", "false", "no"]

  /** The judge mapping of the user's tokens: a leading synonym of true or false
      becomes the single token 对 or 错. */
  function JudgeTokens(tokens: seq<string>): seq<string> {
    if tokens == [] then tokens
    else if tokens[0] in TrueWords then ["对"]
    else if tokens[0] in FalseWords then ["错"]
    else tokens
  }

  /** The grade of a user's answer: `None` when the stored answer has no tokens or the
      type is not graded, otherwise whether the answer is right. */
  function EvaluateAnswer(qtype: QType, user: UserAnswer, correctAns: Option<string>, options: seq<string>): (r: Option<bool>)
    ensures r.None? <==> CorrectTokens(correctAns) == [] || qtype in {Short, Comprehensive, Case}
  {
    var correct := CorrectTokens(correctAns);
    if correct == [] then None
    else
      match qtype
      case Choice =>
        var tokens := AnswerTokens(user);
        if options != [] && AllLetters(correct) then
          Some(tokens != [] && tokens[0] in Picks(correct, OptionTextsOf(options)))
        else Some(tokens != [] && tokens[0] in correct)
      case Judge =>
        var tokens := JudgeTokens(AnswerTokens(user));
        Some(tokens != [] && tokens[0] in correct)
      case Multi =>
        var tokens := AnswerTokens(JoinedPicks(user));
        var target := if options != [] && AllLetters(correct) then Picks(correct, OptionTextsOf(options)) else correct;
        Some((set t <- tokens) == (set t <- target))
      case Fill =>
        var tokens := AnswerTokens(user);
        Some(forall t <- correct :: Contains(Join("", tokens), t) || Contains(RawText(user), t))
      case _ => None
  }

  // ---------------------------------------------------------------------------
  // Properties of the tokens

  lemma TrimUnchanged(s: string, drop: char -> bool)
    requires s != [] && !drop(s[0]) && !drop(s[|s| - 1])
    ensures Trim(s, drop) == s
  {
    SkipWhileAt(s, 0, drop, 0);
    SkipBackWhileAt(s, |s|, drop, |s|);
  }

  lemma JoinSpaceCons(x: string, rest: seq<string>)
    requires rest != []
    ensures Join(" ", [x] + rest) == x + " " + Join(" ", rest)
  {
    if |rest| > 1 {
      var init := rest[..|rest| - 1];
      JoinSpaceCons(x, init);
      assert ([x] + rest)[..|rest|] == [x] + init;
    }
  }

  /** A line of well-formed tokens joined by blanks holds only blanks and token
      characters, and starts and ends with the characters of its first and last token. */
  lemma {:induction false} JoinedTokens(ts: seq<string>)
    requires ts != [] && forall k | 0 <= k < |ts| :: IsToken(ts[k])
    ensures var s := Join(" ", ts);
      ts[0] != [] && ts[|ts| - 1] != [] && s != [] && s[0] == ts[0][0] && s[|s| - 1] == ts[|ts| - 1][|ts[|ts| - 1]| - 1]
      && forall i | 0 <= i < |s| :: s[i] == ' ' || IsTokenChar(s[i])
  {
    if |ts| > 1 {
      var init := ts[..|ts| - 1];
      JoinedTokens(init);
      var a := Join(" ", init);
      var last := ts[|ts| - 1];
      var s := Join(" ", ts);
      assert s == a + " " + last;
      forall i | 0 <= i < |s|
        ensures s[i] == ' ' || IsTokenChar(s[i])
      {
        if i > |a| {
          assert s[i] == last[i - |a| - 1];
        }
      }
    }
  }

  /** Splitting a blank-joined line of tokens gives the tokens back. */
  lemma {:induction false} SplitJoined(ts: seq<string>)
    requires ts != [] && forall k | 0 <= k < |ts| :: IsToken(ts[k])
    ensures SplitOnSeps(Join(" ", ts)) == ts
  {
    var t := ts[0];
    if |ts| == 1 {
      SkipWhileAt(t, 0, IsNotSep, |t|);
    } else {
      var rest := ts[1..];
      assert ts == [t] + rest;
      JoinSpaceCons(t, rest);
      var r := Join(" ", rest);
      JoinedTokens(rest);
      SplitStep(t, r);
      SplitJoined(rest);
    }
  }

  lemma SplitStep(t: string, r: string)
    requires IsToken(t) && r != [] && !IsTokenSep(r[0])
    ensures SplitOnSeps(t + " " + r) == [t] + SplitOnSeps(r)
  {
    var s := t + " " + r;
    SkipWhileAt(s, 0, IsNotSep, |t|);
    SkipWhileAt(s, |t|, IsTokenSep, |t| + 1);
    assert s[..|t|] == t && s[|t| + 1..] == r;
  }

  lemma {:induction false} NonEmptyKeeps(xs: seq<string>)
    requires forall k | 0 <= k < |xs| :: xs[k] != []
    ensures NonEmpty(xs) == xs
  {
    if xs != [] {
      NonEmptyKeeps(xs[..|xs| - 1]);
      assert xs == xs[..|xs| - 1] + [xs[|xs| - 1]];
    }
  }

  lemma ReplaceUnchanged(s: string)
    requires forall i | 0 <= i < |s| :: s[i] == ' ' || IsTokenChar(s[i])
    ensures ReplacePunct(s) == s
  {
    var r := ReplacePunct(s);
    forall i | 0 <= i < |s|
      ensures r[i] == s[i]
    {
      assert IsTokenChar(s[i]) ==> s[i] != '，';
    }
  }

  lemma LowerUnchanged(t: string)
    requires IsToken(t)
    ensures Lower(t) == t
  {
    var r := Lower(t);
    forall i | 0 <= i < |t|
      ensures r[i] == t[i]
    {
      assert IsTokenChar(t[i]);
    }
  }

  /** Normalizing a blank-joined line of tokens gives the tokens back, as long as the
      first and the last token do not begin or end with a bracket. */
  lemma NormalizeJoined(ts: seq<string>)
    requires ts != [] && forall k | 0 <= k < |ts| :: IsToken(ts[k])
    requires ts[0] != [] && !IsBracketOrBlank(ts[0][0])
    requires ts[|ts| - 1] != [] && !IsBracketOrBlank(ts[|ts| - 1][|ts[|ts| - 1]| - 1])
    ensures NormalizeTokens(Join(" ", ts)) == ts
  {
    var s := Join(" ", ts);
    CleanJoined(ts);
    SplitJoined(ts);
    NonEmptyKeeps(ts);
    LowerAllUnchanged(ts);
    NormalizeSteps(s);
  }

  /** Stripping and unifying punctuation leave such a line as it is. */
  lemma CleanJoined(ts: seq<string>)
    requires ts != [] && forall k | 0 <= k < |ts| :: IsToken(ts[k])
    requires ts[0] != [] && !IsBracketOrBlank(ts[0][0])
    requires ts[|ts| - 1] != [] && !IsBracketOrBlank(ts[|ts| - 1][|ts[|ts| - 1]| - 1])
    ensures var s := Join(" ", ts); ReplacePunct(StripBrackets(Strip(s))) == s
  {
    var s := Join(" ", ts);
    JoinedTokens(ts);
    TrimUnchanged(s, IsSpace);
    TrimUnchanged(s, IsBracketOrBlank);
    ReplaceUnchanged(s);
  }

  lemma LowerAllUnchanged(ts: seq<string>)
    requires forall k | 0 <= k < |ts| :: IsToken(ts[k])
    ensures LowerAll(ts) == ts
  {
    forall k | 0 <= k < |ts|
      ensures Lower(ts[k]) == ts[k]
    {
      LowerUnchanged(ts[k]);
    }
  }

  /** The stages of `NormalizeTokens` on a non-empty text. */
  lemma NormalizeSteps(text: string)
    requires text != []
    ensures NormalizeTokens(text) == LowerAll(NonEmpty(SplitOnSeps(ReplacePunct(StripBrackets(Strip(text))))))
  {
  }

  /** Each token occurs in the tokens joined without a separator. */
  lemma {:induction false} JoinHoldsEach(parts: seq<string>, k: nat)
    requires k < |parts|
    ensures Contains(Join("", parts), parts[k])
  {
    var init := parts[..|parts| - 1];
    var a := Join("", init);
    if |parts| == 1 {
      assert OccursAt(parts[0], parts[0], 0);
    } else {
      assert Join("", parts) == a + parts[|parts| - 1];
      if k == |parts| - 1 {
        assert OccursAt(Join("", parts), parts[k], |a|);
      } else {
        JoinHoldsEach(init, k);
        var i: nat :| i <= |a| && OccursAt(a, init[k], i);
        assert Join("", parts)[i..i + |parts[k]|] == a[i..i + |parts[k]|];
        assert OccursAt(Join("", parts), parts[k], i);
      }
    }
  }

  // ---------------------------------------------------------------------------
  // Properties of the grade

  /** A fill answer typed exactly as stored is graded right. */
  lemma FillVerbatimRight(c: string, options: seq<string>)
    requires NormalizeTokens(c) != []
    ensures EvaluateAnswer(Fill, Typed(c), Some(c), options) == Some(true)
  {
    var tokens := NormalizeTokens(c);
    EveryTokenJoined(tokens);
  }

  lemma EveryTokenJoined(tokens: seq<string>)
    ensures forall t <- tokens :: Contains(Join("", tokens), t)
  {
    forall t <- tokens
      ensures Contains(Join("", tokens), t)
    {
      var k :| 0 <= k < |tokens| && tokens[k] == t;
      JoinHoldsEach(tokens, k);
    }
  }

  /** A choice answer typed exactly as stored is graded right unless the stored answer
      is a row of option letters and there are options to map them to. */
  lemma ChoiceVerbatimRight(c: string, options: seq<string>)
    requires NormalizeTokens(c) != []
    requires options == [] || !AllLetters(NormalizeTokens(c))
    ensures EvaluateAnswer(Choice, Typed(c), Some(c), options) == Some(true)
  {
  }

  /** Some letter names an option, in range, whose text is `x`. */
  predicate NamesOption(letters: seq<string>, options: seq<string>, x: string)
    requires OneCharEach(letters)
  {
    exists k | 0 <= k < |letters| ::
      0 <= LetterIndex(letters[k]) < |options| && x == OptionText(options[LetterIndex(letters[k])])
  }

  /** With letters in the stored answer, a choice is right exactly when the first token
      of the answer is the text of an option one of those letters names. */
  lemma ChoiceByLetters(user: UserAnswer, c: string, options: seq<string>)
    requires options != [] && NormalizeTokens(c) != [] && AllLetters(NormalizeTokens(c))
    ensures EvaluateAnswer(Choice, user, Some(c), options) == Some(true) <==>
      AnswerTokens(user) != [] && NamesOption(NormalizeTokens(c), options, AnswerTokens(user)[0])
  {
    var tokens := AnswerTokens(user);
    ChoiceLettersGrade(user, c, options);
    if tokens != [] {
      PickedOption(NormalizeTokens(c), options, tokens[0]);
    }
  }

  lemma PickedOption(letters: seq<string>, options: seq<string>, x: string)
    requires OneCharEach(letters)
    ensures x in Picks(letters, OptionTextsOf(options)) <==> NamesOption(letters, options, x)
  {
    PicksMembers(letters, OptionTextsOf(options), x);
  }

  lemma ChoiceLettersGrade(user: UserAnswer, c: string, options: seq<string>)
    requires options != [] && NormalizeTokens(c) != [] && AllLetters(NormalizeTokens(c))
    ensures var tokens := AnswerTokens(user);
      EvaluateAnswer(Choice, user, Some(c), options)
        == Some(tokens != [] && tokens[0] in Picks(NormalizeTokens(c), OptionTextsOf(options)))
  {
  }

  /** Picking the stored tokens, in any order, is graded right for a multiple choice
      whose stored answer is not a row of option letters (the picks must not begin or
      end with a bracket, which stripping would remove). */
  lemma MultiAnyOrderRight(items: seq<string>, c: string, options: seq<string>)
    requires NormalizeTokens(c) != [] && (options == [] || !AllLetters(NormalizeTokens(c)))
    requires multiset(items) == multiset(NormalizeTokens(c))
    requires items != [] && items[0] != [] && !IsBracketOrBlank(items[0][0])
    requires items[|items| - 1] != [] && !IsBracketOrBlank(items[|items| - 1][|items[|items| - 1]| - 1])
    ensures EvaluateAnswer(Multi, Picked(items), Some(c), options) == Some(true)
  {
    var correct := NormalizeTokens(c);
    forall k | 0 <= k < |items|
      ensures IsToken(items[k])
    {
      assert items[k] in multiset(correct);
    }
    JoinedTokens(items);
    NormalizeJoined(items);
    SameElements(items, correct);
  }

  lemma SameElements(a: seq<string>, b: seq<string>)
    requires multiset(a) == multiset(b)
    ensures (set x <- a) == (set x <- b)
  {
    forall x | x in a
      ensures x in b
    {
      assert x in multiset(a);
    }
    forall x | x in b
      ensures x in a
    {
      assert x in multiset(b);
    }
  }

  lemma PiecesAreTokens(s: string)
    requires forall i | 0 <= i < |s| :: s[i] != '；'
    ensures AllTokens(LowerAll(NonEmpty(SplitOnSeps(s))))
  {
    var parts := SplitOnSeps(s);
    var ne := NonEmpty(parts);
    forall k | 0 <= k < |ne|
      ensures IsToken(Lower(ne[k]))
    {
      var j :| 0 <= j < |parts| && parts[j] == ne[k];
      LowerToken(ne[k]);
    }
  }

  lemma LowerToken(t: string)
    requires t != [] && forall i | 0 <= i < |t| :: !IsTokenSep(t[i]) && t[i] != '；'
    ensures IsToken(Lower(t))
  {
    var r := Lower(t);
    forall i | 0 <= i < |t|
      ensures IsTokenChar(r[i])
    {
      assert r[i] == LowerChar(t[i]);
    }
  }

  // ---------------------------------------------------------------------------
  // The judge mapping

  /** No user answer is right against a stored judge answer whose only token is √ (the
      stored text "√" is one, by `MarkIsOneToken`): the user's √ is mapped to 对 before
      the comparison, and the stored tokens are not mapped at all. */
  lemma JudgeMarkNeverRight(user: UserAnswer, c: string, options: seq<string>)
    requires NormalizeTokens(c) == ["√"]
    ensures EvaluateAnswer(Judge, user, Some(c), options) == Some(false)
  {
    JudgeGrade(user, c, options);
    JudgeNeverMark(AnswerTokens(user));
  }

  /** The stored judge answer "√" normalizes to the single token √. */
  lemma MarkIsOneToken()
    ensures NormalizeTokens("√") == ["√"]
  {
    SingleToken("√");
  }

  /** The judge branch of `EvaluateAnswer`, for a stored answer with tokens. */
  lemma JudgeGrade(user: UserAnswer, c: string, options: seq<string>)
    requires NormalizeTokens(c) != []
    ensures var tokens := JudgeTokens(AnswerTokens(user));
      EvaluateAnswer(Judge, user, Some(c), options) == Some(tokens != [] && tokens[0] in NormalizeTokens(c))
  {
  }

  /** A one-character token normalizes to itself. */
  lemma SingleToken(t: string)
    requires |t| == 1 && IsTokenChar(t[0]) && !IsBracketOrBlank(t[0])
    ensures NormalizeTokens(t) == [t]
  {
    NormalizeJoined([t]);
    assert Join(" ", [t]) == t;
  }

  lemma JudgeNeverMark(tokens: seq<string>)
    ensures JudgeTokens(tokens) == [] || JudgeTokens(tokens)[0] != "√"
  {
    if tokens != [] && tokens[0] == "√" {
      assert tokens[0] in TrueWords;
    }
  }

  /** A synonym of true or false stands for 对 or 错; any other token for itself. */
  function Verdict(t: string): string {
    if t in TrueWords then "对" else if t in FalseWords then "错" else t
  }

  /** The judge grade with the synonym mapping applied to the stored tokens as well as
      to the user's first token. */
  function JudgeIntended(user: UserAnswer, correctAns: Option<string>): (r: Option<bool>)
    ensures r.None? <==> CorrectTokens(correctAns) == []
  {
    var correct := CorrectTokens(correctAns);
    if correct == [] then None else Some(VerdictAgrees(AnswerTokens(user), correct))
  }

  /** The user's first token, mapped, is one of the stored tokens, mapped. */
  predicate VerdictAgrees(tokens: seq<string>, correct: seq<string>) {
    tokens != [] && Verdict(tokens[0]) in seq(|correct|, k requires 0 <= k < |correct| => Verdict(correct[k]))
  }

  /** `EvaluateAnswer` with the judge branch replaced by `JudgeIntended`. */
  function EvaluateIntended(qtype: QType, user: UserAnswer, correctAns: Option<string>, options: seq<string>): (r: Option<bool>)
    ensures qtype != Judge ==> r == EvaluateAnswer(qtype, user, correctAns, options)
    ensures r.None? <==> CorrectTokens(correctAns) == [] || qtype in {Short, Comprehensive, Case}
  {
    if qtype == Judge then JudgeIntended(user, correctAns) else EvaluateAnswer(qtype, user, correctAns, options)
  }

  /** With the mapping on both sides a judge answer is right when its first token names
      the same verdict as the first stored token; in particular, typed as stored. */
  lemma JudgeIntendedRight(user: UserAnswer, c: string, options: seq<string>)
    requires NormalizeTokens(c) != [] && AnswerTokens(user) != []
    requires Verdict(AnswerTokens(user)[0]) == Verdict(NormalizeTokens(c)[0])
    ensures EvaluateIntended(Judge, user, Some(c), options) == Some(true)
  {
    JudgeIntendedHolds(user, c);
  }

  lemma JudgeIntendedHolds(user: UserAnswer, c: string)
    requires NormalizeTokens(c) != [] && AnswerTokens(user) != []
    requires Verdict(AnswerTokens(user)[0]) == Verdict(NormalizeTokens(c)[0])
    ensures JudgeIntended(user, Some(c)) == Some(true)
  {
    FirstVerdictAgrees(AnswerTokens(user), NormalizeTokens(c));
  }

  lemma FirstVerdictAgrees(tokens: seq<string>, correct: seq<string>)
    requires tokens != [] && correct != [] && Verdict(tokens[0]) == Verdict(correct[0])
    ensures VerdictAgrees(tokens, correct)
  {
    var mapped := seq(|correct|, k requires 0 <= k < |correct| => Verdict(correct[k]));
    assert mapped[0] == Verdict(correct[0]);
  }
}
