# auto_review quiz core in Dafny

auto_review turns a question bank into quiz records and grades the user's answers. The bank is a Chinese document, read as plain text. This project models the logic that does the work:

- **Question detector** (`recognizers/question_detector.py` with the patterns of `config.py`). It scans the lines of the text without answers. It keeps an open question (stem, options, emphasis marks, strike-through), a dense id counter and an answer-section flag. It commits one record per question: dropped, split into several records when several questions run together on one line, or emitted whole. It classifies each stem as choice, judge, fill, comprehensive, case or short.
- **Answer aligners** (`recognizers/answer_aligner.py`, the one in use, and the older `answer_aligner_old.py` and `answer_aligner_bak.py`). Each takes the detected questions and writes answers into their `answer` fields in place. The answers come from a second copy of the text that has them filled in.
- **Grading** (`ui/streamlit_app.py`, lines 17-72). It normalizes an answer into tokens, maps option letters to option texts and grades a user's answer against the stored one.

Modules and files:

| file | module | models |
|---|---|---|
| `text.dfy` | `Text` | Python `str` operations used by the source: `strip`, `splitlines`, `lower`, `startswith`, `in`, `join` |
| `config.dfy` | `Config` | the patterns and keyword lists of `config.py`, each regular expression written as a predicate or scanner |
| `question.dfy` | `Records` | the question record (`QType`, `QuestionRecord`) and the `Question` object whose `answer` the aligners set in place |
| `question_detector.dfy` | `QuestionDetector` | `_detect_type`; `detect_questions` both as a fold of `StepLine` over the lines (`Detect`) and as the imperative scanner class `Detector` |
| `question_detector_lemmas.dfy` | `DetectorLemmas` | properties of the scanner: dense ids, well-formed records, the answer-section state machine, the run-on split, the classifier |
| `align_common.dfy` | `AlignCommon` | what the three aligners share: the line extractors, the diff pieces, and the strategies that write answers |
| `answer_aligner.dfy` | `AnswerAligner` | `recognizers/answer_aligner.py` |
| `answer_aligner_old.dfy` | `AnswerAlignerOld` | `recognizers/answer_aligner_old.py` |
| `answer_aligner_bak.dfy` | `AnswerAlignerBak` | `recognizers/answer_aligner_bak.py` |
| `grading.dfy` | `Grading` | `normalize_tokens`, `_letters_to_options`, `evaluate_answer` |

Design notes:

- Every regular expression is a hand-written predicate or scanner over `seq<char>`, with CJK ranges written as code-point ranges. `SplitLines` lines hold no line break, so the pattern `.` matches any character of a line.
- `difflib.SequenceMatcher` is a `Matcher` value passed in by the caller. It holds two function values: the opcodes of a pair of strings and their similarity ratio. Nothing is assumed about them.
- Where the source mutates state, the model is imperative:
  - The scanner is the class `Detector`, with the source's `current`, `question_id` and `questions` as fields. Its methods are proved equal to the fold `Detect`.
  - Each aligner strategy is a method over the list of `Question` objects (`seq<Question>`). Each one is proved to leave `Snapshot(qs)` equal to a function of the old snapshot, and the properties are proved about those functions.
- In `re.findall` over the combined answer line (old aligner) and the block text (bak aligner), `$` is modelled as the end of the text. Python's `$` also matches before a final line break, but `AnswerAlignerOld.Combined` and `AnswerAlignerBak.BlockTextShape` prove those texts hold no line break.
- Python truthiness is written out. `if q.answer` is `Answered(a)`: `Some(s)` with `s != ""`. `if not text` is `text == []`.

## Model

| member | source | states |
|---|---|---|
| Config.MatchOption | config.py:5 | An option line matches exactly when it has at least three characters, a letter A-H/a-h first and one of `.、．)）` second; the capture is a non-empty tail of the line after the delimiter |
| Config.MatchOptionStripped | config.py:5 | Once stripped, the captured option text is the stripped text after the delimiter, whatever the greedy blanks gave back |
| Config.JudgeMarkerIff | config.py:35 | The judge marker is found exactly when an opening bracket of either width is followed by only blanks and then a closing bracket of either width |
| Config.MixedWidthJudgeMarkers | config.py:35 | Mixed-width pairs such as `（ )` and `(）`, and a full-width blank inside, are judge markers |
| Config.PartHeadingIff | config.py:41 | The second alternative of the section pattern holds exactly when the line is a run of Chinese numerals, then `、`, then text that mentions 题 or 答案 |
| Config.PartHeadingRun | config.py:41 | The numeral run of such a heading is the maximal run of Chinese numerals at the start of the line |
| Config.SectionHeaderExamples | config.py:41 | `一、填空题`, `第3章 总则` and `二、判断题答案` are section headers; `一、概述` and `第一部分` are not |
| Config.MatchAnswerTail | config.py:32 | The capture after the keyword, when there is one, is a non-empty proper tail of the rest of the line |
| Config.SearchAnswerLineFromSound | config.py:32 | The search returns the capture of the leftmost position at which the pattern matches |
| Config.SearchAnswerLineFromComplete | config.py:32 | The search finds a match whenever the pattern matches at some later position |
| Config.AnswerLineCapture | config.py:32 | A found answer line has 答案 or 参考答案 in it, at least one separator after the keyword, and a non-empty capture that is a tail of the line |
| Config.TailCapture | config.py:32 | A capture from position `p` is a non-empty tail of the line that starts after `p` |
| Config.ExplicitAnswerLine | config.py:32 | `答案：v` and `参考答案：v` capture `v` when `v` does not start with a blank |
| Config.UnderscoreRunIsFillMarker | config.py:6 | A stem holding three underscores in a row contains a fill marker |
| Config.CaseWordIsCaseKeyword | config.py:20-30 | A stem holding 案例 matches a case keyword after lowering |
| Records.SameShapeTransitive | models/question.py:4-9 | Differing only in answers is transitive |
| Records.Question.constructor | models/question.py:4-9 | `Question(**q)` holds exactly the fields of the record |
| Records.MakeQuestions | models/question.py:4-9 | `[Question(**q) for q in records]` gives fresh, distinct objects holding the records in order |
| QuestionDetector.RemoveQuotedFrom | recognizers/question_detector.py:64 | Removing quoted spans never lengthens the stem |
| QuestionDetector.DetectType | recognizers/question_detector.py:26-86 | The type is `choice` exactly when there are two or more options, `judge` exactly when there are fewer and the judge marker occurs, and never `multi` |
| QuestionDetector.AnswerHeaderAfter | recognizers/question_detector.py:189 | An answer-header match starts with the keyword that was tried |
| QuestionDetector.MatchNumberedLine | recognizers/question_detector.py:221-223 | A numbered-line match gives a stem shorter than the line, on a line whose first non-blank character is an opening bracket or a digit |
| QuestionDetector.DigitDelimEnd | recognizers/question_detector.py:257 | A digit-delimiter match at `p` ends after `p` and within the text |
| QuestionDetector.EmbeddedMarkerEnd | recognizers/question_detector.py:125 | An embedded-number match never starts at position 0 and ends after its start, within the stem |
| QuestionDetector.EmbeddedMarkersFrom | recognizers/question_detector.py:125 | The match starts found from `p` are increasing, each is a real match, and each match ends before the next starts |
| QuestionDetector.EmbeddedMarkers | recognizers/question_detector.py:125 | `re.finditer` starts: increasing match positions after the first character, none overlapping the next |
| QuestionDetector.EmbeddedMarkersCons | recognizers/question_detector.py:125 | A match followed by later non-overlapping matches gives an increasing, non-overlapping list |
| QuestionDetector.OptionMarkersFrom | recognizers/question_detector.py:205 | The option split points are increasing and are exactly the positions where a letter A-H/a-h is followed by an option delimiter |
| QuestionDetector.CutAt | recognizers/question_detector.py:127-132 | Cutting at `n` positions gives `n + 1` pieces |
| QuestionDetector.CutAtLast | recognizers/question_detector.py:127-132 | The pieces before the last cut are those of the prefix, and the last piece is the rest |
| QuestionDetector.CutAtConcat | recognizers/question_detector.py:127-132 | Cutting at increasing positions loses no text: the pieces concatenate back to the stem |
| QuestionDetector.StripAll | recognizers/question_detector.py:130-132 | Each piece is stripped and nothing else changes |
| QuestionDetector.RunOnRecords | recognizers/question_detector.py:136-145 | One record per run-on piece |
| QuestionDetector.RunOnRecordsSnoc | recognizers/question_detector.py:136-145 | Piece `k` becomes the record with id `id + k`, its own classified type, no options and no answer |
| QuestionDetector.Emitted | recognizers/question_detector.py:102-163 | A commit emits nothing exactly when the stem is empty, struck through, or starts with 答案/参考答案 after left-stripping |
| QuestionDetector.OptionTextOf | recognizers/question_detector.py:206-213 | A split piece contributes at most one option text |
| QuestionDetector.TaggedAppend | recognizers/question_detector.py:216 | Each emphasised option adds `option:` followed by its text, in order |
| Text.SplitLines | recognizers/question_detector.py:96 | `splitlines` returns no lines exactly for the empty text, and no line holds a line break |
| QuestionDetector.SourceLines | recognizers/question_detector.py:96 | One right-stripped line per line of `splitlines` |
| QuestionDetector.Detector.constructor | recognizers/question_detector.py:97-99 | The scanner starts with an empty buffer, id 1, no records, outside the answer section |
| QuestionDetector.Detector.ResetCurrent | recognizers/question_detector.py:163 | The buffer is emptied; the counter and the records are untouched |
| QuestionDetector.Detector.CommitCurrent | recognizers/question_detector.py:102-163 | The records grow by exactly what `Emitted` gives for the old buffer, the counter by its count, and the buffer is empty |
| QuestionDetector.Detector.AppendRunOn | recognizers/question_detector.py:136-145 | One record per piece is appended, with consecutive ids from the counter, and the counter moves past them |
| QuestionDetector.Detector.AddOptions | recognizers/question_detector.py:203-218 | An option line under an open stem changes the buffer as `AddOptionsTo` says; the counter and the records are untouched |
| QuestionDetector.Detector.AppendOptionTexts | recognizers/question_detector.py:206-216 | The option texts of the pieces are appended in order, tagged into the emphasis list only for an underlined line; the stem and strike flag are unchanged |
| QuestionDetector.Detector.AppendFound | recognizers/question_detector.py:213-216 | The found texts are appended to the options, and tagged into the emphasis list only for an underlined line |
| QuestionDetector.Detector.ScanLines | recognizers/question_detector.py:165-278 | Running the loop over all lines from a fresh scanner reaches the state of the fold `Scan` |
| QuestionDetector.Detector.FeedLine | recognizers/question_detector.py:168-278 | One pass of the line loop moves the scanner exactly as `StepLine` does |
| QuestionDetector.Detector.FeedBodyLine | recognizers/question_detector.py:201-276 | The option, numbered-line and continuation branches move the scanner exactly as `BodyLine` does |
| QuestionDetector.Detector.FeedNumberedLine | recognizers/question_detector.py:221-270 | A numbered line moves the scanner exactly as `OnNumberedLine` does |
| QuestionDetector.Detector.OpenQuestion | recognizers/question_detector.py:263-268 | The open question is committed and a new buffer holds the stem, the strike flag and the emphasis mark |
| QuestionDetector.CutRunOn | recognizers/question_detector.py:127-132 | The slicing loop gives the stripped pieces between the match starts |
| QuestionDetector.CollectOptionTexts | recognizers/question_detector.py:206-213 | The loop over the split pieces collects their option texts in order |
| QuestionDetector.DetectQuestions | recognizers/question_detector.py:89-281 | `detect_questions` run line by line gives exactly the records of the fold `Detect` |
| DetectorLemmas.EmittedWellFormed | recognizers/question_detector.py:136-162 | A commit numbers its records consecutively from the counter, and each is well formed: no answer, never `multi`, a non-empty stem, options `None` rather than empty, `choice` exactly with two or more options |
| DetectorLemmas.PieceRecordWellFormed | recognizers/question_detector.py:137-144 | A record made from a non-empty run-on piece is well formed |
| DetectorLemmas.CommitOutcomes | recognizers/question_detector.py:102-163 | A commit always resets the buffer and keeps earlier records; it emits nothing for an empty, struck or answer-like stem, one record per piece without options for a run-on stem, and one record with the stem otherwise |
| DetectorLemmas.EmittedOutcomes | recognizers/question_detector.py:124-162 | The run-on and the single-record outcomes of a commit, in one statement |
| DetectorLemmas.EmittedRunOn | recognizers/question_detector.py:124-147 | A run-on commit emits at least two records, one per non-empty stripped piece in order, each without options |
| DetectorLemmas.EmittedSingle | recognizers/question_detector.py:149-162 | Any other non-empty commit emits one record carrying the whole stem |
| DetectorLemmas.MarkerPieceNumbered | recognizers/question_detector.py:125-132 | Each piece after the first is cut at the blank before its number, so once stripped it still starts with one to three digits and `.` or `、` |
| DetectorLemmas.NumberInStretch | recognizers/question_detector.py:125-132 | A stretch that holds a whole embedded-number match at its start strips to text starting with that number |
| DetectorLemmas.RunOnPiecesNumbered | recognizers/question_detector.py:125-147 | Every record text of a run-on split, except possibly the leading one, starts with its own question number such as `8.` |
| DetectorLemmas.CommitWellFormed | recognizers/question_detector.py:102-163 | A commit keeps ids dense (1..N with the counter at N+1) and records well formed, and only appends |
| DetectorLemmas.OnNumberedLineWellFormed | recognizers/question_detector.py:221-270 | A numbered line keeps the scanner well formed and only appends |
| DetectorLemmas.BodyLineWellFormed | recognizers/question_detector.py:201-276 | A body line keeps the scanner well formed and only appends |
| DetectorLemmas.StepLineWellFormed | recognizers/question_detector.py:168-278 | One line keeps the records numbered and well formed and never alters a record already emitted |
| DetectorLemmas.StepLineShape | recognizers/question_detector.py:168-199 | A line leaves the records and the counter alone, or is a body line, perhaps after leaving the answer section |
| DetectorLemmas.ScanUnfold | recognizers/question_detector.py:168-278 | The fold over `n` lines is one more step after the fold over `n - 1` |
| DetectorLemmas.ScanWellFormed | recognizers/question_detector.py:97-278 | Every prefix of the line loop leaves the scanner well formed |
| DetectorLemmas.DetectWellFormed | recognizers/question_detector.py:89-281 | The ids of `detect_questions` are exactly 1..N in order, and every record has no answer, is never `multi`, and has options `None` rather than empty |
| DetectorLemmas.BodyLineNeverEntersAnswerMode | recognizers/question_detector.py:201-276 | Option, numbered and continuation lines never turn answer mode on |
| DetectorLemmas.AnswerModeEntered | recognizers/question_detector.py:189-195 | Outside answer mode, a line turns it on exactly when it is an answer header, not a section title, with fewer than 10 characters after the colon |
| DetectorLemmas.AnswerModeLeft | recognizers/question_detector.py:181-253 | Answer mode is left only by a `一、`-style heading that is not a section title or answer header, or by a numbered line that is evidently a question |
| DetectorLemmas.SectionLineIgnored | recognizers/question_detector.py:181-183 | A section title leaves the whole state unchanged, answer mode included |
| DetectorLemmas.FillSectionTitleKeepsAnswerMode | recognizers/question_detector.py:181-199 | `一、填空题` is consumed as a section title before the heading test, so it does not leave answer mode |
| DetectorLemmas.FillTitleStripped | recognizers/question_detector.py:169 | `一、填空题` is its own stripped form |
| DetectorLemmas.AnswerContentSkipped | recognizers/question_detector.py:246-253 | In answer mode, a numbered line that is not evidently a question but has two digit-delimiter pairs or an answer keyword leaves the state unchanged |
| DetectorLemmas.CrowdedNumberedLineNeverOpens | recognizers/question_detector.py:257-261 | A numbered line with five or more digit-delimiter pairs never opens a question and never commits the open one |
| DetectorLemmas.OptionLineNeverOpens | recognizers/question_detector.py:202-218 | An option line never opens, commits or closes a question and keeps answer mode; without an open stem it changes nothing |
| DetectorLemmas.OptionLineNotNumbered | recognizers/question_detector.py:202-221 | A line whose first non-blank character is an option letter is never a numbered line |
| DetectorLemmas.FirstCharNotNumbered | recognizers/question_detector.py:221 | A line whose first non-blank character is an option letter fails the numbered-line pattern |
| DetectorLemmas.ContinuationLine | recognizers/question_detector.py:272-278 | Any other line is appended to the open stem after exactly one space, or dropped when no stem is open |
| DetectorLemmas.DetectTypeIgnoresRechecks | recognizers/question_detector.py:72-76 | The repeated keyword tests can never fire and `has_multiple_correct` never matters: the classifier equals the single first-match chain |
| DetectorLemmas.EmptyBracketsAreJudge | recognizers/question_detector.py:39-45 | The `（ ）` and `( )` fill markers never decide `fill`: such a stem is `judge` unless it has two or more options |
| DetectorLemmas.LengthFallback | recognizers/question_detector.py:78-86 | With no earlier match, a stem of 120 or more characters is comprehensive or case, and a shorter one is short |
| AlignCommon.Captures | recognizers/answer_aligner.py:15-21 | There are never more captures than lines |
| AlignCommon.ExplicitAnswers | recognizers/answer_aligner.py:15-21 | The explicit answers are, in order, the captures of exactly the lines the answer-line pattern accepts: one per accepted line, none skipped |
| AlignCommon.InlineChoiceAnswers | recognizers/answer_aligner.py:24-33 | The trailing letters are, in order, those of exactly the lines that end in an option run after a numbered delimiter: one per such line, none skipped |
| AlignCommon.CaptureLines | recognizers/answer_aligner.py:15-21 | The accepted line numbers are increasing and within the text |
| AlignCommon.CapturesFromLines | recognizers/answer_aligner.py:15-21 | The k-th capture is what the k-th accepted line gives, and no accepted line is skipped |
| AlignCommon.CapturesMatchLines | recognizers/answer_aligner.py:15-21 | Captures and accepted lines correspond one to one, in order |
| AlignCommon.CaptureLinesComplete | recognizers/answer_aligner.py:15-21 | Every line the pattern accepts is among the accepted lines |
| AlignCommon.CollectCaptures | recognizers/answer_aligner.py:15-21 | The line loop with `append` collects exactly the captures |
| AlignCommon.TrailingLettersHaveShape | recognizers/answer_aligner.py:30 | Letters found at a line's end come with the shape the pattern demands: a digit first, a delimiter with no newline before it, blanks, then the letters |
| AlignCommon.ShapeGivesTrailingLetters | recognizers/answer_aligner.py:30 | A stripped line of that shape yields those letters |
| AlignCommon.TrailingLettersIff | recognizers/answer_aligner.py:24-33 | The letters found are exactly those the pattern captures |
| AlignCommon.DelimiterPos | recognizers/answer_aligner_old.py:60 | The delimiter position lies at or after the end of the digits |
| AlignCommon.AnswerSpan | recognizers/answer_aligner_old.py:60 | An answer span found starts at the group start or on the one blank before it, and is a possible answer: non-empty, digit-free, and followed by a number with its delimiter or by the end of the text |
| AlignCommon.AnswerEndsWithRun | recognizers/answer_aligner_old.py:60 | An answer can end only where the digit-free run from its start ends, so the lazy group has at most one end |
| AlignCommon.AnswerSpanIsLazy | recognizers/answer_aligner_old.py:60 | The span ends at the first position where the lookahead holds; it starts at the group start unless no answer fits there, in which case the greedy blanks give one back; when nothing is found no answer fits at either start |
| AlignCommon.IndexedAnswerAt | recognizers/answer_aligner_old.py:60 | A match at `p` has the number as the whole digit run from `p`, and has the full pattern shape: delimiter (after blanks in the spaced form), blanks, then a possible answer |
| AlignCommon.IndexAtDigit | recognizers/answer_aligner_old.py:60 | A number with its delimiter starts with a digit |
| AlignCommon.IndexedAnswerAtIsMatch | recognizers/answer_aligner_old.py:60 | The match found is the one the regex engine picks: of all matches at `p`, the one whose answer starts latest (greedy blanks), ending at the first lookahead position; when none is found the pattern does not match at `p` |
| AlignCommon.ShapeStartsInBlanks | recognizers/answer_aligner_old.py:60 | Any match's answer starts among the blanks that follow the delimiter |
| AlignCommon.SpanCoversAnswer | recognizers/answer_aligner_old.py:60 | An answer starting among the blanks is covered by the span the scanner finds, which starts no earlier |
| AlignCommon.AnswerPastBlanks | recognizers/answer_aligner_old.py:60 | An answer starting among the blanks is either the last blank alone or also an answer from the group start |
| AlignCommon.IndexedAnswersFrom | recognizers/answer_aligner_old.py:60 | Every raw answer `findall` returns is non-empty and holds no digit |
| AlignCommon.ScanStarts | recognizers/answer_aligner_old.py:60 | The positions where a left-to-right `findall` records a match lie in the scanned range and each has a match |
| AlignCommon.ScanStartsOrdered | recognizers/answer_aligner_old.py:60 | Each recorded match starts at or after the end of the one before |
| AlignCommon.ScanStartsFirst | recognizers/answer_aligner_old.py:60 | No match starts before the first recorded one (or anywhere, when none is recorded) |
| AlignCommon.ScanStartsComplete | recognizers/answer_aligner_old.py:60 | No match starts between the end of one recorded match and the start of the next, or after the last |
| AlignCommon.IndexedAnswersAreMatches | recognizers/answer_aligner_old.py:60 | The pairs returned are, in order, the number and answer of each match `findall` records, one per match |
| AlignCommon.CleanedPairs | recognizers/answer_aligner_old.py:61-63 | Each pair keeps its number, and its answer is stripped of blanks and brackets |
| AlignCommon.DiffPiece | recognizers/answer_aligner_old.py:106-118 | An opcode contributes at most one piece, and only an insert or, where blank replacements count, a replace of a blank-only span |
| AlignCommon.DiffPieces | recognizers/answer_aligner_old.py:106-118 | There are never more pieces than opcodes |
| AlignCommon.JoinPieces | recognizers/answer_aligner_old.py:119-121 | The joined answer is missing exactly when there are no pieces |
| AlignCommon.DiffPiecesEmpty | recognizers/answer_aligner_old.py:100-121 | The diff answer is missing exactly when no opcode contributes a piece |
| AlignCommon.DiffFillAnswer | recognizers/answer_aligner_old.py:100-121 | The diff answer is missing exactly when no opcode contributes a piece: no insert of a non-blank span and no replace of a blank-only span |
| AlignCommon.SetAnswer | recognizers/answer_aligner.py:86 | Setting one question's answer changes that answer and nothing else in the list |
| AlignCommon.Positional | recognizers/answer_aligner_old.py:168-176 | Answer k goes to question k, skipping answered ones unless overwriting; nothing but answers changes |
| AlignCommon.AssignPositional | recognizers/answer_aligner.py:80-86 | The positional loop leaves the list as `Positional` describes |
| AlignCommon.ChoiceIndices | recognizers/answer_aligner.py:91 | The targeted indices are increasing and are exactly the choice questions (unanswered ones only, for the older aligner) |
| AlignCommon.AssignAt | recognizers/answer_aligner.py:92-93 | Assigning along positions keeps the list length |
| AlignCommon.AssignAtEffect | recognizers/answer_aligner.py:92-93 | Along increasing positions, the j-th position gets the j-th value and every other question is untouched |
| AlignCommon.InlineAssignedEffect | recognizers/answer_aligner.py:89-93 | The j-th targeted choice question gets the j-th trailing letters, as far as both lists go, overwriting any answer; no other question changes |
| AlignCommon.AssignInline | recognizers/answer_aligner.py:89-93 | The `zip` loop leaves the list as `InlineAssigned` describes |
| AlignCommon.PairwiseFilled | recognizers/answer_aligner.py:104-112 | The pairwise pass changes only answers |
| AlignCommon.PairwiseOnlyFill | recognizers/answer_aligner.py:104-112 | Against records that carry no answers, the pairwise pass only ever answers unanswered fill questions |
| AlignCommon.PairwiseFill | recognizers/answer_aligner.py:99-112 | The pairwise loop leaves the list as `PairwiseFilled` describes |
| AlignCommon.BestInFirstMax | recognizers/answer_aligner.py:120-126 | The scan finds the first candidate of strictly positive maximal score, or -1 with score 0.0 when no score is positive |
| AlignCommon.FindBest | recognizers/answer_aligner.py:120-126 | The scoring loop returns the index and score of `BestIn` |
| AlignCommon.BestInRange | recognizers/answer_aligner.py:120-128 | The best index is a valid position of the candidate list, or -1 |
| AlignCommon.SimilarityUpTo | recognizers/answer_aligner.py:115-131 | The fallback keeps the list length |
| AlignCommon.SimilarityStepEffect | recognizers/answer_aligner.py:117-131 | One pass changes at most the answer of one unanswered fill question; it consumes exactly one candidate when the best score is at least 0.6, whether or not an answer comes out, and none otherwise |
| AlignCommon.SimilarityKeepsShape | recognizers/answer_aligner.py:115-131 | The similarity fallback changes only answers |
| AlignCommon.SimilarityFallback | recognizers/answer_aligner.py:115-131 | The fallback loop, popping consumed candidates, leaves the list as `SimilarityFilled` describes |
| AlignCommon.SimilarityVisit | recognizers/answer_aligner.py:118-131 | The loop body for one question moves the list and the candidates as `SimilarityStep` does |
| AlignCommon.InsertSegments | recognizers/answer_aligner.py:63-65 | There are never more segments than opcodes |
| AlignCommon.ShortSegments | recognizers/answer_aligner.py:66 | Every kept segment is non-empty, shorter than 200 characters, and one of the segments |
| AlignCommon.SequenceAligned | recognizers/answer_aligner.py:67-69 | The global diff changes only answers, and never a question whose answer is set |
| AlignCommon.SequenceAlignedSnoc | recognizers/answer_aligner.py:67-69 | The k-th segment answers question k only when that question exists and its answer is `None` |
| AlignCommon.CollectInsertSegments | recognizers/answer_aligner.py:63-65 | The opcode loop collects the stripped inserted spans in order |
| AlignCommon.AlignBySequence | recognizers/answer_aligner.py:59-70 | `_align_by_sequence` leaves the list as `SequenceAligned` describes for the short inserted segments |
| AlignCommon.ExplicitStep | recognizers/answer_aligner.py:84-86 | The explicit step changes only answers |
| AlignCommon.ExplicitStepEffect | recognizers/answer_aligner.py:84-86 | With no more answer lines than questions, line k answers question k (an answered one only when overwriting) and later questions are untouched; with more lines, nothing is assigned |
| AlignCommon.InlineStepKeepsQuestions | recognizers/answer_aligner.py:89-93 | The trailing-letter step changes only answers |
| AlignCommon.LateStagesKeepQuestions | recognizers/answer_aligner.py:96-134 | The pairwise, similarity and global-diff stages change only answers |
| AlignCommon.PairwiseChoiceBranchDead | recognizers/answer_aligner.py:111-112 | Against the re-detected answer text, whose records carry no answers, the pairwise choice branch can never fire |
| AlignCommon.ApplyExplicit | recognizers/answer_aligner.py:84-86 | The explicit loop leaves the list as `ExplicitStep` describes |
| AlignCommon.ApplyInline | recognizers/answer_aligner.py:89-93 | The trailing-letter strategy leaves the list as `InlineStep` describes |
| AlignCommon.ApplyLateStages | recognizers/answer_aligner.py:96-134 | The last three strategies leave the list as `LateStages` describes |
| AnswerAligner.BracketGroupAt | recognizers/answer_aligner.py:39 | A bracket match has a non-empty group strictly inside the stem |
| AnswerAligner.BracketGroups | recognizers/answer_aligner.py:39-43 | Every bracket group found is non-empty |
| AnswerAligner.BracketGroupsNone | recognizers/answer_aligner.py:39-44 | No group is found exactly when the bracket pattern matches nowhere |
| AnswerAligner.ExtractFillAnswer | recognizers/answer_aligner.py:36-56 | The fill answer is missing exactly when the bracket pattern matches nowhere in the answered stem and no opcode inserts a non-blank span |
| AnswerAligner.AlignAnswers | recognizers/answer_aligner.py:73-137 | `align_answers` gives distinct question objects holding exactly `Align` |
| AnswerAligner.AlignInPlace | recognizers/answer_aligner.py:76-135 | The strategy cascade leaves the list as `AlignWith` describes, returning early when the explicit lines match the questions one for one |
| AnswerAligner.NoAnswerText | recognizers/answer_aligner.py:73-76 | With no answer text, or an empty one, the result is the detected questions with every answer `None` |
| AnswerAligner.Align | recognizers/answer_aligner.py:73-137 | Aligning keeps the detected questions' number, order, ids, types, stems and options; only answers change |
| AnswerAligner.AlignWithKeepsQuestions | recognizers/answer_aligner.py:76-135 | The strategy cascade changes only answers |
| AnswerAligner.ExplicitLinesAnswerAll | recognizers/answer_aligner.py:80-83 | With exactly one explicit answer line per question, the k-th line answers the k-th question |
| AnswerAlignerOld.FirstAnswerLine | recognizers/answer_aligner_old.py:36-44 | The first line that opens the answers, or none when no line does |
| AnswerAlignerOld.AnswerPrefixEnd | recognizers/answer_aligner_old.py:47 | The prefix removed from the answer line ends past the keyword and leaves text that starts with no blank; nothing is removed from other lines |
| AnswerAlignerOld.ContinuationRun | recognizers/answer_aligner_old.py:49-57 | Every continuation line is non-empty and starts with a digit, and holds no line break when the source lines hold none |
| AnswerAlignerOld.ContinuationCheckDead | recognizers/answer_aligner_old.py:53 | A line starting with a digit never opens answers, so the third continuation test decides nothing |
| AnswerAlignerOld.Combined | recognizers/answer_aligner_old.py:47-57 | The combined answer text holds no line break when the lines hold none, so the pattern's `$` can match only at its end |
| AnswerAlignerOld.AnswerMapLaterWins | recognizers/answer_aligner_old.py:60-65 | A number is in the map exactly when some pair gives it a non-empty answer, and it maps to the last such answer |
| AnswerAlignerOld.AnswerMapKey | recognizers/answer_aligner_old.py:60-65 | The same, for one number |
| AnswerAlignerOld.IndexedAnswerMap | recognizers/answer_aligner_old.py:24-67 | Empty without an answer line; otherwise a number is in the map exactly when some cleaned `findall` pair of the combined answer lines gives it a non-empty answer, and it maps to the last such answer |
| AnswerAlignerOld.ExtractInlineIndexedAnswers | recognizers/answer_aligner_old.py:24-67 | The extractor returns exactly `IndexedAnswerMap` |
| AnswerAlignerOld.EnterPairs | recognizers/answer_aligner_old.py:60-65 | The loop over the `findall` pairs builds exactly `AnswerMapOf` the cleaned pairs |
| AnswerAlignerOld.FindAnswerLine | recognizers/answer_aligner_old.py:37-44 | The search loop finds the first answer line |
| AnswerAlignerOld.CombineAnswerLines | recognizers/answer_aligner_old.py:47-57 | The combining loop gives the answer line without its prefix, followed by its continuation lines |
| AnswerAlignerOld.NextContinuation | recognizers/answer_aligner_old.py:50-57 | One pass of the continuation loop either stops where the run ends or adds the run's next line |
| AnswerAlignerOld.ContinuationStep | recognizers/answer_aligner_old.py:50-57 | The continuation run from line i is line i stripped, followed by the run from i+1, when that line is non-empty, starts with a digit and does not open answers; otherwise it is empty |
| AnswerAlignerOld.VerdictAt | recognizers/answer_aligner_old.py:92 | A bracketed verdict match has a non-empty group inside its brackets |
| AnswerAlignerOld.VerdictsApart | recognizers/answer_aligner_old.py:92 | No match starts inside another |
| AnswerAlignerOld.LastVerdictFrom | recognizers/answer_aligner_old.py:92-95 | A verdict kept is non-empty and made only of 对, 错 and option letters |
| AnswerAlignerOld.LastVerdictIsLast | recognizers/answer_aligner_old.py:92-95 | The verdict kept is the group of the last match on the line, and there is none exactly when no match occurs |
| AnswerAlignerOld.ExtractInlineBracketAnswers | recognizers/answer_aligner_old.py:82-97 | The line loop builds exactly `BracketAnswersUpTo` over all lines |
| AnswerAlignerOld.BracketAnswersSnoc | recognizers/answer_aligner_old.py:89-95 | A line with a verdict maps its number to its last verdict; other lines add nothing |
| AnswerAlignerOld.FirstBracketLine | recognizers/answer_aligner_old.py:159-163 | The first line that holds the stem prefix and has a verdict, or none |
| AnswerAlignerOld.StemPrefix | recognizers/answer_aligner_old.py:160 | The stem prefix is the first `min(20, len)` characters of the stem |
| AnswerAlignerOld.BracketAssigned | recognizers/answer_aligner_old.py:155-163 | The bracket phase changes only answers |
| AnswerAlignerOld.BracketAnswersJudgeOnly | recognizers/answer_aligner_old.py:151-163 | Only judge questions with a stem are answered, each with the verdict of the first line that holds the first twenty characters of its stem and has a verdict |
| AnswerAlignerOld.BracketAnswersJudgeFound | recognizers/answer_aligner_old.py:151-163 | Conversely, a judge question with a stem takes the verdict of the first line that holds its stem prefix and has a verdict, and is left as it was when no line does |
| AnswerAlignerOld.FirstBracketLineIs | recognizers/answer_aligner_old.py:89-95 | The first line with the prefix and a verdict is the one the search finds, and the map holds its last verdict |
| AnswerAlignerOld.ApplyBracketAnswers | recognizers/answer_aligner_old.py:155-163 | The question loop leaves the list as `BracketAssigned` describes |
| AnswerAlignerOld.FindBracketLine | recognizers/answer_aligner_old.py:159-163 | The line loop with `break` finds `FirstBracketLine` |
| AnswerAlignerOld.IndexedAssigned | recognizers/answer_aligner_old.py:146-148 | Indexed assignment changes only answers |
| AnswerAlignerOld.ApplyIndexed | recognizers/answer_aligner_old.py:146-148 | The loop leaves the list as `IndexedAssigned` describes |
| AnswerAlignerOld.BracketPhase | recognizers/answer_aligner_old.py:151-163 | The bracket phase changes only answers |
| AnswerAlignerOld.AlignAnswersOld | recognizers/answer_aligner_old.py:139-227 | `align_answers` gives distinct question objects holding exactly `AlignOld` |
| AnswerAlignerOld.AlignOldInPlace | recognizers/answer_aligner_old.py:142-225 | The strategy cascade leaves the list as `AlignOldWith` describes |
| AnswerAlignerOld.AfterBracketsInPlace | recognizers/answer_aligner_old.py:165-225 | The strategies after the bracket phase leave the list as `AfterBrackets` describes |
| AnswerAlignerOld.IndexedAnswersDecide | recognizers/answer_aligner_old.py:143-149 | A non-empty indexed map alone decides: each question whose number it lists takes that answer, and every other question stays unanswered |
| AnswerAlignerOld.AlignOld | recognizers/answer_aligner_old.py:139-227 | Aligning keeps the detected questions' number, order, ids, types, stems and options; only answers change |
| AnswerAlignerOld.AlignOldWithKeepsQuestions | recognizers/answer_aligner_old.py:142-225 | The strategy cascade changes only answers |
| AnswerAlignerBak.TypeKeywords | recognizers/answer_aligner_bak.py:106-115 | Every type has a non-empty list of non-empty keywords, its own name for a type outside the table |
| AnswerAlignerBak.GroupOrderFacts | recognizers/answer_aligner_bak.py:94-99 | The group order lists each present type exactly once, and no other |
| AnswerAlignerBak.Group | recognizers/answer_aligner_bak.py:94-99 | A group holds exactly the questions of its type, in document order |
| AnswerAlignerBak.GroupOrderSnoc | recognizers/answer_aligner_bak.py:95-99 | A question adds its type to the order only the first time the type is seen |
| AnswerAlignerBak.GroupSnoc | recognizers/answer_aligner_bak.py:95-99 | A question joins its own type's group, at the end |
| AnswerAlignerBak.GroupOutsideOrder | recognizers/answer_aligner_bak.py:94-99 | A type outside the order has no questions |
| AnswerAlignerBak.BuildTypeGroups | recognizers/answer_aligner_bak.py:94-99 | The grouping loop builds the first-seen order and, for each type in it, the group of its questions |
| AnswerAlignerBak.AnswerLineAfter | recognizers/answer_aligner_bak.py:123-126 | The answer line found is the first one among the next four lines; `None` means none of those lines opens answers |
| AnswerAlignerBak.BlockStartFrom | recognizers/answer_aligner_bak.py:118-131 | A block found starts at a line that opens answers; `None` exactly when no line from `i` on holds a keyword and has an answer line within the next four lines |
| AnswerAlignerBak.BlockStartFromFirst | recognizers/answer_aligner_bak.py:118-131 | A block found is the answer line after the first keyword line that has one (the outer loop's `break`) |
| AnswerAlignerBak.FindAnswerLineAfter | recognizers/answer_aligner_bak.py:123-126 | The look-ahead loop finds `AnswerLineAfter` |
| AnswerAlignerBak.FindBlockStart | recognizers/answer_aligner_bak.py:118-128 | The nested search loops find `BlockStartFrom` |
| AnswerAlignerBak.CollectBlockText | recognizers/answer_aligner_bak.py:134-150 | The collecting loop gives `BlockTextFrom` |
| AnswerAlignerBak.BlockTextUnfold | recognizers/answer_aligner_bak.py:135-150 | A blank line adds nothing, a later line naming a type ends the block, and any other line is added stripped, followed by a blank |
| AnswerAlignerBak.BlockTextShape | recognizers/answer_aligner_bak.py:134-150 | The block text is empty or ends with a blank, and holds no line break when the lines hold none, so the pattern's `$` can match only at its end |
| AnswerAlignerBak.JudgeAnswerAt | recognizers/answer_aligner_bak.py:157 | A judge match at `p` has the whole digit run from `p` as its number and the full pattern shape, ending in one of ×√对错TF |
| AnswerAlignerBak.JudgeAnswerAtIsMatch | recognizers/answer_aligner_bak.py:157 | The mark found is the only one the pattern can match at `p`, and when none is found the pattern does not match at `p` |
| AnswerAlignerBak.JudgeAnswersFrom | recognizers/answer_aligner_bak.py:157 | Every judge answer is a single mark from ×√对错TF |
| AnswerAlignerBak.JudgeAnswersAreMatches | recognizers/answer_aligner_bak.py:157 | The judge pairs are, in order, the number and mark of each match `findall` records, one per match |
| AnswerAlignerBak.BlockAnswersJudgeMarks | recognizers/answer_aligner_bak.py:152-165 | Each cleaned answer of a judge block is a single mark from ×√对错TF |
| AnswerAlignerBak.FirstWithId | recognizers/answer_aligner_bak.py:167-171 | The member found is the first of the group with the number; `None` exactly when no member has it |
| AnswerAlignerBak.FirstWithIdSame | recognizers/answer_aligner_bak.py:167-171 | Records with the same numbers give the same search results, whatever their answers |
| AnswerAlignerBak.FirstWithIdDense | recognizers/answer_aligner_bak.py:167-171 | With numbers 1, 2, ... in order, each member of a group is the first of the group with its number |
| AnswerAlignerBak.FirstFilled | recognizers/answer_aligner_bak.py:162-171 | The first answer with the number that is non-empty, or `None` when every answer with the number is empty |
| AnswerAlignerBak.SettledSnoc | recognizers/answer_aligner_bak.py:167-171 | One more answer with the question's number settles it only while it is still unanswered (`if not q.answer`); otherwise the settled answer stays |
| AnswerAlignerBak.AssignPairs | recognizers/answer_aligner_bak.py:162-171 | Assigning keeps the list length |
| AnswerAlignerBak.GroupStep | recognizers/answer_aligner_bak.py:117-173 | One type's block keeps the list length |
| AnswerAlignerBak.AssignFirstWithId | recognizers/answer_aligner_bak.py:167-171 | The loop with `break` leaves the list as `AssignPair` describes |
| AnswerAlignerBak.AssignBlock | recognizers/answer_aligner_bak.py:162-173 | The answer loop leaves the list as `AssignPairs` describes |
| AnswerAlignerBak.AlignGroup | recognizers/answer_aligner_bak.py:117-173 | One type's pass leaves the list as `GroupStep` describes |
| AnswerAlignerBak.FindBlockAnswers | recognizers/answer_aligner_bak.py:117-165 | Finding, collecting and parsing a block gives `BlockAnswers` |
| AnswerAlignerBak.AlignGroups | recognizers/answer_aligner_bak.py:104-173 | Aligning the groups keeps the list length |
| AnswerAlignerBak.AlignAnswersBak | recognizers/answer_aligner_bak.py:78-175 | `align_answers` gives distinct question objects holding exactly `AlignBak` |
| AnswerAlignerBak.AssignPairsEffect | recognizers/answer_aligner_bak.py:162-171 | Only answers change; a question changes only if it is in the group, unanswered, and one of the answers carries its number, and it then holds that answer |
| AnswerAlignerBak.AssignPairStep | recognizers/answer_aligner_bak.py:162-171 | One more answer moves a single question as the settled-answer rule says |
| AnswerAlignerBak.AssignPairsDecides | recognizers/answer_aligner_bak.py:162-171 | Both ways: the first group member with a number, if unanswered, settles on the first non-empty answer with that number (the empty string when all are empty), and every other question is left as it was |
| AnswerAlignerBak.GroupStepEffect | recognizers/answer_aligner_bak.py:117-173 | One block only sets answers of unanswered questions of the group, each to an answer of the block with the question's number |
| AnswerAlignerBak.GroupStepDecides | recognizers/answer_aligner_bak.py:117-173 | One type's block decides its group as `AssignPairsDecides` says; without a block nothing changes |
| AnswerAlignerBak.AlignGroupsKeepAnswers | recognizers/answer_aligner_bak.py:104-173 | Aligning the first n types keeps every answered question and every question of another type |
| AnswerAlignerBak.KeepsAfterGroup | recognizers/answer_aligner_bak.py:104-173 | One more type keeps that property |
| AnswerAlignerBak.GroupStepChanges | recognizers/answer_aligner_bak.py:162-171 | One block changes only answers of unanswered members of its group |
| AnswerAlignerBak.KeepStep | recognizers/answer_aligner_bak.py:162-171 | Changing only answers of unanswered members of one type's group keeps the other types and the answered questions |
| AnswerAlignerBak.DecideStep | recognizers/answer_aligner_bak.py:104-173 | One more type keeps each question as `Decided` over the longer list of types |
| AnswerAlignerBak.GroupDecides | recognizers/answer_aligner_bak.py:104-173 | One more type for the whole list: its group's block decides exactly its questions |
| AnswerAlignerBak.AlignGroupsDecide | recognizers/answer_aligner_bak.py:104-173 | With ids 1, 2, ... and distinct types, aligning the first `n` types gives each unanswered question of those types what its block gives its number, and leaves every other question as it was |
| AnswerAlignerBak.AlignAllGroups | recognizers/answer_aligner_bak.py:94-173 | Over every type present, each unanswered question holds exactly what its type's block gives its number |
| AnswerAlignerBak.AlignGroupsFromBlocks | recognizers/answer_aligner_bak.py:104-173 | Each question ends as it was, or unanswered before and given an answer of its own type's block carrying its number |
| AnswerAlignerBak.AlignBakFromBlocks | recognizers/answer_aligner_bak.py:78-175 | The questions are never added, removed or reordered; with no answer text they come back unchanged; otherwise each keeps its state or takes an answer of its own type's block with its number |
| AnswerAlignerBak.AlignBakAnswers | recognizers/answer_aligner_bak.py:78-175 | Both ways: the questions are those detected, and each ends with exactly what the block of its own type gives its number, or no answer when there is no answer text or no block for its type |
| Grading.ReplacePunct | ui/streamlit_app.py:21 | Each `；` and `，` becomes its ASCII form and nothing else changes |
| Grading.SplitOnSeps | ui/streamlit_app.py:22 | The split gives at least one piece, and every piece character is a character of the text and not a separator |
| Grading.LowerAll | ui/streamlit_app.py:23 | Each piece is lowered |
| Grading.NormalizeTokens | ui/streamlit_app.py:17-23 | Every token is non-empty and holds no separator, no `；` and no upper-case letter |
| Grading.NormalizeJoined | ui/streamlit_app.py:17-23 | Normalizing tokens joined by blanks gives them back, when the outer ones do not start or end with a bracket |
| Grading.SplitJoined | ui/streamlit_app.py:22 | Splitting tokens joined by blanks gives the tokens back |
| Grading.NormalizeSteps | ui/streamlit_app.py:17-23 | Normalizing a non-empty text strips it, strips brackets and blanks, unifies punctuation, splits, drops empty pieces and lowers them |
| Grading.OptionTextsOf | ui/streamlit_app.py:31 | Each option is read stripped and lowered |
| Grading.Picks | ui/streamlit_app.py:26-32 | There are never more mapped options than letters |
| Grading.LettersToOptions | ui/streamlit_app.py:26-32 | The mapping loop gives `Picks` of the option texts |
| Grading.PicksSnoc | ui/streamlit_app.py:28-31 | A letter in range adds the option it names, at the end; a letter out of range adds nothing |
| Grading.PicksMembers | ui/streamlit_app.py:26-32 | A text is picked exactly when some letter names an in-range position holding it |
| Grading.PicksAllInRange | ui/streamlit_app.py:26-32 | When every letter is in range, each is mapped, in order |
| Grading.EvaluateAnswer | ui/streamlit_app.py:35-72 | The grade is `None` exactly when the stored answer has no tokens or the type is short, comprehensive or case |
| Grading.FillVerbatimRight | ui/streamlit_app.py:66-69 | A fill answer typed exactly as stored is graded right |
| Grading.ChoiceVerbatimRight | ui/streamlit_app.py:41-46 | A choice answer typed as stored is right, unless the stored answer is option letters and there are options to map them to |
| Grading.ChoiceByLetters | ui/streamlit_app.py:41-45 | With option letters stored, a choice is right exactly when the user's first token is the text of an option one of those letters names |
| Grading.ChoiceLettersGrade | ui/streamlit_app.py:43-45 | With option letters stored, the grade is whether the first user token is among the mapped option texts |
| Grading.PickedOption | ui/streamlit_app.py:44 | A text is among the mapped options exactly when some letter names it |
| Grading.MultiAnyOrderRight | ui/streamlit_app.py:59-64 | Picking the stored tokens in any order is right for a multiple choice whose stored answer is not option letters |
| Grading.SameElements | ui/streamlit_app.py:63-64 | Lists with the same elements, counted with multiplicity, have the same sets |
| Grading.JudgeGrade | ui/streamlit_app.py:48-57 | The judge grade is whether the user's first token, mapped through the true and false synonyms, is among the stored tokens |
| Grading.JudgeNeverMark | ui/streamlit_app.py:51-56 | After the mapping the first user token is never √ |
| Grading.JudgeMarkNeverRight | ui/streamlit_app.py:48-57 | Against a stored judge answer whose only token is √, every user answer is graded wrong |
| Grading.MarkIsOneToken | ui/streamlit_app.py:17-23 | The stored answer `√` normalizes to the single token √ |
| Grading.JudgeIntended | ui/streamlit_app.py:48-57 | The corrected judge grade is `None` exactly when the stored answer has no tokens |
| Grading.EvaluateIntended | ui/streamlit_app.py:35-72 | The corrected grader agrees with `evaluate_answer` on every other type, and is `None` in the same cases |
| Grading.JudgeIntendedRight | ui/streamlit_app.py:48-57 | With the mapping on both sides, a judge answer is right when its first token names the same verdict as the first stored token |
| Grading.JudgeIntendedHolds | ui/streamlit_app.py:48-57 | The corrected judge grade holds when the first tokens name the same verdict |
| Grading.FirstVerdictAgrees | ui/streamlit_app.py:51-57 | Equal verdicts of the first tokens are enough for agreement |

## Left out

- Reading files (`parsers/text_parser.py`, `parsers/docx_parser.py`), `main.py`, logging, and the Streamlit page outside `ui/streamlit_app.py` lines 17-72: these are I/O and UI glue. The model starts from the text as a `seq<char>`.
- `difflib.SequenceMatcher` is not implemented. Its opcodes and `ratio` come in as function values of a `Matcher`, so the proofs hold for every matcher. Nothing assumes `ratio` lies in [0, 1] or that opcode spans are in bounds: slicing clamps as Python's does.
- Character classes: `\d`, `isdigit`, `lower` and `upper` cover ASCII only. `isalpha` covers ASCII letters and CJK ideographs. `\s` and `isspace` follow Python's whitespace list.
- `format_info` is a `map<nat, LineFormat>`; a missing entry reads as all flags false. The aligners always detect with no format information, as the source does.
- `q.type or 'short'` in the bak aligner: every detected record has a type, so the fallback never applies. The `try`/`except ValueError` around `int(qid_str)` is dead, because the captured number is a digit run. The helpers at `recognizers/answer_aligner_bak.py` lines 15-75 are not called by its `align_answers` and are not modelled.
- Grading.RawText: `str` of a list is written for items without quotes or backslashes; Python's escaping inside `repr` is not modelled.
- Grading.Picks: requires every stored token to be one character. `ord` raises `TypeError` otherwise, but the branch is reached only when every token is one character.
- Grading.JudgeMarkNeverRight: states the defect for a stored answer that normalizes to `["√"]`. The same holds for stored `t`, `true`, `正确` and `yes`, and mirrored for `×`, `f`, `false`, `错误` and `no`: the user's first token is mapped to 对 or 错, so none of these stored tokens is ever matched.
- The options `None` and `[]` of a record are not told apart inside the scanner's buffer (`current["options"]` is always a list); records carry `None` for an empty list, as the source writes them.
- The sample test in `tests/test_answer_aligner.py` is not stated as a lemma. Its lines start with `.` and no digit, so no line is numbered and no records come out. Only its all-`None` assertion follows from the code, and `AnswerAligner.NoAnswerText` states it.
- Floating point: the similarity score is a `real`, compared with 0.6 as a plain comparison.

## Findings

| source | as written | input that shows it | evidently intended | confidence | as-written member | corrected member |
|---|---|---|---|---|---|---|
| ui/streamlit_app.py:48-57 | Only the user's first token is mapped through the synonym lists to 对/错; the stored tokens are compared unmapped | A judge question whose stored answer is `√` (the bak aligner stores √ and × as judge answers), answered `对`, `√` or `正确`: always graded wrong | Map the stored tokens the same way, so that `√` and `对` name the same verdict | not executed | Grading.JudgeMarkNeverRight | Grading.JudgeIntendedRight |
