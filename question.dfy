/** The question record: the dictionaries `detect_questions` returns and the `Question`
    model of models/question.py, whose `answer` field the aligners set in place. */
module Records {
  import opened Text

  /** The seven type tags; `Multi` is legal but never produced by the classifier. */
  datatype QType = Choice | Multi | Judge | Fill | Short | Comprehensive | Case {
    /** The tag as the source spells it, `str(q_type)`. */
    function Name(): string {
      match this
      case Choice => "choice"
      case Multi => "multi"
      case Judge => "judge"
      case Fill => "fill"
      case Short => "short"
      case Comprehensive => "comprehensive"
      case Case => "case"
    }
  }

  datatype QuestionRecord = QuestionRecord(
    id: int, qtype: QType, stem: string, options: Option<seq<string>>, answer: Option<string>)

  /** Python truthiness of `q.answer`: set and not the empty string. */
  predicate Answered(a: Option<string>) {
    a.Some? && a.value != []
  }

  /** `b` is `a` with, at most, different answers: same length, order, ids, types, stems
      and options. */
  predicate SameShape(a: seq<QuestionRecord>, b: seq<QuestionRecord>) {
    |a| == |b| && forall k | 0 <= k < |a| :: a[k].(answer := b[k].answer) == b[k]
  }

  lemma SameShapeTransitive(a: seq<QuestionRecord>, b: seq<QuestionRecord>, c: seq<QuestionRecord>)
    requires SameShape(a, b) && SameShape(b, c)
    ensures SameShape(a, c)
  {
  }

  /** A question object; only `answer` can change after construction. */
  class Question {
    const id: int
    const qtype: QType
    const stem: string
    const options: Option<seq<string>>
    var answer: Option<string>

    function Record(): QuestionRecord
      reads this
    {
      QuestionRecord(id, qtype, stem, options, answer)
    }

    /** `Question(**q)` */
    constructor (r: QuestionRecord)
      ensures Record() == r
    {
      id, qtype, stem, options, answer := r.id, r.qtype, r.stem, r.options, r.answer;
    }
  }

  /** No question object appears twice in the list. */
  predicate Distinct(qs: seq<Question>) {
    forall i, j | 0 <= i < j < |qs| :: qs[i] != qs[j]
  }

  /** The values currently held by a list of question objects. */
  function Snapshot(qs: seq<Question>): (r: seq<QuestionRecord>)
    reads qs
    ensures |r| == |qs| && forall k | 0 <= k < |qs| :: r[k] == qs[k].Record()
  {
    seq(|qs|, k requires 0 <= k < |qs| reads qs => qs[k].Record())
  }

  /** `[Question(**q) for q in records]` */
  method MakeQuestions(records: seq<QuestionRecord>) returns (qs: seq<Question>)
    ensures Distinct(qs) && Snapshot(qs) == records
    ensures fresh(set q <- qs)
  {
    qs := [];
    for k := 0 to |records|
      invariant |qs| == k && Distinct(qs)
      invariant fresh(set q <- qs)
      invariant forall j | 0 <= j < k :: qs[j].Record() == records[j]
    {
      var q := new Question(records[k]);
      qs := qs + [q];
    }
  }
}
