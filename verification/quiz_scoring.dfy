/** Answer-set validation and scoring of a quiz submission. */
module QuizScoring {
  import opened Wrappers
  import opened Entities
  import opened QuizDtos
  import opened Seqs

  function QuestionIds(qs: seq<Question>): (r: seq<string>)
    ensures |r| == |qs| && forall i | 0 <= i < |qs| :: r[i] == qs[i].id
  {
    seq(|qs|, i requires 0 <= i < |qs| => qs[i].id)
  }

  function AnswerIds(answers: seq<QuizAnswerDto>): (r: seq<string>)
    ensures |r| == |answers| && forall i | 0 <= i < |answers| :: r[i] == answers[i].questionId
  {
    seq(|answers|, i requires 0 <= i < |answers| => answers[i].questionId)
  }

  /** The position of the first question with that id, or `|qs|` if none has it. */
  function FirstIndexOf(qs: seq<Question>, id: string): (i: nat)
    ensures i <= |qs|
    ensures forall j | 0 <= j < i :: qs[j].id != id
    ensures i < |qs| ==> qs[i].id == id
  {
    if |qs| == 0 then 0
    else if qs[0].id == id then 0
    else FirstIndexOf(qs[1..], id) + 1
  }

  /** `questions.find(q => q.id === id)`: the first question with that id. */
  function FindQuestion(qs: seq<Question>, id: string): (r: Option<Question>)
    ensures r.Some? <==> id in QuestionIds(qs)
    ensures r.Some? ==> r.value.id == id && r.value in qs
    ensures r.Some? ==> FirstIndexOf(qs, id) < |qs| && r.value == qs[FirstIndexOf(qs, id)]
  {
    var i := FirstIndexOf(qs, id);
    if i < |qs| then Some(qs[i])
    else
      assert id !in QuestionIds(qs) by {
        forall j | 0 <= j < |qs| ensures QuestionIds(qs)[j] != id {}
      }
      None
  }

  /** Every question of the quiz is among the answered question ids. */
  predicate AllAnswered(qs: seq<Question>, answers: seq<QuizAnswerDto>) {
    forall i | 0 <= i < |qs| :: qs[i].id in AnswerIds(answers)
  }

  /** Every answered question id belongs to the quiz. */
  predicate AllKnown(qs: seq<Question>, answers: seq<QuizAnswerDto>) {
    forall j | 0 <= j < |answers| :: answers[j].questionId in QuestionIds(qs)
  }

  /** The id of the first answer naming no question of the quiz, the one
      whose lookup throws first while the answers are mapped. */
  function FirstUnknown(qs: seq<Question>, answers: seq<QuizAnswerDto>): (r: Option<string>)
    ensures r.None? <==> AllKnown(qs, answers)
    ensures r.Some? ==> r.value !in QuestionIds(qs)
    ensures r.Some? ==> exists j | 0 <= j < |answers| ::
      answers[j].questionId == r.value && AllKnown(qs, answers[..j])
  {
    if |answers| == 0 then None
    else if answers[0].questionId !in QuestionIds(qs) then
      assert AllKnown(qs, answers[..0]);
      Some(answers[0].questionId)
    else
      var r := FirstUnknown(qs, answers[1..]);
      assert forall j | 1 <= j < |answers| :: answers[j] == answers[1..][j - 1];
      if r.Some? then
        var j :| 0 <= j < |answers[1..]| && answers[1..][j].questionId == r.value
          && AllKnown(qs, answers[1..][..j]);
        assert answers[j + 1].questionId == r.value;
        assert answers[..j + 1] == [answers[0]] + answers[1..][..j];
        assert AllKnown(qs, answers[..j + 1]);
        r
      else r
  }

  /** Grades one answer against the question it names. */
  function GradeOne(qs: seq<Question>, a: QuizAnswerDto): QuizAnswer
    requires a.questionId in QuestionIds(qs)
  {
    QuizAnswer(a.questionId, a.selectedAnswer,
      FindQuestion(qs, a.questionId).value.correctAnswer == a.selectedAnswer)
  }

  /** The stored answers: one per submitted answer, in submission order. */
  function Grade(qs: seq<Question>, answers: seq<QuizAnswerDto>): (r: seq<QuizAnswer>)
    requires AllKnown(qs, answers)
    ensures |r| == |answers|
    ensures forall j | 0 <= j < |answers| :: r[j] == GradeOne(qs, answers[j])
  {
    seq(|answers|, j requires 0 <= j < |answers| => GradeOne(qs, answers[j]))
  }

  /** The number of answers marked correct. */
  function CountCorrect(graded: seq<QuizAnswer>): (n: nat)
    ensures n <= |graded|
  {
    if |graded| == 0 then 0
    else (if graded[0].isCorrect then 1 else 0) + CountCorrect(graded[1..])
  }

  /** `(correctCount / totalQuestions) * 100`. JavaScript yields NaN for 0/0;
      here an empty quiz scores 0. */
  function Percent(correct: nat, total: nat): real {
    if total == 0 then 0.0 else (correct as real / total as real) * 100.0
  }

  // ---------------------------------------------------------------------
  // The scoring loop as the service writes it: map the answers, looking each
  // question up, and bump a counter for every correct one.
  // ---------------------------------------------------------------------

  /** Grades the answers in one pass, counting the correct ones as it goes. */
  method GradeAnswers(qs: seq<Question>, answers: seq<QuizAnswerDto>)
      returns (graded: seq<QuizAnswer>, correctCount: nat)
    requires AllKnown(qs, answers)
    ensures graded == Grade(qs, answers)
    ensures correctCount == CountCorrect(graded)
  {
    graded := [];
    correctCount := 0;
    var i := 0;
    while i < |answers|
      invariant 0 <= i <= |answers|
      invariant graded == Grade(qs, answers[..i])
      invariant correctCount == CountCorrect(graded)
    {
      var a := GradeOne(qs, answers[i]);
      CountCorrectAppend(graded, a);
      if a.isCorrect {
        correctCount := correctCount + 1;
      }
      graded := graded + [a];
      assert answers[..i + 1] == answers[..i] + [answers[i]];
      i := i + 1;
    }
    assert answers[..i] == answers;
  }

  lemma {:induction false} CountCorrectAppend(graded: seq<QuizAnswer>, a: QuizAnswer)
    ensures CountCorrect(graded + [a]) == CountCorrect(graded) + (if a.isCorrect then 1 else 0)
  {
    if |graded| > 0 {
      assert (graded + [a])[1..] == graded[1..] + [a];
      CountCorrectAppend(graded[1..], a);
    } else {
      assert (graded + [a])[1..] == [];
    }
  }

  // ---------------------------------------------------------------------
  // Properties of the scoring.
  // ---------------------------------------------------------------------

  /** The correctness flags of the stored answers. */
  function Flags(graded: seq<QuizAnswer>): (r: seq<bool>)
    ensures |r| == |graded| && forall j | 0 <= j < |graded| :: r[j] == graded[j].isCorrect
  {
    seq(|graded|, j requires 0 <= j < |graded| => graded[j].isCorrect)
  }

  /** `correctCount` is the number of stored answers whose `isCorrect` holds. */
  lemma {:induction false} CorrectCountIsNumberOfCorrectAnswers(graded: seq<QuizAnswer>)
    ensures CountCorrect(graded) == multiset(Flags(graded))[true]
  {
    if |graded| > 0 {
      CorrectCountIsNumberOfCorrectAnswers(graded[1..]);
      assert Flags(graded) == [graded[0].isCorrect] + Flags(graded[1..]);
    } else {
      assert Flags(graded) == [];
    }
  }

  /** Each stored answer keeps the submitted question id and choice. When the
      quiz's question ids are distinct, the answer is marked correct exactly
      when the question it names has the chosen option as its correct answer. */
  lemma GradedByTheNamedQuestion(qs: seq<Question>, answers: seq<QuizAnswerDto>, j: int)
    requires AllKnown(qs, answers)
    requires Distinct(QuestionIds(qs))
    requires 0 <= j < |answers|
    ensures Grade(qs, answers)[j].questionId == answers[j].questionId
    ensures Grade(qs, answers)[j].selectedAnswer == answers[j].selectedAnswer
    ensures Grade(qs, answers)[j].isCorrect <==>
      exists q | q in qs && q.id == answers[j].questionId :: q.correctAnswer == answers[j].selectedAnswer
  {
    var a := answers[j];
    var found := FindQuestion(qs, a.questionId).value;
    var i :| 0 <= i < |qs| && found == qs[i];
    forall q | q in qs && q.id == a.questionId ensures q == found {
      var k :| 0 <= k < |qs| && qs[k] == q;
      assert QuestionIds(qs)[k] == QuestionIds(qs)[i];
    }
  }

  /** With distinct question ids, looking up a question's id finds that question. */
  lemma FindsTheNamedQuestion(qs: seq<Question>, q: Question)
    requires Distinct(QuestionIds(qs))
    requires q in qs
    ensures FindQuestion(qs, q.id) == Some(q)
  {
    var k :| 0 <= k < |qs| && qs[k] == q;
    assert QuestionIds(qs)[k] == q.id;
    var i := FirstIndexOf(qs, q.id);
    assert QuestionIds(qs)[i] == QuestionIds(qs)[k];
  }

  /** With distinct answered question ids, all naming questions of the quiz,
      at most one answer per question can be correct, so the count never
      exceeds the number of questions and the score stays within 0..100. */
  lemma CorrectCountBounded(qs: seq<Question>, answers: seq<QuizAnswerDto>)
    requires AllKnown(qs, answers)
    requires Distinct(AnswerIds(answers))
    ensures CountCorrect(Grade(qs, answers)) <= |qs|
    ensures 0.0 <= Percent(CountCorrect(Grade(qs, answers)), |qs|) <= 100.0
  {
    var ids := AnswerIds(answers);
    ElementsOfDistinct(ids);
    ElementsBound(QuestionIds(qs));
    assert Elements(ids) <= Elements(QuestionIds(qs)) by {
      forall x | x in Elements(ids) ensures x in Elements(QuestionIds(qs)) {
        var j :| 0 <= j < |ids| && ids[j] == x;
        assert answers[j].questionId in QuestionIds(qs);
      }
    }
    SubsetCardinality(Elements(ids), Elements(QuestionIds(qs)));
    PercentBounded(CountCorrect(Grade(qs, answers)), |qs|);
  }

  lemma SubsetCardinality<T>(a: set<T>, b: set<T>)
    requires a <= b
    ensures |a| <= |b|
  {
    assert b == a + (b - a);
  }

  lemma PercentBounded(correct: nat, total: nat)
    requires correct <= total
    ensures 0.0 <= Percent(correct, total) <= 100.0
  {
    if total > 0 {
      assert correct as real / total as real <= 1.0;
    }
  }
}
