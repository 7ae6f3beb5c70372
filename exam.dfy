/** The exam (controllers/examController.js, models/Question.js, models/ExamResult.js):
    admins add questions; a user starts the exam once, which opens an `in_progress` record
    and serves the questions of a category without their answers; submitting scores the
    answers and closes the record. Question ids are positions in the question store, and
    exam records are keyed by the user's id. */
module Exam {
  import opened Wrappers
  import opened Documents
  import opened Constants

  /** One answer option of a question: `{id, text}`. */
  datatype QuestionOption = QuestionOption(id: string, text: string)

  /** A stored question. */
  datatype Question = Question(text: string, options: seq<QuestionOption>, correctOption: string,
                               category: string, marks: int)

  /** A question as `startExam` serves it: with its id and without `correctOption`. */
  datatype PublicQuestion = PublicQuestion(id: nat, text: string, options: seq<QuestionOption>,
                                           category: string, marks: int)

  /** The `status` enum of an exam record. */
  datatype ExamStatus = InProgress | Completed | Terminated

  /** An exam record (the proctoring fields are not part of this model). */
  datatype ExamRecord = ExamRecord(score: int, totalQuestions: nat, status: ExamStatus,
                                   startTime: nat, endTime: Option<nat>)

  // ---------------------------------------------------------------- addQuestion

  /** The body `addQuestion` reads; `None` is an absent property. */
  datatype QuestionBody = QuestionBody(text: Option<string>, options: Option<seq<QuestionOption>>,
                                       correctOption: Option<string>, category: Option<string>,
                                       marks: Option<int>)

  datatype AddOutcome =
    | MissingFields        // 400 "All fields are required"
    | CreateFailed         // 500 "Error adding question": the Question schema refused it
    | Added(id: nat)       // 201 "Question added"

  /** A present, non-empty string: the truthiness test of the guard. */
  predicate Given(s: Option<string>) {
    s.Some? && s.value != ""
  }

  /** What the Question schema accepts: a non-empty text and correct option, a category
      of `USER_CATEGORY_ENUM`, and every option with a non-empty id and text. */
  predicate ValidQuestion(q: Question) {
    && q.text != "" && q.correctOption != ""
    && q.category in UserCategoryEnum()
    && forall o :: o in q.options ==> o.id != "" && o.text != ""
  }

  /** `addQuestion`: the guard, then `Question.create`, which gives `marks` its default 1. */
  function AddQuestionSpec(questions: seq<Question>, body: QuestionBody): (seq<Question>, AddOutcome) {
    if !Given(body.text) || body.options.None? || !Given(body.correctOption) || !Given(body.category) then
      (questions, MissingFields)
    else
      var q := Question(body.text.value, body.options.value, body.correctOption.value, body.category.value,
                        body.marks.GetOr(1));
      if !ValidQuestion(q) then (questions, CreateFailed)
      else (questions + [q], Added(|questions|))
  }

  /** A question is added exactly when the four fields are given and the schema accepts
      it; it then goes at the end with the sent fields and marks 1 when none were sent.
      Otherwise nothing is stored. An empty option list is accepted. */
  lemma AddQuestionIff(questions: seq<Question>, body: QuestionBody)
    ensures var (after, outcome) := AddQuestionSpec(questions, body);
      && (outcome == MissingFields <==>
            body.text.None? || body.text == Some("") || body.options.None?
            || body.correctOption.None? || body.correctOption == Some("")
            || body.category.None? || body.category == Some(""))
      && (outcome.Added? <==>
            && Given(body.text) && body.options.Some? && Given(body.correctOption) && Given(body.category)
            && body.category.value in UserCategoryEnum()
            && forall o :: o in body.options.value ==> o.id != "" && o.text != "")
      && (!outcome.Added? ==> after == questions)
      && (outcome.Added? ==>
            && outcome.id == |questions|
            && after == questions + [Question(body.text.value, body.options.value, body.correctOption.value,
                                              body.category.value, if body.marks.Some? then body.marks.value else 1)])
  {
  }

  /** Only questions the schema accepts are ever stored. */
  lemma AddQuestionKeepsValid(questions: seq<Question>, body: QuestionBody)
    requires forall q :: q in questions ==> ValidQuestion(q)
    ensures forall q :: q in AddQuestionSpec(questions, body).0 ==> ValidQuestion(q)
  {
  }

  // ---------------------------------------------------------------- startExam

  /** `Question.find({ category }).select("-correctOption")`: the questions of the
      category, in store order, without their answers. */
  function Served(questions: seq<Question>, category: string): seq<PublicQuestion>
    decreases |questions|
  {
    if questions == [] then []
    else
      var k := |questions| - 1;
      var q := questions[k];
      Served(questions[..k], category)
        + (if q.category == category then [PublicQuestion(k, q.text, q.options, q.category, q.marks)] else [])
  }

  /** Every served question is a stored question of the category, stripped of its answer,
      and every stored question of the category is served. */
  lemma {:induction false} ServedExactly(questions: seq<Question>, category: string)
    ensures forall p :: p in Served(questions, category) ==>
      p.id < |questions| && questions[p.id].category == category
      && p == PublicQuestion(p.id, questions[p.id].text, questions[p.id].options, category, questions[p.id].marks)
    ensures forall i :: 0 <= i < |questions| && questions[i].category == category ==>
      exists p :: p in Served(questions, category) && p.id == i
    decreases |questions|
  {
    if questions != [] {
      var k := |questions| - 1;
      var prefix := questions[..k];
      ServedExactly(prefix, category);
      var q := questions[k];
      var top := if q.category == category then [PublicQuestion(k, q.text, q.options, q.category, q.marks)] else [];
      assert Served(questions, category) == Served(prefix, category) + top;
      forall i | 0 <= i < |questions| && questions[i].category == category
        ensures exists p :: p in Served(questions, category) && p.id == i
      {
        if i < k {
          assert prefix[i] == questions[i];
          var p :| p in Served(prefix, category) && p.id == i;
          assert p in Served(questions, category);
        } else {
          assert top[0] in Served(questions, category);
        }
      }
    }
  }

  /** Every stored question has a category of `USER_CATEGORY_ENUM`, so a user whose
      category is any other label, such as the User schema's "Class 11th / 12th" or
      "College", is served no question. */
  lemma {:induction false} UnlistedCategoryServedNothing(questions: seq<Question>, category: string)
    requires forall q :: q in questions ==> ValidQuestion(q)
    requires category !in UserCategoryEnum()
    ensures Served(questions, category) == []
    decreases |questions|
  {
    if questions != [] {
      var k := |questions| - 1;
      assert questions[k] in questions;
      assert forall q :: q in questions[..k] ==> q in questions;
      UnlistedCategoryServedNothing(questions[..k], category);
    }
  }

  datatype StartOutcome =
    | AlreadyAttempted                         // 403 "You have already attempted the exam."
    | NoQuestions                              // 404 "No questions found for your category."
    | Started(questions: seq<PublicQuestion>)  // 200

  /** The record `ExamResult.create({ user })` stores: score 0, no questions counted, in
      progress, started now. */
  function NewRecord(now: nat): ExamRecord {
    ExamRecord(0, 0, InProgress, now, None)
  }

  /** `startExam` for the user `userId` of category `category` at time `now`. */
  function StartExamSpec(results: map<nat, ExamRecord>, questions: seq<Question>, userId: nat, category: string,
                         now: nat): (map<nat, ExamRecord>, StartOutcome)
  {
    if userId in results then (results, AlreadyAttempted)
    else
      var served := Served(questions, category);
      (results[userId := NewRecord(now)], if served == [] then NoQuestions else Started(served))
  }

  /** A user with a record of any status is refused and nothing is created; any other user
      gets exactly one new record, in progress, even when no question is found, which uses
      up the attempt. */
  lemma StartExamOnce(results: map<nat, ExamRecord>, questions: seq<Question>, userId: nat, category: string, now: nat)
    ensures var (after, outcome) := StartExamSpec(results, questions, userId, category, now);
      && (outcome == AlreadyAttempted <==> userId in results)
      && (outcome == AlreadyAttempted ==> after == results)
      && (outcome != AlreadyAttempted ==>
            && after.Keys == results.Keys + {userId}
            && after[userId] == NewRecord(now)
            && (forall u :: u in results ==> after[u] == results[u])
            && (outcome == NoQuestions <==> Served(questions, category) == []))
  {
  }

  /** A second start is always refused. */
  lemma SecondStartRefused(results: map<nat, ExamRecord>, questions: seq<Question>, userId: nat, category: string,
                           now: nat, later: nat)
    ensures var after := StartExamSpec(results, questions, userId, category, now).0;
      StartExamSpec(after, questions, userId, category, later) == (after, AlreadyAttempted)
  {
  }

  // ---------------------------------------------------------------- submitExam

  /** What question `id` earns: its marks when an answer for it was sent and is exactly
      its correct option, else nothing. */
  function Earned(id: nat, q: Question, answers: map<nat, Val>): int {
    if id in answers && answers[id] == Str(q.correctOption) then q.marks else 0
  }

  /** The score of `answers`: the marks of every question whose answer matches. */
  function Score(questions: seq<Question>, answers: map<nat, Val>): int
    decreases |questions|
  {
    if questions == [] then 0
    else
      var k := |questions| - 1;
      Score(questions[..k], answers) + Earned(k, questions[k], answers)
  }

  /** The marks of the questions an answer was sent for. */
  function AnsweredMarks(questions: seq<Question>, answers: map<nat, Val>): int
    decreases |questions|
  {
    if questions == [] then 0
    else
      var k := |questions| - 1;
      AnsweredMarks(questions[..k], answers) + (if k in answers then questions[k].marks else 0)
  }

  /** The grading loop of `submitExam`: the fetched questions are those whose id is a key
      of `answers`, and each adds its marks when the answer is its correct option. */
  method Grade(questions: seq<Question>, answers: map<nat, Val>) returns (score: int)
    ensures score == Score(questions, answers)
  {
    score := 0;
    var k := 0;
    while k < |questions|
      invariant 0 <= k <= |questions|
      invariant score == Score(questions[..k], answers)
    {
      assert questions[..k + 1][..k] == questions[..k];
      var q := questions[k];
      if k in answers && answers[k] == Str(q.correctOption) {
        score := score + q.marks;
      }
      k := k + 1;
    }
    assert questions[..k] == questions;
  }

  /** With marks that are never negative, the score lies between 0 and the marks of the
      answered questions. */
  lemma {:induction false} ScoreBounds(questions: seq<Question>, answers: map<nat, Val>)
    requires forall q :: q in questions ==> q.marks >= 0
    ensures 0 <= Score(questions, answers) <= AnsweredMarks(questions, answers)
    decreases |questions|
  {
    if questions != [] {
      var k := |questions| - 1;
      assert questions[k] in questions;
      assert forall q :: q in questions[..k] ==> q in questions;
      ScoreBounds(questions[..k], answers);
    }
  }

  /** Answers for ids that name no question change nothing. */
  lemma {:induction false} ScoreIgnoresUnknownIds(questions: seq<Question>, answers: map<nat, Val>, id: nat, answer: Val)
    requires id >= |questions|
    ensures Score(questions, answers[id := answer]) == Score(questions, answers)
    decreases |questions|
  {
    if questions != [] {
      ScoreIgnoresUnknownIds(questions[..|questions| - 1], answers, id, answer);
    }
  }

  /** A wrong answer earns what no answer earns. */
  lemma {:induction false} ScoreIgnoresWrongAnswer(questions: seq<Question>, answers: map<nat, Val>, id: nat)
    requires id in answers && (id < |questions| ==> answers[id] != Str(questions[id].correctOption))
    ensures Score(questions, answers) == Score(questions, answers - {id})
    decreases |questions|
  {
    if questions != [] {
      var k := |questions| - 1;
      if id < k {
        assert questions[..k][id] == questions[id];
      }
      ScoreIgnoresWrongAnswer(questions[..k], answers, id);
    }
  }

  /** Answering question `id` correctly, instead of not answering it, adds exactly its
      marks. */
  lemma {:induction false} ScoreCountsCorrectAnswer(questions: seq<Question>, answers: map<nat, Val>, id: nat)
    requires id < |questions|
    ensures Score(questions, answers[id := Str(questions[id].correctOption)])
         == Score(questions, answers - {id}) + questions[id].marks
    decreases |questions|
  {
    var k := |questions| - 1;
    var correct := answers[id := Str(questions[id].correctOption)];
    if id < k {
      assert questions[..k][id] == questions[id];
      ScoreCountsCorrectAnswer(questions[..k], answers, id);
    } else {
      ScoreAgreesBelow(questions[..k], correct, answers - {id});
    }
  }

  /** Two answer sets that agree on every id below the number of questions score alike. */
  lemma {:induction false} ScoreAgreesBelow(questions: seq<Question>, a: map<nat, Val>, b: map<nat, Val>)
    requires forall id: nat :: id < |questions| ==> (id in a <==> id in b) && (id in a ==> a[id] == b[id])
    ensures Score(questions, a) == Score(questions, b)
    decreases |questions|
  {
    if questions != [] {
      ScoreAgreesBelow(questions[..|questions| - 1], a, b);
    }
  }

  datatype SubmitOutcome =
    | NoSession          // 404 "No exam session found."
    | AlreadySubmitted   // 400 "Exam already submitted."
    | SubmitError        // 500 "Error submitting exam": no `answers` object was sent
    | Submitted          // 200 "Exam submitted successfully"

  /** `submitExam` for the user `userId` at time `now`; `answers` is `None` when the body
      has no `answers` object, which makes `Object.keys` throw. */
  function SubmitExamSpec(results: map<nat, ExamRecord>, questions: seq<Question>, userId: nat,
                          answers: Option<map<nat, Val>>, now: nat): (map<nat, ExamRecord>, SubmitOutcome)
  {
    if userId !in results then (results, NoSession)
    else if results[userId].status != InProgress then (results, AlreadySubmitted)
    else if answers.None? then (results, SubmitError)
    else
      var record := results[userId].(score := Score(questions, answers.value), status := Completed, endTime := Some(now));
      (results[userId := record], Submitted)
  }

  /** Without a record, with a record no longer in progress, or without answers, nothing
      changes. Otherwise only the user's record changes: it is completed at `now` with the
      score of the answers, and keeps its start time. */
  lemma SubmitExamIff(results: map<nat, ExamRecord>, questions: seq<Question>, userId: nat,
                      answers: Option<map<nat, Val>>, now: nat)
    ensures var (after, outcome) := SubmitExamSpec(results, questions, userId, answers, now);
      && (outcome == NoSession <==> userId !in results)
      && (outcome == AlreadySubmitted <==> userId in results && results[userId].status != InProgress)
      && (outcome != Submitted ==> after == results)
      && (outcome == Submitted <==> userId in results && results[userId].status == InProgress && answers.Some?)
      && (outcome == Submitted ==>
            && after.Keys == results.Keys
            && (forall u :: u in results && u != userId ==> after[u] == results[u])
            && after[userId].status == Completed
            && after[userId].score == Score(questions, answers.value)
            && after[userId].endTime == Some(now)
            && after[userId].startTime == results[userId].startTime)
  {
  }

  /** After a submit went through, a second submit is refused and changes nothing. */
  lemma SecondSubmitRefused(results: map<nat, ExamRecord>, questions: seq<Question>, userId: nat,
                            answers: Option<map<nat, Val>>, now: nat, again: Option<map<nat, Val>>, later: nat)
    requires SubmitExamSpec(results, questions, userId, answers, now).1 == Submitted
    ensures var after := SubmitExamSpec(results, questions, userId, answers, now).0;
      SubmitExamSpec(after, questions, userId, again, later) == (after, AlreadySubmitted)
  {
  }

  /** Starting and then submitting with answers completes the user's attempt with the
      score of the answers. */
  lemma StartThenSubmit(results: map<nat, ExamRecord>, questions: seq<Question>, userId: nat, category: string,
                        now: nat, answers: map<nat, Val>, later: nat)
    requires userId !in results
    ensures var started := StartExamSpec(results, questions, userId, category, now).0;
      var (after, outcome) := SubmitExamSpec(started, questions, userId, Some(answers), later);
      outcome == Submitted
      && after[userId] == ExamRecord(Score(questions, answers), 0, Completed, now, Some(later))
  {
  }

  // ---------------------------------------------------------------- the store

  /** The question and exam-record collections, changed in place by the three handlers. */
  class ExamStore {
    var questions: seq<Question>
    var results: map<nat, ExamRecord>

    /** Every stored question passed the schema. */
    predicate Valid()
      reads this
    {
      forall q :: q in questions ==> ValidQuestion(q)
    }

    constructor()
      ensures Valid() && questions == [] && results == map[]
    {
      questions := [];
      results := map[];
    }

    /** `addQuestion`. */
    method AddQuestion(body: QuestionBody) returns (outcome: AddOutcome)
      requires Valid()
      modifies this
      ensures Valid()
      ensures (questions, outcome) == AddQuestionSpec(old(questions), body)
      ensures results == old(results)
    {
      if !Given(body.text) || body.options.None? || !Given(body.correctOption) || !Given(body.category) {
        return MissingFields;
      }
      var marks := if body.marks.Some? then body.marks.value else 1;
      var q := Question(body.text.value, body.options.value, body.correctOption.value, body.category.value, marks);
      if !ValidQuestion(q) {
        return CreateFailed;
      }
      AddQuestionKeepsValid(questions, body);
      outcome := Added(|questions|);
      questions := questions + [q];
    }

    /** `startExam` for the user `userId` of category `category` at time `now`. */
    method StartExam(userId: nat, category: string, now: nat) returns (outcome: StartOutcome)
      requires Valid()
      modifies this
      ensures Valid()
      ensures (results, outcome) == StartExamSpec(old(results), questions, userId, category, now)
      ensures questions == old(questions)
    {
      if userId in results {
        return AlreadyAttempted;
      }
      results := results[userId := NewRecord(now)];
      var served := Served(questions, category);
      if served == [] {
        outcome := NoQuestions;
      } else {
        outcome := Started(served);
      }
    }

    /** `submitExam` for the user `userId` at time `now`: the record is changed in place. */
    method SubmitExam(userId: nat, answers: Option<map<nat, Val>>, now: nat) returns (outcome: SubmitOutcome)
      requires Valid()
      modifies this
      ensures Valid()
      ensures (results, outcome) == SubmitExamSpec(old(results), questions, userId, answers, now)
      ensures questions == old(questions)
    {
      if userId !in results {
        return NoSession;
      }
      if results[userId].status != InProgress {
        return AlreadySubmitted;
      }
      if answers.None? {
        return SubmitError;
      }
      var score := Grade(questions, answers.value);
      var record := results[userId];
      record := record.(score := score);
      record := record.(status := Completed);
      record := record.(endTime := Some(now));
      results := results[userId := record];
      outcome := Submitted;
    }
  }
}
