/** The submission service and its event handlers, over tables updated in place. */
module SubmissionService {
  import opened Common
  import opened OrderedDict
  import opened AnswerGrading
  import opened StudentAnswers
  import opened Enrollment
  import opened SubmissionState
  import opened SubmissionInvariants

  /** Each method runs in one session: locals are flushed rows, the fields are what is committed. */
  class Service {
    var exams: map<Uuid, Exam>
    var submissions: map<Key, Submission>
    var attempts: seq<Attempt>
    const studentAnswers: StudentAnswerService
    var roll: Roll
    const batchSize: int
    var clock: nat

    ghost function State(): Db
      reads this, studentAnswers
    {
      Db(exams, submissions, attempts, studentAnswers.rows, roll, batchSize, clock)
    }

    constructor (writeBatchSize: int)
      ensures State() == Db(map[], map[], [], map[], Roll([], 0), writeBatchSize, 0)
      ensures Valid(State()) && fresh(studentAnswers)
    {
      exams, submissions, attempts, roll, clock := map[], map[], [], Roll([], 0), 0;
      batchSize := writeBatchSize;
      studentAnswers := new StudentAnswerService();
    }

    method CreateSubmission(k: Key)
      modifies this
      ensures State() == Start(old(State()), k)
    {
      if k !in submissions && k.exam in exams {
        submissions := submissions[k := NEW_SUBMISSION];
      }
    }

    /** The upserts of a submit; the first one also commits the flushed submission row. */
    method StoreAnswers(k: Key, items: seq<Item>)
      modifies this`submissions, studentAnswers
      ensures State() == StoreItems(old(State()), k, items)
    {
      var submission := if k in submissions then submissions[k] else NEW_SUBMISSION;
      for i := 0 to |items|
        invariant State() == StoreItems(old(State()), k, items[..i])
        invariant submission == if k in submissions then submissions[k] else NEW_SUBMISSION
      {
        assert items[..i + 1][..i] == items[..i];
        if items[i].question.Some? {
          studentAnswers.Upsert(k.student, k.exam, items[i].question.value, items[i].answer);
          submissions := submissions[k := submission];
        }
      }
      assert items[..|items|] == items;
    }

    method SubmitExam(k: Key, items: seq<Item>, stop: Option<nat>) returns (reply: SubmitReply)
      modifies this, studentAnswers
      ensures (State(), reply) == Submit(old(State()), k, items, stop)
    {
      if k.exam !in exams {
        return ExamNotFound;
      }
      if stop.Some? {
        StoreAnswers(k, if stop.value < |items| then items[..stop.value] else items);
        return Crashed;
      }
      StoreAnswers(k, items);
      ghost var stored := State();
      var submission := if k in submissions then submissions[k] else NEW_SUBMISSION;
      if exams[k.exam].maxAttempts.Some? && submission.attempts >= exams[k.exam].maxAttempts.value {
        return LimitReached;
      }
      var number := submission.attempts + 1;
      reply := Recorded(|attempts|, number);
      attempts := attempts + [Attempt(k, number, None, None, None)];
      submissions := submissions[k := submission.(attempts := number, status := Submitted, submittedAt := Some(clock))];
      clock := clock + 1;
      assert submissions == EnsureRow(stored, k).submissions[k := submissions[k]];
      assert State() == Record(stored, k);
    }

    method HandleUpsertStudentAnswer(c: Cell, answer: Raw)
      modifies studentAnswers
      ensures State() == SaveAnswer(old(State()), c, answer)
      ensures forall s, e :: AnswersFor(studentAnswers.rows, s, e) ==
                             if s == c.student && e == c.exam then AnswersFor(old(studentAnswers.rows), s, e)[c.question := answer]
                             else AnswersFor(old(studentAnswers.rows), s, e)
    {
      studentAnswers.Upsert(c.student, c.exam, c.question, answer);
      forall s, e {
        UpsertReads(old(studentAnswers.rows), c, answer, s, e);
      }
    }

    method GradeAttempt(id: nat, score: int)
      modifies this
      ensures State() == GradeByHand(old(State()), id, score)
    {
      if id >= |attempts| || attempts[id].key !in submissions {
        return;
      }
      var attempt := attempts[id].(score := Some(score), gradedAt := Some(clock + 1));
      var submission := submissions[attempt.key].(latest := Some(score), gradedAt := Some(clock + 2));
      if Storable(Some(score)) {
        attempts := attempts[id := attempt];
        submissions := submissions[attempt.key := submission];
        clock := clock + 3;
      }
    }

    /** Reads the questions and answers of this delivery and grades them. */
    method GradeDelivered(d: Delivery) returns (score: Option<int>, graded: Dict<Uuid, Entry>)
      requires ExamsFit(State()) && d.attempt < |attempts|
      ensures score == ScoreFor(State(), d)
      ensures graded == ItemsFor(State(), d)
      ensures DistinctKeys(graded)
    {
      var rows := if d.exam in exams then exams[d.exam].questions else [];
      var answers := AnswersFor(studentAnswers.rows, attempts[d.attempt].key.student, d.exam);
      if d.exam in exams {
        assert ValidExam(State().exams[d.exam]);
      }
      score, graded := GradeAnswersBatch(rows, answers, d.ready, d.tries);
      GradedItemsRecord(PlanFor(State(), d), answers, rows);
      if rows == [] {
        assert ItemsFor(State(), d) == [];
      }
    }

    method HandleGradeSubmissionAttempt(d: Delivery)
      requires ExamsFit(State())
      modifies this, studentAnswers
      ensures State() == Deliver(old(State()), d)
    {
      hide ScoreFor, ItemsFor, WriteBack;
      if d.attempt >= |attempts| || (d.checkOk && attempts[d.attempt].score.Some?) {
        return;
      }
      var attempt := attempts[d.attempt];
      if attempt.key !in submissions {
        return;
      }
      var submission := submissions[attempt.key];
      submission := submission.(status := GradingInProgress);
      attempt := attempt.(startedAt := Some(clock));
      var score, graded := GradeDelivered(d);
      if d.fault.BeforeCommit? || !Storable(score) {
        return;
      }
      attempt := attempt.(score := score, gradedAt := Some(clock + 1));
      submission := submission.(latest := score, gradedAt := Some(clock + 2), status := Graded);
      attempts := attempts[d.attempt := attempt];
      submissions := submissions[attempt.key := submission];
      clock := clock + 3;
      assert State() == Commit(old(State()), d.attempt, score, true);
      if d.fault.BeforeWriteBack? {
        return;
      }
      var written := studentAnswers.BulkUpsertGraded(attempt.key.student, d.exam, graded, batchSize);
    }

    method HandleForceSubmitExam(exam: Uuid)
      modifies this
      ensures State() == ForceSubmit(old(State()), exam)
    {
      if exam !in exams || exams[exam].course.None? {
        return;
      }
      var unsubmitted := CollectUnsubmitted(exam, exams[exam].course.value);
      var submittedAt := if exams[exam].endTime.Some? then exams[exam].endTime.value else clock;
      var newSubmissions, newAttempts := submissions, attempts;
      ghost var db := State();
      InsertForcedNone(db, exam, submittedAt);
      for i := 0 to |unsubmitted|
        invariant State() == db
        invariant InsertForced(db, exam, unsubmitted[..i], submittedAt)
               == Some(db.(submissions := newSubmissions, attempts := newAttempts))
      {
        InsertForcedNext(db, exam, unsubmitted, submittedAt, i);
        var k := Key(unsubmitted[i], exam);
        if k in newSubmissions {
          BrokenIndexStays(db, exam, unsubmitted, submittedAt, i + 1);
          return;
        }
        newSubmissions := newSubmissions[k := Submission(1, Submitted, None, Some(submittedAt), None)];
        newAttempts := newAttempts + [Attempt(k, 1, None, None, None)];
      }
      assert unsubmitted[..|unsubmitted|] == unsubmitted;
      submissions, attempts := newSubmissions, newAttempts;
    }

    /** The two queries of the handler and the comparison of their results. */
    method CollectUnsubmitted(exam: Uuid, course: Uuid) returns (unsubmitted: seq<Uuid>)
      ensures unsubmitted == Unsubmitted(roll.rows, course, exam, submissions)
    {
      unsubmitted := [];
      for i := 0 to |roll.rows|
        invariant unsubmitted == Unsubmitted(roll.rows[..i], course, exam, submissions)
      {
        assert roll.rows[..i + 1][..i] == roll.rows[..i];
        var e := roll.rows[i];
        if e.course == course && e.status.Active? && Key(e.student, exam) !in submissions {
          unsubmitted := unsubmitted + [e.student];
        }
      }
      assert roll.rows[..|roll.rows|] == roll.rows;
    }
  }

  lemma InsertForcedNone(db: Db, exam: Uuid, at: int)
    ensures InsertForced(db, exam, [], at) == Some(db)
  {
  }

  /** One more student: a new submission with one attempt, or a broken index. */
  lemma InsertForcedNext(db: Db, exam: Uuid, students: seq<Uuid>, at: int, i: nat)
    requires i < |students| && InsertForced(db, exam, students[..i], at).Some?
    ensures var session := InsertForced(db, exam, students[..i], at).value;
            var k := Key(students[i], exam);
            InsertForced(db, exam, students[..i + 1], at) ==
              if k in session.submissions then None
              else Some(session.(submissions := session.submissions[k := Submission(1, Submitted, None, Some(at), None)],
                                 attempts := session.attempts + [Attempt(k, 1, None, None, None)]))
  {
    assert students[..i + 1][..i] == students[..i];
    var session, k := InsertForced(db, exam, students[..i], at).value, Key(students[i], exam);
    if k !in session.submissions {
      var row := Submission(1, Submitted, None, Some(at), None);
      assert session.submissions[k := NEW_SUBMISSION][k := row] == session.submissions[k := row];
    }
  }

  lemma {:induction false} BrokenIndexStays(db: Db, exam: Uuid, students: seq<Uuid>, at: int, k: nat)
    requires k <= |students| && InsertForced(db, exam, students[..k], at).None?
    ensures InsertForced(db, exam, students, at).None?
  {
    if k < |students| {
      assert students[..|students| - 1][..k] == students[..k];
      BrokenIndexStays(db, exam, students[..|students| - 1], at, k);
    } else {
      assert students[..k] == students;
    }
  }
}
