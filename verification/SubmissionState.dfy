/**
  The committed tables of the submission and grading protocol, and what each
  service call or event handler does to them, crashes included.
*/
module SubmissionState {
  import opened Common
  import opened OrderedDict
  import opened AnswerGrading
  import opened StudentAnswers
  import opened Enrollment
  import opened ExamClock

  /** uq_submissions_student_exam: one submission per student and exam. */
  datatype Key = Key(student: Uuid, exam: Uuid)

  datatype Status = Pending | Submitted | GradingInProgress | Graded

  datatype Submission = Submission(
    attempts: nat, status: Status, latest: Option<int>, submittedAt: Option<int>, gradedAt: Option<nat>)

  datatype Attempt = Attempt(
    key: Key, number: nat, score: Option<int>, startedAt: Option<nat>, gradedAt: Option<nat>)

  /** An exam with the rows its question query returns. */
  datatype Exam = Exam(
    maxAttempts: Option<int>, course: Option<Uuid>, endTime: Option<int>, status: ExamStatus, questions: seq<Row>)

  /** Attempt ids are positions. The clock moves on with every reading of now(). */
  datatype Db = Db(
    exams: map<Uuid, Exam>, submissions: map<Key, Submission>, attempts: seq<Attempt>, answers: Table,
    roll: Roll, batchSize: int, clock: nat)

  // ---- start and submit ----------------------------------------------------

  const NEW_SUBMISSION := Submission(0, Pending, None, None, None)

  function EnsureRow(db: Db, k: Key): Db {
    if k in db.submissions then db else db.(submissions := db.submissions[k := NEW_SUBMISSION])
  }

  /** create_submission: a row without attempts, unless there is one already. */
  function Start(db: Db, k: Key): Db {
    if k.exam in db.exams then EnsureRow(db, k) else db
  }

  /** One entry of the submitted answers; a key that is no UUID is skipped. */
  datatype Item = Item(question: Option<Uuid>, answer: Raw)

  /** Every stored answer commits, and with the first one the submission row. */
  function StoreItems(db: Db, k: Key, items: seq<Item>): Db {
    if items == [] then db
    else
      var d := StoreItems(db, k, items[..|items| - 1]);
      var last := items[|items| - 1];
      if last.question.None? then d
      else
        var e := EnsureRow(d, k);
        e.(answers := e.answers[Cell(k.student, k.exam, last.question.value) := last.answer])
  }

  function AddAttempt(db: Db, k: Key, at: int): Db
    requires k in db.submissions
  {
    var sub := db.submissions[k];
    db.(attempts := db.attempts + [Attempt(k, sub.attempts + 1, None, None, None)],
        submissions := db.submissions[k := sub.(attempts := sub.attempts + 1, status := Submitted,
                                                submittedAt := Some(at))])
  }

  /** The next attempt, on a new submission row if there is none. */
  function Record(db: Db, k: Key): Db {
    AddAttempt(EnsureRow(db, k), k, db.clock).(clock := db.clock + 1)
  }

  datatype SubmitReply = ExamNotFound | LimitReached | Crashed | Recorded(attempt: nat, number: nat)

  function AttemptsSoFar(db: Db, k: Key): nat {
    if k in db.submissions then db.submissions[k].attempts else 0
  }

  predicate AtLimit(db: Db, k: Key) {
    k.exam in db.exams && db.exams[k.exam].maxAttempts.Some? &&
    AttemptsSoFar(db, k) >= db.exams[k.exam].maxAttempts.value
  }

  /** submit_exam; stop = Some(n) is a crash after n of the submitted answers. */
  function Submit(db: Db, k: Key, items: seq<Item>, stop: Option<nat>): (Db, SubmitReply) {
    if k.exam !in db.exams then (db, ExamNotFound)
    else if stop.Some? then
      (StoreItems(db, k, if stop.value < |items| then items[..stop.value] else items), Crashed)
    else
      var stored := StoreItems(db, k, items);
      if AtLimit(stored, k) then (stored, LimitReached)
      else (Record(stored, k), Recorded(|db.attempts|, AttemptsSoFar(stored, k) + 1))
  }

  /** handle_upsert_student_answer */
  function SaveAnswer(db: Db, c: Cell, answer: Raw): Db {
    db.(answers := db.answers[c := answer])
  }

  // ---- grading -------------------------------------------------------------

  /** The score columns are Numeric(5,2) with a non-negative check. */
  predicate Storable(score: Option<int>) {
    score.Some? ==> 0 <= score.value < 100000
  }

  /** The one commit that sets the grading fields of an attempt and of its submission. */
  function Commit(db: Db, id: nat, score: Option<int>, byWorker: bool): Db
    requires id < |db.attempts| && db.attempts[id].key in db.submissions
  {
    var a := db.attempts[id];
    var sub := db.submissions[a.key];
    var started := if byWorker then Some(db.clock) else a.startedAt;
    db.(attempts := db.attempts[id := a.(score := score, startedAt := started, gradedAt := Some(db.clock + 1))],
        submissions := db.submissions[a.key :=
          sub.(latest := score, gradedAt := Some(db.clock + 2), status := if byWorker then Graded else sub.status)],
        clock := db.clock + 3)
  }

  /** Where a grading run dies, if it does. */
  datatype Fault = NoFault | BeforeCommit | BeforeWriteBack

  /** One delivery of a grading event, with the AI replies it sees and its fate. */
  datatype Delivery = Delivery(attempt: nat, exam: Uuid, checkOk: bool, ready: bool, tries: BatchTries, fault: Fault)

  function QuestionsOf(db: Db, exam: Uuid): seq<Row> {
    if exam in db.exams then db.exams[exam].questions else []
  }

  function AnswersSeen(db: Db, d: Delivery): AnswerMap
    requires d.attempt < |db.attempts|
  {
    AnswersFor(db.answers, db.attempts[d.attempt].key.student, d.exam)
  }

  function PlanFor(db: Db, d: Delivery): Plan {
    InOneCall(TheoryOutcome(d.ready, Select(QuestionsOf(db, d.exam), true), d.tries))
  }

  /** An exam without questions is graded with no score at all. */
  function ScoreFor(db: Db, d: Delivery): Option<int>
    requires d.attempt < |db.attempts|
  {
    var rows := QuestionsOf(db, d.exam);
    if rows == [] then None else Some(TotalOf(PlanFor(db, d), AnswersSeen(db, d), rows))
  }

  function ItemsFor(db: Db, d: Delivery): Dict<Uuid, Entry>
    requires d.attempt < |db.attempts|
  {
    GradedItems(PlanFor(db, d), AnswersSeen(db, d), QuestionsOf(db, d.exam))
  }

  predicate Scored(db: Db, id: nat) {
    id < |db.attempts| && db.attempts[id].score.Some?
  }

  /** Does the delivery get as far as its first commit? */
  predicate Commits(db: Db, d: Delivery) {
    d.attempt < |db.attempts| && db.attempts[d.attempt].key in db.submissions &&
    !(d.checkOk && Scored(db, d.attempt)) && !d.fault.BeforeCommit? && Storable(ScoreFor(db, d))
  }

  /** handle_grade_submission_attempt with grade_attempt_background. */
  function Deliver(db: Db, d: Delivery): Db {
    if !Commits(db, d) then db
    else
      var c := Commit(db, d.attempt, ScoreFor(db, d), true);
      if d.fault.BeforeWriteBack? || db.batchSize <= 0 then c
      else c.(answers := WriteBack(c.answers, db.attempts[d.attempt].key.student, d.exam, ItemsFor(db, d)))
  }

  /** grade_attempt by a lecturer. */
  function GradeByHand(db: Db, id: nat, score: int): Db {
    if id < |db.attempts| && db.attempts[id].key in db.submissions && Storable(Some(score))
    then Commit(db, id, Some(score), false) else db
  }

  // ---- force submission ----------------------------------------------------

  /** Students of the active enrollments in a course who have no submission for the exam, row by row. */
  function Unsubmitted(rows: seq<Enrolled>, course: Uuid, exam: Uuid, submissions: map<Key, Submission>): seq<Uuid> {
    if rows == [] then []
    else
      var last := rows[|rows| - 1];
      Unsubmitted(rows[..|rows| - 1], course, exam, submissions) +
      if last.course == course && last.status.Active? && Key(last.student, exam) !in submissions
      then [last.student] else []
  }

  ghost predicate Distinct(students: seq<Uuid>) {
    forall i, j :: 0 <= i < j < |students| ==> students[i] != students[j]
  }

  /** The rows of the handler's session; None when a second row for one key breaks the unique index. */
  function InsertForced(db: Db, exam: Uuid, students: seq<Uuid>, at: int): Option<Db> {
    if students == [] then Some(db)
    else
      var earlier := InsertForced(db, exam, students[..|students| - 1], at);
      var k := Key(students[|students| - 1], exam);
      if earlier.None? || k in earlier.value.submissions then None
      else Some(AddAttempt(EnsureRow(earlier.value, k), k, at))
  }

  function ForceSubmitAt(db: Db, exam: Uuid): int
    requires exam in db.exams
  {
    if db.exams[exam].endTime.Some? then db.exams[exam].endTime.value else db.clock
  }

  /** handle_force_submit_exam: all rows or, on a broken index, none. */
  function ForceSubmit(db: Db, exam: Uuid): Db {
    if exam !in db.exams || db.exams[exam].course.None? then db
    else
      var students := Unsubmitted(db.roll.rows, db.exams[exam].course.value, exam, db.submissions);
      match InsertForced(db, exam, students, ForceSubmitAt(db, exam))
      case None => db
      case Some(session) => session
  }

  // ---- runs ----------------------------------------------------------------

  /** The constraints on an exam row: positive limit, question ids unique. */
  ghost predicate ValidExam(e: Exam) {
    DistinctIds(e.questions) && (e.maxAttempts.Some? ==> e.maxAttempts.value > 0)
  }

  datatype Event =
    | Started(key: Key)
    | SubmittedExam(key: Key, items: seq<Item>, stop: Option<nat>)
    | AnswerSaved(cell: Cell, answer: Raw)
    | GradingDelivered(delivery: Delivery)
    | GradedByHand(attempt: nat, score: int)
    | ForceSubmitted(exam: Uuid)
    | ExamEdited(exam: Uuid, row: Exam)
    | EnrollRequested(requests: seq<Request>, insertWorks: bool)
    | EnrollmentUpdated(id: Uuid, newStatus: Option<EnrollmentStatus>)
    | EnrollmentRemoved(id: Uuid, allowed: bool)

  ghost function Step(db: Db, e: Event): Db {
    match e
    case Started(k) => Start(db, k)
    case SubmittedExam(k, items, stop) => Submit(db, k, items, stop).0
    case AnswerSaved(c, answer) => SaveAnswer(db, c, answer)
    case GradingDelivered(d) => Deliver(db, d)
    case GradedByHand(id, score) => GradeByHand(db, id, score)
    case ForceSubmitted(exam) => ForceSubmit(db, exam)
    case ExamEdited(exam, row) => if ValidExam(row) then db.(exams := db.exams[exam := row]) else db
    case EnrollRequested(requests, insertWorks) =>
      db.(roll := if insertWorks then Bulk(db.roll, requests) else BulkAsWritten(db.roll, requests).0)
    case EnrollmentUpdated(id, status) => db.(roll := Update(db.roll, id, status))
    case EnrollmentRemoved(id, allowed) => db.(roll := Remove(db.roll, id, allowed))
  }

  ghost function Run(db: Db, events: seq<Event>): Db
    decreases |events|
  {
    if events == [] then db else Run(Step(db, events[0]), events[1..])
  }
}

/** What every step, and so every run, keeps. */
module SubmissionInvariants {
  import opened Common
  import opened StudentAnswers
  import opened Enrollment
  import opened SubmissionState

  /** The attempt numbers of one submission, oldest attempt first. */
  function Numbers(attempts: seq<Attempt>, k: Key): seq<nat> {
    if attempts == [] then []
    else
      var last := attempts[|attempts| - 1];
      Numbers(attempts[..|attempts| - 1], k) + if last.key == k then [last.number] else []
  }

  function OneTo(n: nat): seq<nat> {
    seq(n, i => i + 1)
  }

  /** Every submission's attempts are numbered 1..attempts in order, without gap or repeat. */
  ghost predicate Numbered(db: Db) {
    (forall i :: 0 <= i < |db.attempts| ==> db.attempts[i].key in db.submissions) &&
    (forall k :: k in db.submissions ==> Numbers(db.attempts, k) == OneTo(db.submissions[k].attempts))
  }

  /** Pending exactly while there is no attempt; "grading in progress" is never committed. */
  ghost predicate StatusFits(db: Db) {
    forall k :: k in db.submissions ==>
      (db.submissions[k].status.Pending? <==> db.submissions[k].attempts == 0) &&
      !db.submissions[k].status.GradingInProgress? &&
      (db.submissions[k].status.Graded? ==> db.submissions[k].gradedAt.Some?)
  }

  /** Attempt i of k is graded, later than every other attempt of k. */
  ghost predicate LastGraded(db: Db, k: Key, i: nat) {
    i < |db.attempts| && db.attempts[i].key == k && db.attempts[i].gradedAt.Some? &&
    forall j :: 0 <= j < |db.attempts| && j != i && db.attempts[j].key == k && db.attempts[j].gradedAt.Some? ==>
      db.attempts[j].gradedAt.value < db.attempts[i].gradedAt.value
  }

  /** latest_score is the score of the attempt graded last. */
  ghost predicate LatestFits(db: Db, k: Key)
    requires k in db.submissions
  {
    var sub := db.submissions[k];
    if sub.gradedAt.None? then
      sub.latest.None? && forall j :: 0 <= j < |db.attempts| && db.attempts[j].key == k ==> db.attempts[j].gradedAt.None?
    else
      exists i: nat :: LastGraded(db, k, i) && db.attempts[i].score == sub.latest &&
                       sub.gradedAt.value == db.attempts[i].gradedAt.value + 1
  }

  ghost predicate GradingFits(db: Db) {
    (forall i :: 0 <= i < |db.attempts| ==>
      (db.attempts[i].score.Some? ==> db.attempts[i].gradedAt.Some?) &&
      (db.attempts[i].gradedAt.Some? ==> db.attempts[i].gradedAt.value < db.clock)) &&
    (forall k :: k in db.submissions ==> LatestFits(db, k))
  }

  ghost predicate ExamsFit(db: Db) {
    forall e :: e in db.exams ==> ValidExam(db.exams[e])
  }

  ghost predicate Valid(db: Db) {
    Numbered(db) && StatusFits(db) && GradingFits(db) && ExamsFit(db) && ValidRoll(db.roll)
  }

  // ---- primitive changes ---------------------------------------------------

  lemma {:induction false} NumbersNone(attempts: seq<Attempt>, k: Key)
    requires forall i :: 0 <= i < |attempts| ==> attempts[i].key != k
    ensures Numbers(attempts, k) == []
  {
    if attempts != [] {
      NumbersNone(attempts[..|attempts| - 1], k);
    }
  }

  lemma {:induction false} NumbersSame(a: seq<Attempt>, b: seq<Attempt>, k: Key)
    requires |a| == |b|
    requires forall i :: 0 <= i < |a| ==> a[i].key == b[i].key && a[i].number == b[i].number
    ensures Numbers(a, k) == Numbers(b, k)
  {
    if a != [] {
      NumbersSame(a[..|a| - 1], b[..|b| - 1], k);
    }
  }

  lemma NumbersAppend(attempts: seq<Attempt>, a: Attempt, k: Key)
    ensures Numbers(attempts + [a], k) == Numbers(attempts, k) + if a.key == k then [a.number] else []
  {
    assert (attempts + [a])[..|attempts|] == attempts;
  }

  lemma EnsureRowKeepsValid(db: Db, k: Key)
    requires Valid(db)
    ensures Valid(EnsureRow(db, k))
  {
    var db' := EnsureRow(db, k);
    if k !in db.submissions {
      NumbersNone(db.attempts, k);
    }
    forall q | q in db'.submissions
      ensures LatestFits(db', q)
    {
      if q in db.submissions {
        LatestCarries(db, db', q);
      }
    }
  }

  lemma LatestCarries(db: Db, db': Db, k: Key)
    requires k in db.submissions && LatestFits(db, k)
    requires k in db'.submissions && db'.attempts == db.attempts
    requires db'.submissions[k] == db.submissions[k]
    ensures LatestFits(db', k)
  {
    if db.submissions[k].gradedAt.Some? {
      var i: nat :| LastGraded(db, k, i) && db.attempts[i].score == db.submissions[k].latest &&
                    db.submissions[k].gradedAt.value == db.attempts[i].gradedAt.value + 1;
      assert LastGraded(db', k, i);
    }
  }

  lemma AddAttemptKeepsNumbers(db: Db, k: Key, at: int)
    requires Numbered(db) && k in db.submissions
    ensures Numbered(AddAttempt(db, k, at))
  {
    var db' := AddAttempt(db, k, at);
    forall q | q in db'.submissions
      ensures Numbers(db'.attempts, q) == OneTo(db'.submissions[q].attempts)
    {
      NumbersAppend(db.attempts, db'.attempts[|db.attempts|], q);
    }
  }

  lemma AddAttemptKeepsGrading(db: Db, k: Key, at: int)
    requires GradingFits(db) && k in db.submissions
    ensures GradingFits(AddAttempt(db, k, at))
  {
    hide LatestFits;
    var db' := AddAttempt(db, k, at);
    forall q | q in db'.submissions
      ensures LatestFits(db', q)
    {
      LatestAfterAppend(db, db', q);
    }
  }

  lemma AddAttemptKeepsValid(db: Db, k: Key, at: int)
    requires Valid(db) && k in db.submissions
    ensures Valid(AddAttempt(db, k, at))
  {
    hide Numbered, GradingFits;
    AddAttemptKeepsNumbers(db, k, at);
    AddAttemptKeepsGrading(db, k, at);
  }

  lemma LatestAfterAppend(db: Db, db': Db, k: Key)
    requires k in db.submissions && LatestFits(db, k)
    requires |db'.attempts| == |db.attempts| + 1 && db'.attempts[..|db.attempts|] == db.attempts
    requires db'.attempts[|db.attempts|].gradedAt.None?
    requires k in db'.submissions
    requires db'.submissions[k].latest == db.submissions[k].latest && db'.submissions[k].gradedAt == db.submissions[k].gradedAt
    ensures LatestFits(db', k)
  {
    assert forall j :: 0 <= j < |db.attempts| ==> db'.attempts[j] == db.attempts[j];
    if db.submissions[k].gradedAt.Some? {
      var i: nat :| LastGraded(db, k, i) && db.attempts[i].score == db.submissions[k].latest &&
                    db.submissions[k].gradedAt.value == db.attempts[i].gradedAt.value + 1;
      assert LastGraded(db', k, i);
    }
  }

  lemma CommitKeepsValid(db: Db, id: nat, score: Option<int>, byWorker: bool)
    requires Valid(db) && id < |db.attempts|
    ensures Valid(Commit(db, id, score, byWorker))
  {
    var db' := Commit(db, id, score, byWorker);
    var k := db.attempts[id].key;
    CommitKeepsNumbers(db, id, score, byWorker);
    HasAttempts(db, id);
    forall q | q in db'.submissions
      ensures LatestFits(db', q)
    {
      if q == k {
        assert LastGraded(db', k, id);
      } else {
        LatestElsewhere(db, db', id, q);
      }
    }
  }

  lemma CommitKeepsNumbers(db: Db, id: nat, score: Option<int>, byWorker: bool)
    requires Numbered(db) && id < |db.attempts|
    ensures Numbered(Commit(db, id, score, byWorker))
  {
    var db' := Commit(db, id, score, byWorker);
    forall q | q in db'.submissions
      ensures Numbers(db'.attempts, q) == OneTo(db'.submissions[q].attempts)
    {
      NumbersSame(db.attempts, db'.attempts, q);
    }
  }

  lemma LatestElsewhere(db: Db, db': Db, id: nat, q: Key)
    requires id < |db.attempts| && db.attempts[id].key != q && q in db.submissions && LatestFits(db, q)
    requires |db'.attempts| == |db.attempts| && db'.attempts[id].key == db.attempts[id].key
    requires forall j :: 0 <= j < |db.attempts| && j != id ==> db'.attempts[j] == db.attempts[j]
    requires q in db'.submissions && db'.submissions[q] == db.submissions[q]
    ensures LatestFits(db', q)
  {
    if db.submissions[q].gradedAt.Some? {
      var i: nat :| LastGraded(db, q, i) && db.attempts[i].score == db.submissions[q].latest &&
                    db.submissions[q].gradedAt.value == db.attempts[i].gradedAt.value + 1;
      assert LastGraded(db', q, i);
    }
  }

  lemma {:induction false} NumbersCount(attempts: seq<Attempt>, id: nat)
    requires id < |attempts|
    ensures |Numbers(attempts, attempts[id].key)| > 0
  {
    if id < |attempts| - 1 {
      NumbersCount(attempts[..|attempts| - 1], id);
    }
  }

  /** A submission with an attempt is not pending. */
  lemma HasAttempts(db: Db, id: nat)
    requires Numbered(db) && id < |db.attempts|
    ensures db.submissions[db.attempts[id].key].attempts > 0
  {
    NumbersCount(db.attempts, id);
  }

  // ---- steps and runs ------------------------------------------------------

  lemma ValidElsewhere(db: Db, db': Db)
    requires Valid(db)
    requires db'.submissions == db.submissions && db'.attempts == db.attempts && db'.clock >= db.clock
    requires ExamsFit(db') && ValidRoll(db'.roll)
    ensures Valid(db')
  {
    forall k | k in db'.submissions
      ensures LatestFits(db', k)
    {
      LatestCarries(db, db', k);
    }
  }

  lemma {:induction false} StoreItemsKeepsValid(db: Db, k: Key, items: seq<Item>)
    requires Valid(db)
    ensures Valid(StoreItems(db, k, items))
    ensures var d := StoreItems(db, k, items);
            d.exams == db.exams && d.attempts == db.attempts && d.clock == db.clock && d.roll == db.roll &&
            d.batchSize == db.batchSize && AttemptsSoFar(d, k) == AttemptsSoFar(db, k)
  {
    if items != [] {
      var init := items[..|items| - 1];
      StoreItemsKeepsValid(db, k, init);
      var d := StoreItems(db, k, init);
      EnsureRowKeepsValid(d, k);
      if items[|items| - 1].question.Some? {
        ValidElsewhere(EnsureRow(d, k), StoreItems(db, k, items));
      }
    }
  }

  lemma SubmitKeepsValid(db: Db, k: Key, items: seq<Item>, stop: Option<nat>)
    requires Valid(db)
    ensures Valid(Submit(db, k, items, stop).0)
  {
    StoreItemsKeepsValid(db, k, items);
    if stop.Some? && stop.value < |items| {
      StoreItemsKeepsValid(db, k, items[..stop.value]);
    }
    RecordKeepsValid(StoreItems(db, k, items), k);
  }

  lemma RecordKeepsValid(db: Db, k: Key)
    requires Valid(db)
    ensures Valid(Record(db, k))
  {
    EnsureRowKeepsValid(db, k);
    AddAttemptKeepsValid(EnsureRow(db, k), k, db.clock);
    ValidElsewhere(AddAttempt(EnsureRow(db, k), k, db.clock), Record(db, k));
  }

  lemma DeliverKeepsValid(db: Db, d: Delivery)
    requires Valid(db)
    ensures Valid(Deliver(db, d))
  {
    hide ScoreFor, ItemsFor, WriteBack, Numbered, StatusFits, GradingFits;
    if Commits(db, d) {
      CommitKeepsValid(db, d.attempt, ScoreFor(db, d), true);
      ValidElsewhere(Commit(db, d.attempt, ScoreFor(db, d), true), Deliver(db, d));
    }
  }

  lemma {:induction false} InsertForcedKeepsValid(db: Db, exam: Uuid, students: seq<Uuid>, at: int)
    requires Valid(db)
    ensures InsertForced(db, exam, students, at).Some? ==>
              Valid(InsertForced(db, exam, students, at).value) &&
              InsertForced(db, exam, students, at).value.clock == db.clock
  {
    if students != [] {
      InsertForcedKeepsValid(db, exam, students[..|students| - 1], at);
      var earlier := InsertForced(db, exam, students[..|students| - 1], at);
      var k := Key(students[|students| - 1], exam);
      if earlier.Some? && k !in earlier.value.submissions {
        EnsureRowKeepsValid(earlier.value, k);
        AddAttemptKeepsValid(EnsureRow(earlier.value, k), k, at);
      }
    }
  }

  lemma ForceSubmitKeepsValid(db: Db, exam: Uuid)
    requires Valid(db)
    ensures Valid(ForceSubmit(db, exam))
  {
    if exam in db.exams && db.exams[exam].course.Some? {
      var students := Unsubmitted(db.roll.rows, db.exams[exam].course.value, exam, db.submissions);
      InsertForcedKeepsValid(db, exam, students, ForceSubmitAt(db, exam));
    }
  }

  /** Every service call, handler run and crash point keeps the invariant. */
  lemma StepKeepsValid(db: Db, e: Event)
    requires Valid(db)
    ensures Valid(Step(db, e))
  {
    hide Submit, ForceSubmit, Deliver, Commit, Numbered, StatusFits, GradingFits;
    match e
    case Started(k) =>
      EnsureRowKeepsValid(db, k);
    case SubmittedExam(k, items, stop) =>
      SubmitKeepsValid(db, k, items, stop);
    case AnswerSaved(c, answer) =>
      ValidElsewhere(db, Step(db, e));
    case GradingDelivered(d) =>
      DeliverKeepsValid(db, d);
    case GradedByHand(id, score) =>
      if id < |db.attempts| {
        CommitKeepsValid(db, id, Some(score), false);
      }
    case ForceSubmitted(exam) =>
      ForceSubmitKeepsValid(db, exam);
    case ExamEdited(exam, row) =>
      ValidElsewhere(db, Step(db, e));
    case EnrollRequested(requests, insertWorks) =>
      BulkKeepsValid(db.roll, requests);
      BulkAsWrittenKeepsValid(db.roll, requests);
      ValidElsewhere(db, Step(db, e));
    case EnrollmentUpdated(id, status) =>
      UpdateKeepsValid(db.roll, id, status);
      ValidElsewhere(db, Step(db, e));
    case EnrollmentRemoved(id, allowed) =>
      RemoveKeepsValid(db.roll.rows, db.roll.nextId, id);
      ValidElsewhere(db, Step(db, e));
  }

  /** Numbering, status, latest score and enrollment uniqueness hold after every run. */
  lemma {:induction false} RunKeepsValid(db: Db, events: seq<Event>)
    requires Valid(db)
    ensures Valid(Run(db, events))
    decreases |events|
  {
    if events != [] {
      StepKeepsValid(db, events[0]);
      RunKeepsValid(Step(db, events[0]), events[1..]);
    }
  }
}
