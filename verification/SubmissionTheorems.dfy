/** Safety of the submission and grading protocol over whole runs. */
module SubmissionTheorems {
  import opened Common
  import opened OrderedDict
  import opened AnswerGrading
  import opened StudentAnswers
  import opened Enrollment
  import opened SubmissionState
  import opened SubmissionInvariants

  // ---- starting ------------------------------------------------------------

  /** Starting adds at most the one row, without attempts, and never touches a row that is there. */
  lemma StartMeaning(db: Db, k: Key)
    ensures var db' := Step(db, Started(k));
            db' == Start(db, k) &&
            (k in db'.submissions <==> k in db.submissions || k.exam in db.exams) &&
            (forall q :: q in db'.submissions ==>
              if q in db.submissions then db'.submissions[q] == db.submissions[q]
              else q == k && db'.submissions[q] == Submission(0, Pending, None, None, None)) &&
            db.submissions.Keys <= db'.submissions.Keys && db' == db.(submissions := db'.submissions)
  {
  }

  /** A submission once there stays there, so another start at any later time changes nothing. */
  lemma {:induction false} StartedForGood(db: Db, events: seq<Event>, k: Key)
    requires Valid(db) && k in db.submissions
    ensures k in Run(db, events).submissions
    ensures Start(Run(db, events), k) == Run(db, events)
    decreases |events|
  {
    if events != [] {
      hide Step, Valid;
      StepKeepsValid(db, events[0]);
      GradingIsAtomic(db, events[0], k);
      StartedForGood(Step(db, events[0]), events[1..], k);
    }
  }

  /** An answer saved at any time is what its student reads back, and nobody else's reading changes. */
  lemma SavedAnswerReads(db: Db, c: Cell, answer: Raw, s: Uuid, e: Uuid)
    ensures var db' := Step(db, AnswerSaved(c, answer));
            db' == db.(answers := db'.answers) &&
            AnswersFor(db'.answers, s, e) ==
              if s == c.student && e == c.exam then AnswersFor(db.answers, s, e)[c.question := answer] else AnswersFor(db.answers, s, e)
  {
    UpsertReads(db.answers, c, answer, s, e);
  }

  /** Requests to enroll change the roll as the bulk run does, with the insert as meant or as written, and nothing else. */
  lemma EnrollEvent(db: Db, requests: seq<Request>, student: Uuid, course: Uuid)
    requires ValidRoll(db.roll)
    ensures var db' := Step(db, EnrollRequested(requests, true));
            db' == db.(roll := db'.roll) &&
            StatusOf(db'.roll, student, course) == AfterRequest(StatusOf(db.roll, student, course), Requested(requests, student, course))
    ensures Step(db, EnrollRequested(requests, false)) == db.(roll := BulkAsWritten(db.roll, requests).0)
  {
    hide ValidRoll, StatusOf, Requested, Bulk, BulkAsWritten, Deliver, Submit, ForceSubmit;
    BulkStatus(db.roll, requests, student, course);
  }

  /** An update or a removal changes the one enrollment with the id, and nothing else. */
  lemma EnrollmentEvents(db: Db, id: Uuid, i: nat, status: Option<EnrollmentStatus>, allowed: bool)
    requires ValidRoll(db.roll) && i < |db.roll.rows| && db.roll.rows[i].id == id
    ensures Step(db, EnrollmentRemoved(id, allowed)) ==
            if allowed then db.(roll := Roll(db.roll.rows[..i] + db.roll.rows[i + 1..], db.roll.nextId)) else db
    ensures Step(db, EnrollmentUpdated(id, status)) ==
            if status.Some? then db.(roll := Roll(db.roll.rows[i := db.roll.rows[i].(status := status.value)], db.roll.nextId)) else db
  {
    hide Deliver, Submit, ForceSubmit;
    RemoveMeaning(db.roll, id, allowed, i);
    assert Update(db.roll, id, status).rows ==
      if status.Some? then db.roll.rows[i := db.roll.rows[i].(status := status.value)] else db.roll.rows;
  }

  /** An edit changes its exam, if it keeps question ids apart and the limit positive. */
  lemma EditEvent(db: Db, exam: Uuid, row: Exam)
    ensures Step(db, ExamEdited(exam, row)) ==
            if DistinctIds(row.questions) && (row.maxAttempts == None || row.maxAttempts.value > 0)
            then db.(exams := db.exams[exam := row]) else db
  {
    hide Deliver, Submit, ForceSubmit, DistinctIds;
  }

  // ---- submitting ----------------------------------------------------------

  /** The submitted answer that ends up stored for a question. */
  function LastItemFor(items: seq<Item>, question: Uuid): Option<Raw> {
    if items == [] then None
    else
      var last := items[|items| - 1];
      if last.question == Some(question) then Some(last.answer) else LastItemFor(items[..|items| - 1], question)
  }

  lemma {:induction false} StoreItemsCell(db: Db, k: Key, items: seq<Item>, c: Cell)
    ensures var stored := StoreItems(db, k, items).answers;
            var last := if c.student == k.student && c.exam == k.exam then LastItemFor(items, c.question) else None;
            if last.Some? then c in stored && stored[c] == last.value
            else (c in stored <==> c in db.answers) && (c in stored ==> stored[c] == db.answers[c])
  {
    if items != [] {
      StoreItemsCell(db, k, items[..|items| - 1], c);
    }
  }

  lemma {:induction false} StoreItemsRows(db: Db, k: Key, items: seq<Item>)
    requires k in db.submissions
    ensures StoreItems(db, k, items) == db.(answers := StoreItems(db, k, items).answers)
  {
    if items != [] {
      StoreItemsRows(db, k, items[..|items| - 1]);
    }
  }

  /** A submit is refused exactly at the limit, and then no attempt or submission changes. */
  lemma RefusedSubmit(db: Db, k: Key, items: seq<Item>)
    requires Valid(db)
    ensures Submit(db, k, items, None).1.LimitReached? <==> AtLimit(db, k)
    ensures AtLimit(db, k) ==>
              Submit(db, k, items, None).0 == db.(answers := StoreItems(db, k, items).answers)
  {
    StoreItemsKeepsValid(db, k, items);
    if AtLimit(db, k) {
      assert ValidExam(db.exams[k.exam]);
      StoreItemsRows(db, k, items);
    }
  }

  /** But its answers are stored: nothing changes exactly when they are the stored ones already. */
  lemma RefusedSubmitStoresAnswers(db: Db, k: Key, items: seq<Item>)
    requires Valid(db) && AtLimit(db, k)
    ensures Submit(db, k, items, None).0 == db <==>
            forall q :: LastItemFor(items, q).Some? ==>
              Cell(k.student, k.exam, q) in db.answers &&
              db.answers[Cell(k.student, k.exam, q)] == LastItemFor(items, q).value
  {
    RefusedSubmit(db, k, items);
    var stored := StoreItems(db, k, items).answers;
    forall c: Cell
      ensures var last := if c.student == k.student && c.exam == k.exam then LastItemFor(items, c.question) else None;
              if last.Some? then c in stored && stored[c] == last.value
              else (c in stored <==> c in db.answers) && (c in stored ==> stored[c] == db.answers[c])
    {
      StoreItemsCell(db, k, items, c);
    }
    if forall q :: LastItemFor(items, q).Some? ==>
         Cell(k.student, k.exam, q) in db.answers &&
         db.answers[Cell(k.student, k.exam, q)] == LastItemFor(items, q).value
    {
      assert stored == db.answers;
    } else {
      var q :| LastItemFor(items, q).Some? &&
               !(Cell(k.student, k.exam, q) in db.answers &&
                 db.answers[Cell(k.student, k.exam, q)] == LastItemFor(items, q).value);
      var c := Cell(k.student, k.exam, q);
      assert c in stored && stored[c] == LastItemFor(items, q).value;
    }
  }

  /** Storing answers can only add the one submission row, and that without attempts. */
  lemma {:induction false} StoreItemsSubmissions(db: Db, k: Key, items: seq<Item>)
    ensures var stored := StoreItems(db, k, items).submissions;
            stored == db.submissions || stored == EnsureRow(db, k).submissions
  {
    if items != [] {
      StoreItemsSubmissions(db, k, items[..|items| - 1]);
    }
  }

  function RowBefore(db: Db, k: Key): Submission {
    if k in db.submissions then db.submissions[k] else NEW_SUBMISSION
  }

  lemma RecordMeaning(db: Db, k: Key)
    ensures var number := AttemptsSoFar(db, k) + 1;
            Record(db, k) == db.(attempts := db.attempts + [Attempt(k, number, None, None, None)],
                                 submissions := db.submissions[k := RowBefore(db, k).(
                                   attempts := number, status := Submitted, submittedAt := Some(db.clock))],
                                 clock := db.clock + 1)
  {
    var row := EnsureRow(db, k);
    assert row.submissions[k := Record(db, k).submissions[k]] == db.submissions[k := Record(db, k).submissions[k]];
  }

  /** A submit that goes through adds exactly the next attempt, to this one submission, and stores its answers. */
  lemma AcceptedSubmit(db: Db, k: Key, items: seq<Item>)
    requires Valid(db) && k.exam in db.exams && !AtLimit(db, k)
    ensures var (db', reply) := Submit(db, k, items, None);
            var number := AttemptsSoFar(db, k) + 1;
            reply == Recorded(|db.attempts|, number) &&
            db'.attempts == db.attempts + [Attempt(k, number, None, None, None)] &&
            db'.submissions == db.submissions[k := RowBefore(db, k).(attempts := number, status := Submitted,
                                                                     submittedAt := Some(db.clock))] &&
            db'.answers == StoreItems(db, k, items).answers &&
            db' == db.(attempts := db'.attempts, submissions := db'.submissions, answers := db'.answers,
                       clock := db.clock + 1)
  {
    hide Valid, Record, StoreItems;
    var stored := StoreItems(db, k, items);
    StoreItemsKeepsValid(db, k, items);
    StoreItemsSubmissions(db, k, items);
    RecordMeaning(stored, k);
    assert RowBefore(stored, k) == RowBefore(db, k);
  }

  lemma {:induction false} StoreItemsFrame(db: Db, k: Key, items: seq<Item>)
    ensures var d := StoreItems(db, k, items);
            d == db.(submissions := d.submissions, answers := d.answers)
    ensures forall q :: q in StoreItems(db, k, items).submissions <==>
              q in db.submissions || (q == k && exists i :: 0 <= i < |items| && items[i].question.Some?)
    ensures forall q :: q in StoreItems(db, k, items).submissions ==>
              StoreItems(db, k, items).submissions[q] ==
              if q in db.submissions then db.submissions[q] else Submission(0, Pending, None, None, None)
  {
    if items != [] {
      var init, last := items[..|items| - 1], items[|items| - 1];
      StoreItemsFrame(db, k, init);
      assert forall i :: 0 <= i < |init| ==> init[i] == items[i];
    }
  }

  /** A submit is recorded as the next attempt exactly when the exam is known and the limit, if any, leaves room. */
  lemma SubmitReplies(db: Db, k: Key, items: seq<Item>)
    ensures k.exam !in db.exams ==> forall stop :: Submit(db, k, items, stop) == (db, ExamNotFound)
    ensures forall stop :: Step(db, SubmittedExam(k, items, stop)) == Submit(db, k, items, stop).0
    ensures var n := if k in db.submissions then db.submissions[k].attempts else 0;
            var reply := Submit(db, k, items, None).1;
            if k.exam !in db.exams then reply == ExamNotFound
            else if db.exams[k.exam].maxAttempts.None? || n < db.exams[k.exam].maxAttempts.value
            then reply == Recorded(|db.attempts|, n + 1)
            else reply == LimitReached
  {
    hide Deliver, ForceSubmit, StoreItems;
    StoreItemsFrame(db, k, items);
  }

  /** A crash after some of the answers leaves those stored, perhaps on a new row, and no attempt. */
  lemma CrashedSubmit(db: Db, k: Key, items: seq<Item>, n: nat, q: Key, c: Cell)
    requires k.exam in db.exams && n <= |items|
    ensures var (db', reply) := Submit(db, k, items, Some(n));
            var last := if c.student == k.student && c.exam == k.exam then LastItemFor(items[..n], c.question) else None;
            reply == Crashed && db' == db.(submissions := db'.submissions, answers := db'.answers) &&
            (q in db'.submissions <==>
              q in db.submissions || (q == k && exists i :: 0 <= i < n && items[i].question.Some?)) &&
            (q in db'.submissions ==>
              db'.submissions[q] == if q in db.submissions then db.submissions[q] else Submission(0, Pending, None, None, None)) &&
            (if last.Some? then c in db'.answers && db'.answers[c] == last.value
             else (c in db'.answers <==> c in db.answers) && (c in db.answers ==> db'.answers[c] == db.answers[c]))
  {
    StoreItemsFrame(db, k, items[..n]);
    StoreItemsCell(db, k, items[..n], c);
    assert items[..|items|] == items;
    assert forall i :: 0 <= i < n ==> items[..n][i] == items[i];
  }

  // ---- attempt limits over runs --------------------------------------------

  ghost predicate LimitWithin(db: Db, exam: Uuid, m: nat) {
    exam in db.exams ==> db.exams[exam].maxAttempts.Some? && db.exams[exam].maxAttempts.value <= m
  }

  ghost predicate AttemptsWithin(db: Db, exam: Uuid, m: nat) {
    forall k :: k in db.submissions && k.exam == exam ==> db.submissions[k].attempts <= m
  }

  lemma {:induction false} StoreItemsWithin(db: Db, k: Key, items: seq<Item>, exam: Uuid, m: nat)
    requires AttemptsWithin(db, exam, m)
    ensures AttemptsWithin(StoreItems(db, k, items), exam, m)
  {
    if items != [] {
      StoreItemsWithin(db, k, items[..|items| - 1], exam, m);
    }
  }

  lemma {:induction false} InsertForcedWithin(db: Db, forced: Uuid, students: seq<Uuid>, at: int, exam: Uuid, m: nat)
    requires AttemptsWithin(db, exam, m) && (forced == exam ==> m >= 1)
    ensures InsertForced(db, forced, students, at).Some? ==>
              AttemptsWithin(InsertForced(db, forced, students, at).value, exam, m)
  {
    if students != [] {
      InsertForcedWithin(db, forced, students[..|students| - 1], at, exam, m);
    }
  }

  lemma SubmitWithinLimit(db: Db, k: Key, items: seq<Item>, stop: Option<nat>, exam: Uuid, m: nat)
    requires Valid(db) && LimitWithin(db, exam, m) && AttemptsWithin(db, exam, m)
    ensures AttemptsWithin(Submit(db, k, items, stop).0, exam, m)
  {
    StoreItemsKeepsValid(db, k, items);
    StoreItemsWithin(db, k, items, exam, m);
    if stop.Some? && stop.value < |items| {
      StoreItemsWithin(db, k, items[..stop.value], exam, m);
    }
  }

  lemma ForceSubmitWithinLimit(db: Db, forced: Uuid, exam: Uuid, m: nat)
    requires Valid(db) && LimitWithin(db, exam, m) && AttemptsWithin(db, exam, m)
    ensures AttemptsWithin(ForceSubmit(db, forced), exam, m)
  {
    if forced in db.exams && db.exams[forced].course.Some? {
      assert ValidExam(db.exams[forced]);
      var students := Unsubmitted(db.roll.rows, db.exams[forced].course.value, forced, db.submissions);
      InsertForcedWithin(db, forced, students, ForceSubmitAt(db, forced), exam, m);
    }
  }

  lemma CommitWithin(db: Db, id: nat, score: Option<int>, byWorker: bool, exam: Uuid, m: nat)
    requires AttemptsWithin(db, exam, m) && id < |db.attempts| && db.attempts[id].key in db.submissions
    ensures AttemptsWithin(Commit(db, id, score, byWorker), exam, m)
  {
  }

  lemma StepWithinLimit(db: Db, e: Event, exam: Uuid, m: nat)
    requires Valid(db) && LimitWithin(db, exam, m) && AttemptsWithin(db, exam, m)
    ensures AttemptsWithin(Step(db, e), exam, m)
  {
    hide Submit, ForceSubmit, Commit, ScoreFor, ItemsFor, WriteBack, StatusFits, GradingFits;
    match e
    case SubmittedExam(k, items, stop) =>
      SubmitWithinLimit(db, k, items, stop, exam, m);
    case ForceSubmitted(forced) =>
      ForceSubmitWithinLimit(db, forced, exam, m);
    case GradingDelivered(d) =>
      if Commits(db, d) {
        CommitWithin(db, d.attempt, ScoreFor(db, d), true, exam, m);
      }
    case GradedByHand(id, score) =>
      if id < |db.attempts| {
        CommitWithin(db, id, Some(score), false, exam, m);
      }
    case _ =>
  }

  /** No submission ever has more attempts than the largest limit in force during the run. */
  lemma {:induction false} AttemptsNeverExceedLimit(db: Db, events: seq<Event>, exam: Uuid, m: nat)
    requires Valid(db) && AttemptsWithin(db, exam, m)
    requires forall i :: 0 <= i <= |events| ==> LimitWithin(Run(db, events[..i]), exam, m)
    ensures AttemptsWithin(Run(db, events), exam, m)
    decreases |events|
  {
    hide Step, Valid, AttemptsWithin;
    assert events[..0] == [];
    if events != [] {
      var rest := events[1..];
      StepKeepsValid(db, events[0]);
      StepWithinLimit(db, events[0], exam, m);
      forall i | 0 <= i <= |rest|
        ensures LimitWithin(Run(Step(db, events[0]), rest[..i]), exam, m)
      {
        assert events[..i + 1][1..] == rest[..i];
        assert LimitWithin(Run(db, events[..i + 1]), exam, m);
      }
      AttemptsNeverExceedLimit(Step(db, events[0]), rest, exam, m);
    }
  }

  function AttemptsOf(db: Db, k: Key): nat {
    if k in db.submissions then db.submissions[k].attempts else 0
  }

  ghost predicate LimitIs(db: Db, exam: Uuid, m: nat) {
    exam in db.exams && db.exams[exam].maxAttempts == Some(m)
  }

  predicate FullSubmit(e: Event, k: Key) {
    e.SubmittedExam? && e.key == k && e.stop.None?
  }

  function CountSubmits(events: seq<Event>, k: Key): nat
    decreases |events|
  {
    if events == [] then 0 else (if FullSubmit(events[0], k) then 1 else 0) + CountSubmits(events[1..], k)
  }

  lemma {:induction false} InsertForcedElsewhere(db: Db, exam: Uuid, students: seq<Uuid>, at: int, k: Key)
    requires k.exam != exam || k in db.submissions
    ensures InsertForced(db, exam, students, at).Some? ==>
              AttemptsOf(InsertForced(db, exam, students, at).value, k) == AttemptsOf(db, k) &&
              (k in db.submissions ==> k in InsertForced(db, exam, students, at).value.submissions)
  {
    if students != [] {
      InsertForcedElsewhere(db, exam, students[..|students| - 1], at, k);
    }
  }

  lemma ForceSubmitAttempts(db: Db, exam: Uuid, k: Key)
    ensures k.exam != exam ==> AttemptsOf(ForceSubmit(db, exam), k) == AttemptsOf(db, k)
    ensures AttemptsOf(ForceSubmit(db, exam), k) >= AttemptsOf(db, k)
  {
    if exam in db.exams && db.exams[exam].course.Some? && (k.exam != exam || k in db.submissions) {
      var students := Unsubmitted(db.roll.rows, db.exams[exam].course.value, exam, db.submissions);
      InsertForcedElsewhere(db, exam, students, ForceSubmitAt(db, exam), k);
    }
  }

  lemma SubmitAttempts(db: Db, q: Key, items: seq<Item>, stop: Option<nat>, k: Key, m: nat)
    requires LimitIs(db, k.exam, m)
    ensures AttemptsOf(Submit(db, q, items, stop).0, k)
         == if q == k && stop.None? && AttemptsOf(db, k) < m then AttemptsOf(db, k) + 1 else AttemptsOf(db, k)
  {
    StoreItemsFrame(db, q, items);
    if stop.Some? && stop.value < |items| {
      StoreItemsFrame(db, q, items[..stop.value]);
    }
  }

  /** Below the limit every whole submit counts one up, and apart from a force submission nothing else does. */
  lemma StepAttempts(db: Db, e: Event, k: Key, m: nat)
    requires LimitIs(db, k.exam, m)
    ensures var n, n' := AttemptsOf(db, k), AttemptsOf(Step(db, e), k);
            n' >= (if FullSubmit(e, k) && n < m then n + 1 else n) &&
            (!(e.ForceSubmitted? && e.exam == k.exam) ==> n' == if FullSubmit(e, k) && n < m then n + 1 else n)
  {
    hide Submit, ForceSubmit, ScoreFor, ItemsFor, WriteBack;
    match e
    case SubmittedExam(q, items, stop) =>
      SubmitAttempts(db, q, items, stop, k, m);
    case ForceSubmitted(exam) =>
      ForceSubmitAttempts(db, exam, k);
    case _ =>
  }

  ghost predicate LimitKept(events: seq<Event>, exam: Uuid, m: nat) {
    forall i :: 0 <= i < |events| && events[i].ExamEdited? && events[i].exam == exam ==> events[i].row.maxAttempts == Some(m)
  }

  ghost predicate NotForced(events: seq<Event>, exam: Uuid) {
    forall i :: 0 <= i < |events| && events[i].ForceSubmitted? ==> events[i].exam != exam
  }

  lemma StepKeepsLimit(db: Db, e: Event, exam: Uuid, m: nat)
    requires LimitIs(db, exam, m) && LimitKept([e], exam, m)
    ensures LimitIs(Step(db, e), exam, m)
  {
    hide ScoreFor, ItemsFor, WriteBack;
    assert [e][0] == e;
    match e
    case SubmittedExam(k, items, stop) =>
      StoreItemsFrame(db, k, items);
      if stop.Some? && stop.value < |items| {
        StoreItemsFrame(db, k, items[..stop.value]);
      }
    case ForceSubmitted(forced) =>
      ForceSubmitKeepsExams(db, forced);
    case _ =>
  }

  lemma {:induction false} InsertForcedKeepsExams(db: Db, exam: Uuid, students: seq<Uuid>, at: int)
    ensures InsertForced(db, exam, students, at).Some? ==> InsertForced(db, exam, students, at).value.exams == db.exams
  {
    if students != [] {
      InsertForcedKeepsExams(db, exam, students[..|students| - 1], at);
    }
  }

  lemma ForceSubmitKeepsExams(db: Db, exam: Uuid)
    ensures ForceSubmit(db, exam).exams == db.exams
  {
    if exam in db.exams && db.exams[exam].course.Some? {
      var students := Unsubmitted(db.roll.rows, db.exams[exam].course.value, exam, db.submissions);
      InsertForcedKeepsExams(db, exam, students, ForceSubmitAt(db, exam));
    }
  }

  function Min(a: int, b: int): int {
    if a <= b then a else b
  }

  /**
    With a limit of m the first m whole submits of a student are recorded, in
    whatever run they stand, and from then on every one is refused. Only a force
    submission can take one of the m attempts away.
  */
  lemma {:induction false} AttemptsFillUp(db: Db, events: seq<Event>, k: Key, m: nat)
    requires LimitIs(db, k.exam, m) && LimitKept(events, k.exam, m)
    ensures LimitIs(Run(db, events), k.exam, m)
    ensures AttemptsOf(Run(db, events), k) >= Min(m, AttemptsOf(db, k) + CountSubmits(events, k))
    ensures NotForced(events, k.exam) && AttemptsOf(db, k) <= m ==>
              AttemptsOf(Run(db, events), k) == Min(m, AttemptsOf(db, k) + CountSubmits(events, k))
    decreases |events|
  {
    hide Step;
    if events != [] {
      var e, rest := events[0], events[1..];
      assert LimitKept([e], k.exam, m) && LimitKept(rest, k.exam, m);
      assert NotForced(events, k.exam) ==> NotForced(rest, k.exam) && !(e.ForceSubmitted? && e.exam == k.exam);
      StepKeepsLimit(db, e, k.exam, m);
      StepAttempts(db, e, k, m);
      AttemptsFillUp(Step(db, e), rest, k, m);
    }
  }

  /** The next submit of a run without force submissions is recorded exactly while fewer than m have been. */
  lemma FirstSubmitsRecorded(db: Db, events: seq<Event>, k: Key, m: nat, items: seq<Item>)
    requires LimitIs(db, k.exam, m) && LimitKept(events, k.exam, m) && NotForced(events, k.exam)
    requires AttemptsOf(db, k) == 0
    ensures var db' := Run(db, events);
            var n := CountSubmits(events, k);
            Submit(db', k, items, None).1 == if n < m then Recorded(|db'.attempts|, n + 1) else LimitReached
  {
    hide Step, Submit, LimitKept, NotForced;
    AttemptsFillUp(db, events, k, m);
    SubmitReplies(Run(db, events), k, items);
  }

  // ---- scores --------------------------------------------------------------

  /** Every grading delivery reads the attempt's score before it grades. */
  ghost predicate Checked(events: seq<Event>) {
    forall i :: 0 <= i < |events| && events[i].GradingDelivered? ==> events[i].delivery.checkOk
  }

  lemma {:induction false} InsertForcedGrows(db: Db, exam: Uuid, students: seq<Uuid>, at: int)
    ensures InsertForced(db, exam, students, at).Some? ==>
              db.attempts <= InsertForced(db, exam, students, at).value.attempts
  {
    if students != [] {
      InsertForcedGrows(db, exam, students[..|students| - 1], at);
    }
  }

  /** The one kind of step that may change the score of attempt id. */
  ghost predicate MayScore(db: Db, e: Event, id: nat) {
    (e.GradedByHand? && e.attempt == id) || (e.GradingDelivered? && e.delivery.attempt == id && !Scored(db, id))
  }

  lemma SubmitGrows(db: Db, k: Key, items: seq<Item>, stop: Option<nat>)
    requires Valid(db)
    ensures db.attempts <= Submit(db, k, items, stop).0.attempts
  {
    StoreItemsKeepsValid(db, k, items);
    if stop.Some? && stop.value < |items| {
      StoreItemsKeepsValid(db, k, items[..stop.value]);
    }
  }

  lemma ForceSubmitGrows(db: Db, exam: Uuid)
    ensures db.attempts <= ForceSubmit(db, exam).attempts
  {
    if exam in db.exams && db.exams[exam].course.Some? {
      var students := Unsubmitted(db.roll.rows, db.exams[exam].course.value, exam, db.submissions);
      InsertForcedGrows(db, exam, students, ForceSubmitAt(db, exam));
    }
  }

  lemma DeliverKeepsScore(db: Db, d: Delivery, id: nat)
    requires Valid(db) && id < |db.attempts| && d.checkOk
    ensures var db' := Deliver(db, d);
            |db'.attempts| == |db.attempts| &&
            (d.attempt != id || Scored(db, id) ==> db'.attempts[id].score == db.attempts[id].score)
  {
    hide ScoreFor, ItemsFor, WriteBack;
  }

  lemma StepKeepsScore(db: Db, e: Event, id: nat)
    requires Valid(db) && id < |db.attempts| && Checked([e])
    ensures id < |Step(db, e).attempts|
    ensures !MayScore(db, e, id) ==> Step(db, e).attempts[id].score == db.attempts[id].score
    ensures Scored(db, id) ==> Scored(Step(db, e), id)
  {
    hide Submit, ForceSubmit, Deliver, Valid;
    assert [e][0] == e;
    match e
    case SubmittedExam(k, items, stop) =>
      SubmitGrows(db, k, items, stop);
    case ForceSubmitted(exam) =>
      ForceSubmitGrows(db, exam);
    case GradingDelivered(d) =>
      DeliverKeepsScore(db, d, id);
    case _ =>
  }

  /** A score stays until a lecturer replaces it, whatever else happens. */
  lemma {:induction false} ScoreStays(db: Db, events: seq<Event>, id: nat)
    requires Valid(db) && Checked(events) && Scored(db, id)
    requires forall i :: 0 <= i < |events| && events[i].GradedByHand? ==> events[i].attempt != id
    ensures id < |Run(db, events).attempts| && Run(db, events).attempts[id].score == db.attempts[id].score
    decreases |events|
  {
    hide Step, Valid;
    if events != [] {
      assert events[0] in events;
      assert Checked([events[0]]);
      assert Checked(events[1..]);
      StepKeepsScore(db, events[0], id);
      StepKeepsValid(db, events[0]);
      ScoreStays(Step(db, events[0]), events[1..], id);
    }
  }

  // ---- redelivery ----------------------------------------------------------

  /** The attempts that this event gives their first score. */
  ghost function FirstScored(db: Db, e: Event): set<nat> {
    set id: nat | id < |Step(db, e).attempts| && Scored(Step(db, e), id) && !Scored(db, id)
  }

  /**
    The run without any delivery of an attempt after the event that first set
    its score; scored holds the attempts that earlier events have scored.
  */
  ghost function Erase(db: Db, events: seq<Event>, scored: set<nat>): seq<Event>
    decreases |events|
  {
    if events == [] then []
    else
      var e := events[0];
      var rest := Erase(Step(db, e), events[1..], scored + FirstScored(db, e));
      if e.GradingDelivered? && e.delivery.attempt in scored then rest else [e] + rest
  }

  /** Whatever follows, an attempt that has a score is found scored by every later event. */
  lemma ScoredPersists(db: Db, e: Event, scored: set<nat>)
    requires Valid(db) && Checked([e]) && forall id :: id in scored ==> Scored(db, id)
    ensures forall id :: id in scored + FirstScored(db, e) ==> Scored(Step(db, e), id)
    ensures (forall id :: Scored(db, id) ==> id in scored) ==>
              forall id :: Scored(Step(db, e), id) ==> id in scored + FirstScored(db, e)
  {
    hide Step, Valid;
    forall id | id in scored
      ensures Scored(Step(db, e), id)
    {
      StepKeepsScore(db, e, id);
    }
  }

  /** A checked delivery of a scored attempt does nothing. */
  lemma CheckedRedelivery(db: Db, e: Event)
    requires Checked([e]) && e.GradingDelivered? && Scored(db, e.delivery.attempt)
    ensures Step(db, e) == db
  {
    assert [e][0].delivery.checkOk;
  }

  /** Redelivered grading events, repeated and reordered at will, leave no trace. */
  lemma {:induction false} RedeliveryErasure(db: Db, events: seq<Event>, scored: set<nat>)
    requires Valid(db) && Checked(events) && forall id :: id in scored ==> Scored(db, id)
    ensures Run(db, Erase(db, events, scored)) == Run(db, events)
    decreases |events|
  {
    hide Step, Valid, FirstScored;
    if events != [] {
      var e := events[0];
      assert Checked([e]) && Checked(events[1..]);
      StepKeepsValid(db, e);
      ScoredPersists(db, e, scored);
      RedeliveryErasure(Step(db, e), events[1..], scored + FirstScored(db, e));
      if e.GradingDelivered? && e.delivery.attempt in scored {
        CheckedRedelivery(db, e);
      }
    }
  }

  /** What is left delivers to unscored attempts only. */
  lemma {:induction false} ErasedDeliversUnscored(db: Db, events: seq<Event>, scored: set<nat>, i: nat)
    requires Valid(db) && Checked(events) && forall id :: id in scored <==> Scored(db, id)
    requires i < |Erase(db, events, scored)|
    ensures var kept := Erase(db, events, scored);
            kept[i].GradingDelivered? ==> !Scored(Run(db, kept[..i]), kept[i].delivery.attempt)
    decreases |events|
  {
    hide Step, Valid, FirstScored;
    var e, kept := events[0], Erase(db, events, scored);
    assert Checked([e]) && Checked(events[1..]);
    StepKeepsValid(db, e);
    ScoredPersists(db, e, scored);
    var rest := Erase(Step(db, e), events[1..], scored + FirstScored(db, e));
    if e.GradingDelivered? && e.delivery.attempt in scored {
      CheckedRedelivery(db, e);
      ErasedDeliversUnscored(Step(db, e), events[1..], scored + FirstScored(db, e), i);
    } else if i > 0 {
      assert kept[..i][1..] == rest[..i - 1];
      ErasedDeliversUnscored(Step(db, e), events[1..], scored + FirstScored(db, e), i - 1);
    }
  }

  /** Without the check a redelivery grades like a first delivery. */
  lemma UncheckedRedelivery(db: Db, d: Delivery)
    requires Scored(db, d.attempt) && Commits(db, d)
    ensures Deliver(db, d).attempts[d.attempt].score == ScoreFor(db, d)
    ensures Deliver(db, d) != db
  {
    hide ScoreFor, ItemsFor, WriteBack;
    assert Deliver(db, d).clock == db.clock + 3;
  }

  // ---- crashes -------------------------------------------------------------

  /** What the dashboards read as grading: the fields of attempt and submission that one commit sets. */
  ghost predicate SameGrading(db: Db, db': Db, k: Key) {
    (k in db.submissions ==>
      k in db'.submissions && db'.submissions[k].latest == db.submissions[k].latest &&
      db'.submissions[k].gradedAt == db.submissions[k].gradedAt) &&
    forall i :: 0 <= i < |db.attempts| && db.attempts[i].key == k ==>
      i < |db'.attempts| && db'.attempts[i].score == db.attempts[i].score && db'.attempts[i].gradedAt == db.attempts[i].gradedAt
  }

  /** Attempt i of k was graded in this step, and its submission with it. */
  ghost predicate GradedTogether(db: Db, db': Db, k: Key, i: nat) {
    i < |db.attempts| && i < |db'.attempts| && db.attempts[i].key == k && k in db'.submissions &&
    db'.attempts[i].gradedAt == Some(db.clock + 1) && db'.submissions[k].gradedAt == Some(db.clock + 2) &&
    db'.submissions[k].latest == db'.attempts[i].score &&
    forall j :: 0 <= j < |db.attempts| && j != i ==> j < |db'.attempts| && db'.attempts[j] == db.attempts[j]
  }

  lemma {:induction false} StoreItemsSameGrading(db: Db, k: Key, items: seq<Item>, q: Key)
    ensures SameGrading(db, StoreItems(db, k, items), q)
    ensures StoreItems(db, k, items).attempts == db.attempts
  {
    if items != [] {
      StoreItemsSameGrading(db, k, items[..|items| - 1], q);
    }
  }

  lemma {:induction false} InsertForcedSameGrading(db: Db, exam: Uuid, students: seq<Uuid>, at: int, q: Key)
    ensures InsertForced(db, exam, students, at).Some? ==>
              SameGrading(db, InsertForced(db, exam, students, at).value, q) &&
              db.attempts <= InsertForced(db, exam, students, at).value.attempts
  {
    if students != [] {
      InsertForcedSameGrading(db, exam, students[..|students| - 1], at, q);
    }
  }

  lemma SubmitSameGrading(db: Db, q: Key, items: seq<Item>, stop: Option<nat>, k: Key)
    ensures SameGrading(db, Submit(db, q, items, stop).0, k)
  {
    StoreItemsSameGrading(db, q, items, k);
    if stop.Some? && stop.value < |items| {
      StoreItemsSameGrading(db, q, items[..stop.value], k);
    }
  }

  lemma ForceSubmitSameGrading(db: Db, exam: Uuid, k: Key)
    ensures SameGrading(db, ForceSubmit(db, exam), k)
  {
    if exam in db.exams && db.exams[exam].course.Some? {
      var students := Unsubmitted(db.roll.rows, db.exams[exam].course.value, exam, db.submissions);
      InsertForcedSameGrading(db, exam, students, ForceSubmitAt(db, exam), k);
    }
  }

  lemma CommitGradesTogether(db: Db, id: nat, score: Option<int>, byWorker: bool, db': Db, k: Key)
    requires id < |db.attempts| && db.attempts[id].key in db.submissions
    requires db' == Commit(db, id, score, byWorker).(answers := db'.answers)
    ensures if db.attempts[id].key == k then GradedTogether(db, db', k, id) else SameGrading(db, db', k)
  {
  }

  /** Every step, crashed or not, grades one attempt together with its submission or grades nothing. */
  lemma GradingIsAtomic(db: Db, e: Event, k: Key)
    requires Valid(db)
    ensures SameGrading(db, Step(db, e), k) || exists i: nat :: GradedTogether(db, Step(db, e), k, i)
  {
    hide Submit, ForceSubmit, Commit, ScoreFor, ItemsFor, WriteBack, StatusFits, GradingFits, GradedTogether;
    match e
    case SubmittedExam(q, items, stop) =>
      SubmitSameGrading(db, q, items, stop, k);
    case ForceSubmitted(exam) =>
      ForceSubmitSameGrading(db, exam, k);
    case GradingDelivered(d) =>
      if Commits(db, d) {
        CommitGradesTogether(db, d.attempt, ScoreFor(db, d), true, Deliver(db, d), k);
      }
    case GradedByHand(id, score) =>
      if id < |db.attempts| && Storable(Some(score)) {
        CommitGradesTogether(db, id, Some(score), false, GradeByHand(db, id, score), k);
      }
    case _ =>
  }

  function AsEvents(ds: seq<Delivery>): (events: seq<Event>)
    ensures |events| == |ds| && forall i :: 0 <= i < |ds| ==> events[i] == GradingDelivered(ds[i])
  {
    seq(|ds|, i requires 0 <= i < |ds| => GradingDelivered(ds[i]))
  }

  /** d' carries the event of d again, to a handler whose check works. */
  predicate Redelivers(d': Delivery, d: Delivery) {
    d'.attempt == d.attempt && d'.exam == d.exam && d'.checkOk
  }

  /** Attempt and exam of d as they were, and nothing left to write for it. */
  ghost predicate Settled(db: Db, db': Db, d: Delivery) {
    d.attempt < |db'.attempts| && db'.exams == db.exams && db'.answers == db.answers &&
    (Scored(db', d.attempt) || QuestionsOf(db', d.exam) == [])
  }

  lemma RedeliverySettled(db: Db, d: Delivery, d': Delivery)
    requires Settled(db, db, d) && Redelivers(d', d)
    ensures Settled(db, Deliver(db, d'), d)
  {
    hide TotalOf, TheoryOutcome, Select, GradedItems;
    if Commits(db, d') && QuestionsOf(db, d.exam) == [] {
      NoItems(PlanFor(db, d'), AnswersSeen(db, d'), []);
      assert ItemsFor(db, d') == [];
    }
  }

  lemma {:induction false} RedeliveriesSettled(db: Db, d: Delivery, redeliveries: seq<Delivery>)
    requires Settled(db, db, d)
    requires forall i :: 0 <= i < |redeliveries| ==> Redelivers(redeliveries[i], d)
    ensures Run(db, AsEvents(redeliveries)).answers == db.answers
    decreases |redeliveries|
  {
    hide Deliver, Redelivers;
    if redeliveries != [] {
      var events, rest := AsEvents(redeliveries), redeliveries[1..];
      assert events[1..] == AsEvents(rest);
      RedeliverySettled(db, d, redeliveries[0]);
      RedeliveriesSettled(Deliver(db, redeliveries[0]), d, rest);
    }
  }

  /** The stored answers already hold every graded item of the delivery. */
  ghost predicate ItemsStored(db: Db, d: Delivery)
    requires d.attempt < |db.attempts|
  {
    forall i :: 0 <= i < |ItemsFor(db, d)| ==>
      var c := Cell(db.attempts[d.attempt].key.student, d.exam, ItemsFor(db, d)[i].0);
      c in db.answers && db.answers[c] == Payload(ItemsFor(db, d)[i].1)
  }

  lemma ItemsDistinct(db: Db, d: Delivery)
    requires ExamsFit(db) && d.attempt < |db.attempts|
    ensures DistinctKeys(ItemsFor(db, d))
  {
    hide GradedItems;
    var rows := QuestionsOf(db, d.exam);
    assert DistinctIds(rows) by {
      if d.exam in db.exams {
        assert ValidExam(db.exams[d.exam]);
      }
    }
    GradedItemsRecord(PlanFor(db, d), AnswersSeen(db, d), rows);
  }

  /**
    The graded answers of a committed grading are in the table, for good,
    exactly when the run lives on to a positive batch size or they were there
    before. Otherwise no redelivery ever writes them.
  */
  lemma LostWriteBack(db: Db, d: Delivery, redeliveries: seq<Delivery>)
    requires ExamsFit(db) && Commits(db, d)
    requires forall i :: 0 <= i < |redeliveries| ==> Redelivers(redeliveries[i], d)
    ensures var graded := WriteBack(db.answers, db.attempts[d.attempt].key.student, d.exam, ItemsFor(db, d));
            var after := Run(Deliver(db, d), AsEvents(redeliveries)).answers;
            (after == graded <==> (d.fault.NoFault? && db.batchSize > 0) || ItemsStored(db, d)) &&
            (after == graded || after == db.answers)
  {
    hide *;
    CommitSettles(db, d);
    RedeliveriesSettled(Deliver(db, d), d, redeliveries);
    ItemsStoredMeaning(db, d);
  }

  lemma CommitSettles(db: Db, d: Delivery)
    requires Commits(db, d)
    ensures d.attempt < |db.attempts|
    ensures Settled(Deliver(db, d), Deliver(db, d), d)
    ensures Deliver(db, d).answers ==
            if d.fault.NoFault? && db.batchSize > 0
            then WriteBack(db.answers, db.attempts[d.attempt].key.student, d.exam, ItemsFor(db, d)) else db.answers
  {
    hide ItemsFor, WriteBack;
  }

  lemma ItemsStoredMeaning(db: Db, d: Delivery)
    requires ExamsFit(db) && d.attempt < |db.attempts|
    ensures WriteBack(db.answers, db.attempts[d.attempt].key.student, d.exam, ItemsFor(db, d)) == db.answers
            <==> ItemsStored(db, d)
  {
    hide ItemsFor, WriteBack, ExamsFit, Payload;
    ItemsDistinct(db, d);
    WriteBackNothing(db.answers, db.attempts[d.attempt].key.student, d.exam, ItemsFor(db, d));
  }

  /** Once an attempt has a score, its redeliveries change nothing at all, even for another exam. */
  lemma {:induction false} RedeliveriesIgnored(db: Db, id: nat, redeliveries: seq<Delivery>)
    requires Scored(db, id)
    requires forall i :: 0 <= i < |redeliveries| ==> redeliveries[i].attempt == id && redeliveries[i].checkOk
    ensures Run(db, AsEvents(redeliveries)) == db
    decreases |redeliveries|
  {
    if redeliveries != [] {
      assert AsEvents(redeliveries)[1..] == AsEvents(redeliveries[1..]);
      RedeliveriesIgnored(db, id, redeliveries[1..]);
    }
  }

  lemma DeliveryKeepsRows(db: Db, d: Delivery, k: Key, i: nat)
    requires Valid(db) && d.attempt < |db.attempts|
    ensures var db' := Deliver(db, d);
            db'.exams == db.exams && db'.roll == db.roll && db'.submissions.Keys == db.submissions.Keys &&
            (k in db.submissions && k != db.attempts[d.attempt].key ==> db'.submissions[k] == db.submissions[k]) &&
            |db'.attempts| == |db.attempts| &&
            (i < |db.attempts| && i != d.attempt ==> db'.attempts[i] == db.attempts[i])
  {
    hide ScoreFor, ItemsFor, WriteBack, StatusFits, GradingFits;
  }

  lemma DeliveryKeepsAnswers(db: Db, d: Delivery, s: Uuid, e: Uuid)
    requires Valid(db) && d.attempt < |db.attempts| && (s != db.attempts[d.attempt].key.student || e != d.exam)
    ensures AnswersFor(Deliver(db, d).answers, s, e) == AnswersFor(db.answers, s, e)
  {
    hide ScoreFor, ItemsFor, WriteBack, AnswersFor, ExamsFit, Numbered, StatusFits, GradingFits;
    if Commits(db, d) {
      ItemsDistinct(db, d);
      WriteBackFrame(db.answers, db.attempts[d.attempt].key.student, d.exam, ItemsFor(db, d), s, e);
    }
  }

  /** Grading touches one attempt, its submission and that student's answers to the named exam. */
  lemma DeliveryFrame(db: Db, d: Delivery, k: Key, i: nat, s: Uuid, e: Uuid)
    requires Valid(db) && d.attempt < |db.attempts|
    ensures var db' := Deliver(db, d);
            db'.exams == db.exams && db'.roll == db.roll && db'.submissions.Keys == db.submissions.Keys &&
            (k in db.submissions && k != db.attempts[d.attempt].key ==> db'.submissions[k] == db.submissions[k]) &&
            |db'.attempts| == |db.attempts| &&
            (i < |db.attempts| && i != d.attempt ==> db'.attempts[i] == db.attempts[i]) &&
            (s != db.attempts[d.attempt].key.student || e != d.exam ==>
              AnswersFor(db'.answers, s, e) == AnswersFor(db.answers, s, e))
  {
    hide *;
    DeliveryKeepsRows(db, d, k, i);
    if s != db.attempts[d.attempt].key.student || e != d.exam {
      DeliveryKeepsAnswers(db, d, s, e);
    }
  }

  // ---- what a delivery records ---------------------------------------------

  /** m holds just the answers that the table has for this student and exam. */
  ghost predicate HoldsAnswers(m: AnswerMap, t: Table, student: Uuid, exam: Uuid) {
    (forall q :: q in m <==> Cell(student, exam, q) in t) &&
    (forall q :: q in m ==> m[q] == t[Cell(student, exam, q)])
  }

  lemma AnswersRead(db: Db, d: Delivery, m: AnswerMap)
    requires d.attempt < |db.attempts| && HoldsAnswers(m, db.answers, db.attempts[d.attempt].key.student, d.exam)
    ensures m == AnswersSeen(db, d)
  {
    assert m.Keys == AnswersSeen(db, d).Keys;
  }

  /**
    A delivery records the total of the exam's questions over this student's
    answers to it, on the attempt and on its submission, unless the attempt is
    found scored, the run dies first or the total does not fit the column.
  */
  lemma DeliveryOutcome(db: Db, d: Delivery, m: AnswerMap)
    requires d.attempt < |db.attempts| && db.attempts[d.attempt].key in db.submissions
    requires HoldsAnswers(m, db.answers, db.attempts[d.attempt].key.student, d.exam)
    ensures var a := db.attempts[d.attempt];
            var rows := if d.exam in db.exams then db.exams[d.exam].questions else [];
            var total := TotalOf(InOneCall(TheoryOutcome(d.ready, Select(rows, true), d.tries)), m, rows);
            var score := if rows == [] then None else Some(total);
            var db' := Step(db, GradingDelivered(d));
            db' == Deliver(db, d) &&
            if (d.checkOk && a.score.Some?) || d.fault.BeforeCommit? || (rows != [] && !(0 <= total <= 99999)) then db' == db
            else
              db'.attempts == db.attempts[d.attempt :=
                Attempt(a.key, a.number, score, Some(db.clock), Some(db.clock + 1))] &&
              db'.submissions == db.submissions[a.key :=
                db.submissions[a.key].(latest := score, gradedAt := Some(db.clock + 2), status := Graded)] &&
              db'.clock == db.clock + 3
  {
    hide TotalOf, TheoryOutcome, Select, WriteBack, GradedItems, AnswersFor;
    AnswersRead(db, d, m);
  }

  /** And it stores every question's grade over those answers, if it lives on to a positive batch size. */
  lemma DeliveryStoresGrades(db: Db, d: Delivery, m: AnswerMap, k: nat)
    requires ExamsFit(db) && Commits(db, d) && d.fault.NoFault? && db.batchSize > 0
    requires HoldsAnswers(m, db.answers, db.attempts[d.attempt].key.student, d.exam)
    requires d.exam in db.exams && k < |db.exams[d.exam].questions|
    ensures var rows := db.exams[d.exam].questions;
            var plan := InOneCall(TheoryOutcome(d.ready, Select(rows, true), d.tries));
            var c := Cell(db.attempts[d.attempt].key.student, d.exam, rows[k].q.id);
            var t := Deliver(db, d).answers;
            c in t && t[c].Fields? && t[c].graded == Some(GradeOf(plan, m, rows[k]))
  {
    hide TotalOf, TheoryOutcome, Select, WriteBack, GradedItems, AnswersFor, GradeOf;
    AnswersRead(db, d, m);
    CommitSettles(db, d);
    var rows := db.exams[d.exam].questions;
    assert ValidExam(db.exams[d.exam]);
    GradesStored(db.answers, db.attempts[d.attempt].key.student, d.exam, PlanFor(db, d), m, rows, k);
  }

  // ---- grading by hand -----------------------------------------------------

  /** A lecturer's grade goes to that attempt and its submission alone, if the column can hold it. */
  lemma HandGrade(db: Db, id: nat, score: int)
    requires id < |db.attempts| && db.attempts[id].key in db.submissions
    ensures var a := db.attempts[id];
            GradeByHand(db, id, score) == Step(db, GradedByHand(id, score)) ==
              if 0 <= score <= 99999 then
                db.(attempts := db.attempts[id := Attempt(a.key, a.number, Some(score), a.startedAt, Some(db.clock + 1))],
                    submissions := db.submissions[a.key :=
                      db.submissions[a.key].(latest := Some(score), gradedAt := Some(db.clock + 2))],
                    clock := db.clock + 3)
              else db
  {
    hide Deliver, Submit, ForceSubmit;
  }

  /** The position of the last attempt of k; attempts are numbered in this order. */
  function NewestAttempt(attempts: seq<Attempt>, k: Key): Option<nat> {
    if attempts == [] then None
    else if attempts[|attempts| - 1].key == k then Some(|attempts| - 1)
    else NewestAttempt(attempts[..|attempts| - 1], k)
  }

  lemma {:induction false} NewestIsLastNumber(attempts: seq<Attempt>, k: Key)
    ensures NewestAttempt(attempts, k).None? <==> Numbers(attempts, k) == []
    ensures var newest := NewestAttempt(attempts, k);
            newest.Some? ==> newest.value < |attempts| && attempts[newest.value].key == k &&
                             attempts[newest.value].number == Numbers(attempts, k)[|Numbers(attempts, k)| - 1]
  {
    if attempts != [] && attempts[|attempts| - 1].key != k {
      NewestIsLastNumber(attempts[..|attempts| - 1], k);
    }
  }

  /**
    A lecturer's score becomes latest_score for any attempt. It is the score of
    the highest-numbered attempt exactly when that attempt was graded, or
    already had the same score.
  */
  lemma HandGradeAndNewestAttempt(db: Db, id: nat, score: int)
    requires Valid(db) && id < |db.attempts| && Storable(Some(score))
    ensures var k := db.attempts[id].key;
            var db' := GradeByHand(db, id, score);
            var newest := NewestAttempt(db.attempts, k);
            newest.Some? && newest.value < |db.attempts| &&
            db.attempts[newest.value].number == db.submissions[k].attempts &&
            (db'.submissions[k].latest == db'.attempts[newest.value].score <==>
              id == newest.value || db.attempts[newest.value].score == Some(score))
  {
    var k := db.attempts[id].key;
    NumbersCount(db.attempts, id);
    NewestIsLastNumber(db.attempts, k);
  }
}

/** Force submission and the dashboard's missed exams. */
module ForceSubmission {
  import opened Common
  import opened Enrollment
  import opened ExamClock
  import opened SubmissionState

  ghost predicate ActiveOn(r: Roll, student: Uuid, course: Uuid) {
    exists i :: 0 <= i < |r.rows| && ForPair(r.rows[i], student, course) && r.rows[i].status.Active?
  }

  lemma {:induction false} UnsubmittedMembers(rows: seq<Enrolled>, course: Uuid, exam: Uuid, subs: map<Key, Submission>, s: Uuid)
    ensures s in Unsubmitted(rows, course, exam, subs) <==>
            Key(s, exam) !in subs && exists i :: 0 <= i < |rows| && ForPair(rows[i], s, course) && rows[i].status.Active?
  {
    if rows != [] {
      var init, last := rows[..|rows| - 1], rows[|rows| - 1];
      UnsubmittedMembers(init, course, exam, subs, s);
      if i :| 0 <= i < |rows| && ForPair(rows[i], s, course) && rows[i].status.Active? {
        if i < |init| {
          assert ForPair(init[i], s, course) && init[i].status.Active?;
        }
      }
      if i :| 0 <= i < |init| && ForPair(init[i], s, course) && init[i].status.Active? {
        assert ForPair(rows[i], s, course) && rows[i].status.Active?;
      }
    }
  }

  /** The new rows are distinct because a student has one enrollment per course. */
  lemma {:induction false} UnsubmittedDistinct(rows: seq<Enrolled>, nextId: Uuid, course: Uuid, exam: Uuid, subs: map<Key, Submission>)
    requires ValidRoll(Roll(rows, nextId))
    ensures Distinct(Unsubmitted(rows, course, exam, subs))
  {
    if rows != [] {
      var init, last := rows[..|rows| - 1], rows[|rows| - 1];
      UnsubmittedDistinct(init, nextId, course, exam, subs);
      var students := Unsubmitted(init, course, exam, subs);
      forall i | 0 <= i < |students| && last.course == course
        ensures students[i] != last.student
      {
        UnsubmittedMembers(init, course, exam, subs, students[i]);
        assert students[i] in students;
        var j :| 0 <= j < |init| && ForPair(init[j], students[i], course) && init[j].status.Active?;
        assert rows[j] == init[j];
      }
    }
  }

  /** The insertions go through exactly when no key is new twice. */
  lemma {:induction false} InsertForcedSucceeds(db: Db, exam: Uuid, students: seq<Uuid>, at: int)
    requires forall i :: 0 <= i < |students| ==> Key(students[i], exam) !in db.submissions
    ensures InsertForced(db, exam, students, at).Some? <==> Distinct(students)
    ensures InsertForced(db, exam, students, at).Some? ==>
              forall k :: k in InsertForced(db, exam, students, at).value.submissions <==>
                          k in db.submissions || (k.exam == exam && k.student in students)
  {
    if students != [] {
      var init, last := students[..|students| - 1], students[|students| - 1];
      InsertForcedSucceeds(db, exam, init, at);
      assert students == init + [last];
      DistinctAppend(init, last);
    }
  }

  lemma DistinctAppend(init: seq<Uuid>, last: Uuid)
    ensures Distinct(init + [last]) <==> Distinct(init) && last !in init
  {
    var all := init + [last];
    assert all[|init|] == last;
    assert forall i :: 0 <= i < |init| ==> all[i] == init[i];
    if last in init {
      var i :| 0 <= i < |init| && init[i] == last;
      assert all[i] == all[|init|];
    }
    if !Distinct(init) {
      var i, j :| 0 <= i < j < |init| && init[i] == init[j];
      assert all[i] == all[j];
    }
  }

  function NewAttempts(students: seq<Uuid>, exam: Uuid): (a: seq<Attempt>)
    ensures |a| == |students|
  {
    seq(|students|, i requires 0 <= i < |students| => Attempt(Key(students[i], exam), 1, None, None, None))
  }

  /** Each insertion adds one submission with attempt number 1, and nothing else changes. */
  lemma {:induction false} InsertForcedMeaning(db: Db, exam: Uuid, students: seq<Uuid>, at: int)
    requires forall i :: 0 <= i < |students| ==> Key(students[i], exam) !in db.submissions
    requires InsertForced(db, exam, students, at).Some?
    ensures var db' := InsertForced(db, exam, students, at).value;
            (forall k :: k in db'.submissions ==>
              db'.submissions[k] == if k in db.submissions then db.submissions[k]
                                    else Submission(1, Submitted, None, Some(at), None)) &&
            db'.attempts == db.attempts + NewAttempts(students, exam) &&
            db' == db.(submissions := db'.submissions, attempts := db'.attempts)
  {
    if students != [] {
      var init, last := students[..|students| - 1], students[|students| - 1];
      InsertForcedMeaning(db, exam, init, at);
      var earlier := InsertForced(db, exam, init, at).value;
      var k := Key(last, exam);
      assert EnsureRow(earlier, k).submissions[k] == NEW_SUBMISSION;
      assert NewAttempts(students, exam) == NewAttempts(init, exam) + [Attempt(k, 1, None, None, None)];
    }
  }

  ghost predicate CanForce(db: Db, exam: Uuid) {
    exam in db.exams && db.exams[exam].course.Some?
  }

  /**
    The handler gives every actively enrolled student without a submission one
    submission, as of the exam's end if it has one, with one attempt, and
    touches nothing else. Without the exam or its course it does nothing.
  */
  lemma ForceSubmitMeaning(db: Db, exam: Uuid, k: Key)
    requires ValidRoll(db.roll)
    ensures var db' := Step(db, ForceSubmitted(exam));
            db' == ForceSubmit(db, exam) &&
            var forced := CanForce(db, exam) && k.exam == exam && k !in db.submissions &&
                          ActiveOn(db.roll, k.student, db.exams[exam].course.value);
            (k in db'.submissions <==> k in db.submissions || forced) &&
            (k in db.submissions ==> db'.submissions[k] == db.submissions[k]) &&
            (forced ==>
              var at := if db.exams[exam].endTime.Some? then db.exams[exam].endTime.value else db.clock;
              db'.submissions[k] == Submission(1, Submitted, None, Some(at), None) &&
              exists i :: |db.attempts| <= i < |db'.attempts| && db'.attempts[i] == Attempt(k, 1, None, None, None)) &&
            (forall i :: |db.attempts| <= i < |db'.attempts| ==>
              db'.attempts[i].key !in db.submissions && db'.attempts[i].key in db'.submissions) &&
            db.attempts <= db'.attempts && db' == db.(submissions := db'.submissions, attempts := db'.attempts)
  {
    if CanForce(db, exam) {
      var course := db.exams[exam].course.value;
      var students := Unsubmitted(db.roll.rows, course, exam, db.submissions);
      UnsubmittedDistinct(db.roll.rows, db.roll.nextId, course, exam, db.submissions);
      forall i | 0 <= i < |students|
        ensures Key(students[i], exam) !in db.submissions
      {
        assert students[i] in students;
        UnsubmittedMembers(db.roll.rows, course, exam, db.submissions, students[i]);
      }
      InsertForcedSucceeds(db, exam, students, ForceSubmitAt(db, exam));
      InsertForcedMeaning(db, exam, students, ForceSubmitAt(db, exam));
      UnsubmittedMembers(db.roll.rows, course, exam, db.submissions, k.student);
      ForcedAttempts(db, exam, students, k);
    }
  }

  lemma ForcedAttempts(db: Db, exam: Uuid, students: seq<Uuid>, k: Key)
    requires forall i :: 0 <= i < |students| ==> Key(students[i], exam) !in db.submissions
    ensures var all := db.attempts + NewAttempts(students, exam);
            (k.exam == exam && k.student in students ==>
              exists i :: |db.attempts| <= i < |all| && all[i] == Attempt(k, 1, None, None, None)) &&
            (forall i :: |db.attempts| <= i < |all| ==>
              all[i].key !in db.submissions && all[i].key.exam == exam && all[i].key.student in students)
  {
    var all := db.attempts + NewAttempts(students, exam);
    if k.exam == exam && k.student in students {
      var i :| 0 <= i < |students| && students[i] == k.student;
      assert all[|db.attempts| + i] == Attempt(k, 1, None, None, None);
    }
  }

  /** Whatever the enrollment rows, the handler commits all new rows or, on a repeated student, none. */
  lemma ForceSubmitAllOrNothing(db: Db, exam: Uuid)
    requires CanForce(db, exam)
    ensures var students := Unsubmitted(db.roll.rows, db.exams[exam].course.value, exam, db.submissions);
            (ForceSubmit(db, exam) == db <==> students == [] || !Distinct(students)) &&
            (Distinct(students) ==> |ForceSubmit(db, exam).attempts| == |db.attempts| + |students|)
  {
    var course := db.exams[exam].course.value;
    var students := Unsubmitted(db.roll.rows, course, exam, db.submissions);
    forall i | 0 <= i < |students|
      ensures Key(students[i], exam) !in db.submissions
    {
      assert students[i] in students;
      UnsubmittedMembers(db.roll.rows, course, exam, db.submissions, students[i]);
    }
    InsertForcedSucceeds(db, exam, students, ForceSubmitAt(db, exam));
    if Distinct(students) {
      InsertForcedMeaning(db, exam, students, ForceSubmitAt(db, exam));
    }
  }

  /** A second run of the handler adds nothing. */
  lemma ForceSubmitTwice(db: Db, exam: Uuid)
    requires ValidRoll(db.roll) && CanForce(db, exam)
    ensures var once := ForceSubmit(db, exam);
            ForceSubmit(once, exam) == once
  {
    var once := ForceSubmit(db, exam);
    var course := db.exams[exam].course.value;
    var students := Unsubmitted(once.roll.rows, course, exam, once.submissions);
    assert students != [] ==> students[0] in students;
    forall s
      ensures s !in Unsubmitted(once.roll.rows, course, exam, once.submissions)
    {
      ForceSubmitMeaning(db, exam, Key(s, exam));
      UnsubmittedMembers(once.roll.rows, course, exam, once.submissions, s);
    }
    ForceSubmitMeaning(db, exam, Key(0, exam));
  }

  // ---- missed exams --------------------------------------------------------

  ghost predicate EnrolledOn(r: Roll, student: Uuid, course: Uuid) {
    exists i :: 0 <= i < |r.rows| && ForPair(r.rows[i], student, course)
  }

  ghost function FinishedExams(db: Db, student: Uuid): set<Uuid> {
    set e | e in db.exams && db.exams[e].status.Finished? && db.exams[e].course.Some? &&
            EnrolledOn(db.roll, student, db.exams[e].course.value)
  }

  ghost function SubmittedExams(db: Db, student: Uuid): set<Uuid> {
    set k | k in db.submissions && k.student == student :: k.exam
  }

  /** _compute_student_stats: finished exams of the student's courses less the submitted ones. */
  ghost function MissedExams(db: Db, student: Uuid): set<Uuid> {
    FinishedExams(db, student) - SubmittedExams(db, student)
  }

  /** Those are the finished exams of courses with an enrollment of the student and no submission. */
  lemma MissedMeaning(db: Db, student: Uuid, e: Uuid)
    ensures e in MissedExams(db, student) <==>
            e in db.exams && db.exams[e].status == Finished && db.exams[e].course.Some? && Key(student, e) !in db.submissions &&
            exists i :: 0 <= i < |db.roll.rows| && db.roll.rows[i].student == student &&
                        db.roll.rows[i].course == db.exams[e].course.value
  {
    assert e in SubmittedExams(db, student) <==> Key(student, e) in db.submissions by {
      if Key(student, e) in db.submissions {
        assert Key(student, e).exam in SubmittedExams(db, student);
      }
    }
    if e in db.exams && db.exams[e].course.Some? {
      var course := db.exams[e].course.value;
      if i :| 0 <= i < |db.roll.rows| && db.roll.rows[i].student == student && db.roll.rows[i].course == course {
        assert ForPair(db.roll.rows[i], student, course);
      }
    }
  }

  /** After the handler the exam is missed only by students enrolled but not active; other exams stay as they were. */
  lemma ForceSubmitMissed(db: Db, exam: Uuid, student: Uuid, other: Uuid)
    requires ValidRoll(db.roll) && CanForce(db, exam)
    ensures var db' := ForceSubmit(db, exam);
            (exam in MissedExams(db', student) <==>
              exam in MissedExams(db, student) && !ActiveOn(db.roll, student, db.exams[exam].course.value)) &&
            (other != exam ==> (other in MissedExams(db', student) <==> other in MissedExams(db, student)))
  {
    ForceSubmitMeaning(db, exam, Key(student, exam));
    ForceSubmitMeaning(db, exam, Key(student, other));
    MissedMeaning(db, student, exam);
    MissedMeaning(db, student, other);
    MissedMeaning(ForceSubmit(db, exam), student, exam);
    MissedMeaning(ForceSubmit(db, exam), student, other);
  }
}
