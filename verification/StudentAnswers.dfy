/** The student_answers table and the write-back of graded answers. */
module StudentAnswers {
  import opened Common
  import opened OrderedDict
  import opened SimilarityGrader
  import opened AnswerGrading

  /** The unique constraint: one row per student, exam and question. */
  datatype Cell = Cell(student: Uuid, exam: Uuid, question: Uuid)

  type Table = map<Cell, Raw>

  /** answers_map_for_student_exam */
  function AnswersFor(t: Table, student: Uuid, exam: Uuid): (m: AnswerMap)
    ensures forall q :: q in m <==> Cell(student, exam, q) in t
    ensures forall q :: q in m ==> m[q] == t[Cell(student, exam, q)]
  {
    var m := map c | c in t && c.student == student && c.exam == exam :: c.question := t[c];
    assert forall q :: Cell(student, exam, q) in t ==> Cell(student, exam, q).question in m;
    m
  }

  /** The JSON that replaces the stored answer. */
  function Payload(e: Entry): Raw {
    Fields(e.option, e.text, Some(Grade(e.score, e.reason)))
  }

  /** The table after every graded item replaced the answer stored for its question. */
  function WriteBack(t: Table, student: Uuid, exam: Uuid, graded: Dict<Uuid, Entry>): Table {
    if graded == [] then t
    else
      var last := graded[|graded| - 1];
      WriteBack(t, student, exam, graded[..|graded| - 1])[Cell(student, exam, last.0) := Payload(last.1)]
  }

  /** Only the cells of this student and exam change, and they hold the payloads. */
  lemma {:induction false} WriteBackCell(t: Table, student: Uuid, exam: Uuid, graded: Dict<Uuid, Entry>, c: Cell)
    requires DistinctKeys(graded)
    ensures var t' := WriteBack(t, student, exam, graded);
            if c.student == student && c.exam == exam && c.question in ToMap(graded)
            then c in t' && t'[c] == Payload(ToMap(graded)[c.question])
            else (c in t' <==> c in t) && (c in t ==> t'[c] == t[c])
  {
    hide Payload, ToMap;
    if graded == [] {
      ToMapKeys(graded);
    } else {
      WriteBackCell(t, student, exam, graded[..|graded| - 1], c);
      ToMapLast(graded);
    }
  }

  /** What one student reads back for one question. */
  lemma WriteBackReads(t: Table, student: Uuid, exam: Uuid, graded: Dict<Uuid, Entry>, question: Uuid)
    requires DistinctKeys(graded)
    ensures Lookup(AnswersFor(WriteBack(t, student, exam, graded), student, exam), question)
         == if question in ToMap(graded) then Payload(ToMap(graded)[question])
            else Lookup(AnswersFor(t, student, exam), question)
  {
    WriteBackCell(t, student, exam, graded, Cell(student, exam, question));
  }

  /** Every graded item is stored whole under its question, whatever stood there. */
  lemma WriteBackStores(t: Table, student: Uuid, exam: Uuid, graded: Dict<Uuid, Entry>, i: nat)
    requires DistinctKeys(graded) && i < |graded|
    ensures var c, e := Cell(student, exam, graded[i].0), graded[i].1;
            var t' := WriteBack(t, student, exam, graded);
            c in t' && t'[c] == Fields(e.option, e.text, Some(Grade(e.score, e.reason)))
  {
    WriteBackCell(t, student, exam, graded, Cell(student, exam, graded[i].0));
    ToMapAt(graded, i);
  }

  /** Nobody else's answers change, nor this student's answers to another exam. */
  lemma WriteBackFrame(t: Table, student: Uuid, exam: Uuid, graded: Dict<Uuid, Entry>, s: Uuid, e: Uuid)
    requires DistinctKeys(graded) && (s != student || e != exam)
    ensures AnswersFor(WriteBack(t, student, exam, graded), s, e) == AnswersFor(t, s, e)
  {
    var a, b := AnswersFor(WriteBack(t, student, exam, graded), s, e), AnswersFor(t, s, e);
    forall q
      ensures (q in a <==> q in b) && (q in b ==> a[q] == b[q])
    {
      WriteBackCell(t, student, exam, graded, Cell(s, e, q));
    }
  }

  /** The write-back changes nothing exactly when every item is stored already. */
  lemma WriteBackNothing(t: Table, student: Uuid, exam: Uuid, graded: Dict<Uuid, Entry>)
    requires DistinctKeys(graded)
    ensures WriteBack(t, student, exam, graded) == t <==>
            forall i :: 0 <= i < |graded| ==>
              var c := Cell(student, exam, graded[i].0); c in t && t[c] == Payload(graded[i].1)
  {
    hide WriteBack, Payload;
    var t' := WriteBack(t, student, exam, graded);
    forall i | 0 <= i < |graded|
      ensures var c := Cell(student, exam, graded[i].0); c in t' && t'[c] == Payload(graded[i].1)
    {
      ToMapAt(graded, i);
      WriteBackCell(t, student, exam, graded, Cell(student, exam, graded[i].0));
    }
    if forall i :: 0 <= i < |graded| ==>
         var c := Cell(student, exam, graded[i].0); c in t && t[c] == Payload(graded[i].1) {
      ToMapKeys(graded);
      forall c: Cell
        ensures (c in t' <==> c in t) && (c in t ==> t'[c] == t[c])
      {
        WriteBackCell(t, student, exam, graded, c);
        if c.question in ToMap(graded) {
          var i :| 0 <= i < |Keys(graded)| && Keys(graded)[i] == c.question;
          ToMapAt(graded, i);
        }
      }
    }
  }

  /** One saved answer shows up in the answers of its student and exam, and nowhere else. */
  lemma UpsertReads(t: Table, c: Cell, answer: Raw, s: Uuid, e: Uuid)
    ensures AnswersFor(t[c := answer], s, e)
         == if s == c.student && e == c.exam then AnswersFor(t, s, e)[c.question := answer] else AnswersFor(t, s, e)
  {
  }

  /** The write-back stores each question's grade beside the answer that earned it. */
  lemma GradesStored(t: Table, student: Uuid, exam: Uuid, plan: Plan, seen: AnswerMap, rows: seq<Row>, k: nat)
    requires DistinctIds(rows) && k < |rows|
    ensures var t' := WriteBack(t, student, exam, GradedItems(plan, seen, rows));
            var q, c := rows[k].q, Cell(student, exam, rows[k].q.id);
            c in t' && t'[c].Fields? && t'[c].graded == Some(GradeOf(plan, seen, rows[k])) &&
            if q.qtype.MultipleChoice? then t'[c].text == None && t'[c].option.Some? && HoldsOption(seen, q.id, t'[c].option.value)
            else t'[c].option == None && t'[c].text.Some? && HoldsText(seen, q.id, t'[c].text.value)
  {
    hide GradeOf, GradedItems, WriteBack;
    GradedItemsRecord(plan, seen, rows);
    var graded, id := GradedItems(plan, seen, rows), rows[k].q.id;
    ToMapKeys(graded);
    var i :| 0 <= i < |Keys(graded)| && Keys(graded)[i] == id;
    ToMapAt(graded, i);
    WriteBackStores(t, student, exam, graded, i);
  }

  class StudentAnswerService {
    var rows: Table

    constructor ()
      ensures rows == map[]
    {
      rows := map[];
    }

    /** INSERT ... ON CONFLICT DO UPDATE of one answer. */
    method Upsert(student: Uuid, exam: Uuid, question: Uuid, answer: Raw)
      modifies this
      ensures rows == old(rows)[Cell(student, exam, question) := answer]
    {
      rows := rows[Cell(student, exam, question) := answer];
    }

    /** All batches in one transaction; a batch size of zero raises before anything is written. */
    method BulkUpsertGraded(student: Uuid, exam: Uuid, graded: Dict<Uuid, Entry>, batchSize: int) returns (ok: bool)
      modifies this
      ensures ok <==> graded == [] || batchSize != 0
      ensures rows == if batchSize > 0 then WriteBack(old(rows), student, exam, graded) else old(rows)
    {
      if graded == [] {
        return true;
      }
      if batchSize == 0 {
        return false;
      }
      var session := rows;
      if batchSize > 0 {
        var i := 0;
        while i < |graded|
          invariant 0 <= i <= |graded|
          invariant session == WriteBack(rows, student, exam, graded[..i])
          invariant rows == old(rows)
        {
          var end := if i + batchSize <= |graded| then i + batchSize else |graded|;
          for j := i to end
            invariant session == WriteBack(rows, student, exam, graded[..j])
          {
            assert graded[..j + 1][..j] == graded[..j];
            session := session[Cell(student, exam, graded[j].0) := Payload(graded[j].1)];
          }
          i := end;
        }
        assert graded[..|graded|] == graded;
      }
      rows := session;
      ok := true;
    }
  }
}

/** Grading again after the write-back. */
module WriteBackFixedPoint {
  import opened Common
  import opened OrderedDict
  import opened AnswerGrading
  import opened GradingRefinement
  import opened StudentAnswers

  /** What the student answered is kept by the write-back, whatever form it was stored in. */
  lemma AnswerKept(t: Table, student: Uuid, exam: Uuid, plan: Plan, rows: seq<Row>, k: nat)
    requires DistinctIds(rows) && k < |rows|
    ensures var before := AnswersFor(t, student, exam);
            var after := AnswersFor(WriteBack(t, student, exam, GradedItems(plan, before, rows)), student, exam);
            AnswerTo(rows[k].q, after) == AnswerTo(rows[k].q, before)
  {
    hide GradeOf, GradedItems, WriteBack, AnswersFor;
    var before := AnswersFor(t, student, exam);
    var graded := GradedItems(plan, before, rows);
    GradedItemsRecord(plan, before, rows);
    WriteBackReads(t, student, exam, graded, rows[k].q.id);
  }

  lemma {:induction false} SameTable(s: Service, rows: seq<Row>, a: AnswerMap, b: AnswerMap)
    requires forall i :: 0 <= i < |rows| ==> AnswerTo(rows[i].q, a) == AnswerTo(rows[i].q, b)
    ensures ReplyTable(s, rows, a) == ReplyTable(s, rows, b)
  {
    if rows != [] {
      SameTable(s, rows[..|rows| - 1], a, b);
    }
  }

  lemma SameGrade(plan: Plan, row: Row, a: AnswerMap, b: AnswerMap)
    requires AnswerTo(row.q, a) == AnswerTo(row.q, b)
    ensures GradeOf(plan, a, row) == GradeOf(plan, b, row)
    ensures EntryOf(plan, a, row) == EntryOf(plan, b, row)
  {
    hide AnswerTo, OutcomeGrade;
  }

  lemma {:induction false} SameTotal(plan: Plan, rows: seq<Row>, a: AnswerMap, b: AnswerMap)
    requires forall i :: 0 <= i < |rows| ==> AnswerTo(rows[i].q, a) == AnswerTo(rows[i].q, b)
    ensures TotalOf(plan, a, rows) == TotalOf(plan, b, rows)
    ensures EntriesOf(plan, a, rows) == EntriesOf(plan, b, rows)
  {
    hide AnswerTo, GradeOf, EntryOf;
    forall i | 0 <= i < |rows|
      ensures GradeOf(plan, a, rows[i]) == GradeOf(plan, b, rows[i]) && EntryOf(plan, a, rows[i]) == EntryOf(plan, b, rows[i])
    {
      SameGrade(plan, rows[i], a, b);
    }
    if rows != [] {
      SameTotal(plan, rows[..|rows| - 1], a, b);
    }
  }

  /** Equal answers mean equal prompts, hence equal totals and items. */
  lemma SameAnswersSameGrading(s: Service, ready: bool, rows: seq<Row>, a: AnswerMap, b: AnswerMap)
    requires forall i :: 0 <= i < |rows| ==> AnswerTo(rows[i].q, a) == AnswerTo(rows[i].q, b)
    ensures BatchPlan(s, ready, rows, a) == BatchPlan(s, ready, rows, b)
    ensures TotalOf(BatchPlan(s, ready, rows, a), a, rows) == TotalOf(BatchPlan(s, ready, rows, b), b, rows)
    ensures GradedItems(BatchPlan(s, ready, rows, a), a, rows) == GradedItems(BatchPlan(s, ready, rows, b), b, rows)
  {
    hide AnswerTo, GradeOf, TheoryOutcome;
    var direct, theory := Select(rows, false), Select(rows, true);
    SelectMembers(rows, false);
    SelectMembers(rows, true);
    forall r | r in rows
      ensures AnswerTo(r.q, a) == AnswerTo(r.q, b)
    {
      var i :| 0 <= i < |rows| && rows[i] == r;
    }
    assert forall i :: 0 <= i < |theory| ==> theory[i] in theory;
    assert forall i :: 0 <= i < |direct| ==> direct[i] in direct;
    SameTable(s, theory, a, b);
    var plan := BatchPlan(s, ready, rows, a);
    SameTotal(plan, rows, a, b);
    var split := direct + theory;
    assert forall i :: 0 <= i < |split| ==> AnswerTo(split[i].q, a) == AnswerTo(split[i].q, b);
    SameTotal(plan, split, a, b);
  }

  /** Re-reading and re-grading gives the same total and the same items. */
  lemma RegradingRepeats(t: Table, student: Uuid, exam: Uuid, rows: seq<Row>, s: Service, ready: bool)
    requires DistinctIds(rows)
    ensures var before := AnswersFor(t, student, exam);
            var plan := BatchPlan(s, ready, rows, before);
            var after := AnswersFor(WriteBack(t, student, exam, GradedItems(plan, before, rows)), student, exam);
            BatchPlan(s, ready, rows, after) == plan &&
            TotalOf(plan, after, rows) == TotalOf(plan, before, rows) &&
            GradedItems(plan, after, rows) == GradedItems(plan, before, rows)
  {
    var before := AnswersFor(t, student, exam);
    var plan := BatchPlan(s, ready, rows, before);
    var after := AnswersFor(WriteBack(t, student, exam, GradedItems(plan, before, rows)), student, exam);
    forall i | 0 <= i < |rows|
      ensures AnswerTo(rows[i].q, after) == AnswerTo(rows[i].q, before)
    {
      AnswerKept(t, student, exam, plan, rows, i);
    }
    SameAnswersSameGrading(s, ready, rows, after, before);
  }

  /** Writing the same items back a second time changes nothing. */
  lemma WriteBackIdempotent(t: Table, student: Uuid, exam: Uuid, graded: Dict<Uuid, Entry>)
    requires DistinctKeys(graded)
    ensures WriteBack(WriteBack(t, student, exam, graded), student, exam, graded) == WriteBack(t, student, exam, graded)
  {
    var once := WriteBack(t, student, exam, graded);
    var twice := WriteBack(once, student, exam, graded);
    forall c
      ensures (c in twice <==> c in once) && (c in once ==> twice[c] == once[c])
    {
      WriteBackCell(t, student, exam, graded, c);
      WriteBackCell(once, student, exam, graded, c);
    }
  }
}
