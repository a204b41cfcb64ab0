/** The single AI call for all theory questions against one call per question. */
module GradingRefinement {
  import opened Common
  import opened DecimalGrid
  import opened SimilarityGrader
  import opened AnswerGrading

  type Transport = t: seq<Option<string>> | |t| == 3 witness [None, None, None]

  /**
    One scoring service behind both forms. Call k of either form raises
    transport[k] when it is set; otherwise it is answered, and a question with
    a given student text always gets the same reply.
  */
  datatype Service = Service(transport: Transport, reply: (Question, string) -> Reply)

  function CallTry(failure: Option<string>, r: Reply): Try {
    if failure.Some? then Failed(failure.value) else Replied(r.score, r.reason)
  }

  function SingleTries(transport: seq<Option<string>>, r: Reply): (t: seq<Try>)
    ensures |t| == |transport|
  {
    if transport == [] then [] else [CallTry(transport[0], r)] + SingleTries(transport[1..], r)
  }

  function BatchTriesFor(transport: seq<Option<string>>, content: map<Uuid, Reply>): (t: seq<BatchTry>)
    ensures |t| == |transport|
  {
    if transport == [] then []
    else [if transport[0].Some? then BatchFailed(transport[0].value) else BatchReplied(content)]
         + BatchTriesFor(transport[1..], content)
  }

  function ReplyTo(s: Service, row: Row, answers: AnswerMap): Reply {
    s.reply(row.q, AnswerTo(row.q, answers))
  }

  /** Both forms send the text that is stored for the question. */
  lemma StoredTextSent(s: Service, row: Row, answers: AnswerMap, t: string)
    requires row.q.qtype.Theory? && HoldsText(answers, row.q.id, t)
    ensures ReplyTo(s, row, answers) == s.reply(row.q, t)
  {
    assert AnswerTo(row.q, answers) == t;
  }

  /** The JSON object the service returns for the batch prompt. */
  function ReplyTable(s: Service, rows: seq<Row>, answers: AnswerMap): map<Uuid, Reply> {
    if rows == [] then map[]
    else ReplyTable(s, rows[..|rows| - 1], answers)[rows[|rows| - 1].q.id := ReplyTo(s, rows[|rows| - 1], answers)]
  }

  lemma {:induction false} ReplyTableAt(s: Service, rows: seq<Row>, answers: AnswerMap, k: nat)
    requires DistinctIds(rows) && k < |rows|
    ensures ReplyFor(ReplyTable(s, rows, answers), rows[k].q.id) == ReplyTo(s, rows[k], answers)
  {
    if k < |rows| - 1 {
      ReplyTableAt(s, rows[..|rows| - 1], answers, k);
    }
  }

  function ThreeTries(s: Service, q: Question, text: string): Tries {
    SingleTries(s.transport, s.reply(q, text))
  }

  function SinglePlan(s: Service, ready: bool): Plan {
    OneByOne(ready, (q: Question, text: string) => ThreeTries(s, q, text))
  }

  function BatchPlan(s: Service, ready: bool, rows: seq<Row>, answers: AnswerMap): Plan {
    var theory := Select(rows, true);
    InOneCall(TheoryOutcome(ready, theory, BatchTriesFor(s.transport, ReplyTable(s, theory, answers))))
  }

  /** Does a call get through before an authentication error ends the retries? */
  predicate Reaches(transport: seq<Option<string>>) {
    transport != [] &&
    (transport[0].None? || (!Permanent(transport[0].value) && Reaches(transport[1..])))
  }

  lemma {:induction false} SingleOutcome(transport: seq<Option<string>>, r: Reply, lastError: string)
    ensures Reaches(transport) && !r.score.Unusable? ==>
              TheoryGrade(SingleTries(transport, r), lastError) == Grade(ScoreOf(r.score), ReasonOf(r.reason))
    ensures !Reaches(transport) || r.score.Unusable? ==> TheoryGrade(SingleTries(transport, r), lastError).score == 0
  {
    if transport != [] {
      var t := SingleTries(transport, r);
      assert t[0] == CallTry(transport[0], r) && t[1..] == SingleTries(transport[1..], r);
      if !Usable(t[0]) {
        SingleOutcome(transport[1..], r, ErrorOf(t[0]));
      }
    }
  }

  lemma {:induction false} OutcomeInOneCall(rows: seq<Row>, transport: seq<Option<string>>, content: map<Uuid, Reply>, lastError: string)
    ensures var o := BatchOutcome(rows, BatchTriesFor(transport, content), lastError);
            if Reaches(transport) && ContentError(rows, content).None? then o == Answered(content) else o.GaveUp?
  {
    if transport != [] {
      var t := BatchTriesFor(transport, content);
      assert t[1..] == BatchTriesFor(transport[1..], content);
      var error := if t[0].BatchFailed? then Some(t[0].message) else ContentError(rows, content);
      if error.Some? {
        OutcomeInOneCall(rows, transport[1..], content, error.value);
      }
    }
  }

  predicate AllReadable(s: Service, rows: seq<Row>, answers: AnswerMap) {
    forall i :: 0 <= i < |rows| && rows[i].q.qtype.Theory? ==> !ReplyTo(s, rows[i], answers).score.Unusable?
  }

  predicate NothingEarned(s: Service, rows: seq<Row>, answers: AnswerMap) {
    forall i :: 0 <= i < |rows| && rows[i].q.qtype.Theory? ==>
      var score := ReplyTo(s, rows[i], answers).score;
      score.Unusable? || ScoreOf(score) == 0
  }

  /** No client, no call answered, every score readable, or no readable score above zero. */
  predicate FormsAgree(s: Service, ready: bool, rows: seq<Row>, answers: AnswerMap) {
    !ready || !Reaches(s.transport) || AllReadable(s, rows, answers) || NothingEarned(s, rows, answers)
  }

  /** The batch reply can be read exactly when every theory score in it can. */
  lemma TableReadable(s: Service, rows: seq<Row>, answers: AnswerMap)
    requires DistinctIds(rows)
    ensures ContentError(Select(rows, true), ReplyTable(s, Select(rows, true), answers)).None? <==>
            AllReadable(s, rows, answers)
  {
    var theory := Select(rows, true);
    var content := ReplyTable(s, theory, answers);
    SelectDistinct(rows, true);
    SelectMembers(rows, true);
    ContentErrorNone(theory, content);
    forall k | 0 <= k < |theory|
      ensures ReplyFor(content, theory[k].q.id) == ReplyTo(s, theory[k], answers) && theory[k] in rows
    {
      ReplyTableAt(s, theory, answers, k);
      assert theory[k] in theory;
    }
    forall i | 0 <= i < |rows| && rows[i].q.qtype.Theory?
      ensures exists k :: 0 <= k < |theory| && theory[k] == rows[i]
    {
      assert rows[i] in theory;
    }
  }

  function SingleScore(s: Service, ready: bool, row: Row, answers: AnswerMap): int {
    GradeOf(SinglePlan(s, ready), answers, row).score
  }

  function BatchScore(s: Service, ready: bool, rows: seq<Row>, row: Row, answers: AnswerMap): int {
    GradeOf(BatchPlan(s, ready, rows, answers), answers, row).score
  }

  lemma SingleTheoryScore(s: Service, ready: bool, row: Row, answers: AnswerMap)
    requires row.q.qtype.Theory?
    ensures SingleScore(s, ready, row, answers) == Earned(s, ready, row, answers)
  {
    hide Reaches, SingleTries, TheoryGrade, AnswerTo, ScoreOf, Permanent;
    SingleOutcome(s.transport, ReplyTo(s, row, answers), "Unknown error");
  }

  /** What the service grants a question whose call gets through and can be read. */
  function Earned(s: Service, ready: bool, row: Row, answers: AnswerMap): int {
    var score := ReplyTo(s, row, answers).score;
    if !ready || !Reaches(s.transport) || score.Unusable? then 0 else ScoreOf(score)
  }

  lemma BatchTheoryScore(s: Service, ready: bool, rows: seq<Row>, k: nat, answers: AnswerMap)
    requires DistinctIds(rows) && k < |rows| && rows[k].q.qtype.Theory?
    ensures BatchScore(s, ready, rows, rows[k], answers)
         == if AllReadable(s, rows, answers) then Earned(s, ready, rows[k], answers) else 0
  {
    hide Reaches, BatchTriesFor, BatchOutcome, ReplyTable, ContentError, AnswerTo, ScoreOf, Select, AllReadable;
    var theory := Select(rows, true);
    OutcomeInOneCall(theory, s.transport, ReplyTable(s, theory, answers), "Unknown error");
    TableReadable(s, rows, answers);
    TableAnswers(s, rows, k, answers);
  }

  lemma TableAnswers(s: Service, rows: seq<Row>, k: nat, answers: AnswerMap)
    requires DistinctIds(rows) && k < |rows| && rows[k].q.qtype.Theory?
    ensures ReplyFor(ReplyTable(s, Select(rows, true), answers), rows[k].q.id) == ReplyTo(s, rows[k], answers)
  {
    var theory := Select(rows, true);
    SelectDistinct(rows, true);
    SelectMembers(rows, true);
    assert rows[k] in theory;
    var i :| 0 <= i < |theory| && theory[i] == rows[k];
    ReplyTableAt(s, theory, answers, i);
  }

  /** What each form gives one theory question. */
  lemma TheoryScores(s: Service, ready: bool, rows: seq<Row>, k: nat, answers: AnswerMap)
    requires DistinctIds(rows) && k < |rows| && rows[k].q.qtype.Theory?
    ensures SingleScore(s, ready, rows[k], answers) == Earned(s, ready, rows[k], answers)
    ensures BatchScore(s, ready, rows, rows[k], answers)
         == if AllReadable(s, rows, answers) then Earned(s, ready, rows[k], answers) else 0
  {
    hide SingleScore, BatchScore, Earned, AllReadable;
    SingleTheoryScore(s, ready, rows[k], answers);
    BatchTheoryScore(s, ready, rows, k, answers);
  }

  /** Direct rows never reach the service. */
  lemma DirectScores(s: Service, ready: bool, rows: seq<Row>, row: Row, answers: AnswerMap)
    requires !row.q.qtype.Theory?
    ensures BatchScore(s, ready, rows, row, answers) == SingleScore(s, ready, row, answers)
  {
    hide DirectGrade, Select, ReplyTable, BatchTriesFor;
  }

  /** The fast form gives every question the score of the simple form exactly when FormsAgree. */
  lemma BatchRefinesSingle(s: Service, ready: bool, rows: seq<Row>, answers: AnswerMap)
    requires DistinctIds(rows)
    ensures (forall i :: 0 <= i < |rows| ==>
              BatchScore(s, ready, rows, rows[i], answers) == SingleScore(s, ready, rows[i], answers))
            <==> FormsAgree(s, ready, rows, answers)
  {
    hide SingleScore, BatchScore, ScoreOf, Reaches, ReplyTo;
    forall i | 0 <= i < |rows|
      ensures if rows[i].q.qtype.Theory? then
                SingleScore(s, ready, rows[i], answers) == Earned(s, ready, rows[i], answers) &&
                BatchScore(s, ready, rows, rows[i], answers)
                  == (if AllReadable(s, rows, answers) then Earned(s, ready, rows[i], answers) else 0)
              else BatchScore(s, ready, rows, rows[i], answers) == SingleScore(s, ready, rows[i], answers)
    {
      if rows[i].q.qtype.Theory? {
        TheoryScores(s, ready, rows, i, answers);
      } else {
        DirectScores(s, ready, rows, rows[i], answers);
      }
    }
  }

  lemma {:induction false} SameScoresSameTotal(p: Plan, p': Plan, rows: seq<Row>, answers: AnswerMap)
    requires forall i :: 0 <= i < |rows| ==> GradeOf(p, answers, rows[i]).score == GradeOf(p', answers, rows[i]).score
    ensures TotalOf(p, answers, rows) == TotalOf(p', answers, rows)
  {
    if rows != [] {
      SameScoresSameTotal(p, p', rows[..|rows| - 1], answers);
    }
  }

  /** Then totals agree too, and so does the stored text or option of every question. */
  lemma BatchRefinesSingleTotal(s: Service, ready: bool, rows: seq<Row>, answers: AnswerMap)
    requires DistinctIds(rows) && FormsAgree(s, ready, rows, answers)
    ensures TotalOf(BatchPlan(s, ready, rows, answers), answers, rows) == TotalOf(SinglePlan(s, ready), answers, rows)
    ensures forall i :: 0 <= i < |rows| ==>
              EntryOf(BatchPlan(s, ready, rows, answers), answers, rows[i]).(reason := "") ==
              EntryOf(SinglePlan(s, ready), answers, rows[i]).(reason := "")
  {
    hide DirectGrade, AnswerTo, FormsAgree, SinglePlan, BatchPlan, QuestionScore;
    BatchRefinesSingle(s, ready, rows, answers);
    assert forall i :: 0 <= i < |rows| ==>
      BatchScore(s, ready, rows, rows[i], answers) == SingleScore(s, ready, rows[i], answers);
    SameScoresSameTotal(BatchPlan(s, ready, rows, answers), SinglePlan(s, ready), rows, answers);
  }

  function TwoQuestions(): seq<Row> {
    [Row(Question(1, Theory, Some(1000), "first", "", "general"), None),
     Row(Question(2, Theory, Some(1000), "second", "", "general"), None)]
  }

  function OneUnreadable(q: Question, text: string): Reply {
    Reply(if q.id == 1 then Number(1.0) else Unusable("conversion"), None)
  }

  /** One unreadable score in the batch reply costs the other question its mark. */
  lemma BatchCanLoseAScore()
    ensures var s := Service([None, None, None], OneUnreadable);
            var rows := TwoQuestions();
            DistinctIds(rows) &&
            SingleScore(s, true, rows[0], map[]) == 100 && BatchScore(s, true, rows, rows[0], map[]) == 0
  {
    var s := Service([None, None, None], OneUnreadable);
    var rows := TwoQuestions();
    TheoryScores(s, true, rows, 0, map[]);
    assert ReplyTo(s, rows[1], map[]).score.Unusable?;
    assert !AllReadable(s, rows, map[]);
    RoundHalfUpExact(100);
  }
}

/** Bounds and invariances of the total score. */
module GradingBounds {
  import opened DecimalGrid
  import opened AnswerGrading

  predicate NonNegativeMarks(rows: seq<Row>) {
    forall i :: 0 <= i < |rows| ==> Mark(rows[i].q) >= 0
  }

  function SumOfMarks(rows: seq<Row>): int {
    if rows == [] then 0 else SumOfMarks(rows[..|rows| - 1]) + Mark(rows[|rows| - 1].q)
  }

  /** No exam scores below zero or above its marks. */
  lemma {:induction false} TotalBounds(plan: Plan, answers: AnswerMap, rows: seq<Row>)
    requires NonNegativeMarks(rows)
    ensures 0 <= TotalOf(plan, answers, rows) <= SumOfMarks(rows)
  {
    if rows != [] {
      var last := rows[|rows| - 1];
      TotalBounds(plan, answers, rows[..|rows| - 1]);
      ProductBounds(GradeOf(plan, answers, last).score, Mark(last.q));
    }
  }

  /** Raising scores never lowers the total. */
  lemma {:induction false} TotalMonotone(p: Plan, p': Plan, answers: AnswerMap, rows: seq<Row>)
    requires NonNegativeMarks(rows)
    requires forall i :: 0 <= i < |rows| ==> GradeOf(p, answers, rows[i]).score <= GradeOf(p', answers, rows[i]).score
    ensures TotalOf(p, answers, rows) <= TotalOf(p', answers, rows)
  {
    if rows != [] {
      var last := rows[|rows| - 1];
      TotalMonotone(p, p', answers, rows[..|rows| - 1]);
      ProductMonotone(GradeOf(p, answers, last).score, GradeOf(p', answers, last).score, Mark(last.q));
    }
  }

  /** The unrounded sum of score times mark, in ten-thousandths. */
  function ExactTotal(plan: Plan, answers: AnswerMap, rows: seq<Row>): int {
    if rows == [] then 0
    else
      var last := rows[|rows| - 1];
      ExactTotal(plan, answers, rows[..|rows| - 1]) + GradeOf(plan, answers, last).score * Mark(last.q)
  }

  /** Rounding costs at most half a hundredth per theory question, and nothing elsewhere. */
  lemma {:induction false} TotalError(plan: Plan, answers: AnswerMap, rows: seq<Row>)
    ensures -50 * |Select(rows, true)| <= 100 * TotalOf(plan, answers, rows) - ExactTotal(plan, answers, rows)
            <= 50 * |Select(rows, true)|
  {
    if rows != [] {
      var last := rows[|rows| - 1];
      TotalError(plan, answers, rows[..|rows| - 1]);
      DirectAllOrNothing(plan, answers, last);
      ProductError(GradeOf(plan, answers, last).score, Mark(last.q));
    }
  }

  lemma DirectAllOrNothing(plan: Plan, answers: AnswerMap, row: Row)
    ensures !row.q.qtype.Theory? ==>
              100 * QuestionScore(plan, answers, row) == GradeOf(plan, answers, row).score * Mark(row.q)
  {
    if !row.q.qtype.Theory? {
      var score := GradeOf(plan, answers, row).score;
      assert score == 0 || score == 100;
      ProductExact(score, Mark(row.q));
    }
  }

  lemma {:induction false} TotalWithout(plan: Plan, answers: AnswerMap, rows: seq<Row>, k: nat)
    requires k < |rows|
    ensures TotalOf(plan, answers, rows)
         == TotalOf(plan, answers, rows[..k] + rows[k + 1..]) + QuestionScore(plan, answers, rows[k])
  {
    hide QuestionScore;
    var n := |rows| - 1;
    if k < n {
      TotalWithout(plan, answers, rows[..n], k);
      assert rows[..n][..k] + rows[..n][k + 1..] + [rows[n]] == rows[..k] + rows[k + 1..];
      TotalAppend(plan, answers, rows[..n][..k] + rows[..n][k + 1..], rows[n]);
    } else {
      assert rows[..k] + rows[k + 1..] == rows[..n];
    }
  }

  /** A permutation holds the last row somewhere, and is a permutation of the others without it. */
  lemma RemoveLast(rows: seq<Row>, rows': seq<Row>) returns (k: nat)
    requires rows != [] && multiset(rows) == multiset(rows')
    ensures k < |rows'| && rows'[k] == rows[|rows| - 1]
    ensures multiset(rows[..|rows| - 1]) == multiset(rows'[..k] + rows'[k + 1..])
  {
    var last := rows[|rows| - 1];
    assert last in multiset(rows');
    k :| 0 <= k < |rows'| && rows'[k] == last;
    var rest := rows'[..k] + rows'[k + 1..];
    assert rows == rows[..|rows| - 1] + [last];
    assert rows' == rows'[..k] + [last] + rows'[k + 1..];
    assert multiset(rows') == multiset(rest) + multiset{last};
    assert multiset(rows[..|rows| - 1]) == multiset(rows) - multiset{last};
  }

  /** The order in which the query returns the rows does not matter. */
  lemma {:induction false} TotalOrderIndependent(plan: Plan, answers: AnswerMap, rows: seq<Row>, rows': seq<Row>)
    requires multiset(rows) == multiset(rows')
    ensures TotalOf(plan, answers, rows) == TotalOf(plan, answers, rows')
  {
    hide QuestionScore;
    if rows == [] {
      assert |multiset(rows')| == 0;
    } else {
      var n := |rows| - 1;
      var k := RemoveLast(rows, rows');
      var rest := rows'[..k] + rows'[k + 1..];
      TotalOrderIndependent(plan, answers, rows[..n], rest);
      TotalWithout(plan, answers, rows', k);
    }
  }
}
