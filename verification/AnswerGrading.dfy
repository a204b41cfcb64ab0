/**
  Grading of a whole exam, once question by question and once with a single
  AI call for all theory questions. Scores and marks are hundredths.
*/
module AnswerGrading {
  import opened Common
  import opened OrderedDict
  import opened DecimalGrid
  import opened Text
  import opened SimilarityGrader

  datatype QuestionType = MultipleChoice | FillInBlanks | Theory

  datatype Question = Question(
    id: Uuid, qtype: QuestionType, mark: Option<int>, text: string, rules: string, industry: string)

  /** The stored key: an option letter, or a text with its accepted variations. */
  datatype Answer = Answer(value: Option<char>, textValue: Option<string>, variations: seq<string>)

  /** One row of the question query, outer-joined with its key. */
  datatype Row = Row(q: Question, a: Option<Answer>)

  /** A stored student answer: any non-object JSON value as its text, or an object. */
  datatype Raw =
    | Plain(str: string)
    | Fields(option: Option<string>, text: Option<string>, graded: Option<Grade>)

  type AnswerMap = map<Uuid, Raw>

  /** One value of graded_answers. */
  datatype Entry = Entry(score: int, reason: string, option: Option<string>, text: Option<string>)

  ghost predicate DistinctIds(rows: seq<Row>) {
    forall i, j :: 0 <= i < j < |rows| ==> rows[i].q.id != rows[j].q.id
  }

  // ---- what the student answered -------------------------------------------

  function OrEmpty(s: Option<string>): string {
    if s.None? then "" else s.value
  }

  /** answers.get(qid, {}) */
  function Lookup(answers: AnswerMap, id: Uuid): Raw {
    if id in answers then answers[id] else Fields(None, None, None)
  }

  function StudentAnswer(q: Question, raw: Raw): string {
    match raw
    case Plain(s) => s
    case Fields(option, text, _) => if q.qtype.MultipleChoice? then OrEmpty(option) else OrEmpty(text)
  }

  function AnswerTo(q: Question, answers: AnswerMap): string {
    StudentAnswer(q, Lookup(answers, q.id))
  }

  function Mark(q: Question): int {
    if q.mark.Some? then q.mark.value else 0
  }

  // ---- direct grading ------------------------------------------------------

  /** str() of a member of an enum that also derives from str is the qualified name. */
  function EnumText(letter: char): string {
    "AnswerEnum." + [letter]
  }

  function ChoiceKey(a: Option<Answer>): Option<string> {
    if a.Some? && a.value.value.Some? then Some(Clean(EnumText(a.value.value.value))) else None
  }

  function BlankKey(a: Option<Answer>): Option<string> {
    if a.Some? && !Missing(a.value.textValue) then Some(Strip(a.value.textValue.value)) else None
  }

  function Variations(a: Option<Answer>): seq<string> {
    if a.Some? then a.value.variations else []
  }

  function DirectGrade(row: Row, answers: AnswerMap): (g: Grade)
    requires !row.q.qtype.Theory?
    ensures ValidScore(g.score)
  {
    if row.q.qtype.MultipleChoice? then GradeChoice(AnswerTo(row.q, answers), ChoiceKey(row.a))
    else GradeBlank(AnswerTo(row.q, answers), BlankKey(row.a), Variations(row.a))
  }

  /** A multiple-choice row earns its mark exactly for the qualified enum name, in any case. */
  lemma ChoiceScoredForEnumNameOnly(row: Row, answers: AnswerMap)
    requires row.q.qtype.MultipleChoice?
    requires row.a.Some? && row.a.value.value.Some? && 'A' <= row.a.value.value.value <= 'Z'
    ensures DirectGrade(row, answers).score == 100 <==>
            Clean(AnswerTo(row.q, answers)) == "answerenum." + [LowerChar(row.a.value.value.value)]
  {
    var letter := row.a.value.value.value;
    var t := EnumText(letter);
    assert StripLeft(t) == t && StripRight(t) == t;
    assert Clean(t) == "answerenum." + [LowerChar(letter)];
    CleanIdempotent(t);
  }

  /** So an option letter, which the documentation calls correct, earns nothing, and no other single character does. */
  lemma ChoiceLetterEarnsNothing(row: Row, answers: AnswerMap)
    requires row.q.qtype.MultipleChoice?
    requires row.a.Some? && row.a.value.value.Some? ==> 'A' <= row.a.value.value.value <= 'Z'
    requires |AnswerTo(row.q, answers)| <= 1
    ensures DirectGrade(row, answers).score == 0
  {
    if row.a.Some? && row.a.value.value.Some? {
      ChoiceScoredForEnumNameOnly(row, answers);
      CleanShortens(AnswerTo(row.q, answers));
    }
  }

  // ---- the two ways to grade theory ----------------------------------------

  type Tries = t: seq<Try> | |t| == 3 witness [Failed(""), Failed(""), Failed("")]

  /** What the batch reply holds under one question id. */
  datatype Reply = Reply(score: RawScore, reason: Option<string>)

  datatype BatchTry = BatchFailed(message: string) | BatchReplied(content: map<Uuid, Reply>)

  type BatchTries = t: seq<BatchTry> | |t| == 3 witness [BatchFailed(""), BatchFailed(""), BatchFailed("")]

  /** batch_result.get(qid, {}) */
  function ReplyFor(content: map<Uuid, Reply>, id: Uuid): Reply {
    if id in content then content[id] else Reply(Absent, None)
  }

  /** The error raised by the first question whose score cannot be read. */
  function ContentError(rows: seq<Row>, content: map<Uuid, Reply>): Option<string> {
    if rows == [] then None
    else
      var earlier := ContentError(rows[..|rows| - 1], content);
      if earlier.Some? then earlier
      else
        var score := ReplyFor(content, rows[|rows| - 1].q.id).score;
        if score.Unusable? then Some(score.message) else None
  }

  datatype Outcome = NoClient | Answered(content: map<Uuid, Reply>) | GaveUp(error: string)

  function BatchOutcome(rows: seq<Row>, tries: seq<BatchTry>, lastError: string): Outcome {
    if tries == [] then GaveUp(lastError)
    else
      var error := if tries[0].BatchFailed? then Some(tries[0].message) else ContentError(rows, tries[0].content);
      if error.None? then Answered(tries[0].content)
      else if Permanent(error.value) then GaveUp(error.value)
      else BatchOutcome(rows, tries[1..], error.value)
  }

  function OutcomeGrade(o: Outcome, id: Uuid): (g: Grade)
    ensures ValidScore(g.score)
  {
    match o
    case NoClient => Grade(0, "Error: Groq client not available")
    case GaveUp(error) => Grade(0, "Error: " + error)
    case Answered(content) =>
      var reply := ReplyFor(content, id);
      if reply.score.Unusable? then Grade(0, "") else Grade(ScoreOf(reply.score), ReasonOf(reply.reason))
  }

  /** How theory answers are graded: one call each, or all from one outcome. */
  datatype Plan =
    | OneByOne(ready: bool, ask: (Question, string) -> Tries)
    | InOneCall(outcome: Outcome)

  function NoClientGrade(): Grade {
    Grade(0, "Error: Groq client not available. Set GROQ_API_KEYS or pass api_key.")
  }

  function GradeOf(plan: Plan, answers: AnswerMap, row: Row): (g: Grade)
    ensures ValidScore(g.score)
  {
    if !row.q.qtype.Theory? then DirectGrade(row, answers)
    else match plan
      case InOneCall(outcome) => OutcomeGrade(outcome, row.q.id)
      case OneByOne(ready, ask) =>
        if !ready then NoClientGrade() else TheoryGrade(ask(row.q, AnswerTo(row.q, answers)), "Unknown error")
  }

  // ---- totals and entries --------------------------------------------------

  function QuestionScore(plan: Plan, answers: AnswerMap, row: Row): int {
    Product(GradeOf(plan, answers, row).score, Mark(row.q))
  }

  function TotalOf(plan: Plan, answers: AnswerMap, rows: seq<Row>): int {
    if rows == [] then 0
    else TotalOf(plan, answers, rows[..|rows| - 1]) + QuestionScore(plan, answers, rows[|rows| - 1])
  }

  function EntryOf(plan: Plan, answers: AnswerMap, row: Row): Entry {
    var g := GradeOf(plan, answers, row);
    var kept := AnswerTo(row.q, answers);
    if row.q.qtype.MultipleChoice? then Entry(g.score, g.reason, Some(kept), None)
    else Entry(g.score, g.reason, None, Some(kept))
  }

  function EntriesOf(plan: Plan, answers: AnswerMap, rows: seq<Row>): (d: Dict<Uuid, Entry>)
    ensures |d| == |rows|
    ensures forall i :: 0 <= i < |rows| ==> d[i] == (rows[i].q.id, EntryOf(plan, answers, rows[i]))
  {
    seq(|rows|, i requires 0 <= i < |rows| => (rows[i].q.id, EntryOf(plan, answers, rows[i])))
  }

  /** graded holds exactly one entry for each row, under the row's id. */
  ghost predicate Records(graded: map<Uuid, Entry>, plan: Plan, answers: AnswerMap, rows: seq<Row>) {
    (forall i :: 0 <= i < |rows| ==>
      rows[i].q.id in graded && graded[rows[i].q.id] == EntryOf(plan, answers, rows[i])) &&
    (forall id :: id in graded ==> exists i :: 0 <= i < |rows| && rows[i].q.id == id)
  }

  lemma EntriesRecord(plan: Plan, answers: AnswerMap, rows: seq<Row>)
    requires DistinctIds(rows)
    ensures DistinctKeys(EntriesOf(plan, answers, rows))
    ensures Records(ToMap(EntriesOf(plan, answers, rows)), plan, answers, rows)
  {
    hide EntryOf;
    var d := EntriesOf(plan, answers, rows);
    ToMapKeys(d);
    forall i | 0 <= i < |rows|
      ensures d[i].0 in ToMap(d) && ToMap(d)[d[i].0] == d[i].1
    {
      ToMapAt(d, i);
    }
    forall id | id in ToMap(d)
      ensures exists i :: 0 <= i < |rows| && rows[i].q.id == id
    {
      var i :| 0 <= i < |Keys(d)| && Keys(d)[i] == id;
      assert rows[i].q.id == id;
    }
  }

  /** Adding one row's entry to a dict that holds the entries of the rows before it. */
  lemma EntriesExtend(plan: Plan, answers: AnswerMap, rows: seq<Row>, k: nat)
    requires DistinctIds(rows) && k < |rows|
    ensures Put(EntriesOf(plan, answers, rows[..k]), rows[k].q.id, EntryOf(plan, answers, rows[k]))
         == EntriesOf(plan, answers, rows[..k + 1])
  {
    hide EntryOf;
    var d := EntriesOf(plan, answers, rows[..k]);
    forall i | 0 <= i < |Keys(d)|
      ensures Keys(d)[i] != rows[k].q.id
    {
      assert Keys(d)[i] == rows[i].q.id;
    }
    PutNew(d, rows[k].q.id, EntryOf(plan, answers, rows[k]));
  }

  lemma TotalExtend(plan: Plan, answers: AnswerMap, rows: seq<Row>, k: nat)
    requires k < |rows|
    ensures TotalOf(plan, answers, rows[..k + 1])
         == TotalOf(plan, answers, rows[..k]) + QuestionScore(plan, answers, rows[k])
  {
    hide QuestionScore;
    assert rows[..k + 1][..k] == rows[..k];
  }

  // ---- what is graded, read off the stored answers -------------------------

  /** t is the text stored for a question; nothing stored reads as empty. */
  ghost predicate HoldsText(answers: AnswerMap, id: Uuid, t: string) {
    if id !in answers then t == ""
    else match answers[id]
      case Plain(s) => t == s
      case Fields(_, None, _) => t == ""
      case Fields(_, Some(s), _) => t == s
  }

  ghost predicate HoldsOption(answers: AnswerMap, id: Uuid, o: string) {
    if id !in answers then o == ""
    else match answers[id]
      case Plain(s) => o == s
      case Fields(None, _, _) => o == ""
      case Fields(Some(s), _, _) => o == s
  }

  /** A fill-in answer counts for a key that is more than white space, or with it for a listed variation. */
  ghost predicate BlankFits(a: Option<Answer>, t: string) {
    a.Some? && a.value.textValue.Some? && Strip(a.value.textValue.value) != "" &&
    (Clean(t) == Clean(a.value.textValue.value) ||
     exists i :: 0 <= i < |a.value.variations| && Clean(t) == Clean(a.value.variations[i]))
  }

  /** The stored text is what is graded and kept, whether it was graded before or not. */
  lemma TextGraded(plan: Plan, answers: AnswerMap, row: Row, t: string)
    requires !row.q.qtype.MultipleChoice? && HoldsText(answers, row.q.id, t)
    ensures var e := EntryOf(plan, answers, row);
            e.text == Some(t) && e.option == None && GradeOf(plan, answers, row) == Grade(e.score, e.reason) &&
            (row.q.qtype.FillInBlanks? ==> e.score == if BlankFits(row.a, t) then 100 else 0) &&
            (row.q.qtype.Theory? && plan.OneByOne? && plan.ready ==>
              TheoryGrade(plan.ask(row.q, t), "Unknown error") == Grade(e.score, e.reason))
  {
    hide Clean, Strip, TheoryGrade;
    assert AnswerTo(row.q, answers) == t;
    if row.a.Some? && row.a.value.textValue.Some? {
      StripIdempotent(row.a.value.textValue.value);
      StripOfEmpty();
    }
  }

  lemma StripOfEmpty()
    ensures Strip("") == ""
  {
  }

  /** The stored option is what is graded and kept; it scores for the enum name of its letter only. */
  lemma OptionGraded(plan: Plan, answers: AnswerMap, row: Row, o: string)
    requires row.q.qtype.MultipleChoice? && HoldsOption(answers, row.q.id, o)
    requires row.a.Some? && row.a.value.value.Some? ==> 'A' <= row.a.value.value.value <= 'Z'
    ensures var e := EntryOf(plan, answers, row);
            e.option == Some(o) && e.text == None && GradeOf(plan, answers, row) == Grade(e.score, e.reason) &&
            e.score == if row.a.Some? && row.a.value.value.Some? &&
                          Clean(o) == "answerenum." + [LowerChar(row.a.value.value.value)] then 100 else 0
  {
    assert AnswerTo(row.q, answers) == o;
    if row.a.Some? && row.a.value.value.Some? {
      ChoiceScoredForEnumNameOnly(row, answers);
    }
  }

  function Sum(s: seq<int>): int {
    if s == [] then 0 else s[0] + Sum(s[1..])
  }

  lemma {:induction false} SumAppend(s: seq<int>, x: int)
    ensures Sum(s + [x]) == Sum(s) + x
  {
    if s == [] {
      assert s + [x] == [x];
    } else {
      assert (s + [x])[1..] == s[1..] + [x];
      SumAppend(s[1..], x);
    }
  }

  /** score times mark of every row, rounded each; a question without a mark counts zero. */
  function Weighted(plan: Plan, answers: AnswerMap, rows: seq<Row>): (s: seq<int>)
    ensures |s| == |rows|
    ensures forall i :: 0 <= i < |rows| ==>
              s[i] == Product(GradeOf(plan, answers, rows[i]).score, if rows[i].q.mark.Some? then rows[i].q.mark.value else 0)
  {
    seq(|rows|, i requires 0 <= i < |rows| =>
      Product(GradeOf(plan, answers, rows[i]).score, if rows[i].q.mark.Some? then rows[i].q.mark.value else 0))
  }

  /** The total of an exam is the sum over its questions. */
  lemma {:induction false} TotalIsSum(plan: Plan, answers: AnswerMap, rows: seq<Row>)
    ensures TotalOf(plan, answers, rows) == Sum(Weighted(plan, answers, rows))
  {
    hide GradeOf;
    if rows != [] {
      var n := |rows| - 1;
      TotalIsSum(plan, answers, rows[..n]);
      var w := Weighted(plan, answers, rows);
      assert w == Weighted(plan, answers, rows[..n]) + [w[n]];
      SumAppend(Weighted(plan, answers, rows[..n]), w[n]);
    }
  }

  // ---- the one call, read off its replies ----------------------------------

  ghost predicate Readable(rows: seq<Row>, content: map<Uuid, Reply>) {
    forall i :: 0 <= i < |rows| && rows[i].q.id in content ==> !content[rows[i].q.id].score.Unusable?
  }

  /** The try raises m: the call itself, or the first question whose score cannot be read. */
  ghost predicate Raises(rows: seq<Row>, t: BatchTry, m: string) {
    match t
    case BatchFailed(e) => m == e
    case BatchReplied(content) =>
      exists i :: 0 <= i < |rows| && Readable(rows[..i], content) &&
                  rows[i].q.id in content && content[rows[i].q.id].score == Unusable(m)
  }

  ghost predicate RaisesOnce(rows: seq<Row>, t: BatchTry) {
    exists m :: Raises(rows, t, m) && !Permanent(m)
  }

  lemma {:induction false} ContentErrorFirst(rows: seq<Row>, content: map<Uuid, Reply>, i: nat, m: string)
    requires i < |rows| && Readable(rows[..i], content)
    requires rows[i].q.id in content && content[rows[i].q.id].score == Unusable(m)
    ensures ContentError(rows, content) == Some(m)
  {
    ContentErrorNone(rows[..i], content);
    assert rows[..i + 1][..i] == rows[..i];
    ContentErrorStays(rows, content, i + 1);
  }

  lemma RaisesAsRead(rows: seq<Row>, t: BatchTry, m: string)
    requires Raises(rows, t, m)
    ensures t.BatchFailed? ==> t.message == m
    ensures t.BatchReplied? ==> ContentError(rows, t.content) == Some(m)
  {
    if t.BatchReplied? {
      var i :| 0 <= i < |rows| && Readable(rows[..i], t.content) &&
               rows[i].q.id in t.content && t.content[rows[i].q.id].score == Unusable(m);
      ContentErrorFirst(rows, t.content, i, m);
    }
  }

  /** The first reply that can be read as a whole decides, if no permanent error came before it. */
  lemma {:induction false} ReadableReplyDecides(rows: seq<Row>, tries: seq<BatchTry>, lastError: string, k: nat)
    requires k < |tries| && forall j :: 0 <= j < k ==> RaisesOnce(rows, tries[j])
    requires tries[k].BatchReplied? && Readable(rows, tries[k].content)
    ensures BatchOutcome(rows, tries, lastError) == Answered(tries[k].content)
  {
    if k == 0 {
      ContentErrorNone(rows, tries[0].content);
    } else {
      assert RaisesOnce(rows, tries[0]);
      var m :| Raises(rows, tries[0], m) && !Permanent(m);
      RaisesAsRead(rows, tries[0], m);
      ReadableReplyDecides(rows, tries[1..], m, k - 1);
    }
  }

  /** Without one, the error that ended the tries is recorded for every question. */
  lemma {:induction false} LastErrorDecides(rows: seq<Row>, tries: seq<BatchTry>, lastError: string, k: nat, m: string)
    requires k < |tries| && forall j :: 0 <= j < k ==> RaisesOnce(rows, tries[j])
    requires Raises(rows, tries[k], m) && (Permanent(m) || k == |tries| - 1)
    ensures BatchOutcome(rows, tries, lastError) == GaveUp(m)
  {
    if k == 0 {
      RaisesAsRead(rows, tries[0], m);
      assert !Permanent(m) ==> tries[1..] == [];
    } else {
      assert RaisesOnce(rows, tries[0]);
      var e :| Raises(rows, tries[0], e) && !Permanent(e);
      RaisesAsRead(rows, tries[0], e);
      LastErrorDecides(rows, tries[1..], e, k - 1, m);
    }
  }

  /** What a theory question gets from the outcome of the one call. */
  lemma OutcomeGraded(outcome: Outcome, answers: AnswerMap, row: Row)
    requires row.q.qtype.Theory?
    ensures forall rows, tries :: TheoryOutcome(false, rows, tries) == NoClient
    ensures var g := GradeOf(InOneCall(outcome), answers, row);
            match outcome
            case NoClient => g == Grade(0, "Error: Groq client not available")
            case GaveUp(m) => g == Grade(0, "Error: " + m)
            case Answered(content) =>
              if row.q.id !in content then g == Grade(0, "No reason provided")
              else
                var reply := content[row.q.id];
                !reply.score.Unusable? ==>
                  ScoreFits(reply.score, g.score) &&
                  g.reason == if reply.reason.Some? then reply.reason.value else "No reason provided"
  {
    if outcome.Answered? && row.q.id in outcome.content && !outcome.content[row.q.id].score.Unusable? {
      var score := outcome.content[row.q.id].score;
      ScoreOfFits(score, ScoreOf(score));
    }
  }

  // ---- grading one question at a time --------------------------------------

  /** The simple form: rows in query order, one AI call per theory question. */
  method GradeAnswers(rows: seq<Row>, answers: AnswerMap, ready: bool, ask: (Question, string) -> Tries)
    returns (total: Option<int>, graded: Dict<Uuid, Entry>)
    requires DistinctIds(rows)
    ensures rows == [] ==> total == None && graded == []
    ensures rows != [] ==> total == Some(TotalOf(OneByOne(ready, ask), answers, rows))
    ensures graded == EntriesOf(OneByOne(ready, ask), answers, rows)
  {
    hide DirectGrade, TheoryGrade, AnswerTo;
    ghost var plan := OneByOne(ready, ask);
    if rows == [] {
      return None, [];
    }
    var sum := 0;
    graded := [];
    for k := 0 to |rows|
      invariant sum == TotalOf(plan, answers, rows[..k])
      invariant graded == EntriesOf(plan, answers, rows[..k])
    {
      var row := rows[k];
      var student := AnswerTo(row.q, answers);
      var g: Grade;
      if row.q.qtype.Theory? {
        g := GradeTheory(ready, ask(row.q, student));
      } else {
        g := DirectGrade(row, answers);
      }
      TotalExtend(plan, answers, rows, k);
      EntriesExtend(plan, answers, rows, k);
      sum := sum + Product(g.score, Mark(row.q));
      var entry := if row.q.qtype.MultipleChoice? then Entry(g.score, g.reason, Some(student), None)
                   else Entry(g.score, g.reason, None, Some(student));
      graded := Put(graded, row.q.id, entry);
    }
    assert rows[..|rows|] == rows;
    total := Some(sum);
  }

  // ---- grading in one call -------------------------------------------------

  /** The direct rows, or the theory rows, in query order. */
  function Select(rows: seq<Row>, theory: bool): seq<Row> {
    if rows == [] then []
    else
      var last := rows[|rows| - 1];
      Select(rows[..|rows| - 1], theory) + if last.q.qtype.Theory? == theory then [last] else []
  }

  lemma {:induction false} SelectMembers(rows: seq<Row>, theory: bool)
    ensures forall r :: r in Select(rows, theory) <==> r in rows && r.q.qtype.Theory? == theory
  {
    if rows != [] {
      SelectMembers(rows[..|rows| - 1], theory);
      assert rows == rows[..|rows| - 1] + [rows[|rows| - 1]];
    }
  }

  lemma {:induction false} SelectDistinct(rows: seq<Row>, theory: bool)
    requires DistinctIds(rows)
    ensures DistinctIds(Select(rows, theory))
  {
    if rows != [] {
      var init, last := rows[..|rows| - 1], rows[|rows| - 1];
      SelectDistinct(init, theory);
      SelectMembers(init, theory);
      forall r | r in Select(init, theory)
        ensures r.q.id != last.q.id
      {
        var i :| 0 <= i < |init| && init[i] == r;
        assert rows[i] == r;
      }
    }
  }

  lemma TotalAppend(plan: Plan, answers: AnswerMap, rows: seq<Row>, row: Row)
    ensures TotalOf(plan, answers, rows + [row]) == TotalOf(plan, answers, rows) + QuestionScore(plan, answers, row)
  {
    assert (rows + [row])[..|rows|] == rows;
  }

  /** Splitting the rows and adding up the two halves gives the total in row order. */
  lemma {:induction false} TotalSplits(plan: Plan, answers: AnswerMap, rows: seq<Row>)
    ensures TotalOf(plan, answers, rows)
         == TotalOf(plan, answers, Select(rows, false)) + TotalOf(plan, answers, Select(rows, true))
  {
    hide QuestionScore;
    if rows != [] {
      var init, last := rows[..|rows| - 1], rows[|rows| - 1];
      TotalSplits(plan, answers, init);
      TotalAppend(plan, answers, Select(init, last.q.qtype.Theory?), last);
      assert Select(init, !last.q.qtype.Theory?) + [] == Select(init, !last.q.qtype.Theory?);
    }
  }

  /** The mark found again by id among the theory rows. */
  function FindMark(rows: seq<Row>, id: Uuid): int {
    if rows == [] then 0
    else if rows[0].q.id == id && rows[0].q.mark.Some? then rows[0].q.mark.value
    else FindMark(rows[1..], id)
  }

  lemma {:induction false} FindMarkFinds(rows: seq<Row>, k: nat)
    requires DistinctIds(rows) && k < |rows|
    ensures FindMark(rows, rows[k].q.id) == Mark(rows[k].q)
  {
    if k > 0 {
      assert rows[1..][k - 1] == rows[k];
      FindMarkFinds(rows[1..], k - 1);
    } else {
      FindMarkAbsent(rows[1..], rows[0].q.id);
    }
  }

  lemma {:induction false} FindMarkAbsent(rows: seq<Row>, id: Uuid)
    requires forall i :: 0 <= i < |rows| ==> rows[i].q.id != id
    ensures FindMark(rows, id) == 0
  {
    if rows != [] {
      FindMarkAbsent(rows[1..], id);
    }
  }

  function TheoryOutcome(ready: bool, rows: seq<Row>, tries: seq<BatchTry>): Outcome {
    if ready then BatchOutcome(rows, tries, "Unknown error") else NoClient
  }

  lemma {:induction false} ContentErrorNone(rows: seq<Row>, content: map<Uuid, Reply>)
    ensures ContentError(rows, content).None? <==>
            forall i :: 0 <= i < |rows| ==> !ReplyFor(content, rows[i].q.id).score.Unusable?
  {
    if rows != [] {
      ContentErrorNone(rows[..|rows| - 1], content);
    }
  }

  /** The entries of one reply, or the error that reading it raises. */
  method ReadReply(rows: seq<Row>, answers: AnswerMap, content: map<Uuid, Reply>)
    returns (result: Result<Dict<Uuid, Entry>, string>)
    requires DistinctIds(rows)
    requires forall i :: 0 <= i < |rows| ==> rows[i].q.qtype.Theory?
    ensures result == match ContentError(rows, content)
                      case Some(error) => Err(error)
                      case None => Ok(EntriesOf(InOneCall(Answered(content)), answers, rows))
  {
    ghost var plan := InOneCall(Answered(content));
    var d: Dict<Uuid, Entry> := [];
    for k := 0 to |rows|
      invariant d == EntriesOf(plan, answers, rows[..k])
      invariant ContentError(rows[..k], content).None?
    {
      var row := rows[k];
      var reply := ReplyFor(content, row.q.id);
      assert rows[..k + 1][..k] == rows[..k];
      if reply.score.Unusable? {
        ContentErrorStays(rows, content, k + 1);
        return Err(reply.score.message);
      }
      EntriesExtend(plan, answers, rows, k);
      d := Put(d, row.q.id,
               Entry(ScoreOf(reply.score), ReasonOf(reply.reason), None, Some(AnswerTo(row.q, answers))));
    }
    assert rows[..|rows|] == rows;
    result := Ok(d);
  }

  lemma {:induction false} ContentErrorStays(rows: seq<Row>, content: map<Uuid, Reply>, k: nat)
    requires k <= |rows| && ContentError(rows[..k], content).Some?
    ensures ContentError(rows, content) == ContentError(rows[..k], content)
  {
    if k < |rows| {
      assert rows[..|rows| - 1][..k] == rows[..k];
      ContentErrorStays(rows[..|rows| - 1], content, k);
    } else {
      assert rows[..k] == rows;
    }
  }

  /** Zero entries carrying one message, for every theory question. */
  method ZeroEntries(rows: seq<Row>, answers: AnswerMap, outcome: Outcome) returns (d: Dict<Uuid, Entry>)
    requires DistinctIds(rows) && !outcome.Answered?
    requires forall i :: 0 <= i < |rows| ==> rows[i].q.qtype.Theory?
    ensures d == EntriesOf(InOneCall(outcome), answers, rows)
  {
    var reason := OutcomeGrade(outcome, 0).reason;
    d := [];
    for k := 0 to |rows|
      invariant d == EntriesOf(InOneCall(outcome), answers, rows[..k])
    {
      EntriesExtend(InOneCall(outcome), answers, rows, k);
      d := Put(d, rows[k].q.id, Entry(0, reason, None, Some(AnswerTo(rows[k].q, answers))));
    }
    assert rows[..|rows|] == rows;
  }

  /** One call for all theory questions, tried at most three times. */
  method BatchGradeTheory(rows: seq<Row>, answers: AnswerMap, ready: bool, tries: BatchTries)
    returns (d: Dict<Uuid, Entry>)
    requires DistinctIds(rows)
    requires forall i :: 0 <= i < |rows| ==> rows[i].q.qtype.Theory?
    ensures d == EntriesOf(InOneCall(TheoryOutcome(ready, rows, tries)), answers, rows)
  {
    hide EntryOf;
    if rows == [] || !ready {
      d := ZeroEntries(rows, answers, NoClient);
      return;
    }
    var lastError := "Unknown error";
    var k := 0;
    while k < MAX_TRIES
      invariant 0 <= k <= MAX_TRIES
      invariant BatchOutcome(rows, tries, "Unknown error") == BatchOutcome(rows, tries[k..], lastError)
    {
      var t := tries[k];
      assert tries[k..][0] == t && tries[k..][1..] == tries[k + 1..];
      if t.BatchFailed? {
        lastError := t.message;
      } else {
        var read := ReadReply(rows, answers, t.content);
        if read.Ok? {
          return read.value;
        }
        lastError := read.error;
      }
      if Permanent(lastError) {
        break;
      }
      k := k + 1;
    }
    assert k == MAX_TRIES ==> tries[k..] == [];
    d := ZeroEntries(rows, answers, GaveUp(lastError));
  }

  /** The rows to compare directly and the rows for the AI call, each in query order. */
  method SplitRows(rows: seq<Row>) returns (direct: seq<Row>, theory: seq<Row>)
    ensures direct == Select(rows, false) && theory == Select(rows, true)
  {
    direct, theory := [], [];
    for k := 0 to |rows|
      invariant direct == Select(rows[..k], false)
      invariant theory == Select(rows[..k], true)
    {
      assert rows[..k + 1][..k] == rows[..k];
      if rows[k].q.qtype.Theory? {
        theory := theory + [rows[k]];
      } else {
        direct := direct + [rows[k]];
      }
    }
    assert rows[..|rows|] == rows;
  }

  method GradeDirectRows(direct: seq<Row>, answers: AnswerMap, ghost plan: Plan)
    returns (sum: int, graded: Dict<Uuid, Entry>)
    requires DistinctIds(direct)
    requires forall i :: 0 <= i < |direct| ==> !direct[i].q.qtype.Theory?
    ensures sum == TotalOf(plan, answers, direct)
    ensures graded == EntriesOf(plan, answers, direct)
  {
    sum, graded := 0, [];
    for k := 0 to |direct|
      invariant sum == TotalOf(plan, answers, direct[..k])
      invariant graded == EntriesOf(plan, answers, direct[..k])
    {
      var row := direct[k];
      var g := DirectGrade(row, answers);
      TotalExtend(plan, answers, direct, k);
      EntriesExtend(plan, answers, direct, k);
      sum := sum + Product(g.score, Mark(row.q));
      var student := AnswerTo(row.q, answers);
      graded := Put(graded, row.q.id, if row.q.qtype.MultipleChoice? then Entry(g.score, g.reason, Some(student), None)
                                      else Entry(g.score, g.reason, None, Some(student)));
    }
    assert direct[..|direct|] == direct;
  }

  /** What the AI results add to the total. */
  function ResultsTotal(theory: seq<Row>, results: Dict<Uuid, Entry>): int {
    if results == [] then 0
    else
      var last := results[|results| - 1];
      ResultsTotal(theory, results[..|results| - 1]) + Product(last.1.score, FindMark(theory, last.0))
  }

  /** The AI results joined on, each weighted by the mark found again by its id. */
  method AddTheoryResults(theory: seq<Row>, results: Dict<Uuid, Entry>, sum0: int, graded0: Dict<Uuid, Entry>)
    returns (sum: int, graded: Dict<Uuid, Entry>)
    requires DistinctKeys(graded0 + results)
    ensures sum == sum0 + ResultsTotal(theory, results)
    ensures graded == graded0 + results
  {
    sum, graded := sum0, graded0;
    for k := 0 to |results|
      invariant sum == sum0 + ResultsTotal(theory, results[..k])
      invariant graded == graded0 + results[..k]
    {
      var id, entry := results[k].0, results[k].1;
      assert results[..k + 1][..k] == results[..k];
      forall i | 0 <= i < |graded|
        ensures Keys(graded)[i] != id
      {
        assert graded[i] == (graded0 + results)[i] && (graded0 + results)[|graded0| + k] == results[k];
      }
      PutNew(graded, id, entry);
      graded := Put(graded, id, entry);
      sum := sum + Product(entry.score, FindMark(theory, id));
    }
    assert results[..|results|] == results;
  }

  lemma {:induction false} ResultsTotalIsTotal(plan: Plan, answers: AnswerMap, theory: seq<Row>, k: nat)
    requires DistinctIds(theory) && k <= |theory|
    ensures ResultsTotal(theory, EntriesOf(plan, answers, theory[..k])) == TotalOf(plan, answers, theory[..k])
  {
    if k > 0 {
      ResultsTotalIsTotal(plan, answers, theory, k - 1);
      FindMarkFinds(theory, k - 1);
      assert theory[..k][..k - 1] == theory[..k - 1];
      var results := EntriesOf(plan, answers, theory[..k]);
      assert results[..k - 1] == EntriesOf(plan, answers, theory[..k - 1]);
    }
  }

  lemma EntriesJoin(plan: Plan, answers: AnswerMap, first: seq<Row>, second: seq<Row>)
    ensures EntriesOf(plan, answers, first + second) == EntriesOf(plan, answers, first) + EntriesOf(plan, answers, second)
  {
    hide EntryOf;
  }

  /** The fast form: direct rows inline, all theory rows from one call. */
  method GradeAnswersBatch(rows: seq<Row>, answers: AnswerMap, ready: bool, tries: BatchTries)
    returns (total: Option<int>, graded: Dict<Uuid, Entry>)
    requires DistinctIds(rows)
    ensures rows == [] ==> total == None && graded == []
    ensures rows != [] ==>
              total == Some(TotalOf(InOneCall(TheoryOutcome(ready, Select(rows, true), tries)), answers, rows))
    ensures graded == GradedItems(InOneCall(TheoryOutcome(ready, Select(rows, true), tries)), answers, rows)
  {
    hide *;
    if rows == [] {
      NoItems(InOneCall(TheoryOutcome(ready, Select(rows, true), tries)), answers, rows);
      return None, [];
    }
    var direct, theory := SplitRows(rows);
    ghost var plan := InOneCall(TheoryOutcome(ready, theory, tries));
    BatchPartsFit(plan, answers, rows);
    var sum;
    sum, graded := GradeDirectRows(direct, answers, plan);
    var results := BatchGradeTheory(theory, answers, ready, tries);
    sum, graded := AddTheoryResults(theory, results, sum, graded);
    total := Some(sum);
  }

  /** graded_answers.items(): the direct rows first, then the theory rows. */
  function GradedItems(plan: Plan, answers: AnswerMap, rows: seq<Row>): Dict<Uuid, Entry> {
    EntriesOf(plan, answers, Select(rows, false) + Select(rows, true))
  }

  lemma NoItems(plan: Plan, answers: AnswerMap, rows: seq<Row>)
    requires rows == []
    ensures GradedItems(plan, answers, rows) == []
  {
  }

  /** Despite the reordering there is exactly one item for every row, under the row's id. */
  lemma GradedItemsRecord(plan: Plan, answers: AnswerMap, rows: seq<Row>)
    requires DistinctIds(rows)
    ensures DistinctKeys(GradedItems(plan, answers, rows))
    ensures Records(ToMap(GradedItems(plan, answers, rows)), plan, answers, rows)
  {
    SplitRecords(plan, answers, rows);
  }

  /** The two halves are gradable on their own, and together they are the whole result. */
  lemma BatchPartsFit(plan: Plan, answers: AnswerMap, rows: seq<Row>)
    requires DistinctIds(rows)
    ensures DistinctIds(Select(rows, false)) && DistinctIds(Select(rows, true))
    ensures forall i :: 0 <= i < |Select(rows, false)| ==> !Select(rows, false)[i].q.qtype.Theory?
    ensures forall i :: 0 <= i < |Select(rows, true)| ==> Select(rows, true)[i].q.qtype.Theory?
    ensures var direct, theory := EntriesOf(plan, answers, Select(rows, false)), EntriesOf(plan, answers, Select(rows, true));
            DistinctKeys(direct + theory) && direct + theory == GradedItems(plan, answers, rows) &&
            TotalOf(plan, answers, Select(rows, false)) + ResultsTotal(Select(rows, true), theory) == TotalOf(plan, answers, rows)
  {
    hide EntryOf, QuestionScore, Select;
    var direct, theory := Select(rows, false), Select(rows, true);
    SelectDistinct(rows, false);
    SelectDistinct(rows, true);
    SelectKinds(rows);
    EntriesJoin(plan, answers, direct, theory);
    SplitRecords(plan, answers, rows);
    ResultsTotalIsTotal(plan, answers, theory, |theory|);
    assert theory[..|theory|] == theory;
    TotalSplits(plan, answers, rows);
  }

  lemma SelectKinds(rows: seq<Row>)
    ensures forall i :: 0 <= i < |Select(rows, false)| ==> !Select(rows, false)[i].q.qtype.Theory?
    ensures forall i :: 0 <= i < |Select(rows, true)| ==> Select(rows, true)[i].q.qtype.Theory?
  {
    SelectMembers(rows, false);
    SelectMembers(rows, true);
    assert forall i :: 0 <= i < |Select(rows, false)| ==> Select(rows, false)[i] in Select(rows, false);
    assert forall i :: 0 <= i < |Select(rows, true)| ==> Select(rows, true)[i] in Select(rows, true);
  }

  /** The reordered rows still have distinct ids. */
  lemma SplitDistinct(rows: seq<Row>)
    requires DistinctIds(rows)
    ensures DistinctIds(Select(rows, false) + Select(rows, true))
  {
    SelectDistinct(rows, false);
    SelectDistinct(rows, true);
    SelectMembers(rows, false);
    SelectMembers(rows, true);
    forall r, t | r in Select(rows, false) && t in Select(rows, true)
      ensures r.q.id != t.q.id
    {
      var i :| 0 <= i < |rows| && rows[i] == r;
      var j :| 0 <= j < |rows| && rows[j] == t;
    }
  }

  /** The two halves hold the same rows as the query result. */
  lemma SplitMembers(rows: seq<Row>)
    ensures forall r :: r in rows <==> r in Select(rows, false) + Select(rows, true)
  {
    SelectMembers(rows, false);
    SelectMembers(rows, true);
  }

  /** What a result records does not depend on the order of the rows. */
  lemma RecordsReorder(graded: map<Uuid, Entry>, plan: Plan, answers: AnswerMap, split: seq<Row>, rows: seq<Row>)
    requires forall r :: r in rows <==> r in split
    requires Records(graded, plan, answers, split)
    ensures Records(graded, plan, answers, rows)
  {
    hide EntryOf;
    forall i | 0 <= i < |rows|
      ensures rows[i].q.id in graded && graded[rows[i].q.id] == EntryOf(plan, answers, rows[i])
    {
      assert rows[i] in rows;
      var j :| 0 <= j < |split| && split[j] == rows[i];
    }
    forall id | id in graded
      ensures exists i :: 0 <= i < |rows| && rows[i].q.id == id
    {
      var j :| 0 <= j < |split| && split[j].q.id == id;
      assert split[j] in split;
      var i :| 0 <= i < |rows| && rows[i] == split[j];
    }
  }

  lemma SplitRecords(plan: Plan, answers: AnswerMap, rows: seq<Row>)
    requires DistinctIds(rows)
    ensures DistinctKeys(EntriesOf(plan, answers, Select(rows, false) + Select(rows, true)))
    ensures Records(ToMap(EntriesOf(plan, answers, Select(rows, false) + Select(rows, true))), plan, answers, rows)
  {
    hide *;
    var split := Select(rows, false) + Select(rows, true);
    SplitDistinct(rows);
    EntriesRecord(plan, answers, split);
    SplitMembers(rows);
    RecordsReorder(ToMap(EntriesOf(plan, answers, split)), plan, answers, split, rows);
  }
}
