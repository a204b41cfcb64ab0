/**
  Grading of one answer: direct comparison for multiple choice and
  fill-in-the-blanks, a retried AI call for theory. Scores are hundredths.
*/
module SimilarityGrader {
  import opened Common
  import opened DecimalGrid
  import opened Text

  datatype Grade = Grade(score: int, reason: string)

  predicate ValidScore(s: int) {
    0 <= s <= 100
  }

  // ---- multiple choice and fill-in-the-blanks ------------------------------

  /** None and the empty string are both falsy. */
  predicate Missing(s: Option<string>) {
    s.None? || s.value == ""
  }

  function GradeChoice(student: string, key: Option<string>): (g: Grade)
    ensures ValidScore(g.score)
    ensures g.score == 100 <==> !Missing(key) && Clean(student) == Clean(key.value)
  {
    if Missing(key) then Grade(0, "No MCQ answer provided")
    else if Clean(student) == Clean(key.value) then Grade(100, "-")
    else Grade(0, "-")
  }

  /** Does the answer match the key or one of the accepted variations? */
  ghost predicate AcceptedBlank(student: string, key: string, variations: seq<string>) {
    Clean(student) == Clean(key) || exists i :: 0 <= i < |variations| && Clean(student) == Clean(variations[i])
  }

  function MatchesAny(clean: string, variations: seq<string>): (b: bool)
    ensures b <==> exists i :: 0 <= i < |variations| && clean == Clean(variations[i])
  {
    if variations == [] then false
    else if clean == Clean(variations[0]) then true
    else
      var rest := MatchesAny(clean, variations[1..]);
      assert forall i :: 1 <= i < |variations| ==> variations[1..][i - 1] == variations[i];
      rest
  }

  function GradeBlank(student: string, key: Option<string>, variations: seq<string>): (g: Grade)
    ensures ValidScore(g.score)
    ensures g.score == 100 <==> !Missing(key) && AcceptedBlank(student, key.value, variations)
    ensures g.score == 0 <==> Missing(key) || !AcceptedBlank(student, key.value, variations)
  {
    if Missing(key) then Grade(0, "No FITB answer provided")
    else if Clean(student) == Clean(key.value) || MatchesAny(Clean(student), variations) then Grade(100, "-")
    else Grade(0, "-")
  }

  // ---- theory --------------------------------------------------------------

  /** What the "score" field of a reply holds; an unusable one raises while it is parsed. */
  datatype RawScore = Absent | Number(value: real) | Unusable(message: string)

  /** One AI call: it raises, or it yields a JSON object. */
  datatype Try = Failed(message: string) | Replied(score: RawScore, reason: Option<string>)

  const MAX_TRIES := 3

  /** Authentication errors end the retries. */
  predicate Permanent(message: string) {
    Contains(Lower(message), "invalid_api_key") || Contains(Lower(message), "authentication")
  }

  function ScoreOf(s: RawScore): (r: int)
    requires !s.Unusable?
    ensures ValidScore(r)
  {
    if s.Absent? then 0 else ClampGrid(Quantize(s.value))
  }

  function ReasonOf(reason: Option<string>): string {
    if reason.None? then "No reason provided" else reason.value
  }

  predicate Usable(t: Try) {
    t.Replied? && !t.score.Unusable?
  }

  function ErrorOf(t: Try): string
    requires !Usable(t)
  {
    if t.Failed? then t.message else t.score.message
  }

  /** The first usable reply counts, unless a permanent error comes before it. */
  function TheoryGrade(tries: seq<Try>, lastError: string): (g: Grade)
    ensures ValidScore(g.score)
  {
    if tries == [] then Grade(0, "Error: " + lastError)
    else if Usable(tries[0]) then Grade(ScoreOf(tries[0].score), ReasonOf(tries[0].reason))
    else if Permanent(ErrorOf(tries[0])) then Grade(0, "Error: " + ErrorOf(tries[0]))
    else TheoryGrade(tries[1..], ErrorOf(tries[0]))
  }

  /** Try k is reached and used: everything before it failed, and none of it for good. */
  ghost predicate DecidesAt(tries: seq<Try>, k: nat) {
    k < |tries| && Usable(tries[k]) &&
    forall j :: 0 <= j < k ==> !Usable(tries[j]) && !Permanent(ErrorOf(tries[j]))
  }

  /** A theory answer is graded by its deciding try, and scores nothing when there is none. */
  lemma {:induction false} TheoryGradeMeaning(tries: seq<Try>, lastError: string)
    ensures forall k: nat :: DecidesAt(tries, k) ==>
              TheoryGrade(tries, lastError) == Grade(ScoreOf(tries[k].score), ReasonOf(tries[k].reason))
    ensures (forall k: nat :: !DecidesAt(tries, k)) ==> TheoryGrade(tries, lastError).score == 0
  {
    assert forall k: nat :: DecidesAt(tries, k) && k > 0 ==> !Usable(tries[0]) && !Permanent(ErrorOf(tries[0]));
    if tries != [] && !Usable(tries[0]) && !Permanent(ErrorOf(tries[0])) {
      var rest := tries[1..];
      TheoryGradeMeaning(rest, ErrorOf(tries[0]));
      assert forall j :: 0 <= j < |rest| ==> rest[j] == tries[j + 1];
      forall k: nat | DecidesAt(tries, k)
        ensures k > 0 && DecidesAt(rest, k - 1)
      {
        assert !Usable(tries[0]);
        forall j | 0 <= j < k - 1
          ensures !Usable(rest[j]) && !Permanent(ErrorOf(rest[j]))
        {
          assert rest[j] == tries[j + 1];
        }
      }
      forall k: nat | DecidesAt(rest, k)
        ensures DecidesAt(tries, k + 1)
      {
        forall j | 0 <= j < k + 1
          ensures !Usable(tries[j]) && !Permanent(ErrorOf(tries[j]))
        {
          if j > 0 {
            assert tries[j] == rest[j - 1];
          }
        }
      }
    } else if tries != [] && Usable(tries[0]) {
      assert DecidesAt(tries, 0);
    }
  }

  /** Retrying ends at a message that names the key or the authentication, in any letter case. */
  lemma PermanentMeaning(m: string)
    ensures Permanent(m) <==>
            exists i, j :: 0 <= i <= j <= |m| && (Lower(m[i..j]) == "invalid_api_key" || Lower(m[i..j]) == "authentication")
  {
    ContainsMeaning(Lower(m), "invalid_api_key");
    ContainsMeaning(Lower(m), "authentication");
    assert forall i, j :: 0 <= i <= j <= |m| ==> Lower(m)[i..j] == Lower(m[i..j]);
  }

  /** A usable score is the nearest hundredth, a half going up, held between 0 and 1. */
  ghost predicate ScoreFits(s: RawScore, score: int) {
    match s
    case Absent => score == 0
    case Number(v) =>
      if v >= 1.0 then score == 100 else if v <= 0.0 then score == 0
      else score as real - 0.5 <= 100.0 * v < score as real + 0.5
    case Unusable(_) => false
  }

  lemma ScoreOfFits(s: RawScore, score: int)
    requires !s.Unusable?
    ensures ScoreFits(s, score) <==> score == ScoreOf(s)
  {
    if s.Number? {
      RoundHalfUpMeaning(100.0 * s.value, score);
      RoundClampCommute(s.value);
      RoundHalfUpExact(100);
      RoundHalfUpExact(0);
    }
  }

  /** After this try another one follows, if there is one. */
  ghost predicate GoesOn(t: Try) {
    match t
    case Failed(m) => !Permanent(m)
    case Replied(Unusable(m), _) => !Permanent(m)
    case Replied(_, _) => false
  }

  /** The score and the reason that the deciding reply leads to. */
  lemma {:induction false} DecidingReply(tries: seq<Try>, lastError: string, k: nat)
    requires k < |tries| && forall j :: 0 <= j < k ==> GoesOn(tries[j])
    requires tries[k].Replied? && !tries[k].score.Unusable?
    ensures var g := TheoryGrade(tries, lastError);
            ScoreFits(tries[k].score, g.score) &&
            g.reason == if tries[k].reason.Some? then tries[k].reason.value else "No reason provided"
  {
    if k == 0 {
      ScoreOfFits(tries[0].score, ScoreOf(tries[0].score));
    } else {
      assert GoesOn(tries[0]);
      DecidingReply(tries[1..], ErrorOf(tries[0]), k - 1);
    }
  }

  /** Without one, the error that ended the retries is recorded with a score of zero. */
  lemma {:induction false} DecidingError(tries: seq<Try>, lastError: string, k: nat, m: string)
    requires k < |tries| && forall j :: 0 <= j < k ==> GoesOn(tries[j])
    requires tries[k] == Failed(m) || (tries[k].Replied? && tries[k].score == Unusable(m))
    requires Permanent(m) || k == |tries| - 1
    ensures TheoryGrade(tries, lastError) == Grade(0, "Error: " + m)
  {
    if k == 0 {
      assert !Permanent(m) ==> tries[1..] == [];
    } else {
      assert GoesOn(tries[0]);
      DecidingError(tries[1..], ErrorOf(tries[0]), k - 1, m);
    }
  }

  /** The retry loop over at most three calls. */
  method GradeTheory(clientReady: bool, tries: seq<Try>) returns (g: Grade)
    requires |tries| == MAX_TRIES
    ensures !clientReady ==> g == Grade(0, "Error: Groq client not available. Set GROQ_API_KEYS or pass api_key.")
    ensures clientReady ==> g == TheoryGrade(tries, "Unknown error")
  {
    if !clientReady {
      return Grade(0, "Error: Groq client not available. Set GROQ_API_KEYS or pass api_key.");
    }
    var lastError := "Unknown error";
    var k := 0;
    while k < MAX_TRIES
      invariant 0 <= k <= MAX_TRIES
      invariant TheoryGrade(tries, "Unknown error") == TheoryGrade(tries[k..], lastError)
    {
      var t := tries[k];
      assert tries[k..][0] == t && tries[k..][1..] == tries[k + 1..];
      if Usable(t) {
        return Grade(ScoreOf(t.score), ReasonOf(t.reason));
      }
      lastError := ErrorOf(t);
      if Permanent(lastError) {
        break;
      }
      k := k + 1;
    }
    assert k == MAX_TRIES ==> tries[k..] == [];
    g := Grade(0, "Error: " + lastError);
  }
}
