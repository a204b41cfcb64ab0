# Verified model of the Wazire examination backend

Wazire runs examinations for schools. Students start and submit exams, a worker
grades the attempts from redelivered events, a scheduler moves exam states and
creates invoices, and tokens and passwords are encoded for storage. This project
models that backend in Dafny and proves what its parts promise, over every
input and over every run.

- `Common.dfy`, `Text.dfy`, `DecimalGrid.dfy`: options and results, Python's ordered dict, ASCII strings, two-place decimals with half-up rounding.
- `SimilarityGrader.dfy`, `AnswerGrading.dfy`, `GradingRefinement.dfy`: grading one answer, a whole exam question by question, and a whole exam with one AI call; when the two agree; bounds of the total.
- `StudentAnswers.dfy`: the answers table, the bulk write-back of graded answers, and its fixed point.
- `SubmissionState.dfy`, `SubmissionTheorems.dfy`, `SubmissionService.dfy`: the submission and grading protocol as steps over the committed tables with crash points, safety over all runs, and the service that updates the tables in place.
- `Enrollment.dfy`, `ExamClock.dfy`, `Billing.dfy`: enrollments, exam status and durations, semester billing.
- `KeyRotator.dfy`, `GradingSemaphore.dfy`, `PageMerge.dfy`: the API key rotation, the per-tenant grading limit, the merge of parsed exam pages.
- `Base64Url.dfy`, `Tokens.dfy`, `Encryption.dfy`: unpadded base64url (section 5 of RFC 4648, padding as in Appendix C of RFC 7515), JWT in compact form (section 7.1 of RFC 7515), timed tokens, password records over PBKDF2 (section 5.2 of RFC 8018), AES-GCM layout.

Tables are maps and sequences keyed by their unique constraints. Time, the AI
service, the payment gateways, HMAC, PBKDF2, AES-GCM and JSON are arbitrary
parameters. Every service call or handler run is one atomic step, except that a
submit may stop after any of its commits and a grading run before either of its
two commits. A grading event may be delivered any number of times, in any order.

What the proofs show about the code where it differs from its documentation:

- `str()` of a member of `AnswerEnum`, which mixes `str` and `Enum`, is the qualified name `AnswerEnum.A`. A multiple-choice answer therefore scores only when it spells that name, and the option letter alone scores nothing (`ChoiceScoredForEnumNameOnly`, `ChoiceLetterEarnsNothing`).
- One unreadable score in a batch reply turns every theory score of the exam to zero, while grading question by question loses only that question (`BatchRefinesSingle`, `BatchCanLoseAScore`).
- A submit refused at the attempt limit still stores the answers it carries (`RefusedSubmitStoresAnswers`).
- The status `grading_in_progress` is flushed but never committed (`StepKeepsValid`).
- The graded answers of a graded attempt are lost for good after a crash between the two grading commits, and, without any crash, whenever `DB_WRITE_BATCH_SIZE` is zero or negative; exactly then, unless they were stored before (`LostWriteBack`).
- A lecturer's score for an older attempt becomes the submission's `latest_score`, although the comment restricts this to the latest attempt (`HandGradeAndNewestAttempt`).
- The force-submit trigger only sees exams that are still in progress, so an exam the status updater finishes first is not force-submitted (`TriggerEmitsExactly`, `FinishedBeforeTrigger`).
- A student enrolled but no longer active still counts an exam as missed after force submission (`ForceSubmitMissed`).
- Every billing tick invoices an unpaid ended semester again, because the tick does not set `is_billed`: a semester gains at most one invoice exactly when at most one due tick comes before its first applied payment (`EveryDueTickInvoices`, `AtMostOneInvoice`).
- A repeated billing initiation replaces the payment reference, and a payment under the old one is not found (`ReinitiationOrphansReference`).
- A payload with a null `exp` never expires, whatever `expires_in` says (`NullExpiryNeverExpires`).
- `create` passes `semester` to an enrollment model that maps only `semester_id`, and leaves the required tenant unset, so its insert always raises. That is no `ValueError`, so a bulk run ends there. The model has both forms: the insert as meant, and as written (`BulkAsWrittenExact`, `FirstEnrollmentRaises`).
- A cooldown marks the first listing of a key only, so a key listed twice may still be handed out (`MarkedKeyRests`).

Three places of the source cannot work as written. Two are modelled only as
intended: the forced attempt is inserted without its number (here 1, as
`attempts=1` on the same submission says), and answer upserts leave the tenant
empty although the column requires it (here the tenant is taken as filled in).
The third, the enrollment insert above, is modelled both ways; where a row
below does not say otherwise it is the one that is meant.

## Model

| member | source | states |
|---|---|---|
| DecimalGrid.RoundHalfUpMeaning | backend/services/academic/submissions.py:414-415 | ROUND_HALF_UP picks the nearest hundredth and of two the one away from zero, and only that one |
| DecimalGrid.RoundClampCommute | backend/services/engine/similarity_grader.py:138-139 | rounding then clamping an AI score equals clamping then rounding it |
| DecimalGrid.ProductError | backend/services/academic/submissions.py:415 | a question score is within half a hundredth of score times mark |
| DecimalGrid.ProductMeaning | backend/services/academic/submissions.py:414-415 | a question score is score times mark rounded half up to hundredths, and no other number |
| DecimalGrid.ProductExact | backend/services/academic/submissions.py:415 | full and zero scores are weighted without rounding error |
| Text.CleanIdempotent | backend/services/engine/similarity_grader.py:69 | cleaning an already cleaned key again changes nothing |
| Text.AsciiTables | backend/services/engine/similarity_grader.py:69 | which ASCII characters strip() cuts off and which lower() changes |
| Text.StripSlice | backend/services/engine/similarity_grader.py:69 | strip() cuts white space off both ends, all of it and nothing else |
| Text.SplitJoin | backend/core/utils/token.py:70 | fields free of the separator survive join and split |
| Text.ParseIntText | backend/core/utils/encryption.py:55 | int(str(n)) gives back every integer |
| Text.ParseIntSpaced | backend/core/utils/encryption.py:55 | white space around the digits and a sign in front are read as int() reads them |
| Text.DecimalText | backend/core/utils/token.py:120 | str() of an integer is decimal, one digit for each place |
| SimilarityGrader.GradeBlank | backend/services/engine/similarity_grader.py:75-85 | full score exactly for the key or an accepted variation, else zero |
| SimilarityGrader.TheoryGradeMeaning | backend/services/engine/similarity_grader.py:124-152 | the first usable reply before a permanent error decides; without one the score is zero |
| SimilarityGrader.ScoreOfFits | backend/services/engine/similarity_grader.py:138-139 | a usable score becomes its nearest hundredth, a half going up, held between 0 and 1; a missing one zero |
| SimilarityGrader.PermanentMeaning | backend/services/engine/similarity_grader.py:145-147 | retrying ends exactly at messages that name the key or the authentication, in any letter case |
| SimilarityGrader.DecidingReply | backend/services/engine/similarity_grader.py:137-140 | score and reason that the deciding reply leads to |
| SimilarityGrader.DecidingError | backend/services/engine/similarity_grader.py:142-152 | without one the error that ended the retries is recorded with a zero |
| SimilarityGrader.GradeTheory | backend/services/engine/similarity_grader.py:90-152 | the retry loop computes that decision over three tries |
| AnswerGrading.ChoiceScoredForEnumNameOnly | backend/services/academic/submissions.py:403 | a multiple-choice row earns its mark exactly for the qualified enum name |
| AnswerGrading.ChoiceLetterEarnsNothing | backend/services/academic/submissions.py:612-613 | whatever the key, a single character, hence every option letter, earns nothing |
| AnswerGrading.TextGraded | backend/services/academic/submissions.py:376-427 | the stored text, plain or structured, graded before or not, is what is scored, sent and kept for a fill-in or theory question; none reads as empty |
| AnswerGrading.OptionGraded | backend/services/academic/submissions.py:376-427 | the stored option is what is scored and kept for a multiple-choice question |
| AnswerGrading.TotalIsSum | backend/services/academic/submissions.py:412-427 | the total is the sum over the questions of the rounded score times mark, a missing mark counting zero |
| AnswerGrading.GradeAnswers | backend/services/academic/submissions.py:355-427 | question-by-question grading returns the sum of rounded question scores and one entry per question |
| AnswerGrading.GradeAnswersBatch | backend/services/academic/submissions.py:552-640 | the split, reordered, id-matched batch form returns the total in row order and the items of both halves |
| AnswerGrading.BatchGradeTheory | backend/services/academic/submissions.py:642-739 | one reply, three tries: entries of the first readable reply or zeros with the last error |
| AnswerGrading.ReadableReplyDecides | backend/services/academic/submissions.py:702-733 | the first reply that can be read as a whole decides, if no permanent error came before |
| AnswerGrading.LastErrorDecides | backend/services/academic/submissions.py:724-739 | without one the error that ended the tries decides, of a reply that of its first unreadable question |
| AnswerGrading.OutcomeGraded | backend/services/academic/submissions.py:658-739 | score and reason that each theory question gets from that outcome |
| AnswerGrading.TotalSplits | backend/services/academic/submissions.py:583-589 | summing direct and theory rows apart gives the total in row order |
| AnswerGrading.FindMarkFinds | backend/services/academic/submissions.py:636 | the mark found again by id is the mark of that question |
| AnswerGrading.GradedItemsRecord | backend/services/academic/submissions.py:622-635 | there is exactly one graded item per question, under its id |
| GradingRefinement.TheoryScores | backend/services/academic/submissions.py:698-739 | what each form gives one theory question for one scoring service |
| GradingRefinement.StoredTextSent | backend/services/academic/submissions.py:667-679 | both forms send the text stored for the question |
| GradingRefinement.BatchRefinesSingle | backend/services/academic/submissions.py:698-739 | both forms give every question the same score exactly when no client, no answer, all scores readable or nothing earned |
| GradingRefinement.BatchRefinesSingleTotal | backend/services/academic/submissions.py:629-640 | then totals, stored options and stored texts agree too |
| GradingRefinement.BatchCanLoseAScore | backend/services/academic/submissions.py:715 | an exam where one unreadable score costs another question its mark |
| GradingBounds.TotalBounds | backend/services/academic/submissions.py:412-427 | the total lies between zero and the sum of the marks |
| GradingBounds.TotalMonotone | backend/services/academic/submissions.py:412-427 | raising scores never lowers the total |
| GradingBounds.TotalError | backend/services/academic/submissions.py:415-416 | rounding costs at most 0.005 per theory question and nothing elsewhere |
| GradingBounds.TotalOrderIndependent | backend/services/academic/submissions.py:364-374 | the total does not depend on the order of the rows |
| StudentAnswers.WriteBackReads | backend/services/academic/submissions.py:757-790 | reading after the write-back gives the payload for graded questions and the old answer for others |
| StudentAnswers.WriteBackStores | backend/services/academic/submissions.py:757-787 | each graded item is stored whole: option, text, score and reason |
| StudentAnswers.GradesStored | backend/services/academic/submissions.py:622-635 | the write-back stores for each question the grade it got, beside the answer that earned it |
| StudentAnswers.WriteBackFrame | backend/services/academic/submissions.py:773-787 | no other student's or exam's answers change |
| StudentAnswers.StudentAnswerService.BulkUpsertGraded | backend/services/academic/submissions.py:741-790 | writing in batches of any positive size equals writing all items; a zero size fails, a negative one writes nothing |
| WriteBackFixedPoint.AnswerKept | backend/services/academic/submissions.py:596-604 | the write-back keeps what the student answered, for missing, plain and structured answers |
| WriteBackFixedPoint.RegradingRepeats | backend/services/academic/submissions.py:594-679 | grading again after the write-back gives the same prompt, total and items |
| WriteBackFixedPoint.WriteBackIdempotent | backend/services/academic/submissions.py:783-787 | writing the same items twice equals writing them once |
| Enrollment.CreateKeepsValid | backend/services/academic/enrollment.py:182-217 | creating, with the insert as it is meant, keeps one row per student and course, so the lookup never finds two |
| Enrollment.CreateMeaning | backend/services/academic/enrollment.py:176-217 | reply and table for each case: refused, added, reactivated, already enrolled |
| Enrollment.CreateManyRows | backend/services/academic/enrollment.py:182-193 | two rows for a pair make the lookup raise and nothing is written |
| Enrollment.RemoveKeepsValid | backend/services/academic/enrollment.py:242-263 | removing keeps one row per student and course |
| Enrollment.RemoveMeaning | backend/services/academic/enrollment.py:242-263 | exactly the row with the id goes, if the caller may, and the others keep their order |
| Enrollment.BulkStatus | backend/services/academic/enrollment.py:265-278 | with that insert, after a bulk run a pair is active exactly if requested while absent or dropped, and otherwise as before |
| Enrollment.AcceptedIdsMeaning | backend/services/academic/enrollment.py:265-278 | the returned ids are those of just the enrollments that the run made active |
| Enrollment.BulkAsWrittenExact | backend/services/academic/enrollment.py:207-278 | with the insert as written, which raises, a bulk run does that exactly when no allowed request is for a pair without a row |
| Enrollment.BulkEndsAt | backend/services/academic/enrollment.py:207-278 | the run ends at the first allowed request for a pair without a row, and what was done before stays |
| Enrollment.FirstEnrollmentRaises | backend/services/academic/enrollment.py:207-213 | as written a first enrollment raises and adds no row |
| Enrollment.BulkAsWrittenKeepsValid | backend/services/academic/enrollment.py:265-278 | the run that ends early keeps one row per student and course |
| Enrollment.EnrollmentService.CreateOne | backend/services/academic/enrollment.py:150-221 | the in-place create reactivates or refuses as specified, and inserts as meant or raises as written |
| Enrollment.EnrollmentService.UpdateOne | backend/services/academic/enrollment.py:222-240 | the in-place update sets the status of the one row with the id, and keeps the table valid |
| Enrollment.EnrollmentService.RemoveOne | backend/services/academic/enrollment.py:242-263 | the in-place removal takes out exactly the row with the id, if the caller may |
| Enrollment.EnrollmentService.CreateMany | backend/services/academic/enrollment.py:265-278 | the bulk loop applies every request and returns the accepted ids in order, or ends at the insert that raises |
| SubmissionInvariants.StepKeepsValid | backend/services/academic/submissions.py:70-118 | every service call, handler and crash point keeps numbering, status, latest score and enrollment uniqueness |
| SubmissionInvariants.RunKeepsValid | backend/services/academic/submissions.py:488-523 | so does every run: attempts numbered 1..n, pending exactly without attempts, latest_score of the attempt graded last |
| SubmissionInvariants.CommitKeepsValid | backend/services/academic/submissions.py:292-309 | grading by worker or by hand makes its attempt the one graded last |
| SubmissionTheorems.RefusedSubmit | backend/services/academic/submissions.py:97-99 | a submit is refused exactly at the limit and then adds no attempt |
| SubmissionTheorems.SubmitReplies | backend/services/academic/submissions.py:66-118 | a submit is recorded as the next attempt exactly when the exam is known and the number of attempts is below its limit, if it has one |
| SubmissionTheorems.FirstSubmitsRecorded | backend/services/academic/submissions.py:97-110 | in any run without force submissions the first m submits under a limit of m are recorded, numbered 1 to m, and every later one is refused |
| SubmissionTheorems.AttemptsFillUp | backend/services/academic/submissions.py:97-110 | so after any run the attempts are the submits made, up to the limit; a force submission can only take one of them away |
| SubmissionTheorems.CrashedSubmit | backend/services/academic/submissions.py:71-94 | a crash leaves the answers stored before it, perhaps on a new row, and no attempt |
| SubmissionTheorems.RefusedSubmitStoresAnswers | backend/services/academic/submissions.py:81-99 | a refused submit changes nothing exactly when its answers are the stored ones |
| SubmissionTheorems.AcceptedSubmit | backend/services/academic/submissions.py:101-113 | an accepted submit adds exactly the next attempt to its one submission, stores its answers and changes nothing else |
| SubmissionTheorems.StoreItemsCell | backend/services/academic/submissions.py:81-90 | of several answers to a question the last is stored, and no other answer changes |
| SubmissionTheorems.AttemptsNeverExceedLimit | backend/services/academic/submissions.py:97-110 | over a run no submission exceeds the largest limit in force |
| SubmissionTheorems.RedeliveryErasure | backend/tasks/submission.py:40-75 | deleting from a run every delivery of an attempt after the event that first set its score leaves the final state |
| SubmissionTheorems.ErasedDeliversUnscored | backend/tasks/submission.py:58-63 | in the run that is left every delivery finds its attempt unscored |
| SubmissionTheorems.UncheckedRedelivery | backend/tasks/submission.py:49-56 | when the check fails a redelivery grades again |
| SubmissionTheorems.ScoreStays | backend/tasks/submission.py:25-31 | a score is never overwritten except by a lecturer |
| SubmissionTheorems.GradingIsAtomic | backend/services/academic/submissions.py:512-523 | at every step and crash point attempt and submission are graded together or not at all |
| SubmissionTheorems.LostWriteBack | backend/services/academic/submissions.py:523-538 | after a committed grading and any redeliveries the graded answers are stored exactly if the run lived on to a positive batch size or they were stored before |
| SubmissionTheorems.RedeliveriesIgnored | backend/tasks/submission.py:58-63 | any redeliveries of a scored attempt leave the whole state, for whatever exam they name |
| StudentAnswers.WriteBackNothing | backend/services/academic/submissions.py:757-790 | the write-back changes nothing exactly when every graded item is stored already |
| SubmissionTheorems.DeliveryFrame | backend/services/academic/submissions.py:467-536 | a delivery leaves other attempts, submissions, exams, enrollments and other students' answers alone |
| SubmissionTheorems.DeliveryOutcome | backend/services/academic/submissions.py:467-523 | a delivery records the total of the exam's questions over this student's stored answers on attempt and submission, or changes nothing, and exactly when |
| SubmissionTheorems.DeliveryStoresGrades | backend/services/academic/submissions.py:493-538 | and it stores the grade of every question over those answers |
| SubmissionTheorems.HandGrade | backend/services/academic/submissions.py:292-309 | a lecturer's grade goes to that attempt and its submission alone, if the column can hold it |
| SubmissionTheorems.EnrollEvent | backend/services/academic/enrollment.py:265-278 | in a run, requests to enroll change the roll as the bulk run does, and nothing else |
| SubmissionTheorems.EnrollmentEvents | backend/services/academic/enrollment.py:222-263 | updates and removals change the one enrollment with the id, and nothing else |
| SubmissionTheorems.EditEvent | backend/services/academic/exams.py:76-113 | an edit of an exam changes that exam, if it keeps the constraints |
| SubmissionTheorems.SavedAnswerReads | backend/tasks/question.py:215-275 | an answer saved in a run is read back by its student and changes no other reading |
| SubmissionTheorems.HandGradeAndNewestAttempt | backend/services/academic/submissions.py:298-303 | latest_score is the newest attempt's score exactly if that attempt was graded or had that score |
| ForceSubmission.ForceSubmitMeaning | backend/tasks/exam.py:140-201 | every active student without a submission gets one with one attempt, as of the exam's end; all else is untouched |
| ForceSubmission.ForceSubmitAllOrNothing | backend/tasks/exam.py:162-201 | all rows are inserted, or none when a student would be inserted twice |
| ForceSubmission.ForceSubmitTwice | backend/tasks/exam.py:152-165 | a second run adds nothing |
| ForceSubmission.ForceSubmitMissed | backend/services/analytics/dashboard.py:496-513 | afterwards exactly the enrolled but inactive students still miss the exam, and other exams are as before |
| ForceSubmission.MissedMeaning | backend/services/analytics/dashboard.py:496-513 | the set difference of the dashboard is the finished exams of courses with an enrollment and no submission |
| ForceSubmission.UnsubmittedDistinct | backend/services/academic/enrollment.py:182-205 | the new rows are distinct because enrollments are |
| SubmissionService.Service.SubmitExam | backend/services/academic/submissions.py:47-118 | the in-place submit does what the submit step says, crashes included |
| SubmissionTheorems.StartMeaning | backend/services/academic/submissions.py:327-353 | starting, done in place by `CreateSubmission`, adds at most one row, without attempts, and leaves every row that is there |
| SubmissionTheorems.StartedForGood | backend/services/academic/submissions.py:327-353 | after any run a submission is still there, and starting the exam again changes nothing |
| StudentAnswers.UpsertReads | backend/services/academic/student_answer.py:56-58 | a saved answer is read back by its student for its exam and changes no other reading |
| SubmissionService.Service.HandleUpsertStudentAnswer | backend/tasks/question.py:215-275 | the in-place handler replaces exactly that answer, as every student reads it |
| SubmissionService.Service.GradeAttempt | backend/services/academic/submissions.py:292-309 | grading by hand sets attempt and submission as the step says |
| SubmissionService.Service.HandleGradeSubmissionAttempt | backend/services/academic/submissions.py:433-538 | the in-place handler does what the delivery step says, for every fault |
| SubmissionService.Service.HandleForceSubmitExam | backend/tasks/exam.py:90-201 | the in-place handler commits all new rows or none |
| ExamClock.TickIsLaterPhase | backend/tasks/exam.py:46-58 | a tick moves the status to the phase of its time and never back |
| ExamClock.TickMeaning | backend/tasks/exam.py:26-58 | start plus stored duration decides the status; an exam without start, time zone or duration is left alone |
| ExamClock.CountMovesMeaning | backend/tasks/exam.py:46-65 | the counters count the exams that were moved |
| ExamClock.CountSkippedMeaning | backend/tasks/exam.py:26-45 | and those that were skipped |
| ExamClock.OnlyLatestTickCounts | backend/tasks/exam.py:46-58 | any ticks in any order equal the one with the latest time |
| ExamClock.StatusIsPhaseOfLastTick | backend/tasks/exam.py:46-58 | with time not running back the status is the phase of the last tick |
| ExamClock.UpdateExamStatuses | backend/tasks/exam.py:17-65 | the updater applies one tick to every row and counts what it did |
| ExamClock.TriggerEmitsExactly | backend/scheduler.py:204-249 | the force-submit trigger emits exactly after an update saw the exam running and none saw it over |
| ExamClock.FinishedBeforeTrigger | backend/scheduler.py:218-238 | a schedule under which an exam ends without any force submission |
| ExamDuration.ShownAsEntered | backend/models/academic/exam.py:82-94 | to_dict shows the hours and minutes that were entered |
| ExamDuration.CreateMeaning | backend/services/academic/exams.py:33-40 | a new exam shows what was entered and ends that much after its start; the column holds from a minute to under 1000 hours |
| ExamDuration.EditMeaning | backend/services/academic/exams.py:76-109 | an update takes what it gives, keeps the rest, and recomputes the end from the duration as entered |
| ExamDuration.KeptMinutesLose | backend/services/academic/exams.py:89-92 | truncation loses a minute exactly from minutes that leave 2 divided by 3 |
| ExamDuration.HoursOnlyLoseAtMostOne | backend/services/academic/exams.py:80-96 | any hours-only updates lose at most one minute in all and gain none |
| ExamDuration.HoursOnlyTakeEffect | backend/services/academic/exams.py:94-96 | of any hours-only updates the last hours the column can hold stand, with the minutes after one loss |
| ExamDuration.EndStaysAccurate | backend/services/academic/exams.py:105-109 | after a create and any updates end_time is within 12 seconds of start plus stored duration |
| ExamDuration.TwelveSecondsReached | backend/services/academic/exams.py:34-40 | the bound of 12 seconds is reached |
| ExamDuration.ExamService.Edited | backend/services/academic/exams.py:76-113 | the in-place update sets start, duration and end time as specified |
| Billing.RunKeepsValid | backend/scheduler.py:141-167 | over every run totals are students times fee, a paid invoice's semester is billed, and no invoice is lost |
| Billing.PaidStaysPaid | backend/routes/billings/webhooks.py:72-77 | no event changes a paid invoice, save an initiation its reference |
| Billing.BilledByLastPayment | backend/services/billings/semesters.py:90-99 | a semester is billed as of the last payment applied to it and changes by nothing else |
| Billing.BilledGainsNoInvoice | backend/scheduler.py:127-135 | a billed semester never gains another invoice |
| Billing.EveryDueTickInvoices | backend/scheduler.py:127-169 | over any run a semester gains one invoice for every due tick before its first applied payment and none after |
| Billing.AtMostOneInvoice | backend/scheduler.py:127-169 | it gains at most one exactly when at most one such tick comes before that payment |
| Billing.ReinitiationOrphansReference | backend/tasks/billing.py:72-77 | after a second initiation a payment under the first reference finds nothing |
| Billing.WebhookApplies | backend/routes/billings/webhooks.py:53-96 | a payment applies exactly to the one unpaid invoice with its reference |
| Billing.WebhookPays | backend/routes/billings/webhooks.py:64-96 | a payment makes the one invoice with its reference paid and its semester billed as of its date, unless the invoice is paid |
| Billing.WebhookRefuses | backend/routes/billings/webhooks.py:53-76 | a reference that no invoice or several have changes nothing |
| Billing.PaymentAppliesOnce | backend/routes/billings/webhooks.py:72-82 | the redelivery of an applied payment finds the invoice paid and changes nothing |
| Billing.InitiatedIsPaid | backend/tasks/billing.py:72-77 | the reference stored last is the one a payment is found by |
| Billing.TickMeaning | backend/scheduler.py:127-169 | a tick adds exactly one pending invoice, students times fee, for every ended, unbilled semester past its end |
| Billing.BillingTables.TriggerBilling | backend/scheduler.py:103-195 | the in-place tick adds one invoice for every due semester |
| Billing.BillingTables.MarkPaid | backend/routes/billings/webhooks.py:53-96 | the in-place webhook marks invoice and semester together |
| KeyRotator.RotationIsFair | backend/core/utils/key_balancer.py:79-92 | with a keys free, a calls return each free key once and no cooling key |
| KeyRotator.SearchFinds | backend/core/utils/key_balancer.py:79-96 | the search fails exactly when all keys cool, and then the cursor is back where it began |
| KeyRotator.MarkedKeyRests | backend/core/utils/key_balancer.py:79-114 | no search picks a marked key before its cooldown ends exactly when every later listing of that key is cooling by itself |
| KeyRotator.MarkMeaning | backend/core/utils/key_balancer.py:98-114 | a mark makes its key cool until its time has passed and leaves every other flag |
| KeyRotator.MarkedKeyReturns | backend/core/utils/key_balancer.py:79-114 | a key marked at its only listing is picked again exactly from the end of its cooldown on |
| KeyRotator.GroqKeyRotator.GetKey | backend/core/utils/key_balancer.py:67-96 | the loop returns the key the search settles on, or the first key |
| KeyRotator.GroqKeyRotator.MarkRateLimited | backend/core/utils/key_balancer.py:98-114 | the first position of the key gets the cooldown, unless the key is unknown, the time is no time or Redis is away |
| GradingSemaphore.RunKeepsBalance | backend/services/academic/submissions.py:480-484 | permits plus holders stay the capacity of the one semaphore of each tenant |
| GradingSemaphore.ConcurrencyBounded | backend/services/academic/submissions.py:480-484 | in every interleaving at most the limit of one tenant's gradings are in flight |
| GradingSemaphore.LookUpMakesOnce | backend/services/academic/submissions.py:480-482 | the first look-up makes the semaphore with its limit and later ones leave it |
| GradingSemaphore.CapacityStays | backend/services/academic/submissions.py:480-482 | that limit stands over every interleaving |
| GradingSemaphore.HolderMayRelease | backend/services/academic/submissions.py:484 | a holder can always give its permit back |
| GradingSemaphore.WaitingMayAcquire | backend/services/academic/submissions.py:484 | a waiting grading may go on exactly while there is room |
| PageMerge.ChunksCover | backend/services/engine/exam_extractor.py:107-110 | every page is sent once, in order, in chunks of five but for a shorter last one |
| PageMerge.AllFoundMeaning | backend/services/engine/exam_extractor.py:107-111 | call k gets chunk k and the results are joined in that order |
| PageMerge.MergedMeaning | backend/services/engine/exam_extractor.py:113-117 | numbers in order of first appearance, each with the last question found under it |
| PageMerge.ValuesMeaning | backend/services/engine/exam_extractor.py:119 | the result lists exactly those questions under distinct numbers |
| PageMerge.LastOnesComeOut | backend/services/engine/exam_extractor.py:113-119 | a question comes out exactly when it has a number, up to white space, that no later question has |
| PageMerge.Parse | backend/services/engine/exam_extractor.py:80-119 | the parser returns that merge of all chunk results, whatever each call yields, or raises without a client |
| Base64Url.RoundTrip | backend/core/utils/token.py:17-24 | unpadded base64url decodes to what was encoded, for every byte string |
| Base64Url.PadRestored | backend/core/utils/token.py:23 | the stripped padding is recovered from the length |
| Base64Url.EncodeChars | backend/core/utils/token.py:17-18 | no segment contains a dot, a dollar sign or a non-ASCII character |
| Base64Url.EncodeUrlSafe | backend/core/utils/token.py:17-18 | only characters of the URL-safe alphabet occur |
| Base64Url.Alphabet | backend/core/utils/token.py:17-18 | the alphabet is that of section 5 of RFC 4648, in its order |
| Base64Url.GroupBits | backend/core/utils/token.py:17-18 | three bytes are cut into four groups of six bits, highest first |
| Base64Url.TailBits | backend/core/utils/token.py:17-18 | one or two bytes at the end are filled up with zero bits |
| Base64Url.TextAccepted | backend/core/utils/token.py:21-24 | a text of the alphabet is accepted exactly unless one character is left over |
| Base64Url.TextDecodes | backend/core/utils/encryption.py:56-57 | a padded text decodes exactly when its last group is whole or has its padding |
| Base64Url.PaddingEnds | backend/core/utils/encryption.py:56-57 | complete padding ends the input |
| Base64Url.JunkSkipped | backend/core/utils/token.py:24 | a character outside the alphabet is skipped wherever it stands |
| Tokens.JwtRoundTrip | backend/core/utils/token.py:46-98 | a token verifies to its payload with expiry exactly under an equal signature and until it expires |
| Tokens.JwtForm | backend/core/utils/token.py:46-66 | a token is header, payload and signature, and the key in use signs the first two; the payload gains exp only if it has none |
| Tokens.JwtRefused | backend/core/utils/token.py:46-51 | nothing is signed with another algorithm or without a key |
| Tokens.VerifyJwtMeaning | backend/core/utils/token.py:68-98 | of all strings just the genuine, unexpired tokens are accepted, with just their payload |
| Tokens.JwtOwnExpiry | backend/core/utils/token.py:90-96 | an expiry of its own rules over expires_in, as a number or a text, and is stretched by the leeway |
| Tokens.JwtLifetime | backend/core/utils/token.py:54-96 | with an added expiry it lives up to and including its last second, plus the leeway |
| Tokens.NullExpiryNeverExpires | backend/core/utils/token.py:55-92 | a token made with a null exp is accepted at every time, whatever expires_in says |
| Tokens.TimedRoundTrip | backend/core/utils/token.py:113-150 | a timed token gives back its object up to and including its last second |
| Tokens.TimedForm | backend/core/utils/token.py:113-122 | a timed token is payload, last second and signature of the two |
| Tokens.VerifyTimedMeaning | backend/core/utils/token.py:124-150 | of all strings just those are accepted that the key in use signed and whose last second has not passed |
| Encryption.PasswordRoundTrip | backend/core/utils/encryption.py:29-61 | a record is accepted for exactly the passwords that derive the same key |
| Encryption.PasswordRecord | backend/core/utils/encryption.py:29-43 | the record names scheme, iterations, salt and 32 bytes of key, in this order |
| Encryption.RecordChecked | backend/core/utils/encryption.py:45-61 | a record of any iteration count and key length is checked with just those |
| Encryption.LayoutRestored | backend/core/utils/encryption.py:71-99 | decryption gets back the nonce and the sealed bytes of encryption |
| Encryption.AesLayout | backend/core/utils/encryption.py:71-99 | a token is nonce, the last 16 sealed bytes and the rest, under the passed key, if not empty, or the configured one |
| Encryption.AesRoundTrip | backend/core/utils/encryption.py:71-99 | so any sound primitive gives back every plaintext |

## Left out

- Routes, schemas, sessions, query building and migrations: input and output of libraries.
- Kafka: a delivery is an event that may happen at any time; publishing failures and offset commits are not modelled.
- Races inside one service call: submit reads and writes without a row lock, so each call is one step here.
- Deleting submissions, exams and questions, and their cascades.
- Answer fields that are not strings, white space, letter case and digits beyond ASCII in `strip`, `lower` and `int`, and underscores between digits in `int`.
- Decimals beyond the 28-digit context: such a score reads as unreadable.
- Binary floating point in durations: hours are exact fractions, which no rounding tie can reach.
- The wording of prompts and error messages beyond what decides a retry.
- Redis expiry inside one rotator search: the set of cooling keys is fixed during a call.
- The order in which waiting gradings are served by the event loop.
- Dashboards other than the missed exams, tenants, plans, usage, e-mail and all of the frontend: only easy members.
