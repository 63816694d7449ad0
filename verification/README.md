# Crawler-training platform: a Dafny model of its core logic

The platform teaches web scraping through exercises. This project models
the parts of it that carry logic, as pure functions over immutable data
with their properties proved:

- **The "sum of 1000" challenge.** The server generates 100 pages of 10
  numbers for a user and an exercise, serves them page by page, and judges
  submitted totals. A completion state machine sits behind that: attempts,
  first correct answer wins, a time bonus. A progress summary is derived
  from it. The client keeps a copy of the generator. A second proof
  establishes that the copy agrees with the server's generator.
- **The knowledge-base quiz engine.** This covers:
  - how an answer is judged for each question type;
  - how an exam's size is split across question types and drawn from a
    bank;
  - practice ordering;
  - exam sessions and their counters;
  - the wrong-question book, with insert-or-increment and mastering;
  - per-bank study statistics;
  - soft delete of banks and questions;
  - the HTTP endpoints' guards: 404 for a missing session, 403 for another
    user's, 400 for a completed one.
- **The challenge validators.** Each is a chain of checks:
  - a payload is present;
  - the fields are present;
  - the timestamp is within 300 seconds of the clock;
  - an MD5 or SHA-256 signature matches;
  - the expected answer is met.

  There is also a validator registry.
- **Two small services.** Exercise submissions are upserted, one per user
  and exercise. Study notes are owner-scoped, with a view counter, soft
  delete and a newest-first list.
- **The client's pure helpers.** This covers:
  - the page window and page guard, and the clock display;
  - the challenge page's selection, sum and reset;
  - the exam page: answer sheet, submit guard, navigation, multi-choice
    toggle, answer options and buttons;
  - the exam-setup form's validation and numeric fallbacks;
  - the question editor;
  - the statistics page's duration display and grades;
  - the wrong-question book's filters and counters;
  - note previews, thumbnails and reading time;
  - the exercise list filter;
  - the exercise-module loader's cache.

Modules:

| file | module | models |
|---|---|---|
| common.dfy | `Common` | shared definitions: `Option`/`Result`, HTTP errors, ASCII case, Python and JavaScript white space, decimal text, split/join, filters, sums |
| challenge_generator.dfy | `ChallengeGenerator` | the server generator and the client copy |
| challenge_api.dfy | `ChallengeApi` | get-or-create, page, submit and progress endpoints |
| answer_check.dfy | `AnswerCheck` | `_check_answer` |
| random_choice.dfy | `RandomChoice` | `random.sample` and `random.shuffle` as pick lists |
| exam_generation.dfy | `ExamGeneration` | exam and practice question selection |
| exam_service.dfy | `ExamService` | banks, questions, sessions, answers, wrong questions, statistics |
| knowledge_api.dfy | `KnowledgeApi` | the knowledge-base endpoints and their guards |
| validators.dfy | `Validators` | the validators and the registry |
| exercise_service.dfy | `ExerciseService` | exercise list and submission upsert |
| study_notes.dfy | `StudyNotes` | the study-note service |
| client_challenge.dfy | `ClientChallenge` | the exercise and challenge pages |
| client_exam.dfy | `ClientExam` | the exam page and the exam-setup form |
| client_knowledge.dfy | `ClientKnowledge` | question editor, statistics page, wrong-question book |
| client_notes.dfy | `ClientNotes` | notes list, note page, exercise list |
| exercise_loader.dfy | `ExerciseLoader` | the exercise-module loader |

Things outside the program are parameters:

- Randomness is a list of picks. Any list of picks is a legal draw, so a
  property proved for all pick lists holds for every random outcome.
- MD5 and SHA-256 are function parameters.
- The clock is a `now` parameter.
- Fresh session ids are parameters.
- A module import is its outcome.

A database table is a sequence of rows in query order. `.first()` is the
first matching row.

Python's `%` on a positive modulus is Dafny's `%`. JavaScript's `%` is
modelled separately (`ChallengeGenerator.JsRem`). Integers are unbounded.
Where the source could overflow or wrap, it does not do so on the values
it handles.

## Model

A function that only computes has no row of its own. Its meaning is stated
by the lemmas about it, and those lemmas have rows citing the function's
lines:

- `AnswerCheck.CheckAnswer` (knowledge_base_service.py:289-301):
  `MultiChoiceIgnoresOrder`, `MultiChoicePermutation`,
  `FillInIgnoresPadding`, `TrailingSeparatorAccepted`,
  `SingleChoiceKeepsPadding`, `StoredAnswerAccepted` and
  `StoredAnswerWithSeparatorRejected`.
- `ExamGeneration.GenerateExamQuestions` (160-212): `ExamFromBank`,
  `ExamFitsBank`, `ExamNoDuplicates`, `ExamAtMostTotal` and `ExamSize`.
- `ExamService.AddWrongQuestion` (303-322): `AddWrongQuestionUpserts` and
  `AddWrongQuestionPreservesValid`.
- `ExamService.UpdateStudyStats` (324-343): `UpdateStudyStatsCounts`.
- `ExamService.SubmitAnswerAsWritten`: `AsWrittenNeedsExistingStats` and
  `FirstAnswerFailsAsWritten`.
- `ExerciseLoader.ValidateModule`: `ValidateModuleAcceptsExerciseMods`.
- `ExerciseLoader.ValidateModuleAsWritten`: `AsWrittenRejectsEveryExerciseMod`.
- `ExerciseLoader.LoadAll`: `FailureIsSticky`.
- `ExerciseLoader.AllExercises`: `LoadExerciseLaws`.
- `ClientChallenge.FormatClock`: `FormatClockRoundTrip`.
- `ClientChallenge.PageWindow`: `PageWindowBounds`.
- `ClientChallenge.SubmitDisabled`: `SubmitButtonStates`.
- `ClientExam.ValidateSettings`: `AcceptedSettingsBoundTheExam`.
- `ClientExam.MultiToggle`: `MultiToggleSegments` and `MultiToggleTwice`.
- `ClientExam.JsParseInt`: `JsParseIntDigits`, `EmptyFieldIsNaN` and
  `NumericInputs`.
- `ClientKnowledge.FormatDuration`: `FormatDurationReadsBack` and
  `FormatDurationToTheMinute`.
- `ClientKnowledge.AccuracyColour`: `GradesAgree`.
- `ClientKnowledge.AnswerClick`: `AnswerClickParts`.
- `ClientNotes.DifficultyText`: `DifficultyTextLaws`.

| member | source | states |
|---|---|---|
| ChallengeGenerator.TableShape | backend/app/api/api_v1/endpoints/challenges.py:21-28 | every table has 100 pages of exactly 10 numbers, each between 1 and 200 |
| ChallengeGenerator.SeedIgnoresUser | backend/app/api/api_v1/endpoints/challenges.py:25 | each slot's value is the same for every user id, because `user_id*1000` is a multiple of 200 |
| ChallengeGenerator.TableIgnoresUser | backend/app/api/api_v1/endpoints/challenges.py:21-28 | two users get identical tables for the same exercise, contrary to the per-user intent in the comment on line 24 |
| ChallengeGenerator.TableDependsOnParityOnly | backend/app/api/api_v1/endpoints/challenges.py:25 | exercises `e` and `e+2` get identical tables |
| ChallengeGenerator.NeighbourExercisesDiffer | backend/app/api/api_v1/endpoints/challenges.py:25 | exercises `e` and `e+1` get different tables |
| ChallengeGenerator.TotalSumIsConstant | backend/app/api/api_v1/endpoints/challenges.py:19-30 | the sum of the 1000 numbers is 100500 for every user and exercise |
| ChallengeGenerator.GenerateChallengeNumbers | backend/app/api/api_v1/endpoints/challenges.py:16-30 | the nested loops return 100×10 numbers in 1..200 that do not depend on the user; `total_sum` is the sum of all of them, and that sum is 100500 |
| ChallengeGenerator.FirstSlotExample | backend/app/api/api_v1/endpoints/challenges.py:25 | user 1, exercise 1, first slot holds 101 |
| ChallengeGenerator.GenerateChallengeData | frontend/src/services/challengeService.ts:28-54 | the client's fresh record has id 0, is not completed, has 0 attempts and no completion time; it echoes both ids; it has 100 pages of 10; `totalSum` is the sum of its numbers |
| ChallengeGenerator.ClientMatchesServer | frontend/src/services/challengeService.ts:33-42 | for ids that make every key non-negative, the client's numbers equal the server's table and the client's total is 100500 |
| ChallengeGenerator.ClientDivergesOnNegativeKeys | frontend/src/services/challengeService.ts:37 | for a negative key, JavaScript's `%` gives a different number from Python's: -198 against 2 |
| ChallengeApi.FindChallenge | backend/app/api/api_v1/endpoints/challenges.py:40-43 | returns the first row of this user and exercise; None exactly when no row matches |
| ChallengeApi.GetChallenge | backend/app/api/api_v1/endpoints/challenges.py:32-74 | an existing row is returned exactly as stored (attempts, completion, best time and score included) and nothing changes; otherwise one row holding the generator's numbers is appended |
| ChallengeApi.GetChallengePreservesValid | backend/app/api/api_v1/endpoints/challenges.py:40-57 | get-or-create keeps at most one row per user and exercise, and each row's total equals the sum of its numbers |
| ChallengeApi.GetChallengeIdempotent | backend/app/api/api_v1/endpoints/challenges.py:40-61 | a second call returns the same row and changes no table |
| ChallengeApi.GetChallengeTotal | backend/app/api/api_v1/endpoints/challenges.py:47-53 | in a valid database every challenge handed out totals 100500 and holds user 0's table |
| ChallengeApi.GetPage | backend/app/api/api_v1/endpoints/challenges.py:76-104 | a page outside 1..100 is a 400 before any lookup; a missing challenge is a 404; otherwise the result is row `p-1` with start `(p-1)*10+1` and end `p*10` |
| ChallengeApi.GetPageAfterGetChallenge | backend/app/api/api_v1/endpoints/challenges.py:84-104 | once the challenge exists, every page 1..100 is served, with the generator's row |
| ChallengeApi.PagesTile | backend/app/api/api_v1/endpoints/challenges.py:102-103 | consecutive pages' index ranges adjoin, so the pages cover 1..1000 in order |
| ChallengeApi.AwardedScore | backend/app/api/api_v1/endpoints/challenges.py:143-145 | the score is at least 100; it lies in 100..130 for non-negative time, and is exactly 100 from 300 seconds on |
| ChallengeApi.ApplySubmission | backend/app/api/api_v1/endpoints/challenges.py:136-146 | a submission adds exactly one attempt and keeps the ids, numbers and total |
| ChallengeApi.Submit | backend/app/api/api_v1/endpoints/challenges.py:106-158 | the result is a 404 exactly when the caller has no challenge for the exercise; otherwise the table size and the id counter stay the same |
| ChallengeApi.SubmitCountsAttempt | backend/app/api/api_v1/endpoints/challenges.py:123-136 | every submission adds one attempt and is logged; `is_correct` holds exactly when the answer equals the stored total; `correct_answer` is returned exactly when the answer is wrong |
| ChallengeApi.CompletionIsFinal | backend/app/api/api_v1/endpoints/challenges.py:138-146 | after completion, later submissions keep the completion time, best time and score |
| ChallengeApi.CompletionIffFirstCorrect | backend/app/api/api_v1/endpoints/challenges.py:138-145 | a submission completes the challenge exactly when it is correct and the challenge was open; the best time becomes its time and the score becomes `AwardedScore` |
| ChallengeApi.CorrectIffAnswerIs100500 | backend/app/api/api_v1/endpoints/challenges.py:123 | in a valid database an answer is judged correct exactly when it is 100500 |
| ChallengeApi.SubmitPreservesValid | backend/app/api/api_v1/endpoints/challenges.py:106-149 | submissions keep one row per user and exercise, and keep completed rows scored |
| ChallengeApi.SecondCorrectSubmission | backend/app/api/api_v1/endpoints/challenges.py:138-157 | a second correct answer only adds an attempt and a log entry |
| ChallengeApi.CompletedBy | backend/app/api/api_v1/endpoints/challenges.py:167-170 | the rows kept are exactly the caller's completed challenges |
| ChallengeApi.TimesOf | backend/app/api/api_v1/endpoints/challenges.py:181 | only best times that are present and non-zero are counted |
| ChallengeApi.SubmissionCount | backend/app/api/api_v1/endpoints/challenges.py:176-178 | counts the caller's submissions; the count is at most the log's length |
| ChallengeApi.ExerciseIds | backend/app/api/api_v1/endpoints/challenges.py:185 | lists the completed challenges' exercise ids, position by position |
| ChallengeApi.GetProgress | backend/app/api/api_v1/endpoints/challenges.py:160-189 | the completed list is no longer than the table, and the attempt count is no larger than the log |
| ChallengeApi.SubmitAddsOneAttemptToProgress | backend/app/api/api_v1/endpoints/challenges.py:176-178 | each submission adds one to its user's attempt total and to nobody else's |
| ChallengeApi.ScoreTotalAtLeastBase | backend/app/api/api_v1/endpoints/challenges.py:173 | completed challenges scored at least 100 each sum to at least 100 per challenge |
| ChallengeApi.ProgressScoreAtLeastBase | backend/app/api/api_v1/endpoints/challenges.py:173 | the reported total score is at least 100 per completed challenge |
| ChallengeApi.ProgressAverageBounded | backend/app/api/api_v1/endpoints/challenges.py:181-188 | the truncated average time lies between the smallest and the largest counted best time |
| AnswerCheck.SortChars | backend/app/services/knowledge_base_service.py:295 | `sorted` of a string is sorted and has the same characters |
| AnswerCheck.SortCharsIffSameLetters | backend/app/services/knowledge_base_service.py:295-297 | two strings sort to the same string exactly when they have the same characters, counted with multiplicity |
| AnswerCheck.RemoveCommaSpace | backend/app/services/knowledge_base_service.py:296 | removing ", " never lengthens the answer |
| AnswerCheck.RemoveCommaSpaceSplit | backend/app/services/knowledge_base_service.py:296 | for every answer: its `split(", ")` pieces joined by ", " give the answer back, no piece holds a ", ", and the removal is exactly the pieces laid end to end |
| AnswerCheck.RemoveCommaSpaceJoin | backend/app/services/knowledge_base_service.py:296 | an answer stored as parts joined by ", " loses exactly the separators, when no part holds a ", " of its own |
| AnswerCheck.RemoveCommaSpaceConcat | backend/app/services/knowledge_base_service.py:296 | removal works piece by piece on a concatenation where no ", " straddles the seam |
| AnswerCheck.RemoveCommaSpaceKeepsOthers | backend/app/services/knowledge_base_service.py:296 | an answer without ", " is left unchanged |
| AnswerCheck.MultiChoiceIgnoresOrder | backend/app/services/knowledge_base_service.py:293-297 | a multi-choice answer is right exactly when its upper-cased characters are a permutation of the stored answer's, once ", " is removed |
| AnswerCheck.MultiChoicePermutation | backend/app/services/knowledge_base_service.py:293-297 | rearranging a multi-choice answer never changes the verdict |
| AnswerCheck.FillInIgnoresPadding | backend/app/services/knowledge_base_service.py:298-299 | fill-in and essay answers are judged the same with any Python white space (`str.isspace`, including the separators 0x1C-0x1F, 0x85 and the Unicode spaces) added before and after |
| AnswerCheck.TrailingSeparatorAccepted | backend/app/services/knowledge_base_service.py:298-299 | a fill-in or essay answer typed with a trailing unit separator (0x1F) is still accepted, although the browser's `trim` keeps that character |
| AnswerCheck.SingleChoiceKeepsPadding | backend/app/services/knowledge_base_service.py:300-301 | other types ignore case ("a" matches "A") but not white space (" A" does not) |
| AnswerCheck.StoredAnswerAccepted | backend/app/services/knowledge_base_service.py:289-301 | typing the stored answer back is accepted for every type; for multiple choice this needs the stored answer to be free of ", " |
| AnswerCheck.StoredAnswerWithSeparatorRejected | backend/app/services/knowledge_base_service.py:293-297 | a stored multi-choice answer "A, B" rejects itself |
| RandomChoice.Sample | backend/app/services/knowledge_base_service.py:190 | `random.sample(xs, k)` draws exactly `k` items without replacement; drawing all of them is a permutation |
| RandomChoice.Shuffle | backend/app/services/knowledge_base_service.py:211 | `random.shuffle` gives a permutation |
| RandomChoice.SampleNoDup | backend/app/services/knowledge_base_service.py:190 | a sample from a list without repeats has no repeats |
| RandomChoice.SampleWithZeroPicks | backend/app/services/knowledge_base_service.py:190 | a pick list of zeros draws the first `k` items in order |
| ExamGeneration.ActiveInBank | backend/app/services/knowledge_base_service.py:201-204 | keeps exactly the active questions of the bank |
| ExamGeneration.ActiveOfType | backend/app/services/knowledge_base_service.py:163-179 | keeps exactly the active questions of the bank with the given type |
| ExamGeneration.ExamCounts | backend/app/services/knowledge_base_service.py:182-184 | the three per-type counts always add up to the requested total |
| ExamGeneration.CountsAreShares | backend/app/services/knowledge_base_service.py:182-184 | with non-negative single and multi ratios summing to at most 100, each count is the truncated share `total*ratio/100` and none is negative |
| ExamGeneration.DefaultCounts | backend/app/services/knowledge_base_service.py:182-184 | ten questions at 40/30/30 split into 4, 3 and 3 |
| ExamGeneration.TakeUpTo | backend/app/services/knowledge_base_service.py:189-196 | a typed draw takes `min(count, available)` questions from its list when the count is positive, and none otherwise |
| ExamGeneration.SelectedFromBank | backend/app/services/knowledge_base_service.py:187-196 | the three typed draws together never use a bank question more often than it occurs |
| ExamGeneration.ToppedUpFromBank | backend/app/services/knowledge_base_service.py:198-208 | topping up only adds questions that were not drawn yet |
| ExamGeneration.ExamFromBank | backend/app/services/knowledge_base_service.py:160-212 | every exam question is an active question of the bank, and none is used more often than it occurs |
| ExamGeneration.ExamFitsBank | backend/app/services/knowledge_base_service.py:160-212 | an exam is never longer than the bank's active question list |
| ExamGeneration.ExamNoDuplicates | backend/app/services/knowledge_base_service.py:160-212 | a bank without repeated rows gives an exam without duplicates |
| ExamGeneration.ExamAtMostTotal | backend/app/services/knowledge_base_service.py:182-208 | under non-negative ratios, an exam never exceeds the requested total |
| ExamGeneration.DrawnAndLeftMakeBank | backend/app/services/knowledge_base_service.py:206 | on a bank without repeated rows, the drawn questions and those not yet drawn add up to the bank's size |
| ExamGeneration.SelectedAtMostTotal | backend/app/services/knowledge_base_service.py:182-196 | under non-negative ratios, the typed draws never exceed the total |
| ExamGeneration.ExamSize | backend/app/services/knowledge_base_service.py:160-212 | under non-negative ratios and on a bank without repeated rows, an exam has exactly `min(total, bank size)` questions |
| ExamGeneration.NegativeRatioOverflow | backend/app/services/knowledge_base_service.py:182-184 | a negative single ratio makes the exam longer than the requested total |
| ExamGeneration.GeneratePracticeQuestions | backend/app/services/knowledge_base_service.py:214-226 | a practice run is always a permutation of the bank's active questions |
| ExamGeneration.PracticeOrders | backend/app/services/knowledge_base_service.py:221-224 | "逆序" gives the bank order reversed; any order other than "逆序" and "随机" gives the bank order |
| ExamService.DeleteBank | backend/app/services/knowledge_base_service.py:67-75 | returns false exactly when no active bank has the id, and then changes nothing |
| ExamService.DeleteBankHides | backend/app/services/knowledge_base_service.py:31-75 | a deleted bank can no longer be fetched, other banks are unaffected, and a second delete returns false |
| ExamService.DeleteQuestion | backend/app/services/knowledge_base_service.py:126-134 | returns false exactly when no active question has the id, and then changes nothing |
| ExamService.DeletedQuestionNotDrawn | backend/app/services/knowledge_base_service.py:126-134 | a deleted question is never drawn again |
| ExamService.CreateExamSession | backend/app/services/knowledge_base_service.py:141-152 | a session is appended with zero counters and the given fields, and is then the one found under its id; an id clash is an error |
| ExamService.CreateExamSessionPreservesValid | backend/app/services/knowledge_base_service.py:141-152 | a new session keeps every table's invariants |
| ExamService.CompleteExam | backend/app/services/knowledge_base_service.py:274-287 | an unknown session is an error; otherwise only that session is marked completed, at `now` |
| ExamService.AddWrongQuestionUpserts | backend/app/services/knowledge_base_service.py:303-322 | a wrong answer bumps the open record's count and keeps the latest answer; without an open record, a new record with count 1 is appended; mastered records are left alone |
| ExamService.AddWrongQuestionPreservesValid | backend/app/services/knowledge_base_service.py:303-322 | at most one open record per user and question; distinct ids; counts at least 1 |
| ExamService.GetWrongQuestions | backend/app/services/knowledge_base_service.py:350-360 | the list is the caller's open records in table order; a missing or zero bank id does not filter; a non-zero bank id keeps exactly the open records whose question row belongs to that bank (the inner join) |
| ExamService.MasterQuestion | backend/app/services/knowledge_base_service.py:362-375 | false exactly for an unknown id, with nothing changed |
| ExamService.MasterRemovesFromList | backend/app/services/knowledge_base_service.py:350-375 | a mastered record leaves every user's wrong-question list, and other records are untouched |
| ExamService.DeleteWrongQuestion | backend/app/services/knowledge_base_service.py:377-388 | false exactly for an unknown id; otherwise exactly one record goes |
| ExamService.DeleteWrongRemovesOnlyThat | backend/app/services/knowledge_base_service.py:377-388 | with distinct ids, deletion removes exactly the record with that id and keeps the rest in order |
| ExamService.UpdateStudyStatsCounts | backend/app/services/knowledge_base_service.py:324-343 | (corrected; as written, see Findings) a row is created on first use; answered goes up by 1 and correct by 1 exactly when right; score and time are added; `0 <= correct <= answered` is kept; no other row changes |
| ExamService.SubmitAnswer | backend/app/services/knowledge_base_service.py:228-272 | (corrected; as written, see Findings) an unknown question id is an error; otherwise the answer is logged and the questions and banks are unchanged |
| ExamService.SubmitAnswerCounts | backend/app/services/knowledge_base_service.py:237-265 | (corrected; as written, see Findings) score is the question's score when right and 0 when wrong; the session counts one more answer, one more correct answer exactly when right, and adds the score and the time; only a wrong answer touches the wrong-question book |
| ExamService.SubmitAnswerPreservesValid | backend/app/services/knowledge_base_service.py:228-272 | (corrected; as written, see Findings) answering keeps the session, wrong-question and statistics invariants |
| ExamService.UpdateStudyStatsAsWritten | backend/app/services/knowledge_base_service.py:331-342 | as written, the update succeeds exactly when the statistics row already exists |
| ExamService.AsWrittenNeedsExistingStats | backend/app/services/knowledge_base_service.py:324-343 | as written, an answer succeeds only if a statistics row for its bank exists; with an empty statistics table every answer fails |
| ExamService.FirstAnswerFailsAsWritten | backend/app/services/knowledge_base_service.py:331-338 | as written, the first answer to a bank is a server error |
| ExamService.FirstAnswerRecordedCorrected | backend/app/services/knowledge_base_service.py:331-343 | with counters starting at zero, the same answer is recorded and creates the row with one answer |
| KnowledgeApi.StoredTimeLimit | backend/app/api/api_v1/endpoints/knowledge_base.py:182 | the limit is stored in seconds and is a whole number of the given minutes; a missing or zero limit means none |
| KnowledgeApi.SetupExam | backend/app/api/api_v1/endpoints/knowledge_base.py:163-188 | an empty draw is a 400; otherwise an open exam session is created, sized to the draw and owned by the caller |
| KnowledgeApi.SetupPractice | backend/app/api/api_v1/endpoints/knowledge_base.py:191-213 | a bank without active questions is a 400; otherwise a practice session with no time limit is created, sized to the bank |
| KnowledgeApi.SessionGuard | backend/app/api/api_v1/endpoints/knowledge_base.py:224-229 | 404 for an unknown session, 403 for another user's, and otherwise the session |
| KnowledgeApi.GetSessionQuestions | backend/app/api/api_v1/endpoints/knowledge_base.py:216-248 | fails exactly when the session guard fails, with the guard's error |
| KnowledgeApi.ExamSessionShowsSetupCount | backend/app/api/api_v1/endpoints/knowledge_base.py:232-240 | on a bank without repeated rows, the owner is shown as many questions as setup counted, whatever ratios setup used |
| KnowledgeApi.PracticeSessionInBankOrder | backend/app/api/api_v1/endpoints/knowledge_base.py:241-246 | practice sessions always list the bank in order, whatever order was requested |
| KnowledgeApi.SubmitAnswerEndpoint | backend/app/api/api_v1/endpoints/knowledge_base.py:251-276 | (corrected; as written, see Findings) the guard's error is returned, a completed session gives 400, and otherwise the service's answer |
| KnowledgeApi.CompleteExamEndpoint | backend/app/api/api_v1/endpoints/knowledge_base.py:279-311 | the guard's error is returned, a completed session gives 400, and otherwise the session is completed and its figures reported |
| KnowledgeApi.CompletionIsOneWay | backend/app/api/api_v1/endpoints/knowledge_base.py:288-297 | once completed, a session refuses a second completion and any answer with 400 |
| KnowledgeApi.SubmitKeepsSessionOpen | backend/app/api/api_v1/endpoints/knowledge_base.py:260-276 | (corrected; as written, see Findings) an answer leaves its session open and owned by the same user |
| KnowledgeApi.MasterEndpoint | backend/app/api/api_v1/endpoints/knowledge_base.py:327-338 | 404 exactly for an unknown id; otherwise the record is mastered |
| KnowledgeApi.MasterIgnoresCaller | backend/app/api/api_v1/endpoints/knowledge_base.py:334-335 | the outcome does not depend on the caller: there is no ownership check |
| KnowledgeApi.DeleteWrongEndpoint | backend/app/api/api_v1/endpoints/knowledge_base.py:341-352 | 404 exactly for an unknown id; otherwise one record goes |
| KnowledgeApi.DeleteWrongIsFinal | backend/app/api/api_v1/endpoints/knowledge_base.py:341-352 | with distinct ids, a second delete or master of the same id is a 404 |
| Validators.Exercise1Validate | backend/app/challenge_validators/exercises/exercise_1.py:20-54 | accepts exactly a non-empty payload with both fields, a numeric timestamp within 300 s, and `md5Param == md5(str(timestamp) + "spider")` |
| Validators.Exercise1Honest | backend/app/challenge_validators/exercises/exercise_1.py:35-50 | a correctly hashed payload is accepted for any answer exactly when its timestamp is within 300 s |
| Validators.EmptyPayloadRefused | backend/app/challenge_validators/exercises/exercise_1.py:24-26 | an empty payload is refused by every validator except the no-op one |
| Validators.FirstExerciseValidate | backend/app/challenge_validators/v1.py:18-56 | the same checks, and the answer must be a non-negative integer |
| Validators.FirstExerciseAnswers | backend/app/challenge_validators/v1.py:48-52 | a missing answer reads as 0 and passes; a negative or textual answer is refused |
| Validators.SignInputDecodes | backend/app/challenge_validators/exercises/exercise_2.py:60-64 | the signed string splits back into its five fields, and the numbers parse back to the submitted values |
| Validators.CalculateExpectedAnswer2 | backend/app/challenge_validators/exercises/exercise_2.py:66-75 | the double loop computes 4950 for every timestamp |
| Validators.Exercise2ExpectedIsConstant | backend/app/challenge_validators/exercises/exercise_2.py:70-75 | the expected answer is 0+1+…+99 = 4950 for every timestamp |
| Validators.Exercise2Validate | backend/app/challenge_validators/exercises/exercise_2.py:24-58 | accepts exactly an admissible payload whose sign is the SHA-256 of its own fields, with the submission's answer equal to 4950 |
| Validators.CalculateExpectedAnswer3 | backend/app/challenge_validators/exercises/exercise_3.py:65-82 | the digit sum of the five fixed strings is 105 for any shift |
| Validators.Exercise3Expected | backend/app/challenge_validators/exercises/exercise_3.py:65-82 | the expected answer is 105 and ignores the shift |
| Validators.Exercise3Validate | backend/app/challenge_validators/exercises/exercise_3.py:24-57 | accepts exactly an admissible payload signed with the published shift (13 by default), with the answer equal to 105 |
| Validators.SignedHonest | backend/app/challenge_validators/exercises/exercise_2.py:46-54 | a fresh, correctly signed submission passes exercise 2 exactly when it answers 4950 and exercise 3 exactly when it answers 105 |
| Validators.Exercise3OwnParams | backend/app/challenge_validators/exercises/exercise_3.py:45-51 | with its own public parameters, exercise 3 signs with shift 13 |
| Validators.PublicParams | backend/app/challenge_validators/v1.py:10-16 | the first-exercise validator publishes exactly the timestamp `now` and a hint; the no-op validator (registry.py:18-19) publishes exactly `{"version": "1.0.0"}`; every other validator publishes a version, the timestamp `now`, a hint and its exercise id |
| Validators.Validate | backend/app/challenge_validators/registry.py:21-23 | the no-op validator accepts everything |
| Validators.Register | backend/app/challenge_validators/registry.py:8-9 | the id maps to the validator, and other ids are unchanged |
| Validators.Lookup | backend/app/challenge_validators/registry.py:12-13 | None exactly for an unregistered id |
| Validators.RegistryLaws | backend/app/challenge_validators/registry.py:5-13 | a registration is seen by the next lookup; other ids are unaffected; the latest registration wins; the empty registry knows no id |
| ExerciseService.ParseDifficulty | backend/app/services/exercise_service.py:22 | `DifficultyLevel(s)` finds the level whose value is `s`, and fails exactly when there is none |
| ExerciseService.DifficultyRoundTrip | backend/app/services/exercise_service.py:22 | each level is found from its own value |
| ExerciseService.GetExercises | backend/app/services/exercise_service.py:11-27 | returns at most `limit` published exercises, with the recognised difficulty when one is given |
| ExerciseService.GetExercisesComplete | backend/app/services/exercise_service.py:17-25 | a large enough first page holds every published exercise of the level, in table order |
| ExerciseService.GetExercisesPagesAdjoin | backend/app/services/exercise_service.py:27 | `.offset(skip).limit(limit)`: the page at `skip` of `a` items followed by the page at `skip + a` of `b` items is the page at `skip` of `a + b` items, so pages neither skip nor repeat an exercise |
| ExerciseService.UnknownDifficultyIgnored | backend/app/services/exercise_service.py:17-25 | an empty or unrecognised difficulty gives the unfiltered listing, for every offset and limit |
| ExerciseService.SubmitExercise | backend/app/services/exercise_service.py:61-93 | the result is a PENDING record of this user and exercise holding the answer, and it is the record found afterwards |
| ExerciseService.SubmitExerciseUpserts | backend/app/services/exercise_service.py:68-93 | a resubmission overwrites the same record in place; a first submission appends one; one record per user and exercise is kept |
| StudyNotes.Create | backend/app/services/study_note_service.py:11-23 | the note is stored under the caller with every supplied field unchanged, no views, and not deleted |
| StudyNotes.Update | backend/app/services/study_note_service.py:25-34 | only the owner's note changes: each sent field takes the sent value and every unsent field, the creation time, the view count and the deletion mark keep theirs; `updatedAt` becomes `now` when the note changed, and a note sent only its current values is left as it was; for anyone else the result is None and nothing changes |
| StudyNotes.Get | backend/app/services/study_note_service.py:36-42 | (corrected; as written, see Findings) the owner's note comes back with one more view and `updated_at` stamped by the commit, and no other note changes; None, with nothing changed, for a note the caller does not own |
| StudyNotes.SoftDelete | backend/app/services/study_note_service.py:54-61 | (corrected; as written, see Findings) the delete goes through `get`, so the view count rises by one before `deleted_at` is stamped; false for a note the caller does not own |
| StudyNotes.OthersNotesUntouched | backend/app/services/study_note_service.py:25-61 | (corrected; as written, see Findings) another user's note can be neither read, changed nor deleted, and the attempt changes nothing |
| StudyNotes.DeletedNoteStillReadable | backend/app/services/study_note_service.py:36-61 | (corrected; as written, see Findings) `get` still returns a soft-deleted note |
| StudyNotes.GetAsWritten | backend/app/services/study_note_service.py:36-42 | as written, `get` succeeds exactly when the caller owns no note with that id, and then returns None |
| StudyNotes.SoftDeleteAsWritten | backend/app/services/study_note_service.py:54-61 | as written, `soft_delete` can only fail or answer false |
| StudyNotes.OwnerCannotReadAsWritten | backend/app/services/study_note_service.py:40 | as written, the owner of a note gets a server error from both `get` and `soft_delete`; the corrected `get` counts the view |
| StudyNotes.InsertNote | backend/app/services/study_note_service.py:52 | inserting into a newest-first list keeps it newest first and adds exactly that note |
| StudyNotes.SortNewestFirst | backend/app/services/study_note_service.py:52 | the ordering is a newest-first permutation |
| StudyNotes.List | backend/app/services/study_note_service.py:44-52 | at most `limit` of the caller's live notes, newest first |
| StudyNotes.ListComplete | backend/app/services/study_note_service.py:44-52 | a large enough first page holds every live note of the caller |
| StudyNotes.ListPagesAdjoin | backend/app/services/study_note_service.py:49-50 | `.offset(skip).limit(limit)`: consecutive pages of the owner's list join into one page of their combined length, so no note is skipped or shown twice |
| StudyNotes.DeletedNotListed | backend/app/services/study_note_service.py:44-61 | (corrected; as written, see Findings) after a soft delete, the note is missing from every page of the owner's list |
| ClientChallenge.FormatClockRoundTrip | frontend/src/pages/ExerciseDetail.tsx:90-95 | the display splits into three numeric fields of at least two digits, minutes and seconds below 60, with `h*3600 + m*60 + s` equal to the input; the `formatTime` copies at ChallengePage.tsx:79-84 and KnowledgeExam.tsx:146-151 are the same function |
| ClientChallenge.PadKeepsValue | frontend/src/pages/ExerciseDetail.tsx:94 | `padStart(2, '0')` keeps the digits' value |
| ClientChallenge.PageWindowBounds | frontend/src/pages/ExerciseDetail.tsx:285-294 | the window is always ten pages within 1..100, and contains the current page exactly when that page exists |
| ClientChallenge.DetailPageChange | frontend/src/pages/ExerciseDetail.tsx:97-111 | pages outside 1..100, or a page without an exercise id, are ignored; otherwise the page switches and the result clears |
| ClientChallenge.NavigationStaysInRange | frontend/src/pages/ExerciseDetail.tsx:272-315 | previous, next and numbered buttons keep the page within 1..100, and previous and next move by one away from the ends |
| ClientChallenge.ChallengePageChange | frontend/src/pages/ChallengePage.tsx:86-99 | before the numbers are loaded nothing changes; afterwards it shows row `page-1` with start `(page-1)*10+1` and end `page*10`, clears the selection, answer and result, and keeps the clock |
| ClientChallenge.Toggle | frontend/src/pages/ChallengePage.tsx:101-109 | a click flips whether the value is selected and leaves every other value as it was |
| ClientChallenge.ToggleTwice | frontend/src/pages/ChallengePage.tsx:101-109 | two clicks restore the set of selected values, and exactly the list when the value was unselected; a click never introduces a repeated value |
| ClientChallenge.CalculateSum | frontend/src/pages/ChallengePage.tsx:111-114 | the answer box parses back to the sum of the selection |
| ClientChallenge.Reset | frontend/src/pages/ChallengePage.tsx:152-158 | clears the answer, selection and result, zeroes the clock and restarts it; the page and data stay |
| ClientChallenge.SubmitButtonStates | frontend/src/pages/ChallengePage.tsx:366 | submit is disabled after a reset and after a page change, and enabled after summing on an open challenge |
| ClientExam.AnswerOptions | frontend/src/pages/KnowledgeExam.tsx:153-168 | letters A, B, … one per option for single and multiple choice; 正确/错误 for true/false; nothing otherwise |
| ClientExam.OptionLettersDistinct | frontend/src/pages/KnowledgeExam.tsx:153-168 | up to 26 options, every option gets its own letter |
| ClientExam.ExamAnswerOptions | frontend/src/pages/KnowledgeExam.tsx:153-168 | the option values are the answer letters, and each label is the letter followed by the option text |
| ClientExam.RemoveFirst | frontend/src/pages/KnowledgeExam.tsx:214 | `splice(indexOf(x), 1)` removes exactly one copy when there is one, and otherwise nothing |
| ClientExam.MultiToggleSegments | frontend/src/pages/KnowledgeExam.tsx:209-218 | checking appends the letter to the non-blank parts; unchecking removes its first copy |
| ClientExam.MultiToggleTwice | frontend/src/pages/KnowledgeExam.tsx:209-218 | check then uncheck restores the chosen letters, and exactly the list when the letter was not chosen |
| ClientExam.AnswerChange | frontend/src/pages/KnowledgeExam.tsx:71-78 | only the current question's sheet entry changes |
| ClientExam.SubmitRequest | frontend/src/pages/KnowledgeExam.tsx:80-94 | no request exactly when no question is shown, the session id is missing, or the answer is blank; otherwise the current question's answer and time are sent |
| ClientExam.AfterAnswer | frontend/src/pages/KnowledgeExam.tsx:95-109 | an exam moves to the next question, or hands in after the last one; practice shows feedback; the question clock restarts |
| ClientExam.NavigationStaysOnQuestions | frontend/src/pages/KnowledgeExam.tsx:117-131 | next and previous keep the index on a question, move it by one, and clear the feedback |
| ClientExam.Step | frontend/src/pages/KnowledgeExam.tsx:385-421 | one click sends at most one answer and never changes the question list |
| ClientExam.Run | frontend/src/pages/KnowledgeExam.tsx:385-421 | a run of clicks never changes the question list |
| ClientExam.StepKeepsPageConsistent | frontend/src/pages/KnowledgeExam.tsx:80-131 | after one click the index is still on a question, and a request carries a non-blank answer to a session question |
| ClientExam.RunKeepsPageConsistent | frontend/src/pages/KnowledgeExam.tsx:80-131 | on either page, whatever is clicked, the index stays on a question and every request carries a non-blank answer to a session question |
| ClientExam.ExamSendsNoAnswersAsWritten | frontend/src/pages/KnowledgeExam.tsx:404-421 | as written, no click sequence in exam mode sends an answer |
| ClientExam.ExamSendsAnswerCorrected | frontend/src/pages/KnowledgeExam.tsx:80-109 | with the submit button rendered in exams too, typing and submitting sends that answer and then moves on or hands in |
| ClientExam.AcceptedSettingsBoundTheExam | frontend/src/pages/KnowledgeExamSetup.tsx:70-83 | the defaults pass; practice always passes; an accepted exam with non-negative ratios, on a bank without repeated rows, asks for at most 100 questions and gets `min(total, bank)` of them |
| ClientExam.LeadingDigits | frontend/src/pages/KnowledgeExamSetup.tsx:159 | `parseInt` reads the longest run of leading digits |
| ClientExam.ParseOr | frontend/src/pages/KnowledgeExamSetup.tsx:159 | `parseInt(v) \|\| fallback` gives the parsed number or the fallback, and 0 only when the fallback is 0 |
| ClientExam.JsParseIntDigits | frontend/src/pages/KnowledgeExamSetup.tsx:159 | a plain number is read as itself |
| ClientExam.NumericInputs | frontend/src/pages/KnowledgeExamSetup.tsx:159-242 | a plain non-zero number is taken as it is; a non-numeric field falls back to 1, 0 or 30; the count and the time limit are never 0 |
| ClientExam.EmptyFieldIsNaN | frontend/src/pages/KnowledgeExamSetup.tsx:159 | an emptied field falls back to 1, 0 and 30 |
| ClientKnowledge.SavedOptions | frontend/src/pages/KnowledgeBankManager.tsx:127-129 | fill-in and essay questions keep no options; the others keep the non-blank options in order |
| ClientKnowledge.OptionChange | frontend/src/pages/KnowledgeBankManager.tsx:165-169 | only the edited index changes |
| ClientKnowledge.OptionChangeKeepsLetters | frontend/src/pages/KnowledgeBankManager.tsx:165-178 | editing an option keeps the answer letters, and a non-blank edit survives the save |
| ClientKnowledge.AnswerClickParts | frontend/src/pages/KnowledgeBankManager.tsx:451-461 | single choice takes the letter; multiple choice appends it or removes its first copy, as on the exam page |
| ClientKnowledge.AnswerLetterCanOutliveItsOption | frontend/src/pages/KnowledgeBankManager.tsx:127-178 | with a blank third option, letter D can be chosen while the saved question has only three options |
| ClientKnowledge.FormatDurationReadsBack | frontend/src/pages/KnowledgeStats.tsx:53-60 | the display reads back as the whole hours and the minutes past the hour |
| ClientKnowledge.FormatDurationToTheMinute | frontend/src/pages/KnowledgeStats.tsx:53-60 | two durations look the same exactly when they agree to the minute |
| ClientKnowledge.AccuracyLevel | frontend/src/pages/KnowledgeStats.tsx:68-73 | "excellent" exactly from 90, "needs work" exactly below 60 |
| ClientKnowledge.GradesAgree | frontend/src/pages/KnowledgeStats.tsx:62-73 | the level is monotone in accuracy; green, yellow and red match the level bands |
| ClientKnowledge.BankAccuracy | frontend/src/pages/KnowledgeStats.tsx:254-256 | 0 when nothing was answered; otherwise `correct*100/answered`, within 0..100 |
| ClientKnowledge.FilteredQuestions | frontend/src/pages/KnowledgeWrongQuestions.tsx:93-98 | an order-preserving sublist holding exactly the visible entries |
| ClientKnowledge.EmptySearchShowsAll | frontend/src/pages/KnowledgeWrongQuestions.tsx:94-95 | an empty search shows every entry that has its question, mastered ones only when asked |
| ClientKnowledge.CountsSplitTheBook | frontend/src/pages/KnowledgeWrongQuestions.tsx:234-248 | the unmastered and mastered counters add up to the book's length |
| ClientKnowledge.MasterLocally | frontend/src/pages/KnowledgeWrongQuestions.tsx:66-72 | only the entries with that id are marked mastered |
| ClientKnowledge.DeleteLocally | frontend/src/pages/KnowledgeWrongQuestions.tsx:84 | drops exactly the entries with that id, keeping order |
| ClientKnowledge.LocalUpdatesMoveCounts | frontend/src/pages/KnowledgeWrongQuestions.tsx:63-93 | mastering moves one entry from one counter to the other; a deleted entry is never shown again |
| ClientNotes.StripTags | frontend/src/pages/Notes.tsx:63 | the result holds no `<…>` segment, only characters of the input, and is no longer |
| ClientNotes.StripTagsKeepsPlainText | frontend/src/pages/Notes.tsx:63 | text without tags is unchanged |
| ClientNotes.StripTagsIdempotent | frontend/src/pages/Notes.tsx:63 | stripping twice is stripping once |
| ClientNotes.StripLeadingTag | frontend/src/pages/Notes.tsx:63 | a complete leading tag is dropped and nothing else |
| ClientNotes.ContentPreview | frontend/src/pages/Notes.tsx:61-65 | text of at most 200 characters is shown whole; longer text is cut to 200 plus "..."; the preview is at most 203 characters and has no tag |
| ClientNotes.ThumbnailIndex | frontend/src/pages/Notes.tsx:67-79 | the colour index is `length mod 6`, always a valid index |
| ClientNotes.ThumbnailCycle | frontend/src/pages/Notes.tsx:67-79 | adjacent title lengths get different colours, and lengths six apart get the same |
| ClientNotes.SubmitNote | frontend/src/pages/Notes.tsx:43-50 | nothing is sent exactly when the title or content is blank; otherwise a private note with that title and content |
| ClientNotes.FormNotesAreFilled | frontend/src/pages/Notes.tsx:43-50 | every note created from the form has a non-blank title and content and belongs to the caller |
| ClientNotes.ReadingTime | frontend/src/pages/NoteDetail.tsx:44-49 | the minutes are the ceiling of the stripped length over 200 |
| ClientNotes.ReadingTimeLaws | frontend/src/pages/NoteDetail.tsx:44-49 | markup alone reads in 0 minutes, a leading tag adds nothing, and more text never reads faster |
| ClientNotes.FilterExercises | frontend/src/pages/Exercises.tsx:29-43 | an order-preserving sublist of exactly the exercises that match the search (case-insensitive) and the chosen difficulty |
| ClientNotes.NoFilterShowsAll | frontend/src/pages/Exercises.tsx:29-43 | no search and no difficulty shows the whole list |
| ClientNotes.DifficultyTextLaws | frontend/src/pages/Exercises.tsx:63-78 | the five codes get five distinct labels, and any other input is shown unchanged |
| ExerciseLoader.FirstExerciseModuleIsExerciseMod | frontend/src/exercise-mods/1/mod.ts:4-58 | the first exercise's default export, with its version "1.0.0" and its `prepare`, `signRequest` and `renderHints` functions, has the `ExerciseMod` shape |
| ExerciseLoader.AsWrittenRejectsEveryExerciseMod | frontend/src/exercise-mods/ExerciseLoader.ts:66-74 | as written, `validateModule` rejects every `ExerciseMod` |
| ExerciseLoader.ValidateModuleAcceptsExerciseMods | frontend/src/exercise-mods/types.ts:19-24 | the corrected check accepts every `ExerciseMod`, and everything it accepts has a string version and a `signRequest` function |
| ExerciseLoader.LoadExercise | frontend/src/exercise-mods/ExerciseLoader.ts:19-47 | a cached id is returned without importing; a failed id gives null; a failed import or check records the id as failed; a passing module is cached and returned |
| ExerciseLoader.GetExercise | frontend/src/exercise-mods/ExerciseLoader.ts:50-52 | returns a module exactly for cached ids |
| ExerciseLoader.ClearCache | frontend/src/exercise-mods/ExerciseLoader.ts:77-80 | empties both the cache and the failed set |
| ExerciseLoader.LoadExerciseLaws | frontend/src/exercise-mods/ExerciseLoader.ts:19-57 | loading keeps the cache validated, only adds, touches only its id, and the next `getExercise`/`getAllExercises` sees what it returned |
| ExerciseLoader.FailureIsSticky | frontend/src/exercise-mods/ExerciseLoader.ts:24-26 | a failed id stays failed and unserved through any later loads until the cache is cleared; a cached module stays |
| ExerciseLoader.AsWrittenNeverLoads | frontend/src/exercise-mods/ExerciseLoader.ts:33-46 | as written, loading an exercise module marks it failed and caches nothing |
| ExerciseLoader.CorrectedLoadsExerciseMods | frontend/src/exercise-mods/ExerciseLoader.ts:19-47 | with the corrected check, a module is cached after a clear, and a second load needs no import |

## Left out

- Persistence, FastAPI routing, dependency injection and JSON encoding.
  Tables are sequences of rows, and the `numbers_data` JSON column is kept
  decoded.
- Authentication. The caller's user id is a parameter.
- Randomness. `random.sample` and `random.shuffle` are pick lists. The
  properties hold for every list, but the distribution is not modelled.
- Hashing. MD5 and SHA-256 are function parameters, and hex digests are
  strings.
- Wall-clock time and UUID session ids. Both are parameters.
- Floating point. The following are not modelled:
  - the `accuracy` of `get_user_stats`;
  - the `accuracy` of the complete-exam result;
  - the float average in the progress endpoint (the model computes the
    integer that `int(...)` keeps);
  - `toFixed` on the pages;
  - float payload values. `Validators.JsonVal` has integers, booleans, strings and null only, and no arrays or objects either. The validators of backend/app/challenge_validators/exercises/exercise_1.py:35-44 accept a float timestamp such as 1700000000.5 and hash "1700000000.5spider"; the model cannot express that payload.

  The statistics page's accuracy is modelled as a Dafny `real`.
- The leaderboard endpoint (backend/app/api/api_v1/endpoints/challenges.py:191-215). It is SQL ordering and a view.
- The plain reads and updates are not modelled. This covers:
  - `get_banks` with its question counts;
  - `get_questions_by_bank`;
  - `create_bank`/`create_question`;
  - `update_bank`/`update_question`;
  - `get_user_stats`/`get_bank_stats`;
  - `get_exercise_by_id`, `create_exercise`, `update_exercise`;
  - the per-exercise and per-user submission lists.

  They are single queries or field copies without logic beyond the soft-delete filter that the model's `GetBank`/`GetQuestion` carry.
- Ties in SQL ordering. `StudyNotes.List` orders by `updated_at DESC, created_at DESC`. Rows equal on both keys keep their table order, which a database does not promise.
- Explicitly sent nulls in a note update are not distinguished from unsent fields.
- Unicode. Case folding covers ASCII only; Python's `str.upper` and JavaScript's `toUpperCase` also fold other letters. White space follows Python's `str.isspace` on the server and ECMAScript's `trim` in the browser (`Common.IsSpaceIn`). Lengths count Dafny characters, not UTF-16 code units.
- `parseInt` with a `0x` prefix or another radix is not modelled. The number inputs only deliver decimal text.
- React rendering, timers, navigation, `alert`/`confirm`, and the awaiting of requests. Every request is taken to succeed. A failed request only shows an alert and changes no modelled state.
- `preloadExercises` starts its loads concurrently. `ExerciseLoader.LoadAll` runs them one after another, so interleavings of two loads of the same id are not modelled.
- Per-call validator state. `Exercise2Validator` reads `encodingKey` from the payload. `registry.register_validator` is never called in the code shown, so the registry is modelled as a map only.
- ChallengeApi.GetProgress: states only size bounds in its own contract. The score and average are stated by `ProgressScoreAtLeastBase` and `ProgressAverageBounded`.
- ExamService.SubmitAnswer: states in its own contract only the error case and the answer log. The counters and books are stated by `SubmitAnswerCounts`.
- ClientExam.Step: states only that a click sends at most one answer. The page invariants are in `StepKeepsPageConsistent`.

Behaviour of the source that the model reproduces and that readers may not
expect:

- `total_sum` is 100500 for every user and exercise. The numbers depend
  only on the parity of the exercise id.
- `get_wrong_questions` treats a bank id of 0 as "no filter". The
  master and delete endpoints do not check that the record belongs to the
  caller.
- `submit_answer` looks the question up by id alone. An inactive question,
  or one from another bank, is still judged and counted.
- A stored multi-choice answer written "A, B" is judged against "AB".
  Typing "A, B" back is rejected, because only the stored side has ", "
  removed.
- Negative ratios in an exam setup can make an exam longer than the
  requested total. The exam-setup form does not forbid them.
  `bool_ratio` is never read by the server.
- Exercise 2 signs the payload's `answer` field but checks the
  submission's `answer`.
- The question editor takes its answer letters from the form's option
  fields, blank ones included, while saving drops blank options. A letter
  can then name an option that is not saved.

## Findings

| source | as written | input that shows it | evidently intended | confidence | as-written member | corrected member |
|---|---|---|---|---|---|---|
| frontend/src/exercise-mods/ExerciseLoader.ts:66-74 | `validateModule` demands numeric `id` and string `title`, `description` and `difficulty`. Those are the fields of an exercise record, not of `ExerciseMod`. | the first exercise's module `{version: "1.0.0", prepare, signRequest, renderHints}`: rejected, recorded as failed, never loaded | accept modules with the `ExerciseMod` shape (types.ts:19-24): a string `version` and a `signRequest` function | not executed | ExerciseLoader.AsWrittenNeverLoads | ExerciseLoader.CorrectedLoadsExerciseMods |
| backend/app/services/knowledge_base_service.py:331-342 | a new `StudyStats` row is updated with `+= 1` before it is flushed. The column default 0 applies only at INSERT, so the counters are `None` and the update raises `TypeError`. | user 1's first answer to question 7 of bank 1, with no statistics row: a server error, and nothing is committed | the statistics row starts at zero and records the answer | not executed | ExamService.FirstAnswerFailsAsWritten | ExamService.FirstAnswerRecordedCorrected |
| backend/app/services/study_note_service.py:40-44 | `get` increments `note.view_count`, but the `StudyNote` model (backend/app/models/study_note.py:7-21) declares no such column. Reading it raises `AttributeError`, and `soft_delete` calls `get`. | note 1 owned by user 7; `get(1, 7)` and `soft_delete(1, 7)` both fail | the owner reads the note and the view is counted, and deletion stamps `deleted_at` | not executed | StudyNotes.OwnerCannotReadAsWritten | StudyNotes.Get |
| frontend/src/pages/KnowledgeExam.tsx:404-421 | in exam mode only the hand-in button is rendered. `handleSubmitAnswer` is reachable only in practice mode, so no exam answer is ever sent. | an exam session: typing answers, navigating and handing in sends no answer, and the hand-in grades an empty sheet | answers are submitted in exams too, and the exam branch of `handleSubmitAnswer` (lines 99-106) moves on after each answer | not executed | ClientExam.ExamSendsNoAnswersAsWritten | ClientExam.ExamSendsAnswerCorrected |
