/** The knowledge-base endpoints: exam and practice setup, the session guards
    in front of the question list, answer submission and completion, and the
    wrong-question actions. Each endpoint returns the new state or the HTTP
    error it raises. */
module KnowledgeApi {
  import opened Common
  import opened ExamGeneration
  import opened ExamService

  const ExamKind: string := "exam"
  const PracticeKind: string := "practice"

  /** The ratios every exam session is regenerated with. */
  const SessionSingleRatio: int := 40
  const SessionMultiRatio: int := 30

  /** The time limit is entered in minutes and stored in seconds; a missing or
      zero limit (Python falsy) means no limit. */
  function StoredTimeLimit(minutes: Option<int>): (r: Option<int>)
    ensures r.None? <==> minutes.None? || minutes.value == 0
    ensures r.Some? ==> r.value / 60 == minutes.value && r.value % 60 == 0
  {
    if minutes.Some? && minutes.value != 0 then Some(minutes.value * 60) else None
  }

  /** `setup_exam`: draws the exam once to see that there is one, then opens
      an exam session sized to the draw. */
  function SetupExam(st: KbState, userId: int, bankId: int, total: int, singleRatio: int, multiRatio: int,
                     timeLimit: Option<int>, picks: ExamPicks, sessionId: string): (r: Result<(KbState, ExamSession)>)
    ensures GenerateExamQuestions(st.questions, bankId, total, singleRatio, multiRatio, picks) == [] ==> r == Err(BadRequest)
    ensures r.Ok? ==>
      var s := r.value.1;
      && s.totalQuestions == |GenerateExamQuestions(st.questions, bankId, total, singleRatio, multiRatio, picks)| > 0
      && s.examType == ExamKind && s.bankId == bankId && s.userId == userId && s.sessionId == sessionId
      && s.timeLimit == StoredTimeLimit(timeLimit) && !s.isCompleted && s.answered == 0
      && r.value.0.questions == st.questions
      && FindSession(r.value.0.sessions, sessionId) == Some(|st.sessions|)
      && r.value.0.sessions[|st.sessions|] == s
  {
    var questions := GenerateExamQuestions(st.questions, bankId, total, singleRatio, multiRatio, picks);
    if questions == [] then Err(BadRequest)
    else CreateExamSession(st, userId, bankId, ExamKind, |questions|, StoredTimeLimit(timeLimit), sessionId)
  }

  /** `setup_practice`: the same for a practice session, without a limit. */
  function SetupPractice(st: KbState, userId: int, bankId: int, order: string, picks: seq<int>, sessionId: string)
    : (r: Result<(KbState, ExamSession)>)
    ensures ActiveInBank(st.questions, bankId) == [] ==> r == Err(BadRequest)
    ensures r.Ok? ==>
      var s := r.value.1;
      && s.totalQuestions == |ActiveInBank(st.questions, bankId)| > 0
      && s.examType == PracticeKind && s.bankId == bankId && s.userId == userId && s.sessionId == sessionId
      && s.timeLimit.None? && !s.isCompleted
      && r.value.0.questions == st.questions
      && FindSession(r.value.0.sessions, sessionId) == Some(|st.sessions|)
      && r.value.0.sessions[|st.sessions|] == s
  {
    var questions := GeneratePracticeQuestions(st.questions, bankId, order, picks);
    if questions == [] then Err(BadRequest)
    else CreateExamSession(st, userId, bankId, PracticeKind, |questions|, None, sessionId)
  }

  /** The check in front of every session endpoint: the session must exist
      (404) and belong to the caller (403). */
  function SessionGuard(sessions: seq<ExamSession>, userId: int, sessionId: string): (r: Result<nat>)
    ensures r.Ok? <==> FindSession(sessions, sessionId).Some? && sessions[FindSession(sessions, sessionId).value].userId == userId
    ensures r.Ok? ==> r.value == FindSession(sessions, sessionId).value
    ensures FindSession(sessions, sessionId).None? ==> r == Err(NotFound)
    ensures FindSession(sessions, sessionId).Some? && sessions[FindSession(sessions, sessionId).value].userId != userId
      ==> r == Err(Forbidden)
  {
    match FindSession(sessions, sessionId)
    case None => Err(NotFound)
    case Some(k) => if sessions[k].userId != userId then Err(Forbidden) else Ok(k)
  }

  /** `get_session_questions`: the questions are drawn again, with the fixed
      40/30/30 split for an exam and in bank order for practice, whatever was
      chosen at setup. */
  function GetSessionQuestions(st: KbState, userId: int, sessionId: string, picks: ExamPicks)
    : (r: Result<seq<Question>>)
    ensures r.Err? <==> SessionGuard(st.sessions, userId, sessionId).Err?
    ensures r.Err? ==> r.error == SessionGuard(st.sessions, userId, sessionId).error
  {
    match SessionGuard(st.sessions, userId, sessionId)
    case Err(e) => Err(e)
    case Ok(k) =>
      var s := st.sessions[k];
      if s.examType == ExamKind then
        Ok(GenerateExamQuestions(st.questions, s.bankId, s.totalQuestions, SessionSingleRatio, SessionMultiRatio, picks))
      else
        Ok(GeneratePracticeQuestions(st.questions, s.bankId, InOrder, []))
  }

  /** Right after setup, the owner of an exam session is shown as many
      questions as the setup drew, all active questions of the bank without
      repeats, whatever ratios the setup used and whatever the draws are. */
  lemma ExamSessionShowsSetupCount(st: KbState, userId: int, bankId: int, total: int, singleRatio: int,
                                   multiRatio: int, timeLimit: Option<int>, picks: ExamPicks, sessionId: string,
                                   picks2: ExamPicks)
    requires NoDup(ActiveInBank(st.questions, bankId))
    requires SetupExam(st, userId, bankId, total, singleRatio, multiRatio, timeLimit, picks, sessionId).Ok?
    ensures var (st', s) := SetupExam(st, userId, bankId, total, singleRatio, multiRatio, timeLimit, picks, sessionId).value;
      var r := GetSessionQuestions(st', userId, sessionId, picks2);
      && r.Ok? && |r.value| == s.totalQuestions
      && NoDup(r.value)
      && forall q :: q in r.value ==> q in ActiveInBank(st.questions, bankId)
  {
    var (st', s) := SetupExam(st, userId, bankId, total, singleRatio, multiRatio, timeLimit, picks, sessionId).value;
    var a := ActiveInBank(st.questions, bankId);
    var first := GenerateExamQuestions(st.questions, bankId, total, singleRatio, multiRatio, picks);
    assert s.totalQuestions == |first| && st'.questions == st.questions;
    ExamFitsBank(st.questions, bankId, total, singleRatio, multiRatio, picks);
    var again := GenerateExamQuestions(st.questions, bankId, s.totalQuestions, SessionSingleRatio, SessionMultiRatio, picks2);
    assert GetSessionQuestions(st', userId, sessionId, picks2) == Ok(again) by {
      assert SessionGuard(st'.sessions, userId, sessionId) == Ok(|st.sessions|);
    }
    ExamSize(st.questions, bankId, s.totalQuestions, SessionSingleRatio, SessionMultiRatio, picks2);
    ExamNoDuplicates(st.questions, bankId, s.totalQuestions, SessionSingleRatio, SessionMultiRatio, picks2);
    ExamFitsBank(st.questions, bankId, s.totalQuestions, SessionSingleRatio, SessionMultiRatio, picks2);
  }

  /** A practice session always lists the bank's active questions in bank
      order, even when reverse or random order was chosen at setup. */
  lemma PracticeSessionInBankOrder(st: KbState, userId: int, bankId: int, order: string, picks: seq<int>,
                                   sessionId: string, picks2: ExamPicks)
    requires SetupPractice(st, userId, bankId, order, picks, sessionId).Ok?
    ensures var (st', _) := SetupPractice(st, userId, bankId, order, picks, sessionId).value;
      GetSessionQuestions(st', userId, sessionId, picks2) == Ok(ActiveInBank(st.questions, bankId))
  {
    PracticeOrders(st.questions, bankId, InOrder, []);
  }

  /** `submit_answer`: guarded by existence (404), ownership (403) and an open
      session (400). It calls the corrected `ExamService.SubmitAnswer`; as
      written, the service call fails with a 500 on a user's first answer to
      a bank (see `ExamService.SubmitAnswerAsWritten`). */
  function SubmitAnswerEndpoint(st: KbState, userId: int, sessionId: string, questionId: int, answer: string,
                                timeSpent: int, now: int): (r: Result<(KbState, UserAnswer)>)
    ensures SessionGuard(st.sessions, userId, sessionId).Err? ==> r == Err(SessionGuard(st.sessions, userId, sessionId).error)
    ensures SessionGuard(st.sessions, userId, sessionId).Ok? && st.sessions[SessionGuard(st.sessions, userId, sessionId).value].isCompleted
      ==> r == Err(BadRequest)
    ensures r.Ok? ==>
      && r.value.1.userId == userId && r.value.1.sessionId == sessionId
      && r.value.0.answers == st.answers + [r.value.1]
  {
    match SessionGuard(st.sessions, userId, sessionId)
    case Err(e) => Err(e)
    case Ok(k) =>
      if st.sessions[k].isCompleted then Err(BadRequest)
      else SubmitAnswer(st, userId, questionId, answer, timeSpent, sessionId, now)
  }

  /** The figures `complete_exam` reports (the accuracy percentage, a float,
      is not modelled). */
  datatype ExamResult = ExamResult(
    sessionId: string,
    totalQuestions: int,
    correctQuestions: int,
    totalScore: int,
    userScore: int,
    timeSpent: int,
    isCompleted: bool)

  function CompleteExamEndpoint(st: KbState, userId: int, sessionId: string, now: int): (r: Result<(KbState, ExamResult)>)
    ensures SessionGuard(st.sessions, userId, sessionId).Err? ==> r == Err(SessionGuard(st.sessions, userId, sessionId).error)
    ensures SessionGuard(st.sessions, userId, sessionId).Ok? ==>
      var k := SessionGuard(st.sessions, userId, sessionId).value;
      && (st.sessions[k].isCompleted ==> r == Err(BadRequest))
      && (!st.sessions[k].isCompleted ==>
            && r.Ok?
            && r.value.1.isCompleted
            && r.value.1.correctQuestions == st.sessions[k].correct
            && r.value.1.userScore == st.sessions[k].userScore
            && r.value.1.totalQuestions == st.sessions[k].totalQuestions
            && |r.value.0.sessions| == |st.sessions|
            && r.value.0.sessions[k].completedAt == Some(now))
  {
    match SessionGuard(st.sessions, userId, sessionId)
    case Err(e) => Err(e)
    case Ok(k) =>
      if st.sessions[k].isCompleted then Err(BadRequest)
      else match CompleteExam(st.sessions, sessionId, now)
        case Err(e) => Err(e)
        case Ok(sessions') =>
          var s := sessions'[k];
          Ok((st.(sessions := sessions'),
              ExamResult(s.sessionId, s.totalQuestions, s.correct, s.totalScore, s.userScore, s.timeSpent, s.isCompleted)))
  }

  /** Completion is one-way: once completed, a session refuses both a second
      completion and further answers with 400, and it stays completed. */
  lemma CompletionIsOneWay(st: KbState, userId: int, sessionId: string, now: int, now2: int,
                           questionId: int, answer: string, timeSpent: int)
    requires CompleteExamEndpoint(st, userId, sessionId, now).Ok?
    ensures var st' := CompleteExamEndpoint(st, userId, sessionId, now).value.0;
      && CompleteExamEndpoint(st', userId, sessionId, now2) == Err(BadRequest)
      && SubmitAnswerEndpoint(st', userId, sessionId, questionId, answer, timeSpent, now2) == Err(BadRequest)
  {
    var st' := CompleteExamEndpoint(st, userId, sessionId, now).value.0;
    var k := SessionGuard(st.sessions, userId, sessionId).value;
    FindFirstSameVerdicts(st.sessions, st'.sessions, (s: ExamSession) => s.sessionId == sessionId);
  }

  /** Answers keep a session open and owned by the same user, so they never
      lock out the owner's later answers. Stated of the corrected answer path. */
  lemma SubmitKeepsSessionOpen(st: KbState, userId: int, sessionId: string, questionId: int, answer: string,
                               timeSpent: int, now: int)
    requires SubmitAnswerEndpoint(st, userId, sessionId, questionId, answer, timeSpent, now).Ok?
    ensures var st' := SubmitAnswerEndpoint(st, userId, sessionId, questionId, answer, timeSpent, now).value.0;
      && SessionGuard(st'.sessions, userId, sessionId) == SessionGuard(st.sessions, userId, sessionId)
      && !st'.sessions[SessionGuard(st'.sessions, userId, sessionId).value].isCompleted
  {
    var k := SessionGuard(st.sessions, userId, sessionId).value;
    SubmitAnswerCounts(st, userId, questionId, answer, timeSpent, sessionId, now);
    var st' := SubmitAnswerEndpoint(st, userId, sessionId, questionId, answer, timeSpent, now).value.0;
    FindFirstSameVerdicts(st.sessions, st'.sessions, (s: ExamSession) => s.sessionId == sessionId);
  }

  /** `master_question`: 404 for an unknown id. The caller is not compared
      with the record's owner. */
  function MasterEndpoint(st: KbState, userId: int, wrongId: int, now: int): (r: Result<KbState>)
    ensures r.Err? <==> FindWrongById(st.wrongs, wrongId).None?
    ensures r.Err? ==> r.error == NotFound
    ensures r.Ok? ==> |r.value.wrongs| == |st.wrongs| && r.value.wrongs[FindWrongById(st.wrongs, wrongId).value].isMastered
  {
    var (wrongs', ok) := MasterQuestion(st.wrongs, wrongId, now);
    if !ok then Err(NotFound) else Ok(st.(wrongs := wrongs'))
  }

  /** Any user can master any record: the outcome does not depend on the
      caller. */
  lemma MasterIgnoresCaller(st: KbState, u1: int, u2: int, wrongId: int, now: int)
    ensures MasterEndpoint(st, u1, wrongId, now) == MasterEndpoint(st, u2, wrongId, now)
  {
  }

  /** `delete_wrong_question`: 404 for an unknown id, no ownership check. */
  function DeleteWrongEndpoint(st: KbState, userId: int, wrongId: int): (r: Result<KbState>)
    ensures r.Err? <==> FindWrongById(st.wrongs, wrongId).None?
    ensures r.Err? ==> r.error == NotFound
    ensures r.Ok? ==> |r.value.wrongs| == |st.wrongs| - 1
  {
    var (wrongs', ok) := DeleteWrongQuestion(st.wrongs, wrongId);
    if !ok then Err(NotFound) else Ok(st.(wrongs := wrongs'))
  }

  /** With distinct record ids a deleted record is gone for good: a second
      delete or a master of the same id gives 404. */
  lemma DeleteWrongIsFinal(st: KbState, userId: int, wrongId: int, now: int)
    requires forall i, j :: 0 <= i < j < |st.wrongs| ==> st.wrongs[i].id != st.wrongs[j].id
    requires DeleteWrongEndpoint(st, userId, wrongId).Ok?
    ensures var st' := DeleteWrongEndpoint(st, userId, wrongId).value;
      && DeleteWrongEndpoint(st', userId, wrongId) == Err(NotFound)
      && MasterEndpoint(st', userId, wrongId, now) == Err(NotFound)
  {
    DeleteWrongRemovesOnlyThat(st.wrongs, wrongId);
    var st' := DeleteWrongEndpoint(st, userId, wrongId).value;
    assert forall j :: 0 <= j < |st'.wrongs| ==> st'.wrongs[j] in st'.wrongs;
  }
}
