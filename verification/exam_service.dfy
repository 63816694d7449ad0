/** The knowledge-base services behind the endpoints: question banks and
    questions with soft delete, exam sessions and their counters, answer
    submission with wrong-question bookkeeping and per-bank study statistics,
    and the wrong-question list. Tables are sequences of rows in query order;
    the clock (`now`) and fresh session ids are parameters. */
module ExamService {
  import opened Common
  import opened AnswerCheck
  import opened ExamGeneration

  datatype QuestionBank = QuestionBank(id: int, name: string, isActive: bool)

  datatype ExamSession = ExamSession(
    id: int,
    userId: int,
    bankId: int,
    sessionId: string,
    examType: string,
    totalQuestions: int,
    answered: int,
    correct: int,
    totalScore: int,
    userScore: int,
    timeLimit: Option<int>,
    timeSpent: int,
    isCompleted: bool,
    completedAt: Option<int>)

  datatype UserAnswer = UserAnswer(
    userId: int,
    questionId: int,
    answer: string,
    isCorrect: bool,
    score: int,
    timeSpent: int,
    sessionId: string)

  datatype WrongQuestion = WrongQuestion(
    id: int,
    userId: int,
    questionId: int,
    userAnswer: string,
    wrongCount: int,
    lastWrongAt: int,
    isMastered: bool,
    masteredAt: Option<int>)

  datatype StudyStats = StudyStats(
    userId: int,
    bankId: int,
    totalQuestions: int,
    answered: int,
    correct: int,
    totalScore: int,
    studyTime: int,
    lastStudyAt: Option<int>)

  datatype KbState = KbState(
    banks: seq<QuestionBank>,
    questions: seq<Question>,
    sessions: seq<ExamSession>,
    answers: seq<UserAnswer>,
    wrongs: seq<WrongQuestion>,
    stats: seq<StudyStats>,
    nextSessionRowId: int,
    nextWrongId: int)

  // ---------------------------------------------------------------------------
  // Soft delete of banks and questions

  /** `get_bank`: the first active bank with this id. */
  function GetBank(banks: seq<QuestionBank>, bankId: int): Option<nat> {
    FindFirst(banks, (b: QuestionBank) => b.id == bankId && b.isActive)
  }

  /** `delete_bank`: marks the bank inactive; a missing or already inactive
      bank gives false and changes nothing. */
  function DeleteBank(banks: seq<QuestionBank>, bankId: int): (r: (seq<QuestionBank>, bool))
    ensures |r.0| == |banks|
    ensures !r.1 <==> GetBank(banks, bankId).None?
    ensures !r.1 ==> r.0 == banks
  {
    match GetBank(banks, bankId)
    case None => (banks, false)
    case Some(k) => (banks[k := banks[k].(isActive := false)], true)
  }

  /** After a delete the bank can no longer be fetched; other banks are as they
      were; a second delete reports false. */
  lemma DeleteBankHides(banks: seq<QuestionBank>, bankId: int)
    requires forall i, j :: 0 <= i < j < |banks| ==> banks[i].id != banks[j].id
    ensures var (banks', _) := DeleteBank(banks, bankId);
      && GetBank(banks', bankId).None?
      && (forall other :: other != bankId ==> GetBank(banks', other) == GetBank(banks, other))
      && !DeleteBank(banks', bankId).1
  {
    var (banks', ok) := DeleteBank(banks, bankId);
    if ok {
      var k := GetBank(banks, bankId).value;
      assert forall j :: 0 <= j < |banks'| ==> !(banks'[j].id == bankId && banks'[j].isActive);
      forall other | other != bankId
        ensures GetBank(banks', other) == GetBank(banks, other)
      {
        FindFirstSameVerdicts(banks, banks', (b: QuestionBank) => b.id == other && b.isActive);
      }
    }
  }

  /** `get_question`: the first active question with this id. */
  function GetQuestion(qs: seq<Question>, questionId: int): Option<nat> {
    FindFirst(qs, (q: Question) => q.id == questionId && q.isActive)
  }

  function DeleteQuestion(qs: seq<Question>, questionId: int): (r: (seq<Question>, bool))
    ensures |r.0| == |qs|
    ensures !r.1 <==> GetQuestion(qs, questionId).None?
    ensures !r.1 ==> r.0 == qs
  {
    match GetQuestion(qs, questionId)
    case None => (qs, false)
    case Some(k) => (qs[k := qs[k].(isActive := false)], true)
  }

  /** A deleted question drops out of every later exam and practice draw,
      because those only look at active questions. */
  lemma DeletedQuestionNotDrawn(qs: seq<Question>, questionId: int, bankId: int)
    requires forall i, j :: 0 <= i < j < |qs| ==> qs[i].id != qs[j].id
    ensures forall q :: q in ActiveInBank(DeleteQuestion(qs, questionId).0, bankId) ==> q.id != questionId
  {
    var (qs', ok) := DeleteQuestion(qs, questionId);
    forall q | q in ActiveInBank(qs', bankId)
      ensures q.id != questionId
    {
      var i :| 0 <= i < |qs'| && qs'[i] == q;
    }
  }

  // ---------------------------------------------------------------------------
  // Exam sessions

  function FindSession(sessions: seq<ExamSession>, sessionId: string): Option<nat> {
    FindFirst(sessions, (s: ExamSession) => s.sessionId == sessionId)
  }

  /** `create_exam_session` with the fresh id passed in. The id column is
      unique, so a clash is an integrity error. Counters start at zero. */
  function CreateExamSession(st: KbState, userId: int, bankId: int, examType: string,
                             totalQuestions: int, timeLimit: Option<int>, sessionId: string)
    : (r: Result<(KbState, ExamSession)>)
    ensures r.Ok? <==> FindSession(st.sessions, sessionId).None?
    ensures r.Ok? ==>
      && r.value.0.sessions == st.sessions + [r.value.1]
      && FindSession(r.value.0.sessions, sessionId) == Some(|st.sessions|)
      && r.value.1.answered == 0 && r.value.1.correct == 0 && !r.value.1.isCompleted
      && r.value.1.userId == userId && r.value.1.totalQuestions == totalQuestions
      && r.value.1.bankId == bankId && r.value.1.examType == examType
      && r.value.1.timeLimit == timeLimit && r.value.1.sessionId == sessionId
  {
    if FindSession(st.sessions, sessionId).Some? then Err(InternalError)
    else
      var s := ExamSession(st.nextSessionRowId, userId, bankId, sessionId, examType, totalQuestions,
                           0, 0, 0, 0, timeLimit, 0, false, None);
      var sessions' := st.sessions + [s];
      assert FindFirst(sessions'[..|st.sessions|], (x: ExamSession) => x.sessionId == sessionId).None?;
      FindFirstAppend(st.sessions, s, (x: ExamSession) => x.sessionId == sessionId);
      Ok((st.(sessions := sessions', nextSessionRowId := st.nextSessionRowId + 1), s))
  }

  /** `complete_exam`: marks the session completed now. The service itself
      does not refuse an already completed session; the endpoint does. */
  function CompleteExam(sessions: seq<ExamSession>, sessionId: string, now: int): (r: Result<seq<ExamSession>>)
    ensures r.Err? <==> FindSession(sessions, sessionId).None?
    ensures r.Ok? ==> |r.value| == |sessions|
    ensures r.Ok? ==>
      var k := FindSession(sessions, sessionId).value;
      && r.value[k].isCompleted && r.value[k].completedAt == Some(now)
      && r.value[k] == sessions[k].(isCompleted := true, completedAt := Some(now))
      && forall j :: 0 <= j < |sessions| && j != k ==> r.value[j] == sessions[j]
  {
    match FindSession(sessions, sessionId)
    case None => Err(InternalError)
    case Some(k) => Ok(sessions[k := sessions[k].(isCompleted := true, completedAt := Some(now))])
  }

  // ---------------------------------------------------------------------------
  // Wrong questions

  predicate OpenRecord(w: WrongQuestion, userId: int, questionId: int) {
    w.userId == userId && w.questionId == questionId && !w.isMastered
  }

  function FindOpenRecord(wrongs: seq<WrongQuestion>, userId: int, questionId: int): Option<nat> {
    FindFirst(wrongs, (w: WrongQuestion) => OpenRecord(w, userId, questionId))
  }

  /** `_add_to_wrong_questions`: bumps the open (unmastered) record of this user
      and question, or opens a new one with a count of one (the column
      default). Mastered records are left alone. */
  function AddWrongQuestion(wrongs: seq<WrongQuestion>, nextId: int, userId: int, questionId: int,
                            answer: string, now: int): (r: (seq<WrongQuestion>, int))
  {
    match FindOpenRecord(wrongs, userId, questionId)
    case Some(k) =>
      (wrongs[k := wrongs[k].(wrongCount := wrongs[k].wrongCount + 1, userAnswer := answer, lastWrongAt := now)],
       nextId)
    case None =>
      (wrongs + [WrongQuestion(nextId, userId, questionId, answer, 1, now, false, None)], nextId + 1)
  }

  /** An open record is bumped in place: one more wrong answer, the latest
      answer kept, nothing else touched. Without one, a new record with count
      one is appended. */
  lemma AddWrongQuestionUpserts(wrongs: seq<WrongQuestion>, nextId: int, userId: int, questionId: int,
                                answer: string, now: int)
    ensures var (wrongs', nextId') := AddWrongQuestion(wrongs, nextId, userId, questionId, answer, now);
      match FindOpenRecord(wrongs, userId, questionId)
      case Some(k) =>
        && |wrongs'| == |wrongs| && nextId' == nextId
        && wrongs'[k].wrongCount == wrongs[k].wrongCount + 1
        && wrongs'[k].userAnswer == answer
        && OpenRecord(wrongs'[k], userId, questionId)
        && (forall j :: 0 <= j < |wrongs| && j != k ==> wrongs'[j] == wrongs[j])
      case None =>
        && wrongs'[..|wrongs|] == wrongs
        && |wrongs'| == |wrongs| + 1
        && wrongs'[|wrongs|] == WrongQuestion(nextId, userId, questionId, answer, 1, now, false, None)
  {
  }

  /** At most one open record per user and question, ids below the next id and
      distinct, and every count at least one. */
  predicate WrongsValid(wrongs: seq<WrongQuestion>, nextId: int) {
    && (forall i, j :: 0 <= i < j < |wrongs| && OpenRecord(wrongs[i], wrongs[i].userId, wrongs[i].questionId)
          ==> !OpenRecord(wrongs[j], wrongs[i].userId, wrongs[i].questionId))
    && (forall i :: 0 <= i < |wrongs| ==> wrongs[i].id < nextId && wrongs[i].wrongCount >= 1)
    && (forall i, j :: 0 <= i < j < |wrongs| ==> wrongs[i].id != wrongs[j].id)
  }

  lemma AddWrongQuestionPreservesValid(wrongs: seq<WrongQuestion>, nextId: int, userId: int, questionId: int,
                                       answer: string, now: int)
    requires WrongsValid(wrongs, nextId)
    ensures var (wrongs', nextId') := AddWrongQuestion(wrongs, nextId, userId, questionId, answer, now);
      WrongsValid(wrongs', nextId')
  {
    match FindOpenRecord(wrongs, userId, questionId)
    case Some(k) =>
      var w := wrongs[k].(wrongCount := wrongs[k].wrongCount + 1, userAnswer := answer, lastWrongAt := now);
      BumpKeepsValid(wrongs, nextId, k, w);
    case None =>
      var w := WrongQuestion(nextId, userId, questionId, answer, 1, now, false, None);
      assert forall i :: 0 <= i < |wrongs| ==> !OpenRecord(wrongs[i], userId, questionId);
      OpenKeepsValid(wrongs, nextId, w);
  }

  /** Rewriting a record without touching its id, key or mastery, and without
      lowering its count, keeps the table valid. */
  lemma BumpKeepsValid(wrongs: seq<WrongQuestion>, nextId: int, k: nat, w: WrongQuestion)
    requires WrongsValid(wrongs, nextId) && k < |wrongs|
    requires w.id == wrongs[k].id && w.userId == wrongs[k].userId && w.questionId == wrongs[k].questionId
    requires w.isMastered == wrongs[k].isMastered && w.wrongCount >= wrongs[k].wrongCount
    ensures WrongsValid(wrongs[k := w], nextId)
  {
    var wrongs' := wrongs[k := w];
    assert forall i :: 0 <= i < |wrongs| ==>
      && wrongs'[i].id == wrongs[i].id && wrongs'[i].userId == wrongs[i].userId
      && wrongs'[i].questionId == wrongs[i].questionId && wrongs'[i].isMastered == wrongs[i].isMastered
      && wrongs'[i].wrongCount >= wrongs[i].wrongCount;
  }

  /** A new open record under the next id, for a key with no open record,
      extends a valid table. */
  lemma OpenKeepsValid(wrongs: seq<WrongQuestion>, nextId: int, w: WrongQuestion)
    requires WrongsValid(wrongs, nextId) && w.id == nextId && w.wrongCount >= 1
    requires forall i :: 0 <= i < |wrongs| ==> !OpenRecord(wrongs[i], w.userId, w.questionId)
    ensures WrongsValid(wrongs + [w], nextId + 1)
  {
    var wrongs' := wrongs + [w];
    assert forall i :: 0 <= i < |wrongs| ==> wrongs'[i] == wrongs[i];
    assert wrongs'[|wrongs|] == w;
  }

  /** `get_wrong_questions`: the user's open records, restricted to one bank
      when a (truthy, so non-zero) bank id is given. The bank restriction is an
      inner join, so records whose question row is gone drop out too. */
  function GetWrongQuestions(wrongs: seq<WrongQuestion>, qs: seq<Question>, userId: int, bankId: Option<int>)
    : (r: seq<WrongQuestion>)
    ensures forall w :: w in r ==> w in wrongs && w.userId == userId && !w.isMastered
    ensures bankId.None? || bankId == Some(0) ==>
      forall w :: w in wrongs && w.userId == userId && !w.isMastered ==> w in r
    ensures bankId.Some? && bankId.value != 0 ==>
      forall w :: w in r <==> w in wrongs && w.userId == userId && !w.isMastered && QuestionInBank(qs, w.questionId, bankId.value)
    ensures IsSubsequence(r, wrongs)
  {
    var mine := Filter(wrongs, (w: WrongQuestion) => w.userId == userId && !w.isMastered);
    FilterIsSubsequence(wrongs, (w: WrongQuestion) => w.userId == userId && !w.isMastered);
    if bankId.Some? && bankId.value != 0 then
      var r := Filter(mine, (w: WrongQuestion) => QuestionInBank(qs, w.questionId, bankId.value));
      FilterIsSubsequence(mine, (w: WrongQuestion) => QuestionInBank(qs, w.questionId, bankId.value));
      SubsequenceTrans(r, mine, wrongs);
      r
    else mine
  }

  predicate QuestionInBank(qs: seq<Question>, questionId: int, bankId: int) {
    exists i :: 0 <= i < |qs| && qs[i].id == questionId && qs[i].bankId == bankId
  }

  function FindWrongById(wrongs: seq<WrongQuestion>, id: int): Option<nat> {
    FindFirst(wrongs, (w: WrongQuestion) => w.id == id)
  }

  /** `master_question`: marks the record mastered now. Ownership is not
      checked. An unknown id gives false. */
  function MasterQuestion(wrongs: seq<WrongQuestion>, id: int, now: int): (r: (seq<WrongQuestion>, bool))
    ensures !r.1 <==> FindWrongById(wrongs, id).None?
    ensures !r.1 ==> r.0 == wrongs
    ensures |r.0| == |wrongs|
  {
    match FindWrongById(wrongs, id)
    case None => (wrongs, false)
    case Some(k) => (wrongs[k := wrongs[k].(isMastered := true, masteredAt := Some(now))], true)
  }

  /** A mastered record leaves the wrong-question list, and the next wrong
      answer to the same question opens a fresh record. Nothing else changes. */
  lemma MasterRemovesFromList(wrongs: seq<WrongQuestion>, qs: seq<Question>, id: int, now: int, bankId: Option<int>)
    requires forall i, j :: 0 <= i < j < |wrongs| ==> wrongs[i].id != wrongs[j].id
    requires FindWrongById(wrongs, id).Some?
    ensures var (wrongs', _) := MasterQuestion(wrongs, id, now);
      var k := FindWrongById(wrongs, id).value;
      && wrongs'[k].isMastered
      && (forall j :: 0 <= j < |wrongs| && j != k ==> wrongs'[j] == wrongs[j])
      && (forall userId :: forall w :: w in GetWrongQuestions(wrongs', qs, userId, bankId) ==> w.id != id)
  {
    var (wrongs', _) := MasterQuestion(wrongs, id, now);
    var k := FindWrongById(wrongs, id).value;
    forall userId, w | w in GetWrongQuestions(wrongs', qs, userId, bankId)
      ensures w.id != id
    {
      var i :| 0 <= i < |wrongs'| && wrongs'[i] == w;
      if i != k {
        assert wrongs[i].id != wrongs[k].id;
      }
    }
  }

  /** `delete_wrong_question`: removes the record with this id. */
  function DeleteWrongQuestion(wrongs: seq<WrongQuestion>, id: int): (r: (seq<WrongQuestion>, bool))
    ensures !r.1 <==> FindWrongById(wrongs, id).None?
    ensures !r.1 ==> r.0 == wrongs
    ensures r.1 ==> |r.0| == |wrongs| - 1
  {
    match FindWrongById(wrongs, id)
    case None => (wrongs, false)
    case Some(k) => (wrongs[..k] + wrongs[k + 1..], true)
  }

  /** With distinct ids, deleting removes exactly the record with that id and
      keeps the others in order. */
  lemma DeleteWrongRemovesOnlyThat(wrongs: seq<WrongQuestion>, id: int)
    requires forall i, j :: 0 <= i < j < |wrongs| ==> wrongs[i].id != wrongs[j].id
    ensures var (wrongs', _) := DeleteWrongQuestion(wrongs, id);
      && (forall w :: w in wrongs' ==> w.id != id)
      && (forall w :: w in wrongs && w.id != id ==> w in wrongs')
      && IsSubsequence(wrongs', wrongs)
  {
    var (wrongs', ok) := DeleteWrongQuestion(wrongs, id);
    var keep := (w: WrongQuestion) => w.id != id;
    if ok {
      var k := FindWrongById(wrongs, id).value;
      FilterDropOne(wrongs, keep, k);
    } else {
      FilterAll(wrongs, keep);
    }
    FilterIsSubsequence(wrongs, keep);
  }

  // ---------------------------------------------------------------------------
  // Study statistics

  function FindStats(stats: seq<StudyStats>, userId: int, bankId: int): Option<nat> {
    FindFirst(stats, (s: StudyStats) => s.userId == userId && s.bankId == bankId)
  }

  function Record(s: StudyStats, isCorrect: bool, score: int, timeSpent: int, now: int): StudyStats {
    s.(answered := s.answered + 1,
       correct := s.correct + (if isCorrect then 1 else 0),
       totalScore := s.totalScore + score,
       studyTime := s.studyTime + timeSpent,
       lastStudyAt := Some(now))
  }

  /** `_update_study_stats` as intended: the row for this user and bank is
      created on first use with zero counters, then one answer is recorded. */
  function UpdateStudyStats(stats: seq<StudyStats>, userId: int, bankId: int, isCorrect: bool,
                            score: int, timeSpent: int, now: int): (r: seq<StudyStats>)
  {
    match FindStats(stats, userId, bankId)
    case Some(k) => stats[k := Record(stats[k], isCorrect, score, timeSpent, now)]
    case None => stats + [Record(StudyStats(userId, bankId, 0, 0, 0, 0, 0, None), isCorrect, score, timeSpent, now)]
  }

  /** Counters never go negative and correct answers never outnumber answers;
      at most one row per user and bank. */
  predicate StatsValid(stats: seq<StudyStats>) {
    && (forall i :: 0 <= i < |stats| ==> 0 <= stats[i].correct <= stats[i].answered)
    && (forall i, j :: 0 <= i < j < |stats| ==>
          !(stats[i].userId == stats[j].userId && stats[i].bankId == stats[j].bankId))
  }

  /** Each answer adds one to the answered count of its user and bank, and one
      to the correct count exactly when it was right; no other row changes.
      This is the corrected update: as written, the first answer of a user to
      a bank raises instead (see `UpdateStudyStatsAsWritten`). */
  lemma UpdateStudyStatsCounts(stats: seq<StudyStats>, userId: int, bankId: int, isCorrect: bool,
                               score: int, timeSpent: int, now: int)
    requires StatsValid(stats)
    ensures var stats' := UpdateStudyStats(stats, userId, bankId, isCorrect, score, timeSpent, now);
      && StatsValid(stats')
      && FindStats(stats', userId, bankId).Some?
      && var k := FindStats(stats', userId, bankId).value;
         var before := match FindStats(stats, userId, bankId)
                       case Some(j) => stats[j]
                       case None => StudyStats(userId, bankId, 0, 0, 0, 0, 0, None);
         && stats'[k].answered == before.answered + 1
         && stats'[k].correct == before.correct + (if isCorrect then 1 else 0)
         && stats'[k].totalScore == before.totalScore + score
         && stats'[k].studyTime == before.studyTime + timeSpent
         && (forall j :: 0 <= j < |stats| && j != k ==> stats'[j] == stats[j])
  {
    var stats' := UpdateStudyStats(stats, userId, bankId, isCorrect, score, timeSpent, now);
    var p := (s: StudyStats) => s.userId == userId && s.bankId == bankId;
    if FindStats(stats, userId, bankId).None? {
      FindFirstAppend(stats, stats'[|stats|], p);
    } else {
      var k := FindStats(stats, userId, bankId).value;
      FindFirstSameVerdicts(stats, stats', p);
    }
  }

  // ---------------------------------------------------------------------------
  // Submitting an answer

  /** The lookup in `submit_answer`: by id only, inactive questions included. */
  function FindQuestionById(qs: seq<Question>, questionId: int): Option<nat> {
    FindFirst(qs, (q: Question) => q.id == questionId)
  }

  /** The session's counters after one answer. */
  function CountAnswer(s: ExamSession, isCorrect: bool, score: int, timeSpent: int): ExamSession {
    s.(answered := s.answered + 1,
       correct := s.correct + (if isCorrect then 1 else 0),
       userScore := s.userScore + score,
       timeSpent := s.timeSpent + timeSpent)
  }

  /** The session the answer belongs to, if it exists, counts the answer. */
  function CountOnSession(sessions: seq<ExamSession>, sessionId: string, isCorrect: bool, score: int,
                          timeSpent: int): seq<ExamSession> {
    match FindSession(sessions, sessionId)
    case None => sessions
    case Some(k) => sessions[k := CountAnswer(sessions[k], isCorrect, score, timeSpent)]
  }

  /** `submit_answer`: judges the answer, logs it, counts it on the session
      (when the session exists), files a wrong answer, and records the study
      statistics. An unknown question raises, which the endpoint surfaces as a
      500. The statistics go through the corrected `UpdateStudyStats`; the
      source's own version is `SubmitAnswerAsWritten`, which fails on a
      user's first answer to a bank. */
  function SubmitAnswer(st: KbState, userId: int, questionId: int, answer: string, timeSpent: int,
                        sessionId: string, now: int): (r: Result<(KbState, UserAnswer)>)
    ensures r.Err? <==> FindQuestionById(st.questions, questionId).None?
    ensures r.Ok? ==>
      && r.value.0.questions == st.questions && r.value.0.banks == st.banks
      && r.value.0.answers == st.answers + [r.value.1]
  {
    match FindQuestionById(st.questions, questionId)
    case None => Err(InternalError)
    case Some(qi) =>
      var q := st.questions[qi];
      var isCorrect := CheckAnswer(q.qtype, q.answer, answer);
      var score := if isCorrect then q.score else 0;
      var record := UserAnswer(userId, questionId, answer, isCorrect, score, timeSpent, sessionId);
      var sessions' := CountOnSession(st.sessions, sessionId, isCorrect, score, timeSpent);
      var (wrongs', nextWrongId') :=
        if isCorrect then (st.wrongs, st.nextWrongId)
        else AddWrongQuestion(st.wrongs, st.nextWrongId, userId, questionId, answer, now);
      var stats' := UpdateStudyStats(st.stats, userId, q.bankId, isCorrect, score, timeSpent, now);
      Ok((st.(sessions := sessions', answers := st.answers + [record], wrongs := wrongs',
              nextWrongId := nextWrongId', stats := stats'), record))
  }

  /** The score is the question's score when the answer is right and zero
      otherwise; the session counts one more answer, one more correct answer
      exactly when right, and adds the score and the time. Other sessions are
      untouched, and only a wrong answer touches the wrong-question table.
      Stated of the corrected `SubmitAnswer`. */
  lemma SubmitAnswerCounts(st: KbState, userId: int, questionId: int, answer: string, timeSpent: int,
                           sessionId: string, now: int)
    requires FindQuestionById(st.questions, questionId).Some?
    requires FindSession(st.sessions, sessionId).Some?
    ensures var q := st.questions[FindQuestionById(st.questions, questionId).value];
      var k := FindSession(st.sessions, sessionId).value;
      var (st', rec) := SubmitAnswer(st, userId, questionId, answer, timeSpent, sessionId, now).value;
      var s := st.sessions[k];
      var s' := st'.sessions[k];
      && rec.isCorrect == CheckAnswer(q.qtype, q.answer, answer)
      && rec.score == (if rec.isCorrect then q.score else 0)
      && s'.answered == s.answered + 1
      && s'.correct == s.correct + (if rec.isCorrect then 1 else 0)
      && s'.userScore == s.userScore + rec.score
      && s'.timeSpent == s.timeSpent + timeSpent
      && s'.isCompleted == s.isCompleted && s'.totalQuestions == s.totalQuestions
      && |st'.sessions| == |st.sessions|
      && (forall j :: 0 <= j < |st.sessions| && j != k ==> st'.sessions[j] == st.sessions[j])
      && (rec.isCorrect ==> st'.wrongs == st.wrongs)
      && (!rec.isCorrect ==>
            (st'.wrongs, st'.nextWrongId) == AddWrongQuestion(st.wrongs, st.nextWrongId, userId, questionId, answer, now))
  {
  }

  /** Every session keeps `0 <= correct <= answered`. */
  predicate SessionsValid(sessions: seq<ExamSession>) {
    forall i :: 0 <= i < |sessions| ==> 0 <= sessions[i].correct <= sessions[i].answered
  }

  predicate Valid(st: KbState) {
    SessionsValid(st.sessions) && WrongsValid(st.wrongs, st.nextWrongId) && StatsValid(st.stats)
  }

  lemma SubmitAnswerPreservesValid(st: KbState, userId: int, questionId: int, answer: string, timeSpent: int,
                                   sessionId: string, now: int)
    requires Valid(st)
    requires FindQuestionById(st.questions, questionId).Some?
    ensures Valid(SubmitAnswer(st, userId, questionId, answer, timeSpent, sessionId, now).value.0)
  {
    var q := st.questions[FindQuestionById(st.questions, questionId).value];
    var isCorrect := CheckAnswer(q.qtype, q.answer, answer);
    var score := if isCorrect then q.score else 0;
    var st' := SubmitAnswer(st, userId, questionId, answer, timeSpent, sessionId, now).value.0;
    assert StatsValid(st'.stats) by {
      assert st'.stats == UpdateStudyStats(st.stats, userId, q.bankId, isCorrect, score, timeSpent, now);
      UpdateStudyStatsCounts(st.stats, userId, q.bankId, isCorrect, score, timeSpent, now);
    }
    assert WrongsValid(st'.wrongs, st'.nextWrongId) by {
      if !isCorrect {
        assert (st'.wrongs, st'.nextWrongId) == AddWrongQuestion(st.wrongs, st.nextWrongId, userId, questionId, answer, now);
        AddWrongQuestionPreservesValid(st.wrongs, st.nextWrongId, userId, questionId, answer, now);
      }
    }
    assert st'.sessions == CountOnSession(st.sessions, sessionId, isCorrect, score, timeSpent);
    CountOnSessionKeepsValid(st.sessions, sessionId, isCorrect, score, timeSpent);
  }

  lemma CountOnSessionKeepsValid(sessions: seq<ExamSession>, sessionId: string, isCorrect: bool, score: int,
                                 timeSpent: int)
    requires SessionsValid(sessions)
    ensures SessionsValid(CountOnSession(sessions, sessionId, isCorrect, score, timeSpent))
  {
  }

  lemma CreateExamSessionPreservesValid(st: KbState, userId: int, bankId: int, examType: string,
                                        totalQuestions: int, timeLimit: Option<int>, sessionId: string)
    requires Valid(st)
    requires CreateExamSession(st, userId, bankId, examType, totalQuestions, timeLimit, sessionId).Ok?
    ensures Valid(CreateExamSession(st, userId, bankId, examType, totalQuestions, timeLimit, sessionId).value.0)
  {
  }

  // ---------------------------------------------------------------------------
  // The statistics update as written

  /** A counter of a row that has been added to the session but not flushed:
      the column default is applied only by the INSERT, so until then the
      attribute reads as Python `None`. */
  datatype PendingCounter = Unset | Value(n: int)

  /** Python `x += d`: on `None` this raises `TypeError`. */
  function AddAssign(x: PendingCounter, d: int): Result<int> {
    match x
    case Unset => Err(InternalError)
    case Value(n) => Ok(n + d)
  }

  /** `_update_study_stats` as the source writes it. An existing row is updated
      as intended. A row created here has unset counters, so the first `+= 1`
      raises, the request fails, and the transaction (the answer, the session
      counters, the wrong question, the new row) is never committed. */
  function UpdateStudyStatsAsWritten(stats: seq<StudyStats>, userId: int, bankId: int, isCorrect: bool,
                                     score: int, timeSpent: int, now: int): (r: Result<seq<StudyStats>>)
    ensures r.Ok? <==> FindStats(stats, userId, bankId).Some?
    ensures r.Ok? ==> r.value == UpdateStudyStats(stats, userId, bankId, isCorrect, score, timeSpent, now)
  {
    match FindStats(stats, userId, bankId)
    case Some(k) => Ok(stats[k := Record(stats[k], isCorrect, score, timeSpent, now)])
    case None =>
      match AddAssign(Unset, 1)
      case Err(e) => Err(e)
      case Ok(answered) =>
        Ok(stats + [Record(StudyStats(userId, bankId, 0, answered - 1, 0, 0, 0, None), isCorrect, score, timeSpent, now)])
  }

  /** `submit_answer` as written: the statistics update runs on the table as
      it stands and raises when the row is missing, failing the whole answer;
      when the row exists, the outcome is that of the corrected `SubmitAnswer`. */
  function SubmitAnswerAsWritten(st: KbState, userId: int, questionId: int, answer: string, timeSpent: int,
                                 sessionId: string, now: int): (r: Result<(KbState, UserAnswer)>)
  {
    match FindQuestionById(st.questions, questionId)
    case None => Err(InternalError)
    case Some(qi) =>
      var q := st.questions[qi];
      var isCorrect := CheckAnswer(q.qtype, q.answer, answer);
      var score := if isCorrect then q.score else 0;
      match UpdateStudyStatsAsWritten(st.stats, userId, q.bankId, isCorrect, score, timeSpent, now)
      case Err(e) => Err(e)
      case Ok(_) => SubmitAnswer(st, userId, questionId, answer, timeSpent, sessionId, now)
  }

  /** As written, an answer succeeds only when a statistics row for the user
      and the question's bank already exists; and since a failed answer
      commits nothing and no other code creates such rows, the table never
      gains one: starting from an empty statistics table every answer fails. */
  lemma AsWrittenNeedsExistingStats(st: KbState, userId: int, questionId: int, answer: string, timeSpent: int,
                                    sessionId: string, now: int)
    ensures var r := SubmitAnswerAsWritten(st, userId, questionId, answer, timeSpent, sessionId, now);
      r.Ok? ==> && FindQuestionById(st.questions, questionId).Some?
                && FindStats(st.stats, userId, st.questions[FindQuestionById(st.questions, questionId).value].bankId).Some?
                && |r.value.0.stats| == |st.stats|
    ensures |st.stats| == 0 ==> SubmitAnswerAsWritten(st, userId, questionId, answer, timeSpent, sessionId, now).Err?
  {
    var r := SubmitAnswerAsWritten(st, userId, questionId, answer, timeSpent, sessionId, now);
    if r.Ok? {
      var q := st.questions[FindQuestionById(st.questions, questionId).value];
      var isCorrect := CheckAnswer(q.qtype, q.answer, answer);
      var score := if isCorrect then q.score else 0;
      var k := FindStats(st.stats, userId, q.bankId).value;
      assert r.value.0.stats == UpdateStudyStats(st.stats, userId, q.bankId, isCorrect, score, timeSpent, now);
    }
  }

  /** The concrete failure: the first answer to a question of bank 1, with no
      statistics yet, is a server error. */
  lemma FirstAnswerFailsAsWritten()
    ensures var q := Question(7, 1, SingleChoice, "", "A", 1, true);
      var st := KbState([], [q], [], [], [], [], 1, 1);
      SubmitAnswerAsWritten(st, 1, 7, "A", 5, "s", 0) == Err(InternalError)
  {
  }

  /** With the counters starting at zero the same answer is recorded and the
      statistics row is created. */
  lemma FirstAnswerRecordedCorrected()
    ensures var q := Question(7, 1, SingleChoice, "", "A", 1, true);
      var st := KbState([], [q], [], [], [], [], 1, 1);
      var r := SubmitAnswer(st, 1, 7, "A", 5, "s", 0);
      r.Ok? && |r.value.0.stats| == 1 && r.value.0.stats[0].answered == 1
  {
  }
}
