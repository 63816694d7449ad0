/** The challenge endpoints: get-or-create a user's challenge, serve one page of
    it, take a submitted answer, and report the user's progress. The database
    tables are sequences of rows in query order, so `.first()` is the first
    matching row. */
module ChallengeApi {
  import opened Common
  import opened ChallengeGenerator

  /** A row of the `challenges` table. The numbers are kept decoded (the
      source stores them as a JSON text column). Times are plain integers. */
  datatype Challenge = Challenge(
    id: int,
    userId: int,
    exerciseId: int,
    numbers: seq<seq<int>>,
    totalSum: int,
    isCompleted: bool,
    completedAt: Option<int>,
    attempts: int,
    bestTime: Option<int>,
    score: Option<int>)

  /** A row of the `challenge_submissions` table. */
  datatype Submission = Submission(
    challengeId: int,
    userId: int,
    exerciseId: int,
    answer: int,
    timeSpent: int,
    isCorrect: bool,
    score: Option<int>)

  datatype Db = Db(challenges: seq<Challenge>, submissions: seq<Submission>, nextId: int)

  predicate Matches(c: Challenge, userId: int, exerciseId: int) {
    c.userId == userId && c.exerciseId == exerciseId
  }

  /** The position of the first row for this user and exercise, if any. */
  function FindChallenge(rows: seq<Challenge>, userId: int, exerciseId: int): (r: Option<nat>)
    ensures r.Some? ==> r.value < |rows| && Matches(rows[r.value], userId, exerciseId)
    ensures r.Some? ==> forall j :: 0 <= j < r.value ==> !Matches(rows[j], userId, exerciseId)
    ensures r.None? <==> forall j :: 0 <= j < |rows| ==> !Matches(rows[j], userId, exerciseId)
    decreases |rows|
  {
    if |rows| == 0 then None
    else if Matches(rows[0], userId, exerciseId) then Some(0)
    else match FindChallenge(rows[1..], userId, exerciseId)
      case None => None
      case Some(k) => Some(k + 1)
  }

  /** What the endpoints rely on: at most one row per (user, exercise), ids
      below the next id and distinct, and every row holding the generated
      table with its total. A completed row carries its time and its score. */
  predicate Valid(db: Db) {
    && (forall i, j :: 0 <= i < j < |db.challenges| ==>
          !Matches(db.challenges[j], db.challenges[i].userId, db.challenges[i].exerciseId))
    && (forall i, j :: 0 <= i < j < |db.challenges| ==> db.challenges[i].id != db.challenges[j].id)
    && (forall i :: 0 <= i < |db.challenges| ==> db.challenges[i].id < db.nextId)
    && (forall i :: 0 <= i < |db.challenges| ==> RowValid(db.challenges[i]))
  }

  predicate RowValid(c: Challenge) {
    && c.numbers == Table(c.userId, c.exerciseId)
    && c.totalSum == TableSum(c.numbers)
    && c.attempts >= 0
    && (c.isCompleted <==> c.score.Some?)
    && (c.isCompleted <==> c.completedAt.Some?)
    && (c.isCompleted <==> c.bestTime.Some?)
  }

  lemma EmptyDbValid(nextId: int)
    ensures Valid(Db([], [], nextId))
  {
  }

  // ---------------------------------------------------------------------------
  // GET /{exercise_id}

  /** Returns the existing row, or creates one from the generator. */
  function GetChallenge(db: Db, userId: int, exerciseId: int): (r: (Db, Challenge))
    ensures Matches(r.1, userId, exerciseId)
    ensures r.1.numbers == Table(userId, exerciseId) || FindChallenge(db.challenges, userId, exerciseId).Some?
    ensures FindChallenge(db.challenges, userId, exerciseId).Some? ==>
      r.0 == db && r.1 == db.challenges[FindChallenge(db.challenges, userId, exerciseId).value]
    ensures FindChallenge(db.challenges, userId, exerciseId).None? ==>
      && r.0.challenges == db.challenges + [r.1]
      && r.0.submissions == db.submissions
      && r.1.id == db.nextId
      && !r.1.isCompleted && r.1.attempts == 0
      && r.1.totalSum == 100500
  {
    match FindChallenge(db.challenges, userId, exerciseId)
    case Some(k) => (db, db.challenges[k])
    case None =>
      TotalSumIsConstant(userId, exerciseId);
      var numbers := Table(userId, exerciseId);
      var c := Challenge(db.nextId, userId, exerciseId, numbers, TableSum(numbers),
                         false, None, 0, None, None);
      (db.(challenges := db.challenges + [c], nextId := db.nextId + 1), c)
  }

  lemma GetChallengePreservesValid(db: Db, userId: int, exerciseId: int)
    requires Valid(db)
    ensures Valid(GetChallenge(db, userId, exerciseId).0)
  {
    var (db', c) := GetChallenge(db, userId, exerciseId);
    if FindChallenge(db.challenges, userId, exerciseId).None? {
      assert db'.challenges[|db.challenges|] == c;
    }
  }

  /** Asking twice gives the same row and leaves the tables as the first call
      left them. */
  lemma GetChallengeIdempotent(db: Db, userId: int, exerciseId: int)
    ensures var (db1, c1) := GetChallenge(db, userId, exerciseId);
            GetChallenge(db1, userId, exerciseId) == (db1, c1)
  {
    var (db1, c1) := GetChallenge(db, userId, exerciseId);
    var f := FindChallenge(db.challenges, userId, exerciseId);
    if f.None? {
      var k := FindChallenge(db1.challenges, userId, exerciseId);
      assert Matches(db1.challenges[|db.challenges|], userId, exerciseId);
      assert k.Some? && k.value == |db.challenges|;
    }
  }

  /** In a valid database every challenge the endpoint hands out adds up to
      100500, whoever asks. */
  lemma GetChallengeTotal(db: Db, userId: int, exerciseId: int)
    requires Valid(db)
    ensures GetChallenge(db, userId, exerciseId).1.totalSum == 100500
    ensures GetChallenge(db, userId, exerciseId).1.numbers == Table(0, exerciseId)
  {
    TotalSumIsConstant(userId, exerciseId);
    TableIgnoresUser(userId, 0, exerciseId);
  }

  // ---------------------------------------------------------------------------
  // GET /{exercise_id}/page/{page_number}

  datatype PageResponse = PageResponse(pageNumber: int, numbers: seq<int>, startIndex: int, endIndex: int)

  /** The page endpoint: a page outside 1..100 is refused before the lookup; a
      missing challenge is 404; a row with fewer pages than asked raises an
      index error, which surfaces as a 500. */
  function GetPage(db: Db, userId: int, exerciseId: int, pageNumber: int): (r: Result<PageResponse>)
    ensures (pageNumber < 1 || pageNumber > 100) ==> r == Err(BadRequest)
    ensures 1 <= pageNumber <= 100 && FindChallenge(db.challenges, userId, exerciseId).None? ==>
      r == Err(NotFound)
    ensures r.Ok? ==>
      && 1 <= pageNumber <= 100
      && FindChallenge(db.challenges, userId, exerciseId).Some?
      && var c := db.challenges[FindChallenge(db.challenges, userId, exerciseId).value];
         pageNumber <= |c.numbers| && r.value.numbers == c.numbers[pageNumber - 1]
    ensures r.Ok? ==>
      && r.value.pageNumber == pageNumber
      && r.value.startIndex == (pageNumber - 1) * 10 + 1
      && r.value.endIndex == pageNumber * 10
      && r.value.endIndex - r.value.startIndex == 9
  {
    if pageNumber < 1 || pageNumber > 100 then Err(BadRequest)
    else match FindChallenge(db.challenges, userId, exerciseId)
      case None => Err(NotFound)
      case Some(k) =>
        var numbers := db.challenges[k].numbers;
        if pageNumber - 1 >= |numbers| then Err(InternalError)
        else Ok(PageResponse(pageNumber, numbers[pageNumber - 1],
                             (pageNumber - 1) * 10 + 1, pageNumber * 10))
  }

  /** Once the challenge exists, every page 1..100 is served, and it is the
      generator's row for that page. */
  lemma GetPageAfterGetChallenge(db: Db, userId: int, exerciseId: int, pageNumber: int)
    requires Valid(db) && 1 <= pageNumber <= 100
    ensures var db1 := GetChallenge(db, userId, exerciseId).0;
            GetPage(db1, userId, exerciseId, pageNumber)
              == Ok(PageResponse(pageNumber, Row(userId, exerciseId, pageNumber - 1),
                                 (pageNumber - 1) * 10 + 1, pageNumber * 10))
  {
    var db1 := GetChallenge(db, userId, exerciseId).0;
    GetChallengePreservesValid(db, userId, exerciseId);
    GetChallengeIdempotent(db, userId, exerciseId);
    var k := FindChallenge(db1.challenges, userId, exerciseId).value;
    var c := db1.challenges[k];
    assert RowValid(c) && Matches(c, userId, exerciseId);
    var t := Table(userId, exerciseId);
    assert c.numbers == t;
    assert |t| == 100 && t[pageNumber - 1] == Row(userId, exerciseId, pageNumber - 1);
  }

  /** The pages, read one after another, cover the thousand numbers in order:
      page `p` holds entries `(p - 1) * 10 + 1` to `p * 10`, and consecutive
      pages leave no gap. */
  lemma PagesTile(db: Db, userId: int, exerciseId: int, p: int)
    requires 1 <= p < 100
    requires GetPage(db, userId, exerciseId, p).Ok?
    requires GetPage(db, userId, exerciseId, p + 1).Ok?
    ensures GetPage(db, userId, exerciseId, p + 1).value.startIndex
         == GetPage(db, userId, exerciseId, p).value.endIndex + 1
  {
  }

  // ---------------------------------------------------------------------------
  // POST /submit

  datatype SubmitResponse = SubmitResponse(
    success: bool,
    isCorrect: bool,
    correctAnswer: Option<int>,
    score: Option<int>,
    completedAt: Option<int>)

  /** The score of a first correct answer: 100 plus one point per ten seconds
      under five minutes. */
  function AwardedScore(timeSpent: int): (s: int)
    ensures timeSpent >= 0 ==> 100 <= s <= 130
    ensures timeSpent >= 300 ==> s == 100
    ensures s >= 100
  {
    100 + Max(0, 300 - timeSpent) / 10
  }

  /** The row after one submission: one more attempt, and the completion
      fields set only by a correct answer to a not-yet-completed challenge. */
  function ApplySubmission(c: Challenge, answer: int, timeSpent: int, now: int): (c': Challenge)
    ensures c'.attempts == c.attempts + 1
    ensures c'.id == c.id && c'.userId == c.userId && c'.exerciseId == c.exerciseId
    ensures c'.numbers == c.numbers && c'.totalSum == c.totalSum
  {
    var isCorrect := answer == c.totalSum;
    var c1 := c.(attempts := c.attempts + 1);
    if isCorrect && !c.isCompleted then
      c1.(isCompleted := true, completedAt := Some(now), bestTime := Some(timeSpent),
          score := Some(AwardedScore(timeSpent)))
    else c1
  }

  /** Submission for the caller's challenge of `exerciseId`. `now` is the
      server clock. */
  function Submit(db: Db, userId: int, exerciseId: int, answer: int, timeSpent: int, now: int)
    : (r: Result<(Db, SubmitResponse)>)
    ensures FindChallenge(db.challenges, userId, exerciseId).None? <==> r == Err(NotFound)
    ensures r.Ok? ==> |r.value.0.challenges| == |db.challenges| && r.value.0.nextId == db.nextId
  {
    match FindChallenge(db.challenges, userId, exerciseId)
    case None => Err(NotFound)
    case Some(k) =>
      var c := db.challenges[k];
      var isCorrect := answer == c.totalSum;
      var c' := ApplySubmission(c, answer, timeSpent, now);
      var newlyCompleted := isCorrect && !c.isCompleted;
      var record := Submission(c.id, userId, exerciseId, answer, timeSpent, isCorrect,
                               if newlyCompleted then c'.score else None);
      var db' := db.(challenges := db.challenges[k := c'], submissions := db.submissions + [record]);
      var response := SubmitResponse(
        true, isCorrect,
        if !isCorrect then Some(c.totalSum) else None,
        if isCorrect then c'.score else None,
        if c'.isCompleted then c'.completedAt else None);
      Ok((db', response))
  }

  /** Every submission adds one attempt, judges the answer against the stored
      total, appends exactly one log row and touches no other challenge. */
  lemma SubmitCountsAttempt(db: Db, userId: int, exerciseId: int, answer: int, timeSpent: int, now: int)
    requires FindChallenge(db.challenges, userId, exerciseId).Some?
    ensures var k := FindChallenge(db.challenges, userId, exerciseId).value;
            var c := db.challenges[k];
            var (db', resp) := Submit(db, userId, exerciseId, answer, timeSpent, now).value;
            && db'.challenges[k].attempts == c.attempts + 1
            && (resp.isCorrect <==> answer == c.totalSum)
            && (resp.correctAnswer.Some? <==> !resp.isCorrect)
            && (resp.correctAnswer.Some? ==> resp.correctAnswer.value == c.totalSum)
            && db'.submissions[..|db.submissions|] == db.submissions
            && |db'.submissions| == |db.submissions| + 1
            && db'.submissions[|db.submissions|].answer == answer
            && db'.submissions[|db.submissions|].isCorrect == resp.isCorrect
            && (forall j :: 0 <= j < |db.challenges| && j != k ==> db'.challenges[j] == db.challenges[j])
  {
  }

  /** First correct answer wins: a completed challenge's completion time, best
      time and score never change again. */
  lemma CompletionIsFinal(db: Db, userId: int, exerciseId: int, answer: int, timeSpent: int, now: int)
    requires FindChallenge(db.challenges, userId, exerciseId).Some?
    requires db.challenges[FindChallenge(db.challenges, userId, exerciseId).value].isCompleted
    ensures var k := FindChallenge(db.challenges, userId, exerciseId).value;
            var c := db.challenges[k];
            var c' := Submit(db, userId, exerciseId, answer, timeSpent, now).value.0.challenges[k];
            c'.isCompleted && c'.completedAt == c.completedAt && c'.bestTime == c.bestTime
            && c'.score == c.score
  {
  }

  /** A challenge becomes completed by a submission exactly when the answer is
      right and it was not completed before; the score is then the time-based
      award, and the log row carries it. */
  lemma CompletionIffFirstCorrect(db: Db, userId: int, exerciseId: int, answer: int, timeSpent: int, now: int)
    requires FindChallenge(db.challenges, userId, exerciseId).Some?
    ensures var k := FindChallenge(db.challenges, userId, exerciseId).value;
            var c := db.challenges[k];
            var (db', resp) := Submit(db, userId, exerciseId, answer, timeSpent, now).value;
            var c' := db'.challenges[k];
            && (c'.isCompleted && !c.isCompleted <==> answer == c.totalSum && !c.isCompleted)
            && (!c.isCompleted && answer == c.totalSum ==>
                  c'.score == Some(AwardedScore(timeSpent)) && c'.bestTime == Some(timeSpent)
                  && c'.completedAt == Some(now)
                  && db'.submissions[|db.submissions|].score == c'.score
                  && resp.score == c'.score)
            && (!c.isCompleted && answer != c.totalSum ==> c' == c.(attempts := c.attempts + 1))
  {
  }

  /** In a valid database the right answer is 100500, whatever the user and
      exercise. */
  lemma CorrectIffAnswerIs100500(db: Db, userId: int, exerciseId: int, answer: int, timeSpent: int, now: int)
    requires Valid(db)
    requires FindChallenge(db.challenges, userId, exerciseId).Some?
    ensures Submit(db, userId, exerciseId, answer, timeSpent, now).value.1.isCorrect <==> answer == 100500
  {
    var k := FindChallenge(db.challenges, userId, exerciseId).value;
    assert RowValid(db.challenges[k]);
    TotalSumIsConstant(userId, exerciseId);
  }

  lemma SubmitPreservesValid(db: Db, userId: int, exerciseId: int, answer: int, timeSpent: int, now: int)
    requires Valid(db)
    requires Submit(db, userId, exerciseId, answer, timeSpent, now).Ok?
    ensures Valid(Submit(db, userId, exerciseId, answer, timeSpent, now).value.0)
  {
    var k := FindChallenge(db.challenges, userId, exerciseId).value;
    var c := db.challenges[k];
    var c' := ApplySubmission(c, answer, timeSpent, now);
    var db' := Submit(db, userId, exerciseId, answer, timeSpent, now).value.0;
    assert db'.challenges == db.challenges[k := c'] && db'.nextId == db.nextId;
    assert RowValid(c);
    assert RowValid(c');
    ReplaceRowKeepsValid(db, k, c', db'.submissions);
  }

  /** A row replaced by a valid one with the same keys and id keeps the
      database valid, whatever the log holds. */
  lemma ReplaceRowKeepsValid(db: Db, k: nat, c': Challenge, log: seq<Submission>)
    requires Valid(db) && k < |db.challenges| && RowValid(c')
    requires c'.id == db.challenges[k].id && c'.userId == db.challenges[k].userId
    requires c'.exerciseId == db.challenges[k].exerciseId
    ensures Valid(db.(challenges := db.challenges[k := c'], submissions := log))
  {
    var rows := db.challenges[k := c'];
    assert forall j :: 0 <= j < |rows| ==>
      rows[j].userId == db.challenges[j].userId
      && rows[j].exerciseId == db.challenges[j].exerciseId
      && rows[j].id == db.challenges[j].id;
  }

  /** Submitting the right answer a second time changes nothing but the
      attempt counter and the log. */
  lemma SecondCorrectSubmission(db: Db, userId: int, exerciseId: int, t1: int, t2: int, now1: int, now2: int)
    requires FindChallenge(db.challenges, userId, exerciseId).Some?
    ensures var k := FindChallenge(db.challenges, userId, exerciseId).value;
            var total := db.challenges[k].totalSum;
            var db1 := Submit(db, userId, exerciseId, total, t1, now1).value.0;
            FindChallenge(db1.challenges, userId, exerciseId) == Some(k)
            && var db2 := Submit(db1, userId, exerciseId, total, t2, now2).value.0;
               db2.challenges[k] == db1.challenges[k].(attempts := db1.challenges[k].attempts + 1)
  {
    var k := FindChallenge(db.challenges, userId, exerciseId).value;
    var total := db.challenges[k].totalSum;
    var db1 := Submit(db, userId, exerciseId, total, t1, now1).value.0;
    assert forall j :: 0 <= j < |db.challenges| ==>
      (Matches(db1.challenges[j], userId, exerciseId) <==> Matches(db.challenges[j], userId, exerciseId));
    FindSameKeys(db.challenges, db1.challenges, userId, exerciseId);
  }

  /** Lookups agree on two tables whose rows have the same keys. */
  lemma FindSameKeys(a: seq<Challenge>, b: seq<Challenge>, userId: int, exerciseId: int)
    requires |a| == |b|
    requires forall j :: 0 <= j < |a| ==> (Matches(a[j], userId, exerciseId) <==> Matches(b[j], userId, exerciseId))
    ensures FindChallenge(a, userId, exerciseId) == FindChallenge(b, userId, exerciseId)
  {
    var ra := FindChallenge(a, userId, exerciseId);
    var rb := FindChallenge(b, userId, exerciseId);
    if ra.Some? {
      assert Matches(b[ra.value], userId, exerciseId);
      assert rb.Some?;
      assert Matches(a[rb.value], userId, exerciseId);
      assert ra.value <= rb.value && rb.value <= ra.value;
    } else {
      assert forall j :: 0 <= j < |b| ==> !Matches(b[j], userId, exerciseId);
    }
  }

  // ---------------------------------------------------------------------------
  // GET /progress

  datatype Progress = Progress(
    completedChallenges: seq<int>,
    totalScore: int,
    totalAttempts: int,
    averageTime: int)

  function CompletedBy(rows: seq<Challenge>, userId: int): (r: seq<Challenge>)
    ensures forall c :: c in r <==> c in rows && c.userId == userId && c.isCompleted
  {
    Filter(rows, (c: Challenge) => c.userId == userId && c.isCompleted)
  }

  /** `score or 0`, summed. */
  function ScoreTotal(cs: seq<Challenge>): int
    decreases |cs|
  {
    if |cs| == 0 then 0
    else ScoreTotal(cs[..|cs| - 1]) + (match cs[|cs| - 1].score case Some(s) => s case None => 0)
  }

  /** The best times that Python counts as true: present and not zero. */
  function TimesOf(cs: seq<Challenge>): (r: seq<int>)
    ensures |r| <= |cs|
    ensures forall t :: t in r ==> t != 0
    decreases |cs|
  {
    if |cs| == 0 then []
    else
      var last := cs[|cs| - 1];
      TimesOf(cs[..|cs| - 1])
        + (if last.bestTime.Some? && last.bestTime.value != 0 then [last.bestTime.value] else [])
  }

  function SubmissionCount(log: seq<Submission>, userId: int): (n: nat)
    ensures n <= |log|
    decreases |log|
  {
    if |log| == 0 then 0
    else SubmissionCount(log[..|log| - 1], userId) + (if log[|log| - 1].userId == userId then 1 else 0)
  }

  function ExerciseIds(cs: seq<Challenge>): (r: seq<int>)
    ensures |r| == |cs| && forall i :: 0 <= i < |cs| ==> r[i] == cs[i].exerciseId
  {
    seq(|cs|, i requires 0 <= i < |cs| => cs[i].exerciseId)
  }

  function GetProgress(db: Db, userId: int): (r: Progress)
    ensures |r.completedChallenges| <= |db.challenges|
    ensures r.totalAttempts <= |db.submissions|
  {
    var completed := CompletedBy(db.challenges, userId);
    var times := TimesOf(completed);
    Progress(
      ExerciseIds(completed),
      ScoreTotal(completed),
      SubmissionCount(db.submissions, userId),
      if |times| == 0 then 0 else TruncDiv(Sum(times), |times|))
  }

  /** Every submission by a user, right or wrong, counts once in that user's
      attempts and in nobody else's. */
  lemma SubmitAddsOneAttemptToProgress(db: Db, userId: int, exerciseId: int, answer: int, timeSpent: int, now: int, other: int)
    requires Submit(db, userId, exerciseId, answer, timeSpent, now).Ok?
    ensures var db' := Submit(db, userId, exerciseId, answer, timeSpent, now).value.0;
            GetProgress(db', userId).totalAttempts == GetProgress(db, userId).totalAttempts + 1
            && (other != userId ==> GetProgress(db', other).totalAttempts == GetProgress(db, other).totalAttempts)
  {
    var db' := Submit(db, userId, exerciseId, answer, timeSpent, now).value.0;
    assert db'.submissions[..|db'.submissions| - 1] == db.submissions;
  }

  /** In a valid database each completed challenge contributes at least the
      base score of 100. */
  lemma {:induction false} ScoreTotalAtLeastBase(cs: seq<Challenge>)
    requires forall i :: 0 <= i < |cs| ==> cs[i].score.Some? && cs[i].score.value >= 100
    ensures ScoreTotal(cs) >= 100 * |cs|
    decreases |cs|
  {
    if |cs| > 0 {
      ScoreTotalAtLeastBase(cs[..|cs| - 1]);
    }
  }

  lemma ProgressScoreAtLeastBase(db: Db, userId: int)
    requires forall i :: 0 <= i < |db.challenges| ==>
      (db.challenges[i].isCompleted ==> db.challenges[i].score.Some? && db.challenges[i].score.value >= 100)
    ensures GetProgress(db, userId).totalScore >= 100 * |GetProgress(db, userId).completedChallenges|
  {
    var completed := CompletedBy(db.challenges, userId);
    forall i | 0 <= i < |completed|
      ensures completed[i].score.Some? && completed[i].score.value >= 100
    {
      assert completed[i] in completed;
    }
    ScoreTotalAtLeastBase(completed);
  }

  /** The reported average time lies between the smallest and largest counted
      best time. */
  lemma ProgressAverageBounded(db: Db, userId: int, lo: int, hi: int)
    requires 0 <= lo
    requires var times := TimesOf(CompletedBy(db.challenges, userId));
      |times| > 0 && forall i :: 0 <= i < |times| ==> lo <= times[i] <= hi
    ensures lo <= GetProgress(db, userId).averageTime <= hi
  {
    var times := TimesOf(CompletedBy(db.challenges, userId));
    var n, total := |times|, Sum(times);
    assert GetProgress(db, userId).averageTime == TruncDiv(total, n);
    SumBounds(times, lo, hi);
    MulLe(0, lo, n);
    assert TruncDiv(total, n) == total / n;
    DivBounds(total, n, lo, hi);
  }

  lemma {:induction false} SumBounds(s: seq<int>, lo: int, hi: int)
    requires forall i :: 0 <= i < |s| ==> lo <= s[i] <= hi
    ensures lo * |s| <= Sum(s) <= hi * |s|
    decreases |s|
  {
    if |s| > 0 {
      SumBounds(s[..|s| - 1], lo, hi);
      assert lo * |s| == lo * (|s| - 1) + lo;
      assert hi * |s| == hi * (|s| - 1) + hi;
    }
  }

  lemma MulLe(a: int, b: int, n: int)
    requires n >= 0
    ensures a <= b ==> a * n <= b * n
  {
  }

  lemma DivBounds(s: int, n: int, lo: int, hi: int)
    requires n > 0 && 0 <= lo && lo * n <= s <= hi * n
    ensures lo <= s / n <= hi
  {
    var q := s / n;
    assert q * n <= s < q * n + n;
    MulLe(q + 1, lo, n);
    MulLe(hi + 1, q, n);
  }
}
