/** The exercise service: the list of published exercises with an optional
    difficulty filter and offset/limit paging, and the submission upsert that
    keeps one submission per user and exercise. */
module ExerciseService {
  import opened Common

  datatype Difficulty = Beginner | Intermediate | Advanced | Hard | Hell

  /** The stored value of each difficulty. */
  function DifficultyValue(d: Difficulty): string {
    match d
    case Beginner => "beginner"
    case Intermediate => "intermediate"
    case Advanced => "advanced"
    case Hard => "hard"
    case Hell => "hell"
  }

  /** `DifficultyLevel(s)`: lookup by value; anything else raises ValueError,
      here None. */
  function ParseDifficulty(s: string): (r: Option<Difficulty>)
    ensures r.Some? ==> DifficultyValue(r.value) == s
    ensures r.None? ==> forall d: Difficulty :: DifficultyValue(d) != s
  {
    if s == "beginner" then Some(Beginner)
    else if s == "intermediate" then Some(Intermediate)
    else if s == "advanced" then Some(Advanced)
    else if s == "hard" then Some(Hard)
    else if s == "hell" then Some(Hell)
    else None
  }

  lemma DifficultyRoundTrip(d: Difficulty)
    ensures ParseDifficulty(DifficultyValue(d)) == Some(d)
  {
  }

  datatype ExerciseStatus = Draft | Published | Archived

  datatype Exercise = Exercise(id: int, title: string, difficulty: Difficulty, status: ExerciseStatus)

  /** The difficulty the filter uses: an empty string is falsy and an
      unknown value is swallowed, both meaning no filter. */
  function DifficultyFilter(difficulty: Option<string>): Option<Difficulty> {
    if difficulty.Some? && difficulty.value != "" then ParseDifficulty(difficulty.value) else None
  }

  /** The query's condition: published, and of the chosen difficulty if any. */
  predicate Listed(e: Exercise, level: Option<Difficulty>) {
    e.status == Published && (level.None? || e.difficulty == level.value)
  }

  function Matching(exercises: seq<Exercise>, level: Option<Difficulty>): seq<Exercise> {
    Filter(exercises, (e: Exercise) => Listed(e, level))
  }

  /** The matching exercises are those of the table meeting the condition, in
      table order. */
  lemma MatchingInOrder(exercises: seq<Exercise>, level: Option<Difficulty>)
    ensures IsSubsequence(Matching(exercises, level), exercises)
    ensures forall e :: e in exercises && Listed(e, level) ==> e in Matching(exercises, level)
  {
    FilterIsSubsequence(exercises, (e: Exercise) => Listed(e, level));
  }

  /** `get_exercises` */
  function GetExercises(exercises: seq<Exercise>, skip: nat, limit: nat, difficulty: Option<string>)
    : (r: seq<Exercise>)
    ensures |r| <= limit
    ensures forall e :: e in r ==> e in exercises && e.status == Published
    ensures DifficultyFilter(difficulty).Some? ==>
      forall e :: e in r ==> DifficultyValue(e.difficulty) == difficulty.value
  {
    var m := Matching(exercises, DifficultyFilter(difficulty));
    var r := Page(m, skip, limit);
    assert forall e :: e in r ==> e in m;
    r
  }

  /** The first page, when it is large enough, is every published exercise of
      the chosen difficulty, in table order; an unknown difficulty filters
      nothing. */
  lemma GetExercisesComplete(exercises: seq<Exercise>, limit: nat, difficulty: Option<string>)
    requires limit >= |exercises|
    ensures var r := GetExercises(exercises, 0, limit, difficulty);
      && IsSubsequence(r, exercises)
      && forall e :: e in exercises && e.status == Published
                     && (DifficultyFilter(difficulty).None? || e.difficulty == DifficultyFilter(difficulty).value)
                     ==> e in r
  {
    var level := DifficultyFilter(difficulty);
    var m := Matching(exercises, level);
    MatchingInOrder(exercises, level);
    PageWhole(m, limit);
    assert GetExercises(exercises, 0, limit, difficulty) == m;
  }

  /** Consecutive pages of the listing adjoin: the page at `skip` of `a` items
      followed by the page at `skip + a` of `b` items is the page at `skip` of
      `a + b` items. With `GetExercisesComplete` this fixes every page as a
      window of the full listing. */
  lemma GetExercisesPagesAdjoin(exercises: seq<Exercise>, skip: nat, a: nat, b: nat, difficulty: Option<string>)
    ensures GetExercises(exercises, skip, a, difficulty) + GetExercises(exercises, skip + a, b, difficulty)
         == GetExercises(exercises, skip, a + b, difficulty)
  {
    PagesAdjoin(Matching(exercises, DifficultyFilter(difficulty)), skip, a, b);
  }

  /** An empty or unrecognised difficulty is ignored: the listing is the
      unfiltered one, page for page. */
  lemma UnknownDifficultyIgnored(exercises: seq<Exercise>, skip: nat, limit: nat, difficulty: string)
    requires difficulty == "" || ParseDifficulty(difficulty).None?
    ensures GetExercises(exercises, skip, limit, Some(difficulty)) == GetExercises(exercises, skip, limit, None)
  {
    assert DifficultyFilter(Some(difficulty)) == None;
  }

  // ---------------------------------------------------------------------------
  // Submissions

  datatype SubmissionStatus = Pending | Correct | Incorrect | Timeout

  datatype ExerciseSubmission = ExerciseSubmission(
    id: int, userId: int, exerciseId: int, answer: string, status: SubmissionStatus, score: int)

  predicate SameKey(s: ExerciseSubmission, exerciseId: int, userId: int) {
    s.exerciseId == exerciseId && s.userId == userId
  }

  function FindSubmission(subs: seq<ExerciseSubmission>, exerciseId: int, userId: int): Option<nat> {
    FindFirst(subs, (s: ExerciseSubmission) => SameKey(s, exerciseId, userId))
  }

  /** `submit_exercise`: overwrites the answer of an earlier submission and
      puts it back to pending, or adds a pending submission with the default
      score 0. Returns the table, the next id and the submission. */
  function SubmitExercise(subs: seq<ExerciseSubmission>, nextId: int, exerciseId: int, userId: int, answer: string)
    : (r: (seq<ExerciseSubmission>, int, ExerciseSubmission))
    ensures r.2.answer == answer && r.2.status == Pending && SameKey(r.2, exerciseId, userId)
    ensures FindSubmission(r.0, exerciseId, userId).Some? && r.0[FindSubmission(r.0, exerciseId, userId).value] == r.2
  {
    var p := (s: ExerciseSubmission) => SameKey(s, exerciseId, userId);
    match FindSubmission(subs, exerciseId, userId)
    case Some(k) =>
      var s := subs[k].(answer := answer, status := Pending);
      var subs' := subs[k := s];
      FindFirstSameVerdicts(subs, subs', p);
      (subs', nextId, s)
    case None =>
      var s := ExerciseSubmission(nextId, userId, exerciseId, answer, Pending, 0);
      FindFirstAppend(subs, s, p);
      (subs + [s], nextId + 1, s)
  }

  /** At most one submission per user and exercise; ids distinct and below
      the next id. */
  predicate SubmissionsValid(subs: seq<ExerciseSubmission>, nextId: int) {
    && (forall i, j :: 0 <= i < j < |subs| ==>
          !(subs[i].exerciseId == subs[j].exerciseId && subs[i].userId == subs[j].userId))
    && (forall i :: 0 <= i < |subs| ==> subs[i].id < nextId)
    && (forall i, j :: 0 <= i < j < |subs| ==> subs[i].id != subs[j].id)
  }

  /** A resubmission reuses the same record (same id, table size unchanged,
      other rows untouched); a first submission adds exactly one record. Either
      way the table keeps one submission per user and exercise. */
  lemma SubmitExerciseUpserts(subs: seq<ExerciseSubmission>, nextId: int, exerciseId: int, userId: int, answer: string)
    requires SubmissionsValid(subs, nextId)
    ensures var (subs', nextId', s) := SubmitExercise(subs, nextId, exerciseId, userId, answer);
      && SubmissionsValid(subs', nextId')
      && (FindSubmission(subs, exerciseId, userId).Some? ==>
            var k := FindSubmission(subs, exerciseId, userId).value;
            && |subs'| == |subs| && s.id == subs[k].id && s.score == subs[k].score
            && forall j :: 0 <= j < |subs| && j != k ==> subs'[j] == subs[j])
      && (FindSubmission(subs, exerciseId, userId).None? ==>
            && subs' == subs + [s] && s.id == nextId && s.score == 0)
  {
    match FindSubmission(subs, exerciseId, userId)
    case Some(k) =>
      var s := subs[k].(answer := answer, status := Pending);
      assert SubmitExercise(subs, nextId, exerciseId, userId, answer).0 == subs[k := s];
      RewriteKeepsValid(subs, nextId, k, s);
    case None =>
      var s := ExerciseSubmission(nextId, userId, exerciseId, answer, Pending, 0);
      assert SubmitExercise(subs, nextId, exerciseId, userId, answer) == (subs + [s], nextId + 1, s);
      assert forall i :: 0 <= i < |subs| ==> !SameKey(subs[i], exerciseId, userId);
      AppendKeepsValid(subs, nextId, s);
  }

  /** Rewriting a row without touching its key or id keeps the table valid. */
  lemma RewriteKeepsValid(subs: seq<ExerciseSubmission>, nextId: int, k: nat, s: ExerciseSubmission)
    requires SubmissionsValid(subs, nextId) && k < |subs|
    requires s.id == subs[k].id && s.exerciseId == subs[k].exerciseId && s.userId == subs[k].userId
    ensures SubmissionsValid(subs[k := s], nextId)
  {
    var subs' := subs[k := s];
    assert forall i :: 0 <= i < |subs| ==>
      subs'[i].id == subs[i].id && subs'[i].exerciseId == subs[i].exerciseId && subs'[i].userId == subs[i].userId;
  }

  /** A row with a fresh key and the next id extends a valid table. */
  lemma AppendKeepsValid(subs: seq<ExerciseSubmission>, nextId: int, s: ExerciseSubmission)
    requires SubmissionsValid(subs, nextId) && s.id == nextId
    requires forall i :: 0 <= i < |subs| ==> !SameKey(subs[i], s.exerciseId, s.userId)
    ensures SubmissionsValid(subs + [s], nextId + 1)
  {
    var subs' := subs + [s];
    assert forall i :: 0 <= i < |subs| ==> subs'[i] == subs[i];
    assert subs'[|subs|] == s;
  }
}
