/** The client's note pages and exercise list: tag stripping, the note
    preview and thumbnail colour, the new-note guard, the reading time, and
    the exercise list's search and difficulty filter. */
module ClientNotes {
  import opened Common
  import StudyNotes
  import ExerciseService

  // ---------------------------------------------------------------------------
  // Tag stripping

  /** No `<` is followed, anywhere later, by a `>`: nothing the pattern
      `<[^>]*>` could match. */
  predicate NoTag(s: string) {
    forall i, j :: 0 <= i < j < |s| && s[i] == '<' ==> s[j] != '>'
  }

  /** `content.replace(/<[^>]*>/g, '')`: scanning from the left, a `<` and
      everything up to the next `>` go; a `<` with no `>` after it stays. */
  function StripTags(s: string): (r: string)
    ensures |r| <= |s|
    ensures forall c :: c in r ==> c in s
    ensures NoTag(r)
    decreases |s|
  {
    if |s| == 0 then ""
    else if s[0] == '<' then
      match FindFirst(s[1..], (c: char) => c == '>')
      case Some(k) => StripTags(s[k + 2..])
      case None =>
        var rest := StripTags(s[1..]);
        assert forall c :: c in rest ==> c != '>' by {
          assert forall j :: 0 <= j < |s[1..]| ==> s[1..][j] != '>';
        }
        var r := "<" + rest;
        assert NoTag(r) by {
          forall i, j | 0 <= i < j < |r| && r[i] == '<'
            ensures r[j] != '>'
          {
            assert r[j] == rest[j - 1] && rest[j - 1] in rest;
          }
        }
        r
    else
      var rest := StripTags(s[1..]);
      [s[0]] + rest
  }

  /** Text without tags is left alone, so stripping twice is stripping once. */
  lemma {:induction false} StripTagsKeepsPlainText(s: string)
    requires NoTag(s)
    ensures StripTags(s) == s
    decreases |s|
  {
    if |s| > 0 {
      assert NoTag(s[1..]) by {
        forall i, j | 0 <= i < j < |s[1..]| && s[1..][i] == '<'
          ensures s[1..][j] != '>'
        {
          assert s[i + 1] == '<';
        }
      }
      StripTagsKeepsPlainText(s[1..]);
      if s[0] == '<' {
        assert forall j :: 0 <= j < |s[1..]| ==> s[1..][j] != '>' by {
          forall j | 0 <= j < |s[1..]|
            ensures s[1..][j] != '>'
          {
            assert s[j + 1] == s[1..][j];
          }
        }
      }
    }
  }

  lemma StripTagsIdempotent(s: string)
    ensures StripTags(StripTags(s)) == StripTags(s)
  {
    StripTagsKeepsPlainText(StripTags(s));
  }

  /** A complete tag in front of the text is dropped and nothing else. */
  lemma StripLeadingTag(inner: string, s: string)
    requires '>' !in inner
    ensures StripTags("<" + inner + ">" + s) == StripTags(s)
  {
    var t := "<" + inner + ">" + s;
    var tail := t[1..];
    assert tail == inner + ">" + s;
    assert tail[|inner|] == '>';
    assert forall j :: 0 <= j < |inner| ==> tail[j] == inner[j];
    var k := FindFirst(tail, (c: char) => c == '>');
    assert k == Some(|inner|);
    assert t[|inner| + 2..] == s;
  }

  // ---------------------------------------------------------------------------
  // The note list

  const PreviewLength: int := 200

  /** `getContentPreview`: the text without tags, cut to 200 characters with
      an ellipsis when longer. */
  function ContentPreview(content: string): (r: string)
    ensures |r| <= PreviewLength + 3
    ensures NoTag(r)
    ensures |StripTags(content)| <= PreviewLength ==> r == StripTags(content)
    ensures |StripTags(content)| > PreviewLength ==>
      r == StripTags(content)[..PreviewLength] + "..."
  {
    var text := StripTags(content);
    if |text| > PreviewLength then
      var cut := text[..PreviewLength];
      assert NoTag(cut + "...") by {
        assert forall i :: 0 <= i < |cut| ==> cut[i] == text[i];
      }
      cut + "..."
    else text
  }

  const ThumbnailColours: seq<string> := [
    "bg-gradient-to-br from-blue-400 to-blue-600",
    "bg-gradient-to-br from-green-400 to-green-600",
    "bg-gradient-to-br from-purple-400 to-purple-600",
    "bg-gradient-to-br from-pink-400 to-pink-600",
    "bg-gradient-to-br from-indigo-400 to-indigo-600",
    "bg-gradient-to-br from-teal-400 to-teal-600"]

  /** `getRandomThumbnail`: the colour chosen by the title's length. */
  function ThumbnailIndex(title: string): (i: nat)
    ensures i < |ThumbnailColours|
    ensures i == |title| % 6
  {
    |title| % |ThumbnailColours|
  }

  /** Titles whose lengths differ by six get the same colour; consecutive
      lengths get different ones. */
  lemma ThumbnailCycle(title: string, c: char)
    ensures ThumbnailIndex(title + [c]) != ThumbnailIndex(title)
    ensures ThumbnailIndex(title + [c, c, c, c, c, c]) == ThumbnailIndex(title)
  {
  }

  /** `submit` on the new-note form: nothing is sent while the title or the
      content is blank; otherwise a private note without text or tags. */
  function SubmitNote(title: string, html: string): (r: Option<StudyNotes.NoteCreate>)
    ensures r.None? <==> IsBlank(title) || IsBlank(html)
    ensures r.Some? ==> r.value.title == title && r.value.contentHtml == html && r.value.isPrivate
  {
    if IsBlank(title) || IsBlank(html) then None
    else Some(StudyNotes.NoteCreate(title, html, None, None, true))
  }

  /** Every note created from the form has a non-blank title and content. */
  lemma FormNotesAreFilled(notes: seq<StudyNotes.StudyNote>, nextId: int, userId: int, title: string, html: string, now: int)
    requires SubmitNote(title, html).Some?
    ensures var (_, n) := StudyNotes.Create(notes, nextId, userId, SubmitNote(title, html).value, now);
      !IsBlank(n.title) && !IsBlank(n.contentHtml) && n.isPrivate && n.userId == userId
  {
  }

  // ---------------------------------------------------------------------------
  // Reading time

  const CharsPerMinute: int := 200

  /** `getReadingTime`: minutes, rounded up, at 200 characters of text a
      minute. */
  function ReadingTime(content: string): (minutes: nat)
    ensures (minutes - 1) * CharsPerMinute < |StripTags(content)| <= minutes * CharsPerMinute
  {
    (|StripTags(content)| + CharsPerMinute - 1) / CharsPerMinute
  }

  /** Markup alone reads in no time, tags in front add nothing, and more text
      never reads faster. */
  lemma ReadingTimeLaws(content: string, more: string, inner: string)
    requires '>' !in inner
    ensures StripTags(content) == "" ==> ReadingTime(content) == 0
    ensures ReadingTime("<" + inner + ">" + content) == ReadingTime(content)
    ensures |StripTags(content)| <= |StripTags(more)| ==> ReadingTime(content) <= ReadingTime(more)
  {
    StripLeadingTag(inner, content);
  }

  // ---------------------------------------------------------------------------
  // The exercise list

  datatype ExerciseCard = ExerciseCard(title: string, description: string, difficulty: string)

  predicate MatchesTerm(e: ExerciseCard, term: string) {
    Contains(Lower(e.title), Lower(term)) || Contains(Lower(e.description), Lower(term))
  }

  predicate HasDifficulty(e: ExerciseCard, difficulty: string) {
    e.difficulty == difficulty
  }

  /** The filter effect: a non-empty search keeps titles or descriptions
      containing it, ignoring case; a chosen difficulty keeps that
      difficulty only. */
  function FilterExercises(exercises: seq<ExerciseCard>, term: string, difficulty: string): (r: seq<ExerciseCard>)
    ensures IsSubsequence(r, exercises)
    ensures forall e :: e in r <==>
      e in exercises && (term == "" || MatchesTerm(e, term)) && (difficulty == "" || HasDifficulty(e, difficulty))
  {
    var searched := if term != "" then Filter(exercises, (e: ExerciseCard) => MatchesTerm(e, term)) else exercises;
    var r := if difficulty != "" then Filter(searched, (e: ExerciseCard) => HasDifficulty(e, difficulty)) else searched;
    FilterIsSubsequence(exercises, (e: ExerciseCard) => MatchesTerm(e, term));
    FilterIsSubsequence(searched, (e: ExerciseCard) => HasDifficulty(e, difficulty));
    SubsequenceRefl(exercises);
    SubsequenceRefl(searched);
    SubsequenceTrans(r, searched, exercises);
    r
  }

  /** With no search and no difficulty the list is shown whole; an empty
      search matches everything. */
  lemma NoFilterShowsAll(exercises: seq<ExerciseCard>)
    ensures FilterExercises(exercises, "", "") == exercises
  {
  }

  /** `getDifficultyText` */
  function DifficultyText(difficulty: string): string {
    match difficulty
    case "beginner" => "初级"
    case "intermediate" => "中级"
    case "advanced" => "高级"
    case "hard" => "困难"
    case "hell" => "地狱"
    case _ => difficulty
  }

  /** Each of the five stored difficulties gets its own label, and any other
      value is shown as it is. */
  lemma DifficultyTextLaws(d1: ExerciseService.Difficulty, d2: ExerciseService.Difficulty, other: string)
    requires ExerciseService.ParseDifficulty(other).None?
    ensures DifficultyText(ExerciseService.DifficultyValue(d1)) == DifficultyText(ExerciseService.DifficultyValue(d2)) <==> d1 == d2
    ensures DifficultyText(ExerciseService.DifficultyValue(d1)) != ExerciseService.DifficultyValue(d1)
    ensures DifficultyText(other) == other
  {
  }
}
