/** The knowledge-base client's management pages: the question editor's
    options and answer, the statistics page's time, accuracy grades and
    per-bank accuracy, and the wrong-question book's filter, counts and local
    updates. */
module ClientKnowledge {
  import opened Common
  import opened AnswerCheck
  import ClientExam

  // ---------------------------------------------------------------------------
  // The question editor

  /** The options a saved question carries: none for fill-in and essay
      questions; otherwise the non-blank options in form order. */
  function SavedOptions(questionType: string, options: seq<string>): (r: Option<seq<string>>)
    ensures questionType == FillIn || questionType == Essay <==> r.None?
    ensures r.Some? ==>
      && IsSubsequence(r.value, options)
      && (forall o :: o in r.value ==> !IsBlank(o))
      && (forall o :: o in options && !IsBlank(o) ==> o in r.value)
  {
    if questionType == FillIn || questionType == Essay then None
    else
      FilterIsSubsequence(options, Filled);
      Some(Filter(options, Filled))
  }

  /** `opt.trim() !== ''` */
  predicate Filled(option: string) {
    !IsBlank(option)
  }

  /** `handleOptionChange`: the edited field's index comes from the rendered
      list, so it is a position of the list. */
  function OptionChange(options: seq<string>, index: nat, value: string): (r: seq<string>)
    requires index < |options|
    ensures |r| == |options| && r[index] == value
    ensures forall i :: 0 <= i < |r| && i != index ==> r[i] == options[i]
  {
    options[index := value]
  }

  /** Editing the text of an option never changes the answer letters the
      editor offers, and editing it to something non-blank keeps it among the
      saved options. */
  lemma OptionChangeKeepsLetters(questionType: string, options: seq<string>, index: nat, value: string)
    requires index < |options|
    ensures ClientExam.AnswerOptions(questionType, |OptionChange(options, index, value)|)
         == ClientExam.AnswerOptions(questionType, |options|)
    ensures questionType != FillIn && questionType != Essay && !IsBlank(value) ==>
      value in SavedOptions(questionType, OptionChange(options, index, value)).value
  {
    assert value in OptionChange(options, index, value);
  }

  /** Clicking an answer choice in the editor: single choice takes the
      letter, multiple choice toggles it (the box is checked when the answer
      contains the letter). */
  function AnswerClick(questionType: string, answer: string, letter: string, checked: bool): string {
    if questionType == SingleChoice then letter else ClientExam.MultiToggle(answer, letter, checked)
  }

  /** The editor's answer clicks behave like the exam page's: a single-choice
      answer is the one letter; a multiple-choice answer gains or loses that
      letter among its parts. */
  lemma AnswerClickParts(questionType: string, answer: string, letter: string, checked: bool)
    requires ',' !in letter && !IsBlank(letter)
    ensures questionType == SingleChoice ==> AnswerClick(questionType, answer, letter, checked) == letter
    ensures questionType != SingleChoice && checked ==>
      ClientExam.Segments(AnswerClick(questionType, answer, letter, checked)) == ClientExam.Segments(answer) + [letter]
    ensures questionType != SingleChoice && !checked ==>
      letter !in ClientExam.Segments(answer) ==> ClientExam.Segments(AnswerClick(questionType, answer, letter, checked)) == ClientExam.Segments(answer)
  {
    ClientExam.MultiToggleSegments(answer, letter, checked);
  }

  /** The answer letters follow the form's option fields, blank ones
      included, while blank options are dropped on save: a question whose
      third option was left blank and whose answer is D is saved with three
      options, so the answer names an option the question does not have. */
  lemma AnswerLetterCanOutliveItsOption(a: string, b: string, blank: string, c: string)
    requires !IsBlank(a) && !IsBlank(b) && IsBlank(blank) && !IsBlank(c)
    ensures var options := [a, b, blank, c];
      && "D" in ClientExam.AnswerOptions(SingleChoice, |options|)
      && SavedOptions(SingleChoice, options) == Some([a, b, c])
      && "D" !in ClientExam.AnswerOptions(SingleChoice, |SavedOptions(SingleChoice, options).value|)
  {
    var options := [a, b, blank, c];
    FourthLetter();
    BlankOptionDropped(a, b, blank, c);
    assert SavedOptions(SingleChoice, options) == Some([a, b, c]);
  }

  lemma BlankOptionDropped(a: string, b: string, blank: string, c: string)
    requires !IsBlank(a) && !IsBlank(b) && IsBlank(blank) && !IsBlank(c)
    ensures Filter([a, b, blank, c], Filled) == [a, b, c]
  {
    DropThird(a, b, blank, c, Filled);
  }

  lemma DropThird<T>(a: T, b: T, x: T, c: T, keep: T -> bool)
    requires keep(a) && keep(b) && !keep(x) && keep(c)
    ensures Filter([a, b, x, c], keep) == [a, b, c]
  {
    var s := [a, b, x, c];
    assert forall j :: 0 <= j < |s| && j != 2 ==> keep(s[j]);
    FilterDropOne(s, keep, 2);
    assert s[..2] + s[3..] == [a, b, c];
  }

  lemma FourthLetter()
    ensures "D" in ClientExam.AnswerOptions(SingleChoice, 4)
    ensures "D" !in ClientExam.AnswerOptions(SingleChoice, 3)
  {
    var r4 := ClientExam.AnswerOptions(SingleChoice, 4);
    assert r4[3] == [(65 + 3) as char];
    var r3 := ClientExam.AnswerOptions(SingleChoice, 3);
    assert forall i :: 0 <= i < 3 ==> r3[i] == [(65 + i) as char];
  }

  // ---------------------------------------------------------------------------
  // The statistics page

  /** `formatTime`: whole hours and minutes, the leftover seconds dropped. */
  function FormatDuration(seconds: nat): string {
    var hours := seconds / 3600;
    var minutes := (seconds % 3600) / 60;
    if hours > 0 then NatToString(hours) + "小时" + NatToString(minutes) + "分钟"
    else NatToString(minutes) + "分钟"
  }

  /** Reads a duration display back as (hours, minutes). */
  function ReadDuration(s: string): (r: (nat, nat))
    requires |s| >= 2
  {
    var body := s[..|s| - 2];
    match FindFirst(body, (c: char) => c == '小')
    case None => if AllDigits(body) then (0, ParseDigits(body)) else (0, 0)
    case Some(k) =>
      var h := body[..k];
      var m := if k + 2 <= |body| then body[k + 2..] else "";
      (if AllDigits(h) then ParseDigits(h) else 0, if AllDigits(m) then ParseDigits(m) else 0)
  }

  lemma DigitsThenMark(d: string, rest: string)
    requires AllDigits(d) && |rest| > 0 && rest[0] == '小'
    ensures FindFirst(d + rest, (c: char) => c == '小') == Some(|d|)
  {
    var s := d + rest;
    var r := FindFirst(s, (c: char) => c == '小');
    assert s[|d|] == '小';
    assert forall j :: 0 <= j < |d| ==> s[j] == d[j] && IsDigit(s[j]);
  }

  /** The display shows exactly the hours and the minutes past the hour, so
      two durations look the same exactly when they agree to the minute. */
  lemma FormatDurationReadsBack(seconds: nat)
    ensures |FormatDuration(seconds)| >= 2
    ensures ReadDuration(FormatDuration(seconds)) == (seconds / 3600, (seconds % 3600) / 60)
  {
    var hours := seconds / 3600;
    var minutes := (seconds % 3600) / 60;
    var ms := NatToString(minutes);
    ParseNatToString(minutes);
    var s := FormatDuration(seconds);
    if hours > 0 {
      var hs := NatToString(hours);
      ParseNatToString(hours);
      var body := hs + "小时" + ms;
      assert s[..|s| - 2] == body;
      DigitsThenMark(hs, "小时" + ms);
      assert body == hs + ("小时" + ms);
      assert body[..|hs|] == hs;
      assert body[|hs| + 2..] == ms;
    } else {
      var body := ms;
      assert s[..|s| - 2] == body;
      assert forall j :: 0 <= j < |body| ==> IsDigit(body[j]);
    }
  }

  lemma FormatDurationToTheMinute(a: nat, b: nat)
    ensures FormatDuration(a) == FormatDuration(b) <==> a / 60 == b / 60
  {
    FormatDurationReadsBack(a);
    FormatDurationReadsBack(b);
    assert a / 60 == (a / 3600) * 60 + (a % 3600) / 60;
    assert b / 60 == (b / 3600) * 60 + (b % 3600) / 60;
    if a / 60 == b / 60 {
      assert a / 3600 == (a / 60) / 60 && b / 3600 == (b / 60) / 60;
      assert (a % 3600) / 60 == (a / 60) % 60 && (b % 3600) / 60 == (b / 60) % 60;
    }
  }

  datatype Level = Excellent | Good | Passing | NeedsWork {
    /** The label the page shows. */
    function Label(): string {
      match this
      case Excellent => "优秀"
      case Good => "良好"
      case Passing => "及格"
      case NeedsWork => "需努力"
    }

    function Rank(): nat {
      match this
      case NeedsWork => 0
      case Passing => 1
      case Good => 2
      case Excellent => 3
    }
  }

  datatype Colour = Green | Yellow | Red

  /** `getAccuracyLevel` on an accuracy percentage. */
  function AccuracyLevel(accuracy: real): (l: Level)
    ensures l == Excellent <==> accuracy >= 90.0
    ensures l == NeedsWork <==> accuracy < 60.0
  {
    if accuracy >= 90.0 then Excellent
    else if accuracy >= 80.0 then Good
    else if accuracy >= 60.0 then Passing
    else NeedsWork
  }

  /** `getAccuracyColor` */
  function AccuracyColour(accuracy: real): Colour {
    if accuracy >= 80.0 then Green else if accuracy >= 60.0 then Yellow else Red
  }

  /** A higher accuracy never gets a lower grade, and the colour agrees with
      the grade: green for excellent and good, yellow for passing, red
      otherwise. */
  lemma GradesAgree(a: real, b: real)
    ensures a <= b ==> AccuracyLevel(a).Rank() <= AccuracyLevel(b).Rank()
    ensures AccuracyColour(a) == Green <==> AccuracyLevel(a).Rank() >= 2
    ensures AccuracyColour(a) == Yellow <==> AccuracyLevel(a) == Passing
    ensures AccuracyColour(a) == Red <==> AccuracyLevel(a) == NeedsWork
  {
  }

  /** A bank's accuracy percentage, 0 when nothing was answered. */
  function BankAccuracy(correct: int, answered: int): (r: real)
    ensures answered <= 0 ==> r == 0.0
    ensures answered > 0 && 0 <= correct <= answered ==> 0.0 <= r <= 100.0
    ensures answered > 0 && correct == answered ==> r == 100.0
    ensures answered > 0 ==> r * (answered as real) == (correct as real) * 100.0
  {
    if answered > 0 then
      PercentFacts(correct as real, answered as real);
      (correct as real) / (answered as real) * 100.0
    else 0.0
  }

  lemma PercentFacts(c: real, n: real)
    requires n > 0.0
    ensures c / n * 100.0 * n == c * 100.0
    ensures 0.0 <= c <= n ==> 0.0 <= c / n * 100.0 <= 100.0
    ensures c == n ==> c / n * 100.0 == 100.0
  {
    DivTimes(c, n);
    if 0.0 <= c <= n {
      UnitRatio(c, n);
    }
  }

  lemma DivTimes(c: real, n: real)
    requires n > 0.0
    ensures c / n * n == c
  {
  }

  lemma UnitRatio(c: real, n: real)
    requires n > 0.0 && 0.0 <= c <= n
    ensures 0.0 <= c / n <= 1.0
  {
  }

  // ---------------------------------------------------------------------------
  // The wrong-question book

  datatype WrongEntry = WrongEntry(id: int, question: Option<(string, string)>, isMastered: bool, masteredAt: Option<int>)

  /** The search: the question text or its answer contains the term, ignoring
      case; an entry without its question never matches. */
  predicate MatchesSearch(e: WrongEntry, term: string) {
    e.question.Some? &&
    (Contains(Lower(e.question.value.0), Lower(term)) || Contains(Lower(e.question.value.1), Lower(term)))
  }

  predicate Visible(e: WrongEntry, term: string, showMastered: bool) {
    MatchesSearch(e, term) && (showMastered || !e.isMastered)
  }

  /** `filteredQuestions` */
  function FilteredQuestions(entries: seq<WrongEntry>, term: string, showMastered: bool): (r: seq<WrongEntry>)
    ensures IsSubsequence(r, entries)
    ensures forall e :: e in r <==> e in entries && Visible(e, term, showMastered)
  {
    FilterIsSubsequence(entries, (e: WrongEntry) => Visible(e, term, showMastered));
    Filter(entries, (e: WrongEntry) => Visible(e, term, showMastered))
  }

  /** An empty search shows every entry that has its question, mastered ones
      only on request; a mastered entry is hidden unless requested. */
  lemma EmptySearchShowsAll(entries: seq<WrongEntry>, showMastered: bool)
    ensures forall e :: e in entries && e.question.Some? && (showMastered || !e.isMastered)
                        ==> e in FilteredQuestions(entries, "", showMastered)
    ensures forall e :: e in FilteredQuestions(entries, "", false) ==> !e.isMastered
  {
    forall e | e in entries && e.question.Some?
      ensures MatchesSearch(e, "")
    {
      ContainsEmpty(Lower(e.question.value.0));
    }
  }

  function UnmasteredCount(entries: seq<WrongEntry>): nat {
    |Filter(entries, (e: WrongEntry) => !e.isMastered)|
  }

  function MasteredCount(entries: seq<WrongEntry>): nat {
    |Filter(entries, (e: WrongEntry) => e.isMastered)|
  }

  /** The two counters split the book. */
  lemma CountsSplitTheBook(entries: seq<WrongEntry>)
    ensures UnmasteredCount(entries) + MasteredCount(entries) == |entries|
  {
    FilterPartition(entries, (e: WrongEntry) => !e.isMastered, (e: WrongEntry) => e.isMastered);
  }

  /** After the server marks an entry mastered, the page marks the same id. */
  function MasterLocally(entries: seq<WrongEntry>, id: int, now: int): (r: seq<WrongEntry>)
    ensures |r| == |entries|
    ensures forall i :: 0 <= i < |r| ==>
      if entries[i].id == id then r[i] == entries[i].(isMastered := true, masteredAt := Some(now))
      else r[i] == entries[i]
  {
    seq(|entries|, i requires 0 <= i < |entries| =>
      if entries[i].id == id then entries[i].(isMastered := true, masteredAt := Some(now)) else entries[i])
  }

  /** After the server deletes an entry, the page drops that id. */
  function DeleteLocally(entries: seq<WrongEntry>, id: int): (r: seq<WrongEntry>)
    ensures IsSubsequence(r, entries)
    ensures forall e :: e in r <==> e in entries && e.id != id
  {
    FilterIsSubsequence(entries, (e: WrongEntry) => e.id != id);
    Filter(entries, (e: WrongEntry) => e.id != id)
  }

  /** Mastering an entry that was not mastered moves it from one counter to
      the other and hides it from the default view; deleting an entry removes
      it from every view. */
  lemma LocalUpdatesMoveCounts(entries: seq<WrongEntry>, k: nat, now: int, term: string, showMastered: bool)
    requires k < |entries| && !entries[k].isMastered
    requires forall i :: 0 <= i < |entries| && i != k ==> entries[i].id != entries[k].id
    ensures var r := MasterLocally(entries, entries[k].id, now);
      && MasteredCount(r) == MasteredCount(entries) + 1
      && UnmasteredCount(r) + 1 == UnmasteredCount(entries)
      && r[k] !in FilteredQuestions(r, term, false)
    ensures forall e :: e in FilteredQuestions(DeleteLocally(entries, entries[k].id), term, showMastered)
                        ==> e.id != entries[k].id
  {
    var r := MasterLocally(entries, entries[k].id, now);
    MasteredShift(entries, r, k);
    CountsSplitTheBook(entries);
    CountsSplitTheBook(r);
  }

  /** Two books that differ only at `k`, where only the second is mastered. */
  lemma {:induction false} MasteredShift(a: seq<WrongEntry>, b: seq<WrongEntry>, k: nat)
    requires |a| == |b| && k < |a| && !a[k].isMastered && b[k].isMastered
    requires forall i :: 0 <= i < |a| && i != k ==> a[i].isMastered == b[i].isMastered
    ensures MasteredCount(b) == MasteredCount(a) + 1
    decreases |a|
  {
    if k > 0 {
      MasteredShift(a[1..], b[1..], k - 1);
    } else {
      SameMastered(a[1..], b[1..]);
    }
  }

  lemma {:induction false} SameMastered(a: seq<WrongEntry>, b: seq<WrongEntry>)
    requires |a| == |b|
    requires forall i :: 0 <= i < |a| ==> a[i].isMastered == b[i].isMastered
    ensures MasteredCount(a) == MasteredCount(b)
    decreases |a|
  {
    if |a| > 0 {
      SameMastered(a[1..], b[1..]);
    }
  }
}
