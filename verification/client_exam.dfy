/** The knowledge-base client's exam pages: the answer options shown for a
    question, the comma-separated multi-choice toggle, the exam page's answer
    sheet, navigation, submit guard and buttons, and the exam-setup form's
    validation and numeric-input fallbacks. */
module ClientExam {
  import opened Common
  import opened AnswerCheck
  import ExamGeneration

  const TrueLabel: string := "正确"
  const FalseLabel: string := "错误"

  // ---------------------------------------------------------------------------
  // Answer options

  /** `String.fromCharCode(n)`: a UTF-16 code unit. A lone surrogate is not a
      Dafny character and shows as the replacement character. */
  function CodeUnit(n: nat): char {
    var u := n % 0x10000;
    if 0xD800 <= u < 0xE000 then 0xFFFD as char else u as char
  }

  /** The letter of the option at `index`: A, B, C, ... */
  function Letter(index: nat): string {
    [CodeUnit(65 + index)]
  }

  /** `getAnswerOptions` of the exam page and of the question editor: one
      letter per option for single and multiple choice, the two verdicts for
      true/false, nothing for the free-text types. */
  function AnswerOptions(questionType: string, optionCount: nat): (r: seq<string>)
    ensures questionType == SingleChoice || questionType == MultiChoice ==>
      && |r| == optionCount
      && forall i :: 0 <= i < optionCount && i < 26 ==> r[i] == [(65 + i) as char]
    ensures questionType == TrueFalse ==> r == [TrueLabel, FalseLabel]
    ensures questionType != SingleChoice && questionType != MultiChoice && questionType != TrueFalse ==> r == []
  {
    if questionType == SingleChoice || questionType == MultiChoice then
      seq(optionCount, i requires 0 <= i < optionCount => Letter(i))
    else if questionType == TrueFalse then [TrueLabel, FalseLabel]
    else []
  }

  /** Up to 26 options, the letters are distinct, so each names one option. */
  lemma OptionLettersDistinct(questionType: string, optionCount: nat)
    requires questionType == SingleChoice || questionType == MultiChoice
    requires optionCount <= 26
    ensures var r := AnswerOptions(questionType, optionCount);
      forall i, j :: 0 <= i < j < |r| ==> r[i] != r[j]
  {
    var r := AnswerOptions(questionType, optionCount);
    forall i, j | 0 <= i < j < |r|
      ensures r[i] != r[j]
    {
      assert r[i][0] != r[j][0];
    }
  }

  /** The exam page's options as (value, label) pairs; a question without an
      option list gives no choice options. */
  function ExamAnswerOptions(questionType: string, options: Option<seq<string>>): (r: seq<(string, string)>)
    ensures var count := if options.Some? then |options.value| else 0;
      && |r| == |AnswerOptions(questionType, count)|
      && forall i :: 0 <= i < |r| ==> r[i].0 == AnswerOptions(questionType, count)[i]
    ensures (questionType == SingleChoice || questionType == MultiChoice) && options.Some? ==>
      forall i :: 0 <= i < |r| ==> r[i].1 == Letter(i) + ". " + options.value[i]
  {
    if questionType == SingleChoice || questionType == MultiChoice then
      var opts := if options.Some? then options.value else [];
      seq(|opts|, i requires 0 <= i < |opts| => (Letter(i), Letter(i) + ". " + opts[i]))
    else if questionType == TrueFalse then [(TrueLabel, TrueLabel), (FalseLabel, FalseLabel)]
    else []
  }

  // ---------------------------------------------------------------------------
  // The multi-choice toggle

  /** The non-blank comma-separated parts of an answer. */
  function Segments(answer: string): seq<string> {
    Filter(Split(answer, ','), (a: string) => !IsBlank(a))
  }

  /** `splice(indexOf(x), 1)`: drops the first copy of `x`, if any. */
  function RemoveFirst(xs: seq<string>, x: string): (r: seq<string>)
    ensures x in xs ==> multiset(r) + multiset{x} == multiset(xs)
    ensures x !in xs ==> r == xs
  {
    match FindFirst(xs, (y: string) => y == x)
    case None => xs
    case Some(k) =>
      RemoveAt(xs, k);
      xs[..k] + xs[k + 1..]
  }

  /** Checking or unchecking a choice: the answer is re-split, blank parts
      are dropped, the letter is appended or its first copy removed, and the
      parts are joined with commas. */
  function MultiToggle(answer: string, letter: string, checked: bool): string {
    var parts := Segments(answer);
    Join(if checked then parts + [letter] else RemoveFirst(parts, letter), ',')
  }

  lemma {:induction false} SplitPartsNoSep(s: string, sep: char)
    ensures forall x :: x in Split(s, sep) ==> sep !in x
    decreases |s|
  {
    if |s| > 0 {
      SplitPartsNoSep(s[1..], sep);
      var rest := Split(s[1..], sep);
      if s[0] != sep {
        assert sep !in rest[0];
        assert forall x :: x in rest[1..] ==> x in rest;
      }
    }
  }

  /** Joining comma-free, non-blank parts and splitting again gives the parts
      back. */
  lemma SegmentsOfJoin(xs: seq<string>)
    requires forall x :: x in xs ==> ',' !in x && !IsBlank(x)
    ensures Segments(Join(xs, ',')) == xs
  {
    if |xs| == 0 {
      assert IsBlank("");
      assert Split("", ',') == [""];
    } else {
      SplitJoin(xs, ',');
      FilterAll(xs, (a: string) => !IsBlank(a));
    }
  }

  /** After a toggle the answer's parts are exactly the old non-blank parts
      with the letter added at the end, or with its first copy taken out. */
  lemma MultiToggleSegments(answer: string, letter: string, checked: bool)
    requires ',' !in letter && !IsBlank(letter)
    ensures var before, after := Segments(answer), Segments(MultiToggle(answer, letter, checked));
      && (checked ==> after == before + [letter])
      && (!checked ==> after == RemoveFirst(before, letter))
      && (!checked && letter in before ==> multiset(after) + multiset{letter} == multiset(before))
      && (!checked && letter !in before ==> after == before)
  {
    var parts := Segments(answer);
    SplitPartsNoSep(answer, ',');
    assert forall x :: x in parts ==> ',' !in x && !IsBlank(x);
    var next := if checked then parts + [letter] else RemoveFirst(parts, letter);
    assert forall x :: x in next ==> x in parts || x == letter by {
      if !checked {
        var k := FindFirst(parts, (y: string) => y == letter);
        if k.Some? {
          assert forall x :: x in next ==> x in parts[..k.value] || x in parts[k.value + 1..];
        }
      }
    }
    SegmentsOfJoin(next);
  }

  /** Taking out the first copy of a letter just appended, when there was no
      earlier copy, gives back the list. */
  lemma RemoveFirstAppended(xs: seq<string>, x: string)
    requires x !in xs
    ensures RemoveFirst(xs + [x], x) == xs
  {
    FindFirstAppend(xs, x, (y: string) => y == x);
    assert (xs + [x])[..|xs|] == xs;
  }

  /** Checking a choice and unchecking it again gives back the same parts, up
      to order; when the letter was not chosen before, exactly the same parts. */
  lemma MultiToggleTwice(answer: string, letter: string)
    requires ',' !in letter && !IsBlank(letter)
    ensures var twice := MultiToggle(MultiToggle(answer, letter, true), letter, false);
      && multiset(Segments(twice)) == multiset(Segments(answer))
      && (letter !in Segments(answer) ==> Segments(twice) == Segments(answer))
  {
    TwiceParts(answer, letter);
    RemoveFirstOfAppended(Segments(answer), letter);
  }

  lemma RemoveFirstOfAppended(xs: seq<string>, x: string)
    ensures multiset(RemoveFirst(xs + [x], x)) == multiset(xs)
    ensures x !in xs ==> RemoveFirst(xs + [x], x) == xs
  {
    var r := RemoveFirst(xs + [x], x);
    assert x in xs + [x];
    assert multiset(xs + [x]) == multiset(xs) + multiset{x};
    assert multiset(r) + multiset{x} == multiset(xs) + multiset{x};
    forall e
      ensures multiset(r)[e] == multiset(xs)[e]
    {
      assert (multiset(r) + multiset{x})[e] == (multiset(xs) + multiset{x})[e];
    }
    if x !in xs {
      RemoveFirstAppended(xs, x);
    }
  }

  lemma TwiceParts(answer: string, letter: string)
    requires ',' !in letter && !IsBlank(letter)
    ensures Segments(MultiToggle(MultiToggle(answer, letter, true), letter, false))
         == RemoveFirst(Segments(answer) + [letter], letter)
  {
    MultiToggleSegments(answer, letter, true);
    MultiToggleSegments(MultiToggle(answer, letter, true), letter, false);
  }

  // ---------------------------------------------------------------------------
  // The exam page

  datatype ExamPage = ExamPage(
    questionIds: seq<int>,       // the session's questions, in order
    index: int,                  // the question on screen
    answers: map<int, string>,   // the answer sheet, by question id
    showResult: bool,            // practice feedback shown
    hasLastAnswer: bool,         // a graded answer is held for the feedback
    timeSpent: int,              // seconds on the current question
    timerRunning: bool,
    finished: bool)              // the exam was handed in and the page left

  function CurrentId(p: ExamPage): Option<int> {
    if 0 <= p.index < |p.questionIds| then Some(p.questionIds[p.index]) else None
  }

  /** `userAnswers[currentQuestion.id] || ''` */
  function CurrentAnswer(p: ExamPage): string {
    match CurrentId(p)
    case None => ""
    case Some(id) => if id in p.answers then p.answers[id] else ""
  }

  /** `handleAnswerChange`: only the current question's entry of the answer
      sheet changes. */
  function AnswerChange(p: ExamPage, answer: string): (r: ExamPage)
    ensures r.(answers := p.answers) == p
    ensures CurrentId(p).None? ==> r == p
    ensures CurrentId(p).Some? ==>
      && CurrentId(p).value in r.answers && r.answers[CurrentId(p).value] == answer
      && CurrentAnswer(r) == answer
      && forall id :: id != CurrentId(p).value ==>
           (id in r.answers <==> id in p.answers) && (id in p.answers ==> r.answers[id] == p.answers[id])
  {
    match CurrentId(p)
    case None => p
    case Some(id) => p.(answers := p.answers[id := answer])
  }

  datatype AnswerRequest = AnswerRequest(questionId: int, answer: string, timeSpent: int)

  /** The guard of `handleSubmitAnswer`: no request without a question on
      screen, without a session id, or with a blank answer. */
  function SubmitRequest(p: ExamPage, hasSessionId: bool): (r: Option<AnswerRequest>)
    ensures r.None? <==> CurrentId(p).None? || !hasSessionId || IsBlank(CurrentAnswer(p))
    ensures r.Some? ==>
      && r.value.questionId == CurrentId(p).value && r.value.questionId in p.questionIds
      && r.value.answer == CurrentAnswer(p) && !IsBlank(r.value.answer)
      && r.value.timeSpent == p.timeSpent
  {
    match CurrentId(p)
    case None => None
    case Some(id) =>
      if !hasSessionId || IsBlank(CurrentAnswer(p)) then None
      else Some(AnswerRequest(id, CurrentAnswer(p), p.timeSpent))
  }

  /** `handleCompleteExam` with a session id, once the request succeeded. */
  function HandIn(p: ExamPage): ExamPage {
    p.(timerRunning := false, finished := true)
  }

  /** What a successful answer request does: the question clock restarts; an
      exam moves to the next question or hands in after the last one; a
      practice session shows the feedback. */
  function AfterAnswer(p: ExamPage, isExam: bool): (r: ExamPage)
    ensures r.questionIds == p.questionIds && r.answers == p.answers && r.hasLastAnswer
    ensures isExam && p.index != |p.questionIds| - 1 ==> r.index == p.index + 1 && r.finished == p.finished
    ensures isExam && p.index == |p.questionIds| - 1 ==> r.finished && !r.timerRunning
    ensures !isExam ==> r.showResult && r.index == p.index && r.timeSpent == 0
  {
    var q := p.(hasLastAnswer := true, timeSpent := 0);
    if isExam then
      if p.index != |p.questionIds| - 1 then q.(index := p.index + 1) else HandIn(q)
    else q.(showResult := true)
  }

  /** `handleNextQuestion` and `handlePrevQuestion` */
  function NextQuestion(p: ExamPage): ExamPage {
    if p.index != |p.questionIds| - 1 then p.(index := p.index + 1, showResult := false, hasLastAnswer := false) else p
  }

  function PrevQuestion(p: ExamPage): ExamPage {
    if p.index != 0 then p.(index := p.index - 1, showResult := false, hasLastAnswer := false) else p
  }

  /** While a question is on screen (the buttons are only rendered then), next
      and previous keep the index on a question, move by one when they move,
      and clear the feedback when they move. */
  lemma NavigationStaysOnQuestions(p: ExamPage)
    requires 0 <= p.index < |p.questionIds|
    ensures var n, b := NextQuestion(p), PrevQuestion(p);
      && 0 <= n.index < |p.questionIds| && 0 <= b.index < |p.questionIds|
      && (n.index != p.index ==> n.index == p.index + 1 && !n.showResult && !n.hasLastAnswer)
      && (b.index != p.index ==> b.index == p.index - 1 && !b.showResult && !b.hasLastAnswer)
      && (p.index < |p.questionIds| - 1 <==> n.index == p.index + 1)
      && (p.index > 0 <==> b.index == p.index - 1)
  {
  }

  // The buttons and a run of clicks

  datatype Action = Type(answer: string) | Next | Prev | SubmitAnswer | HandInExam

  /** Which buttons the page renders. As written, the answer-submit button is
      rendered only in practice mode and the hand-in button only in exam
      mode; the corrected page renders the answer-submit button in both. */
  predicate Shown(a: Action, isExam: bool, corrected: bool) {
    match a
    case SubmitAnswer => !isExam || corrected
    case HandInExam => isExam
    case _ => true
  }

  /** One click, with every request succeeding; returns the requests sent. */
  function Step(p: ExamPage, a: Action, isExam: bool, hasSessionId: bool, corrected: bool)
    : (r: (ExamPage, seq<AnswerRequest>))
    ensures r.0.questionIds == p.questionIds
    ensures |r.1| <= 1
  {
    if p.finished || !Shown(a, isExam, corrected) then (p, [])
    else match a
      case Type(answer) => (AnswerChange(p, answer), [])
      case Next => (NextQuestion(p), [])
      case Prev => (PrevQuestion(p), [])
      case SubmitAnswer =>
        (match SubmitRequest(p, hasSessionId)
         case None => (p, [])
         case Some(req) => (AfterAnswer(p, isExam), [req]))
      case HandInExam => (if hasSessionId then HandIn(p) else p, [])
  }

  function Run(p: ExamPage, acts: seq<Action>, isExam: bool, hasSessionId: bool, corrected: bool)
    : (r: (ExamPage, seq<AnswerRequest>))
    ensures r.0.questionIds == p.questionIds
    decreases |acts|
  {
    if |acts| == 0 then (p, [])
    else
      var (p1, sent1) := Step(p, acts[0], isExam, hasSessionId, corrected);
      var (p2, sent2) := Run(p1, acts[1..], isExam, hasSessionId, corrected);
      (p2, sent1 + sent2)
  }

  /** On either page, whatever is clicked, the index stays on a question and
      every request carries a non-blank answer to one of the session's
      questions. */
  lemma {:induction false} RunKeepsPageConsistent(p: ExamPage, acts: seq<Action>, isExam: bool, hasSessionId: bool, corrected: bool)
    requires 0 <= p.index < |p.questionIds|
    ensures var (p', sent) := Run(p, acts, isExam, hasSessionId, corrected);
      && 0 <= p'.index < |p'.questionIds|
      && forall k :: 0 <= k < |sent| ==> sent[k].questionId in p.questionIds && !IsBlank(sent[k].answer)
    decreases |acts|
  {
    if |acts| > 0 {
      var (p1, sent1) := Step(p, acts[0], isExam, hasSessionId, corrected);
      StepKeepsPageConsistent(p, acts[0], isExam, hasSessionId, corrected);
      RunKeepsPageConsistent(p1, acts[1..], isExam, hasSessionId, corrected);
    }
  }

  lemma StepKeepsPageConsistent(p: ExamPage, a: Action, isExam: bool, hasSessionId: bool, corrected: bool)
    requires 0 <= p.index < |p.questionIds|
    ensures var (p', sent) := Step(p, a, isExam, hasSessionId, corrected);
      && 0 <= p'.index < |p'.questionIds|
      && forall k :: 0 <= k < |sent| ==> sent[k].questionId in p.questionIds && !IsBlank(sent[k].answer)
  {
    if !p.finished && Shown(a, isExam, corrected) {
      match a
      case Type(answer) =>
      case Next => NavigationStaysOnQuestions(p);
      case Prev => NavigationStaysOnQuestions(p);
      case SubmitAnswer =>
        assert AfterAnswer(p, isExam).index == p.index || AfterAnswer(p, isExam).index == p.index + 1 < |p.questionIds|;
      case HandInExam =>
    }
  }

  /** As written, an exam sends no answer at all, whatever the candidate
      clicks: the only button that sends answers is not rendered in exam
      mode, so the hand-in grades an empty answer sheet. */
  lemma {:induction false} ExamSendsNoAnswersAsWritten(p: ExamPage, acts: seq<Action>, hasSessionId: bool)
    ensures Run(p, acts, true, hasSessionId, false).1 == []
    decreases |acts|
  {
    if |acts| > 0 {
      var (p1, sent1) := Step(p, acts[0], true, hasSessionId, false);
      assert sent1 == [];
      ExamSendsNoAnswersAsWritten(p1, acts[1..], hasSessionId);
    }
  }

  /** With the button rendered, typing an answer and submitting it in an exam
      sends that answer for the question on screen, then moves on to the next
      question or hands in after the last. */
  lemma ExamSendsAnswerCorrected(p: ExamPage, answer: string)
    requires 0 <= p.index < |p.questionIds| && !p.finished
    requires !IsBlank(answer)
    ensures var (p', sent) := Run(p, [Type(answer), SubmitAnswer], true, true, true);
      && sent == [AnswerRequest(p.questionIds[p.index], answer, p.timeSpent)]
      && p.questionIds[p.index] in p'.answers && p'.answers[p.questionIds[p.index]] == answer
      && (p.index < |p.questionIds| - 1 ==> p'.index == p.index + 1 && !p'.finished)
      && (p.index == |p.questionIds| - 1 ==> p'.finished)
  {
    var p1 := AnswerChange(p, answer);
    assert Step(p, Type(answer), true, true, true) == (p1, []);
    assert SubmitRequest(p1, true) == Some(AnswerRequest(p.questionIds[p.index], answer, p.timeSpent));
    assert Run(p1, [SubmitAnswer], true, true, true).1 == [AnswerRequest(p.questionIds[p.index], answer, p.timeSpent)] by {
      assert [SubmitAnswer][1..] == [];
    }
    assert [Type(answer), SubmitAnswer][1..] == [SubmitAnswer];
  }

  // ---------------------------------------------------------------------------
  // The exam-setup form

  datatype ExamSettings = ExamSettings(totalQuestions: int, singleRatio: int, multiRatio: int, boolRatio: int, timeLimit: int)

  const DefaultSettings: ExamSettings := ExamSettings(10, 40, 30, 30, 30)

  /** `validateSettings`: an exam needs ratios summing to 100 and between 1
      and 100 questions; practice settings are always accepted. */
  function ValidateSettings(isExam: bool, s: ExamSettings): (ok: bool) {
    !isExam || (s.singleRatio + s.multiRatio + s.boolRatio == 100 && 1 <= s.totalQuestions <= 100)
  }

  /** The defaults pass, and every accepted exam setting with non-negative
      ratios asks the server for at most 100 questions and gets exactly the
      number asked for, or the whole bank when that is smaller. */
  lemma AcceptedSettingsBoundTheExam(s: ExamSettings, qs: seq<ExamGeneration.Question>, bankId: int, picks: ExamGeneration.ExamPicks)
    requires ValidateSettings(true, s)
    requires 0 <= s.singleRatio && 0 <= s.multiRatio && 0 <= s.boolRatio
    requires NoDup(ExamGeneration.ActiveInBank(qs, bankId))
    ensures ValidateSettings(true, DefaultSettings) && ValidateSettings(false, s)
    ensures var exam := ExamGeneration.GenerateExamQuestions(qs, bankId, s.totalQuestions, s.singleRatio, s.multiRatio, picks);
      && |exam| <= s.totalQuestions <= 100
      && |exam| == Min(s.totalQuestions, |ExamGeneration.ActiveInBank(qs, bankId)|)
  {
    ExamGeneration.ExamSize(qs, bankId, s.totalQuestions, s.singleRatio, s.multiRatio, picks);
  }

  // Numeric inputs

  /** The run of digits at the start of `s`. */
  function LeadingDigits(s: string): (r: string)
    ensures AllDigits(r) && StartsWith(s, r)
    ensures |r| < |s| ==> !IsDigit(s[|r|])
  {
    if |s| > 0 && IsDigit(s[0]) then [s[0]] + LeadingDigits(s[1..]) else ""
  }

  /** JavaScript `parseInt(s)` in base ten: leading whitespace, an optional
      sign, then as many digits as there are; `NaN` (here None) without a
      digit. */
  function JsParseInt(s: string): (r: Option<int>) {
    var t := TrimStart(JavaScript, s);
    var negative := |t| > 0 && t[0] == '-';
    var body := if |t| > 0 && (t[0] == '-' || t[0] == '+') then t[1..] else t;
    var digits := LeadingDigits(body);
    if digits == "" then None
    else
      var magnitude: int := ParseDigits(digits);
      Some(if negative then -magnitude else magnitude)
  }

  /** `parseInt(value) || fallback`: `NaN` and 0 are both falsy. */
  function ParseOr(value: string, fallback: int): (r: int)
    ensures r == fallback || (JsParseInt(value).Some? && r == JsParseInt(value).value)
    ensures r != 0 || fallback == 0
  {
    match JsParseInt(value)
    case None => fallback
    case Some(n) => if n == 0 then fallback else n
  }

  /** The fields' fallbacks: question count 1, ratios 0, time limit 30. */
  function TotalInput(value: string): int { ParseOr(value, 1) }
  function RatioInput(value: string): int { ParseOr(value, 0) }
  function TimeLimitInput(value: string): int { ParseOr(value, 30) }

  /** A plain number is read as itself. */
  lemma JsParseIntDigits(value: string)
    requires |value| > 0 && AllDigits(value)
    ensures JsParseInt(value) == Some(ParseDigits(value))
  {
    TrimStartAtDigit(value);
    AllDigitsLeading(value);
    var t := TrimStart(JavaScript, value);
    assert t == value;
    assert !(|t| > 0 && (t[0] == '-' || t[0] == '+'));
    assert LeadingDigits(t) == value;
  }

  lemma TrimStartAtDigit(s: string)
    requires |s| > 0 && IsDigit(s[0])
    ensures TrimStart(JavaScript, s) == s
  {
    assert !IsSpaceIn(JavaScript, s[0]);
  }

  /** A plain non-zero number is read as itself; an empty or non-numeric
      field falls back to 1, 0 and 30; a question count or time limit is
      never 0. */
  lemma NumericInputs(value: string)
    ensures |value| > 0 && AllDigits(value) && ParseDigits(value) != 0 ==>
      TotalInput(value) == ParseDigits(value) && RatioInput(value) == ParseDigits(value)
      && TimeLimitInput(value) == ParseDigits(value)
    ensures JsParseInt(value).None? ==> TotalInput(value) == 1 && RatioInput(value) == 0 && TimeLimitInput(value) == 30
    ensures TotalInput(value) != 0 && TimeLimitInput(value) != 0
  {
    if |value| > 0 && AllDigits(value) {
      JsParseIntDigits(value);
    }
  }

  /** An emptied field reads as no number. */
  lemma EmptyFieldIsNaN()
    ensures JsParseInt("") == None
    ensures TotalInput("") == 1 && RatioInput("") == 0 && TimeLimitInput("") == 30
  {
  }

  lemma {:induction false} AllDigitsLeading(s: string)
    requires AllDigits(s)
    ensures LeadingDigits(s) == s
    decreases |s|
  {
    if |s| > 0 {
      AllDigitsLeading(s[1..]);
    }
  }
}
