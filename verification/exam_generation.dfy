/** Choosing the questions of an exam or a practice run from a question bank.
    An exam splits its question count across single-choice, multi-choice and
    true/false questions by percentage, draws that many of each type at
    random, tops up from any active question of the bank when short, and
    shuffles. Practice takes the whole bank in bank order, reversed, or
    shuffled. */
module ExamGeneration {
  import opened Common
  import opened AnswerCheck
  import opened RandomChoice

  /** A row of the `questions` table. */
  datatype Question = Question(
    id: int,
    bankId: int,
    qtype: string,
    text: string,
    answer: string,
    score: int,
    isActive: bool)

  predicate InBank(q: Question, bankId: int) {
    q.bankId == bankId && q.isActive
  }

  /** The bank's active questions in query order. */
  function ActiveInBank(qs: seq<Question>, bankId: int): (r: seq<Question>)
    ensures forall q :: q in r <==> q in qs && InBank(q, bankId)
  {
    Filter(qs, (q: Question) => InBank(q, bankId))
  }

  function ActiveOfType(qs: seq<Question>, bankId: int, qtype: string): (r: seq<Question>)
    ensures forall q :: q in r <==> q in qs && InBank(q, bankId) && q.qtype == qtype
  {
    Filter(qs, (q: Question) => InBank(q, bankId) && q.qtype == qtype)
  }

  // ---------------------------------------------------------------------------
  // How many of each type

  datatype Counts = Counts(single: int, multi: int, trueFalse: int)

  /** `int(total * ratio / 100)` for the two choice types; true/false questions
      get whatever is left. The true/false ratio itself is never read. */
  function ExamCounts(total: int, singleRatio: int, multiRatio: int): (c: Counts)
    ensures c.single + c.multi + c.trueFalse == total
  {
    var single := TruncDiv(total * singleRatio, 100);
    var multi := TruncDiv(total * multiRatio, 100);
    Counts(single, multi, total - single - multi)
  }

  /** With a non-negative total and ratios whose choice part is at most 100,
      each count is the rounded-down share and none is negative. */
  lemma CountsAreShares(total: int, singleRatio: int, multiRatio: int)
    requires 0 <= total && 0 <= singleRatio && 0 <= multiRatio && singleRatio + multiRatio <= 100
    ensures var c := ExamCounts(total, singleRatio, multiRatio);
      && 0 <= c.single && 0 <= c.multi && 0 <= c.trueFalse
      && c.single * 100 <= total * singleRatio < (c.single + 1) * 100
      && c.multi * 100 <= total * multiRatio < (c.multi + 1) * 100
  {
    var c := ExamCounts(total, singleRatio, multiRatio);
    var a, b := total * singleRatio, total * multiRatio;
    assert a >= 0 && b >= 0;
    assert c.single == a / 100 && c.multi == b / 100;
    assert c.single * 100 <= a && c.multi * 100 <= b;
    assert a + b == total * (singleRatio + multiRatio);
    MulLe(singleRatio + multiRatio, 100, total);
    assert (c.single + c.multi) * 100 <= total * 100;
  }

  lemma MulLe(a: int, b: int, n: int)
    requires n >= 0
    ensures a <= b ==> n * a <= n * b
  {
  }

  /** The defaults 40/30/30 on ten questions give four, three and three. */
  lemma DefaultCounts()
    ensures ExamCounts(10, 40, 30) == Counts(4, 3, 3)
  {
  }

  // ---------------------------------------------------------------------------
  // Drawing the exam

  /** Draws `min(count, |xs|)` items when `count` is positive and `xs` is not
      empty, and nothing otherwise. */
  function TakeUpTo(xs: seq<Question>, count: int, picks: seq<int>): (r: seq<Question>)
    ensures multiset(r) <= multiset(xs)
    ensures count > 0 ==> |r| == Min(count, |xs|)
    ensures count <= 0 ==> r == []
  {
    if count > 0 && |xs| > 0 then Sample(xs, Min(count, |xs|), picks) else []
  }

  /** The random source of one exam: one pick list per draw. */
  datatype ExamPicks = ExamPicks(
    single: seq<int>,
    multi: seq<int>,
    trueFalse: seq<int>,
    topUp: seq<int>,
    order: seq<int>)

  function Selected(qs: seq<Question>, bankId: int, c: Counts, picks: ExamPicks): seq<Question> {
    TakeUpTo(ActiveOfType(qs, bankId, SingleChoice), c.single, picks.single)
      + TakeUpTo(ActiveOfType(qs, bankId, MultiChoice), c.multi, picks.multi)
      + TakeUpTo(ActiveOfType(qs, bankId, TrueFalse), c.trueFalse, picks.trueFalse)
  }

  /** The bank's active questions that were not drawn yet. */
  function NotYetDrawn(qs: seq<Question>, bankId: int, sel: seq<Question>): seq<Question> {
    Filter(ActiveInBank(qs, bankId), (q: Question) => q !in sel)
  }

  function ToppedUp(qs: seq<Question>, bankId: int, total: int, sel: seq<Question>, picks: seq<int>): seq<Question> {
    if |sel| < total then sel + TakeUpTo(NotYetDrawn(qs, bankId, sel), total - |sel|, picks)
    else sel
  }

  function GenerateExamQuestions(qs: seq<Question>, bankId: int, total: int,
                                 singleRatio: int, multiRatio: int, picks: ExamPicks): seq<Question>
  {
    var sel := Selected(qs, bankId, ExamCounts(total, singleRatio, multiRatio), picks);
    Shuffle(ToppedUp(qs, bankId, total, sel, picks.topUp), picks.order)
  }

  /** The three typed draws together never use a question more often than the
      bank holds it. */
  lemma SelectedFromBank(qs: seq<Question>, bankId: int, c: Counts, picks: ExamPicks)
    ensures multiset(Selected(qs, bankId, c, picks)) <= multiset(ActiveInBank(qs, bankId))
  {
    var s := ActiveOfType(qs, bankId, SingleChoice);
    var m := ActiveOfType(qs, bankId, MultiChoice);
    var t := ActiveOfType(qs, bankId, TrueFalse);
    var a := ActiveInBank(qs, bankId);
    var ds := TakeUpTo(s, c.single, picks.single);
    var dm := TakeUpTo(m, c.multi, picks.multi);
    var dt := TakeUpTo(t, c.trueFalse, picks.trueFalse);
    forall x
      ensures multiset(ds + dm + dt)[x] <= multiset(a)[x]
    {
      FilterCount(qs, (q: Question) => InBank(q, bankId) && q.qtype == SingleChoice, x);
      FilterCount(qs, (q: Question) => InBank(q, bankId) && q.qtype == MultiChoice, x);
      FilterCount(qs, (q: Question) => InBank(q, bankId) && q.qtype == TrueFalse, x);
      FilterCount(qs, (q: Question) => InBank(q, bankId), x);
      assert multiset(ds)[x] <= multiset(s)[x];
      assert multiset(dm)[x] <= multiset(m)[x];
      assert multiset(dt)[x] <= multiset(t)[x];
    }
  }

  /** Topping up draws only questions not drawn yet. */
  lemma ToppedUpFromBank(qs: seq<Question>, bankId: int, total: int, sel: seq<Question>, picks: seq<int>)
    requires multiset(sel) <= multiset(ActiveInBank(qs, bankId))
    ensures multiset(ToppedUp(qs, bankId, total, sel, picks)) <= multiset(ActiveInBank(qs, bankId))
  {
    if |sel| < total {
      var a := ActiveInBank(qs, bankId);
      var rem := NotYetDrawn(qs, bankId, sel);
      var f := TakeUpTo(rem, total - |sel|, picks);
      forall x
        ensures multiset(sel + f)[x] <= multiset(a)[x]
      {
        FilterCount(a, (q: Question) => q !in sel, x);
        assert multiset(f)[x] <= multiset(rem)[x];
      }
    }
  }

  /** Every exam question is an active question of the bank, and none is used
      more often than the bank holds it. */
  lemma ExamFromBank(qs: seq<Question>, bankId: int, total: int, singleRatio: int, multiRatio: int, picks: ExamPicks)
    ensures var r := GenerateExamQuestions(qs, bankId, total, singleRatio, multiRatio, picks);
      && multiset(r) <= multiset(ActiveInBank(qs, bankId))
      && forall q :: q in r ==> q in qs && InBank(q, bankId)
  {
    var c := ExamCounts(total, singleRatio, multiRatio);
    var sel := Selected(qs, bankId, c, picks);
    SelectedFromBank(qs, bankId, c, picks);
    ToppedUpFromBank(qs, bankId, total, sel, picks.topUp);
    var r := GenerateExamQuestions(qs, bankId, total, singleRatio, multiRatio, picks);
    forall q | q in r
      ensures q in ActiveInBank(qs, bankId)
    {
      assert q in multiset(r);
    }
  }

  /** An exam is never longer than the bank's list of active questions, and
      every question in it is one of them. */
  lemma ExamFitsBank(qs: seq<Question>, bankId: int, total: int, singleRatio: int, multiRatio: int, picks: ExamPicks)
    ensures var r := GenerateExamQuestions(qs, bankId, total, singleRatio, multiRatio, picks);
      && |r| <= |ActiveInBank(qs, bankId)|
      && forall q :: q in r ==> q in ActiveInBank(qs, bankId)
  {
    ExamFromBank(qs, bankId, total, singleRatio, multiRatio, picks);
    SubMultiset(GenerateExamQuestions(qs, bankId, total, singleRatio, multiRatio, picks), ActiveInBank(qs, bankId));
  }

  /** A bank without repeated rows (every row has its own primary key) gives an
      exam without repeated questions. */
  lemma ExamNoDuplicates(qs: seq<Question>, bankId: int, total: int, singleRatio: int, multiRatio: int, picks: ExamPicks)
    requires NoDup(ActiveInBank(qs, bankId))
    ensures NoDup(GenerateExamQuestions(qs, bankId, total, singleRatio, multiRatio, picks))
  {
    ExamFromBank(qs, bankId, total, singleRatio, multiRatio, picks);
    var r := GenerateExamQuestions(qs, bankId, total, singleRatio, multiRatio, picks);
    forall x | x in multiset(r)
      ensures multiset(r)[x] <= 1
    {
      assert x in multiset(ActiveInBank(qs, bankId));
    }
  }

  /** Under ratios that keep every count non-negative, the exam never has more
      questions than asked for. */
  lemma ExamAtMostTotal(qs: seq<Question>, bankId: int, total: int, singleRatio: int, multiRatio: int, picks: ExamPicks)
    requires 0 <= total && 0 <= singleRatio && 0 <= multiRatio && singleRatio + multiRatio <= 100
    ensures |GenerateExamQuestions(qs, bankId, total, singleRatio, multiRatio, picks)| <= total
  {
    var sel := Selected(qs, bankId, ExamCounts(total, singleRatio, multiRatio), picks);
    SelectedAtMostTotal(qs, bankId, total, singleRatio, multiRatio, picks);
    assert |ToppedUp(qs, bankId, total, sel, picks.topUp)| <= total;
  }

  /** The counts' signs alone, without the arithmetic behind them. */
  lemma CountsNonNegative(total: int, singleRatio: int, multiRatio: int)
    requires 0 <= total && 0 <= singleRatio && 0 <= multiRatio && singleRatio + multiRatio <= 100
    ensures var c := ExamCounts(total, singleRatio, multiRatio);
      0 <= c.single && 0 <= c.multi && 0 <= c.trueFalse && c.single + c.multi + c.trueFalse == total
  {
    CountsAreShares(total, singleRatio, multiRatio);
  }

  /** With no repeated rows, what was drawn and what is left make up the
      bank exactly. */
  lemma DrawnAndLeftMakeBank(qs: seq<Question>, bankId: int, sel: seq<Question>)
    requires NoDup(ActiveInBank(qs, bankId))
    requires multiset(sel) <= multiset(ActiveInBank(qs, bankId))
    ensures |sel| + |NotYetDrawn(qs, bankId, sel)| == |ActiveInBank(qs, bankId)|
  {
    var a := ActiveInBank(qs, bankId);
    var rem := NotYetDrawn(qs, bankId, sel);
    forall x
      ensures multiset(sel)[x] + multiset(rem)[x] == multiset(a)[x]
    {
      FilterCount(a, (q: Question) => q !in sel, x);
      if x in sel {
        assert x in multiset(sel);
        assert x in multiset(a);
      }
    }
    assert multiset(sel) + multiset(rem) == multiset(a);
    assert |multiset(sel) + multiset(rem)| == |multiset(a)|;
  }

  lemma SelectedAtMostTotal(qs: seq<Question>, bankId: int, total: int, singleRatio: int, multiRatio: int, picks: ExamPicks)
    requires 0 <= total && 0 <= singleRatio && 0 <= multiRatio && singleRatio + multiRatio <= 100
    ensures |Selected(qs, bankId, ExamCounts(total, singleRatio, multiRatio), picks)| <= total
  {
    CountsNonNegative(total, singleRatio, multiRatio);
  }

  /** Under the same ratios, and with a bank without repeated rows, the exam
      has exactly as many questions as asked for, or the whole bank when the
      bank is smaller. */
  lemma ExamSize(qs: seq<Question>, bankId: int, total: int, singleRatio: int, multiRatio: int, picks: ExamPicks)
    requires 0 <= total && 0 <= singleRatio && 0 <= multiRatio && singleRatio + multiRatio <= 100
    requires NoDup(ActiveInBank(qs, bankId))
    ensures |GenerateExamQuestions(qs, bankId, total, singleRatio, multiRatio, picks)|
         == Min(total, |ActiveInBank(qs, bankId)|)
  {
    var c := ExamCounts(total, singleRatio, multiRatio);
    var sel := Selected(qs, bankId, c, picks);
    SelectedFromBank(qs, bankId, c, picks);
    SelectedAtMostTotal(qs, bankId, total, singleRatio, multiRatio, picks);
    DrawnAndLeftMakeBank(qs, bankId, sel);
    ToppedUpSize(qs, bankId, total, sel, picks.topUp);
  }

  /** Topping up a draw of at most `total` questions reaches `total`, or the
      whole bank when the draw and what is left of the bank fall short. */
  lemma ToppedUpSize(qs: seq<Question>, bankId: int, total: int, sel: seq<Question>, picks: seq<int>)
    requires |sel| <= total
    requires |sel| + |NotYetDrawn(qs, bankId, sel)| == |ActiveInBank(qs, bankId)|
    ensures |ToppedUp(qs, bankId, total, sel, picks)| == Min(total, |ActiveInBank(qs, bankId)|)
  {
  }

  /** The bound needs the ratio conditions: with a negative single-choice ratio
      (which still sums to 100 with the others, so the exam-setup form accepts
      it) a two-question exam comes out with three questions. */
  lemma NegativeRatioOverflow()
    ensures var qs := [Question(1, 1, MultiChoice, "", "A", 1, true),
                       Question(2, 1, TrueFalse, "", "正确", 1, true),
                       Question(3, 1, TrueFalse, "", "错误", 1, true)];
      |GenerateExamQuestions(qs, 1, 2, -50, 50, ExamPicks([], [], [], [], []))| == 3
  {
    var qs := [Question(1, 1, MultiChoice, "", "A", 1, true),
               Question(2, 1, TrueFalse, "", "正确", 1, true),
               Question(3, 1, TrueFalse, "", "错误", 1, true)];
    var c := ExamCounts(2, -50, 50);
    assert c == Counts(-1, 1, 2);
    assert MultiChoice != TrueFalse;
    var m := (q: Question) => InBank(q, 1) && q.qtype == MultiChoice;
    var t := (q: Question) => InBank(q, 1) && q.qtype == TrueFalse;
    assert Filter(qs[2..], m) == [];
    assert Filter(qs[1..], m) == [];
    assert Filter(qs, m) == [qs[0]];
    assert Filter(qs[2..], t) == [qs[2]];
    assert Filter(qs[1..], t) == [qs[1], qs[2]];
    assert Filter(qs, t) == [qs[1], qs[2]];
    assert |ActiveOfType(qs, 1, MultiChoice)| == 1;
    assert |ActiveOfType(qs, 1, TrueFalse)| == 2;
  }

  // ---------------------------------------------------------------------------
  // Practice

  const InOrder: string := "顺序"
  const Reversed: string := "逆序"
  const Random: string := "随机"

  /** All of the bank's active questions: reversed for "逆序", shuffled for
      "随机", in bank order for anything else. */
  function GeneratePracticeQuestions(qs: seq<Question>, bankId: int, order: string, picks: seq<int>): (r: seq<Question>)
    ensures multiset(r) == multiset(ActiveInBank(qs, bankId))
  {
    var a := ActiveInBank(qs, bankId);
    ReverseMultiset(a);
    if order == Reversed then Reverse(a)
    else if order == Random then Shuffle(a, picks)
    else a
  }

  /** "逆序" gives the bank order back to front; any order other than "逆序"
      and "随机" (in particular "顺序") keeps the bank order. */
  lemma PracticeOrders(qs: seq<Question>, bankId: int, order: string, picks: seq<int>)
    ensures var a := ActiveInBank(qs, bankId);
      var r := GeneratePracticeQuestions(qs, bankId, order, picks);
      && (order == Reversed ==> forall i :: 0 <= i < |a| ==> r[i] == a[|a| - 1 - i])
      && (order != Reversed && order != Random ==> r == a)
  {
  }
}
