/** The client pages of the sum-of-1000 challenge: the clock display, the
    exercise page's page window and page guard, and the challenge page's page
    switch, number selection, sum button, reset and submit button. */
module ClientChallenge {
  import opened Common

  const TotalPages: int := 100
  const MaxVisiblePages: int := 10

  // ---------------------------------------------------------------------------
  // The elapsed-time display

  /** `padStart(2, '0')` */
  function PadStart2(s: string): (r: string)
    ensures |r| >= 2
  {
    if |s| == 0 then "00" else if |s| == 1 then "0" + s else s
  }

  /** `formatTime` of both challenge pages and of the exam page: HH:MM:SS,
      each part at least two digits. The timers only count up from zero, so
      the seconds are never negative and JavaScript's `%` agrees with the
      Euclidean one. */
  function FormatClock(seconds: nat): string {
    var hours := seconds / 3600;
    var minutes := (seconds % 3600) / 60;
    var secs := seconds % 60;
    PadStart2(NatToString(hours)) + ":" + PadStart2(NatToString(minutes)) + ":" + PadStart2(NatToString(secs))
  }

  lemma {:induction false} LeadingZero(s: string)
    requires AllDigits(s)
    ensures AllDigits("0" + s) && ParseDigits("0" + s) == ParseDigits(s)
    decreases |s|
  {
    if |s| > 0 {
      var t := "0" + s;
      assert t[..|t| - 1] == "0" + s[..|s| - 1];
      LeadingZero(s[..|s| - 1]);
    }
  }

  lemma PadKeepsValue(n: nat)
    ensures AllDigits(PadStart2(NatToString(n)))
    ensures ParseDigits(PadStart2(NatToString(n))) == n
    ensures ':' !in PadStart2(NatToString(n))
  {
    var s := NatToString(n);
    ParseNatToString(n);
    LeadingZero(s);
    var p := PadStart2(s);
    assert forall i :: 0 <= i < |p| ==> p[i] != ':' by {
      assert AllDigits(p);
    }
  }

  /** Three separator-free fields joined by colons split back into them. */
  lemma ThreeFields(a: string, b: string, c: string)
    requires ':' !in a && ':' !in b && ':' !in c
    ensures Split(a + ":" + b + ":" + c, ':') == [a, b, c]
  {
    var xs := [a, b, c];
    assert xs[1..][1..] == [c];
    assert Join(xs[1..], ':') == b + ":" + c;
    assert Join(xs, ':') == a + ":" + b + ":" + c;
    SplitJoin(xs, ':');
  }

  /** Hours, minutes and seconds of a count of seconds, and their bounds. */
  lemma ClockParts(seconds: nat)
    ensures (seconds % 3600) / 60 < 60 && seconds % 60 < 60
    ensures (seconds / 3600) * 3600 + ((seconds % 3600) / 60) * 60 + seconds % 60 == seconds
  {
    assert seconds % 3600 == ((seconds % 3600) / 60) * 60 + (seconds % 3600) % 60;
    assert (seconds % 3600) % 60 == seconds % 60;
  }

  /** The display reads back as the time it shows: three numeric fields,
      minutes and seconds below 60, adding up to the elapsed seconds. */
  lemma FormatClockRoundTrip(seconds: nat)
    ensures var parts := Split(FormatClock(seconds), ':');
      && |parts| == 3
      && (forall k :: 0 <= k < 3 ==> |parts[k]| >= 2 && AllDigits(parts[k]))
      && ParseDigits(parts[1]) < 60 && ParseDigits(parts[2]) < 60
      && ParseDigits(parts[0]) * 3600 + ParseDigits(parts[1]) * 60 + ParseDigits(parts[2]) == seconds
  {
    var h, m, s := seconds / 3600, (seconds % 3600) / 60, seconds % 60;
    var ph, pm, ps := PadStart2(NatToString(h)), PadStart2(NatToString(m)), PadStart2(NatToString(s));
    PadKeepsValue(h);
    PadKeepsValue(m);
    PadKeepsValue(s);
    ThreeFields(ph, pm, ps);
    assert FormatClock(seconds) == ph + ":" + pm + ":" + ps;
    ClockParts(seconds);
  }

  // ---------------------------------------------------------------------------
  // The exercise page

  /** The first and last page button shown around the current page. */
  function PageWindow(currentPage: int): (w: (int, int)) {
    var start := Max(1, currentPage - MaxVisiblePages / 2);
    var end := Min(TotalPages, start + MaxVisiblePages - 1);
    if end == TotalPages then (Max(1, end - MaxVisiblePages + 1), end) else (start, end)
  }

  /** Whatever the current page, the window is ten pages inside 1..100, and it
      shows the current page exactly when that page exists. */
  lemma PageWindowBounds(currentPage: int)
    ensures var (start, end) := PageWindow(currentPage);
      && 1 <= start <= end <= TotalPages
      && end - start + 1 == MaxVisiblePages
      && (start <= currentPage <= end <==> 1 <= currentPage <= TotalPages)
  {
  }

  /** The exercise page's state that navigation touches. */
  datatype DetailState = DetailState(currentPage: int, hasResult: bool)

  /** `handlePageChange`: pages outside 1..100 (and a missing route id) are
      ignored; otherwise the page switches and the last result is cleared.
      Fetching the page is left to the server model. */
  function DetailPageChange(st: DetailState, page: int, hasId: bool): (r: DetailState)
    ensures page < 1 || page > TotalPages || !hasId ==> r == st
    ensures 1 <= page <= TotalPages && hasId ==> r.currentPage == page && !r.hasResult
  {
    if page < 1 || page > TotalPages || !hasId then st else st.(currentPage := page, hasResult := false)
  }

  /** The previous and next buttons, each a page change that the button's
      disabled state suppresses at the ends. */
  function PrevPage(st: DetailState, hasId: bool): DetailState {
    if st.currentPage == 1 then st else DetailPageChange(st, st.currentPage - 1, hasId)
  }

  function NextPage(st: DetailState, hasId: bool): DetailState {
    if st.currentPage == TotalPages then st else DetailPageChange(st, st.currentPage + 1, hasId)
  }

  /** Any sequence of clicks on the previous, next and numbered buttons keeps
      the current page inside 1..100. */
  lemma NavigationStaysInRange(st: DetailState, hasId: bool, page: int)
    requires 1 <= st.currentPage <= TotalPages
    ensures 1 <= PrevPage(st, hasId).currentPage <= TotalPages
    ensures 1 <= NextPage(st, hasId).currentPage <= TotalPages
    ensures 1 <= DetailPageChange(st, page, hasId).currentPage <= TotalPages
    ensures hasId && st.currentPage < TotalPages ==> NextPage(st, hasId).currentPage == st.currentPage + 1
    ensures hasId && st.currentPage > 1 ==> PrevPage(st, hasId).currentPage == st.currentPage - 1
  {
  }

  // ---------------------------------------------------------------------------
  // The challenge page

  datatype PageData = PageData(pageNumber: int, numbers: Option<seq<int>>, startIndex: int, endIndex: int)

  datatype ChallengeView = ChallengeView(
    numbers: Option<seq<seq<int>>>,     // the loaded challenge's pages, if loaded
    isCompleted: bool,
    currentPage: int,
    pageData: Option<PageData>,
    selected: seq<int>,
    answer: string,
    hasResult: bool,
    isSubmitting: bool,
    timeSpent: int,
    timerRunning: bool)

  /** `handlePageChange` of the challenge page: no range check of its own (the
      buttons only offer 1..100); a page outside the data shows no numbers,
      as indexing past a JavaScript array gives `undefined`. */
  function ChallengePageChange(v: ChallengeView, page: int): (r: ChallengeView)
    ensures v.numbers.None? ==> r == v
    ensures v.numbers.Some? ==>
      && r.currentPage == page && r.selected == [] && r.answer == "" && !r.hasResult
      && r.pageData.Some?
      && r.pageData.value.startIndex == (page - 1) * 10 + 1
      && r.pageData.value.endIndex == page * 10
      && r.pageData.value.endIndex - r.pageData.value.startIndex + 1 == 10
      && (1 <= page <= |v.numbers.value| ==> r.pageData.value.numbers == Some(v.numbers.value[page - 1]))
      && r.timeSpent == v.timeSpent
  {
    match v.numbers
    case None => v
    case Some(pages) =>
      var row := if 1 <= page <= |pages| then Some(pages[page - 1]) else None;
      v.(currentPage := page,
         pageData := Some(PageData(page, row, (page - 1) * 10 + 1, page * 10)),
         selected := [], answer := "", hasResult := false)
  }

  /** `handleNumberClick`: the selection holds values, so a click removes
      every copy of a selected value, or appends an unselected one. */
  function Toggle(selected: seq<int>, x: int): (r: seq<int>)
    ensures x in r <==> x !in selected
    ensures forall y :: y != x ==> (y in r <==> y in selected)
  {
    if x in selected then Filter(selected, (n: int) => n != x) else selected + [x]
  }

  /** Clicking a value twice gives back the same set of selected values, and
      exactly the same list when the value was not selected before. The
      selection never holds a value twice. */
  lemma ToggleTwice(selected: seq<int>, x: int)
    ensures forall y :: y in Toggle(Toggle(selected, x), x) <==> y in selected
    ensures x !in selected ==> Toggle(Toggle(selected, x), x) == selected
    ensures NoDup(selected) ==> NoDup(Toggle(selected, x))
  {
    if x !in selected {
      var s' := selected + [x];
      FilterAll(selected, (n: int) => n != x);
      assert Filter(s', (n: int) => n != x) == Filter(selected, (n: int) => n != x) by {
        FilterAppendDrop(selected, x);
      }
    }
    if NoDup(selected) {
      var r := Toggle(selected, x);
      forall y | y in multiset(r)
        ensures multiset(r)[y] <= 1
      {
        if x in selected {
          FilterMultisetLe(selected, (n: int) => n != x);
        } else {
          assert multiset(r) == multiset(selected) + multiset{x};
          if y != x {
            assert multiset(r)[y] == multiset(selected)[y];
          } else {
            assert multiset(selected)[x] == 0;
          }
        }
      }
    }
  }

  lemma {:induction false} FilterAppendDrop(s: seq<int>, x: int)
    ensures Filter(s + [x], (n: int) => n != x) == Filter(s, (n: int) => n != x)
    decreases |s|
  {
    if |s| > 0 {
      assert (s + [x])[1..] == s[1..] + [x];
      FilterAppendDrop(s[1..], x);
    } else {
      assert [x][1..] == [];
    }
  }

  /** `calculateSum`: the answer box receives the decimal sum of the
      selection. */
  function CalculateSum(v: ChallengeView): (r: ChallengeView)
    ensures ParseInt(r.answer) == Some(Sum(v.selected))
    ensures r.selected == v.selected && r.currentPage == v.currentPage
  {
    IntToStringRoundTrip(Sum(v.selected));
    v.(answer := IntToString(Sum(v.selected)))
  }

  /** `resetChallenge`: everything the player entered is cleared and the
      clock restarts from zero; the page and the data stay. */
  function Reset(v: ChallengeView): (r: ChallengeView)
    ensures r.answer == "" && r.selected == [] && !r.hasResult && r.timeSpent == 0 && r.timerRunning
    ensures r.currentPage == v.currentPage && r.numbers == v.numbers && r.isCompleted == v.isCompleted
  {
    v.(answer := "", selected := [], hasResult := false, timeSpent := 0, timerRunning := true)
  }

  /** The submit button's disabled state. */
  predicate SubmitDisabled(v: ChallengeView) {
    v.isSubmitting || IsBlank(v.answer) || v.isCompleted
  }

  /** After a reset, or right after a page change, nothing can be submitted
      until an answer is entered; once the sum button has been pressed on an
      open challenge, submitting is possible. */
  lemma SubmitButtonStates(v: ChallengeView, page: int)
    ensures SubmitDisabled(Reset(v))
    ensures v.numbers.Some? ==> SubmitDisabled(ChallengePageChange(v, page))
    ensures !v.isSubmitting && !v.isCompleted ==> !SubmitDisabled(CalculateSum(v))
  {
    var a := IntToString(Sum(v.selected));
    if !v.isSubmitting && !v.isCompleted {
      assert !IsSpace(a[|a| - 1]) by {
        var n := Sum(v.selected);
        var m: nat := if n < 0 then -n else n;
        assert a[|a| - 1] == NatToString(m)[|NatToString(m)| - 1];
        assert IsDigit(NatToString(m)[|NatToString(m)| - 1]);
      }
      BlankIffAllSpace(a);
    }
  }
}
