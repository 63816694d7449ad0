/** How a submitted answer is judged against a question's stored answer. The
    judgement depends on the question type: multi-choice answers are compared
    as sorted letters, fill-in and essay answers after trimming, everything
    else as is; all comparisons ignore ASCII case. */
module AnswerCheck {
  import opened Common

  const SingleChoice: string := "单选题"
  const MultiChoice: string := "多选题"
  const TrueFalse: string := "判断题"
  const FillIn: string := "填空题"
  const Essay: string := "问答题"

  // ---------------------------------------------------------------------------
  // Sorting characters

  predicate Sorted(s: string) {
    forall i, j :: 0 <= i < j < |s| ==> s[i] <= s[j]
  }

  /** Places `c` in front of the first larger-or-equal character. */
  function Insert(c: char, s: string): (r: string)
    requires Sorted(s)
    ensures Sorted(r)
    ensures multiset(r) == multiset(s) + multiset{c}
    ensures |r| == |s| + 1
    decreases |s|
  {
    if |s| == 0 || c <= s[0] then
      ConsSorted(c, s);
      [c] + s
    else
      assert s == [s[0]] + s[1..];
      SortedTail(s);
      var rest := Insert(c, s[1..]);
      BoundKept(s[0], c, s[1..], rest);
      ConsSorted(s[0], rest);
      [s[0]] + rest
  }

  /** A lower bound of a string and of one more character bounds any
      arrangement of the two together. */
  lemma BoundKept(lo: char, c: char, t: string, rest: string)
    requires lo <= c && forall k :: 0 <= k < |t| ==> lo <= t[k]
    requires multiset(rest) == multiset(t) + multiset{c}
    ensures |rest| == 0 || lo <= rest[0]
  {
    if |rest| > 0 {
      assert rest[0] in multiset(rest);
      if rest[0] != c {
        assert rest[0] in t;
      }
    }
  }

  /** A character no larger than the head of a sorted string may precede it. */
  lemma ConsSorted(c: char, s: string)
    requires Sorted(s)
    requires |s| == 0 || c <= s[0]
    ensures Sorted([c] + s)
  {
    var t := [c] + s;
    forall i, j | 0 <= i < j < |t|
      ensures t[i] <= t[j]
    {
      assert t[j] == s[j - 1];
      if i > 0 {
        assert t[i] == s[i - 1];
      } else {
        assert s[0] <= s[j - 1];
      }
    }
  }

  /** Python's `sorted` on a string: the characters in code-point order. */
  function SortChars(s: string): (r: string)
    ensures Sorted(r)
    ensures multiset(r) == multiset(s)
    decreases |s|
  {
    if |s| == 0 then []
    else
      assert s == s[..|s| - 1] + [s[|s| - 1]];
      Insert(s[|s| - 1], SortChars(s[..|s| - 1]))
  }

  lemma SortedTail(a: string)
    requires Sorted(a) && |a| > 0
    ensures Sorted(a[1..])
    ensures forall k :: 0 <= k < |a| ==> a[0] <= a[k]
  {
  }

  /** Two sorted strings with the same characters are the same string. */
  lemma {:induction false} SortedUnique(a: string, b: string)
    requires Sorted(a) && Sorted(b) && multiset(a) == multiset(b)
    ensures a == b
    decreases |a|
  {
    assert |b| == |multiset(b)| == |a|;
    if |a| > 0 {
      SortedTail(a);
      SortedTail(b);
      assert a[0] in multiset(b) && b[0] in multiset(a);
      assert a[0] in b && b[0] in a;
      assert a[0] == b[0];
      assert a == [a[0]] + a[1..] && b == [b[0]] + b[1..];
      assert multiset(a) == multiset{a[0]} + multiset(a[1..]);
      assert multiset(b) == multiset{a[0]} + multiset(b[1..]);
      MultisetCancel(multiset(a[1..]), multiset(b[1..]), multiset{a[0]});
      SortedUnique(a[1..], b[1..]);
    }
  }

  lemma SortCharsIffSameLetters(a: string, b: string)
    ensures SortChars(a) == SortChars(b) <==> multiset(a) == multiset(b)
  {
    if multiset(a) == multiset(b) {
      SortedUnique(SortChars(a), SortChars(b));
    }
  }

  // ---------------------------------------------------------------------------
  // `str.replace(", ", "")`

  /** Removes every non-overlapping occurrence of ", ", scanning left to right. */
  function RemoveCommaSpace(s: string): (r: string)
    ensures |r| <= |s|
    decreases |s|
  {
    if |s| >= 2 && s[0] == ',' && s[1] == ' ' then RemoveCommaSpace(s[2..])
    else if |s| == 0 then []
    else [s[0]] + RemoveCommaSpace(s[1..])
  }

  lemma {:induction false} RemoveCommaSpaceKeepsOthers(s: string)
    requires NoCommaSpace(s)
    ensures RemoveCommaSpace(s) == s
    decreases |s|
  {
    if |s| > 0 {
      RemoveCommaSpaceKeepsOthers(s[1..]);
    }
  }

  /** Removal works piece by piece, provided no ", " straddles the seam. */
  lemma {:induction false} RemoveCommaSpaceConcat(a: string, b: string)
    requires !(|a| > 0 && a[|a| - 1] == ',' && |b| > 0 && b[0] == ' ')
    ensures RemoveCommaSpace(a + b) == RemoveCommaSpace(a) + RemoveCommaSpace(b)
    decreases |a|
  {
    var c := a + b;
    if |a| == 0 {
      assert c == b;
    } else if |a| >= 2 && a[0] == ',' && a[1] == ' ' {
      assert c[2..] == a[2..] + b;
      SeparatorStep(c);
      SeparatorStep(a);
      RemoveCommaSpaceConcat(a[2..], b);
    } else {
      assert c[0] == a[0] && c[1..] == a[1..] + b;
      assert |c| >= 2 ==> c[1] == (if |a| >= 2 then a[1] else b[0]);
      KeepStep(c);
      KeepStep(a);
      if |a| == 1 {
        assert a[1..] + b == b && RemoveCommaSpace(a[1..]) == [];
      } else {
        RemoveCommaSpaceConcat(a[1..], b);
      }
      ConcatAssoc([a[0]], RemoveCommaSpace(a[1..]), RemoveCommaSpace(b));
    }
  }

  lemma ConcatAssoc(x: string, y: string, z: string)
    ensures x + (y + z) == (x + y) + z
  {
  }

  lemma SeparatorStep(s: string)
    requires |s| >= 2 && s[0] == ',' && s[1] == ' '
    ensures RemoveCommaSpace(s) == RemoveCommaSpace(s[2..])
  {
  }

  lemma KeepStep(s: string)
    requires |s| > 0 && !(|s| >= 2 && s[0] == ',' && s[1] == ' ')
    ensures RemoveCommaSpace(s) == [s[0]] + RemoveCommaSpace(s[1..])
  {
  }

  /** Python `", ".join(parts)`. */
  function JoinCommaSpace(parts: seq<string>): string
    decreases |parts|
  {
    if |parts| == 0 then ""
    else if |parts| == 1 then parts[0]
    else parts[0] + ", " + JoinCommaSpace(parts[1..])
  }

  /** The parts laid end to end. */
  function Concat(parts: seq<string>): string
    decreases |parts|
  {
    if |parts| == 0 then "" else parts[0] + Concat(parts[1..])
  }

  predicate NoCommaSpace(s: string) {
    forall i :: 0 <= i < |s| - 1 ==> !(s[i] == ',' && s[i + 1] == ' ')
  }

  /** Python `s.split(", ")`: the pieces between the separators, found left to
      right; a string without a separator is one piece. */
  function SplitCommaSpace(s: string): (parts: seq<string>)
    ensures |parts| >= 1
    decreases |s|
  {
    if |s| >= 2 && s[0] == ',' && s[1] == ' ' then [""] + SplitCommaSpace(s[2..])
    else if |s| == 0 then [""]
    else
      var p := SplitCommaSpace(s[1..]);
      [[s[0]] + p[0]] + p[1..]
  }

  /** Every answer is its own pieces joined by ", ", no piece holds a ", ",
      and removing the separators leaves the pieces laid end to end: the
      removal is Python's `"".join(s.split(", "))`. */
  lemma {:induction false} RemoveCommaSpaceSplit(s: string)
    ensures JoinCommaSpace(SplitCommaSpace(s)) == s
    ensures forall k :: 0 <= k < |SplitCommaSpace(s)| ==> NoCommaSpace(SplitCommaSpace(s)[k])
    ensures RemoveCommaSpace(s) == Concat(SplitCommaSpace(s))
  {
    SplitJoins(s);
    SplitPiecesClean(s);
    RemovalConcatenatesPieces(s);
  }

  lemma {:induction false} SplitJoins(s: string)
    ensures JoinCommaSpace(SplitCommaSpace(s)) == s
    decreases |s|
  {
    if |s| >= 2 && s[0] == ',' && s[1] == ' ' {
      SplitJoins(s[2..]);
      var parts := SplitCommaSpace(s);
      assert parts[1..] == SplitCommaSpace(s[2..]);
      assert s == "" + ", " + s[2..];
    } else if |s| > 0 {
      var p := SplitCommaSpace(s[1..]);
      SplitJoins(s[1..]);
      JoinFirstPiece(s[0], p);
      assert s == [s[0]] + s[1..];
    }
  }

  lemma {:induction false} SplitPiecesClean(s: string)
    ensures forall k :: 0 <= k < |SplitCommaSpace(s)| ==> NoCommaSpace(SplitCommaSpace(s)[k])
    decreases |s|
  {
    var parts := SplitCommaSpace(s);
    if |s| >= 2 && s[0] == ',' && s[1] == ' ' {
      SplitPiecesClean(s[2..]);
      assert parts[1..] == SplitCommaSpace(s[2..]);
      assert forall k :: 1 <= k < |parts| ==> parts[k] == SplitCommaSpace(s[2..])[k - 1];
    } else if |s| > 0 {
      var p := SplitCommaSpace(s[1..]);
      SplitPiecesClean(s[1..]);
      FirstPieceStart(s[1..]);
      FirstPieceClean(s[0], p[0], s[1..]);
      assert forall k :: 1 <= k < |parts| ==> parts[k] == p[k];
    }
  }

  lemma {:induction false} RemovalConcatenatesPieces(s: string)
    ensures RemoveCommaSpace(s) == Concat(SplitCommaSpace(s))
    decreases |s|
  {
    if |s| >= 2 && s[0] == ',' && s[1] == ' ' {
      RemovalConcatenatesPieces(s[2..]);
      var parts := SplitCommaSpace(s);
      assert parts[1..] == SplitCommaSpace(s[2..]);
      SeparatorStep(s);
    } else if |s| > 0 {
      var p := SplitCommaSpace(s[1..]);
      RemovalConcatenatesPieces(s[1..]);
      ConcatFirstPiece(s[0], p);
      KeepStep(s);
    }
  }

  /** The first piece, when not empty, starts where the string starts. */
  lemma FirstPieceStart(s: string)
    ensures var piece := SplitCommaSpace(s)[0];
      |piece| > 0 ==> |s| > 0 && piece[0] == s[0]
  {
  }

  lemma JoinFirstPiece(c: char, p: seq<string>)
    requires |p| >= 1
    ensures JoinCommaSpace([[c] + p[0]] + p[1..]) == [c] + JoinCommaSpace(p)
  {
    var q := [[c] + p[0]] + p[1..];
    assert q[1..] == p[1..];
    if |p| > 1 {
      ConcatAssoc([c], p[0], ", " + JoinCommaSpace(p[1..]));
      assert [c] + p[0] + ", " + JoinCommaSpace(p[1..]) == ([c] + p[0]) + (", " + JoinCommaSpace(p[1..]));
      assert p[0] + ", " + JoinCommaSpace(p[1..]) == p[0] + (", " + JoinCommaSpace(p[1..]));
    }
  }

  lemma ConcatFirstPiece(c: char, p: seq<string>)
    requires |p| >= 1
    ensures Concat([[c] + p[0]] + p[1..]) == [c] + Concat(p)
  {
    var q := [[c] + p[0]] + p[1..];
    assert q[1..] == p[1..];
    ConcatAssoc([c], p[0], Concat(p[1..]));
  }

  /** Putting `c` in front of the first piece of `rest` adds no ", ": the
      piece starts with the first character of `rest`, and `c` followed by
      that character would have been a separator. */
  lemma FirstPieceClean(c: char, piece: string, rest: string)
    requires NoCommaSpace(piece)
    requires |piece| > 0 ==> |rest| > 0 && piece[0] == rest[0]
    requires !(c == ',' && |rest| > 0 && rest[0] == ' ')
    ensures NoCommaSpace([c] + piece)
  {
    var q := [c] + piece;
    forall i | 0 <= i < |q| - 1
      ensures !(q[i] == ',' && q[i + 1] == ' ')
    {
      if i > 0 {
        assert q[i] == piece[i - 1] && q[i + 1] == piece[i];
      } else {
        assert q[0] == c && q[1] == piece[0];
      }
    }
  }

  /** A stored answer written as parts joined by ", " loses exactly the
      separators, as long as no part holds a ", " of its own. */
  lemma {:induction false} RemoveCommaSpaceJoin(parts: seq<string>)
    requires forall k :: 0 <= k < |parts| ==> NoCommaSpace(parts[k])
    ensures RemoveCommaSpace(JoinCommaSpace(parts)) == Concat(parts)
    decreases |parts|
  {
    if |parts| == 1 {
      RemoveCommaSpaceKeepsOthers(parts[0]);
      assert Concat(parts) == parts[0] + "";
    } else if |parts| > 1 {
      var p, rest := parts[0], JoinCommaSpace(parts[1..]);
      RemoveCommaSpaceKeepsOthers(p);
      RemoveCommaSpaceJoin(parts[1..]);
      assert p + ", " + rest == p + (", " + rest);
      RemoveCommaSpaceConcat(p, ", " + rest);
      assert (", " + rest)[2..] == rest;
    }
  }

  // ---------------------------------------------------------------------------
  // The judgement

  function CheckAnswer(questionType: string, correctAnswer: string, userAnswer: string): bool {
    if questionType == MultiChoice then
      SortChars(Upper(userAnswer)) == SortChars(Upper(RemoveCommaSpace(correctAnswer)))
    else if questionType == FillIn || questionType == Essay then
      Upper(Strip(Python, userAnswer)) == Upper(Strip(Python, correctAnswer))
    else
      Upper(userAnswer) == Upper(correctAnswer)
  }

  /** A multi-choice answer is right exactly when it uses the same letters, as
      many times each, ignoring case, as the stored answer with its ", "
      separators taken out. Order never matters. */
  lemma MultiChoiceIgnoresOrder(correctAnswer: string, userAnswer: string)
    ensures CheckAnswer(MultiChoice, correctAnswer, userAnswer)
        <==> multiset(Upper(userAnswer)) == multiset(Upper(RemoveCommaSpace(correctAnswer)))
  {
    SortCharsIffSameLetters(Upper(userAnswer), Upper(RemoveCommaSpace(correctAnswer)));
  }

  lemma MultiChoicePermutation(correctAnswer: string, u1: string, u2: string)
    requires multiset(u1) == multiset(u2)
    ensures CheckAnswer(MultiChoice, correctAnswer, u1) == CheckAnswer(MultiChoice, correctAnswer, u2)
  {
    UpperMultiset(u1, u2);
    MultiChoiceIgnoresOrder(correctAnswer, u1);
    MultiChoiceIgnoresOrder(correctAnswer, u2);
  }

  /** Upper-casing respects rearrangement. */
  lemma {:induction false} UpperMultiset(a: string, b: string)
    requires multiset(a) == multiset(b)
    ensures multiset(Upper(a)) == multiset(Upper(b))
    decreases |a|
  {
    if |a| > 0 {
      assert a[0] in multiset(b);
      var k :| 0 <= k < |b| && b[k] == a[0];
      var a', b' := a[..0] + a[1..], b[..k] + b[k + 1..];
      RemoveBoth(a, b, 0, k, a', b');
      UpperMultiset(a', b');
      UpperRemove(a, 0, a');
      UpperRemove(b, k, b');
    } else {
      assert |b| == |multiset(b)| == 0;
      assert Upper(a) == Upper(b) == [];
    }
  }

  /** Taking one equal element out of each side keeps two rearrangements
      rearrangements of each other. */
  lemma RemoveBoth(a: string, b: string, j: int, k: int, a': string, b': string)
    requires multiset(a) == multiset(b)
    requires 0 <= j < |a| && 0 <= k < |b| && a[j] == b[k]
    requires a' == a[..j] + a[j + 1..] && b' == b[..k] + b[k + 1..]
    ensures multiset(a') == multiset(b')
  {
    RemoveAt(a, j);
    RemoveAt(b, k);
    MultisetCancel(multiset(a'), multiset(b'), multiset{a[j]});
  }

  /** Upper-casing commutes with taking one character out. */
  lemma UpperRemove(s: string, k: int, rest: string)
    requires 0 <= k < |s| && rest == s[..k] + s[k + 1..]
    ensures multiset(Upper(s)) == multiset{UpperChar(s[k])} + multiset(Upper(rest))
  {
    RemoveAt(Upper(s), k);
    assert Upper(rest) == Upper(s)[..k] + Upper(s)[k + 1..];
  }

  /** Fill-in and essay answers ignore surrounding white space, in the sense
      of Python's `str.isspace`, and case. */
  lemma FillInIgnoresPadding(questionType: string, correctAnswer: string, userAnswer: string,
                             before: string, after: string)
    requires questionType == FillIn || questionType == Essay
    requires forall i :: 0 <= i < |before| ==> IsSpaceIn(Python, before[i])
    requires forall i :: 0 <= i < |after| ==> IsSpaceIn(Python, after[i])
    ensures CheckAnswer(questionType, correctAnswer, before + userAnswer + after)
        == CheckAnswer(questionType, correctAnswer, userAnswer)
  {
    StripPadding(Python, userAnswer, before, after);
  }

  /** The information separators count as white space on the server: a
      fill-in answer typed with a trailing unit separator (0x1F) is still
      right, though the browser's `trim` keeps that character. */
  lemma TrailingSeparatorAccepted(questionType: string, answer: string)
    requires questionType == FillIn || questionType == Essay
    ensures CheckAnswer(questionType, answer, answer + "\U{1F}")
  {
    assert IsSpaceIn(Python, "\U{1F}"[0]);
    StoredAnswerAccepted(questionType, answer);
    assert "" + answer == answer;
    FillInIgnoresPadding(questionType, answer, answer, "", "\U{1F}");
  }

  lemma SeparatorNotBlank()
    ensures !IsBlank("\U{1F}")
  {
    BlankIffAllSpace("\U{1F}");
    assert !IsSpace("\U{1F}"[0]);
  }

  lemma StripPadding(w: Whitespace, s: string, before: string, after: string)
    requires forall i :: 0 <= i < |before| ==> IsSpaceIn(w, before[i])
    requires forall i :: 0 <= i < |after| ==> IsSpaceIn(w, after[i])
    ensures Strip(w, before + s + after) == Strip(w, s)
  {
    var tail := s + after;
    assert before + s + after == before + tail;
    TrimStartPadding(w, tail, before);
    assert TrimStart(w, before + s + after) == TrimStart(w, tail);
    TrimStartSuffix(w, s, after);
  }

  lemma {:induction false} TrimStartPadding(w: Whitespace, s: string, pad: string)
    requires forall i :: 0 <= i < |pad| ==> IsSpaceIn(w, pad[i])
    ensures TrimStart(w, pad + s) == TrimStart(w, s)
    decreases |pad|
  {
    if |pad| > 0 {
      assert (pad + s)[1..] == pad[1..] + s;
      assert IsSpaceIn(w, (pad + s)[0]);
      TrimStartPadding(w, s, pad[1..]);
    } else {
      assert pad + s == s;
    }
  }

  lemma {:induction false} TrimEndPadding(w: Whitespace, s: string, pad: string)
    requires forall i :: 0 <= i < |pad| ==> IsSpaceIn(w, pad[i])
    ensures TrimEnd(w, s + pad) == TrimEnd(w, s)
    decreases |pad|
  {
    if |pad| > 0 {
      var p' := pad[..|pad| - 1];
      assert (s + pad)[..|s + pad| - 1] == s + p';
      assert IsSpaceIn(w, (s + pad)[|s + pad| - 1]);
      TrimEndPadding(w, s, p');
    } else {
      assert s + pad == s;
    }
  }

  /** Trailing white space survives a left trim unchanged. */
  lemma {:induction false} TrimStartSuffix(w: Whitespace, s: string, pad: string)
    requires forall i :: 0 <= i < |pad| ==> IsSpaceIn(w, pad[i])
    ensures TrimEnd(w, TrimStart(w, s + pad)) == TrimEnd(w, TrimStart(w, s))
    decreases |s|
  {
    if |s| > 0 && IsSpaceIn(w, s[0]) {
      assert (s + pad)[1..] == s[1..] + pad;
      TrimStartSuffix(w, s[1..], pad);
    } else if |s| == 0 {
      TrimStartPadding(w, [], pad);
      assert pad + [] == pad && [] + pad == pad;
      TrimEndPadding(w, [], pad);
    } else {
      TrimEndPadding(w, s, pad);
    }
  }

  /** Any other type compares case-insensitively but keeps white space. */
  lemma SingleChoiceKeepsPadding()
    ensures CheckAnswer(SingleChoice, "A", "a")
    ensures !CheckAnswer(SingleChoice, "A", " A")
  {
    assert SingleChoice != MultiChoice && SingleChoice != FillIn && SingleChoice != Essay;
    assert Upper("A")[0] == 'A';
    assert Upper("a")[0] == 'A';
    assert Upper(" A")[0] == ' ';
  }

  /** Typing the stored answer back in is accepted for every type, provided a
      multi-choice answer has no ", " separators in it. */
  lemma StoredAnswerAccepted(questionType: string, correctAnswer: string)
    requires questionType == MultiChoice ==> NoCommaSpace(correctAnswer)
    ensures CheckAnswer(questionType, correctAnswer, correctAnswer)
  {
    if questionType == MultiChoice {
      RemoveCommaSpaceKeepsOthers(correctAnswer);
    }
  }

  /** With ", " separators the stored answer itself is judged wrong: the
      separators are removed from the stored side only. */
  lemma StoredAnswerWithSeparatorRejected()
    ensures !CheckAnswer(MultiChoice, "A, B", "A, B")
  {
    assert RemoveCommaSpace("A, B") == "AB" by {
      assert RemoveCommaSpace("B") == "B";
      assert RemoveCommaSpace(", B") == "B";
    }
    var u := Upper("A, B");
    assert |u| == 4;
    assert ',' in multiset(u) by { assert u[1] == ','; }
    assert ',' !in multiset(Upper("AB")) by {
      assert Upper("AB") == "AB";
    }
    MultiChoiceIgnoresOrder("A, B", "A, B");
  }
}
