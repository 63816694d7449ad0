/** Shared vocabulary: optional values, HTTP-style errors, ASCII text helpers,
    decimal rendering and parsing, comma splitting, filtering and sums. */
module Common {

  datatype Option<T> = None | Some(value: T)

  /** The HTTP statuses the endpoints raise. `InternalError` stands for an
      uncaught Python exception, which the web framework turns into a 500. */
  datatype HttpError = BadRequest | Forbidden | NotFound | InternalError {
    function Status(): int {
      match this
      case BadRequest => 400
      case Forbidden => 403
      case NotFound => 404
      case InternalError => 500
    }
  }

  datatype Result<T> = Ok(value: T) | Err(error: HttpError)

  // ---------------------------------------------------------------------------
  // ASCII case mapping and whitespace (Unicode case folding is not modelled)

  function UpperChar(c: char): char {
    if 'a' <= c <= 'z' then (c as int - 32) as char else c
  }

  function LowerChar(c: char): char {
    if 'A' <= c <= 'Z' then (c as int + 32) as char else c
  }

  function Upper(s: string): (r: string)
    ensures |r| == |s|
    ensures forall i :: 0 <= i < |s| ==> r[i] == UpperChar(s[i])
  {
    seq(|s|, i requires 0 <= i < |s| => UpperChar(s[i]))
  }

  function Lower(s: string): (r: string)
    ensures |r| == |s|
    ensures forall i :: 0 <= i < |s| ==> r[i] == LowerChar(s[i])
  {
    seq(|s|, i requires 0 <= i < |s| => LowerChar(s[i]))
  }

  /** The two notions of white space the program meets: Python's
      `str.isspace`, which `str.strip()` removes, and ECMAScript's white space
      and line terminators, which `trim` and `parseInt` skip. They share the
      ASCII controls 9..13, the space and the Unicode space separators;
      Python adds the information separators 0x1C..0x1F and NEL (0x85),
      JavaScript adds the byte order mark (0xFEFF). */
  datatype Whitespace = Python | JavaScript

  predicate IsSpaceIn(w: Whitespace, c: char) {
    var n := c as int;
    || 9 <= n <= 13 || n == 0x20 || n == 0xA0 || n == 0x1680 || 0x2000 <= n <= 0x200A
    || n == 0x2028 || n == 0x2029 || n == 0x202F || n == 0x205F || n == 0x3000
    || (w == Python && (0x1C <= n <= 0x1F || n == 0x85))
    || (w == JavaScript && n == 0xFEFF)
  }

  /** JavaScript white space, the kind the client's `trim` calls remove. */
  predicate IsSpace(c: char) {
    IsSpaceIn(JavaScript, c)
  }

  function TrimStart(w: Whitespace, s: string): (r: string)
    ensures |r| <= |s| && r == s[|s| - |r|..]
    ensures r == [] || !IsSpaceIn(w, r[0])
    ensures forall i :: 0 <= i < |s| - |r| ==> IsSpaceIn(w, s[i])
    decreases |s|
  {
    if |s| > 0 && IsSpaceIn(w, s[0]) then TrimStart(w, s[1..]) else s
  }

  function TrimEnd(w: Whitespace, s: string): (r: string)
    ensures |r| <= |s| && r == s[..|r|]
    ensures r == [] || !IsSpaceIn(w, r[|r| - 1])
    ensures forall i :: |r| <= i < |s| ==> IsSpaceIn(w, s[i])
    decreases |s|
  {
    if |s| > 0 && IsSpaceIn(w, s[|s| - 1]) then TrimEnd(w, s[..|s| - 1]) else s
  }

  /** Python `str.strip()` with `Python`, JavaScript `trim()` with
      `JavaScript`. */
  function Strip(w: Whitespace, s: string): string {
    TrimEnd(w, TrimStart(w, s))
  }

  /** A string is blank when trimming leaves nothing: it is all whitespace. */
  predicate IsBlank(s: string) {
    Strip(JavaScript, s) == ""
  }

  lemma BlankIffAllSpace(s: string)
    ensures IsBlank(s) <==> forall i :: 0 <= i < |s| ==> IsSpace(s[i])
  {
    var t := TrimStart(JavaScript, s);
    if forall i :: 0 <= i < |s| ==> IsSpace(s[i]) {
      assert |t| == 0;
    }
    if IsBlank(s) {
      assert |t| == 0;
    }
  }

  // ---------------------------------------------------------------------------
  // Substrings

  predicate StartsWith(s: string, p: string) {
    |p| <= |s| && s[..|p|] == p
  }

  /** JavaScript `s.includes(p)` / Python `p in s`. */
  predicate Contains(s: string, p: string) {
    exists i | 0 <= i <= |s| - |p| :: StartsWith(s[i..], p)
  }

  lemma ContainsEmpty(s: string)
    ensures Contains(s, "")
  {
    assert StartsWith(s[0..], "");
  }

  // ---------------------------------------------------------------------------
  // Decimal rendering (Python `str(int)`, JavaScript `n.toString()`) and parsing

  function DigitChar(d: int): char
    requires 0 <= d < 10
  {
    ('0' as int + d) as char
  }

  predicate IsDigit(c: char) {
    '0' <= c <= '9'
  }

  predicate AllDigits(s: string) {
    forall i :: 0 <= i < |s| ==> IsDigit(s[i])
  }

  function NatToString(n: nat): (r: string)
    ensures |r| >= 1 && AllDigits(r)
    decreases n
  {
    if n < 10 then [DigitChar(n)] else NatToString(n / 10) + [DigitChar(n % 10)]
  }

  function IntToString(i: int): (r: string)
    ensures |r| >= 1
  {
    if i < 0 then "-" + NatToString(-i) else NatToString(i)
  }

  function ParseDigits(s: string): nat
    requires AllDigits(s)
  {
    if s == [] then 0
    else ParseDigits(s[..|s| - 1]) * 10 + (s[|s| - 1] as int - '0' as int)
  }

  /** Decimal integer syntax: an optional minus sign followed by digits. */
  function ParseInt(s: string): Option<int> {
    if |s| >= 2 && s[0] == '-' && AllDigits(s[1..]) then
      var magnitude: int := ParseDigits(s[1..]);
      Some(-magnitude)
    else if |s| >= 1 && AllDigits(s) then Some(ParseDigits(s))
    else None
  }

  lemma {:induction false} ParseNatToString(n: nat)
    ensures ParseDigits(NatToString(n)) == n
    decreases n
  {
    if n >= 10 {
      var s := NatToString(n);
      assert s[..|s| - 1] == NatToString(n / 10);
      ParseNatToString(n / 10);
    }
  }

  /** Rendering an integer in decimal and parsing it back is the identity. */
  lemma IntToStringRoundTrip(i: int)
    ensures ParseInt(IntToString(i)) == Some(i)
  {
    if i < 0 {
      var t := NatToString(-i);
      var s := "-" + t;
      assert s[1..] == t;
      ParseNatToString(-i);
      assert ParseInt(s) == Some(i);
    } else {
      var t := NatToString(i);
      assert IsDigit(t[0]);
      ParseNatToString(i);
      assert ParseInt(t) == Some(ParseDigits(t));
    }
  }

  // ---------------------------------------------------------------------------
  // Splitting on and joining with a separator character (JavaScript semantics:
  // the empty string splits into one empty segment)

  function Split(s: string, sep: char): (r: seq<string>)
    ensures |r| >= 1
    decreases |s|
  {
    if |s| == 0 then [""]
    else
      var rest := Split(s[1..], sep);
      if s[0] == sep then [""] + rest else [[s[0]] + rest[0]] + rest[1..]
  }

  function Join(xs: seq<string>, sep: char): string
    decreases |xs|
  {
    if |xs| == 0 then ""
    else if |xs| == 1 then xs[0]
    else xs[0] + [sep] + Join(xs[1..], sep)
  }

  lemma {:induction false} SplitNoSep(a: string, sep: char)
    requires sep !in a
    ensures Split(a, sep) == [a]
    decreases |a|
  {
    if |a| > 0 {
      SplitNoSep(a[1..], sep);
      assert [a[0]] + a[1..] == a;
    }
  }

  lemma {:induction false} SplitAtSep(a: string, sep: char, b: string)
    requires sep !in a
    ensures Split(a + [sep] + b, sep) == [a] + Split(b, sep)
    decreases |a|
  {
    var s := a + [sep] + b;
    if |a| == 0 {
      assert s[1..] == b;
    } else {
      assert s[1..] == a[1..] + [sep] + b;
      SplitAtSep(a[1..], sep, b);
      assert [a[0]] + a[1..] == a;
    }
  }

  /** Splitting a join of separator-free pieces gives the pieces back. */
  lemma {:induction false} SplitJoin(xs: seq<string>, sep: char)
    requires |xs| >= 1
    requires forall k :: 0 <= k < |xs| ==> sep !in xs[k]
    ensures Split(Join(xs, sep), sep) == xs
    decreases |xs|
  {
    if |xs| == 1 {
      SplitNoSep(xs[0], sep);
    } else {
      SplitJoin(xs[1..], sep);
      SplitAtSep(xs[0], sep, Join(xs[1..], sep));
    }
  }

  // ---------------------------------------------------------------------------
  // Filtering and subsequences

  /** `a` can be obtained from `b` by deleting elements, keeping the order. */
  predicate IsSubsequence<T(==)>(a: seq<T>, b: seq<T>)
    decreases |b|
  {
    if |b| == 0 then |a| == 0
    else IsSubsequence(a, b[1..]) || (|a| > 0 && a[0] == b[0] && IsSubsequence(a[1..], b[1..]))
  }

  function Filter<T>(s: seq<T>, keep: T -> bool): (r: seq<T>)
    ensures |r| <= |s|
    ensures forall x :: x in r ==> x in s && keep(x)
    ensures forall x :: x in s && keep(x) ==> x in r
    decreases |s|
  {
    if |s| == 0 then []
    else if keep(s[0]) then [s[0]] + Filter(s[1..], keep)
    else Filter(s[1..], keep)
  }

  /** Deleting elements from a subsequence gives a subsequence. */
  lemma {:induction false} SubsequenceTrans<T>(a: seq<T>, b: seq<T>, c: seq<T>)
    requires IsSubsequence(a, b) && IsSubsequence(b, c)
    ensures IsSubsequence(a, c)
    decreases |c|
  {
    if |c| > 0 {
      if IsSubsequence(b, c[1..]) {
        SubsequenceTrans(a, b, c[1..]);
      } else {
        assert |b| > 0 && b[0] == c[0] && IsSubsequence(b[1..], c[1..]);
        if IsSubsequence(a, b[1..]) {
          SubsequenceTrans(a, b[1..], c[1..]);
        } else {
          assert |a| > 0 && a[0] == b[0] && IsSubsequence(a[1..], b[1..]);
          SubsequenceTrans(a[1..], b[1..], c[1..]);
        }
      }
    } else {
      assert |b| == 0;
    }
  }

  lemma {:induction false} SubsequenceRefl<T>(s: seq<T>)
    ensures IsSubsequence(s, s)
    decreases |s|
  {
    if |s| > 0 {
      SubsequenceRefl(s[1..]);
    }
  }

  lemma {:induction false} FilterIsSubsequence<T>(s: seq<T>, keep: T -> bool)
    ensures IsSubsequence(Filter(s, keep), s)
    decreases |s|
  {
    if |s| > 0 {
      FilterIsSubsequence(s[1..], keep);
    }
  }

  lemma {:induction false} FilterAll<T>(s: seq<T>, keep: T -> bool)
    requires forall x :: x in s ==> keep(x)
    ensures Filter(s, keep) == s
    decreases |s|
  {
    if |s| > 0 {
      FilterAll(s[1..], keep);
    }
  }

  /** Every element either passes a test or fails it. */
  lemma {:induction false} FilterPartition<T>(s: seq<T>, keep: T -> bool, drop: T -> bool)
    requires forall x :: drop(x) == !keep(x)
    ensures |Filter(s, keep)| + |Filter(s, drop)| == |s|
    decreases |s|
  {
    if |s| > 0 {
      FilterPartition(s[1..], keep, drop);
    }
  }

  /** The position of the first element passing `p`: SQLAlchemy's `.first()`
      on a query in table order. */
  function FindFirst<T>(s: seq<T>, p: T -> bool): (r: Option<nat>)
    ensures r.Some? ==> r.value < |s| && p(s[r.value])
    ensures r.Some? ==> forall j :: 0 <= j < r.value ==> !p(s[j])
    ensures r.None? <==> forall j :: 0 <= j < |s| ==> !p(s[j])
    decreases |s|
  {
    if |s| == 0 then None
    else if p(s[0]) then Some(0)
    else match FindFirst(s[1..], p)
      case None => None
      case Some(k) => Some(k + 1)
  }

  /** The verdicts of a test decide the first match. */
  lemma {:induction false} FindFirstSameVerdicts<T>(a: seq<T>, b: seq<T>, p: T -> bool)
    requires |a| == |b|
    requires forall j :: 0 <= j < |a| ==> p(a[j]) == p(b[j])
    ensures FindFirst(a, p) == FindFirst(b, p)
    decreases |a|
  {
    if |a| > 0 {
      FindFirstSameVerdicts(a[1..], b[1..], p);
    }
  }

  /** Appending a match to a list without one makes it the first match. */
  lemma {:induction false} FindFirstAppend<T>(s: seq<T>, x: T, p: T -> bool)
    requires FindFirst(s, p).None? && p(x)
    ensures FindFirst(s + [x], p) == Some(|s|)
    decreases |s|
  {
    if |s| > 0 {
      assert (s + [x])[1..] == s[1..] + [x];
      FindFirstAppend(s[1..], x, p);
    }
  }

  /** Filtering out the one failing element is removing it. */
  lemma FilterDropOne<T>(s: seq<T>, keep: T -> bool, k: nat)
    requires k < |s| && !keep(s[k])
    requires forall j :: 0 <= j < |s| && j != k ==> keep(s[j])
    ensures Filter(s, keep) == s[..k] + s[k + 1..]
  {
    var front, back := s[..k], s[k + 1..];
    KeptAround(s, keep, k);
    DropHead(s[k], back, keep);
    SplitAround(s, k);
    FilterConcat(front, [s[k]] + back, keep);
  }

  /** Both sides of the one failing position pass the filter whole. */
  lemma KeptAround<T>(s: seq<T>, keep: T -> bool, k: nat)
    requires k < |s|
    requires forall j :: 0 <= j < |s| && j != k ==> keep(s[j])
    ensures Filter(s[..k], keep) == s[..k] && Filter(s[k + 1..], keep) == s[k + 1..]
  {
    KeptSlice(s, keep, k, 0, k);
    assert s[0..k] == s[..k];
    KeptSlice(s, keep, k, k + 1, |s|);
    assert s[k + 1..|s|] == s[k + 1..];
  }

  lemma SplitAround<T>(s: seq<T>, k: nat)
    requires k < |s|
    ensures s == s[..k] + ([s[k]] + s[k + 1..])
  {
    assert s[k..] == [s[k]] + s[k + 1..];
    assert s == s[..k] + s[k..];
  }

  /** A slice that avoids the one failing position passes the filter whole. */
  lemma KeptSlice<T>(s: seq<T>, keep: T -> bool, k: nat, lo: nat, hi: nat)
    requires lo <= hi <= |s|
    requires k < lo || hi <= k
    requires forall j :: 0 <= j < |s| && j != k ==> keep(s[j])
    ensures Filter(s[lo..hi], keep) == s[lo..hi]
  {
    var t := s[lo..hi];
    forall x | x in t
      ensures keep(x)
    {
      var j :| 0 <= j < |t| && t[j] == x;
      assert x == s[lo + j];
    }
    FilterAll(t, keep);
  }

  lemma DropHead<T>(x: T, s: seq<T>, keep: T -> bool)
    requires !keep(x)
    ensures Filter([x] + s, keep) == Filter(s, keep)
  {
    assert ([x] + s)[1..] == s;
  }

  /** Filtering a concatenation filters each part. */
  lemma {:induction false} FilterConcat<T>(a: seq<T>, b: seq<T>, keep: T -> bool)
    ensures Filter(a + b, keep) == Filter(a, keep) + Filter(b, keep)
    decreases |a|
  {
    if |a| == 0 {
      assert a + b == b;
    } else {
      assert (a + b)[1..] == a[1..] + b;
      FilterConcat(a[1..], b, keep);
    }
  }

  /** A sub-multiset of a list's elements is no longer than the list and
      holds only its elements. */
  lemma SubMultiset<T>(a: seq<T>, b: seq<T>)
    requires multiset(a) <= multiset(b)
    ensures |a| <= |b|
    ensures forall x :: x in a ==> x in b
  {
    var rest := multiset(b) - multiset(a);
    assert multiset(a) + rest == multiset(b);
    assert |multiset(a) + rest| == |multiset(a)| + |rest|;
    forall x | x in a
      ensures x in b
    {
      assert x in multiset(a);
    }
  }

  /** SQL `OFFSET skip LIMIT limit`. */
  function Page<T>(xs: seq<T>, skip: nat, limit: nat): (r: seq<T>)
    ensures |r| == Min(limit, if skip <= |xs| then |xs| - skip else 0)
    ensures forall i :: 0 <= i < |r| ==> r[i] == xs[skip + i]
  {
    var rest := if skip <= |xs| then xs[skip..] else [];
    if limit <= |rest| then rest[..limit] else rest
  }

  /** Two consecutive pages are one page of their combined length: paging
      with offset and limit neither skips nor repeats an element. */
  lemma PagesAdjoin<T>(xs: seq<T>, skip: nat, a: nat, b: nat)
    ensures Page(xs, skip, a) + Page(xs, skip + a, b) == Page(xs, skip, a + b)
  {
    var p, q, w := Page(xs, skip, a), Page(xs, skip + a, b), Page(xs, skip, a + b);
    assert |p| + |q| == |w|;
    forall i | 0 <= i < |w|
      ensures (p + q)[i] == w[i]
    {
      if i >= |p| {
        assert (p + q)[i] == q[i - |p|] == xs[skip + a + (i - |p|)];
      }
    }
  }

  /** A first page at least as long as the list is the whole list. */
  lemma PageWhole<T>(xs: seq<T>, limit: nat)
    requires |xs| <= limit
    ensures Page(xs, 0, limit) == xs
  {
    assert xs[0..] == xs;
  }

  /** Filtering keeps every copy of a kept element and no copy of any other. */
  lemma {:induction false} FilterCount<T>(s: seq<T>, keep: T -> bool, x: T)
    ensures multiset(Filter(s, keep))[x] == if keep(x) then multiset(s)[x] else 0
    decreases |s|
  {
    if |s| > 0 {
      assert s == [s[0]] + s[1..];
      FilterCount(s[1..], keep, x);
    }
  }

  lemma FilterMultisetLe<T>(s: seq<T>, keep: T -> bool)
    ensures multiset(Filter(s, keep)) <= multiset(s)
  {
    forall x
      ensures multiset(Filter(s, keep))[x] <= multiset(s)[x]
    {
      FilterCount(s, keep, x);
    }
  }

  // ---------------------------------------------------------------------------
  // Multisets

  /** No element occurs twice. */
  predicate NoDup<T(==)>(s: seq<T>) {
    forall x | x in multiset(s) :: multiset(s)[x] <= 1
  }

  /** Taking out position `k` takes one copy of that element out of the multiset. */
  lemma RemoveAt<T>(s: seq<T>, k: int)
    requires 0 <= k < |s|
    ensures multiset(s) == multiset{s[k]} + multiset(s[..k] + s[k + 1..])
  {
    assert s == s[..k] + [s[k]] + s[k + 1..];
  }

  lemma MultisetCancel<T>(x: multiset<T>, y: multiset<T>, z: multiset<T>)
    requires z + x == z + y
    ensures x == y
  {
    assert forall e :: x[e] == (z + x)[e] - z[e];
    assert forall e :: y[e] == (z + y)[e] - z[e];
  }

  /** The elements in reverse order. */
  function Reverse<T>(s: seq<T>): (r: seq<T>)
    ensures |r| == |s|
    ensures forall i :: 0 <= i < |s| ==> r[i] == s[|s| - 1 - i]
  {
    seq(|s|, i requires 0 <= i < |s| => s[|s| - 1 - i])
  }

  lemma {:induction false} ReverseMultiset<T>(s: seq<T>)
    ensures multiset(Reverse(s)) == multiset(s)
    decreases |s|
  {
    if |s| > 0 {
      var s' := s[1..];
      assert Reverse(s) == Reverse(s') + [s[0]];
      assert s == [s[0]] + s';
      ReverseMultiset(s');
    }
  }

  lemma ReverseReverse<T>(s: seq<T>)
    ensures Reverse(Reverse(s)) == s
  {
  }

  function Min(a: int, b: int): int {
    if a <= b then a else b
  }

  function Max(a: int, b: int): int {
    if a >= b then a else b
  }

  // ---------------------------------------------------------------------------
  // Sums and integer division

  /** Division truncating toward zero: Python `int(a / b)` and JavaScript
      `Math.trunc(a / b)` on exact integers (floating-point rounding is not
      modelled). */
  function TruncDiv(a: int, b: int): int
    requires b > 0
  {
    if a >= 0 then a / b else -((-a) / b)
  }

  /** The left-to-right running total of a sequence. */
  function Sum(s: seq<int>): int
    decreases |s|
  {
    if |s| == 0 then 0 else Sum(s[..|s| - 1]) + s[|s| - 1]
  }

  lemma {:induction false} SumAppend(a: seq<int>, b: seq<int>)
    ensures Sum(a + b) == Sum(a) + Sum(b)
    decreases |b|
  {
    if |b| > 0 {
      var b' := b[..|b| - 1];
      assert (a + b)[..|a + b| - 1] == a + b';
      SumAppend(a, b');
    } else {
      assert a + b == a;
    }
  }

  /** The sum of `(c + j) mod m` over the window `0 <= j < n`. */
  function ModWindowSum(c: int, n: nat, m: int): int
    requires m > 0
    decreases n
  {
    if n == 0 then 0 else ModWindowSum(c, n - 1, m) + (c + n - 1) % m
  }

  lemma {:induction false} ModWindowSplit(c: int, a: nat, b: nat, m: int)
    requires m > 0
    ensures ModWindowSum(c, a + b, m) == ModWindowSum(c, a, m) + ModWindowSum(c + a, b, m)
    decreases b
  {
    if b > 0 {
      ModWindowSplit(c, a, b - 1, m);
    }
  }

  lemma {:induction false} ModWindowFromZero(n: nat, m: int)
    requires 0 < m && n <= m
    ensures 2 * ModWindowSum(0, n, m) == n * (n - 1)
    decreases n
  {
    if n > 0 {
      var prev := ModWindowSum(0, n - 1, m);
      ModWindowFromZero(n - 1, m);
      ModSmall(n - 1, m);
      assert ModWindowSum(0, n, m) == prev + (n - 1);
      TriangleStep(n);
    }
  }

  lemma TriangleStep(n: int)
    ensures n * (n - 1) == (n - 1) * (n - 2) + 2 * (n - 1)
  {
  }

  lemma ModSmall(x: int, m: int)
    requires 0 <= x < m
    ensures x % m == x
  {
  }

  lemma {:induction false} MulAtLeast(k: int, m: int)
    requires k >= 1 && m > 0
    ensures k * m >= m
    decreases k
  {
    if k > 1 {
      MulAtLeast(k - 1, m);
      assert k * m == (k - 1) * m + m;
    }
  }

  /** Euclidean division has a unique remainder. */
  lemma ModUnique(x: int, m: int, q: int, r: int)
    requires m > 0 && 0 <= r < m && x == q * m + r
    ensures x % m == r
  {
    var q', r' := x / m, x % m;
    assert x == q' * m + r';
    assert (q - q') * m == r' - r;
    if q > q' {
      MulAtLeast(q - q', m);
    } else if q < q' {
      MulAtLeast(q' - q, m);
    }
  }

  /** Adding a multiple of the modulus does not change the remainder. */
  lemma ModAddMultiple(x: int, k: int, m: int)
    requires m > 0
    ensures (x + k * m) % m == x % m
  {
    var q, r := x / m, x % m;
    assert x == q * m + r;
    assert x + k * m == (q + k) * m + r;
    ModUnique(x + k * m, m, q + k, r);
  }

  lemma ModPeriod(c: int, m: int)
    requires m > 0
    ensures (c + m) % m == c % m
  {
    var q, r := c / m, c % m;
    assert c == q * m + r;
    assert c + m == (q + 1) * m + r;
    ModUnique(c + m, m, q + 1, r);
  }

  lemma ModWindowShift(c: int, m: int)
    requires m > 0
    ensures ModWindowSum(c + 1, m, m) == ModWindowSum(c, m, m)
  {
    ModWindowSplit(c, m, 1, m);
    ModWindowSplit(c, 1, m, m);
    assert ModWindowSum(c + m, 1, m) == (c + m) % m;
    assert ModWindowSum(c, 1, m) == c % m;
    ModPeriod(c, m);
  }

  lemma {:induction false} ModWindowAnyStart(c: int, m: int)
    requires m > 0
    ensures ModWindowSum(c, m, m) == ModWindowSum(0, m, m)
    decreases if c < 0 then -c else c
  {
    if c > 0 {
      ModWindowShift(c - 1, m);
      ModWindowAnyStart(c - 1, m);
    } else if c < 0 {
      ModWindowShift(c, m);
      ModWindowAnyStart(c + 1, m);
    }
  }

  /** A window of `k * m` consecutive integers sees every residue modulo `m`
      exactly `k` times, whatever its starting point. */
  lemma {:induction false} ModWindowMultiple(c: int, k: nat, m: int)
    requires m > 0
    ensures 2 * ModWindowSum(c, k * m, m) == k * m * (m - 1)
    decreases k
  {
    if k > 0 {
      var before := (k - 1) * m;
      ModWindowMultiple(c, k - 1, m);
      MultipleStep(k, m);
      ModWindowSplit(c, before, m, m);
      ModWindowAnyStart(c + before, m);
      ModWindowFromZero(m, m);
    }
  }

  lemma MultipleStep(k: int, m: int)
    ensures k * m == (k - 1) * m + m
    ensures k * m * (m - 1) == (k - 1) * m * (m - 1) + m * (m - 1)
  {
  }
}
