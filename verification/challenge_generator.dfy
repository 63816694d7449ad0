/** The numbers of the "sum of 1000" challenge: 100 pages of 10 integers derived
    from the user id, the exercise id and the slot position, generated once on
    the server and once more, as a copy, on the client. */
module ChallengeGenerator {
  import opened Common

  const PAGE_COUNT := 100
  const PAGE_SIZE := 10

  /** The value in slot `i` of page `page` (both counted from 0). The modulus is
      Python's, which never yields a negative remainder for a positive divisor. */
  function Seed(userId: int, exerciseId: int, page: int, i: int): int {
    (userId * 1000 + exerciseId * 100 + page * 10 + i) % 200 + 1
  }

  function Row(userId: int, exerciseId: int, page: int): seq<int> {
    seq(PAGE_SIZE, i => Seed(userId, exerciseId, page, i))
  }

  /** The full table: row `p` holds the ten values of page `p + 1`. */
  function Table(userId: int, exerciseId: int): seq<seq<int>> {
    seq(PAGE_COUNT, p => Row(userId, exerciseId, p))
  }

  /** The sum of every entry of every row, rows taken in order. */
  function TableSum(rows: seq<seq<int>>): int
    decreases |rows|
  {
    if |rows| == 0 then 0 else TableSum(rows[..|rows| - 1]) + Sum(rows[|rows| - 1])
  }

  /** Every table has 100 rows of 10 values, each between 1 and 200. */
  lemma TableShape(userId: int, exerciseId: int)
    ensures |Table(userId, exerciseId)| == 100
    ensures forall p :: 0 <= p < 100 ==> |Table(userId, exerciseId)[p]| == 10
    ensures forall p, i :: 0 <= p < 100 && 0 <= i < 10 ==>
      1 <= Table(userId, exerciseId)[p][i] <= 200
  {
  }

  /** The user's contribution `userId * 1000` is a multiple of 200, so it never
      changes a value: the numbers are the same for every user. */
  lemma SeedIgnoresUser(userId: int, exerciseId: int, page: int, i: int)
    ensures Seed(userId, exerciseId, page, i) == Seed(0, exerciseId, page, i)
  {
    ModAddMultiple(exerciseId * 100 + page * 10 + i, 5 * userId, 200);
    assert userId * 1000 + exerciseId * 100 + page * 10 + i
        == exerciseId * 100 + page * 10 + i + 5 * userId * 200;
  }

  lemma TableIgnoresUser(userId: int, otherUser: int, exerciseId: int)
    ensures Table(userId, exerciseId) == Table(otherUser, exerciseId)
  {
    forall p, i | 0 <= p < 100 && 0 <= i < 10
      ensures Seed(userId, exerciseId, p, i) == Seed(otherUser, exerciseId, p, i)
    {
      SeedIgnoresUser(userId, exerciseId, p, i);
      SeedIgnoresUser(otherUser, exerciseId, p, i);
    }
    assert forall p | 0 <= p < 100 :: Row(userId, exerciseId, p) == Row(otherUser, exerciseId, p);
  }

  /** Only the parity of the exercise id matters: `exerciseId` and
      `exerciseId + 2` get identical tables. */
  lemma TableDependsOnParityOnly(userId: int, exerciseId: int)
    ensures Table(userId, exerciseId) == Table(userId, exerciseId + 2)
  {
    forall p, i | 0 <= p < 100 && 0 <= i < 10
      ensures Seed(userId, exerciseId, p, i) == Seed(userId, exerciseId + 2, p, i)
    {
      var x := userId * 1000 + exerciseId * 100 + p * 10 + i;
      ModAddMultiple(x, 1, 200);
      assert userId * 1000 + (exerciseId + 2) * 100 + p * 10 + i == x + 1 * 200;
    }
    assert forall p | 0 <= p < 100 :: Row(userId, exerciseId, p) == Row(userId, exerciseId + 2, p);
  }

  /** Neighbouring exercise ids do get different tables (the first value moves
      by 100 modulo 200). */
  lemma NeighbourExercisesDiffer(userId: int, exerciseId: int)
    ensures Table(userId, exerciseId) != Table(userId, exerciseId + 1)
  {
    var x := userId * 1000 + exerciseId * 100;
    var q, r := x / 200, x % 200;
    assert x == q * 200 + r;
    if r < 100 {
      ModUnique(x + 100, 200, q, r + 100);
    } else {
      ModUnique(x + 100, 200, q + 1, r - 100);
    }
    assert Table(userId, exerciseId)[0][0] != Table(userId, exerciseId + 1)[0][0];
  }

  /** The residues modulo `m` of the integers from `lo` up to `hi`, summed.
      Recursing on the distance keeps a window of literal width from being
      unrolled wherever it is mentioned. */
  function RangeSum(lo: int, hi: int, m: int): int
    requires m > 0
    decreases hi - lo
  {
    if hi <= lo then 0 else RangeSum(lo, hi - 1, m) + (hi - 1) % m
  }

  lemma {:induction false} RangeSumIsWindow(c: int, n: nat, m: int)
    requires m > 0
    ensures RangeSum(c, c + n, m) == ModWindowSum(c, n, m)
    decreases n
  {
    if n > 0 {
      RangeSumIsWindow(c, n - 1, m);
    }
  }

  lemma {:induction false} RangeSumSplit(lo: int, mid: int, hi: int, m: int)
    requires m > 0 && lo <= mid <= hi
    ensures RangeSum(lo, hi, m) == RangeSum(lo, mid, m) + RangeSum(mid, hi, m)
    decreases hi - mid
  {
    if hi > mid {
      RangeSumSplit(lo, mid, hi - 1, m);
    }
  }

  /** Slot `i` of page `page` is entry `page * 10 + i` of the modular window that
      starts at `userId * 1000 + exerciseId * 100`. */
  lemma {:induction false} RowPrefixSum(userId: int, exerciseId: int, page: int, n: nat)
    requires n <= 10
    ensures var start := userId * 1000 + exerciseId * 100 + page * 10;
      Sum(Row(userId, exerciseId, page)[..n]) == RangeSum(start, start + n, 200) + n
    decreases n
  {
    if n > 0 {
      var row := Row(userId, exerciseId, page);
      assert row[..n][..n - 1] == row[..n - 1];
      RowPrefixSum(userId, exerciseId, page, n - 1);
    }
  }

  /** Row `j` of `rows` sums to the ten-wide range that starts `10 * j` after
      `c`, plus ten (each value is its residue plus one). */
  predicate WindowRows(rows: seq<seq<int>>, c: int, m: int)
    requires m > 0
    decreases |rows|
  {
    |rows| == 0 ||
    (var start := c + 10 * (|rows| - 1);
     WindowRows(rows[..|rows| - 1], c, m) && Sum(rows[|rows| - 1]) == RangeSum(start, start + 10, m) + 10)
  }

  /** Such rows add up to the range spanning them all. */
  lemma {:induction false} WindowRowsSum(rows: seq<seq<int>>, c: int, m: int)
    requires m > 0 && WindowRows(rows, c, m)
    ensures TableSum(rows) == RangeSum(c, c + 10 * |rows|, m) + 10 * |rows|
    decreases |rows|
  {
    if |rows| > 0 {
      var init := rows[..|rows| - 1];
      WindowRowsSum(init, c, m);
      RangeSumSplit(c, c + 10 * |init|, c + 10 * |rows|, m);
    }
  }

  /** A row summing to the next range extends such rows. */
  lemma WindowRowsSnoc(rows: seq<seq<int>>, row: seq<int>, c: int, m: int)
    requires m > 0 && WindowRows(rows, c, m)
    requires Sum(row) == RangeSum(c + 10 * |rows|, c + 10 * |rows| + 10, m) + 10
    ensures WindowRows(rows + [row], c, m)
  {
    assert (rows + [row])[..|rows|] == rows;
  }

  /** The table's first `k` rows are such rows, from the table's key. */
  lemma {:induction false} TableWindowRows(userId: int, exerciseId: int, k: nat)
    requires k <= 100
    ensures WindowRows(Table(userId, exerciseId)[..k], userId * 1000 + exerciseId * 100, 200)
    decreases k
  {
    if k > 0 {
      TableWindowRows(userId, exerciseId, k - 1);
      TablePrefixSnoc(userId, exerciseId, k);
      RowSum(userId, exerciseId, k - 1);
      WindowRowsSnoc(Table(userId, exerciseId)[..k - 1], Row(userId, exerciseId, k - 1),
                     userId * 1000 + exerciseId * 100, 200);
    }
  }

  lemma TablePrefixSnoc(userId: int, exerciseId: int, k: nat)
    requires 0 < k <= 100
    ensures |Table(userId, exerciseId)[..k - 1]| == k - 1
    ensures Table(userId, exerciseId)[..k] == Table(userId, exerciseId)[..k - 1] + [Row(userId, exerciseId, k - 1)]
  {
  }

  /** A whole row is the ten-wide range at its page's offset, plus ten. */
  lemma RowSum(userId: int, exerciseId: int, page: int)
    ensures var start := userId * 1000 + exerciseId * 100 + page * 10;
      Sum(Row(userId, exerciseId, page)) == RangeSum(start, start + 10, 200) + 10
  {
    var row := Row(userId, exerciseId, page);
    RowPrefixSum(userId, exerciseId, page, 10);
    assert row[..10] == row;
  }

  lemma TablePrefixSum(userId: int, exerciseId: int, k: nat)
    requires k <= 100
    ensures TableSum(Table(userId, exerciseId)[..k])
         == ModWindowSum(userId * 1000 + exerciseId * 100, 10 * k, 200) + 10 * k
  {
    var c := userId * 1000 + exerciseId * 100;
    var rows := Table(userId, exerciseId)[..k];
    assert |rows| == k;
    TableWindowRows(userId, exerciseId, k);
    WindowRowsSum(rows, c, 200);
    RangeSumIsWindow(c, 10 * k, 200);
  }

  /** The total is 100500 for every user and every exercise: the thousand
      consecutive keys see each residue modulo 200 exactly five times. */
  lemma TotalSumIsConstant(userId: int, exerciseId: int)
    ensures TableSum(Table(userId, exerciseId)) == 100500
  {
    var t := Table(userId, exerciseId);
    TablePrefixSum(userId, exerciseId, 100);
    assert t[..100] == t;
    ModWindowMultiple(userId * 1000 + exerciseId * 100, 5, 200);
  }

  /** The server's generator, written as the nested loops it is. */
  method GenerateChallengeNumbers(userId: int, exerciseId: int)
    returns (numbers: seq<seq<int>>, totalSum: int)
    ensures |numbers| == 100
    ensures forall p :: 0 <= p < 100 ==> |numbers[p]| == 10
    ensures forall p, i :: 0 <= p < 100 && 0 <= i < 10 ==> 1 <= numbers[p][i] <= 200
    ensures forall p, i :: 0 <= p < 100 && 0 <= i < 10 ==>
      numbers[p][i] == Seed(0, exerciseId, p, i)
    ensures totalSum == TableSum(numbers)
    ensures totalSum == 100500
  {
    numbers := [];
    totalSum := 0;
    var page := 0;
    while page < 100
      invariant 0 <= page <= 100
      invariant numbers == Table(userId, exerciseId)[..page]
      invariant totalSum == TableSum(numbers)
    {
      var pageNumbers: seq<int> := [];
      var i := 0;
      while i < 10
        invariant 0 <= i <= 10
        invariant pageNumbers == Row(userId, exerciseId, page)[..i]
        invariant totalSum == TableSum(numbers) + Sum(pageNumbers)
      {
        var seed := (userId * 1000 + exerciseId * 100 + page * 10 + i) % 200 + 1;
        assert (pageNumbers + [seed])[..i] == pageNumbers;
        pageNumbers := pageNumbers + [seed];
        totalSum := totalSum + seed;
        i := i + 1;
      }
      assert pageNumbers == Row(userId, exerciseId, page);
      assert (numbers + [pageNumbers])[..page] == numbers;
      numbers := numbers + [pageNumbers];
      page := page + 1;
    }
    assert numbers == Table(userId, exerciseId);
    TotalSumIsConstant(userId, exerciseId);
    forall p, i | 0 <= p < 100 && 0 <= i < 10
      ensures numbers[p][i] == Seed(0, exerciseId, p, i)
    {
      SeedIgnoresUser(userId, exerciseId, p, i);
    }
  }

  /** User 1, exercise 1, first slot: `(1*1000 + 1*100 + 0*10 + 0) % 200 + 1`
      is 101. */
  lemma FirstSlotExample()
    ensures Table(1, 1)[0][0] == 101
  {
  }

  // ---------------------------------------------------------------------------
  // The client copy

  /** JavaScript `%`: the remainder takes the sign of the dividend. */
  function JsRem(a: int, m: int): int
    requires m > 0
  {
    if a >= 0 then a % m else -((-a) % m)
  }

  function ClientSeed(userId: int, exerciseId: int, page: int, i: int): int {
    JsRem(userId * 1000 + exerciseId * 100 + page * 10 + i, 200) + 1
  }

  function ClientTable(userId: int, exerciseId: int): seq<seq<int>> {
    seq(PAGE_COUNT, p => seq(PAGE_SIZE, i => ClientSeed(userId, exerciseId, p, i)))
  }

  /** The client-side record; the optional fields are absent on a fresh one. */
  datatype ChallengeData = ChallengeData(
    id: int,
    userId: int,
    exerciseId: int,
    numbers: seq<seq<int>>,
    totalSum: int,
    isCompleted: bool,
    completedAt: Option<string>,
    attempts: int,
    bestTime: Option<int>)

  /** The client builds a fresh record around its own copy of the table. Note
      the argument order: exercise first, then user. */
  function GenerateChallengeData(exerciseId: int, userId: int): (d: ChallengeData)
    ensures d.id == 0 && !d.isCompleted && d.attempts == 0
    ensures d.userId == userId && d.exerciseId == exerciseId
    ensures d.completedAt == None && d.bestTime == None
    ensures |d.numbers| == 100 && forall p :: 0 <= p < 100 ==> |d.numbers[p]| == 10
    ensures d.totalSum == TableSum(d.numbers)
  {
    var numbers := ClientTable(userId, exerciseId);
    ChallengeData(0, userId, exerciseId, numbers, TableSum(numbers), false, None, 0, None)
  }

  /** For ids that make every key non-negative (database ids always do), the
      client's numbers and total agree with the server's. */
  lemma ClientMatchesServer(userId: int, exerciseId: int)
    requires userId * 1000 + exerciseId * 100 >= 0
    ensures GenerateChallengeData(exerciseId, userId).numbers == Table(userId, exerciseId)
    ensures GenerateChallengeData(exerciseId, userId).totalSum == 100500
  {
    assert forall p | 0 <= p < 100 ::
      ClientTable(userId, exerciseId)[p] == Row(userId, exerciseId, p);
    TotalSumIsConstant(userId, exerciseId);
  }

  /** With a negative key the two remainders part ways: user -1, exercise 0,
      page 0, slot 1 gives 2 on the server but -198 on the client. */
  lemma ClientDivergesOnNegativeKeys()
    ensures Seed(-1, 0, 0, 1) == 2
    ensures ClientSeed(-1, 0, 0, 1) == -198
  {
  }
}
