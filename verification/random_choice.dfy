/** Random choices as data. The source draws with `random.sample` and
    `random.shuffle`; here the random source is an arbitrary list of integers
    ("picks"), and draw `i` takes the item at position `picks[i] mod n` among
    the `n` items not yet drawn. Nothing is assumed about the picks, so the
    properties below hold whatever the random source returns. */
module RandomChoice {
  import opened Common

  /** The position the next draw takes among `n` remaining items; an
      exhausted pick list keeps taking the first one. */
  function PickIndex(picks: seq<int>, n: int): (j: int)
    requires n > 0
    ensures 0 <= j < n
  {
    if |picks| == 0 then 0 else picks[0] % n
  }

  function Rest(picks: seq<int>): seq<int> {
    if |picks| == 0 then [] else picks[1..]
  }

  /** `random.sample(xs, k)`: `k` items drawn without replacement. */
  function Sample<T>(xs: seq<T>, k: nat, picks: seq<int>): (r: seq<T>)
    requires k <= |xs|
    ensures |r| == k
    ensures multiset(r) <= multiset(xs)
    ensures k == |xs| ==> multiset(r) == multiset(xs)
    decreases k
  {
    if k == 0 then []
    else
      var j := PickIndex(picks, |xs|);
      var left := xs[..j] + xs[j + 1..];
      RemoveAt(xs, j);
      var tail := Sample(left, k - 1, Rest(picks));
      assert multiset([xs[j]] + tail) == multiset{xs[j]} + multiset(tail);
      [xs[j]] + tail
  }

  /** `random.shuffle(xs)`: every item drawn, in the order the picks say. */
  function Shuffle<T>(xs: seq<T>, picks: seq<int>): (r: seq<T>)
    ensures |r| == |xs|
    ensures multiset(r) == multiset(xs)
  {
    Sample(xs, |xs|, picks)
  }

  /** A sample of items from a list without repeats has no repeats. */
  lemma SampleNoDup<T>(xs: seq<T>, k: nat, picks: seq<int>)
    requires k <= |xs| && NoDup(xs)
    ensures NoDup(Sample(xs, k, picks))
  {
    var r := Sample(xs, k, picks);
    forall x | x in multiset(r)
      ensures multiset(r)[x] <= 1
    {
      assert multiset(r)[x] <= multiset(xs)[x];
    }
  }

  /** Picks of zero draw the items in their original order. */
  lemma {:induction false} SampleWithZeroPicks<T>(xs: seq<T>, k: nat, picks: seq<int>)
    requires k <= |xs|
    requires forall i :: 0 <= i < |picks| ==> picks[i] == 0
    ensures Sample(xs, k, picks) == xs[..k]
    decreases k
  {
    if k > 0 {
      ZeroPickStep(xs, k, picks);
      SampleWithZeroPicks(xs[1..], k - 1, Rest(picks));
      ConsPrefix(xs, k);
    }
  }

  /** One draw with a zero pick takes the first item and leaves zero picks. */
  lemma ZeroPickStep<T>(xs: seq<T>, k: nat, picks: seq<int>)
    requires 0 < k <= |xs|
    requires forall i :: 0 <= i < |picks| ==> picks[i] == 0
    ensures Sample(xs, k, picks) == [xs[0]] + Sample(xs[1..], k - 1, Rest(picks))
    ensures forall i :: 0 <= i < |Rest(picks)| ==> Rest(picks)[i] == 0
  {
    assert PickIndex(picks, |xs|) == 0;
    assert xs[..0] + xs[1..] == xs[1..];
    var more := Rest(picks);
    assert forall i :: 0 <= i < |more| ==> more[i] == picks[i + 1];
  }

  lemma ConsPrefix<T>(xs: seq<T>, k: nat)
    requires 0 < k <= |xs|
    ensures [xs[0]] + xs[1..][..k - 1] == xs[..k]
  {
    var front := [xs[0]] + xs[1..][..k - 1];
    forall i | 0 <= i < k
      ensures front[i] == xs[..k][i]
    {
      if i > 0 {
        assert front[i] == xs[1..][i - 1];
      }
    }
  }
}
