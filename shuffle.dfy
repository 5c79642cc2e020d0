/** The Fisher-Yates shuffle used to draw a jury, with the random source
    turned into a parameter: `draws[k]` is the index `j` picked at step `k`,
    when the loop swaps position `i = n - 1 - k` with `j`. */
module Shuffling {
  import opened Records

  /** What `Math.floor(Math.random() * (i + 1))` can return at each step:
      one draw per loop iteration, the draw of step `k` at most `n - 1 - k`. */
  predicate DrawsFit(draws: seq<nat>, n: nat) {
    |draws| == (if n == 0 then 0 else n - 1)
    && forall k :: 0 <= k < |draws| ==> draws[k] <= n - 1 - k
  }

  /** `[a[i], a[j]] = [a[j], a[i]]` on a sequence value. */
  function Swap<T>(s: seq<T>, i: nat, j: nat): (r: seq<T>)
    requires i < |s| && j < |s|
    ensures |r| == |s| && r[i] == s[j] && r[j] == s[i]
    ensures forall k :: 0 <= k < |s| && k != i && k != j ==> r[k] == s[k]
  {
    seq(|s|, k requires 0 <= k < |s| => if k == i then s[j] else if k == j then s[i] else s[k])
  }

  /** A swap permutes. */
  lemma SwapPermutes<T>(s: seq<T>, i: nat, j: nat)
    requires i < |s| && j < |s|
    ensures multiset(Swap(s, i, j)) == multiset(s)
  {
    assert Swap(s, i, j) == s[i := s[j]][j := s[i]];
  }

  /** The sequence after the first `k` iterations of the shuffle loop. */
  function ShuffleSteps<T>(s: seq<T>, draws: seq<nat>, k: nat): (r: seq<T>)
    requires DrawsFit(draws, |s|) && k <= |draws|
    ensures |r| == |s|
  {
    if k == 0 then s
    else Swap(ShuffleSteps(s, draws, k - 1), |s| - k, draws[k - 1])
  }

  /** Every prefix of the loop permutes its input. */
  lemma {:induction false} ShuffleStepsPermutes<T>(s: seq<T>, draws: seq<nat>, k: nat)
    requires DrawsFit(draws, |s|) && k <= |draws|
    ensures multiset(ShuffleSteps(s, draws, k)) == multiset(s)
  {
    if k > 0 {
      var prev := ShuffleSteps(s, draws, k - 1);
      calc {
        multiset(ShuffleSteps(s, draws, k));
        multiset(Swap(prev, |s| - k, draws[k - 1]));
        { SwapPermutes(prev, |s| - k, draws[k - 1]); }
        multiset(prev);
        { ShuffleStepsPermutes(s, draws, k - 1); }
        multiset(s);
      }
    }
  }

  /** The value `shuffle(arr)` returns for the given draws. */
  function Shuffled<T>(s: seq<T>, draws: seq<nat>): (r: seq<T>)
    requires DrawsFit(draws, |s|)
  {
    ShuffleSteps(s, draws, |draws|)
  }

  /** `shuffle(arr)`: copies the input into a fresh array and swaps in a
      descending loop; the result is a permutation of the input, which is
      left as it was. */
  method Shuffle<T>(arr: seq<T>, draws: seq<nat>) returns (r: seq<T>)
    requires DrawsFit(draws, |arr|)
    ensures r == Shuffled(arr, draws)
    ensures |r| == |arr| && multiset(r) == multiset(arr)
  {
    var a := new T[|arr|](k requires 0 <= k < |arr| => arr[k]);
    var i := a.Length - 1;
    while i > 0
      invariant -1 <= i < a.Length
      invariant a.Length > 0 ==> i >= 0
      invariant a[..] == ShuffleSteps(arr, draws, a.Length - 1 - i)
    {
      ghost var before := a[..];
      var j := draws[a.Length - 1 - i];
      a[i], a[j] := a[j], a[i];
      assert a[..] == Swap(before, i, j);
      i := i - 1;
    }
    r := a[..];
    ShuffleStepsPermutes(arr, draws, |draws|);
  }

  /** Once iteration `k` has filled position `|s| - k`, later iterations
      leave it alone: they swap only positions below it. */
  lemma {:induction false} ShuffleStepsSettles<T>(s: seq<T>, draws: seq<nat>, k: nat, m: nat)
    requires DrawsFit(draws, |s|) && 1 <= k <= m <= |draws|
    ensures ShuffleSteps(s, draws, m)[|s| - k] == ShuffleSteps(s, draws, k)[|s| - k]
  {
    if m > k {
      ShuffleStepsSettles(s, draws, k, m - 1);
    }
  }

  /** The final order holds at position `|s| - k` what iteration `k` put there. */
  lemma {:induction false} ShuffledSettled<T>(s: seq<T>, draws: seq<nat>, k: nat)
    requires DrawsFit(draws, |s|) && 1 <= k <= |draws|
    ensures Shuffled(s, draws)[|s| - k] == ShuffleSteps(s, draws, k)[|s| - k]
  {
    ShuffleStepsSettles(s, draws, k, |draws|);
  }

  /** Two runs on a list without repetitions that end in the same order and
      reach the same state before iteration `k` make the same draw there. */
  lemma {:induction false} StepDrawAgrees<T>(s: seq<T>, d1: seq<nat>, d2: seq<nat>, k: nat)
    requires Distinct(s) && DrawsFit(d1, |s|) && DrawsFit(d2, |s|) && 1 <= k <= |d1|
    requires Shuffled(s, d1) == Shuffled(s, d2)
    requires ShuffleSteps(s, d1, k - 1) == ShuffleSteps(s, d2, k - 1)
    ensures d1[k - 1] == d2[k - 1]
  {
    var prev := ShuffleSteps(s, d1, k - 1);
    var i := |s| - k;
    ShuffledSettled(s, d1, k);
    ShuffledSettled(s, d2, k);
    assert ShuffleSteps(s, d1, k)[i] == prev[d1[k - 1]];
    assert ShuffleSteps(s, d2, k)[i] == prev[d2[k - 1]];
    ShuffleStepsDistinct(s, d1, k - 1);
  }

  /** Two runs on a list without repetitions that end in the same order
      pass through the same intermediate states. */
  lemma {:induction false} StatesAgree<T>(s: seq<T>, d1: seq<nat>, d2: seq<nat>, k: nat)
    requires Distinct(s) && DrawsFit(d1, |s|) && DrawsFit(d2, |s|) && k <= |d1|
    requires Shuffled(s, d1) == Shuffled(s, d2)
    ensures ShuffleSteps(s, d1, k) == ShuffleSteps(s, d2, k)
  {
    if k > 0 {
      StatesAgree(s, d1, d2, k - 1);
      StepDrawAgrees(s, d1, d2, k);
    }
  }

  /** Different draws give different orders: on a list without repetitions
      each admissible draw sequence yields its own permutation. */
  lemma {:induction false} ShuffledInjective<T>(s: seq<T>, d1: seq<nat>, d2: seq<nat>)
    requires Distinct(s) && DrawsFit(d1, |s|) && DrawsFit(d2, |s|)
    ensures d1 != d2 ==> Shuffled(s, d1) != Shuffled(s, d2)
  {
    if Shuffled(s, d1) == Shuffled(s, d2) {
      assert |d1| == |d2|;
      forall m | 0 <= m < |d1|
        ensures d1[m] == d2[m]
      {
        DrawAgrees(s, d1, d2, m);
      }
    }
  }

  /** Two runs on a list without repetitions that end in the same order
      make the same draw at every iteration. */
  lemma {:induction false} DrawAgrees<T>(s: seq<T>, d1: seq<nat>, d2: seq<nat>, m: nat)
    requires Distinct(s) && DrawsFit(d1, |s|) && DrawsFit(d2, |s|) && m < |d1|
    requires Shuffled(s, d1) == Shuffled(s, d2)
    ensures d1[m] == d2[m]
  {
    StatesAgree(s, d1, d2, m);
    StepDrawAgrees(s, d1, d2, m + 1);
  }

  /** Swapping commutes with taking user ids. */
  lemma IdsSwap(s: seq<User>, i: nat, j: nat)
    requires i < |s| && j < |s|
    ensures Ids(Swap(s, i, j)) == Swap(Ids(s), i, j)
  {
  }

  /** Shuffling users and then taking their ids is shuffling their ids. */
  lemma {:induction false} IdsShuffleSteps(s: seq<User>, draws: seq<nat>, k: nat)
    requires DrawsFit(draws, |s|) && k <= |draws|
    ensures Ids(ShuffleSteps(s, draws, k)) == ShuffleSteps(Ids(s), draws, k)
  {
    if k > 0 {
      var prev := ShuffleSteps(s, draws, k - 1);
      var i, j := |s| - k, draws[k - 1];
      IdsShuffleSteps(s, draws, k - 1);
      IdsSwap(prev, i, j);
      calc {
        Ids(ShuffleSteps(s, draws, k));
        Ids(Swap(prev, i, j));
        Swap(Ids(prev), i, j);
        Swap(ShuffleSteps(Ids(s), draws, k - 1), i, j);
        ShuffleSteps(Ids(s), draws, k);
      }
    }
  }

  /** A shuffle of a list without repetitions has no repetitions. */
  lemma {:induction false} ShuffleStepsDistinct<T>(s: seq<T>, draws: seq<nat>, k: nat)
    requires DrawsFit(draws, |s|) && k <= |draws|
    requires Distinct(s)
    ensures Distinct(ShuffleSteps(s, draws, k))
  {
    if k > 0 {
      ShuffleStepsDistinct(s, draws, k - 1);
      var prev := ShuffleSteps(s, draws, k - 1);
      var r := ShuffleSteps(s, draws, k);
      var i, j := |s| - k, draws[k - 1];
      forall a, b | 0 <= a < b < |r|
        ensures r[a] != r[b]
      {
        var a' := if a == i then j else if a == j then i else a;
        var b' := if b == i then j else if b == j then i else b;
        assert r[a] == prev[a'] && r[b] == prev[b'];
      }
    }
  }

  /** With distinct user ids, the ids of any prefix of a shuffle are distinct
      and are ids of users from the input. */
  lemma ShuffledPrefixIds(s: seq<User>, draws: seq<nat>, n: nat)
    requires DrawsFit(draws, |s|) && n <= |s|
    requires Distinct(Ids(s))
    ensures Distinct(Ids(Shuffled(s, draws)[..n]))
    ensures forall id :: id in Ids(Shuffled(s, draws)[..n]) ==> id in Ids(s)
  {
    var r := Shuffled(s, draws);
    IdsShuffleSteps(s, draws, |draws|);
    ShuffleStepsDistinct(Ids(s), draws, |draws|);
    ShuffleStepsPermutes(Ids(s), draws, |draws|);
    assert Ids(r[..n]) == Ids(r)[..n];
    forall id | id in Ids(r)[..n]
      ensures id in Ids(s)
    {
      assert id in multiset(Ids(r));
    }
  }
}
