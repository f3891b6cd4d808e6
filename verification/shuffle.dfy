/** `shuffleArray`: the in-place Fisher-Yates shuffle of the quiz runner.
    The random source is injected as a table of draws: `picks[i]` is the
    index `j` drawn uniformly from `0` to `i` while the loop counter is
    `i`, so `0 <= picks[i] <= i`. */
module Shuffle {

  /** A table of draws for a list of length `n`. */
  predicate ValidPicks(picks: seq<nat>, n: nat) {
    |picks| >= n && forall i :: 0 <= i < n ==> picks[i] <= i
  }

  /** The destructuring swap of the shuffle loop: the elements at `i` and
      `j` trade places, and every other element stays. */
  function Swap<T>(s: seq<T>, i: nat, j: nat): (r: seq<T>)
    requires i < |s| && j < |s|
    ensures |r| == |s| && r[i] == s[j] && r[j] == s[i]
    ensures forall k :: 0 <= k < |s| && k != i && k != j ==> r[k] == s[k]
  {
    s[i := s[j]][j := s[i]]
  }

  /** A swap only reorders. */
  lemma SwapPermutes<T>(s: seq<T>, i: nat, j: nat)
    requires i < |s| && j < |s|
    ensures multiset(Swap(s, i, j)) == multiset(s)
  {
    var r := Swap(s, i, j);
    assert r == s[i := s[j]][j := s[i]];
  }

  /** The loop iterations for counters `i` down to 1, applied to `s`. */
  function ShuffleDown<T>(s: seq<T>, picks: seq<nat>, i: nat): (r: seq<T>)
    requires i < |s| && ValidPicks(picks, |s|)
    ensures |r| == |s|
    decreases i
  {
    if i == 0 then s else ShuffleDown(Swap(s, i, picks[i]), picks, i - 1)
  }

  /** Every iteration only swaps, so the loop only reorders. */
  lemma {:induction false} ShuffleDownPermutes<T>(s: seq<T>, picks: seq<nat>, i: nat)
    requires i < |s| && ValidPicks(picks, |s|)
    ensures multiset(ShuffleDown(s, picks, i)) == multiset(s)
    decreases i
  {
    if i > 0 {
      SwapPermutes(s, i, picks[i]);
      ShuffleDownPermutes(Swap(s, i, picks[i]), picks, i - 1);
    }
  }

  /** Iterations with counter `i` or below leave the slots above `i` alone. */
  lemma {:induction false} ShuffleDownKeepsAbove<T>(s: seq<T>, picks: seq<nat>, i: nat, k: nat)
    requires i < k < |s| && ValidPicks(picks, |s|)
    ensures ShuffleDown(s, picks, i)[k] == s[k]
    decreases i
  {
    if i > 0 {
      ShuffleDownKeepsAbove(Swap(s, i, picks[i]), picks, i - 1, k);
    }
  }

  /** The whole shuffle: the counter starts at the last index. */
  function Shuffled<T>(s: seq<T>, picks: seq<nat>): (r: seq<T>)
    requires ValidPicks(picks, |s|)
    ensures |r| == |s|
    ensures |s| <= 1 ==> r == s
  {
    if |s| == 0 then s else ShuffleDown(s, picks, |s| - 1)
  }

  /** `shuffleArray` yields a permutation of its input: the same length and
      the same elements with the same multiplicities. */
  lemma ShuffledPermutes<T>(s: seq<T>, picks: seq<nat>)
    requires ValidPicks(picks, |s|)
    ensures |Shuffled(s, picks)| == |s|
    ensures multiset(Shuffled(s, picks)) == multiset(s)
  {
    if |s| > 0 {
      ShuffleDownPermutes(s, picks, |s| - 1);
    }
  }

  /** The loop of `shuffleArray`, run on an array holding a copy of `xs`:
      the result is the shuffle the draws determine, a permutation of `xs`. */
  method ShuffleArray<T>(xs: seq<T>, picks: seq<nat>) returns (ys: seq<T>)
    requires ValidPicks(picks, |xs|)
    ensures ys == Shuffled(xs, picks)
    ensures |ys| == |xs| && multiset(ys) == multiset(xs)
  {
    if |xs| == 0 {
      return xs;
    }
    var a := new T[|xs|](k requires 0 <= k < |xs| => xs[k]);
    assert a[..] == xs;
    var i := a.Length - 1;
    while i > 0
      invariant 0 <= i < a.Length == |xs|
      invariant ShuffleDown(a[..], picks, i) == Shuffled(xs, picks)
    {
      var j := picks[i];
      ghost var before := a[..];
      a[i], a[j] := a[j], a[i];
      assert a[..] == Swap(before, i, j);
      i := i - 1;
    }
    ys := a[..];
    ShuffledPermutes(xs, picks);
  }

  /** The first draw fixes the last slot: it receives the element at
      `picks[n - 1]`, and later iterations never touch it. */
  lemma {:induction false} LastSlotFromFirstDraw<T>(s: seq<T>, picks: seq<nat>)
    requires ValidPicks(picks, |s|) && |s| >= 2
    ensures Shuffled(s, picks)[|s| - 1] == s[picks[|s| - 1]]
  {
    var n := |s|;
    var swapped := Swap(s, n - 1, picks[n - 1]);
    assert Shuffled(s, picks) == ShuffleDown(swapped, picks, n - 2);
    ShuffleDownKeepsAbove(swapped, picks, n - 2, n - 1);
  }

  /** Draws that always pick the counter itself leave the order unchanged. */
  lemma {:induction false} IdentityDraws<T>(s: seq<T>, picks: seq<nat>, i: nat)
    requires i < |s| && ValidPicks(picks, |s|)
    requires forall k :: 0 <= k < |s| ==> picks[k] == k
    ensures ShuffleDown(s, picks, i) == s
    decreases i
  {
    if i > 0 {
      assert Swap(s, i, picks[i]) == s;
      calc {
        ShuffleDown(s, picks, i);
        ShuffleDown(Swap(s, i, picks[i]), picks, i - 1);
        { IdentityDraws(s, picks, i - 1); }
        s;
      }
    }
  }
}
