/** Rejection sampling of distinct integers (`createRandomArray`). The random source is
    injected: each draw is the offset `Math.floor((upper - lower) * Math.random())`, so the
    sample taken from it is `draw + lower`. */
module Sampling {
  import opened Sets

  /** Every sample value the draws can contribute: the shifted draws outside `excludes`. */
  ghost function Admissible(draws: seq<int>, lower: int, excludes: set<int>): set<int>
  {
    set k | 0 <= k < |draws| && draws[k] + lower !in excludes :: draws[k] + lower
  }

  /** The contents of the sample set, in insertion order, after the loop has consumed `draws`:
      an excluded draw is rejected and a repeated one leaves the set as it was. */
  function Collected(draws: seq<int>, lower: int, excludes: set<int>): (samples: seq<int>)
    ensures forall j, k :: 0 <= j < k < |samples| ==> samples[j] != samples[k]
    ensures forall x :: x in samples <==> x in Admissible(draws, lower, excludes)
  {
    if draws == [] then []
    else
      var prefix := draws[..|draws| - 1];
      var previous := Collected(prefix, lower, excludes);
      var sample := draws[|draws| - 1] + lower;
      assert forall k :: 0 <= k < |prefix| ==> prefix[k] == draws[k];
      if sample in excludes || sample in previous then previous else previous + [sample]
  }

  /** The collected samples are exactly as many as the admissible values. */
  lemma CollectedCard(draws: seq<int>, lower: int, excludes: set<int>)
    ensures |Collected(draws, lower, excludes)| == |Admissible(draws, lower, excludes)|
  {
    var samples := Collected(draws, lower, excludes);
    DistinctCard(samples);
    assert (set x | x in samples) == Admissible(draws, lower, excludes);
  }

  /** Draws until `size` distinct values outside `excludes` are collected (minesweeper.ts:5-22).
      `used` is the number of draws consumed; the loop stops at the first draw that completes
      the set. The precondition on `draws` stands for the source's reliance on `Math.random`
      eventually producing enough distinct admissible values. */
  method CreateRandomArray(lower: int, upper: int, excludes: set<int>, size: nat, draws: seq<int>)
    returns (samples: seq<int>, used: nat)
    requires forall k :: 0 <= k < |draws| ==> 0 <= draws[k] < upper - lower
    requires |Admissible(draws, lower, excludes)| >= size
    ensures used <= |draws| && samples == Collected(draws[..used], lower, excludes)
    ensures |samples| == size
    ensures used > 0 ==> |Collected(draws[..used - 1], lower, excludes)| < size
    ensures forall j, k :: 0 <= j < k < |samples| ==> samples[j] != samples[k]
    ensures forall x :: x in samples ==> lower <= x < upper && x !in excludes
  {
    CollectedCard(draws, lower, excludes);
    assert draws[..|draws|] == draws;
    samples, used := [], 0;
    while |samples| < size
      invariant used <= |draws| && samples == Collected(draws[..used], lower, excludes)
      invariant used > 0 ==> |Collected(draws[..used - 1], lower, excludes)| < size
      invariant |samples| <= size
      decreases |draws| - used
    {
      assert used < |draws|;
      var sample := draws[used] + lower;
      if sample !in excludes {
        if sample !in samples {
          samples := samples + [sample];
        }
      }
      assert draws[..used + 1][..used] == draws[..used];
      used := used + 1;
    }
  }
}
