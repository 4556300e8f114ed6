/** The bootstrap percentile interval for a mean. The random draws are a parameter: one list of
    sample indices for each resample. */
module BootstrapInterval {
  import opened StableSort

  function Ascending(): (real, real) -> bool {
    (a: real, b: real) => a <= b
  }

  ghost predicate Draws(draws: seq<seq<nat>>, n: nat) {
    forall r :: 0 <= r < |draws| ==> |draws[r]| == n && forall m :: 0 <= m < n ==> draws[r][m] < n
  }

  function DrawnSum(data: seq<real>, draw: seq<nat>): real
    requires forall m :: 0 <= m < |draw| ==> draw[m] < |data|
  {
    if draw == [] then 0.0 else DrawnSum(data, draw[..|draw| - 1]) + data[draw[|draw| - 1]]
  }

  ghost predicate Between(data: seq<real>, lo: real, hi: real) {
    forall i :: 0 <= i < |data| ==> lo <= data[i] <= hi
  }

  lemma {:induction false} DrawnSumBounds(data: seq<real>, draw: seq<nat>, lo: real, hi: real)
    requires (forall m :: 0 <= m < |draw| ==> draw[m] < |data|) && Between(data, lo, hi)
    ensures |draw| as real * lo <= DrawnSum(data, draw) <= |draw| as real * hi
  {
    if draw != [] {
      var k := |draw| - 1;
      DrawnSumBounds(data, draw[..k], lo, hi);
      assert |draw[..k]| == k && lo <= data[draw[k]] <= hi;
      Distribute(k, lo);
      Distribute(k, hi);
    }
  }

  lemma Distribute(k: nat, x: real)
    ensures (k + 1) as real * x == k as real * x + x
  {
  }

  lemma MeanBounds(sum: real, n: nat, lo: real, hi: real)
    requires n > 0 && n as real * lo <= sum <= n as real * hi
    ensures lo <= sum / n as real <= hi
  {
    var q := sum / n as real;
    assert q * n as real == sum;
    Cancel(lo, q, n as real);
    Cancel(q, hi, n as real);
  }

  lemma Cancel(a: real, b: real, c: real)
    requires c > 0.0 && a * c <= b * c
    ensures a <= b
  {
  }

  function LowerIndex(alpha: real, n: nat): int {
    (alpha / 2.0 * n as real).Floor
  }

  function UpperIndex(alpha: real, n: nat): int {
    var i := ((1.0 - alpha / 2.0) * n as real).Floor;
    if i < n - 1 then i else n - 1
  }

  // Both ends index the resampled means, in order.
  lemma IndicesInRange(alpha: real, n: nat)
    requires 0.0 <= alpha < 1.0 && n > 0
    ensures 0 <= LowerIndex(alpha, n) <= UpperIndex(alpha, n) < n
  {
    var x, y := alpha / 2.0 * n as real, (1.0 - alpha / 2.0) * n as real;
    assert 0.0 <= x by { Product(alpha / 2.0, n); }
    assert x <= y by { Product(1.0 - alpha, n); }
    assert x < n as real by { Product(1.0 - alpha / 2.0, n); }
  }

  lemma Product(a: real, n: nat)
    requires n > 0
    ensures a >= 0.0 ==> a * n as real >= 0.0
    ensures a > 0.0 ==> a * n as real > 0.0
  {
  }

  // The mean of one resample.
  function Mean(data: seq<real>, draw: seq<nat>): real
    requires data != [] && forall m :: 0 <= m < |draw| ==> draw[m] < |data|
  {
    DrawnSum(data, draw) / |data| as real
  }

  function Means(data: seq<real>, draws: seq<seq<nat>>): (r: seq<real>)
    requires data != [] && Draws(draws, |data|)
    ensures |r| == |draws| && forall m :: 0 <= m < |draws| ==> r[m] == Mean(data, draws[m])
  {
    seq(|draws|, m requires 0 <= m < |draws| => Mean(data, draws[m]))
  }

  lemma MeanWithin(data: seq<real>, draw: seq<nat>, lo: real, hi: real)
    requires data != [] && |draw| == |data| && (forall m :: 0 <= m < |draw| ==> draw[m] < |data|) && Between(data, lo, hi)
    ensures lo <= Mean(data, draw) <= hi
  {
    DrawnSumBounds(data, draw, lo, hi);
    MeanBounds(DrawnSum(data, draw), |data|, lo, hi);
  }

  // The interval is read off the sorted means at the two percentile indices.
  method BootstrapCi(data: seq<real>, draws: seq<seq<nat>>, alpha: real) returns (lower: real, upper: real)
    requires data != [] && 0.0 <= alpha < 1.0 && draws != [] && Draws(draws, |data|)
    ensures 0 <= LowerIndex(alpha, |draws|) <= UpperIndex(alpha, |draws|) < |Sort(Means(data, draws), Ascending())|
    ensures lower == Sort(Means(data, draws), Ascending())[LowerIndex(alpha, |draws|)]
    ensures upper == Sort(Means(data, draws), Ascending())[UpperIndex(alpha, |draws|)]
  {
    hide LowerIndex, UpperIndex, Sort, DrawnSum;
    var means: seq<real> := [];
    for r := 0 to |draws|
      invariant |means| == r && forall m :: 0 <= m < r ==> means[m] == Mean(data, draws[m])
    {
      var sum := Resampled(data, draws[r]);
      means := means + [sum / |data| as real];
    }
    assert means == Means(data, draws);
    means := Sort(means, Ascending());
    SortIsStable(Means(data, draws), Ascending());
    IndicesInRange(alpha, |draws|);
    lower, upper := means[LowerIndex(alpha, |draws|)], means[UpperIndex(alpha, |draws|)];
  }

  method Resampled(data: seq<real>, draw: seq<nat>) returns (sum: real)
    requires |draw| == |data| && forall m :: 0 <= m < |draw| ==> draw[m] < |data|
    ensures sum == DrawnSum(data, draw)
  {
    sum := 0.0;
    for m := 0 to |data|
      invariant sum == DrawnSum(data, draw[..m])
    {
      assert draw[..m + 1][..m] == draw[..m];
      sum := sum + data[draw[m]];
    }
    assert draw[..|data|] == draw;
  }

  // Whatever is drawn, the interval is well formed and stays within the sample: any bounds of the
  // data bound it too.
  lemma IntervalWithinSample(data: seq<real>, draws: seq<seq<nat>>, alpha: real, lo: real, hi: real)
    requires data != [] && 0.0 <= alpha < 1.0 && draws != [] && Draws(draws, |data|) && Between(data, lo, hi)
    ensures var sorted := Sort(Means(data, draws), Ascending());
      && 0 <= LowerIndex(alpha, |draws|) <= UpperIndex(alpha, |draws|) < |sorted|
      && lo <= sorted[LowerIndex(alpha, |draws|)] <= sorted[UpperIndex(alpha, |draws|)] <= hi
  {
    hide LowerIndex, UpperIndex, Sort, Mean;
    var means := Means(data, draws);
    var sorted := Sort(means, Ascending());
    SortIsStable(means, Ascending());
    forall m | 0 <= m < |sorted| ensures lo <= sorted[m] <= hi {
      SortMember(means, Ascending(), sorted[m]);
      var r :| 0 <= r < |means| && means[r] == sorted[m];
      MeanWithin(data, draws[r], lo, hi);
    }
    IndicesInRange(alpha, |draws|);
    var i, j := LowerIndex(alpha, |draws|), UpperIndex(alpha, |draws|);
    assert i == j || Ascending()(sorted[i], sorted[j]);
  }

  // ---- Coverage --------------------------------------------------------------------------------

  // Half of `alpha` among `n`.
  function Tail(alpha: real, n: nat): real {
    alpha / 2.0 * n as real
  }

  lemma TailShares(alpha: real, n: nat)
    requires 0.0 <= alpha < 1.0 && n > 0
    ensures 0 <= LowerIndex(alpha, n) <= UpperIndex(alpha, n) < n
    ensures LowerIndex(alpha, n) as real <= Tail(alpha, n) < LowerIndex(alpha, n) as real + 1.0
    ensures (n - 1 - UpperIndex(alpha, n)) as real <= Tail(alpha, n) <= (n - UpperIndex(alpha, n)) as real
  {
    var x, y := Tail(alpha, n), (1.0 - alpha / 2.0) * n as real;
    IndicesInRange(alpha, n);
    assert y == n as real - x;
    assert x >= 0.0 by { Product(alpha / 2.0, n); }
    assert y.Floor as real <= y < y.Floor as real + 1.0;
  }

  // The ends cut off the shares they should: at most half of `alpha` of the resampled means lie
  // below the interval and as many above, and at either end the share is reached with the end itself.
  lemma IntervalCovers(data: seq<real>, draws: seq<seq<nat>>, alpha: real, lower: real, upper: real)
    requires data != [] && 0.0 <= alpha < 1.0 && draws != [] && Draws(draws, |data|)
    requires 0 <= LowerIndex(alpha, |draws|) <= UpperIndex(alpha, |draws|) < |Sort(Means(data, draws), Ascending())|
    requires lower == Sort(Means(data, draws), Ascending())[LowerIndex(alpha, |draws|)]
    requires upper == Sort(Means(data, draws), Ascending())[UpperIndex(alpha, |draws|)]
    ensures var means, tail := Means(data, draws), Tail(alpha, |draws|);
      && Count(means, Under(lower)) as real <= tail < Count(means, AtMost(lower)) as real
      && Count(means, Over(upper)) as real <= tail <= Count(means, AtLeast(upper)) as real
  {
    hide LowerIndex, UpperIndex, Sort, Mean, Count, Tail;
    TailShares(alpha, |draws|);
    CountsAround(Means(data, draws), LowerIndex(alpha, |draws|));
    CountsAround(Means(data, draws), UpperIndex(alpha, |draws|));
  }

  function Under(v: real): real -> bool {
    (m: real) => m < v
  }

  function AtMost(v: real): real -> bool {
    (m: real) => m <= v
  }

  function Over(v: real): real -> bool {
    (m: real) => m > v
  }

  function AtLeast(v: real): real -> bool {
    (m: real) => m >= v
  }

  lemma CountsAround(means: seq<real>, i: nat)
    requires i < |Sort(means, Ascending())|
    ensures var v := Sort(means, Ascending())[i];
      && |Sort(means, Ascending())| == |means|
      && Count(means, Under(v)) <= i < Count(means, AtMost(v))
      && Count(means, Over(v)) <= |means| - i - 1 < Count(means, AtLeast(v))
  {
    hide Count, Sort;
    var sorted := Sort(means, Ascending());
    var v := sorted[i];
    SortIsStable(means, Ascending());
    forall a, b | 0 <= a < b < |sorted| ensures sorted[a] <= sorted[b] {
      assert Ascending()(sorted[a], sorted[b]);
    }
    CountPrefix(sorted, i, Under(v));
    CountPrefix(sorted, i + 1, AtMost(v));
    CountSuffix(sorted, i + 1, Over(v));
    CountSuffix(sorted, i, AtLeast(v));
    CountPermutes(sorted, means, Under(v));
    CountPermutes(sorted, means, AtMost(v));
    CountPermutes(sorted, means, Over(v));
    CountPermutes(sorted, means, AtLeast(v));
  }
}
