/** The online learner of the fusion weights: nudge, floor, normalise. */
module WeightLearning {

  const LEARNING_RATE: real := 0.01
  const MIN_WEIGHT: real := 0.01
  const SIGNALS: nat := 6

  datatype Feedback = Feedback(signals: seq<real>, relevant: bool)

  function Sum(s: seq<real>): real {
    if s == [] then 0.0 else Sum(s[..|s| - 1]) + s[|s| - 1]
  }

  function Dot(a: seq<real>, b: seq<real>): real
    requires |a| == |b|
  {
    if a == [] then 0.0 else Dot(a[..|a| - 1], b[..|a| - 1]) + a[|a| - 1] * b[|a| - 1]
  }

  function Direction(f: Feedback): real {
    if f.relevant then 1.0 else -1.0
  }

  // One weight moved along its signal, but not below the floor.
  function Nudge(w: real, f: Feedback, i: nat): (r: real)
    requires i < |f.signals|
    ensures r >= MIN_WEIGHT
  {
    var moved := w + LEARNING_RATE * Direction(f) * f.signals[i];
    if moved > MIN_WEIGHT then moved else MIN_WEIGHT
  }

  // A relevant sample raises the weight of every signal that is up, an irrelevant one lowers it,
  // except that no weight stays below the floor; the one takes back what the other did.
  lemma NudgeFollowsFeedback(w: real, f: Feedback, i: nat)
    requires i < |f.signals| && f.signals[i] >= 0.0
    ensures f.relevant ==> Nudge(w, f, i) >= w && (f.signals[i] > 0.0 ==> Nudge(w, f, i) > w)
    ensures !f.relevant ==> Nudge(w, f, i) <= w || Nudge(w, f, i) == MIN_WEIGHT
    ensures !f.relevant && w > MIN_WEIGHT && f.signals[i] > 0.0 ==> Nudge(w, f, i) < w
    ensures f.relevant && w >= MIN_WEIGHT ==> Nudge(Nudge(w, f, i), f.(relevant := false), i) == w
  {
  }

  function Nudged(w: seq<real>, f: Feedback): (r: seq<real>)
    requires |w| == |f.signals|
    ensures |r| == |w| && forall i :: 0 <= i < |w| ==> r[i] == Nudge(w[i], f, i)
  {
    seq(|w|, i requires 0 <= i < |w| => Nudge(w[i], f, i))
  }

  function Divided(s: seq<real>, d: real): (r: seq<real>)
    requires d > 0.0
    ensures |r| == |s| && forall i :: 0 <= i < |s| ==> r[i] == s[i] / d
  {
    seq(|s|, i requires 0 <= i < |s| => s[i] / d)
  }

  lemma {:induction false} SumAtLeast(s: seq<real>, floor: real)
    requires forall i :: 0 <= i < |s| ==> s[i] >= floor
    ensures Sum(s) >= |s| as real * floor
  {
    if s != [] {
      SumAtLeast(s[..|s| - 1], floor);
      assert |s| as real * floor == (|s| - 1) as real * floor + floor;
    }
  }

  function Learned(w: seq<real>, f: Feedback): (r: seq<real>)
    requires |w| == |f.signals| == SIGNALS
    ensures |r| == SIGNALS
  {
    NudgedPositive(w, f);
    Divided(Nudged(w, f), Sum(Nudged(w, f)))
  }

  lemma NudgedPositive(w: seq<real>, f: Feedback)
    requires |w| == |f.signals| == SIGNALS
    ensures Sum(Nudged(w, f)) > 0.0
  {
    SumAtLeast(Nudged(w, f), MIN_WEIGHT);
  }

  // ---- The learner -----------------------------------------------------------------------------

  class WeightLearner {
    const weights: array<real>
    var sampleCount: nat

    constructor (initial: seq<real>)
      requires |initial| == SIGNALS
      ensures fresh(weights) && weights[..] == initial && sampleCount == 0
    {
      weights := new real[SIGNALS](i requires 0 <= i < |initial| => initial[i]);
      sampleCount := 0;
      new;
      assert weights[..] == initial;
    }

    method Update(f: Feedback)
      requires weights.Length == |f.signals| == SIGNALS
      modifies this, weights
      ensures weights[..] == Learned(old(weights[..]), f)
      ensures sampleCount == old(sampleCount) + 1
    {
      hide Nudge, Sum;
      ghost var before := weights[..];
      NudgedPositive(before, f);
      for i := 0 to SIGNALS
        invariant forall m :: 0 <= m < i ==> weights[m] == Nudge(before[m], f, m)
        invariant forall m :: i <= m < SIGNALS ==> weights[m] == before[m]
        invariant sampleCount == old(sampleCount)
      {
        weights[i] := Nudge(weights[i], f, i);
      }
      assert weights[..] == Nudged(before, f);
      var sum := Sum(weights[..]);
      if sum > 0.0 {
        for i := 0 to SIGNALS
          invariant forall m :: 0 <= m < i ==> weights[m] == Nudged(before, f)[m] / sum
          invariant forall m :: i <= m < SIGNALS ==> weights[m] == Nudged(before, f)[m]
          invariant sampleCount == old(sampleCount)
        {
          weights[i] := weights[i] / sum;
        }
      }
      assert weights[..] == Divided(Nudged(before, f), sum);
      sampleCount := sampleCount + 1;
    }

    method UpdateBatch(feedback: seq<Feedback>)
      requires weights.Length == SIGNALS && forall k :: 0 <= k < |feedback| ==> |feedback[k].signals| == SIGNALS
      modifies this, weights
      ensures weights[..] == LearnedAll(old(weights[..]), feedback)
      ensures sampleCount == old(sampleCount) + |feedback|
    {
      for k := 0 to |feedback|
        invariant weights[..] == LearnedAll(old(weights[..]), feedback[..k])
        invariant sampleCount == old(sampleCount) + k
      {
        assert feedback[..k + 1][..k] == feedback[..k];
        Update(feedback[k]);
      }
      assert feedback[..|feedback|] == feedback;
    }
  }

  function LearnedAll(w: seq<real>, feedback: seq<Feedback>): (r: seq<real>)
    requires |w| == SIGNALS && forall k :: 0 <= k < |feedback| ==> |feedback[k].signals| == SIGNALS
    ensures |r| == SIGNALS
  {
    if feedback == [] then w
    else Learned(LearnedAll(w, feedback[..|feedback| - 1]), feedback[|feedback| - 1])
  }

  // ---- What every sample keeps -----------------------------------------------------------------

  lemma {:induction false} SumDivided(s: seq<real>, d: real)
    requires d > 0.0
    ensures Sum(Divided(s, d)) == Sum(s) / d
  {
    if s != [] {
      var n := |s| - 1;
      SumDivided(s[..n], d);
      assert Divided(s, d)[..n] == Divided(s[..n], d);
      QuotientSum(Sum(s[..n]), s[n], d);
    }
  }

  lemma QuotientSum(a: real, b: real, d: real)
    requires d > 0.0
    ensures a / d + b / d == (a + b) / d
  {
  }

  lemma QuotientPositive(a: real, d: real)
    requires a > 0.0 && d > 0.0
    ensures a / d > 0.0
  {
  }

  lemma SelfQuotient(d: real)
    requires d > 0.0
    ensures d / d == 1.0
  {
  }

  // Whatever the signals, one sample normalises the weights and leaves every one positive.
  lemma LearnedNormalised(w: seq<real>, f: Feedback)
    requires |w| == |f.signals| == SIGNALS
    ensures Sum(Learned(w, f)) == 1.0
    ensures forall i :: 0 <= i < SIGNALS ==> Learned(w, f)[i] > 0.0
  {
    hide Sum, Nudge;
    var n := Nudged(w, f);
    NudgedPositive(w, f);
    SumDivided(n, Sum(n));
    SelfQuotient(Sum(n));
    forall i | 0 <= i < SIGNALS ensures n[i] / Sum(n) > 0.0 {
      QuotientPositive(n[i], Sum(n));
    }
  }

  ghost predicate UnitSignals(f: Feedback) {
    |f.signals| == SIGNALS && forall i :: 0 <= i < SIGNALS ==> 0.0 <= f.signals[i] <= 1.0
  }

  // The floor that a normalised learner keeps: it divides by at most 1.06.
  ghost predicate Settled(w: seq<real>) {
    |w| == SIGNALS && Sum(w) == 1.0 && forall i :: 0 <= i < SIGNALS ==> w[i] * 1.06 >= MIN_WEIGHT
  }

  ghost predicate Normalised(w: seq<real>) {
    |w| == SIGNALS && Sum(w) == 1.0 && forall i :: 0 <= i < SIGNALS ==> w[i] >= 0.0
  }

  lemma {:induction false} SumShifted(a: seq<real>, b: seq<real>, shift: real)
    requires |a| == |b| && forall i :: 0 <= i < |a| ==> b[i] <= a[i] + shift
    ensures Sum(b) <= Sum(a) + |a| as real * shift
  {
    if a != [] {
      var n := |a| - 1;
      SumShifted(a[..n], b[..n], shift);
      assert |a| as real * shift == n as real * shift + shift;
    }
  }

  lemma NudgeAtMost(w: real, f: Feedback, i: nat)
    requires UnitSignals(f) && i < SIGNALS && w >= 0.0
    ensures Nudge(w, f, i) <= w + 0.01
  {
  }

  lemma FloorKept(a: real, d: real)
    requires a >= MIN_WEIGHT && 0.0 < d <= 1.06
    ensures a / d * 1.06 >= MIN_WEIGHT
  {
    var q := a / d;
    assert q * d == a;
    assert q > 0.0;
    assert q * 1.06 >= q * d;
  }

  lemma OneSampleSettles(w: seq<real>, f: Feedback)
    requires Normalised(w) && UnitSignals(f)
    ensures Settled(Learned(w, f))
  {
    hide Sum, Nudge;
    var n := Nudged(w, f);
    LearnedNormalised(w, f);
    NudgedPositive(w, f);
    forall i | 0 <= i < SIGNALS ensures n[i] <= w[i] + 0.01 {
      NudgeAtMost(w[i], f, i);
    }
    SumShifted(w, n, 0.01);
    forall i | 0 <= i < SIGNALS ensures n[i] / Sum(n) * 1.06 >= MIN_WEIGHT {
      FloorKept(n[i], Sum(n));
    }
  }

  // From a normalised start, after any batch of samples with signals between 0 and 1, the weights
  // sum to 1 and none is below 0.01 / 1.06.
  lemma {:induction false} BatchSettles(w: seq<real>, feedback: seq<Feedback>)
    requires Normalised(w) && feedback != []
    requires forall k :: 0 <= k < |feedback| ==> |feedback[k].signals| == SIGNALS && UnitSignals(feedback[k])
    ensures Settled(LearnedAll(w, feedback))
  {
    hide Sum, Learned;
    var n := |feedback| - 1;
    if n > 0 {
      BatchSettles(w, feedback[..n]);
    }
    OneSampleSettles(LearnedAll(w, feedback[..n]), feedback[n]);
  }

  // ---- Does a relevant sample score higher afterwards? -----------------------------------------

  lemma {:induction false} DotDivided(a: seq<real>, b: seq<real>, d: real)
    requires |a| == |b| && d > 0.0
    ensures Dot(Divided(a, d), b) == Dot(a, b) / d
  {
    if a != [] {
      var n := |a| - 1;
      DotDivided(a[..n], b[..n], d);
      assert Divided(a, d)[..n] == Divided(a[..n], d);
      QuotientProduct(a[n], b[n], d);
      QuotientSum(Dot(a[..n], b[..n]), a[n] * b[n], d);
    }
  }

  lemma QuotientProduct(a: real, b: real, d: real)
    requires d > 0.0
    ensures a / d * b == a * b / d
  {
  }

  lemma CompareQuotient(a: real, d: real, c: real)
    requires d > 0.0
    ensures a / d >= c <==> a >= c * d
  {
    var q := a / d;
    assert q * d == a;
    if q >= c {
      assert q * d >= c * d;
    } else {
      assert q * d < c * d;
    }
  }

  // How far each weight moves before normalisation: along its signal, or up to the floor.
  function Gains(w: seq<real>, f: Feedback): (g: seq<real>)
    requires |w| == |f.signals|
    ensures |g| == |w| && forall i :: 0 <= i < |w| ==> g[i] == Nudge(w[i], f, i) - w[i]
  {
    seq(|w|, i requires 0 <= i < |w| => Nudge(w[i], f, i) - w[i])
  }

  lemma {:induction false} GainsAdd(w: seq<real>, g: seq<real>, n: seq<real>, s: seq<real>)
    requires |w| == |g| == |n| == |s| && forall i :: 0 <= i < |w| ==> n[i] == w[i] + g[i]
    ensures Sum(n) == Sum(w) + Sum(g)
    ensures Dot(n, s) == Dot(w, s) + Dot(g, s)
  {
    if w != [] {
      var m := |w| - 1;
      GainsAdd(w[..m], g[..m], n[..m], s[..m]);
      Spread(w[m], g[m], s[m]);
    }
  }

  lemma Spread(a: real, b: real, c: real)
    ensures (a + b) * c == a * c + b * c
  {
  }

  // A sample scores at least as high after it has been learned exactly when the old score and the
  // gains weighed by its signals reach the old score times the sum to be divided by: otherwise
  // normalisation takes back more than the nudges gave. This holds for every sample and whatever
  // the weights; once they sum to 1, only the gains are left to weigh.
  lemma ScoresHigherExactly(w: seq<real>, f: Feedback)
    requires |w| == |f.signals| == SIGNALS
    ensures Dot(Learned(w, f), f.signals) >= Dot(w, f.signals)
      <==> Dot(w, f.signals) + Dot(Gains(w, f), f.signals) >= Dot(w, f.signals) * (Sum(w) + Sum(Gains(w, f)))
    ensures Sum(w) == 1.0 ==>
      (Dot(Learned(w, f), f.signals) >= Dot(w, f.signals)
       <==> Dot(Gains(w, f), f.signals) >= Dot(w, f.signals) * Sum(Gains(w, f)))
  {
    hide Sum, Dot, Nudge;
    var s, g, n := f.signals, Gains(w, f), Nudged(w, f);
    GainsAdd(w, g, n, s);
    NudgedPositive(w, f);
    DotDivided(n, s, Sum(n));
    CompareQuotient(Dot(n, s), Sum(n), Dot(w, s));
    Balance(Dot(w, s), Dot(g, s), Sum(g));
  }

  lemma Balance(score: real, gained: real, total: real)
    ensures score + gained >= score * (1.0 + total) <==> gained >= score * total
  {
    assert score * (1.0 + total) == score + score * total;
  }

  // No weight is lifted to the floor.
  ghost predicate NoFloor(w: seq<real>, f: Feedback)
    requires |w| == |f.signals|
  {
    forall i :: 0 <= i < |w| ==> w[i] + LEARNING_RATE * Direction(f) * f.signals[i] >= MIN_WEIGHT
  }

  lemma {:induction false} GainsAreSignals(g: seq<real>, s: seq<real>)
    requires |g| == |s| && forall i :: 0 <= i < |s| ==> g[i] == LEARNING_RATE * s[i]
    ensures Sum(g) == LEARNING_RATE * Sum(s) && Dot(g, s) == LEARNING_RATE * Dot(s, s)
  {
    if s != [] {
      var n := |s| - 1;
      GainsAreSignals(g[..n], s[..n]);
      assert g[n] * s[n] == LEARNING_RATE * (s[n] * s[n]);
    }
  }

  // Where no floor acts on a relevant sample, the condition is about its signals, the old score and
  // the sum of the weights; once that is 1, the squares of the signals must reach their sum times
  // the old score.
  lemma RelevantScoresHigher(w: seq<real>, f: Feedback)
    requires |w| == |f.signals| == SIGNALS && f.relevant && NoFloor(w, f)
    ensures var s, score := f.signals, Dot(w, f.signals);
      Dot(Learned(w, f), s) >= score <==> score + LEARNING_RATE * Dot(s, s) >= score * (Sum(w) + LEARNING_RATE * Sum(s))
    ensures Sum(w) == 1.0 ==>
      (Dot(Learned(w, f), f.signals) >= Dot(w, f.signals)
       <==> Dot(f.signals, f.signals) >= Dot(w, f.signals) * Sum(f.signals))
  {
    hide Sum, Dot, Learned;
    var s, g := f.signals, Gains(w, f);
    forall i | 0 <= i < SIGNALS ensures g[i] == LEARNING_RATE * s[i] {
      assert w[i] + LEARNING_RATE * Direction(f) * s[i] >= MIN_WEIGHT;
    }
    GainsAreSignals(g, s);
    ScoresHigherExactly(w, f);
    Rescale(Dot(s, s), Dot(w, s), Sum(s));
  }

  lemma Rescale(squares: real, score: real, total: real)
    ensures LEARNING_RATE * squares >= score * (LEARNING_RATE * total) <==> squares >= score * total
  {
    assert score * (LEARNING_RATE * total) == LEARNING_RATE * (score * total);
  }

  // A learner that already trusts the strongest signal scores a relevant sample lower.
  lemma RelevantCanScoreLower()
    ensures var w, f := [0.95, 0.01, 0.01, 0.01, 0.01, 0.01], Feedback([1.0, 0.5, 0.0, 0.0, 0.0, 0.0], true);
      Normalised(w) && UnitSignals(f) && f.relevant && Dot(Learned(w, f), f.signals) < Dot(w, f.signals)
  {
    hide Learned;
    var w, s := [0.95, 0.01, 0.01, 0.01, 0.01, 0.01], [1.0, 0.5, 0.0, 0.0, 0.0, 0.0];
    var f := Feedback(s, true);
    SixSum(w);
    SixSum(s);
    SixDot(w, s);
    SixDot(s, s);
    RelevantScoresHigher(w, f);
  }

  // The squares of the signals alone do not decide it once a floor acts. One sample of the first
  // signal leaves the others below the floor; lifting them back costs the next sample its rise.
  lemma FloorTakesBack()
    ensures var w0, f0 := [0.95, 0.01, 0.01, 0.01, 0.01, 0.01], Feedback([1.0, 0.0, 0.0, 0.0, 0.0, 0.0], true);
      var w, f := Learned(w0, f0), Feedback([1.0, 0.054, 0.0, 0.0, 0.0, 0.0], true);
      && Normalised(w0) && Settled(w) && UnitSignals(f0) && UnitSignals(f)
      && Dot(f.signals, f.signals) >= Dot(w, f.signals) * Sum(f.signals)
      && Dot(Learned(w, f), f.signals) < Dot(w, f.signals)
  {
    hide Sum, Dot, Learned, Settled;
    var w0, s := [0.95, 0.01, 0.01, 0.01, 0.01, 0.01], [1.0, 0.054, 0.0, 0.0, 0.0, 0.0];
    var f0, f := Feedback([1.0, 0.0, 0.0, 0.0, 0.0, 0.0], true), Feedback(s, true);
    SixSum(w0);
    OneSampleSettles(w0, f0);
    LearnedNormalised(w0, f0);
    var w := Learned(w0, f0);
    FirstSample(w);
    var g := Gains(w, f);
    SixSum(s);
    SixSum(g);
    SixDot(w, s);
    SixDot(s, s);
    SixDot(g, s);
    ScoresHigherExactly(w, f);
  }

  // What one sample of the first signal leaves.
  lemma FirstSample(w: seq<real>)
    requires w == Learned([0.95, 0.01, 0.01, 0.01, 0.01, 0.01], Feedback([1.0, 0.0, 0.0, 0.0, 0.0, 0.0], true))
    ensures w == [0.96 / 1.01, 0.01 / 1.01, 0.01 / 1.01, 0.01 / 1.01, 0.01 / 1.01, 0.01 / 1.01]
  {
    hide Sum;
    var n := Nudged([0.95, 0.01, 0.01, 0.01, 0.01, 0.01], Feedback([1.0, 0.0, 0.0, 0.0, 0.0, 0.0], true));
    assert n == [0.96, 0.01, 0.01, 0.01, 0.01, 0.01];
    SixSum(n);
  }

  lemma SumPrefix(s: seq<real>, n: nat)
    requires n < |s|
    ensures Sum(s[..n + 1]) == Sum(s[..n]) + s[n]
    ensures Sum(s[..0]) == 0.0
  {
    assert s[..n + 1][..n] == s[..n];
  }

  lemma DotPrefix(a: seq<real>, b: seq<real>, n: nat)
    requires n < |a| == |b|
    ensures Dot(a[..n + 1], b[..n + 1]) == Dot(a[..n], b[..n]) + Product(a, b, n)
    ensures Dot(a[..0], b[..0]) == 0.0
  {
    assert a[..n + 1][..n] == a[..n] && b[..n + 1][..n] == b[..n];
  }

  lemma SixSum(s: seq<real>)
    requires |s| == 6
    ensures Sum(s) == s[0] + s[1] + s[2] + s[3] + s[4] + s[5]
  {
    hide Sum;
    SumPrefix(s, 0);
    SumPrefix(s, 1);
    SumPrefix(s, 2);
    SumPrefix(s, 3);
    SumPrefix(s, 4);
    SumPrefix(s, 5);
    assert s[..6] == s;
  }

  function Product(a: seq<real>, b: seq<real>, i: nat): real
    requires i < |a| == |b|
  {
    a[i] * b[i]
  }

  lemma SixDot(a: seq<real>, b: seq<real>)
    requires |a| == |b| == 6
    ensures Dot(a, b) == Product(a, b, 0) + Product(a, b, 1) + Product(a, b, 2)
      + Product(a, b, 3) + Product(a, b, 4) + Product(a, b, 5)
  {
    hide Dot, Product;
    DotPrefix(a, b, 0);
    DotPrefix(a, b, 1);
    DotPrefix(a, b, 2);
    DotPrefix(a, b, 3);
    DotPrefix(a, b, 4);
    DotPrefix(a, b, 5);
    assert a[..6] == a && b[..6] == b;
  }
}
