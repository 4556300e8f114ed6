/** The rank part of the signed-rank test: midranks for groups of ties, and the sum `W+` of the
    ranks of the positive differences. `eps` is the tolerance below which magnitudes tie. */
module Midranks {
  import opened StableSort

  function Abs(x: real): real {
    if x < 0.0 then -x else x
  }

  function AbsLe(): (real, real) -> bool {
    (a: real, b: real) => Abs(a) <= Abs(b)
  }

  // The signed differences, those within `eps` of zero excluded.
  function Differences(x: seq<real>, y: seq<real>, eps: real): seq<real>
    requires |x| == |y|
  {
    if x == [] then []
    else
      var d := y[0] - x[0];
      (if Abs(d) > eps then [d] else []) + Differences(x[1..], y[1..], eps)
  }

  predicate Ties(d: seq<real>, i: nat, j: nat, eps: real)
    requires i < |d| && j < |d|
  {
    Abs(Abs(d[j]) - Abs(d[i])) < eps
  }

  // The end of the tie group that starts at `i`, given that it reaches up to `j`.
  function GroupEnd(d: seq<real>, i: nat, j: nat, eps: real): (e: nat)
    requires i < j <= |d|
    ensures j <= e <= |d|
    ensures forall m :: j <= m < e ==> Ties(d, i, m, eps)
    ensures e < |d| ==> !Ties(d, i, e, eps)
    decreases |d| - j
  {
    if j < |d| && Ties(d, i, j, eps) then GroupEnd(d, i, j + 1, eps) else j
  }

  // The average of the ranks `i + 1` to `e`.
  function Midrank(i: nat, e: nat): real {
    (i + e + 1) as real / 2.0
  }

  function Repeat(c: real, n: nat): seq<real> {
    seq(n, _ => c)
  }

  // The ranks of `d[i..]`, where a tie group starts at `i`.
  function RanksFrom(d: seq<real>, i: nat, eps: real): (r: seq<real>)
    requires i <= |d|
    ensures |r| == |d| - i
    decreases |d| - i
  {
    if i == |d| then []
    else
      var e := GroupEnd(d, i, i + 1, eps);
      Repeat(Midrank(i, e), e - i) + RanksFrom(d, e, eps)
  }

  function Sum(r: seq<real>): real {
    if r == [] then 0.0 else r[0] + Sum(r[1..])
  }

  function PositiveSum(d: seq<real>, r: seq<real>): real
    requires |d| == |r|
  {
    if d == [] then 0.0 else (if d[0] > 0.0 then r[0] else 0.0) + PositiveSum(d[1..], r[1..])
  }

  // `W+` of paired samples.
  function WPlus(x: seq<real>, y: seq<real>, eps: real): real
    requires |x| == |y|
  {
    RankedSum(Differences(x, y, eps), eps)
  }

  function RankedSum(diffs: seq<real>, eps: real): real {
    var d := Sort(diffs, AbsLe());
    PositiveSum(d, RanksFrom(d, 0, eps))
  }

  // Gives every entry of the tie group that starts at `i` its midrank.
  method FillGroup(d: seq<real>, eps: real, ranks: array<real>, i: nat) returns (j: nat)
    requires i < |d| == ranks.Length
    modifies ranks
    ensures j == GroupEnd(d, i, i + 1, eps)
    ensures ranks[..j] == old(ranks[..i]) + Repeat(Midrank(i, j), j - i)
  {
    j := i + 1;
    while j < |d| && Ties(d, i, j, eps)
      invariant i < j <= |d| && GroupEnd(d, i, j, eps) == GroupEnd(d, i, i + 1, eps)
    {
      j := j + 1;
    }
    for m := i to j
      invariant ranks[..m] == old(ranks[..i]) + Repeat(Midrank(i, j), m - i)
    {
      ranks[m] := Midrank(i, j);
    }
  }

  method SignedRankStatistic(x: seq<real>, y: seq<real>, eps: real) returns (wPlus: real)
    requires |x| == |y|
    ensures wPlus == WPlus(x, y, eps)
  {
    hide RanksFrom, GroupEnd;
    var diffs := Differences(x, y, eps);
    var d := Sort(diffs, AbsLe());
    var n := |d|;
    if n == 0 {
      wPlus := 0.0;
      return;
    }
    var ranks := new real[n];
    var i := 0;
    while i < n
      invariant i <= n && ranks[..i] + RanksFrom(d, i, eps) == RanksFrom(d, 0, eps)
    {
      RanksStep(d, i, eps, ranks[..i]);
      i := FillGroup(d, eps, ranks, i);
    }
    assert ranks[..n] + RanksFrom(d, n, eps) == ranks[..];
    wPlus := PositiveSum(d, ranks[..]);
  }

  lemma RanksStep(d: seq<real>, i: nat, eps: real, done: seq<real>)
    requires i < |d|
    ensures var e := GroupEnd(d, i, i + 1, eps);
      done + RanksFrom(d, i, eps) == (done + Repeat(Midrank(i, e), e - i)) + RanksFrom(d, e, eps)
  {
    hide GroupEnd, Repeat, Midrank;
    var e := GroupEnd(d, i, i + 1, eps);
    Regroup(done, Repeat(Midrank(i, e), e - i), RanksFrom(d, e, eps));
  }

  lemma Regroup(a: seq<real>, b: seq<real>, c: seq<real>)
    ensures a + (b + c) == (a + b) + c
  {
  }

  // ---- Midranks keep the sum of the ranks ------------------------------------------------------

  lemma {:induction false} SumJoin(a: seq<real>, b: seq<real>)
    ensures Sum(a + b) == Sum(a) + Sum(b)
  {
    if a == [] {
      assert a + b == b;
    } else {
      SumJoin(a[1..], b);
      assert (a + b)[1..] == a[1..] + b;
    }
  }

  lemma {:induction false} SumConstant(n: nat, c: real)
    ensures Sum(Repeat(c, n)) == n as real * c
  {
    if n > 0 {
      SumConstant(n - 1, c);
      assert Repeat(c, n)[1..] == Repeat(c, n - 1);
    }
  }

  function Triangle(n: nat): real {
    n as real * (n as real + 1.0) / 2.0
  }

  lemma GroupKeepsSum(i: nat, e: nat)
    requires i <= e
    ensures (e - i) as real * Midrank(i, e) == Triangle(e) - Triangle(i)
  {
  }

  lemma GroupSum(i: nat, e: nat)
    requires i <= e
    ensures Sum(Repeat(Midrank(i, e), e - i)) == Triangle(e) - Triangle(i)
  {
    SumConstant(e - i, Midrank(i, e));
    GroupKeepsSum(i, e);
  }

  // Whatever the grouping, the ranks add up to what untied ranks would.
  lemma {:induction false} RanksKeepSum(d: seq<real>, i: nat, eps: real)
    requires i <= |d|
    ensures Sum(RanksFrom(d, i, eps)) == Triangle(|d|) - Triangle(i)
    decreases |d| - i
  {
    hide Triangle, Midrank, GroupEnd;
    if i < |d| {
      var e := GroupEnd(d, i, i + 1, eps);
      RanksKeepSum(d, e, eps);
      SumJoin(Repeat(Midrank(i, e), e - i), RanksFrom(d, e, eps));
      GroupSum(i, e);
    }
  }

  // ---- Swapping the samples --------------------------------------------------------------------

  function Negated(d: seq<real>): (r: seq<real>)
    ensures |r| == |d| && forall i :: 0 <= i < |d| ==> r[i] == -d[i]
  {
    seq(|d|, i requires 0 <= i < |d| => -d[i])
  }

  lemma {:induction false} SwapNegates(x: seq<real>, y: seq<real>, eps: real)
    requires |x| == |y|
    ensures Differences(y, x, eps) == Negated(Differences(x, y, eps))
  {
    if x != [] {
      SwapNegates(x[1..], y[1..], eps);
    }
  }

  lemma {:induction false} InsertNegated(v: real, s: seq<real>)
    ensures Insert(-v, Negated(s), AbsLe()) == Negated(Insert(v, s, AbsLe()))
  {
    if s != [] && !(Abs(v) <= Abs(s[0])) {
      InsertNegated(v, s[1..]);
      assert Negated(s)[1..] == Negated(s[1..]);
    }
  }

  lemma {:induction false} SortNegated(s: seq<real>)
    ensures Sort(Negated(s), AbsLe()) == Negated(Sort(s, AbsLe()))
  {
    if s != [] {
      SortNegated(s[1..]);
      assert Negated(s)[1..] == Negated(s[1..]);
      InsertNegated(s[0], Sort(s[1..], AbsLe()));
    }
  }

  ghost predicate SameMagnitudes(a: seq<real>, b: seq<real>) {
    |a| == |b| && forall i :: 0 <= i < |a| ==> Abs(a[i]) == Abs(b[i])
  }

  lemma {:induction false} GroupsByMagnitude(a: seq<real>, b: seq<real>, i: nat, j: nat, eps: real)
    requires SameMagnitudes(a, b) && i < j <= |a|
    ensures GroupEnd(a, i, j, eps) == GroupEnd(b, i, j, eps)
    decreases |a| - j
  {
    if j < |a| && Ties(a, i, j, eps) {
      GroupsByMagnitude(a, b, i, j + 1, eps);
    }
  }

  lemma {:induction false} RanksByMagnitude(a: seq<real>, b: seq<real>, i: nat, eps: real)
    requires SameMagnitudes(a, b) && i <= |a|
    ensures RanksFrom(a, i, eps) == RanksFrom(b, i, eps)
    decreases |a| - i
  {
    hide GroupEnd, Repeat, Midrank, Ties;
    if i < |a| {
      GroupsByMagnitude(a, b, i, i + 1, eps);
      RanksByMagnitude(a, b, GroupEnd(a, i, i + 1, eps), eps);
    }
  }

  lemma {:induction false} SignsShareRanks(d: seq<real>, r: seq<real>)
    requires |d| == |r| && forall i :: 0 <= i < |d| ==> d[i] != 0.0
    ensures PositiveSum(d, r) + PositiveSum(Negated(d), r) == Sum(r)
  {
    if d != [] {
      SignsShareRanks(d[1..], r[1..]);
      assert Negated(d)[1..] == Negated(d[1..]);
    }
  }

  lemma {:induction false} RanksPositive(d: seq<real>, i: nat, eps: real)
    requires i <= |d|
    ensures forall m :: 0 <= m < |d| - i ==> RanksFrom(d, i, eps)[m] > 0.0
    decreases |d| - i
  {
    if i < |d| {
      RanksPositive(d, GroupEnd(d, i, i + 1, eps), eps);
    }
  }

  lemma {:induction false} PositiveSumBounds(d: seq<real>, r: seq<real>)
    requires |d| == |r| && forall i :: 0 <= i < |r| ==> r[i] > 0.0
    ensures 0.0 <= PositiveSum(d, r) <= Sum(r)
  {
    if d != [] {
      PositiveSumBounds(d[1..], r[1..]);
    }
  }

  lemma {:induction false} DifferencesNonzero(x: seq<real>, y: seq<real>, eps: real)
    requires |x| == |y|
    ensures forall i :: 0 <= i < |Differences(x, y, eps)| ==> Abs(Differences(x, y, eps)[i]) > eps
  {
    if x != [] {
      DifferencesNonzero(x[1..], y[1..], eps);
    }
  }

  // `W+` of the samples and `W+` of the swapped samples share the rank sum between them.
  lemma SwapComplements(x: seq<real>, y: seq<real>, eps: real)
    requires |x| == |y| && eps >= 0.0
    ensures WPlus(x, y, eps) + WPlus(y, x, eps) == Triangle(|Differences(x, y, eps)|)
    ensures 0.0 <= WPlus(x, y, eps) <= Triangle(|Differences(x, y, eps)|)
  {
    var diffs := Differences(x, y, eps);
    var d := Sort(diffs, AbsLe());
    SortIsStable(diffs, AbsLe());
    DifferencesNonzero(x, y, eps);
    forall i | 0 <= i < |d| ensures d[i] != 0.0 {
      SortMember(diffs, AbsLe(), d[i]);
      var j :| 0 <= j < |diffs| && diffs[j] == d[i];
    }
    SwapNegates(x, y, eps);
    SortNegated(diffs);
    RanksByMagnitude(d, Negated(d), 0, eps);
    SignsShareRanks(d, RanksFrom(d, 0, eps));
    RanksKeepSum(d, 0, eps);
    RanksPositive(d, 0, eps);
    PositiveSumBounds(d, RanksFrom(d, 0, eps));
  }

  // ---- The order of the pairs does not matter --------------------------------------------------

  // Equal magnitudes get equal ranks.
  lemma {:induction false} EqualMagnitudes(d: seq<real>, i: nat, eps: real, p: nat, q: nat)
    requires SortedBy(d, AbsLe()) && eps > 0.0 && i <= p < q < |d| && Abs(d[p]) == Abs(d[q])
    ensures RanksFrom(d, i, eps)[p - i] == RanksFrom(d, i, eps)[q - i]
    decreases |d| - i
  {
    var e := GroupEnd(d, i, i + 1, eps);
    forall m | p <= m <= q ensures Abs(d[m]) == Abs(d[p]) {
      assert m == p || AbsLe()(d[p], d[m]);
      assert m == q || AbsLe()(d[m], d[q]);
    }
    if e <= p {
      EqualMagnitudes(d, e, eps, p, q);
    } else {
      assert p == i || Ties(d, i, p, eps);
      assert e < |d| ==> Abs(Abs(d[e]) - Abs(d[i])) >= eps;
      assert q < e;
    }
  }

  ghost predicate HasMagnitude(d: seq<real>, i: nat, m: real) {
    i < |d| && Abs(d[i]) == m
  }

  // The rank that `d` gives to the magnitude `m`.
  ghost function RankOf(d: seq<real>, eps: real, m: real): real {
    if exists i: nat :: HasMagnitude(d, i, m) then
      var i: nat :| HasMagnitude(d, i, m);
      RanksFrom(d, 0, eps)[i]
    else 0.0
  }

  lemma RankOfEntry(d: seq<real>, eps: real, p: nat)
    requires SortedBy(d, AbsLe()) && eps > 0.0 && p < |d|
    ensures RankOf(d, eps, Abs(d[p])) == RanksFrom(d, 0, eps)[p]
  {
    hide RanksFrom, SortedBy;
    assert HasMagnitude(d, p, Abs(d[p]));
    forall q: nat | HasMagnitude(d, q, Abs(d[p])) ensures RanksFrom(d, 0, eps)[q] == RanksFrom(d, 0, eps)[p] {
      if q < p {
        EqualMagnitudes(d, 0, eps, q, p);
      } else if p < q {
        EqualMagnitudes(d, 0, eps, p, q);
      }
    }
  }

  ghost function Weighted(s: seq<real>, rank: real -> real): real {
    if s == [] then 0.0 else (if s[0] > 0.0 then rank(s[0]) else 0.0) + Weighted(s[1..], rank)
  }

  lemma {:induction false} WeightedSplit(a: seq<real>, b: seq<real>, rank: real -> real)
    ensures Weighted(a + b, rank) == Weighted(a, rank) + Weighted(b, rank)
  {
    if a == [] {
      assert a + b == b;
    } else {
      WeightedSplit(a[1..], b, rank);
      assert (a + b)[1..] == a[1..] + b;
    }
  }

  lemma {:induction false} WeightedPermutes(a: seq<real>, b: seq<real>, rank: real -> real)
    requires multiset(a) == multiset(b)
    ensures Weighted(a, rank) == Weighted(b, rank)
  {
    assert |multiset(a)| == |multiset(b)|;
    if a != [] {
      var k := TakeOut(a, b);
      var rest := b[..k] + b[k + 1..];
      assert a == [a[0]] + a[1..];
      WeightedPermutes(a[1..], rest, rank);
      WeightedSplit(b[..k], b[k + 1..], rank);
      WeightedSplit(b[..k], [a[0]] + b[k + 1..], rank);
      WeightedSplit([a[0]], b[k + 1..], rank);
      WeightedSplit([a[0]], a[1..], rank);
    }
  }

  lemma {:induction false} PositiveSumWeighted(d: seq<real>, r: seq<real>, rank: real -> real)
    requires |d| == |r| && forall i :: 0 <= i < |d| ==> r[i] == rank(d[i])
    ensures PositiveSum(d, r) == Weighted(d, rank)
  {
    if d != [] {
      PositiveSumWeighted(d[1..], r[1..], rank);
    }
  }

  function Magnitudes(d: seq<real>): (r: seq<real>)
    ensures |r| == |d| && forall i :: 0 <= i < |d| ==> r[i] == Abs(d[i])
  {
    if d == [] then [] else [Abs(d[0])] + Magnitudes(d[1..])
  }

  lemma MagnitudesJoin(a: seq<real>, b: seq<real>)
    ensures Magnitudes(a + b) == Magnitudes(a) + Magnitudes(b)
  {
  }

  lemma {:induction false} MagnitudesPermute(a: seq<real>, b: seq<real>)
    requires multiset(a) == multiset(b)
    ensures multiset(Magnitudes(a)) == multiset(Magnitudes(b))
  {
    assert |multiset(a)| == |multiset(b)|;
    if a != [] {
      var k := TakeOut(a, b);
      var rest := b[..k] + b[k + 1..];
      assert a == [a[0]] + a[1..];
      MagnitudesPermute(a[1..], rest);
      MagnitudesJoin(b[..k], b[k + 1..]);
      MagnitudesJoin(b[..k], [a[0]] + b[k + 1..]);
      MagnitudesJoin([a[0]], b[k + 1..]);
      MagnitudesJoin([a[0]], a[1..]);
    }
  }

  lemma SortedShareMagnitudes(a: seq<real>, b: seq<real>)
    requires SortedBy(a, AbsLe()) && SortedBy(b, AbsLe()) && multiset(a) == multiset(b)
    ensures SameMagnitudes(a, b)
  {
    var le := (u: real, v: real) => u <= v;
    MagnitudesPermute(a, b);
    forall i, j | 0 <= i < j < |a| ensures le(Magnitudes(a)[i], Magnitudes(a)[j]) {
      assert AbsLe()(a[i], a[j]);
    }
    forall i, j | 0 <= i < j < |b| ensures le(Magnitudes(b)[i], Magnitudes(b)[j]) {
      assert AbsLe()(b[i], b[j]);
    }
    SortedUnique(Magnitudes(a), Magnitudes(b), le);
    assert forall i :: 0 <= i < |a| ==> Magnitudes(a)[i] == Magnitudes(b)[i];
  }

  // The statistic depends on the differences only as a multiset.
  lemma PairOrderIrrelevant(s: seq<real>, t: seq<real>, eps: real)
    requires multiset(s) == multiset(t) && eps > 0.0
    ensures RankedSum(s, eps) == RankedSum(t, eps)
  {
    var a, b := Sort(s, AbsLe()), Sort(t, AbsLe());
    SortIsStable(s, AbsLe());
    SortIsStable(t, AbsLe());
    SortedShareMagnitudes(a, b);
    RanksByMagnitude(a, b, 0, eps);
    var rank := (v: real) => RankOf(a, eps, Abs(v));
    forall i | 0 <= i < |a| ensures RanksFrom(a, 0, eps)[i] == rank(a[i]) == rank(b[i]) {
      RankOfEntry(a, eps, i);
    }
    PositiveSumWeighted(a, RanksFrom(a, 0, eps), rank);
    PositiveSumWeighted(b, RanksFrom(b, 0, eps), rank);
    WeightedPermutes(a, b, rank);
  }

  lemma {:induction false} RanksAbove(d: seq<real>, i: nat, eps: real)
    requires i <= |d|
    ensures forall m :: 0 <= m < |d| - i ==> RanksFrom(d, i, eps)[m] > i as real
    decreases |d| - i
  {
    if i < |d| {
      RanksAbove(d, GroupEnd(d, i, i + 1, eps), eps);
    }
  }

  // Larger magnitudes never rank lower, and those at least `eps` larger rank higher.
  lemma {:induction false} LargerRanksHigher(d: seq<real>, i: nat, eps: real, p: nat, q: nat)
    requires SortedBy(d, AbsLe()) && eps > 0.0 && i <= p < q < |d|
    ensures Abs(d[p]) <= Abs(d[q]) && RanksFrom(d, i, eps)[p - i] <= RanksFrom(d, i, eps)[q - i]
    ensures Abs(d[q]) - Abs(d[p]) >= eps ==> RanksFrom(d, i, eps)[p - i] < RanksFrom(d, i, eps)[q - i]
    decreases |d| - i
  {
    var e := GroupEnd(d, i, i + 1, eps);
    assert AbsLe()(d[p], d[q]) && (p == i || AbsLe()(d[i], d[p]));
    if e <= p {
      LargerRanksHigher(d, e, eps, p, q);
    } else if q < e {
      assert Ties(d, i, q, eps);
    } else {
      RanksAbove(d, e, eps);
      assert RanksFrom(d, i, eps)[p - i] == Midrank(i, e) <= e as real;
    }
  }

  // ---- What the ranks and their sum are --------------------------------------------------------

  function Below(v: real): real -> bool {
    (x: real) => Abs(x) < Abs(v)
  }

  function UpTo(v: real): real -> bool {
    (x: real) => Abs(x) <= Abs(v)
  }

  // The average of the places that magnitude `|v|` takes when all are put in order.
  ghost function AverageRank(diffs: seq<real>, v: real): real {
    (Count(diffs, Below(v)) + Count(diffs, UpTo(v)) + 1) as real / 2.0
  }

  // Magnitudes are equal or at least `eps` apart.
  ghost predicate Separated(d: seq<real>, eps: real) {
    forall i, j :: 0 <= i < |d| && 0 <= j < |d| && Abs(d[i]) < Abs(d[j]) ==> Abs(d[i]) + eps <= Abs(d[j])
  }

  // The entries of the magnitude of `d[p]` stand at `a` to `b`.
  ghost predicate Stretch(d: seq<real>, p: nat, a: nat, b: nat) {
    && a <= p < b <= |d|
    && (forall m :: 0 <= m < a ==> Abs(d[m]) < Abs(d[p]))
    && (forall m :: a <= m < b ==> Abs(d[m]) == Abs(d[p]))
    && (forall m :: b <= m < |d| ==> Abs(d[m]) > Abs(d[p]))
  }

  lemma GroupIsStretch(d: seq<real>, i: nat, eps: real, p: nat)
    requires SortedBy(d, AbsLe()) && Separated(d, eps) && eps > 0.0 && i <= p < |d| && p < GroupEnd(d, i, i + 1, eps)
    requires i > 0 ==> Abs(d[i - 1]) < Abs(d[i])
    ensures Stretch(d, p, i, GroupEnd(d, i, i + 1, eps))
  {
    hide GroupEnd;
    var e := GroupEnd(d, i, i + 1, eps);
    forall m | i <= m < e ensures Abs(d[m]) == Abs(d[i]) {
      assert m == i || (Ties(d, i, m, eps) && AbsLe()(d[i], d[m]));
    }
    forall m | 0 <= m < i ensures Abs(d[m]) < Abs(d[i]) {
      assert m == i - 1 || AbsLe()(d[m], d[i - 1]);
    }
    forall m | e <= m < |d| ensures Abs(d[m]) > Abs(d[i]) {
      assert !Ties(d, i, e, eps) && AbsLe()(d[i], d[e]) && (m == e || AbsLe()(d[e], d[m]));
    }
  }

  lemma {:induction false} RankIsMid(d: seq<real>, i: nat, eps: real, p: nat) returns (a: nat, b: nat)
    requires SortedBy(d, AbsLe()) && Separated(d, eps) && eps > 0.0 && i <= p < |d|
    requires i > 0 ==> Abs(d[i - 1]) < Abs(d[i])
    ensures Stretch(d, p, a, b) && RanksFrom(d, i, eps)[p - i] == (a + b + 1) as real / 2.0
    decreases |d| - i
  {
    hide GroupEnd, Stretch, Separated, SortedBy, Ties;
    var e := GroupEnd(d, i, i + 1, eps);
    if p < e {
      GroupIsStretch(d, i, eps, p);
      a, b := i, e;
    } else {
      GroupIsStretch(d, i, eps, i);
      StretchEnds(d, i, i, e);
      a, b := RankIsMid(d, e, eps, p);
    }
  }

  lemma StretchEnds(d: seq<real>, p: nat, a: nat, b: nat)
    requires Stretch(d, p, a, b) && b < |d|
    ensures Abs(d[b - 1]) < Abs(d[b])
  {
  }

  lemma StretchCounts(d: seq<real>, p: nat, a: nat, b: nat)
    requires Stretch(d, p, a, b)
    ensures Count(d, Below(d[p])) == a && Count(d, UpTo(d[p])) == b
  {
    CountPrefix(d, a, Below(d[p]));
    CountPrefix(d, b, UpTo(d[p]));
  }

  lemma SeparatedSorted(diffs: seq<real>, eps: real)
    requires Separated(diffs, eps)
    ensures var d := Sort(diffs, AbsLe());
      SortedBy(d, AbsLe()) && Separated(d, eps) && multiset(d) == multiset(diffs)
  {
    var d := Sort(diffs, AbsLe());
    SortIsStable(diffs, AbsLe());
    forall i, j | 0 <= i < |d| && 0 <= j < |d| && Abs(d[i]) < Abs(d[j]) ensures Abs(d[i]) + eps <= Abs(d[j]) {
      SortMember(diffs, AbsLe(), d[i]);
      SortMember(diffs, AbsLe(), d[j]);
    }
  }

  // `W+` adds, over the pairs in which `y` is ahead, the average rank of the difference among all.
  lemma WPlusIsRankSum(x: seq<real>, y: seq<real>, eps: real)
    requires |x| == |y| && eps > 0.0 && Separated(Differences(x, y, eps), eps)
    ensures WPlus(x, y, eps) == Weighted(Differences(x, y, eps), v => AverageRank(Differences(x, y, eps), v))
  {
    hide Differences, Sort, RanksFrom, Separated, SortedBy, Count;
    var diffs := Differences(x, y, eps);
    var d, rank := Sort(diffs, AbsLe()), v => AverageRank(diffs, v);
    SeparatedSorted(diffs, eps);
    forall p | 0 <= p < |d| ensures RanksFrom(d, 0, eps)[p] == rank(d[p]) {
      var a, b := RankIsMid(d, 0, eps, p);
      StretchCounts(d, p, a, b);
      CountPermutes(d, diffs, Below(d[p]));
      CountPermutes(d, diffs, UpTo(d[p]));
    }
    PositiveSumWeighted(d, RanksFrom(d, 0, eps), rank);
    WeightedPermutes(d, diffs, rank);
  }

  lemma {:induction false} OneSided(d: seq<real>, r: seq<real>)
    requires |d| == |r|
    ensures (forall i :: 0 <= i < |d| ==> d[i] > 0.0) ==> PositiveSum(d, r) == Sum(r)
    ensures (forall i :: 0 <= i < |d| ==> d[i] <= 0.0) ==> PositiveSum(d, r) == 0.0
  {
    if d != [] {
      OneSided(d[1..], r[1..]);
    }
  }

  lemma {:induction false} ClearDifferences(x: seq<real>, y: seq<real>, eps: real)
    requires |x| == |y| && eps >= 0.0
    ensures (forall i :: 0 <= i < |x| ==> y[i] - x[i] > eps) ==>
      |Differences(x, y, eps)| == |x| && forall k :: 0 <= k < |Differences(x, y, eps)| ==> Differences(x, y, eps)[k] > 0.0
    ensures (forall i :: 0 <= i < |x| ==> y[i] <= x[i]) ==>
      forall k :: 0 <= k < |Differences(x, y, eps)| ==> Differences(x, y, eps)[k] <= 0.0
  {
    if x != [] {
      ClearDifferences(x[1..], y[1..], eps);
    }
  }

  // The whole rank sum when every `y` is clearly ahead of its `x`, and nothing when none is ahead.
  lemma OneSidedSamples(x: seq<real>, y: seq<real>, eps: real)
    requires |x| == |y| && eps >= 0.0
    ensures (forall i :: 0 <= i < |x| ==> y[i] - x[i] > eps) ==> WPlus(x, y, eps) == Triangle(|x|)
    ensures (forall i :: 0 <= i < |x| ==> y[i] <= x[i]) ==> WPlus(x, y, eps) == 0.0
  {
    hide Differences, Sort, RanksFrom, Triangle;
    var diffs := Differences(x, y, eps);
    var d := Sort(diffs, AbsLe());
    ClearDifferences(x, y, eps);
    SortIsStable(diffs, AbsLe());
    forall i | 0 <= i < |d| ensures d[i] in diffs {
      SortMember(diffs, AbsLe(), d[i]);
    }
    OneSided(d, RanksFrom(d, 0, eps));
    RanksKeepSum(d, 0, eps);
    assert Triangle(0) == 0.0 by { TriangleStarts(); }
  }

  lemma TriangleStarts()
    ensures Triangle(0) == 0.0
  {
  }
}
