/** The step-up procedure for false discovery rates: it rejects the largest set of hypotheses
    that is consistent with its own size. */
module StepUp {
  import opened Common
  import opened StableSort

  datatype Ranked = Ranked(index: nat, p: real)

  function PLe(): (Ranked, Ranked) -> bool {
    (a: Ranked, b: Ranked) => a.p <= b.p
  }

  // ---- Self-consistent sets ------------------------------------------------------------------

  // The procedure's threshold at rank `n` of `k`.
  function Bound(n: nat, k: nat, alpha: real): real
    requires k > 0
  {
    (n as real / k as real) * alpha
  }

  ghost predicate Within(s: set<nat>, k: nat) {
    forall i :: i in s ==> i < k
  }

  // A set of `n` rejections out of `k` tolerates `x`: of the p-values expected below `x`, the
  // share `alpha` of the rejections is not exceeded.
  ghost predicate Tolerates(n: nat, k: nat, alpha: real, x: real) {
    x * k as real <= n as real * alpha
  }

  ghost predicate SelfConsistent(p: seq<real>, alpha: real, s: set<nat>) {
    Within(s, |p|) && forall i :: i in s ==> Tolerates(|s|, |p|, alpha, p[i])
  }

  lemma BoundTolerates(n: nat, k: nat, alpha: real, x: real)
    requires k > 0
    ensures x <= Bound(n, k, alpha) <==> Tolerates(n, k, alpha, x)
  {
    var a, b := n as real, k as real;
    Regroup(a, b, alpha);
    ScaleUp(x, a * alpha, b);
  }

  lemma Regroup(a: real, b: real, c: real)
    requires b > 0.0
    ensures (a / b) * c == (a * c) / b
  {
  }

  lemma ScaleUp(x: real, y: real, b: real)
    requires b > 0.0
    ensures x <= y / b <==> x * b <= y
  {
    assert (y / b) * b == y;
  }

  ghost predicate Largest(p: seq<real>, alpha: real, r: set<nat>) {
    SelfConsistent(p, alpha, r) && forall s :: SelfConsistent(p, alpha, s) ==> s <= r
  }

  lemma ToleratesMore(m: nat, n: nat, k: nat, alpha: real, beta: real, x: real)
    requires m <= n && 0.0 <= alpha <= beta && Tolerates(m, k, alpha, x)
    ensures Tolerates(n, k, beta, x)
  {
    assert m as real * alpha <= n as real * alpha;
    assert n as real * alpha <= n as real * beta;
  }

  lemma {:induction false} SubsetSize(a: set<nat>, b: set<nat>)
    requires a <= b
    ensures |a| <= |b|
  {
    if a != {} {
      var x :| x in a;
      SubsetSize(a - {x}, b - {x});
    }
  }

  // A hypothesis at least as significant as a rejected one is rejected too; in particular
  // equal p-values get equal verdicts.
  lemma VerdictsFollowP(p: seq<real>, alpha: real, r: set<nat>, i: nat, j: nat)
    requires alpha >= 0.0 && Largest(p, alpha, r) && i in r && j < |p| && p[j] <= p[i]
    ensures j in r
  {
    hide Tolerates;
    var s := r + {j};
    SubsetSize(r, s);
    ToleratesLess(|r|, |p|, alpha, p[i], p[j]);
    forall x | x in s ensures x < |p| && Tolerates(|s|, |p|, alpha, p[x]) {
      ToleratesMore(|r|, |s|, |p|, alpha, alpha, p[x]);
    }
    assert SelfConsistent(p, alpha, s);
  }

  lemma ToleratesLess(n: nat, k: nat, alpha: real, x: real, y: real)
    requires Tolerates(n, k, alpha, x) && y <= x
    ensures Tolerates(n, k, alpha, y)
  {
    assert y * k as real <= x * k as real;
  }

  // A larger error budget rejects at least as much.
  lemma RejectionsGrow(p: seq<real>, alpha: real, beta: real, r: set<nat>, r': set<nat>)
    requires 0.0 <= alpha <= beta && Largest(p, alpha, r) && Largest(p, beta, r')
    ensures r <= r'
  {
    hide Tolerates;
    forall i | i in r ensures Tolerates(|r|, |p|, beta, p[i]) {
      ToleratesMore(|r|, |r|, |p|, alpha, beta, p[i]);
    }
    assert SelfConsistent(p, beta, r);
  }

  ghost predicate Bijection(f: nat -> nat, g: nat -> nat, k: nat) {
    forall i :: 0 <= i < k ==> f(i) < k && g(i) < k && g(f(i)) == i && f(g(i)) == i
  }

  ghost function Image(f: nat -> nat, s: set<nat>): set<nat> {
    set i | i in s :: f(i)
  }

  lemma {:induction false} ImageSize(f: nat -> nat, g: nat -> nat, k: nat, s: set<nat>)
    requires Bijection(f, g, k) && Within(s, k)
    ensures |Image(f, s)| == |s|
  {
    if s != {} {
      var x :| x in s;
      ImageSize(f, g, k, s - {x});
      forall y | y in s && y != x ensures f(y) != f(x) {
        assert g(f(y)) == y && g(f(x)) == x;
      }
      assert Image(f, s) == Image(f, s - {x}) + {f(x)};
      assert f(x) !in Image(f, s - {x});
    }
  }

  lemma ImageConsistent(p: seq<real>, q: seq<real>, f: nat -> nat, g: nat -> nat, alpha: real, s: set<nat>)
    requires |p| == |q| && Bijection(f, g, |p|) && (forall i :: 0 <= i < |p| ==> f(i) < |q| && q[f(i)] == p[i])
    requires SelfConsistent(p, alpha, s)
    ensures SelfConsistent(q, alpha, Image(f, s))
  {
    ImageSize(f, g, |p|, s);
  }

  // Shuffling the hypotheses shuffles the verdicts with them.
  lemma PermutationInvariant(p: seq<real>, q: seq<real>, f: nat -> nat, g: nat -> nat, alpha: real, r: set<nat>)
    requires |p| == |q| && Bijection(f, g, |p|) && (forall i :: 0 <= i < |p| ==> f(i) < |q| && q[f(i)] == p[i])
    requires Largest(p, alpha, r)
    ensures Largest(q, alpha, Image(f, r))
  {
    ImageConsistent(p, q, f, g, alpha, r);
    forall s | SelfConsistent(q, alpha, s) ensures s <= Image(f, r) {
      assert Bijection(g, f, |q|);
      forall i | 0 <= i < |q| ensures g(i) < |p| && p[g(i)] == q[i] {
        assert q[f(g(i))] == p[g(i)];
      }
      ImageConsistent(q, p, g, f, alpha, s);
      forall i | i in s ensures i in Image(f, r) {
        assert g(i) in Image(g, s);
        assert f(g(i)) == i;
      }
    }
  }

  // ---- The procedure -------------------------------------------------------------------------

  function Pairs(p: seq<real>): (r: seq<Ranked>)
    ensures |r| == |p| && forall i :: 0 <= i < |p| ==> r[i] == Ranked(i, p[i])
  {
    if p == [] then [] else Pairs(p[..|p| - 1]) + [Ranked(|p| - 1, p[|p| - 1])]
  }

  // Hypothesis `x` is among the first `n` of `sorted`.
  ghost predicate HasIndex(sorted: seq<Ranked>, n: int, x: nat)
    requires n <= |sorted|
  {
    exists i :: 0 <= i < n && sorted[i].index == x
  }

  ghost predicate InOrder(p: seq<real>, sorted: seq<Ranked>) {
    && (forall i :: 0 <= i < |sorted| ==> sorted[i].index < |p| && sorted[i].p == p[sorted[i].index])
    && (forall i, j :: 0 <= i < j < |sorted| ==> sorted[i].p <= sorted[j].p)
  }

  ghost predicate OnceEach(p: seq<real>, sorted: seq<Ranked>) {
    && (forall i, j :: 0 <= i < j < |sorted| ==> sorted[i].index != sorted[j].index)
    && (forall x :: 0 <= x < |p| ==> HasIndex(sorted, |sorted|, x))
  }

  // `sorted` lists every hypothesis once, by ascending p-value.
  ghost predicate Arranged(p: seq<real>, sorted: seq<Ranked>) {
    |sorted| == |p| && InOrder(p, sorted) && OnceEach(p, sorted)
  }

  lemma SortedPair(p: seq<real>, x: Ranked)
    ensures x in Sort(Pairs(p), PLe()) <==> x.index < |p| && x.p == p[x.index]
  {
    SortMember(Pairs(p), PLe(), x);
    if x.index < |p| && x.p == p[x.index] {
      assert Pairs(p)[x.index] == x;
    }
  }

  lemma SortInOrder(p: seq<real>)
    ensures |Sort(Pairs(p), PLe())| == |p| && InOrder(p, Sort(Pairs(p), PLe()))
  {
    hide Pairs, Sort;
    var sorted := Sort(Pairs(p), PLe());
    SortIsStable(Pairs(p), PLe());
    forall i | 0 <= i < |sorted| ensures sorted[i].index < |p| && sorted[i].p == p[sorted[i].index] {
      SortedPair(p, sorted[i]);
    }
    forall i, j | 0 <= i < j < |sorted| ensures sorted[i].p <= sorted[j].p {
      assert PLe()(sorted[i], sorted[j]);
    }
  }

  lemma SortOnceEach(p: seq<real>)
    ensures OnceEach(p, Sort(Pairs(p), PLe()))
  {
    hide Pairs, Sort, InOrder;
    var sorted := Sort(Pairs(p), PLe());
    SortIsStable(Pairs(p), PLe());
    RearrangedDistinct(Pairs(p), sorted);
    forall i, j | 0 <= i < j < |sorted| ensures sorted[i].index != sorted[j].index {
      SortedPair(p, sorted[i]);
      SortedPair(p, sorted[j]);
    }
    forall x: nat | x < |p| ensures HasIndex(sorted, |sorted|, x) {
      SortedPair(p, Ranked(x, p[x]));
      var i :| 0 <= i < |sorted| && sorted[i] == Ranked(x, p[x]);
      assert sorted[i].index == x;
    }
  }

  lemma SortArranges(p: seq<real>)
    ensures Arranged(p, Sort(Pairs(p), PLe()))
  {
    hide Pairs, Sort, InOrder, OnceEach;
    SortInOrder(p);
    SortOnceEach(p);
  }

  ghost function FirstIndices(sorted: seq<Ranked>, n: nat): set<nat>
    requires n <= |sorted|
  {
    if n == 0 then {} else FirstIndices(sorted, n - 1) + {sorted[n - 1].index}
  }

  lemma {:induction false} FirstIndicesAre(sorted: seq<Ranked>, n: nat)
    requires n <= |sorted|
    ensures forall x :: x in FirstIndices(sorted, n) <==> HasIndex(sorted, n, x)
  {
    if n > 0 {
      FirstIndicesAre(sorted, n - 1);
      forall x: nat ensures HasIndex(sorted, n, x) <==> HasIndex(sorted, n - 1, x) || x == sorted[n - 1].index {
        if HasIndex(sorted, n - 1, x) {
          var i :| 0 <= i < n - 1 && sorted[i].index == x;
        }
      }
    }
  }

  lemma {:induction false} FirstIndicesSize(p: seq<real>, sorted: seq<Ranked>, n: nat)
    requires OnceEach(p, sorted) && n <= |sorted|
    ensures |FirstIndices(sorted, n)| == n
  {
    if n > 0 {
      FirstIndicesSize(p, sorted, n - 1);
      FirstIndicesAre(sorted, n - 1);
      assert sorted[n - 1].index !in FirstIndices(sorted, n - 1);
    }
  }

  // `t` is the last rank that passes, or 0.
  ghost predicate LastPassing(p: seq<real>, alpha: real, sorted: seq<Ranked>, t: nat)
    requires |p| > 0
  {
    && t <= |sorted| && (t > 0 ==> sorted[t - 1].p <= Bound(t, |p|, alpha))
    && (forall i :: t <= i < |sorted| ==> sorted[i].p > Bound(i + 1, |p|, alpha))
  }

  ghost predicate AllWithin(s: set<nat>, sorted: seq<Ranked>, n: int)
    requires n <= |sorted|
  {
    forall x :: x in s ==> HasIndex(sorted, n, x)
  }

  lemma {:induction false} LastOf(s: set<nat>, sorted: seq<Ranked>, n: nat) returns (j: nat)
    requires n <= |sorted| && s != {} && AllWithin(s, sorted, n)
    ensures j < n && sorted[j].index in s && AllWithin(s, sorted, j + 1)
  {
    var y :| y in s;
    assert HasIndex(sorted, n, y);
    if sorted[n - 1].index in s {
      j := n - 1;
    } else {
      forall x | x in s ensures HasIndex(sorted, n - 1, x) {
        assert HasIndex(sorted, n, x);
      }
      j := LastOf(s, sorted, n - 1);
    }
  }

  lemma PrefixConsistent(p: seq<real>, alpha: real, sorted: seq<Ranked>, t: nat)
    requires |p| > 0 && Arranged(p, sorted) && LastPassing(p, alpha, sorted, t)
    ensures SelfConsistent(p, alpha, FirstIndices(sorted, t))
  {
    hide Bound, FirstIndices, Tolerates;
    var r := FirstIndices(sorted, t);
    FirstIndicesAre(sorted, t);
    FirstIndicesSize(p, sorted, t);
    forall x | x in r ensures x < |p| && Tolerates(|r|, |p|, alpha, p[x]) {
      assert HasIndex(sorted, t, x);
      var i :| 0 <= i < t && sorted[i].index == x;
      assert sorted[i].p == p[x] && (i < t - 1 ==> sorted[i].p <= sorted[t - 1].p);
      BoundTolerates(t, |p|, alpha, p[x]);
    }
  }

  lemma ConsistentIsFirst(p: seq<real>, alpha: real, sorted: seq<Ranked>, t: nat, s: set<nat>)
    requires |p| > 0 && alpha >= 0.0 && Arranged(p, sorted) && LastPassing(p, alpha, sorted, t)
    requires SelfConsistent(p, alpha, s) && s != {}
    ensures s <= FirstIndices(sorted, t)
  {
    hide Bound, FirstIndices, Tolerates;
    var j := LastOf(s, sorted, |sorted|);
    FirstIndicesAre(sorted, j + 1);
    FirstIndicesSize(p, sorted, j + 1);
    SubsetSize(s, FirstIndices(sorted, j + 1));
    ToleratesMore(|s|, j + 1, |p|, alpha, alpha, sorted[j].p);
    BoundTolerates(j + 1, |p|, alpha, sorted[j].p);
    assert j < t;
    FirstIndicesAre(sorted, t);
    forall x | x in s ensures x in FirstIndices(sorted, t) {
      assert HasIndex(sorted, j + 1, x);
      var i :| 0 <= i < j + 1 && sorted[i].index == x;
      assert HasIndex(sorted, t, x);
    }
  }

  lemma StepUpIsLargest(p: seq<real>, alpha: real, sorted: seq<Ranked>, t: nat)
    requires |p| > 0 && alpha >= 0.0 && Arranged(p, sorted) && LastPassing(p, alpha, sorted, t)
    ensures Largest(p, alpha, FirstIndices(sorted, t))
  {
    hide Bound, Arranged, SelfConsistent, FirstIndices;
    PrefixConsistent(p, alpha, sorted, t);
    forall s | SelfConsistent(p, alpha, s) ensures s <= FirstIndices(sorted, t) {
      if s != {} {
        ConsistentIsFirst(p, alpha, sorted, t, s);
      }
    }
  }

  ghost function Rejected(r: seq<bool>): set<nat> {
    set i | 0 <= i < |r| && r[i]
  }

  method BenjaminiHochberg(p: seq<real>, alpha: real) returns (r: seq<bool>)
    ensures |r| == |p|
    ensures alpha >= 0.0 ==> Largest(p, alpha, Rejected(r))
    ensures alpha < 0.0 && (forall i :: 0 <= i < |p| ==> p[i] >= 0.0) ==> Rejected(r) == {}
  {
    hide Bound, Arranged, Largest, FirstIndices;
    var k := |p|;
    if k == 0 {
      r := [];
      NothingToReject(p, alpha, r);
      return;
    }
    var indexed := Sort(Pairs(p), PLe());
    SortArranges(p);
    ArrangedSize(p, indexed);
    var thresholdRank: Option<nat> := None;
    for i := 0 to |indexed|
      invariant thresholdRank.Some? ==> 0 < thresholdRank.value <= i
      invariant thresholdRank.Some? ==> indexed[thresholdRank.value - 1].p <= Bound(thresholdRank.value, k, alpha)
      invariant forall m :: (if thresholdRank.Some? then thresholdRank.value else 0) <= m < i ==> indexed[m].p > Bound(m + 1, k, alpha)
    {
      var rank := i + 1;
      if indexed[i].p <= Bound(rank, k, alpha) {
        thresholdRank := Some(rank);
      }
    }
    r := seq(k, _ => false);
    NoIndices(indexed, r);
    ghost var last := if thresholdRank.Some? then thresholdRank.value else 0;
    if thresholdRank.Some? {
      var t := thresholdRank.value;
      for i := 0 to |indexed|
        invariant |r| == k && Rejected(r) == FirstIndices(indexed, if i < t then i else t)
      {
        if i < t {
          NextIndex(p, indexed, i, r);
          r := r[indexed[i].index := true];
        }
      }
    }
    assert Rejected(r) == FirstIndices(indexed, last);
    assert LastPassing(p, alpha, indexed, last);
    if alpha >= 0.0 {
      StepUpIsLargest(p, alpha, indexed, last);
    } else if forall i :: 0 <= i < |p| ==> p[i] >= 0.0 {
      NegativeBudget(p, alpha, indexed, last);
      NoIndices(indexed, seq(k, _ => false));
    }
  }

  lemma NothingToReject(p: seq<real>, alpha: real, none: seq<bool>)
    requires p == [] && none == []
    ensures Largest(p, alpha, Rejected(none))
  {
    assert Rejected(none) == {};
    forall s | SelfConsistent(p, alpha, s) ensures s <= {} {
      assert forall i :: i in s ==> i < 0;
    }
  }

  lemma ArrangedSize(p: seq<real>, sorted: seq<Ranked>)
    requires Arranged(p, sorted)
    ensures |sorted| == |p|
  {
  }

  lemma NoIndices(sorted: seq<Ranked>, r: seq<bool>)
    requires forall i :: 0 <= i < |r| ==> !r[i]
    ensures FirstIndices(sorted, 0) == Rejected(r) == {}
  {
  }

  lemma NegativeBound(n: nat, k: nat, alpha: real)
    requires 0 < n <= k && alpha < 0.0
    ensures Bound(n, k, alpha) < 0.0
  {
    var q := n as real / k as real;
    assert q > 0.0;
    assert q * alpha < 0.0;
  }

  lemma NegativeBudget(p: seq<real>, alpha: real, sorted: seq<Ranked>, t: nat)
    requires |p| > 0 && alpha < 0.0 && Arranged(p, sorted) && LastPassing(p, alpha, sorted, t)
    requires forall i :: 0 <= i < |p| ==> p[i] >= 0.0
    ensures t == 0
  {
    hide Bound;
    if t > 0 {
      NegativeBound(t, |p|, alpha);
    }
  }

  lemma NextIndex(p: seq<real>, sorted: seq<Ranked>, i: nat, r: seq<bool>)
    requires Arranged(p, sorted) && i < |sorted| && |r| == |p| && Rejected(r) == FirstIndices(sorted, i)
    ensures sorted[i].index < |r| && Rejected(r[sorted[i].index := true]) == FirstIndices(sorted, i + 1)
  {
    var x := sorted[i].index;
    assert Rejected(r[x := true]) == Rejected(r) + {x};
  }
}
