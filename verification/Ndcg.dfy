/** Normalised discounted cumulative gain. The gain of a relevance (`2^rel - 1`) and the
    logarithmic discount of a position are parameters; only their monotonicity is used. */
module Ndcg {
  import opened StableSort

  function Descending(): (real, real) -> bool {
    (a: real, b: real) => a >= b
  }

  // Gain over discount, summed over the first `n` relevances, the first one at position `at`.
  function Dcg(rels: seq<real>, at: nat, n: nat, gain: real -> real, discount: nat -> real): real
    requires n <= |rels| && forall i :: discount(i) > 0.0
  {
    if n == 0 then 0.0
    else gain(rels[0]) / discount(at) + Dcg(rels[1..], at + 1, n - 1, gain, discount)
  }

  function NdcgAtK(rels: seq<real>, k: nat, gain: real -> real, discount: nat -> real): real
    requires forall i :: discount(i) > 0.0
  {
    var limit := if k < |rels| then k else |rels|;
    if limit == 0 then 0.0
    else
      var dcg := Dcg(rels[..limit], 0, limit, gain, discount);
      var sorted := Ordered(rels);
      var idcg := Dcg(sorted[..limit], 0, limit, gain, discount);
      if idcg == 0.0 then 0.0 else dcg / idcg
  }

  function Ordered(rels: seq<real>): (r: seq<real>)
    ensures |r| == |rels| && multiset(r) == multiset(rels)
  {
    SortIsStable(rels, Descending());
    Sort(rels, Descending())
  }

  ghost predicate Discounting(discount: nat -> real) {
    && (forall i :: discount(i) > 0.0)
    && (forall i, j :: i <= j ==> discount(i) <= discount(j))
  }

  ghost predicate Increasing(gain: real -> real) {
    forall x, y :: x <= y ==> gain(x) <= gain(y)
  }

  lemma Shrinks(g: real, c: real, d: real)
    requires g >= 0.0 && 0.0 < c <= d
    ensures 0.0 <= g / d <= g / c
  {
    var p, q := g / c, g / d;
    assert p * c == q * d;
    if q > p {
      assert q * d >= q * c;
      assert q * c > p * c;
    }
  }

  lemma Quotient(g: real, h: real, c: real)
    requires g <= h && c > 0.0
    ensures g / c <= h / c
  {
  }

  // The rearrangement of two neighbours that puts the larger gain first never loses.
  lemma Exchange(g: real, h: real, c: real, d: real)
    requires g <= h && 0.0 < c <= d
    ensures g / c + h / d <= h / c + g / d
  {
    Shrinks(h - g, c, d);
    assert (h - g) / c == h / c - g / c && (h - g) / d == h / d - g / d;
  }

  lemma {:induction false} PrefixIsEnough(rels: seq<real>, at: nat, n: nat, gain: real -> real, discount: nat -> real)
    requires n <= |rels| && Discounting(discount)
    ensures Dcg(rels[..n], at, n, gain, discount) == Dcg(rels, at, n, gain, discount)
  {
    if n > 0 {
      PrefixIsEnough(rels[1..], at + 1, n - 1, gain, discount);
      assert rels[..n][1..] == rels[1..][..n - 1];
    }
  }

  lemma DcgFirst(x: real, s: seq<real>, at: nat, n: nat, gain: real -> real, discount: nat -> real)
    requires 0 < n <= |s| + 1 && Discounting(discount)
    ensures Dcg([x] + s, at, n, gain, discount) == gain(x) / discount(at) + Dcg(s, at + 1, n - 1, gain, discount)
  {
    assert ([x] + s)[1..] == s;
  }

  lemma Swapped(x: real, y: real, s: seq<real>, at: nat, n: nat, gain: real -> real, discount: nat -> real)
    requires 0 < n <= |s| + 2 && x <= y && Discounting(discount) && Increasing(gain)
    ensures Dcg([x] + ([y] + s), at, n, gain, discount) <= Dcg([y] + ([x] + s), at, n, gain, discount)
  {
    hide Dcg;
    DcgFirst(x, [y] + s, at, n, gain, discount);
    DcgFirst(y, [x] + s, at, n, gain, discount);
    if n == 1 {
      NoPlaces([x] + s, [y] + s, at + 1, gain, discount);
      Quotient(gain(x), gain(y), discount(at));
    } else {
      DcgFirst(y, s, at + 1, n - 1, gain, discount);
      DcgFirst(x, s, at + 1, n - 1, gain, discount);
      Exchange(gain(x), gain(y), discount(at), discount(at + 1));
    }
  }

  lemma NoPlaces(r: seq<real>, s: seq<real>, at: nat, gain: real -> real, discount: nat -> real)
    requires Discounting(discount)
    ensures Dcg(r, at, 0, gain, discount) == Dcg(s, at, 0, gain, discount) == 0.0
  {
  }

  lemma InsertSize(x: real, s: seq<real>)
    ensures |Insert(x, s, Descending())| == |s| + 1
  {
    InsertMultiset(x, s, Descending());
    assert |multiset(Insert(x, s, Descending()))| == |s| + 1;
  }

  lemma {:induction false} InsertionGains(x: real, s: seq<real>, at: nat, n: nat, gain: real -> real, discount: nat -> real)
    requires n <= |s| + 1 && Discounting(discount) && Increasing(gain)
    ensures |Insert(x, s, Descending())| == |s| + 1
    ensures Dcg([x] + s, at, n, gain, discount) <= Dcg(Insert(x, s, Descending()), at, n, gain, discount)
  {
    hide Dcg, Discounting, Increasing;
    InsertSize(x, s);
    if n == 0 {
      NoPlaces([x] + s, Insert(x, s, Descending()), at, gain, discount);
    } else if s != [] && !(x >= s[0]) {
      var rest := s[1..];
      var r := Insert(x, rest, Descending());
      InsertionGains(x, rest, at + 1, n - 1, gain, discount);
      assert s == [s[0]] + rest;
      Swapped(x, s[0], rest, at, n, gain, discount);
      DcgFirst(s[0], r, at, n, gain, discount);
      DcgFirst(s[0], [x] + rest, at, n, gain, discount);
    }
  }

  lemma {:induction false} SortingGains(s: seq<real>, at: nat, n: nat, gain: real -> real, discount: nat -> real)
    requires n <= |s| && Discounting(discount) && Increasing(gain)
    ensures Dcg(s, at, n, gain, discount) <= Dcg(Ordered(s), at, n, gain, discount)
  {
    if n > 0 {
      SortingGains(s[1..], at + 1, n - 1, gain, discount);
      var r := Ordered(s[1..]);
      InsertionGains(s[0], r, at, n, gain, discount);
      assert ([s[0]] + r)[1..] == r;
    }
  }

  lemma OrderedIsUnique(r: seq<real>, s: seq<real>)
    requires multiset(r) == multiset(s)
    ensures Ordered(r) == Ordered(s)
  {
    SortIsStable(r, Descending());
    SortIsStable(s, Descending());
    SortedUnique(Ordered(r), Ordered(s), Descending());
  }

  // No arrangement of the same relevances collects more in its first `n` places than the
  // descending one.
  lemma DescendingIsIdeal(r: seq<real>, s: seq<real>, n: nat, gain: real -> real, discount: nat -> real)
    requires multiset(r) == multiset(s) && n <= |r| && Discounting(discount) && Increasing(gain)
    ensures n <= |s| && Dcg(r, 0, n, gain, discount) <= Dcg(Ordered(s), 0, n, gain, discount)
  {
    assert |multiset(r)| == |multiset(s)|;
    OrderedIsUnique(r, s);
    SortingGains(r, 0, n, gain, discount);
  }

  ghost predicate Gainful(rels: seq<real>, gain: real -> real) {
    forall i :: 0 <= i < |rels| ==> gain(rels[i]) >= 0.0
  }

  lemma {:induction false} DcgNonNegative(rels: seq<real>, at: nat, n: nat, gain: real -> real, discount: nat -> real)
    requires n <= |rels| && Discounting(discount) && Gainful(rels, gain)
    ensures Dcg(rels, at, n, gain, discount) >= 0.0
    ensures n > 0 && gain(rels[0]) > 0.0 ==> Dcg(rels, at, n, gain, discount) > 0.0
  {
    if n > 0 {
      assert Gainful(rels[1..], gain);
      DcgNonNegative(rels[1..], at + 1, n - 1, gain, discount);
      assert gain(rels[0]) / discount(at) >= 0.0;
    }
  }

  lemma RatioInUnit(a: real, b: real)
    requires 0.0 <= a <= b && b > 0.0
    ensures 0.0 <= a / b <= 1.0
  {
  }

  ghost predicate NonNegative(rels: seq<real>) {
    forall i :: 0 <= i < |rels| ==> rels[i] >= 0.0
  }

  lemma SortedGainful(rels: seq<real>, gain: real -> real)
    requires NonNegative(rels) && Increasing(gain) && gain(0.0) == 0.0
    ensures Gainful(rels, gain) && Gainful(Ordered(rels), gain)
  {
    var ordered := Ordered(rels);
    forall i | 0 <= i < |ordered| ensures gain(ordered[i]) >= 0.0 {
      assert ordered[i] in multiset(rels);
      assert ordered[i] in rels;
      assert gain(0.0) <= gain(ordered[i]);
    }
    assert forall i :: 0 <= i < |rels| ==> gain(0.0) <= gain(rels[i]);
  }

  // For relevances that are not negative the score lies between 0 and 1.
  lemma NdcgInUnit(rels: seq<real>, k: nat, gain: real -> real, discount: nat -> real)
    requires NonNegative(rels) && Discounting(discount) && Increasing(gain) && gain(0.0) == 0.0
    ensures 0.0 <= NdcgAtK(rels, k, gain, discount) <= 1.0
  {
    var limit := if k < |rels| then k else |rels|;
    SortedGainful(rels, gain);
    PrefixIsEnough(rels, 0, limit, gain, discount);
    PrefixIsEnough(Ordered(rels), 0, limit, gain, discount);
    DcgNonNegative(rels, 0, limit, gain, discount);
    DescendingIsIdeal(rels, rels, limit, gain, discount);
    if limit > 0 && Dcg(Ordered(rels), 0, limit, gain, discount) > 0.0 {
      RatioInUnit(Dcg(rels, 0, limit, gain, discount), Dcg(Ordered(rels), 0, limit, gain, discount));
    }
  }

  lemma SelfRatio(a: real)
    requires a > 0.0
    ensures a / a == 1.0
  {
  }

  lemma OrderedStays(rels: seq<real>)
    requires SortedBy(rels, Descending())
    ensures Ordered(rels) == rels
  {
    SortIsStable(rels, Descending());
    SortedUnique(Ordered(rels), rels, Descending());
  }

  // A descending list whose top entry gains anything scores exactly 1.
  lemma DescendingScoresOne(rels: seq<real>, k: nat, gain: real -> real, discount: nat -> real)
    requires NonNegative(rels) && Discounting(discount) && Increasing(gain) && gain(0.0) == 0.0
    requires SortedBy(rels, Descending()) && k > 0 && rels != [] && gain(rels[0]) > 0.0
    ensures NdcgAtK(rels, k, gain, discount) == 1.0
  {
    hide Dcg, Gainful, SortedBy;
    var limit := if k < |rels| then k else |rels|;
    OrderedStays(rels);
    SortedGainful(rels, gain);
    PrefixIsEnough(rels, 0, limit, gain, discount);
    DcgNonNegative(rels, 0, limit, gain, discount);
    SelfRatio(Dcg(rels, 0, limit, gain, discount));
  }

  lemma {:induction false} NothingGained(rels: seq<real>, at: nat, n: nat, gain: real -> real, discount: nat -> real)
    requires n <= |rels| && Discounting(discount) && forall i :: 0 <= i < |rels| ==> gain(rels[i]) == 0.0
    ensures Dcg(rels, at, n, gain, discount) == 0.0
  {
    if n > 0 {
      NothingGained(rels[1..], at + 1, n - 1, gain, discount);
    }
  }

  // The score is positive exactly when one of the first `k` results gains something.
  lemma {:induction false} SomethingGained(rels: seq<real>, at: nat, n: nat, gain: real -> real, discount: nat -> real)
    requires n <= |rels| && Discounting(discount) && Gainful(rels, gain)
    ensures Dcg(rels, at, n, gain, discount) > 0.0 <==> exists i :: 0 <= i < n && gain(rels[i]) > 0.0
  {
    if n > 0 {
      assert Gainful(rels[1..], gain);
      SomethingGained(rels[1..], at + 1, n - 1, gain, discount);
      DcgNonNegative(rels[1..], at + 1, n - 1, gain, discount);
      assert gain(rels[0]) / discount(at) >= 0.0;
      assert gain(rels[0]) > 0.0 ==> gain(rels[0]) / discount(at) > 0.0;
      if exists i :: 0 <= i < n && gain(rels[i]) > 0.0 {
        var i :| 0 <= i < n && gain(rels[i]) > 0.0;
        assert i > 0 ==> rels[1..][i - 1] == rels[i];
      }
      if exists i :: 0 <= i < n - 1 && gain(rels[1..][i]) > 0.0 {
        var i :| 0 <= i < n - 1 && gain(rels[1..][i]) > 0.0;
        assert rels[i + 1] == rels[1..][i];
      }
    }
  }

  // The score vanishes exactly when none of the first `k` results gains anything.
  lemma ZeroExactly(rels: seq<real>, k: nat, gain: real -> real, discount: nat -> real)
    requires NonNegative(rels) && Discounting(discount) && Increasing(gain) && gain(0.0) == 0.0
    ensures NdcgAtK(rels, k, gain, discount) > 0.0 <==> exists i :: 0 <= i < k && i < |rels| && gain(rels[i]) > 0.0
  {
    hide Dcg, Gainful, Sort;
    var limit := if k < |rels| then k else |rels|;
    SortedGainful(rels, gain);
    PrefixIsEnough(rels, 0, limit, gain, discount);
    PrefixIsEnough(Ordered(rels), 0, limit, gain, discount);
    SomethingGained(rels, 0, limit, gain, discount);
    DcgNonNegative(rels, 0, limit, gain, discount);
    DescendingIsIdeal(rels, rels, limit, gain, discount);
    var a, b := Dcg(rels, 0, limit, gain, discount), Dcg(Ordered(rels), 0, limit, gain, discount);
    if b > 0.0 {
      assert a / b > 0.0 <==> a > 0.0;
    }
    if a > 0.0 {
      var i :| 0 <= i < limit && gain(rels[i]) > 0.0;
    }
  }

  // Each place contributes its gain over its own discount, and nothing else depends on it.
  lemma {:induction false} PlaceCounts(rels: seq<real>, at: nat, n: nat, i: nat, x: real, gain: real -> real, discount: nat -> real)
    requires i < n <= |rels| && Discounting(discount)
    ensures Dcg(rels[i := x], at, n, gain, discount) - Dcg(rels, at, n, gain, discount)
      == gain(x) / discount(at + i) - gain(rels[i]) / discount(at + i)
    decreases i
  {
    if i > 0 {
      PlaceCounts(rels[1..], at + 1, n - 1, i - 1, x, gain, discount);
      assert rels[i := x][1..] == rels[1..][i - 1 := x];
    } else {
      assert rels[i := x][1..] == rels[1..];
    }
  }

  // `best` is an arrangement that collects at least as much as any other in its first `n` places.
  ghost predicate Best(best: seq<real>, rels: seq<real>, n: nat, gain: real -> real, discount: nat -> real)
    requires Discounting(discount)
  {
    && n <= |best| == |rels| && multiset(best) == multiset(rels)
    && forall other :: multiset(other) == multiset(rels) && |other| == |rels| ==>
         Dcg(other, 0, n, gain, discount) <= Dcg(best, 0, n, gain, discount)
  }

  lemma BestIsOrdered(best: seq<real>, rels: seq<real>, n: nat, gain: real -> real, discount: nat -> real)
    requires Discounting(discount) && Increasing(gain) && Best(best, rels, n, gain, discount)
    ensures Dcg(best, 0, n, gain, discount) == Dcg(Ordered(rels), 0, n, gain, discount)
  {
    hide Dcg, Sort, Discounting, Increasing;
    DescendingIsIdeal(best, rels, n, gain, discount);
    var ordered := Ordered(rels);
    assert multiset(ordered) == multiset(rels) && |ordered| == |rels|;
  }

  // The score is the share of what the best arrangement of all results collects in the first `k`
  // places, whichever best arrangement one takes.
  lemma ShareOfTheBest(rels: seq<real>, best: seq<real>, k: nat, gain: real -> real, discount: nat -> real)
    requires NonNegative(rels) && Discounting(discount) && Increasing(gain) && gain(0.0) == 0.0
    requires Best(best, rels, if k < |rels| then k else |rels|, gain, discount)
    ensures var limit := if k < |rels| then k else |rels|;
      NdcgAtK(rels, k, gain, discount) * Dcg(best, 0, limit, gain, discount) == Dcg(rels, 0, limit, gain, discount)
  {
    hide Dcg, Gainful, Ordered, Best, NonNegative, Increasing;
    var limit := if k < |rels| then k else |rels|;
    var a, b := Dcg(rels, 0, limit, gain, discount), Dcg(Ordered(rels), 0, limit, gain, discount);
    BestIsOrdered(best, rels, limit, gain, discount);
    SortedGainful(rels, gain);
    PrefixIsEnough(rels, 0, limit, gain, discount);
    PrefixIsEnough(Ordered(rels), 0, limit, gain, discount);
    DcgNonNegative(rels, 0, limit, gain, discount);
    DescendingIsIdeal(rels, rels, limit, gain, discount);
    if limit == 0 {
      NoPlaces(rels, best, 0, gain, discount);
    } else if b != 0.0 {
      RatioTimes(a, b);
    }
  }

  lemma RatioTimes(a: real, b: real)
    requires b != 0.0
    ensures (a / b) * b == a
  {
  }
}
