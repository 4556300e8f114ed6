/** Reciprocal rank fusion: summed weighted reciprocal ranks, accumulated in a hash map and sorted
    by score, ties by identifier. */
module RankFusion {
  import opened Common
  import opened StableSort

  // The original score of a hit is carried but never read.
  datatype Hit = Hit(id: Uuid, original: real)

  // A ranking and its weight.
  datatype Weighted = Weighted(hits: seq<Hit>, weight: real)

  datatype Fused = Fused(id: Uuid, score: real)

  function Reciprocal(weight: real, k: nat, rank: nat): real
    requires rank > 0
  {
    weight / (k + rank) as real
  }

  // What one ranking gives `id`.
  function ListScore(hits: seq<Hit>, weight: real, k: nat, id: Uuid): real {
    if hits == [] then 0.0
    else
      ListScore(hits[..|hits| - 1], weight, k, id)
      + if hits[|hits| - 1].id == id then Reciprocal(weight, k, |hits|) else 0.0
  }

  function Score(lists: seq<Weighted>, k: nat, id: Uuid): real {
    if lists == [] then 0.0
    else
      var last := lists[|lists| - 1];
      Score(lists[..|lists| - 1], k, id) + ListScore(last.hits, last.weight, k, id)
  }

  predicate Listed(hits: seq<Hit>, id: Uuid) {
    exists p :: 0 <= p < |hits| && hits[p].id == id
  }

  predicate Somewhere(lists: seq<Weighted>, id: Uuid) {
    exists r :: 0 <= r < |lists| && Listed(lists[r].hits, id)
  }

  function Zip(rankings: seq<seq<Hit>>, weights: seq<real>): (r: seq<Weighted>)
    requires |rankings| == |weights|
    ensures |r| == |rankings|
  {
    seq(|rankings|, i requires 0 <= i < |rankings| => Weighted(rankings[i], weights[i]))
  }

  function RankLe(): (Fused, Fused) -> bool {
    (a: Fused, b: Fused) => a.score > b.score || (a.score == b.score && a.id <= b.id)
  }

  // The fusion of `lists`: every identifier once, with its score, in order.
  ghost predicate FusionOf(lists: seq<Weighted>, k: nat, r: seq<Fused>) {
    && SortedBy(r, RankLe()) && Distinct(r)
    && forall f :: f in r <==> Somewhere(lists, f.id) && f.score == Score(lists, k, f.id)
  }

  // ---- The procedure ---------------------------------------------------------------------------

  // `scores` after the first `n` lists and the first `m` hits of the next one.
  ghost predicate Accumulated(scores: map<Uuid, real>, lists: seq<Weighted>, n: nat, m: nat, k: nat)
    requires n <= |lists| && (if n == |lists| then m == 0 else m <= |lists[n].hits|)
  {
    forall id ::
      && (id in scores <==> Somewhere(lists[..n], id) || (n < |lists| && Listed(lists[n].hits[..m], id)))
      && (id in scores ==> scores[id] == ScoreSoFar(lists, n, m, k, id))
  }

  function ScoreSoFar(lists: seq<Weighted>, n: nat, m: nat, k: nat, id: Uuid): real
    requires n <= |lists| && (if n == |lists| then m == 0 else m <= |lists[n].hits|)
  {
    Score(lists[..n], k, id) + if n < |lists| then ListScore(lists[n].hits[..m], lists[n].weight, k, id) else 0.0
  }

  lemma NextHit(scores: map<Uuid, real>, lists: seq<Weighted>, n: nat, m: nat, k: nat, id: Uuid)
    requires n < |lists| && m < |lists[n].hits| && Accumulated(scores, lists, n, m, k) && id == lists[n].hits[m].id
    ensures var before := if id in scores then scores[id] else 0.0;
      Accumulated(scores[id := before + Reciprocal(lists[n].weight, k, m + 1)], lists, n, m + 1, k)
  {
    var hits := lists[n].hits;
    assert hits[..m + 1][..m] == hits[..m];
    forall x ensures Listed(hits[..m + 1], x) <==> Listed(hits[..m], x) || x == id {
      if Listed(hits[..m], x) {
        var p :| 0 <= p < m && hits[..m][p].id == x;
        assert hits[..m + 1][p].id == x;
      }
      assert hits[..m + 1][m].id == id;
    }
    if id !in scores {
      NotSomewhere(lists[..n], k, id);
      NotListed(hits[..m], lists[n].weight, k, id);
    }
  }

  lemma {:induction false} NotListed(hits: seq<Hit>, weight: real, k: nat, id: Uuid)
    requires !Listed(hits, id)
    ensures ListScore(hits, weight, k, id) == 0.0
  {
    if hits != [] {
      NotListed(hits[..|hits| - 1], weight, k, id);
    }
  }

  lemma {:induction false} NotSomewhere(lists: seq<Weighted>, k: nat, id: Uuid)
    requires !Somewhere(lists, id)
    ensures Score(lists, k, id) == 0.0
  {
    if lists != [] {
      var rest, last := lists[..|lists| - 1], lists[|lists| - 1];
      forall r | 0 <= r < |rest| ensures !Listed(rest[r].hits, id) {
        assert rest[r] == lists[r];
      }
      NotSomewhere(rest, k, id);
      NotListed(last.hits, last.weight, k, id);
    }
  }

  lemma NextList(scores: map<Uuid, real>, lists: seq<Weighted>, n: nat, k: nat)
    requires n < |lists| && Accumulated(scores, lists, n, |lists[n].hits|, k)
    ensures Accumulated(scores, lists, n + 1, 0, k)
  {
    var hits := lists[n].hits;
    assert hits[..|hits|] == hits && lists[..n + 1][..n] == lists[..n];
    forall id ensures Somewhere(lists[..n + 1], id) <==> Somewhere(lists[..n], id) || Listed(hits, id) {
      if Somewhere(lists[..n], id) {
        var r :| 0 <= r < n && Listed(lists[..n][r].hits, id);
        assert lists[..n + 1][r] == lists[..n][r];
      }
      assert lists[..n + 1][n] == lists[n];
    }
  }

  method AnyOf<T>(s: set<T>) returns (x: T)
    requires s != {}
    ensures x in s
  {
    x :| x in s;
  }

  // The entries of a map, in whatever order iteration gives them.
  method Entries(scores: map<Uuid, real>) returns (r: seq<Fused>)
    ensures Distinct(r)
    ensures forall f :: f in r <==> f.id in scores && f.score == scores[f.id]
  {
    r := [];
    var left := scores.Keys;
    while left != {}
      invariant left <= scores.Keys && Distinct(r)
      invariant forall i :: 0 <= i < |r| ==> r[i].id in scores && r[i].id !in left && r[i].score == scores[r[i].id]
      invariant forall id :: id in scores && id !in left ==> Fused(id, scores[id]) in r
    {
      var id := AnyOf(left);
      left := left - {id};
      r := r + [Fused(id, scores[id])];
    }
  }

  lemma SortedFusion(lists: seq<Weighted>, k: nat, scores: map<Uuid, real>, entries: seq<Fused>)
    requires Accumulated(scores, lists, |lists|, 0, k) && Distinct(entries)
    requires forall f :: f in entries <==> f.id in scores && f.score == scores[f.id]
    ensures FusionOf(lists, k, Sort(entries, RankLe()))
  {
    hide Somewhere, Score;
    assert lists[..|lists|] == lists;
    SortIsStable(entries, RankLe());
    RearrangedDistinct(entries, Sort(entries, RankLe()));
    forall f ensures f in Sort(entries, RankLe()) <==> Somewhere(lists, f.id) && f.score == Score(lists, k, f.id) {
      SortMember(entries, RankLe(), f);
    }
  }

  method ReciprocalRankFusion(rankings: seq<seq<Hit>>, weights: seq<real>, k: nat)
    returns (result: Result<seq<Fused>, string>)
    ensures result.Ok? <==> |rankings| == |weights|
    ensures result.Ok? ==> FusionOf(Zip(rankings, weights), k, result.value)
  {
    hide Accumulated, FusionOf, Reciprocal;
    if |rankings| != |weights| {
      return Err("rankings and weights must be same length");
    }
    var lists := Zip(rankings, weights);
    var scores: map<Uuid, real> := map[];
    NothingAccumulated(lists, k);
    if rankings == [] {
      var none := Entries(scores);
      SortedFusion(lists, k, scores, none);
      return Ok(Sort(none, RankLe()));
    }
    for n := 0 to |lists|
      invariant Accumulated(scores, lists, n, 0, k)
    {
      var hits, weight := lists[n].hits, lists[n].weight;
      for m := 0 to |hits|
        invariant Accumulated(scores, lists, n, m, k)
      {
        var id := hits[m].id;
        NextHit(scores, lists, n, m, k, id);
        scores := scores[id := (if id in scores then scores[id] else 0.0) + Reciprocal(weight, k, m + 1)];
      }
      NextList(scores, lists, n, k);
    }
    var entries := Entries(scores);
    SortedFusion(lists, k, scores, entries);
    result := Ok(Sort(entries, RankLe()));
  }

  lemma NothingAccumulated(lists: seq<Weighted>, k: nat)
    ensures Accumulated(map[], lists, 0, 0, k)
  {
  }

  // ---- What the fusion depends on --------------------------------------------------------------

  lemma RankLeOrder()
    ensures TotalPreorder(RankLe())
    ensures forall f, g :: RankLe()(f, g) && RankLe()(g, f) ==> f == g
  {
  }

  lemma DistinctSame(a: seq<Fused>, b: seq<Fused>)
    requires Distinct(a) && Distinct(b) && forall f :: f in a <==> f in b
    ensures multiset(a) == multiset(b)
  {
    forall f ensures multiset(a)[f] == multiset(b)[f] {
      DistinctOnce(a, f);
      DistinctOnce(b, f);
      assert f in a <==> f in multiset(a);
      assert f in b <==> f in multiset(b);
    }
  }

  // There is only one fusion: the order in which the map was iterated does not show.
  lemma FusionIsUnique(lists: seq<Weighted>, k: nat, a: seq<Fused>, b: seq<Fused>)
    requires FusionOf(lists, k, a) && FusionOf(lists, k, b)
    ensures a == b
  {
    hide Somewhere, Score;
    DistinctSame(a, b);
    RankLeOrder();
    SortedUnique(a, b, RankLe());
  }

  lemma {:induction false} ScoreJoin(a: seq<Weighted>, b: seq<Weighted>, k: nat, id: Uuid)
    ensures Score(a + b, k, id) == Score(a, k, id) + Score(b, k, id)
  {
    if b == [] {
      assert a + b == a;
    } else {
      ScoreJoin(a, b[..|b| - 1], k, id);
      assert (a + b)[..|a + b| - 1] == a + b[..|b| - 1];
    }
  }

  lemma {:induction false} ScorePermutes(a: seq<Weighted>, b: seq<Weighted>, k: nat, id: Uuid)
    requires multiset(a) == multiset(b)
    ensures Score(a, k, id) == Score(b, k, id)
  {
    hide ListScore, Score;
    if a == [] {
      assert |multiset(a)| == |multiset(b)|;
      assert b == [];
    } else {
      var i := TakeOut(a, b);
      assert a == [a[0]] + a[1..];
      ScorePermutes(a[1..], b[..i] + b[i + 1..], k, id);
      ScoreJoin([a[0]], a[1..], k, id);
      ScoreJoin(b[..i], [a[0]] + b[i + 1..], k, id);
      ScoreJoin([a[0]], b[i + 1..], k, id);
      ScoreJoin(b[..i], b[i + 1..], k, id);
    }
  }

  lemma SomewherePermutes(a: seq<Weighted>, b: seq<Weighted>, id: Uuid)
    requires multiset(a) == multiset(b) && Somewhere(a, id)
    ensures Somewhere(b, id)
  {
    var r :| 0 <= r < |a| && Listed(a[r].hits, id);
    assert a[r] in multiset(b);
    var q :| 0 <= q < |b| && b[q] == a[r];
  }

  // Permuting the rankings together with their weights changes nothing.
  lemma ListOrderIrrelevant(a: seq<Weighted>, b: seq<Weighted>, k: nat, r: seq<Fused>, r': seq<Fused>)
    requires multiset(a) == multiset(b) && FusionOf(a, k, r) && FusionOf(b, k, r')
    ensures r == r'
  {
    hide Somewhere, Score;
    forall f ensures f in r <==> f in r' {
      ScorePermutes(a, b, k, f.id);
      if Somewhere(a, f.id) {
        SomewherePermutes(a, b, f.id);
      }
      if Somewhere(b, f.id) {
        SomewherePermutes(b, a, f.id);
      }
    }
    DistinctSame(r, r');
    RankLeOrder();
    SortedUnique(r, r', RankLe());
  }

  // ---- Ranking ahead ---------------------------------------------------------------------------

  ghost predicate OnceAt(hits: seq<Hit>, id: Uuid, p: nat) {
    p < |hits| && forall q :: 0 <= q < |hits| ==> (hits[q].id == id <==> q == p)
  }

  // `x` comes before `y` in every list that holds `y`, and each at most once per list.
  ghost predicate AheadIn(hits: seq<Hit>, x: Uuid, y: Uuid) {
    && (Listed(hits, y) ==> exists p: nat, q: nat :: p < q && OnceAt(hits, x, p) && OnceAt(hits, y, q))
  }

  lemma {:induction false} ScoreOnce(hits: seq<Hit>, weight: real, k: nat, id: Uuid, p: nat)
    requires OnceAt(hits, id, p)
    ensures ListScore(hits, weight, k, id) == Reciprocal(weight, k, p + 1)
  {
    var rest := hits[..|hits| - 1];
    if p == |hits| - 1 {
      NotListed(rest, weight, k, id);
    } else {
      ScoreOnce(rest, weight, k, id, p);
    }
  }

  lemma ReciprocalFalls(weight: real, k: nat, p: nat, q: nat)
    requires weight >= 0.0 && 0 < p < q
    ensures Reciprocal(weight, k, p) >= Reciprocal(weight, k, q) >= 0.0
    ensures weight > 0.0 ==> Reciprocal(weight, k, p) > Reciprocal(weight, k, q)
  {
    var b, c := (k + p) as real, (k + q) as real;
    var x, y := weight / b, weight / c;
    assert x * b == y * c && 0.0 < b < c;
    assert x >= 0.0 && y >= 0.0;
    assert x * c >= x * b;
    Cancel(y, x, c);
    if weight > 0.0 {
      assert x > 0.0;
      assert x * c > x * b;
    }
  }

  lemma Cancel(y: real, x: real, c: real)
    requires c > 0.0 && y * c <= x * c
    ensures y <= x && (y * c < x * c ==> y < x)
  {
  }

  lemma {:induction false} ListScoreNonNegative(hits: seq<Hit>, weight: real, k: nat, id: Uuid)
    requires weight >= 0.0
    ensures ListScore(hits, weight, k, id) >= 0.0
  {
    if hits != [] {
      ListScoreNonNegative(hits[..|hits| - 1], weight, k, id);
    }
  }

  lemma AheadScores(hits: seq<Hit>, weight: real, k: nat, x: Uuid, y: Uuid)
    requires weight >= 0.0 && AheadIn(hits, x, y)
    ensures ListScore(hits, weight, k, x) >= ListScore(hits, weight, k, y)
    ensures weight > 0.0 && Listed(hits, y) ==> ListScore(hits, weight, k, x) > ListScore(hits, weight, k, y)
  {
    hide ListScore, Reciprocal;
    if Listed(hits, y) {
      var p: nat, q: nat :| p < q && OnceAt(hits, x, p) && OnceAt(hits, y, q);
      ScoreOnce(hits, weight, k, x, p);
      ScoreOnce(hits, weight, k, y, q);
      ReciprocalFalls(weight, k, p + 1, q + 1);
    } else {
      NotListed(hits, weight, k, y);
      ListScoreNonNegative(hits, weight, k, x);
    }
  }

  lemma {:induction false} AheadEverywhere(lists: seq<Weighted>, k: nat, x: Uuid, y: Uuid)
    requires forall r :: 0 <= r < |lists| ==> lists[r].weight >= 0.0 && AheadIn(lists[r].hits, x, y)
    ensures Score(lists, k, x) >= Score(lists, k, y)
    ensures (exists r :: 0 <= r < |lists| && lists[r].weight > 0.0 && Listed(lists[r].hits, y)) ==>
      Score(lists, k, x) > Score(lists, k, y)
  {
    hide ListScore, AheadIn, Listed;
    if lists != [] {
      var rest, last := lists[..|lists| - 1], lists[|lists| - 1];
      AheadEverywhere(rest, k, x, y);
      AheadScores(last.hits, last.weight, k, x, y);
      if exists r :: 0 <= r < |lists| && lists[r].weight > 0.0 && Listed(lists[r].hits, y) {
        var r :| 0 <= r < |lists| && lists[r].weight > 0.0 && Listed(lists[r].hits, y);
        assert r < |rest| ==> rest[r] == lists[r];
      }
    }
  }

  // An identifier ranked ahead of another in every list holding the other, at least one of them of
  // positive weight, comes out ahead of it.
  lemma AheadComesOutAhead(lists: seq<Weighted>, k: nat, r: seq<Fused>, x: Uuid, y: Uuid)
    requires forall n :: 0 <= n < |lists| ==> lists[n].weight >= 0.0 && AheadIn(lists[n].hits, x, y)
    requires exists n :: 0 <= n < |lists| && lists[n].weight > 0.0 && Listed(lists[n].hits, y)
    requires FusionOf(lists, k, r)
    ensures exists i, j :: 0 <= i < j < |r| && r[i].id == x && r[j].id == y
  {
    hide Score, ListScore;
    AheadEverywhere(lists, k, x, y);
    var n :| 0 <= n < |lists| && lists[n].weight > 0.0 && Listed(lists[n].hits, y);
    var p: nat, q: nat :| p < q && OnceAt(lists[n].hits, x, p) && OnceAt(lists[n].hits, y, q);
    assert lists[n].hits[p].id == x;
    assert Somewhere(lists, x) && Somewhere(lists, y);
    var f, g := Fused(x, Score(lists, k, x)), Fused(y, Score(lists, k, y));
    assert f in r && g in r;
    var i :| 0 <= i < |r| && r[i] == f;
    var j :| 0 <= j < |r| && r[j] == g;
    assert !RankLe()(g, f) && f != g;
  }

  // The order, by score and then by identifier.
  lemma FusionIsOrdered(lists: seq<Weighted>, k: nat, r: seq<Fused>, i: nat, j: nat)
    requires FusionOf(lists, k, r) && i < j < |r|
    ensures r[i].score > r[j].score || (r[i].score == r[j].score && r[i].id < r[j].id)
  {
    assert RankLe()(r[i], r[j]) && r[i] != r[j];
    assert r[i] in r && r[j] in r;
  }

  // An identifier that one list has at place `p` and no other list has: its score, times `k` and its
  // rank from 1, is the weight of that list.
  lemma OneListScores(lists: seq<Weighted>, k: nat, n: nat, id: Uuid, p: nat)
    requires n < |lists| && OnceAt(lists[n].hits, id, p) && forall m :: 0 <= m < |lists| && m != n ==> !Listed(lists[m].hits, id)
    ensures Score(lists, k, id) * (k + p + 1) as real == lists[n].weight
    decreases |lists|
  {
    var last := |lists| - 1;
    if n < last {
      NotListed(lists[last].hits, lists[last].weight, k, id);
      OneListScores(lists[..last], k, n, id, p);
    } else {
      forall m | 0 <= m < last ensures !Listed(lists[..last][m].hits, id) {
      }
      NotSomewhere(lists[..last], k, id);
      ScoreOnce(lists[n].hits, lists[n].weight, k, id, p);
    }
  }
}
