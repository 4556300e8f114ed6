/** What reachability over the memory graph means: walks along edges that have not been
    invalidated, hop distances, and scores multiplied along a walk. Everything here speaks
    of the edge log (edge metadata in edge-index order) and of node identifiers. */
module TemporalPaths {
  import opened Common

  datatype EdgeType = Temporal | Causal | Entity | Semantic | Supersedes

  datatype Edge = Edge(
    id: Uuid, source: Uuid, target: Uuid, relation: string, weight: real,
    validAt: int, invalidAt: Option<int>, supersededBy: Option<Uuid>,
    halfLife: Option<real>, edgeType: EdgeType)

  predicate Live(e: Edge) {
    e.invalidAt.None?
  }

  // `w` lists edge indices; each edge is live and starts where the previous one ended.
  ghost predicate Walk(log: seq<Edge>, a: Uuid, w: seq<nat>, b: Uuid)
    decreases |w|
  {
    if w == [] then a == b
    else
      var last := w[|w| - 1];
      last < |log| && Live(log[last]) && log[last].target == b && Walk(log, a, w[..|w| - 1], log[last].source)
  }

  ghost predicate Within(log: seq<Edge>, a: Uuid, b: Uuid, k: nat) {
    exists w :: Walk(log, a, w, b) && |w| <= k
  }

  ghost predicate Distance(log: seq<Edge>, a: Uuid, b: Uuid, d: nat) {
    && (exists w :: Walk(log, a, w, b) && |w| == d)
    && (forall w :: Walk(log, a, w, b) ==> d <= |w|)
  }

  ghost function Product(log: seq<Edge>, w: seq<nat>, t: Edge -> real): real {
    if w == [] then 1.0
    else Times(Product(log, w[..|w| - 1], t), if w[|w| - 1] < |log| then t(log[w[|w| - 1]]) else 1.0)
  }

  function Times(a: real, b: real): real {
    a * b
  }

  // The best score among the walks of fewest hops.
  ghost predicate BestShortest(log: seq<Edge>, a: Uuid, b: Uuid, t: Edge -> real, s: real) {
    exists d: nat :: Distance(log, a, b, d) && BestOfLength(log, a, b, t, d, s)
  }

  ghost predicate BestOfLength(log: seq<Edge>, a: Uuid, b: Uuid, t: Edge -> real, d: nat, s: real) {
    && (exists w :: Walk(log, a, w, b) && |w| == d && Product(log, w, t) == s)
    && (forall w :: Walk(log, a, w, b) && |w| == d ==> Product(log, w, t) <= s)
  }

  lemma WalkExtends(log: seq<Edge>, a: Uuid, w: seq<nat>, e: nat, t: Edge -> real)
    requires e < |log| && Live(log[e]) && Walk(log, a, w, log[e].source)
    ensures Walk(log, a, w + [e], log[e].target)
    ensures Product(log, w + [e], t) == Product(log, w, t) * t(log[e])
  {
    assert (w + [e])[..|w|] == w;
  }

  // The still-valid edges out of `id`, each as often as it was added, the latest first.
  function ValidFrom(log: seq<Edge>, id: Uuid): (r: seq<Edge>)
    ensures forall e :: e in r <==> e in log && e.source == id && Live(e)
  {
    if log == [] then []
    else
      var n := |log| - 1;
      assert log == log[..n] + [log[n]];
      (if log[n].source == id && Live(log[n]) then [log[n]] else []) + ValidFrom(log[..n], id)
  }

  // ---- Breadth-first search ------------------------------------------------------------

  ghost predicate Expanded(log: seq<Edge>, dist: map<Uuid, nat>, u: Uuid)
    requires u in dist
  {
    forall e :: 0 <= e < |log| && Live(log[e]) && log[e].source == u ==>
      log[e].target in dist && dist[log[e].target] <= dist[u] + 1
  }

  // Once everything nearer than `d` has been expanded, every walk of at most `d` hops has
  // been followed.
  lemma {:induction false} ExpandedCovers(log: seq<Edge>, a: Uuid, dist: map<Uuid, nat>, d: nat, w: seq<nat>, b: Uuid)
    requires a in dist && dist[a] == 0
    requires forall u :: u in dist && dist[u] < d ==> Expanded(log, dist, u)
    requires Walk(log, a, w, b) && |w| <= d
    ensures b in dist && dist[b] <= |w|
    decreases |w|
  {
    if w != [] {
      var e := w[|w| - 1];
      ExpandedCovers(log, a, dist, d, w[..|w| - 1], log[e].source);
      assert Expanded(log, dist, log[e].source);
    }
  }

  // The node first met from depth `d` has distance exactly `d + 1`.
  lemma FirstMeeting(log: seq<Edge>, a: Uuid, dist: map<Uuid, nat>, d: nat, e: nat)
    requires a in dist && dist[a] == 0
    requires forall u :: u in dist && dist[u] < d ==> Expanded(log, dist, u)
    requires e < |log| && Live(log[e]) && log[e].source in dist && log[e].target !in dist
    requires Distance(log, a, log[e].source, d)
    ensures Distance(log, a, log[e].target, d + 1)
  {
    var b := log[e].target;
    var w :| Walk(log, a, w, log[e].source) && |w| == d;
    WalkExtends(log, a, w, e, _ => 1.0);
    assert Walk(log, a, w + [e], b) && |w + [e]| == d + 1;
    forall v | Walk(log, a, v, b) ensures d + 1 <= |v| {
      if |v| <= d {
        ExpandedCovers(log, a, dist, d, v, b);
      }
    }
  }

  lemma DistanceUnique(log: seq<Edge>, a: Uuid, b: Uuid, d: nat, d': nat)
    requires Distance(log, a, b, d) && Distance(log, a, b, d')
    ensures d == d'
  {
    var w :| Walk(log, a, w, b) && |w| == d;
    var w' :| Walk(log, a, w', b) && |w'| == d';
  }

  lemma {:induction false} WithinHasDistance(log: seq<Edge>, a: Uuid, b: Uuid, k: nat) returns (d: nat)
    requires Within(log, a, b, k)
    ensures d <= k && Distance(log, a, b, d)
  {
    if k > 0 && Within(log, a, b, k - 1) {
      d := WithinHasDistance(log, a, b, k - 1);
    } else {
      d := k;
      var w :| Walk(log, a, w, b) && |w| <= k;
      assert forall v :: Walk(log, a, v, b) ==> k <= |v|;
    }
  }

  lemma SelfDistance(log: seq<Edge>, a: Uuid)
    ensures Distance(log, a, a, 0)
  {
    assert Walk(log, a, [], a);
  }

  // Prefixes of a shortest walk are shortest walks.
  lemma ShortestPrefix(log: seq<Edge>, a: Uuid, w: seq<nat>, b: Uuid)
    requires w != [] && Walk(log, a, w, b) && Distance(log, a, b, |w|)
    ensures w[|w| - 1] < |log| && Distance(log, a, log[w[|w| - 1]].source, |w| - 1)
  {
    var e := w[|w| - 1];
    var u := log[e].source;
    assert Walk(log, a, w[..|w| - 1], u) && |w[..|w| - 1]| == |w| - 1;
    forall v | Walk(log, a, v, u) ensures |w| - 1 <= |v| {
      WalkExtends(log, a, v, e, _ => 1.0);
      assert Walk(log, a, v + [e], b);
    }
  }

  // When no node lies at distance `d`, none lies further away.
  lemma {:induction false} NoFartherNodes(log: seq<Edge>, a: Uuid, d: nat, b: Uuid, d': nat)
    requires forall u :: !Distance(log, a, u, d)
    requires d <= d'
    ensures !Distance(log, a, b, d')
    decreases d'
  {
    if Distance(log, a, b, d') && d < d' {
      var w :| Walk(log, a, w, b) && |w| == d';
      ShortestPrefix(log, a, w, b);
      NoFartherNodes(log, a, d, log[w[|w| - 1]].source, d' - 1);
    }
  }

  // ---- Invalidation --------------------------------------------------------------------

  // A still-valid edge closed at time `now`; an edge closed earlier is left alone.
  function Closed(e: Edge, heir: Option<Uuid>, now: int): Edge {
    if Live(e) then e.(invalidAt := Some(now), supersededBy := heir) else e
  }

  // Every still-valid edge from `from` to `to` is closed.
  function Invalidated(log: seq<Edge>, from: Uuid, to: Uuid, heir: Option<Uuid>, now: int): (r: seq<Edge>)
    ensures |r| == |log|
    ensures forall i :: 0 <= i < |log| ==>
              r[i] == if log[i].source == from && log[i].target == to then Closed(log[i], heir, now) else log[i]
  {
    if log == [] then []
    else
      var n := |log| - 1;
      Invalidated(log[..n], from, to, heir, now) +
      [if log[n].source == from && log[n].target == to then Closed(log[n], heir, now) else log[n]]
  }

  ghost predicate Avoids(log: seq<Edge>, w: seq<nat>, from: Uuid, to: Uuid) {
    forall i :: 0 <= i < |w| && w[i] < |log| ==> !(log[w[i]].source == from && log[w[i]].target == to)
  }

  // The walks that survive are exactly those that never step from `from` to `to`.
  lemma {:induction false} SurvivingWalks(log: seq<Edge>, from: Uuid, to: Uuid, heir: Option<Uuid>, now: int,
                                          a: Uuid, w: seq<nat>, b: Uuid)
    ensures Walk(Invalidated(log, from, to, heir, now), a, w, b) <==> Walk(log, a, w, b) && Avoids(log, w, from, to)
    decreases |w|
  {
    var r := Invalidated(log, from, to, heir, now);
    if w != [] {
      var n := |w| - 1;
      var e := w[n];
      if e < |log| {
        SurvivingWalks(log, from, to, heir, now, a, w[..n], log[e].source);
        assert Avoids(log, w, from, to) <==>
               Avoids(log, w[..n], from, to) && !(log[e].source == from && log[e].target == to) by {
          assert forall i :: 0 <= i < n ==> w[..n][i] == w[i];
        }
      }
    }
  }

  // Invalidation only shrinks what can be reached and only lengthens distances.
  lemma InvalidationShrinks(log: seq<Edge>, from: Uuid, to: Uuid, heir: Option<Uuid>, now: int,
                            a: Uuid, b: Uuid, d': nat)
    requires Distance(Invalidated(log, from, to, heir, now), a, b, d')
    ensures exists d: nat :: d <= d' && Distance(log, a, b, d)
  {
    var w :| Walk(Invalidated(log, from, to, heir, now), a, w, b) && |w| == d';
    SurvivingWalks(log, from, to, heir, now, a, w, b);
    assert Within(log, a, b, d');
    var d := WithinHasDistance(log, a, b, d');
  }

  // A node whose every walk steps from `from` to `to` is cut off, and only such a node.
  lemma InvalidationCuts(log: seq<Edge>, from: Uuid, to: Uuid, heir: Option<Uuid>, now: int, a: Uuid, b: Uuid, k: nat)
    ensures Within(Invalidated(log, from, to, heir, now), a, b, k) <==>
            exists w :: Walk(log, a, w, b) && |w| <= k && Avoids(log, w, from, to)
  {
    var r := Invalidated(log, from, to, heir, now);
    forall w ensures Walk(r, a, w, b) <==> Walk(log, a, w, b) && Avoids(log, w, from, to) {
      SurvivingWalks(log, from, to, heir, now, a, w, b);
    }
  }

  // Adding an edge never removes a walk.
  lemma {:induction false} AppendKeepsWalks(log: seq<Edge>, e: Edge, a: Uuid, w: seq<nat>, b: Uuid)
    requires Walk(log, a, w, b)
    ensures Walk(log + [e], a, w, b)
    decreases |w|
  {
    if w != [] {
      AppendKeepsWalks(log, e, a, w[..|w| - 1], log[w[|w| - 1]].source);
    }
  }
}
