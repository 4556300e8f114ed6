/** A beam at least as wide as the graph drops nothing: it finds the same nodes as the
    breadth-first traversal, each with the best score over its shortest walks. */
module WideBeam {
  import opened Common
  import opened TemporalPaths
  import opened BreadthFirst
  import opened BeamLevels

  ghost predicate Roomy(log: seq<Edge>, nodes: seq<Uuid>, width: nat) {
    |nodes| <= width && forall e :: 0 <= e < |log| ==> log[e].target in nodes
  }

  ghost predicate NonNegative(t: Edge -> real) {
    forall e :: t(e) >= 0.0
  }

  // Level `n` holds exactly the nodes at distance `n`, each with its best score.
  ghost predicate Complete(log: seq<Edge>, start: Uuid, t: Edge -> real, level: seq<Entry>, n: nat) {
    && (forall u :: Listed(level, u) <==> Distance(log, start, u, n))
    && (forall i :: 0 <= i < |level| ==> BestOfLength(log, start, level[i].0, t, n, level[i].1))
  }

  ghost predicate CompleteUpTo(log: seq<Edge>, start: Uuid, t: Edge -> real, levels: seq<seq<Entry>>, n: nat)
    requires n <= |levels|
  {
    forall m :: 0 <= m < n ==> Complete(log, start, t, levels[m], m)
  }

  lemma SeenAreNearer(log: seq<Edge>, start: Uuid, t: Edge -> real, levels: seq<seq<Entry>>, n: nat, u: Uuid)
    requires n <= |levels| && CompleteUpTo(log, start, t, levels, n)
    ensures u in Seen(levels[..n]) <==> exists m: nat :: m < n && Distance(log, start, u, m)
  {
    SeenMeans(levels[..n], u);
    if m :| 0 <= m < n && Distance(log, start, u, m) {
      assert Complete(log, start, t, levels[m], m);
      assert Listed(levels[..n][m], u);
    }
    if m :| 0 <= m < n && Listed(levels[..n][m], u) {
      assert Complete(log, start, t, levels[m], m);
    }
  }

  // Distinct identifiers drawn from `nodes`, one of which is left over.
  lemma {:induction false} Pigeonhole(next: seq<Entry>, nodes: seq<Uuid>, extra: Uuid)
    requires forall i, j :: 0 <= i < j < |next| ==> next[i].0 != next[j].0
    requires forall i :: 0 <= i < |next| ==> next[i].0 in nodes
    requires extra in nodes && !Listed(next, extra)
    ensures |next| < |nodes|
  {
    if next != [] {
      var m := |next| - 1;
      var j :| 0 <= j < |nodes| && nodes[j] == next[m].0;
      var rest := nodes[..j] + nodes[j + 1..];
      forall x | x in nodes && x != nodes[j] ensures x in rest {
        var l :| 0 <= l < |nodes| && nodes[l] == x;
        assert if l < j then rest[l] == x else rest[l - 1] == x;
      }
      assert !Listed(next[..m], extra);
      Pigeonhole(next[..m], rest, extra);
    }
  }

  lemma CandidateTarget(log: seq<Edge>, nodes: seq<Uuid>, width: nat, seen: set<Uuid>, beam: seq<Entry>, t: Edge -> real, c: Entry)
    requires Roomy(log, nodes, width) && Candidate(log, seen, beam, t, c)
    ensures c.0 in nodes && c.0 !in seen
  {
    var i, e :| 0 <= i < |beam| && 0 <= e < |log| && Offers(seen, beam[i], log[e], t, c);
  }

  // A roomy level leaves nobody behind.
  lemma NobodyLeftBehind(log: seq<Edge>, nodes: seq<Uuid>, seen: set<Uuid>, beam: seq<Entry>, width: nat, t: Edge -> real,
                         next: seq<Entry>, c: Entry)
    requires Roomy(log, nodes, width) && Level(log, seen, beam, width, t, next) && Candidate(log, seen, beam, t, c)
    ensures Listed(next, c.0)
  {
    if !Listed(next, c.0) {
      assert LeftBehind(next, width, c);
      forall i | 0 <= i < |next| ensures next[i].0 in nodes {
        CandidateTarget(log, nodes, width, seen, beam, t, next[i]);
      }
      CandidateTarget(log, nodes, width, seen, beam, t, c);
      Pigeonhole(next, nodes, c.0);
    }
  }

  // The node before the end of a shortest walk, as the previous level lists it.
  lemma PreviousNode(log: seq<Edge>, start: Uuid, t: Edge -> real, level: seq<Entry>, n: nat, u: Uuid, w: seq<nat>)
    returns (i: nat)
    requires 0 < n && Complete(log, start, t, level, n - 1)
    requires Distance(log, start, u, n) && Walk(log, start, w, u) && |w| == n
    ensures i < |level| && w[n - 1] < |log| && level[i].0 == log[w[n - 1]].source
    ensures Live(log[w[n - 1]]) && log[w[n - 1]].target == u
    ensures Product(log, w[..n - 1], t) <= level[i].1
  {
    ShortestPrefix(log, start, w, u);
    var x := log[w[n - 1]].source;
    assert Listed(level, x);
    i :| 0 <= i < |level| && level[i].0 == x;
    assert BestOfLength(log, start, x, t, n - 1, level[i].1);
    assert Walk(log, start, w[..n - 1], x) && |w[..n - 1]| == n - 1;
  }

  // What a shortest walk offers to the level it ends on.
  lemma ShortestWalkOffers(log: seq<Edge>, start: Uuid, t: Edge -> real, levels: seq<seq<Entry>>, n: nat, u: Uuid, w: seq<nat>)
    returns (c: Entry)
    requires 0 < n <= |levels| && CompleteUpTo(log, start, t, levels, n) && NonNegative(t)
    requires Distance(log, start, u, n) && Walk(log, start, w, u) && |w| == n
    ensures Candidate(log, Seen(levels[..n]), levels[n - 1], t, c) && c.0 == u && Product(log, w, t) <= c.1
  {
    assert Complete(log, start, t, levels[n - 1], n - 1);
    hide CompleteUpTo, Complete, Distance, Product, Times, Walk, Candidate, Seen;
    var i := PreviousNode(log, start, t, levels[n - 1], n, u, w);
    var e := w[n - 1];
    NotSeenBefore(log, start, t, levels, n, u);
    c := Offered(log, Seen(levels[..n]), levels[n - 1], t, i, e);
    ExtendedScore(log, w, t, levels[n - 1][i].1);
  }

  lemma Offered(log: seq<Edge>, seen: set<Uuid>, beam: seq<Entry>, t: Edge -> real, i: nat, e: nat) returns (c: Entry)
    requires i < |beam| && e < |log| && Live(log[e]) && log[e].source == beam[i].0 && log[e].target !in seen
    ensures Candidate(log, seen, beam, t, c) && c.0 == log[e].target && c.1 == Times(beam[i].1, t(log[e]))
  {
    c := (log[e].target, beam[i].1 * t(log[e]));
    assert Offers(seen, beam[i], log[e], t, c);
  }

  lemma NotSeenBefore(log: seq<Edge>, start: Uuid, t: Edge -> real, levels: seq<seq<Entry>>, n: nat, u: Uuid)
    requires n <= |levels| && CompleteUpTo(log, start, t, levels, n) && Distance(log, start, u, n)
    ensures u !in Seen(levels[..n])
  {
    SeenAreNearer(log, start, t, levels, n, u);
    forall m: nat | Distance(log, start, u, m) ensures m == n {
      DistanceUnique(log, start, u, m, n);
    }
  }

  lemma ExtendedScore(log: seq<Edge>, w: seq<nat>, t: Edge -> real, b: real)
    requires w != [] && w[|w| - 1] < |log| && t(log[w[|w| - 1]]) >= 0.0
    requires Product(log, w[..|w| - 1], t) <= b
    ensures Product(log, w, t) <= Times(b, t(log[w[|w| - 1]]))
  {
    var p, f := Product(log, w[..|w| - 1], t), t(log[w[|w| - 1]]);
    hide Times;
    assert Product(log, w, t) == Times(p, f);
    hide Product;
    Monotone(p, b, f);
  }

  lemma Monotone(a: real, b: real, f: real)
    requires a <= b && f >= 0.0
    ensures Times(a, f) <= Times(b, f)
  {
  }

  // A candidate's node lies exactly one hop further out.
  lemma CandidateWithin(log: seq<Edge>, start: Uuid, t: Edge -> real, levels: seq<seq<Entry>>, n: nat, c: Entry)
    requires 0 < n <= |levels| && CompleteUpTo(log, start, t, levels, n)
    requires Candidate(log, Seen(levels[..n]), levels[n - 1], t, c)
    ensures c.0 !in Seen(levels[..n]) && exists w :: Walk(log, start, w, c.0) && |w| == n
  {
    hide Seen;
    var i: nat, e: nat :| i < |levels[n - 1]| && e < |log| && Offers(Seen(levels[..n]), levels[n - 1][i], log[e], t, c);
    var x := log[e].source;
    assert Complete(log, start, t, levels[n - 1], n - 1);
    assert Listed(levels[n - 1], x);
    var w: seq<nat> :| Walk(log, start, w, x) && |w| == n - 1;
    hide Walk;
    WalkExtends(log, start, w, e, t);
    assert |w + [e]| == n;
  }

  lemma CandidateDistance(log: seq<Edge>, start: Uuid, t: Edge -> real, levels: seq<seq<Entry>>, n: nat, c: Entry)
    requires 0 < n <= |levels| && CompleteUpTo(log, start, t, levels, n)
    requires Candidate(log, Seen(levels[..n]), levels[n - 1], t, c)
    ensures Distance(log, start, c.0, n)
  {
    hide Walk, Candidate, CompleteUpTo, Seen;
    CandidateWithin(log, start, t, levels, n, c);
    forall v | Walk(log, start, v, c.0) ensures n <= |v| {
      if |v| < n {
        assert Within(log, start, c.0, |v|);
        var m := WithinHasDistance(log, start, c.0, |v|);
        SeenAreNearer(log, start, t, levels, n, c.0);
      }
    }
  }

  lemma NextComplete(log: seq<Edge>, start: Uuid, nodes: seq<Uuid>, width: nat, t: Edge -> real,
                     levels: seq<seq<Entry>>, n: nat, next: seq<Entry>)
    requires Roomy(log, nodes, width) && NonNegative(t)
    requires 0 < n <= |levels| && CompleteUpTo(log, start, t, levels, n)
    requires Level(log, Seen(levels[..n]), levels[n - 1], width, t, next)
    requires forall i :: 0 <= i < |next| ==> ScoredWalk(log, start, n, t, next[i])
    ensures Complete(log, start, t, next, n)
  {
    hide Complete, CompleteUpTo, Roomy, NonNegative;
    var seen, beam := Seen(levels[..n]), levels[n - 1];
    forall u ensures Listed(next, u) <==> Distance(log, start, u, n) {
      if Distance(log, start, u, n) {
        var w: seq<nat> :| Walk(log, start, w, u) && |w| == n;
        var c := ShortestWalkOffers(log, start, t, levels, n, u, w);
        NobodyLeftBehind(log, nodes, seen, beam, width, t, next, c);
      }
      if i :| 0 <= i < |next| && next[i].0 == u {
        CandidateDistance(log, start, t, levels, n, next[i]);
      }
    }
    forall i | 0 <= i < |next| ensures BestOfLength(log, start, next[i].0, t, n, next[i].1) {
      NextBest(log, start, width, t, levels, n, next, i);
    }
    CompleteIntro(log, start, t, next, n);
  }

  lemma NextBest(log: seq<Edge>, start: Uuid, width: nat, t: Edge -> real, levels: seq<seq<Entry>>, n: nat,
                 next: seq<Entry>, i: nat)
    requires NonNegative(t) && 0 < n <= |levels| && CompleteUpTo(log, start, t, levels, n)
    requires Level(log, Seen(levels[..n]), levels[n - 1], width, t, next) && i < |next|
    requires ScoredWalk(log, start, n, t, next[i])
    ensures BestOfLength(log, start, next[i].0, t, n, next[i].1)
  {
    var u := next[i].0;
    CandidateDistance(log, start, t, levels, n, next[i]);
    forall w | Walk(log, start, w, u) && |w| == n ensures Product(log, w, t) <= next[i].1 {
      var c := ShortestWalkOffers(log, start, t, levels, n, u, w);
    }
  }

  lemma CompleteIntro(log: seq<Edge>, start: Uuid, t: Edge -> real, level: seq<Entry>, n: nat)
    requires forall u :: Listed(level, u) <==> Distance(log, start, u, n)
    requires forall i :: 0 <= i < |level| ==> BestOfLength(log, start, level[i].0, t, n, level[i].1)
    ensures Complete(log, start, t, level, n)
  {
  }

  lemma StartComplete(log: seq<Edge>, start: Uuid, t: Edge -> real)
    ensures Complete(log, start, t, [(start, 1.0)], 0)
  {
    var level: seq<Entry> := [(start, 1.0)];
    SelfDistance(log, start);
    assert Walk(log, start, [], start) && Product(log, [], t) == 1.0;
    forall u ensures Listed(level, u) <==> Distance(log, start, u, 0) {
      assert level[0].0 == start;
      if Distance(log, start, u, 0) {
        var w: seq<nat> :| Walk(log, start, w, u) && |w| == 0;
      }
    }
  }

  // Every level of a roomy run is complete.
  lemma {:induction false} WideLevels(log: seq<Edge>, start: Uuid, nodes: seq<Uuid>, width: nat, t: Edge -> real,
                                      levels: seq<seq<Entry>>, n: nat)
    requires Roomy(log, nodes, width) && NonNegative(t) && Chained(log, start, width, t, levels) && n <= |levels|
    ensures CompleteUpTo(log, start, t, levels, n)
  {
    if n == 1 {
      StartComplete(log, start, t);
    } else if n > 1 {
      WideLevels(log, start, nodes, width, t, levels, n - 1);
      EveryScoreIsAWalk(log, start, width, t, levels, n - 1);
      assert Level(log, Seen(levels[..n - 1]), levels[n - 2], width, t, levels[n - 1]);
      NextComplete(log, start, nodes, width, t, levels, n - 1, levels[n - 1]);
    }
  }

  // A run that stops before depth `k` has no node left to reach.
  lemma StopsWhenExhausted(log: seq<Edge>, start: Uuid, nodes: seq<Uuid>, width: nat, k: nat, t: Edge -> real,
                           levels: seq<seq<Entry>>, u: Uuid, d: nat)
    requires Roomy(log, nodes, width) && NonNegative(t) && BeamRun(log, start, width, k, t, levels)
    requires |levels| <= d <= k
    ensures !Distance(log, start, u, d)
  {
    WideLevels(log, start, nodes, width, t, levels, |levels|);
    assert levels[..|levels|] == levels;
    NextComplete(log, start, nodes, width, t, levels, |levels|, []);
    forall v ensures !Distance(log, start, v, |levels|) {
      assert !Listed([], v);
    }
    NoFartherNodes(log, start, |levels|, u, d);
  }

  lemma FoundIsComplete(log: seq<Edge>, start: Uuid, nodes: seq<Uuid>, width: nat, k: nat, t: Edge -> real,
                        levels: seq<seq<Entry>>, c: Entry)
    requires Roomy(log, nodes, width) && NonNegative(t) && BeamRun(log, start, width, k, t, levels) && Found(levels, c)
    ensures Within(log, start, c.0, k) && BestShortest(log, start, c.0, t, c.1)
  {
    var n, i :| 0 < n < |levels| && 0 <= i < |levels[n]| && levels[n][i] == c;
    WideLevels(log, start, nodes, width, t, levels, |levels|);
    assert Complete(log, start, t, levels[n], n);
    assert Listed(levels[n], c.0);
    var w: seq<nat> :| Walk(log, start, w, c.0) && |w| == n;
    assert |w| <= k;
  }

  lemma ReachedIsFound(log: seq<Edge>, start: Uuid, nodes: seq<Uuid>, width: nat, k: nat, t: Edge -> real,
                       levels: seq<seq<Entry>>, u: Uuid)
    requires Roomy(log, nodes, width) && NonNegative(t) && BeamRun(log, start, width, k, t, levels)
    requires u != start && Within(log, start, u, k)
    ensures exists c :: Found(levels, c) && c.0 == u
  {
    var d := WithinHasDistance(log, start, u, k);
    if |levels| <= d {
      StopsWhenExhausted(log, start, nodes, width, k, t, levels, u, d);
    } else {
      WideLevels(log, start, nodes, width, t, levels, |levels|);
      assert Complete(log, start, t, levels[d], d);
      var i :| 0 <= i < |levels[d]| && levels[d][i].0 == u;
      assert Found(levels, levels[d][i]);
    }
  }

  // The Bellman-style theorem: same node set as the traversal, best scores over shortest walks.
  lemma WideBeamIsExact(log: seq<Edge>, start: Uuid, nodes: seq<Uuid>, width: nat, k: nat, t: Edge -> real,
                        levels: seq<seq<Entry>>, r: seq<Entry>)
    requires Roomy(log, nodes, width) && NonNegative(t)
    requires BeamRun(log, start, width, k, t, levels) && RankedResults(levels, r)
    ensures forall u :: Listed(r, u) <==> u != start && Within(log, start, u, k)
    ensures forall i :: 0 <= i < |r| ==> BestShortest(log, start, r[i].0, t, r[i].1)
  {
    hide BeamRun, Roomy, Level;
    forall i | 0 <= i < |r|
      ensures BestShortest(log, start, r[i].0, t, r[i].1) && r[i].0 != start && Within(log, start, r[i].0, k)
    {
      assert r[i] in r;
      FoundIsComplete(log, start, nodes, width, k, t, levels, r[i]);
      ChainedRun(log, start, width, k, t, levels);
      FoundOnce(log, start, width, t, levels, r[i], r[i]);
    }
    forall u | u != start && Within(log, start, u, k) ensures Listed(r, u) {
      ReachedIsFound(log, start, nodes, width, k, t, levels, u);
      var c :| Found(levels, c) && c.0 == u;
      assert c in r;
    }
  }

  lemma ChainedRun(log: seq<Edge>, start: Uuid, width: nat, k: nat, t: Edge -> real, levels: seq<seq<Entry>>)
    requires BeamRun(log, start, width, k, t, levels)
    ensures Chained(log, start, width, t, levels)
  {
  }

  // Beam search and traversal agree on what can be reached.
  lemma WideBeamAgreesWithTraversal(log: seq<Edge>, start: Uuid, nodes: seq<Uuid>, width: nat, k: nat, t: Edge -> real,
                                    levels: seq<seq<Entry>>, beam: seq<Entry>, traversal: seq<Entry>, u: Uuid)
    requires Roomy(log, nodes, width) && NonNegative(t)
    requires BeamRun(log, start, width, k, t, levels) && RankedResults(levels, beam)
    requires IsTraversal(log, start, k, traversal)
    ensures Listed(beam, u) <==> Listed(traversal, u)
  {
    hide BeamRun, RankedResults;
    WideBeamIsExact(log, start, nodes, width, k, t, levels, beam);
  }
}
