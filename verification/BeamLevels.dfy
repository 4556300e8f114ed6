/** Beam search over the temporal graph, level by level: what one level selects, what a
    whole run is, and what every run guarantees. Ties may be broken either way. */
module BeamLevels {
  import opened Common
  import opened TemporalPaths
  import opened BreadthFirst

  type Entry = (Uuid, real)

  // ---- One level -------------------------------------------------------------------------

  // A live edge out of the beam to a node not seen before, scored along the way.
  ghost predicate Offers(seen: set<Uuid>, from: Entry, e: Edge, t: Edge -> real, c: Entry) {
    Live(e) && e.source == from.0 && e.target == c.0 && c.0 !in seen && c.1 == from.1 * t(e)
  }

  ghost predicate Candidate(log: seq<Edge>, seen: set<Uuid>, beam: seq<Entry>, t: Edge -> real, c: Entry) {
    exists i, e :: 0 <= i < |beam| && 0 <= e < |log| && Offers(seen, beam[i], log[e], t, c)
  }

  // The best candidate of each of the at most `width` best nodes, best first.
  ghost predicate Level(log: seq<Edge>, seen: set<Uuid>, beam: seq<Entry>, width: nat, t: Edge -> real, next: seq<Entry>) {
    && |next| <= width
    && (forall i :: 0 <= i < |next| ==> Candidate(log, seen, beam, t, next[i]))
    && (forall i, j :: 0 <= i < j < |next| ==> next[i].0 != next[j].0 && next[j].1 <= next[i].1)
    && (forall c, i :: Candidate(log, seen, beam, t, c) && 0 <= i < |next| && c.0 == next[i].0 ==> c.1 <= next[i].1)
    && (forall c :: Candidate(log, seen, beam, t, c) && !Listed(next, c.0) ==> LeftBehind(next, width, c))
  }

  // A node is passed over only when the level is full of scores at least as good.
  ghost predicate LeftBehind(next: seq<Entry>, width: nat, c: Entry) {
    |next| == width && forall i :: 0 <= i < |next| ==> c.1 <= next[i].1
  }

  // ---- A whole run -----------------------------------------------------------------------

  ghost function Seen(levels: seq<seq<Entry>>): set<Uuid> {
    if levels == [] then {}
    else Seen(levels[..|levels| - 1]) + Ids(levels[|levels| - 1])
  }

  ghost function Ids(level: seq<Entry>): (r: set<Uuid>)
    ensures forall id :: id in r <==> Listed(level, id)
  {
    set i | 0 <= i < |level| :: level[i].0
  }

  ghost predicate Chained(log: seq<Edge>, start: Uuid, width: nat, t: Edge -> real, levels: seq<seq<Entry>>) {
    && levels != [] && levels[0] == [(start, 1.0)]
    && forall n :: 0 < n < |levels| ==> Level(log, Seen(levels[..n]), levels[n - 1], width, t, levels[n])
  }

  // All levels down to `k`, or down to the first level with nothing after it.
  ghost predicate BeamRun(log: seq<Edge>, start: Uuid, width: nat, k: nat, t: Edge -> real, levels: seq<seq<Entry>>) {
    && Chained(log, start, width, t, levels) && |levels| <= k + 1
    && (|levels| == k + 1 || Level(log, Seen(levels), levels[|levels| - 1], width, t, []))
  }

  ghost predicate Found(levels: seq<seq<Entry>>, c: Entry) {
    exists n, i :: 0 < n < |levels| && 0 <= i < |levels[n]| && levels[n][i] == c
  }

  predicate Before(a: Entry, b: Entry) {
    a.1 > b.1 || (a.1 == b.1 && a.0 < b.0)
  }

  // Everything found, once, by descending score and then ascending identifier.
  ghost predicate RankedResults(levels: seq<seq<Entry>>, r: seq<Entry>) {
    && (forall c :: c in r <==> Found(levels, c))
    && (forall i, j :: 0 <= i < j < |r| ==> Before(r[i], r[j]))
  }

  // ---- Every run: real walks, distinct nodes, bounded size -----------------------------------

  ghost predicate ScoredWalk(log: seq<Edge>, start: Uuid, n: nat, t: Edge -> real, c: Entry) {
    exists w :: Walk(log, start, w, c.0) && |w| == n && Product(log, w, t) == c.1
  }

  lemma CandidateWalk(log: seq<Edge>, start: Uuid, n: nat, t: Edge -> real, seen: set<Uuid>, beam: seq<Entry>, c: Entry)
    requires forall i :: 0 <= i < |beam| ==> ScoredWalk(log, start, n, t, beam[i])
    requires Candidate(log, seen, beam, t, c)
    ensures ScoredWalk(log, start, n + 1, t, c)
  {
    var i: nat, e: nat :| i < |beam| && e < |log| && Offers(seen, beam[i], log[e], t, c);
    hide Walk, Product;
    assert ScoredWalk(log, start, n, t, beam[i]);
    var w: seq<nat> :| Walk(log, start, w, beam[i].0) && |w| == n && Product(log, w, t) == beam[i].1;
    WalkExtends(log, start, w, e, t);
    var longer := w + [e];
    assert Walk(log, start, longer, c.0) && |longer| == n + 1 && Product(log, longer, t) == c.1;
  }

  // A score found at level `n` is the product along a real walk of exactly `n` live edges.
  lemma {:induction false} EveryScoreIsAWalk(log: seq<Edge>, start: Uuid, width: nat, t: Edge -> real,
                                             levels: seq<seq<Entry>>, n: nat)
    requires Chained(log, start, width, t, levels) && n < |levels|
    ensures forall i :: 0 <= i < |levels[n]| ==> ScoredWalk(log, start, n, t, levels[n][i])
  {
    if n == 0 {
      assert Walk(log, start, [], start) && Product(log, [], t) == 1.0;
    } else {
      EveryScoreIsAWalk(log, start, width, t, levels, n - 1);
      forall i | 0 <= i < |levels[n]| ensures ScoredWalk(log, start, n, t, levels[n][i]) {
        assert Level(log, Seen(levels[..n]), levels[n - 1], width, t, levels[n]);
        CandidateWalk(log, start, n - 1, t, Seen(levels[..n]), levels[n - 1], levels[n][i]);
      }
    }
  }

  lemma {:induction false} SeenMeans(levels: seq<seq<Entry>>, id: Uuid)
    ensures id in Seen(levels) <==> exists n :: 0 <= n < |levels| && Listed(levels[n], id)
  {
    if levels != [] {
      var m := |levels| - 1;
      SeenMeans(levels[..m], id);
      if id in Seen(levels[..m]) {
        var n :| 0 <= n < m && Listed(levels[..m][n], id);
        assert Listed(levels[n], id);
      }
      if n :| 0 <= n < |levels| && Listed(levels[n], id) {
        assert n < m ==> Listed(levels[..m][n], id);
      }
    }
  }

  // No node is found twice.
  lemma LevelsDisjoint(log: seq<Edge>, start: Uuid, width: nat, t: Edge -> real, levels: seq<seq<Entry>>, m: nat, n: nat, id: Uuid)
    requires Chained(log, start, width, t, levels) && m < n < |levels| && Listed(levels[m], id)
    ensures !Listed(levels[n], id)
  {
    SeenMeans(levels[..n], id);
    assert levels[..n][m] == levels[m];
    forall i | 0 <= i < |levels[n]| ensures levels[n][i].0 != id {
      LevelOffersNew(log, start, width, t, levels, n, i);
    }
  }

  lemma LevelOffersNew(log: seq<Edge>, start: Uuid, width: nat, t: Edge -> real, levels: seq<seq<Entry>>, n: nat, i: nat)
    requires Chained(log, start, width, t, levels) && 0 < n < |levels| && i < |levels[n]|
    ensures levels[n][i].0 !in Seen(levels[..n])
  {
    assert Level(log, Seen(levels[..n]), levels[n - 1], width, t, levels[n]);
    assert Candidate(log, Seen(levels[..n]), levels[n - 1], t, levels[n][i]);
  }

  lemma SameLevelOnce(log: seq<Edge>, start: Uuid, width: nat, t: Edge -> real, levels: seq<seq<Entry>>, n: nat, i: nat, j: nat)
    requires Chained(log, start, width, t, levels) && 0 < n < |levels| && i < j < |levels[n]|
    ensures levels[n][i].0 != levels[n][j].0
  {
    assert Level(log, Seen(levels[..n]), levels[n - 1], width, t, levels[n]);
  }

  lemma FoundOnce(log: seq<Edge>, start: Uuid, width: nat, t: Edge -> real, levels: seq<seq<Entry>>, c: Entry, c': Entry)
    requires Chained(log, start, width, t, levels) && Found(levels, c) && Found(levels, c') && c.0 == c'.0
    ensures c == c' && c.0 != start
  {
    hide Chained, Level;
    var n, i :| 0 < n < |levels| && 0 <= i < |levels[n]| && levels[n][i] == c;
    var n', i' :| 0 < n' < |levels| && 0 <= i' < |levels[n']| && levels[n'][i'] == c';
    assert Listed(levels[n], c.0) && Listed(levels[n'], c.0);
    if n < n' {
      LevelsDisjoint(log, start, width, t, levels, n, n', c.0);
    } else if n' < n {
      LevelsDisjoint(log, start, width, t, levels, n', n, c.0);
    } else if i < i' {
      SameLevelOnce(log, start, width, t, levels, n, i, i');
    } else if i' < i {
      SameLevelOnce(log, start, width, t, levels, n, i', i);
    }
    StartNotFound(log, start, width, t, levels, n);
  }

  lemma StartNotFound(log: seq<Edge>, start: Uuid, width: nat, t: Edge -> real, levels: seq<seq<Entry>>, n: nat)
    requires Chained(log, start, width, t, levels) && 0 < n < |levels|
    ensures !Listed(levels[n], start)
  {
    assert levels[0][0].0 == start;
    assert Listed(levels[0], start);
    LevelsDisjoint(log, start, width, t, levels, 0, n, start);
  }

  ghost function Concat(levels: seq<seq<Entry>>): seq<Entry> {
    if levels == [] then [] else Concat(levels[..|levels| - 1]) + levels[|levels| - 1]
  }

  lemma {:induction false} ConcatBound(levels: seq<seq<Entry>>, width: nat)
    requires forall n :: 0 <= n < |levels| ==> |levels[n]| <= width
    ensures |Concat(levels)| <= |levels| * width
  {
    if levels != [] {
      var m := |levels| - 1;
      ConcatBound(levels[..m], width);
      assert |levels| * width == m * width + width;
    }
  }

  lemma {:induction false} ConcatHolds(levels: seq<seq<Entry>>, n: nat, c: Entry)
    requires n < |levels| && c in levels[n]
    ensures c in Concat(levels)
  {
    var m := |levels| - 1;
    if n < m {
      ConcatHolds(levels[..m], n, c);
    }
  }

  lemma {:induction false} DistinctBound(r: seq<Entry>, pool: seq<Entry>)
    requires forall c :: c in r ==> c in pool
    requires forall i, j :: 0 <= i < j < |r| ==> r[i] != r[j]
    ensures |r| <= |pool|
  {
    if r != [] {
      var m := |r| - 1;
      var last := r[m];
      assert last in r;
      var j :| 0 <= j < |pool| && pool[j] == last;
      var rest := pool[..j] + pool[j + 1..];
      forall c | c in r[..m] ensures c in rest {
        var i :| 0 <= i < m && r[i] == c;
        assert c in r;
        var l :| 0 <= l < |pool| && pool[l] == c;
        assert c != last;
        assert if l < j then rest[l] == c else rest[l - 1] == c;
      }
      DistinctBound(r[..m], rest);
    }
  }

  lemma LevelSize(log: seq<Edge>, start: Uuid, width: nat, t: Edge -> real, levels: seq<seq<Entry>>, n: nat)
    requires Chained(log, start, width, t, levels) && 0 < n < |levels|
    ensures |levels[n]| <= width
  {
    assert Level(log, Seen(levels[..n]), levels[n - 1], width, t, levels[n]);
  }

  // The guarantees at any width.
  lemma AnyWidth(log: seq<Edge>, start: Uuid, width: nat, k: nat, t: Edge -> real, levels: seq<seq<Entry>>, r: seq<Entry>)
    requires BeamRun(log, start, width, k, t, levels) && RankedResults(levels, r)
    ensures forall i :: 0 <= i < |r| ==> r[i].0 != start && exists n: nat :: n <= k && ScoredWalk(log, start, n, t, r[i])
    ensures forall i, j :: 0 <= i < j < |r| ==> r[i].0 != r[j].0
    ensures |r| <= width * k
  {
    hide Chained, Level;
    forall i | 0 <= i < |r| ensures r[i].0 != start && exists n: nat :: n <= k && ScoredWalk(log, start, n, t, r[i]) {
      assert r[i] in r;
      FoundOnce(log, start, width, t, levels, r[i], r[i]);
      var n, j :| 0 < n < |levels| && 0 <= j < |levels[n]| && levels[n][j] == r[i];
      EveryScoreIsAWalk(log, start, width, t, levels, n);
    }
    forall i, j | 0 <= i < j < |r| ensures r[i].0 != r[j].0 {
      assert r[i] in r && r[j] in r && Before(r[i], r[j]);
      if r[i].0 == r[j].0 {
        FoundOnce(log, start, width, t, levels, r[i], r[j]);
      }
    }
    SizeBound(log, start, width, k, t, levels, r);
  }

  lemma FoundBelow(levels: seq<seq<Entry>>, c: Entry)
    requires levels != [] && Found(levels, c)
    ensures c in Concat(levels[1..])
  {
    var n, i :| 0 < n < |levels| && 0 <= i < |levels[n]| && levels[n][i] == c;
    assert levels[1..][n - 1] == levels[n];
    ConcatHolds(levels[1..], n - 1, c);
  }

  lemma SizeBound(log: seq<Edge>, start: Uuid, width: nat, k: nat, t: Edge -> real, levels: seq<seq<Entry>>, r: seq<Entry>)
    requires Chained(log, start, width, t, levels) && |levels| <= k + 1 && RankedResults(levels, r)
    ensures |r| <= width * k
  {
    hide Level, Found, Concat;
    var below := levels[1..];
    forall n | 0 <= n < |below| ensures |below[n]| <= width {
      LevelSize(log, start, width, t, levels, n + 1);
    }
    ConcatBound(below, width);
    forall c | c in r ensures c in Concat(below) {
      FoundBelow(levels, c);
    }
    assert forall i, j :: 0 <= i < j < |r| ==> Before(r[i], r[j]);
    DistinctBound(r, Concat(below));
    MulMono(|below|, k, width);
  }

  lemma MulMono(a: nat, b: nat, c: nat)
    requires a <= b
    ensures a * c <= c * b
  {
  }
}
