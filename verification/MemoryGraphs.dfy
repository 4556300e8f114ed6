/** The in-memory temporal graph: a multigraph with an id-to-index map and a side table of
    edge metadata, its mutators, and breadth-first traversal. */
module MemoryGraphs {
  import opened Common
  import opened TemporalPaths
  import opened BreadthFirst
  import opened BeamLevels
  import opened BeamHeap
  import opened EdgeScores
  import opened WideBeam

  lemma {:induction false} ProductIsPositive(log: seq<Edge>, w: seq<nat>, t: Edge -> real)
    requires forall e :: t(e) > 0.0
    ensures Product(log, w, t) > 0.0
  {
    if w != [] {
      ProductIsPositive(log, w[..|w| - 1], t);
    }
  }

  // And so is the score of every walk.
  lemma ScoresArePositive(log: seq<Edge>, start: Uuid, s: Scoring, width: nat, k: nat, levels: seq<seq<Entry>>, r: seq<Entry>)
    requires PositiveExp(s) && BeamRun(log, start, width, k, s.OfEdge(), levels) && RankedResults(levels, r)
    ensures NonNegative(s.OfEdge()) && forall i :: 0 <= i < |r| ==> r[i].1 > 0.0
  {
    hide BeamRun, RankedResults;
    TransitionsArePositive(s);
    AnyWidth(log, start, width, k, s.OfEdge(), levels, r);
    forall i | 0 <= i < |r| ensures r[i].1 > 0.0 {
      var n: nat :| n <= k && ScoredWalk(log, start, n, s.OfEdge(), r[i]);
      var w :| Walk(log, start, w, r[i].0) && |w| == n && Product(log, w, s.OfEdge()) == r[i].1;
      ProductIsPositive(log, w, s.OfEdge());
    }
  }

  class MemoryGraph {
    var nodes: seq<Uuid>
    var arcs: seq<Arc>
    var nodeMap: map<Uuid, nat>
    var edgeMeta: map<nat, Edge>

    ghost predicate Valid()
      reads this
    {
      Consistent(nodes, arcs, nodeMap, edgeMeta)
    }

    // The id map inverts the node list, and every arc has metadata that agrees with it.
    static ghost predicate Consistent(nodes: seq<Uuid>, arcs: seq<Arc>, nodeMap: map<Uuid, nat>, edgeMeta: map<nat, Edge>) {
      && (forall id :: id in nodeMap ==> nodeMap[id] < |nodes| && nodes[nodeMap[id]] == id)
      && (forall i :: 0 <= i < |nodes| ==> nodes[i] in nodeMap && nodeMap[nodes[i]] == i)
      && (forall e :: 0 <= e < |arcs| ==> e in edgeMeta && ArcMatches(nodes, arcs[e], edgeMeta[e]))
      && (forall e :: e in edgeMeta ==> e < |arcs|)
    }

    static lemma ConsistentAppend(nodes: seq<Uuid>, arcs: seq<Arc>, nodeMap: map<Uuid, nat>, edgeMeta: map<nat, Edge>,
                                  arc: Arc, e: Edge)
      requires Consistent(nodes, arcs, nodeMap, edgeMeta) && ArcMatches(nodes, arc, e)
      ensures Consistent(nodes, arcs + [arc], nodeMap, edgeMeta[|arcs| := e])
      ensures |arcs| !in edgeMeta
    {
    }

    // The edge metadata in insertion order.
    ghost function Log(): (log: seq<Edge>)
      requires Valid()
      reads this
      ensures |log| == |arcs| && forall e :: 0 <= e < |arcs| ==> log[e] == edgeMeta[e]
    {
      seq(|arcs|, e requires 0 <= e < |arcs| && e in edgeMeta reads this => edgeMeta[e])
    }

    constructor ()
      ensures Valid() && nodes == [] && Log() == []
    {
      nodes, arcs, nodeMap, edgeMeta := [], [], map[], map[];
    }

    method AddNode(id: Uuid)
      requires Valid()
      modifies this
      ensures Valid() && Log() == old(Log()) && arcs == old(arcs) && edgeMeta == old(edgeMeta)
      ensures nodes == if id in old(nodes) then old(nodes) else old(nodes) + [id]
      ensures nodeMap.Keys == old(nodeMap).Keys + {id}
    {
      if id !in nodeMap {
        var idx := |nodes|;
        nodes := nodes + [id];
        nodeMap := nodeMap[id := idx];
      } else {
        assert nodes[nodeMap[id]] == id;
      }
    }

    method AddEdgeWithMeta(edge: Edge)
      requires Valid()
      modifies this
      ensures Valid() && Log() == old(Log()) + [edge]
      ensures forall id :: id in nodes <==> id in old(nodes) || id == edge.source || id == edge.target
    {
      hide Consistent;
      AddNode(edge.source);
      AddNode(edge.target);
      KnownNode(edge.source);
      KnownNode(edge.target);
      var fromIdx := nodeMap[edge.source];
      var toIdx := nodeMap[edge.target];
      var edgeIdx := |arcs|;
      ConsistentAppend(nodes, arcs, nodeMap, edgeMeta, Arc(fromIdx, toIdx, edge.weight), edge);
      arcs := arcs + [Arc(fromIdx, toIdx, edge.weight)];
      edgeMeta := edgeMeta[edgeIdx := edge];
    }

    // `id` and `now` stand for the fresh identifier and the clock read by the caller.
    method AddEdge(from: Uuid, to: Uuid, weight: real, id: Uuid, now: int)
      requires Valid()
      modifies this
      ensures Valid()
      ensures Log() == old(Log()) + [Edge(id, from, to, "", weight, now, None, None, None, Entity)]
      ensures forall n :: n in nodes <==> n in old(nodes) || n == from || n == to
    {
      hide Consistent;
      AddNode(from);
      AddNode(to);
      KnownNode(from);
      KnownNode(to);
      var fromIdx := nodeMap[from];
      var toIdx := nodeMap[to];
      var edgeIdx := |arcs|;
      var edge := Edge(id, from, to, "", 1.0, now, None, None, None, Entity);
      edge := edge.(weight := weight);
      ConsistentAppend(nodes, arcs, nodeMap, edgeMeta, Arc(fromIdx, toIdx, weight), edge);
      arcs := arcs + [Arc(fromIdx, toIdx, weight)];
      edgeMeta := edgeMeta[edgeIdx := edge];
    }

    // Indices of the arcs selected by `keep`, most recently added first.
    static function Select(arcs: seq<Arc>, keep: Arc -> bool): (r: seq<nat>)
      ensures forall e :: e in r <==> 0 <= e < |arcs| && keep(arcs[e])
      ensures forall i :: 0 <= i < |r| ==> 0 <= r[i] < |arcs| && keep(arcs[r[i]])
      ensures forall i, j :: 0 <= i < j < |r| ==> r[j] < r[i]
    {
      if arcs == [] then []
      else
        var n := |arcs| - 1;
        var rest := Select(arcs[..n], keep);
        assert forall e :: 0 <= e < n ==> arcs[..n][e] == arcs[e];
        assert forall j :: 0 <= j < |rest| ==> rest[j] in rest;
        if keep(arcs[n]) then [n] + rest else rest
    }

    // Between known nodes the index test and the identifier test select the same arcs.
    lemma SameArcs(from: Uuid, to: Uuid, e: nat)
      requires Valid() && e < |arcs|
      ensures edgeMeta[e].source in nodeMap && edgeMeta[e].target in nodeMap
      ensures from in nodeMap && to in nodeMap ==>
              ((arcs[e].from == nodeMap[from] && arcs[e].to == nodeMap[to]) <==>
               (edgeMeta[e].source == from && edgeMeta[e].target == to))
    {
      assert ArcMatches(nodes, arcs[e], edgeMeta[e]);
    }

    method InvalidateEdge(from: Uuid, to: Uuid, supersededBy: Option<Uuid>, now: int)
      requires Valid()
      modifies this
      ensures Valid() && nodes == old(nodes)
      ensures Log() == Invalidated(old(Log()), from, to, supersededBy, now)
    {
      ghost var log := Log();
      if from !in nodeMap || to !in nodeMap {
        NothingToClose(from, to, supersededBy, now);
        return;
      }
      var fromIdx := nodeMap[from];
      var toIdx := nodeMap[to];
      var edgeIndices := Select(arcs, (a: Arc) => a.from == fromIdx && a.to == toIdx);
      var meta := CloseEdges(edgeIndices, supersededBy, now, edgeMeta);
      ClosedLog(from, to, supersededBy, now, edgeIndices, meta);
      hide Invalidated, Consistent;
      edgeMeta := meta;
    }

    // Closing the selected edges in the table is the invalidation of the log.
    lemma ClosedLog(from: Uuid, to: Uuid, heir: Option<Uuid>, now: int, edges: seq<nat>, meta: map<nat, Edge>)
      requires Valid() && from in nodeMap && to in nodeMap && meta.Keys == edgeMeta.Keys
      requires forall e :: e in edges <==> 0 <= e < |arcs| && arcs[e].from == nodeMap[from] && arcs[e].to == nodeMap[to]
      requires forall e :: e in meta ==> meta[e] == if e in edges then Closed(edgeMeta[e], heir, now) else edgeMeta[e]
      ensures Consistent(nodes, arcs, nodeMap, meta)
      ensures forall e :: 0 <= e < |arcs| ==> e in meta && meta[e] == Invalidated(Log(), from, to, heir, now)[e]
    {
      hide Invalidated, Closed;
      forall e | 0 <= e < |arcs|
        ensures e in meta && meta[e] == Invalidated(Log(), from, to, heir, now)[e]
        ensures ArcMatches(nodes, arcs[e], meta[e])
      {
        SameArcs(from, to, e);
        ClosedKeepsArc(arcs[e], edgeMeta[e], heir, now);
      }
    }

    lemma ClosedKeepsArc(arc: Arc, e: Edge, heir: Option<Uuid>, now: int)
      requires ArcMatches(nodes, arc, e)
      ensures ArcMatches(nodes, arc, Closed(e, heir, now))
    {
    }

    lemma NothingToClose(from: Uuid, to: Uuid, supersededBy: Option<Uuid>, now: int)
      requires Valid() && (from !in nodeMap || to !in nodeMap)
      ensures Invalidated(Log(), from, to, supersededBy, now) == Log()
    {
      forall e | 0 <= e < |arcs| { SameArcs(from, to, e); }
    }

    static method CloseEdges(edgeIndices: seq<nat>, supersededBy: Option<Uuid>, now: int, meta0: map<nat, Edge>)
      returns (meta: map<nat, Edge>)
      ensures meta.Keys == meta0.Keys
      ensures forall e :: e in meta ==>
        meta[e] == if e in edgeIndices then Closed(meta0[e], supersededBy, now) else meta0[e]
    {
      meta := meta0;
      for i := 0 to |edgeIndices|
        invariant meta.Keys == meta0.Keys
        invariant forall e :: e in meta ==>
          meta[e] == if e in edgeIndices[..i] then Closed(meta0[e], supersededBy, now) else meta0[e]
      {
        var edgeIdx := edgeIndices[i];
        if edgeIdx in meta && meta[edgeIdx].invalidAt.None? {
          meta := meta[edgeIdx := meta[edgeIdx].(invalidAt := Some(now), supersededBy := supersededBy)];
        }
      }
    }

    // The still-valid edges out of `entityId`, parallel ones included, most recent first.
    function GetValidEdges(entityId: Uuid): (r: seq<Edge>)
      requires Valid()
      reads this
      ensures r == ValidFrom(Log(), entityId)
    {
      assert forall e :: 0 <= e < |arcs| ==> ArcMatches(nodes, arcs[e], edgeMeta[e]);
      if entityId !in nodeMap then
        UnknownSource(entityId);
        NothingValid(Log(), entityId);
        []
      else
        var node := nodeMap[entityId];
        NewestValid(arcs, Log(), edgeMeta, (a: Arc) => a.from == node, entityId);
        LiveMeta(Select(arcs, (a: Arc) => a.from == node), edgeMeta)
    }

    static function LiveMeta(edges: seq<nat>, meta: map<nat, Edge>): seq<Edge> {
      if edges == [] then []
      else
        var rest := LiveMeta(edges[1..], meta);
        if edges[0] in meta && meta[edges[0]].invalidAt.None? then [meta[edges[0]]] + rest else rest
    }

    static lemma NothingValid(log: seq<Edge>, id: Uuid)
      requires forall e :: 0 <= e < |log| ==> log[e].source != id
      ensures ValidFrom(log, id) == []
    {
      if log != [] {
        NothingValid(log[..|log| - 1], id);
      }
    }

    // Looking up the selected arcs in the metadata table lists the valid edges of the log.
    static lemma NewestValid(arcs: seq<Arc>, log: seq<Edge>, meta: map<nat, Edge>, keep: Arc -> bool, id: Uuid)
      requires |arcs| == |log| && forall e :: 0 <= e < |arcs| ==> (keep(arcs[e]) <==> log[e].source == id)
      requires forall e :: 0 <= e < |arcs| ==> e in meta && meta[e] == log[e]
      ensures LiveMeta(Select(arcs, keep), meta) == ValidFrom(log, id)
    {
      if arcs != [] {
        hide Select, LiveMeta, ValidFrom;
        var n := |arcs| - 1;
        NewestValid(arcs[..n], log[..n], meta, keep, id);
        SelectLast(arcs, keep);
        LiveFirst(n, Select(arcs[..n], keep), meta);
        ValidLast(log, id);
      }
    }

    static lemma SelectLast(arcs: seq<Arc>, keep: Arc -> bool)
      requires arcs != []
      ensures var n := |arcs| - 1;
        Select(arcs, keep) == if keep(arcs[n]) then [n] + Select(arcs[..n], keep) else Select(arcs[..n], keep)
    {
    }

    static lemma LiveFirst(e: nat, rest: seq<nat>, meta: map<nat, Edge>)
      requires e in meta
      ensures LiveMeta([e] + rest, meta) == (if Live(meta[e]) then [meta[e]] else []) + LiveMeta(rest, meta)
    {
      assert ([e] + rest)[1..] == rest;
    }

    static lemma ValidLast(log: seq<Edge>, id: Uuid)
      requires log != []
      ensures var n := |log| - 1;
        ValidFrom(log, id) == (if log[n].source == id && Live(log[n]) then [log[n]] else []) + ValidFrom(log[..n], id)
    {
    }

    // The inner loop of the traversal: every outgoing edge of `current`, skipping closed ones.
    method VisitNeighbors(ghost start: nat, ghost k: nat, current: nat, depth: nat, visited0: map<nat, nat>,
                          queue0: seq<Visit>, results0: seq<(Uuid, real)>, ghost s0: Search)
      returns (visited: map<nat, nat>, queue: seq<Visit>, results: seq<(Uuid, real)>, ghost s: Search, ghost done: seq<nat>)
      requires Valid() && depth < k && s0.d == depth
      requires Progress(Net(nodes, arcs, Log()), start, k, visited0, queue0, results0, s0, Expanding(current, []))
      ensures Progress(Net(nodes, arcs, Log()), start, k, visited, queue, results, s, Expanding(current, done))
      ensures forall e :: 0 <= e < |arcs| && arcs[e].from == current ==> e in done
      ensures |s.unmet| + |queue| == |s0.unmet| + |queue0| && s.d == depth
    {
      hide Consistent, Indexed, Progress, Mirrors, Searching, Reported, Unmet, Active;
      ghost var g := Net(nodes, arcs, Log());
      IsIndexed();
      visited, queue, results, s, done := visited0, queue0, results0, s0, [];
      var edges := Select(arcs, (a: Arc) => a.from == current);
      for i := 0 to |edges|
        invariant Progress(g, start, k, visited, queue, results, s, Expanding(current, done))
        invariant done == edges[..i] && s.d == depth
        invariant |s.unmet| + |queue| == |s0.unmet| + |queue0|
      {
        var e := edges[i];
        KnownArc(e);
        var neighbor := arcs[e].to;
        if e in edgeMeta && edgeMeta[e].invalidAt.Some? {
          Pass(g, start, k, visited, queue, results, s, current, done, e);
        } else if neighbor !in visited {
          Meet(g, start, k, visited, queue, results, s, current, done, e);
          var nextDepth := depth + 1;
          visited := visited[neighbor := nextDepth];
          queue := queue + [Visit(neighbor, nextDepth)];
          var score := 1.0 / (1.0 + nextDepth as real);
          var id := nodes[neighbor];
          results := results + [(id, score)];
          s := Met(g, s, neighbor);
        } else {
          Pass(g, start, k, visited, queue, results, s, current, done, e);
        }
        done := done + [e];
      }
    }

    method Traverse(start: Uuid, maxDepth: nat) returns (results: seq<(Uuid, real)>)
      requires Valid()
      ensures IsTraversal(Log(), start, maxDepth, results)
    {
      hide Consistent, Indexed, Progress, Mirrors, Searching, Reported, Unmet, Active, IsTraversal;
      results := [];
      ghost var g := Net(nodes, arcs, Log());
      if start !in nodeMap {
        UnknownSource(start);
        UnknownStart(g.log, start, maxDepth);
        return;
      }
      IsIndexed();
      KnownNode(start);
      var startIdx := nodeMap[start];
      var visited: map<nat, nat> := map[startIdx := 0];
      var queue := [Visit(startIdx, 0)];
      ghost var s := Initial(g, startIdx);
      Begin(g, startIdx, maxDepth);
      while queue != []
        invariant Progress(g, startIdx, maxDepth, visited, queue, results, s, Idle)
        decreases |s.unmet| + |queue|
      {
        Pop(g, startIdx, maxDepth, visited, queue, results, s);
        var Visit(current, depth) := queue[0];
        queue := queue[1..];
        s := Popped(s);
        ghost var done: seq<nat> := [];
        if depth < maxDepth {
          ghost var budget := |s.unmet| + |queue|;
          visited, queue, results, s, done := VisitNeighbors(startIdx, maxDepth, current, depth, visited, queue, results, s);
          assert |s.unmet| + |queue| == budget;
        }
        Close(g, startIdx, maxDepth, visited, queue, results, s, current, done);
      }
      Done(g, startIdx, maxDepth, visited, queue, results, s);
    }

    // The candidates of one level: every live arc out of the beam to an unvisited node.
    method Gather(beam: seq<Scored>, visited: set<nat>, s: Scoring, ghost seen: set<Uuid>) returns (heap: seq<Scored>)
      requires Valid() && InRange(nodes, beam)
      requires forall v :: 0 <= v < |nodes| ==> (v in visited <==> nodes[v] in seen)
      ensures Gathered(nodes, Log(), seen, Entries(nodes, beam), s.OfEdge(), heap)
      ensures forall h :: h in heap ==> h.node !in visited
    {
      hide Consistent, Indexed, Collected, Gathered, Scoring.Transition, Scoring.OfEdge;
      heap := [];
      ghost var g := Net(nodes, arcs, Log());
      ghost var level := Entries(nodes, beam);
      IsIndexed();
      CollectNone(g, visited, seen, level, s.OfEdge());
      for i := 0 to |beam|
        invariant Collected(g, visited, seen, level, s.OfEdge(), heap, i, [])
      {
        var current := beam[i].node;
        var parentScore := beam[i].score;
        var edges := Select(arcs, (a: Arc) => a.from == current);
        for j := 0 to |edges|
          invariant Collected(g, visited, seen, level, s.OfEdge(), heap, i, edges[..j])
        {
          var e := edges[j];
          KnownArc(e);
          var neighbor := arcs[e].to;
          assert edges[..j + 1] == edges[..j] + [e];
          if neighbor in visited || (e in edgeMeta && edgeMeta[e].invalidAt.Some?) {
            CollectSkip(g, visited, seen, level, s.OfEdge(), heap, i, edges[..j], e);
          } else {
            var meta := if e in edgeMeta then Some(edgeMeta[e]) else None;
            KnownScore(e, s);
            var accumulated := parentScore * s.Transition(meta, arcs[e].weight);
            assert accumulated == level[i].1 * s.OfEdge()(g.log[e]);
            CollectPush(g, visited, seen, level, s.OfEdge(), heap, i, edges[..j], e, Scored(accumulated, neighbor));
            heap := heap + [Scored(accumulated, neighbor)];
          }
        }
        assert edges[..|edges|] == edges;
        CollectNext(g, visited, seen, level, s.OfEdge(), heap, i, current, edges);
      }
      CollectDone(g, visited, seen, level, s.OfEdge(), heap);
    }

    // `levels` records what each depth selected.
    method BeamSearch(start: Uuid, s: Scoring, beamWidth: nat, maxDepth: nat)
      returns (results: seq<Entry>, ghost levels: seq<seq<Entry>>)
      requires Valid()
      ensures BeamRun(Log(), start, beamWidth, maxDepth, s.OfEdge(), levels) && RankedResults(levels, results)
      ensures |results| <= beamWidth * maxDepth && forall i, j :: 0 <= i < j < |results| ==> results[i].0 != results[j].0
      ensures PositiveExp(s) ==> NonNegative(s.OfEdge()) && forall i :: 0 <= i < |results| ==> results[i].1 > 0.0
      ensures |nodes| <= beamWidth && NonNegative(s.OfEdge()) ==>
                && (forall u :: Listed(results, u) <==> u != start && Within(Log(), start, u, maxDepth))
                && (forall i :: 0 <= i < |results| ==> BestShortest(Log(), start, results[i].0, s.OfEdge(), results[i].1))
    {
      hide Consistent, Indexed, Tracks, Level, Selection, Recorded, Gathered, BeamRun, Chained, RankedResults;
      levels := [[(start, 1.0)]];
      if start !in nodeMap {
        UnknownSource(start);
        UnknownBeam(Log(), start, beamWidth, maxDepth, s.OfEdge());
        results := [];
        BeamMeans(start, s, beamWidth, maxDepth, levels, results);
        return;
      }
      ghost var log, t := Log(), s.OfEdge();
      DistinctNodes();
      KnownNode(start);
      var startIdx := nodeMap[start];
      var visited := {startIdx};
      var scores: map<nat, real> := map[];
      var beam := [Scored(1.0, startIdx)];
      TrackStart(nodes, startIdx);
      ChainStart(log, start, beamWidth, t);
      for depth := 0 to maxDepth
        invariant Tracks(nodes, start, visited, scores, beam, levels)
        invariant Chained(log, start, beamWidth, t, levels) && |levels| == depth + 1
      {
        TrackedFacts(nodes, start, visited, scores, beam, levels);
        var heap := Gather(beam, visited, s, Seen(levels));
        var nextBeam, visited' := SelectBeam(heap, visited, beamWidth);
        SelectionIsLevel(nodes, log, Seen(levels), Entries(nodes, beam), t, heap, beamWidth, nextBeam);
        if nextBeam == [] {
          assert Entries(nodes, nextBeam) == [];
          break;
        }
        SelectedAreNew(heap, visited, beamWidth, nextBeam);
        var scores' := Record(scores, nextBeam);
        TrackNext(nodes, start, visited, scores, beam, levels, nextBeam, visited', scores');
        ChainNext(log, start, beamWidth, t, levels, Entries(nodes, nextBeam));
        visited, scores := visited', scores';
        levels := levels + [Entries(nodes, nextBeam)];
        beam := nextBeam;
      }
      TrackedFacts(nodes, start, visited, scores, beam, levels);
      RunDone(log, start, beamWidth, maxDepth, t, levels);
      results := RankTable(nodes, scores);
      RankDone(nodes, start, visited, scores, beam, levels, results);
      BeamMeans(start, s, beamWidth, maxDepth, levels, results);
    }

    lemma BeamMeans(start: Uuid, s: Scoring, beamWidth: nat, maxDepth: nat, levels: seq<seq<Entry>>, results: seq<Entry>)
      requires Valid()
      requires BeamRun(Log(), start, beamWidth, maxDepth, s.OfEdge(), levels) && RankedResults(levels, results)
      ensures |results| <= beamWidth * maxDepth && forall i, j :: 0 <= i < j < |results| ==> results[i].0 != results[j].0
      ensures PositiveExp(s) ==> NonNegative(s.OfEdge()) && forall i :: 0 <= i < |results| ==> results[i].1 > 0.0
      ensures |nodes| <= beamWidth && NonNegative(s.OfEdge()) ==>
                && (forall u :: Listed(results, u) <==> u != start && Within(Log(), start, u, maxDepth))
                && (forall i :: 0 <= i < |results| ==> BestShortest(Log(), start, results[i].0, s.OfEdge(), results[i].1))
    {
      hide BeamRun, RankedResults, Within, BestShortest, ScoredWalk, PositiveExp;
      AnyWidth(Log(), start, beamWidth, maxDepth, s.OfEdge(), levels, results);
      if PositiveExp(s) {
        ScoresArePositive(Log(), start, s, beamWidth, maxDepth, levels, results);
      }
      if |nodes| <= beamWidth && NonNegative(s.OfEdge()) {
        forall e | 0 <= e < |arcs| ensures Log()[e].target in nodes {
          assert ArcMatches(nodes, arcs[e], edgeMeta[e]);
        }
        WideBeamIsExact(Log(), start, nodes, beamWidth, maxDepth, s.OfEdge(), levels, results);
      }
    }

    lemma DistinctNodes()
      requires Valid()
      ensures Injective(nodes)
    {
    }

    lemma KnownScore(e: nat, s: Scoring)
      requires Valid() && e < |arcs|
      ensures e in edgeMeta && s.Transition(Some(edgeMeta[e]), arcs[e].weight) == s.OfEdge()(Log()[e])
    {
      assert ArcMatches(nodes, arcs[e], edgeMeta[e]);
    }

    lemma IsIndexed()
      requires Valid()
      ensures Indexed(Net(nodes, arcs, Log()))
    {
    }

    lemma KnownNode(id: Uuid)
      requires Valid() && id in nodeMap
      ensures nodeMap[id] < |nodes| && nodes[nodeMap[id]] == id
    {
    }

    lemma KnownArc(e: nat)
      requires Valid() && e < |arcs|
      ensures arcs[e].to < |nodes| && e in edgeMeta && edgeMeta[e] == Log()[e]
    {
      assert ArcMatches(nodes, arcs[e], edgeMeta[e]);
    }

    lemma UnknownSource(id: Uuid)
      requires Valid() && id !in nodeMap
      ensures forall e :: 0 <= e < |Log()| ==> Log()[e].source != id
    {
      assert forall e :: 0 <= e < |arcs| ==> ArcMatches(nodes, arcs[e], edgeMeta[e]);
    }
  }
}
