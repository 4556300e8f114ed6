/** Breadth-first search over the temporal graph: what a traversal has to return, and the
    bookkeeping that carries the queue loop there. */
module BreadthFirst {
  import opened Common
  import opened TemporalPaths

  // A stored arc between node indices; the arc's own index keys the metadata table.
  datatype Arc = Arc(from: nat, to: nat, weight: real)

  // ---- What a traversal has to return ----------------------------------------------------

  ghost predicate Listed(r: seq<(Uuid, real)>, id: Uuid) {
    exists i :: 0 <= i < |r| && r[i].0 == id
  }

  function HopScore(d: nat): real {
    1.0 / (1.0 + d as real)
  }

  ghost predicate ScoredByDistance(log: seq<Edge>, a: Uuid, entry: (Uuid, real)) {
    exists d: nat :: Distance(log, a, entry.0, d) && entry.1 == HopScore(d)
  }

  ghost predicate IsTraversal(log: seq<Edge>, start: Uuid, k: nat, r: seq<(Uuid, real)>) {
    && (forall id :: Listed(r, id) <==> id != start && Within(log, start, id, k))
    && (forall i :: 0 <= i < |r| ==> ScoredByDistance(log, start, r[i]))
    && (forall i, j :: 0 <= i < j < |r| ==> r[i].0 != r[j].0 && r[j].1 <= r[i].1)
  }

  // A queue entry of the loop, and the same entry by identifier.
  datatype Visit = Visit(node: nat, depth: nat)
  datatype Hop = Hop(id: Uuid, depth: nat)

  // ---- Bookkeeping of the search, in terms of identifiers -----------------------------------

  // `dist` are the nodes met so far, `pending` the queue, `busy` the node being expanded.
  ghost predicate Searching(log: seq<Edge>, start: Uuid, k: nat, dist: map<Uuid, nat>,
                            pending: seq<Hop>, d: nat, busy: Option<Uuid>)
  {
    && start in dist && dist[start] == 0
    && (forall u :: u in dist ==> Distance(log, start, u, dist[u]) && dist[u] <= k && dist[u] <= d + 1)
    && (forall i :: 0 <= i < |pending| ==> Queued(dist, pending[i], d))
    && (forall i, j :: 0 <= i < j < |pending| ==> pending[i].depth <= pending[j].depth)
    && (forall u :: u in dist && dist[u] < k ==> Expanded(log, dist, u) || busy == Some(u) || InQueue(pending, u))
    && (busy.Some? ==> busy.value in dist && dist[busy.value] == d)
  }

  ghost predicate Queued(dist: map<Uuid, nat>, q: Hop, d: nat) {
    q.id in dist && dist[q.id] == q.depth && d <= q.depth <= d + 1
  }

  ghost predicate InQueue(pending: seq<Hop>, u: Uuid) {
    exists i :: 0 <= i < |pending| && pending[i].id == u
  }

  ghost predicate Reported(start: Uuid, dist: map<Uuid, nat>, r: seq<(Uuid, real)>) {
    && (forall id :: Listed(r, id) <==> id in dist && id != start)
    && (forall i :: 0 <= i < |r| ==> r[i].0 in dist && r[i].1 == HopScore(dist[r[i].0]))
    && (forall i, j :: 0 <= i < j < |r| ==> r[i].0 != r[j].0 && dist[r[i].0] <= dist[r[j].0])
  }

  lemma NearerExpanded(log: seq<Edge>, start: Uuid, k: nat, dist: map<Uuid, nat>, pending: seq<Hop>,
                       d: nat, busy: Option<Uuid>)
    requires Searching(log, start, k, dist, pending, d, busy) && d <= k
    ensures forall u :: u in dist && dist[u] < d ==> Expanded(log, dist, u)
  {
    assert forall i :: 0 <= i < |pending| ==> Queued(dist, pending[i], d);
  }

  // Taking the front of the queue.
  lemma Dequeue(log: seq<Edge>, start: Uuid, k: nat, dist: map<Uuid, nat>, pending: seq<Hop>, d: nat)
    requires Searching(log, start, k, dist, pending, d, None) && pending != []
    ensures Searching(log, start, k, dist, pending[1..], pending[0].depth, Some(pending[0].id))
    ensures d <= pending[0].depth <= k
  {
    var rest := pending[1..];
    assert Queued(dist, pending[0], d);
    forall i | 0 <= i < |rest| ensures Queued(dist, rest[i], pending[0].depth) {
      assert Queued(dist, pending[i + 1], d);
    }
    forall u | u in dist && dist[u] < k && !Expanded(log, dist, u) && u != pending[0].id
      ensures InQueue(rest, u)
    {
      var i :| 0 <= i < |pending| && pending[i].id == u;
      assert rest[i - 1].id == u;
    }
  }

  // Meeting a new node over a live edge out of the busy one.
  lemma Discover(log: seq<Edge>, start: Uuid, k: nat, dist: map<Uuid, nat>, pending: seq<Hop>,
                 d: nat, e: nat)
    requires e < |log| && Live(log[e]) && log[e].target !in dist && d < k
    requires Searching(log, start, k, dist, pending, d, Some(log[e].source))
    ensures Searching(log, start, k, dist[log[e].target := d + 1], pending + [Hop(log[e].target, d + 1)], d, Some(log[e].source))
    ensures start in dist && forall u :: u in dist ==> dist[u] <= d + 1
  {
    hide Expanded, Distance, InQueue;
    var b := log[e].target;
    NearerExpanded(log, start, k, dist, pending, d, Some(log[e].source));
    FirstMeeting(log, start, dist, d, e);
    EnqueueKeepsOrder(dist, pending, b, d);
    forall u | u in dist[b := d + 1] && dist[b := d + 1][u] < k
      ensures Expanded(log, dist[b := d + 1], u) || Some(log[e].source) == Some(u) || InQueue(pending + [Hop(b, d + 1)], u)
    {
      InQueueGrows(pending, Hop(b, d + 1), u);
      if u != b && Expanded(log, dist, u) {
        ExpandedGrows(log, dist, u, b, d + 1);
      }
    }
  }

  lemma InQueueGrows(pending: seq<Hop>, hop: Hop, u: Uuid)
    ensures InQueue(pending, u) || u == hop.id ==> InQueue(pending + [hop], u)
  {
    var longer := pending + [hop];
    assert longer[|pending|] == hop;
    if i :| 0 <= i < |pending| && pending[i].id == u {
      assert longer[i].id == u;
    }
  }

  lemma ExpandedGrows(log: seq<Edge>, dist: map<Uuid, nat>, u: Uuid, b: Uuid, d: nat)
    requires u in dist && Expanded(log, dist, u) && b !in dist
    ensures Expanded(log, dist[b := d], u)
  {
  }

  lemma EnqueueKeepsOrder(dist: map<Uuid, nat>, pending: seq<Hop>, b: Uuid, d: nat)
    requires b !in dist
    requires forall i :: 0 <= i < |pending| ==> Queued(dist, pending[i], d)
    requires forall i, j :: 0 <= i < j < |pending| ==> pending[i].depth <= pending[j].depth
    ensures var p := pending + [Hop(b, d + 1)];
            && (forall i :: 0 <= i < |p| ==> Queued(dist[b := d + 1], p[i], d))
            && (forall i, j :: 0 <= i < j < |p| ==> p[i].depth <= p[j].depth)
  {
    var p := pending + [Hop(b, d + 1)];
    forall i | 0 <= i < |p| ensures Queued(dist[b := d + 1], p[i], d) {
      if i < |pending| {
        assert Queued(dist, pending[i], d);
      }
    }
    assert forall i :: 0 <= i < |p| ==> Queued(dist[b := d + 1], p[i], d);
  }

  lemma DiscoverReported(start: Uuid, dist: map<Uuid, nat>, b: Uuid, d: nat, r: seq<(Uuid, real)>)
    requires b !in dist && start in dist && Reported(start, dist, r)
    requires forall u :: u in dist ==> dist[u] <= d + 1
    ensures Reported(start, dist[b := d + 1], r + [(b, HopScore(d + 1))])
  {
    var r' := r + [(b, HopScore(d + 1))];
    forall id ensures Listed(r', id) <==> Listed(r, id) || id == b {
      if Listed(r, id) {
        var i :| 0 <= i < |r| && r[i].0 == id;
        assert r'[i].0 == id;
      }
      if id == b {
        assert r'[|r|].0 == b;
      }
    }
    forall i, j | 0 <= i < j < |r'| ensures r'[i].0 != r'[j].0 {
      assert Listed(r, r'[i].0) by { assert r[i].0 == r'[i].0; }
    }
  }

  // All live edges out of the busy node have been followed, or it sits at the depth bound.
  lemma FinishNode(log: seq<Edge>, start: Uuid, k: nat, dist: map<Uuid, nat>, pending: seq<Hop>,
                   d: nat, busy: Uuid)
    requires Searching(log, start, k, dist, pending, d, Some(busy))
    requires d < k ==> forall e :: 0 <= e < |log| && Live(log[e]) && log[e].source == busy ==> log[e].target in dist
    ensures Searching(log, start, k, dist, pending, d, None)
  {
    if d < k {
      assert Expanded(log, dist, busy);
    }
  }

  lemma SearchDone(log: seq<Edge>, start: Uuid, k: nat, dist: map<Uuid, nat>, pending: seq<Hop>, d: nat,
                   r: seq<(Uuid, real)>)
    requires pending == [] && Searching(log, start, k, dist, pending, d, None) && Reported(start, dist, r)
    ensures IsTraversal(log, start, k, r)
  {
    forall id | Within(log, start, id, k) ensures id in dist {
      var w :| Walk(log, start, w, id) && |w| <= k;
      ExpandedCovers(log, start, dist, k, w, id);
    }
    forall id | id in dist ensures Within(log, start, id, k) {
      var w :| Walk(log, start, w, id) && |w| == dist[id];
      assert |w| <= k;
    }
    forall i, j | 0 <= i < j < |r| ensures r[j].1 <= r[i].1 {
      HopScoreAntitone(dist[r[i].0], dist[r[j].0]);
    }
  }

  lemma HopScoreAntitone(d: nat, d': nat)
    requires d <= d'
    ensures HopScore(d') <= HopScore(d)
  {
    var x, y := 1.0 + d as real, 1.0 + d' as real;
    var p, q := 1.0 / x, 1.0 / y;
    assert p * x == 1.0 && q * y == 1.0;
    assert p * y >= p * x;
    assert p == p * (q * y) == q * (p * y);
  }

  ghost function Indices(n: nat): (r: set<nat>)
    ensures forall v :: v in r <==> 0 <= v < n
  {
    if n == 0 then {} else Indices(n - 1) + {n - 1}
  }

  lemma MirrorDiscover(nodes: seq<Uuid>, visited: map<nat, nat>, queue: seq<Visit>,
                       dist: map<Uuid, nat>, pending: seq<Hop>, n: nat, d: nat)
    requires Mirrors(nodes, visited, queue, dist, pending) && n < |nodes| && n !in visited
    requires forall i :: 0 <= i < |nodes| && nodes[i] == nodes[n] ==> i == n
    ensures nodes[n] !in dist
    ensures Mirrors(nodes, visited[n := d], queue + [Visit(n, d)], dist[nodes[n] := d], pending + [Hop(nodes[n], d)])
  {
  }

  // The index-level state of the loop mirrors the identifier-level one.
  ghost predicate Mirrors(nodes: seq<Uuid>, visited: map<nat, nat>, queue: seq<Visit>,
                          dist: map<Uuid, nat>, pending: seq<Hop>)
  {
    && (forall v :: v in visited ==> v < |nodes| && nodes[v] in dist && dist[nodes[v]] == visited[v])
    && (forall v :: 0 <= v < |nodes| && nodes[v] in dist ==> v in visited)
    && |queue| == |pending|
    && (forall i :: 0 <= i < |queue| ==> queue[i].node < |nodes| && pending[i] == Hop(nodes[queue[i].node], queue[i].depth))
  }

  lemma MirrorDequeue(nodes: seq<Uuid>, visited: map<nat, nat>, queue: seq<Visit>,
                      dist: map<Uuid, nat>, pending: seq<Hop>)
    requires Mirrors(nodes, visited, queue, dist, pending) && queue != []
    ensures |pending| == |queue| && queue[0].node < |nodes| && pending[0] == Hop(nodes[queue[0].node], queue[0].depth)
    ensures Mirrors(nodes, visited, queue[1..], dist, pending[1..])
  {
  }

  // The nodes that can still be met.
  ghost predicate Unmet(nodes: seq<Uuid>, visited: map<nat, nat>, unvisited: set<nat>) {
    forall v :: 0 <= v < |nodes| && v !in visited ==> v in unvisited
  }

  lemma MeetNode(nodes: seq<Uuid>, visited: map<nat, nat>, unvisited: set<nat>, n: nat, d: nat)
    requires Unmet(nodes, visited, unvisited) && n < |nodes| && n !in visited
    ensures Unmet(nodes, visited[n := d], unvisited - {n}) && |unvisited - {n}| == |unvisited| - 1
  {
  }

  // A start the graph does not know has no outgoing edge.
  lemma UnknownStart(log: seq<Edge>, start: Uuid, k: nat)
    requires forall e :: 0 <= e < |log| ==> log[e].source != start
    ensures IsTraversal(log, start, k, [])
  {
    forall id, w | Walk(log, start, w, id) ensures id == start {
      IsolatedStart(log, start, w, id);
    }
  }

  lemma {:induction false} IsolatedStart(log: seq<Edge>, start: Uuid, w: seq<nat>, b: Uuid)
    requires forall e :: 0 <= e < |log| ==> log[e].source != start
    requires Walk(log, start, w, b)
    ensures w == [] && b == start
    decreases |w|
  {
    if w != [] {
      IsolatedStart(log, start, w[..|w| - 1], log[w[|w| - 1]].source);
    }
  }

  // After an invalidation a traversal lists no new node, and no listed node scores higher.
  lemma InvalidationShrinksTraversal(log: seq<Edge>, from: Uuid, to: Uuid, heir: Option<Uuid>, now: int,
                                     start: Uuid, k: nat, r: seq<(Uuid, real)>, r': seq<(Uuid, real)>, i': nat)
    requires IsTraversal(log, start, k, r) && i' < |r'|
    requires IsTraversal(Invalidated(log, from, to, heir, now), start, k, r')
    ensures exists i :: 0 <= i < |r| && r[i].0 == r'[i'].0 && r'[i'].1 <= r[i].1
  {
    var log' := Invalidated(log, from, to, heir, now);
    var id := r'[i'].0;
    assert Listed(r', id);
    assert ScoredByDistance(log', start, r'[i']);
    var d' :| Distance(log', start, id, d') && r'[i'].1 == HopScore(d');
    var w' :| Walk(log', start, w', id) && |w'| <= k;
    InvalidationShrinks(log, from, to, heir, now, start, id, d');
    var d :| d <= d' && Distance(log, start, id, d);
    var w :| Walk(log, start, w, id) && |w| == d;
    assert Within(log, start, id, k);
    assert Listed(r, id);
    var i :| 0 <= i < |r| && r[i].0 == id;
    assert ScoredByDistance(log, start, r[i]);
    var d0 :| Distance(log, start, id, d0) && r[i].1 == HopScore(d0);
    DistanceUnique(log, start, id, d, d0);
    HopScoreAntitone(d, d');
  }

  // ---- The loop state as a whole -----------------------------------------------------------

  // The stored graph: node identifiers by index, arcs between indices, the edge log.
  datatype Net = Net(nodes: seq<Uuid>, arcs: seq<Arc>, log: seq<Edge>)

  ghost predicate ArcMatches(nodes: seq<Uuid>, arc: Arc, e: Edge) {
    && arc.from < |nodes| && arc.to < |nodes|
    && nodes[arc.from] == e.source && nodes[arc.to] == e.target && arc.weight == e.weight
  }

  ghost predicate Indexed(g: Net) {
    && (forall i, j :: 0 <= i < |g.nodes| && 0 <= j < |g.nodes| && g.nodes[i] == g.nodes[j] ==> i == j)
    && |g.log| == |g.arcs|
    && (forall e :: 0 <= e < |g.arcs| ==> ArcMatches(g.nodes, g.arcs[e], g.log[e]))
  }

  // What the proof keeps beside the variables of the loop.
  datatype Search = Search(dist: map<Uuid, nat>, pending: seq<Hop>, d: nat, unmet: set<nat>)

  // Between nodes, or at work on `node` with the arcs `done` already followed.
  datatype Activity = Idle | Expanding(node: nat, done: seq<nat>)

  ghost predicate Progress(g: Net, start: nat, k: nat, visited: map<nat, nat>, queue: seq<Visit>,
                           results: seq<(Uuid, real)>, s: Search, act: Activity)
  {
    && start < |g.nodes|
    && Mirrors(g.nodes, visited, queue, s.dist, s.pending)
    && Unmet(g.nodes, visited, s.unmet)
    && Reported(g.nodes[start], s.dist, results)
    && Active(g, start, k, s, act)
  }

  ghost predicate Active(g: Net, start: nat, k: nat, s: Search, act: Activity)
    requires start < |g.nodes|
  {
    match act
    case Idle => Searching(g.log, g.nodes[start], k, s.dist, s.pending, s.d, None)
    case Expanding(node, done) =>
      && node < |g.nodes| && Followed(g.log, done, s.dist)
      && Searching(g.log, g.nodes[start], k, s.dist, s.pending, s.d, Some(g.nodes[node]))
  }

  // The live edges among `edges` lead to nodes already met.
  ghost predicate Followed(log: seq<Edge>, edges: seq<nat>, dist: map<Uuid, nat>) {
    forall i :: 0 <= i < |edges| ==> edges[i] < |log| && (Live(log[edges[i]]) ==> log[edges[i]].target in dist)
  }

  lemma FollowedStep(log: seq<Edge>, done: seq<nat>, e: nat, seen: map<Uuid, nat>, dist: map<Uuid, nat>)
    requires Followed(log, done, seen) && seen.Keys <= dist.Keys
    requires e < |log| && (Live(log[e]) ==> log[e].target in dist)
    ensures Followed(log, done + [e], dist)
  {
  }

  ghost function Initial(g: Net, start: nat): Search
    requires start < |g.nodes|
  {
    Search(map[g.nodes[start] := 0], [Hop(g.nodes[start], 0)], 0,
           Indices(|g.nodes|) - {start})
  }

  lemma Begin(g: Net, start: nat, k: nat)
    requires Indexed(g) && start < |g.nodes|
    ensures Progress(g, start, k, map[start := 0], [Visit(start, 0)], [], Initial(g, start), Idle)
  {
    hide Searching, Mirrors, Reported;
    BeginSearching(g.log, g.nodes[start], k);
    BeginMirrors(g.nodes, start);
    NothingReported(g.nodes[start]);
    assert Unmet(g.nodes, map[start := 0], Initial(g, start).unmet);
  }

  lemma BeginSearching(log: seq<Edge>, start: Uuid, k: nat)
    ensures Searching(log, start, k, map[start := 0], [Hop(start, 0)], 0, None)
  {
    hide Expanded;
    SelfDistance(log, start);
    var pending := [Hop(start, 0)];
    assert pending[0].id == start;
    assert InQueue(pending, start);
  }

  lemma BeginMirrors(nodes: seq<Uuid>, start: nat)
    requires start < |nodes| && forall i :: 0 <= i < |nodes| && nodes[i] == nodes[start] ==> i == start
    ensures Mirrors(nodes, map[start := 0], [Visit(start, 0)], map[nodes[start] := 0], [Hop(nodes[start], 0)])
  {
  }

  lemma NothingReported(start: Uuid)
    ensures Reported(start, map[start := 0], [])
  {
  }

  ghost function Popped(s: Search): Search
    requires s.pending != []
  {
    Search(s.dist, s.pending[1..], s.pending[0].depth, s.unmet)
  }

  lemma Pop(g: Net, start: nat, k: nat, visited: map<nat, nat>, queue: seq<Visit>,
            results: seq<(Uuid, real)>, s: Search)
    requires Progress(g, start, k, visited, queue, results, s, Idle) && queue != []
    ensures s.pending != [] && queue[0].node < |g.nodes| && Popped(s).d == queue[0].depth <= k
    ensures Progress(g, start, k, visited, queue[1..], results, Popped(s), Expanding(queue[0].node, []))
  {
    hide Searching, Reported, Unmet;
    MirrorDequeue(g.nodes, visited, queue, s.dist, s.pending);
    Dequeue(g.log, g.nodes[start], k, s.dist, s.pending, s.d);
  }

  ghost function Met(g: Net, s: Search, n: nat): Search
    requires n < |g.nodes|
  {
    var id := g.nodes[n];
    Search(s.dist[id := s.d + 1], s.pending + [Hop(id, s.d + 1)], s.d, s.unmet - {n})
  }

  // Following a live arc to a node not met before.
  lemma Meet(g: Net, start: nat, k: nat, visited: map<nat, nat>, queue: seq<Visit>,
            results: seq<(Uuid, real)>, s: Search, node: nat, done: seq<nat>, e: nat)
    requires Indexed(g) && Progress(g, start, k, visited, queue, results, s, Expanding(node, done)) && s.d < k
    requires e < |g.arcs| && g.arcs[e].from == node && Live(g.log[e]) && g.arcs[e].to !in visited
    ensures g.arcs[e].to < |g.nodes| && |Met(g, s, g.arcs[e].to).unmet| == |s.unmet| - 1
    ensures var n := g.arcs[e].to;
            Progress(g, start, k, visited[n := s.d + 1], queue + [Visit(n, s.d + 1)],
                     results + [(g.nodes[n], HopScore(s.d + 1))], Met(g, s, n), Expanding(node, done + [e]))
  {
    hide Mirrors, Searching, Reported, Unmet, Followed;
    assert ArcMatches(g.nodes, g.arcs[e], g.log[e]);
    var n := g.arcs[e].to;
    FollowedStep(g.log, done, e, s.dist, s.dist[g.nodes[n] := s.d + 1]);
    MirrorDiscover(g.nodes, visited, queue, s.dist, s.pending, n, s.d + 1);
    Discover(g.log, g.nodes[start], k, s.dist, s.pending, s.d, e);
    DiscoverReported(g.nodes[start], s.dist, g.nodes[n], s.d, results);
    MeetNode(g.nodes, visited, s.unmet, n, s.d + 1);
  }

  // Skipping an arc that is closed or leads back to a node already met.
  lemma Pass(g: Net, start: nat, k: nat, visited: map<nat, nat>, queue: seq<Visit>,
            results: seq<(Uuid, real)>, s: Search, node: nat, done: seq<nat>, e: nat)
    requires Indexed(g) && Progress(g, start, k, visited, queue, results, s, Expanding(node, done)) && e < |g.arcs|
    requires !Live(g.log[e]) || g.arcs[e].to in visited
    ensures Progress(g, start, k, visited, queue, results, s, Expanding(node, done + [e]))
  {
    hide Searching, Reported, Unmet, Followed;
    assert ArcMatches(g.nodes, g.arcs[e], g.log[e]);
    FollowedStep(g.log, done, e, s.dist, s.dist);
  }

  lemma Close(g: Net, start: nat, k: nat, visited: map<nat, nat>, queue: seq<Visit>,
            results: seq<(Uuid, real)>, s: Search, node: nat, done: seq<nat>)
    requires Indexed(g) && Progress(g, start, k, visited, queue, results, s, Expanding(node, done))
    requires s.d < k ==> forall e :: 0 <= e < |g.arcs| && g.arcs[e].from == node ==> e in done
    ensures Progress(g, start, k, visited, queue, results, s, Idle)
  {
    hide Mirrors, Reported, Unmet;
    if s.d < k {
      forall e | 0 <= e < |g.log| && Live(g.log[e]) && g.log[e].source == g.nodes[node]
        ensures g.log[e].target in s.dist
      {
        assert ArcMatches(g.nodes, g.arcs[e], g.log[e]);
        assert e in done;
      }
    }
    FinishNode(g.log, g.nodes[start], k, s.dist, s.pending, s.d, g.nodes[node]);
  }

  lemma Done(g: Net, start: nat, k: nat, visited: map<nat, nat>, queue: seq<Visit>,
            results: seq<(Uuid, real)>, s: Search)
    requires Progress(g, start, k, visited, queue, results, s, Idle) && queue == []
    ensures IsTraversal(g.log, g.nodes[start], k, results)
  {
    SearchDone(g.log, g.nodes[start], k, s.dist, s.pending, s.d, results);
  }
}
