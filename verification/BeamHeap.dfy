/** The index-level steps of beam search: popping the heap of a level, and reading the
    score table out in rank order. */
module BeamHeap {
  import opened Common
  import opened TemporalPaths
  import opened BreadthFirst
  import opened BeamLevels
  import opened StableSort

  datatype Scored = Scored(score: real, node: nat)

  ghost predicate Picked(next: seq<Scored>, node: nat) {
    exists i :: 0 <= i < |next| && next[i].node == node
  }

  ghost predicate PassedOver(next: seq<Scored>, width: nat, p: Scored) {
    |next| == width && forall i :: 0 <= i < |next| ==> p.score <= next[i].score
  }

  // The best offer for each of the at most `width` best nodes of `pool`.
  ghost predicate Selection(pool: seq<Scored>, width: nat, next: seq<Scored>) {
    && |next| <= width
    && (forall i :: 0 <= i < |next| ==> next[i] in pool)
    && (forall i, j :: 0 <= i < j < |next| ==> next[i].node != next[j].node && next[j].score <= next[i].score)
    && (forall p, i :: p in pool && 0 <= i < |next| && p.node == next[i].node ==> p.score <= next[i].score)
    && (forall p :: p in pool && !Picked(next, p.node) ==> PassedOver(next, width, p))
  }

  // ---- Popping the heap --------------------------------------------------------------------

  ghost predicate Greatest(heap: seq<Scored>, i: nat) {
    i < |heap| && forall j :: 0 <= j < |heap| ==> heap[j].score <= heap[i].score
  }

  lemma {:induction false} HasMax(heap: seq<Scored>) returns (i: nat)
    requires heap != []
    ensures Greatest(heap, i)
  {
    var m := |heap| - 1;
    i := m;
    if m > 0 {
      var k := HasMax(heap[..m]);
      assert forall j :: 0 <= j < m ==> heap[..m][j] == heap[j];
      i := if heap[k].score < heap[m].score then m else k;
    }
  }

  // `BinaryHeap::pop`: some element of greatest score; which one is left open.
  method PopMax(heap: seq<Scored>) returns (top: Scored, rest: seq<Scored>)
    requires heap != []
    ensures top in heap && forall h :: h in heap ==> h.score <= top.score
    ensures forall h :: h in heap <==> h in rest || h == top
    ensures |rest| == |heap| - 1
  {
    ghost var max := HasMax(heap);
    assert 0 <= max < |heap| && forall j :: 0 <= j < |heap| ==> heap[j].score <= heap[max].score;
    var i :| 0 <= i < |heap| && forall j :: 0 <= j < |heap| ==> heap[j].score <= heap[i].score;
    top := heap[i];
    rest := heap[..i] + heap[i + 1..];
    assert heap == heap[..i] + [top] + heap[i + 1..];
  }

  // The selection so far, in descending order and without repeats.
  ghost predicate Chosen(pool: seq<Scored>, width: nat, next: seq<Scored>) {
    && |next| <= width
    && (forall i :: 0 <= i < |next| ==> next[i] in pool)
    && (forall i, j :: 0 <= i < j < |next| ==> next[i].node != next[j].node && next[j].score <= next[i].score)
  }

  ghost predicate BestSoFar(pool: seq<Scored>, next: seq<Scored>) {
    forall p, i :: p in pool && 0 <= i < |next| && p.node == next[i].node ==> p.score <= next[i].score
  }

  // `heap` is what has not been popped yet.
  ghost predicate Unpopped(pool: seq<Scored>, heap: seq<Scored>, next: seq<Scored>) {
    && (forall h :: h in heap ==> h in pool)
    && (forall p :: p in pool ==> p in heap || Picked(next, p.node))
    && (forall h, i :: h in heap && 0 <= i < |next| ==> h.score <= next[i].score)
  }

  // What holds after every pop.
  ghost predicate Popping(pool: seq<Scored>, heap: seq<Scored>, width: nat, next: seq<Scored>) {
    Chosen(pool, width, next) && BestSoFar(pool, next) && Unpopped(pool, heap, next)
  }

  lemma PickTop(pool: seq<Scored>, heap: seq<Scored>, width: nat, next: seq<Scored>, top: Scored, rest: seq<Scored>)
    requires Popping(pool, heap, width, next) && |next| < width
    requires top in heap && (forall h :: h in heap ==> h.score <= top.score)
    requires forall h :: h in heap <==> h in rest || h == top
    requires !Picked(next, top.node)
    ensures Popping(pool, rest, width, next + [top])
  {
    hide Chosen, BestSoFar, Unpopped;
    PickedAppend(next, top);
    TopChosen(pool, heap, width, next, top);
    TopIsBest(pool, heap, next, top);
    TopUnpopped(pool, heap, next, top, rest);
  }

  lemma TopChosen(pool: seq<Scored>, heap: seq<Scored>, width: nat, next: seq<Scored>, top: Scored)
    requires Chosen(pool, width, next) && Unpopped(pool, heap, next) && |next| < width && top in heap
    requires !Picked(next, top.node)
    ensures Chosen(pool, width, next + [top])
  {
    assert forall i :: 0 <= i < |next| ==> next[i].node != top.node;
  }

  lemma TopIsBest(pool: seq<Scored>, heap: seq<Scored>, next: seq<Scored>, top: Scored)
    requires BestSoFar(pool, next) && Unpopped(pool, heap, next)
    requires top in heap && (forall h :: h in heap ==> h.score <= top.score) && !Picked(next, top.node)
    ensures BestSoFar(pool, next + [top])
  {
    var next' := next + [top];
    forall p, i | p in pool && 0 <= i < |next'| && p.node == next'[i].node ensures p.score <= next'[i].score {
      if i == |next| {
        assert p in heap;
      }
    }
  }

  lemma TopUnpopped(pool: seq<Scored>, heap: seq<Scored>, next: seq<Scored>, top: Scored, rest: seq<Scored>)
    requires Unpopped(pool, heap, next)
    requires top in heap && (forall h :: h in heap ==> h.score <= top.score)
    requires forall h :: h in heap <==> h in rest || h == top
    requires forall v :: Picked(next + [top], v) <==> Picked(next, v) || v == top.node
    ensures Unpopped(pool, rest, next + [top])
  {
    assert forall h :: h in rest ==> h in heap;
  }

  lemma SkipTop(pool: seq<Scored>, heap: seq<Scored>, width: nat, next: seq<Scored>, top: Scored, rest: seq<Scored>)
    requires Popping(pool, heap, width, next) && Picked(next, top.node)
    requires forall h :: h in heap <==> h in rest || h == top
    ensures Popping(pool, rest, width, next)
  {
  }

  lemma StopPopping(pool: seq<Scored>, heap: seq<Scored>, width: nat, next: seq<Scored>)
    requires Popping(pool, heap, width, next) && (heap == [] || |next| == width)
    ensures Selection(pool, width, next)
  {
  }

  method SelectBeam(pool: seq<Scored>, visited0: set<nat>, width: nat) returns (next: seq<Scored>, visited: set<nat>)
    requires forall h :: h in pool ==> h.node !in visited0
    ensures Selection(pool, width, next)
    ensures forall v :: v in visited <==> v in visited0 || Picked(next, v)
  {
    hide Popping, Selection;
    visited := visited0;
    next := [];
    var heap := pool;
    var count := 0;
    PoppingStarts(pool, width);
    while heap != []
      invariant Popping(pool, heap, width, next) && count == |next| <= width
      invariant forall v :: v in visited <==> v in visited0 || Picked(next, v)
      invariant forall h :: h in heap ==> h in pool
      decreases |heap|
    {
      var top, rest := PopMax(heap);
      if count >= width {
        break;
      }
      if top.node !in visited {
        PickTop(pool, heap, width, next, top, rest);
        PickedAppend(next, top);
        visited := visited + {top.node};
        next := next + [top];
        count := count + 1;
      } else {
        SkipTop(pool, heap, width, next, top, rest);
      }
      heap := rest;
    }
    StopPopping(pool, heap, width, next);
  }

  lemma PoppingStarts(pool: seq<Scored>, width: nat)
    ensures Popping(pool, pool, width, [])
  {
  }

  lemma PickedAppend(next: seq<Scored>, top: Scored)
    ensures forall v :: Picked(next + [top], v) <==> Picked(next, v) || v == top.node
  {
    var next' := next + [top];
    forall v ensures Picked(next', v) <==> Picked(next, v) || v == top.node {
      if i :| 0 <= i < |next| && next[i].node == v {
        assert next'[i].node == v;
      }
      if v == top.node {
        assert next'[|next|].node == v;
      }
    }
  }

  // ---- From indices to identifiers -----------------------------------------------------------

  ghost predicate InRange(nodes: seq<Uuid>, s: seq<Scored>) {
    forall i :: 0 <= i < |s| ==> s[i].node < |nodes|
  }

  ghost function Named(nodes: seq<Uuid>, p: Scored): Entry
    requires p.node < |nodes|
  {
    (nodes[p.node], p.score)
  }

  ghost function Entries(nodes: seq<Uuid>, s: seq<Scored>): (r: seq<Entry>)
    requires InRange(nodes, s)
    ensures |r| == |s| && forall i :: 0 <= i < |s| ==> r[i] == Named(nodes, s[i])
  {
    if s == [] then [] else Entries(nodes, s[..|s| - 1]) + [Named(nodes, s[|s| - 1])]
  }

  ghost predicate Injective(nodes: seq<Uuid>) {
    forall i, j :: 0 <= i < |nodes| && 0 <= j < |nodes| && nodes[i] == nodes[j] ==> i == j
  }

  // The heap holds exactly the candidates of the level.
  ghost predicate Gathered(nodes: seq<Uuid>, log: seq<Edge>, seen: set<Uuid>, beam: seq<Entry>, t: Edge -> real, pool: seq<Scored>) {
    && InRange(nodes, pool)
    && (forall p :: p in pool ==> p.node < |nodes| && Candidate(log, seen, beam, t, Named(nodes, p)))
    && (forall c :: Candidate(log, seen, beam, t, c) ==> exists p :: p in pool && p.node < |nodes| && Named(nodes, p) == c)
  }

  lemma SelectionIsLevel(nodes: seq<Uuid>, log: seq<Edge>, seen: set<Uuid>, beam: seq<Entry>, t: Edge -> real,
                         pool: seq<Scored>, width: nat, next: seq<Scored>)
    requires Injective(nodes) && Gathered(nodes, log, seen, beam, t, pool) && Selection(pool, width, next)
    ensures InRange(nodes, next) && Level(log, seen, beam, width, t, Entries(nodes, next))
  {
    hide Candidate;
    forall i | 0 <= i < |next| ensures next[i].node < |nodes| && Candidate(log, seen, beam, t, Named(nodes, next[i])) {
      assert next[i] in pool;
    }
    var level := Entries(nodes, next);
    forall c, i | Candidate(log, seen, beam, t, c) && 0 <= i < |level| && c.0 == level[i].0 ensures c.1 <= level[i].1 {
      BestOfItsNode(nodes, log, seen, beam, t, pool, width, next, c, i);
    }
    forall c | Candidate(log, seen, beam, t, c) && !Listed(level, c.0) ensures LeftBehind(level, width, c) {
      OnlyWhenFull(nodes, log, seen, beam, t, pool, width, next, c);
    }
  }

  lemma BestOfItsNode(nodes: seq<Uuid>, log: seq<Edge>, seen: set<Uuid>, beam: seq<Entry>, t: Edge -> real,
                      pool: seq<Scored>, width: nat, next: seq<Scored>, c: Entry, i: nat)
    requires Injective(nodes) && Gathered(nodes, log, seen, beam, t, pool) && Selection(pool, width, next)
    requires Candidate(log, seen, beam, t, c) && i < |next| && next[i].node < |nodes| && c.0 == nodes[next[i].node]
    ensures c.1 <= next[i].score
  {
    hide Candidate;
    var p :| p in pool && p.node < |nodes| && Named(nodes, p) == c;
    assert p.node == next[i].node;
  }

  lemma OnlyWhenFull(nodes: seq<Uuid>, log: seq<Edge>, seen: set<Uuid>, beam: seq<Entry>, t: Edge -> real,
                     pool: seq<Scored>, width: nat, next: seq<Scored>, c: Entry)
    requires Gathered(nodes, log, seen, beam, t, pool) && Selection(pool, width, next) && InRange(nodes, next)
    requires Candidate(log, seen, beam, t, c) && !Listed(Entries(nodes, next), c.0)
    ensures LeftBehind(Entries(nodes, next), width, c)
  {
    hide Candidate;
    var level := Entries(nodes, next);
    var p :| p in pool && p.node < |nodes| && Named(nodes, p) == c;
    forall i | 0 <= i < |next| ensures next[i].node != p.node {
      assert level[i].0 != c.0;
    }
    assert PassedOver(next, width, p);
  }

  // ---- Filling the heap ----------------------------------------------------------------------

  ghost predicate InHeap(nodes: seq<Uuid>, heap: seq<Scored>, c: Entry) {
    exists h :: h in heap && h.node < |nodes| && Named(nodes, h) == c
  }

  ghost predicate HeapSound(g: Net, visited: set<nat>, seen: set<Uuid>, level: seq<Entry>, t: Edge -> real, heap: seq<Scored>) {
    forall h :: h in heap ==> h.node < |g.nodes| && h.node !in visited && Candidate(g.log, seen, level, t, Named(g.nodes, h))
  }

  // Everything offered by the first `i` beam entries, and by entry `i` over the arcs `done`.
  ghost predicate HeapCovers(g: Net, seen: set<Uuid>, level: seq<Entry>, t: Edge -> real, heap: seq<Scored>, i: nat, done: seq<nat>) {
    forall k, e, c | 0 <= k < |level| && 0 <= e < |g.log| && (k < i || (k == i && e in done)) ::
      Offers(seen, level[k], g.log[e], t, c) ==> InHeap(g.nodes, heap, c)
  }

  ghost predicate Collected(g: Net, visited: set<nat>, seen: set<Uuid>, level: seq<Entry>, t: Edge -> real,
                            heap: seq<Scored>, i: nat, done: seq<nat>)
  {
    && (forall v :: 0 <= v < |g.nodes| ==> (v in visited <==> g.nodes[v] in seen))
    && HeapSound(g, visited, seen, level, t, heap) && HeapCovers(g, seen, level, t, heap, i, done)
  }

  lemma CollectNone(g: Net, visited: set<nat>, seen: set<Uuid>, level: seq<Entry>, t: Edge -> real)
    requires forall v :: 0 <= v < |g.nodes| ==> (v in visited <==> g.nodes[v] in seen)
    ensures Collected(g, visited, seen, level, t, [], 0, [])
  {
  }

  // An arc to a visited node, or a closed one, offers nothing.
  lemma CollectSkip(g: Net, visited: set<nat>, seen: set<Uuid>, level: seq<Entry>, t: Edge -> real,
                    heap: seq<Scored>, i: nat, done: seq<nat>, e: nat)
    requires Indexed(g) && Collected(g, visited, seen, level, t, heap, i, done) && e < |g.arcs|
    requires g.arcs[e].to in visited || !Live(g.log[e])
    ensures Collected(g, visited, seen, level, t, heap, i, done + [e])
  {
    assert ArcMatches(g.nodes, g.arcs[e], g.log[e]);
  }

  lemma CollectPush(g: Net, visited: set<nat>, seen: set<Uuid>, level: seq<Entry>, t: Edge -> real,
                    heap: seq<Scored>, i: nat, done: seq<nat>, e: nat, h: Scored)
    requires Indexed(g) && Collected(g, visited, seen, level, t, heap, i, done) && e < |g.arcs| && i < |level|
    requires Live(g.log[e]) && g.arcs[e].to !in visited
    requires g.arcs[e].from < |g.nodes| && g.nodes[g.arcs[e].from] == level[i].0
    requires h == Scored(level[i].1 * t(g.log[e]), g.arcs[e].to)
    ensures Collected(g, visited, seen, level, t, heap + [h], i, done + [e])
  {
    assert ArcMatches(g.nodes, g.arcs[e], g.log[e]);
    var heap' := heap + [h];
    var offered := Named(g.nodes, h);
    assert Offers(seen, level[i], g.log[e], t, offered);
    assert HeapSound(g, visited, seen, level, t, heap');
    assert h in heap';
    assert InHeap(g.nodes, heap', offered);
    forall c | InHeap(g.nodes, heap, c) ensures InHeap(g.nodes, heap', c) {
      var x :| x in heap && x.node < |g.nodes| && Named(g.nodes, x) == c;
      assert x in heap';
    }
    forall c | Offers(seen, level[i], g.log[e], t, c) ensures c == offered {
    }
  }

  lemma CollectNext(g: Net, visited: set<nat>, seen: set<Uuid>, level: seq<Entry>, t: Edge -> real,
                    heap: seq<Scored>, i: nat, node: nat, done: seq<nat>)
    requires Indexed(g) && Collected(g, visited, seen, level, t, heap, i, done) && i < |level|
    requires node < |g.nodes| && g.nodes[node] == level[i].0
    requires forall e :: 0 <= e < |g.arcs| && g.arcs[e].from == node ==> e in done
    ensures Collected(g, visited, seen, level, t, heap, i + 1, [])
  {
    forall e | 0 <= e < |g.log| && g.log[e].source == level[i].0 ensures e in done {
      assert ArcMatches(g.nodes, g.arcs[e], g.log[e]);
    }
  }

  lemma CollectDone(g: Net, visited: set<nat>, seen: set<Uuid>, level: seq<Entry>, t: Edge -> real, heap: seq<Scored>)
    requires Collected(g, visited, seen, level, t, heap, |level|, [])
    ensures Gathered(g.nodes, g.log, seen, level, t, heap)
    ensures forall h :: h in heap ==> h.node !in visited
  {
    assert forall i :: 0 <= i < |heap| ==> heap[i] in heap;
    forall c | Candidate(g.log, seen, level, t, c) ensures InHeap(g.nodes, heap, c) {
      var k, e :| 0 <= k < |level| && 0 <= e < |g.log| && Offers(seen, level[k], g.log[e], t, c);
    }
  }

  // ---- Level after level ---------------------------------------------------------------------

  // The loop's variables against the levels found so far.
  ghost predicate Tracks(nodes: seq<Uuid>, start: Uuid, visited: set<nat>, scores: map<nat, real>, beam: seq<Scored>,
                         levels: seq<seq<Entry>>)
  {
    && levels != [] && InRange(nodes, beam) && Entries(nodes, beam) == levels[|levels| - 1]
    && (forall v :: v in scores ==> v < |nodes| && v in visited)
    && (forall v :: 0 <= v < |nodes| ==> (v in visited <==> nodes[v] in Seen(levels)))
    && (forall c :: InTable(nodes, scores, c) <==> Found(levels, c))
  }

  lemma TrackStart(nodes: seq<Uuid>, startIdx: nat)
    requires Injective(nodes) && startIdx < |nodes|
    ensures Tracks(nodes, nodes[startIdx], {startIdx}, map[], [Scored(1.0, startIdx)], [[(nodes[startIdx], 1.0)]])
  {
    var levels: seq<seq<Entry>> := [[(nodes[startIdx], 1.0)]];
    assert levels[..0] == [];
    assert levels[0][0].0 == nodes[startIdx];
    assert Seen(levels) == Seen(levels[..0]) + Ids(levels[0]);
  }

  ghost predicate Recorded(scores: map<nat, real>, next: seq<Scored>, scores': map<nat, real>) {
    && (forall v :: v in scores' <==> v in scores || Picked(next, v))
    && (forall v :: v in scores && !Picked(next, v) ==> scores'[v] == scores[v])
    && (forall i :: 0 <= i < |next| ==> next[i].node in scores' && scores'[next[i].node] == next[i].score)
  }

  // `scores.insert` for each selected node.
  method Record(scores0: map<nat, real>, next: seq<Scored>) returns (scores: map<nat, real>)
    requires forall i, j :: 0 <= i < j < |next| ==> next[i].node != next[j].node
    ensures Recorded(scores0, next, scores)
  {
    scores := scores0;
    NothingRecorded(scores0);
    for i := 0 to |next|
      invariant Recorded(scores0, next[..i], scores)
    {
      hide Recorded, Picked;
      NotPicked(next, i);
      RecordNext(scores0, next[..i], next[i], scores);
      assert next[..i + 1] == next[..i] + [next[i]];
      scores := scores[next[i].node := next[i].score];
    }
    assert next[..|next|] == next;
  }

  lemma NothingRecorded(scores: map<nat, real>)
    ensures Recorded(scores, [], scores)
  {
  }

  lemma NotPicked(next: seq<Scored>, i: nat)
    requires i < |next| && forall k, j :: 0 <= k < j < |next| ==> next[k].node != next[j].node
    ensures !Picked(next[..i], next[i].node)
  {
  }

  lemma RecordNext(scores0: map<nat, real>, before: seq<Scored>, x: Scored, scores: map<nat, real>)
    requires Recorded(scores0, before, scores) && !Picked(before, x.node)
    ensures Recorded(scores0, before + [x], scores[x.node := x.score])
  {
    PickedAppend(before, x);
    hide Picked;
    forall i | 0 <= i < |before| ensures before[i].node != x.node {
      PickedAt(before, i);
    }
  }

  lemma PickedAt(next: seq<Scored>, i: nat)
    requires i < |next|
    ensures Picked(next, next[i].node)
  {
  }

  lemma FoundAppend(levels: seq<seq<Entry>>, next: seq<Entry>, c: Entry)
    requires levels != []
    ensures Found(levels + [next], c) <==> Found(levels, c) || c in next
  {
    var all := levels + [next];
    if n, i :| 0 < n < |levels| && 0 <= i < |levels[n]| && levels[n][i] == c {
      assert all[n][i] == c;
    }
    if i :| 0 <= i < |next| && next[i] == c {
      assert all[|levels|][i] == c;
    }
    if n, i :| 0 < n < |all| && 0 <= i < |all[n]| && all[n][i] == c {
      assert n < |levels| ==> levels[n][i] == c;
    }
  }

  lemma TrackNext(nodes: seq<Uuid>, start: Uuid, visited: set<nat>, scores: map<nat, real>, beam: seq<Scored>,
                  levels: seq<seq<Entry>>, next: seq<Scored>, visited': set<nat>, scores': map<nat, real>)
    requires Injective(nodes) && Tracks(nodes, start, visited, scores, beam, levels) && InRange(nodes, next)
    requires forall i, j :: 0 <= i < j < |next| ==> next[i].node != next[j].node
    requires forall i :: 0 <= i < |next| ==> next[i].node !in visited
    requires forall v :: v in visited' <==> v in visited || Picked(next, v)
    requires Recorded(scores, next, scores')
    ensures Tracks(nodes, start, visited', scores', next, levels + [Entries(nodes, next)])
  {
    var level := Entries(nodes, next);
    var levels' := levels + [level];
    assert levels'[..|levels|] == levels;
    assert Seen(levels') == Seen(levels) + Ids(level);
    forall v | 0 <= v < |nodes| ensures v in visited' <==> nodes[v] in Seen(levels') {
      PickedListed(nodes, next, v);
    }
    forall c ensures InTable(nodes, scores', c) <==> Found(levels', c) {
      FoundAppend(levels, level, c);
      TableAppend(nodes, visited, scores, next, scores', c);
    }
  }

  lemma PickedListed(nodes: seq<Uuid>, next: seq<Scored>, v: nat)
    requires Injective(nodes) && InRange(nodes, next) && v < |nodes|
    ensures Picked(next, v) <==> Listed(Entries(nodes, next), nodes[v])
  {
    var level := Entries(nodes, next);
    if i :| 0 <= i < |next| && next[i].node == v {
      assert level[i].0 == nodes[v];
    }
  }

  lemma TableAppend(nodes: seq<Uuid>, visited: set<nat>, scores: map<nat, real>, next: seq<Scored>, scores': map<nat, real>, c: Entry)
    requires Injective(nodes) && InRange(nodes, next) && Recorded(scores, next, scores')
    requires forall v :: v in scores ==> v < |nodes| && v in visited
    requires forall i :: 0 <= i < |next| ==> next[i].node !in visited
    ensures InTable(nodes, scores', c) <==> InTable(nodes, scores, c) || c in Entries(nodes, next)
  {
    var level := Entries(nodes, next);
    if InTable(nodes, scores, c) {
      var v :| v in scores && v < |nodes| && nodes[v] == c.0 && scores[v] == c.1;
      assert !Picked(next, v);
      assert v in scores';
    }
    if i :| 0 <= i < |level| && level[i] == c {
      assert next[i].node in scores';
    }
    if InTable(nodes, scores', c) {
      var v :| v in scores' && v < |nodes| && nodes[v] == c.0 && scores'[v] == c.1;
      if i :| 0 <= i < |next| && next[i].node == v {
        assert level[i] == c;
      } else {
        assert v in scores;
      }
    }
  }

  lemma SelectedAreNew(pool: seq<Scored>, visited: set<nat>, width: nat, next: seq<Scored>)
    requires Selection(pool, width, next) && forall h :: h in pool ==> h.node !in visited
    ensures forall i :: 0 <= i < |next| ==> next[i].node !in visited
    ensures forall i, j :: 0 <= i < j < |next| ==> next[i].node != next[j].node
  {
    forall i | 0 <= i < |next| ensures next[i].node !in visited {
      assert next[i] in pool;
    }
  }

  lemma ChainNext(log: seq<Edge>, start: Uuid, width: nat, t: Edge -> real, levels: seq<seq<Entry>>, next: seq<Entry>)
    requires Chained(log, start, width, t, levels)
    requires Level(log, Seen(levels), levels[|levels| - 1], width, t, next)
    ensures Chained(log, start, width, t, levels + [next])
  {
    hide Level;
    var all := levels + [next];
    forall n | 0 < n < |all| ensures Level(log, Seen(all[..n]), all[n - 1], width, t, all[n]) {
      if n < |levels| {
        assert all[..n] == levels[..n];
      } else {
        assert all[..n] == levels;
      }
    }
  }

  lemma ChainStart(log: seq<Edge>, start: Uuid, width: nat, t: Edge -> real)
    ensures Chained(log, start, width, t, [[(start, 1.0)]])
  {
  }

  lemma TrackedFacts(nodes: seq<Uuid>, start: Uuid, visited: set<nat>, scores: map<nat, real>, beam: seq<Scored>,
                     levels: seq<seq<Entry>>)
    requires Tracks(nodes, start, visited, scores, beam, levels)
    ensures levels != [] && InRange(nodes, beam) && Entries(nodes, beam) == levels[|levels| - 1]
    ensures forall v :: 0 <= v < |nodes| ==> (v in visited <==> nodes[v] in Seen(levels))
    ensures forall v :: v in scores ==> v < |nodes|
  {
  }

  lemma RunDone(log: seq<Edge>, start: Uuid, width: nat, k: nat, t: Edge -> real, levels: seq<seq<Entry>>)
    requires Chained(log, start, width, t, levels) && |levels| <= k + 1
    requires |levels| == k + 1 || Level(log, Seen(levels), levels[|levels| - 1], width, t, [])
    ensures BeamRun(log, start, width, k, t, levels)
  {
  }

  lemma RankDone(nodes: seq<Uuid>, start: Uuid, visited: set<nat>, scores: map<nat, real>, beam: seq<Scored>,
                 levels: seq<seq<Entry>>, r: seq<Entry>)
    requires Tracks(nodes, start, visited, scores, beam, levels)
    requires forall c :: c in r <==> InTable(nodes, scores, c)
    requires forall i, j :: 0 <= i < j < |r| ==> Before(r[i], r[j])
    ensures RankedResults(levels, r)
  {
  }

  // A start the graph does not know offers nothing.
  lemma UnknownBeam(log: seq<Edge>, start: Uuid, width: nat, k: nat, t: Edge -> real)
    requires forall e :: 0 <= e < |log| ==> log[e].source != start
    ensures BeamRun(log, start, width, k, t, [[(start, 1.0)]]) && RankedResults([[(start, 1.0)]], [])
  {
    var levels: seq<seq<Entry>> := [[(start, 1.0)]];
    assert forall c :: !Candidate(log, Seen(levels), levels[0], t, c);
  }

  // ---- Reading the score table ---------------------------------------------------------------

  function RankLe(): (Entry, Entry) -> bool {
    (a: Entry, b: Entry) => a.1 > b.1 || (a.1 == b.1 && a.0 <= b.0)
  }

  ghost predicate InTable(nodes: seq<Uuid>, scores: map<nat, real>, c: Entry) {
    exists v :: v in scores && v < |nodes| && nodes[v] == c.0 && scores[v] == c.1
  }

  // The table is read in whatever order the hash map yields, then sorted.
  method RankTable(nodes: seq<Uuid>, scores: map<nat, real>) returns (r: seq<Entry>)
    requires Injective(nodes) && forall v :: v in scores ==> v < |nodes|
    ensures forall c :: c in r <==> InTable(nodes, scores, c)
    ensures forall i, j :: 0 <= i < j < |r| ==> Before(r[i], r[j])
  {
    var entries: seq<Entry> := [];
    var left := scores.Keys;
    while left != {}
      invariant left <= scores.Keys
      invariant forall c :: c in entries <==> exists v :: v in scores && v !in left && nodes[v] == c.0 && scores[v] == c.1
      invariant forall i, j :: 0 <= i < j < |entries| ==> entries[i].0 != entries[j].0
    {
      var v :| v in left;
      forall i | 0 <= i < |entries| ensures entries[i].0 != nodes[v] {
        assert entries[i] in entries;
      }
      ghost var before := entries;
      entries := entries + [(nodes[v], scores[v])];
      left := left - {v};
      assert forall c :: c in entries <==> c in before || c == (nodes[v], scores[v]);
    }
    r := Sort(entries, RankLe());
    SortIsStable(entries, RankLe());
    forall c ensures c in r <==> c in entries {
      SortMember(entries, RankLe(), c);
    }
    DistinctAfterSort(entries, r);
  }

  lemma DistinctAfterSort(a: seq<Entry>, r: seq<Entry>)
    requires multiset(a) == multiset(r) && SortedBy(r, RankLe())
    requires forall i, j :: 0 <= i < j < |a| ==> a[i].0 != a[j].0
    ensures forall i, j :: 0 <= i < j < |r| ==> Before(r[i], r[j])
  {
    RearrangedDistinct(a, r);
    forall i, j | 0 <= i < j < |r| ensures Before(r[i], r[j]) {
      assert RankLe()(r[i], r[j]);
      assert r[i] in multiset(a) && r[j] in multiset(a);
      assert r[i] in a && r[j] in a;
      assert r[i] != r[j];
    }
  }
}
