/** How a search weighs one edge: by its type against the intent, its weight and its age. The
    exponential and the confidence formula are parameters; what is asked of them is that the first
    grows and the second fades with age and lasts longer with a longer half-life. */
module EdgeScores {
  import opened Common
  import opened TemporalPaths
  import opened BreadthFirst
  import opened BeamLevels
  import opened WideBeam

  function EdgeTypeAlignment(edgeType: EdgeType, intent: string): real {
    match edgeType
    case Temporal => if intent == "recall" then 0.9 else 0.3
    case Causal => if intent == "action" then 0.9 else if intent == "code" then 0.6 else 0.3
    case Entity => if intent == "question" then 0.8 else if intent == "code" then 0.7 else 0.3
    case Semantic => if intent == "recall" || intent == "question" then 0.7 else 0.3
    case Supersedes => 0.3
  }

  // What a search scores edges by: the intent, the clock, and the two exponentials
  // (`confidence` takes an age in days and a half-life).
  datatype Scoring = Scoring(intent: string, now: int, exp: real -> real, confidence: (real, real) -> real) {
    function Transition(meta: Option<Edge>, arcWeight: real): real {
      var typeAlignment := match meta case Some(m) => EdgeTypeAlignment(m.edgeType, intent) case None => 0.3;
      var edgeWeight := match meta case Some(m) => m.weight case None => arcWeight;
      var temporalConfidence := match meta
        case None => 1.0
        case Some(m) =>
          var ageDays := (now - m.validAt) as real / 86400.0;
          confidence(ageDays, match m.halfLife case Some(h) => h case None => 90.0);
      exp(0.4 * typeAlignment + 0.4 * edgeWeight + 0.2 * temporalConfidence)
    }

    // The score of an edge that has its metadata.
    function OfEdge(): Edge -> real {
      (e: Edge) => Transition(Some(e), e.weight)
    }
  }

  // An exponential is positive, so every transition score is.
  ghost predicate PositiveExp(s: Scoring) {
    forall x :: s.exp(x) > 0.0
  }

  lemma TransitionsArePositive(s: Scoring)
    requires PositiveExp(s)
    ensures NonNegative(s.OfEdge()) && forall e :: s.OfEdge()(e) > 0.0
  {
  }

  // ---- What makes an edge score higher ---------------------------------------------------------

  ghost predicate Growing(s: Scoring) {
    forall x, y :: x < y ==> s.exp(x) < s.exp(y)
  }

  ghost predicate Fading(s: Scoring) {
    forall a, b, h :: h > 0.0 && a < b ==> s.confidence(b, h) < s.confidence(a, h)
  }

  ghost predicate Lasting(s: Scoring) {
    forall a, g, h :: a > 0.0 && 0.0 < g < h ==> s.confidence(a, g) < s.confidence(a, h)
  }

  ghost predicate Halving(s: Scoring) {
    forall h :: h > 0.0 ==> s.confidence(h, h) == 0.5
  }

  // Half-lives are positive; an edge that states none has one of 90 days.
  ghost predicate Decays(e: Edge) {
    e.halfLife.Some? ==> e.halfLife.value > 0.0
  }

  ghost function Confidence(s: Scoring, e: Edge): real {
    s.confidence((s.now - e.validAt) as real / 86400.0, if e.halfLife.Some? then e.halfLife.value else 90.0)
  }

  // Scores compare as their exponents do.
  lemma Compare(s: Scoring, a: Edge, b: Edge)
    requires Growing(s)
    ensures s.OfEdge()(a) > s.OfEdge()(b) <==>
            0.4 * EdgeTypeAlignment(a.edgeType, s.intent) + 0.4 * a.weight + 0.2 * Confidence(s, a) >
            0.4 * EdgeTypeAlignment(b.edgeType, s.intent) + 0.4 * b.weight + 0.2 * Confidence(s, b)
  {
  }

  // Of two edges that differ only in when they became valid, the newer scores higher.
  lemma NewerScoresHigher(s: Scoring, e: Edge, validAt: int)
    requires Growing(s) && Fading(s) && Decays(e)
    ensures s.OfEdge()(e.(validAt := validAt)) > s.OfEdge()(e) <==> validAt > e.validAt
  {
    var other, h := e.(validAt := validAt), if e.halfLife.Some? then e.halfLife.value else 90.0;
    var age, age' := (s.now - e.validAt) as real / 86400.0, (s.now - validAt) as real / 86400.0;
    Compare(s, other, e);
    assert age' < age <==> validAt > e.validAt;
    assert age < age' <==> validAt < e.validAt;
    assert Confidence(s, other) == s.confidence(age', h) && Confidence(s, e) == s.confidence(age, h);
    assert age' < age ==> s.confidence(age, h) < s.confidence(age', h);
    assert age < age' ==> s.confidence(age', h) < s.confidence(age, h);
  }

  // Of two that differ only in weight, the heavier does.
  lemma HeavierScoresHigher(s: Scoring, e: Edge, weight: real)
    requires Growing(s)
    ensures s.OfEdge()(e.(weight := weight)) > s.OfEdge()(e) <==> weight > e.weight
  {
    Compare(s, e.(weight := weight), e);
  }

  // Of two past edges that differ only in their half-life, the one with the longer half-life does.
  lemma LastingScoresHigher(s: Scoring, e: Edge, halfLife: real)
    requires Growing(s) && Lasting(s) && e.halfLife.Some? && Decays(e) && halfLife > 0.0 && e.validAt < s.now
    ensures s.OfEdge()(e.(halfLife := Some(halfLife))) > s.OfEdge()(e) <==> halfLife > e.halfLife.value
  {
    var other := e.(halfLife := Some(halfLife));
    var age := (s.now - e.validAt) as real / 86400.0;
    assert age > 0.0;
    Compare(s, other, e);
    assert Confidence(s, other) == s.confidence(age, halfLife) && Confidence(s, e) == s.confidence(age, e.halfLife.value);
  }

  // The types that an intent favours, the most favoured first; all others rank behind them.
  function Favoured(intent: string): seq<EdgeType> {
    if intent == "recall" then [Temporal, Semantic]
    else if intent == "action" then [Causal]
    else if intent == "question" then [Entity, Semantic]
    else if intent == "code" then [Entity, Causal]
    else []
  }

  function Place(types: seq<EdgeType>, x: EdgeType): nat {
    if types == [] || types[0] == x then 0 else 1 + Place(types[1..], x)
  }

  // Of two that differ only in type, the one whose type the intent favours more does.
  lemma FavouredScoresHigher(s: Scoring, e: Edge, edgeType: EdgeType)
    requires Growing(s)
    ensures s.OfEdge()(e.(edgeType := edgeType)) > s.OfEdge()(e) <==>
            Place(Favoured(s.intent), edgeType) < Place(Favoured(s.intent), e.edgeType)
  {
    Compare(s, e.(edgeType := edgeType), e);
    PlaceIs(s.intent, edgeType);
    PlaceIs(s.intent, e.edgeType);
  }

  lemma PlaceIs(intent: string, x: EdgeType)
    ensures var types := Favoured(intent);
      Place(types, x) == if |types| > 0 && types[0] == x then 0 else if |types| > 1 && types[1] == x then 1 else |types|
  {
    var types := Favoured(intent);
    if types != [] {
      assert Place(types[1..], x) == if |types| == 1 || types[1] == x then 0 else 1 + Place(types[1..][1..], x);
    }
  }

  // A match of type counts as much as the same amount of weight, and a gain in confidence half as
  // much: what one edge has more in one it may have less in the other.
  lemma FactorsTradeOff(s: Scoring, a: Edge, b: Edge)
    requires Growing(s)
    ensures s.OfEdge()(a) > s.OfEdge()(b) <==>
            EdgeTypeAlignment(a.edgeType, s.intent) + a.weight + Confidence(s, a) / 2.0 >
            EdgeTypeAlignment(b.edgeType, s.intent) + b.weight + Confidence(s, b) / 2.0
  {
    Compare(s, a, b);
  }

  // Edges as old as their half-life in days score alike, whatever that is.
  lemma AgedAlike(s: Scoring, e: Edge, f: Edge, days: nat, days': nat)
    requires Halving(s) && days > 0 && days' > 0
    requires e.halfLife == Some(days as real) && s.now - e.validAt == 86400 * days
    requires f == e.(halfLife := Some(days' as real), validAt := s.now - 86400 * days')
    ensures s.OfEdge()(e) == s.OfEdge()(f)
  {
    assert (86400 * days) as real / 86400.0 == days as real;
    assert (86400 * days') as real / 86400.0 == days' as real;
  }

  // ---- What a beam makes of it -----------------------------------------------------------------

  // The first level starts with the best way out of the source, whatever the width.
  lemma FirstStepIsBest(log: seq<Edge>, start: Uuid, width: nat, k: nat, t: Edge -> real, levels: seq<seq<Entry>>, e: nat)
    requires BeamRun(log, start, width, k, t, levels) && width > 0 && k > 0
    requires e < |log| && Live(log[e]) && log[e].source == start && log[e].target != start
    ensures |levels| > 1 && levels[1] != [] && t(log[e]) <= levels[1][0].1
    ensures WayOut(log, start, t, levels[1][0])
    ensures width == 1 ==> |levels[1]| == 1
  {
    hide BeamRun, Level, Candidate, Offers, WayOut;
    var source: seq<Entry>, first := [(start, 1.0)], if |levels| > 1 then levels[1] else [];
    FirstLevel(log, start, width, k, t, levels);
    WayOutIsOffered(log, start, t, source, e);
    BestIsKept(log, {start}, source, width, t, first, (log[e].target, t(log[e])));
    OfferIsWayOut(log, start, t, source, first[0]);
  }

  // No candidate for a level is better than the first that is kept.
  lemma BestIsKept(log: seq<Edge>, seen: set<Uuid>, beam: seq<Entry>, width: nat, t: Edge -> real, next: seq<Entry>, c: Entry)
    requires Level(log, seen, beam, width, t, next) && Candidate(log, seen, beam, t, c) && width > 0
    ensures 0 < |next| <= width && c.1 <= next[0].1 && Candidate(log, seen, beam, t, next[0])
  {
    hide Candidate;
    if Listed(next, c.0) {
      var i :| 0 <= i < |next| && next[i].0 == c.0;
      assert c.1 <= next[i].1;
    } else {
      assert LeftBehind(next, width, c);
    }
  }

  lemma WayOutIsOffered(log: seq<Edge>, start: Uuid, t: Edge -> real, source: seq<Entry>, e: nat)
    requires source == [(start, 1.0)]
    requires e < |log| && Live(log[e]) && log[e].source == start && log[e].target != start
    ensures Candidate(log, {start}, source, t, (log[e].target, t(log[e])))
  {
    assert Offers({start}, source[0], log[e], t, (log[e].target, t(log[e])));
  }

  lemma OfferIsWayOut(log: seq<Edge>, start: Uuid, t: Edge -> real, source: seq<Entry>, c: Entry)
    requires source == [(start, 1.0)] && Candidate(log, {start}, source, t, c)
    ensures WayOut(log, start, t, c)
  {
    var i, e :| 0 <= i < |source| && 0 <= e < |log| && Offers({start}, source[i], log[e], t, c);
    assert log[e].source == start && t(log[e]) == c.1;
  }

  lemma FirstLevel(log: seq<Edge>, start: Uuid, width: nat, k: nat, t: Edge -> real, levels: seq<seq<Entry>>)
    requires BeamRun(log, start, width, k, t, levels) && k > 0
    ensures Level(log, {start}, [(start, 1.0)], width, t, if |levels| > 1 then levels[1] else [])
  {
    hide Level;
    var source := [(start, 1.0)];
    assert levels[..1] == [source] && Seen([source][..0]) == {};
    assert forall id :: Listed(source, id) <==> id == source[0].0;
    assert Seen([source]) == {start};
    if |levels| == 1 {
      assert levels == [source];
    }
  }

  // `c` is reached by a live edge out of the source, at that edge's score.
  ghost predicate WayOut(log: seq<Edge>, start: Uuid, t: Edge -> real, c: Entry) {
    exists e :: 0 <= e < |log| && Live(log[e]) && log[e].source == start && log[e].target == c.0 && t(log[e]) == c.1
  }

  // A beam of width 1 that meets two edges alike but for their age follows the newer one: it does
  // not step to a node that only the older one leads to. Likewise for the lighter of two weights
  // and the less favoured of two types.
  lemma WorseEdgeIsDropped(log: seq<Edge>, start: Uuid, k: nat, s: Scoring, levels: seq<seq<Entry>>, better: nat, worse: nat)
    requires BeamRun(log, start, 1, k, s.OfEdge(), levels) && k > 0 && Growing(s)
    requires better < |log| && Live(log[better]) && log[better].source == start && log[better].target != start
    requires worse < |log| && log[worse].source == start
    requires forall e :: 0 <= e < |log| && Live(log[e]) && log[e].source == start && log[e].target == log[worse].target ==> e == worse
    requires var a, b := log[better], log[worse].(id := log[better].id, target := log[better].target);
      || (Fading(s) && Decays(b) && a == b.(validAt := a.validAt) && a.validAt > b.validAt)
      || (a == b.(weight := a.weight) && a.weight > b.weight)
      || (a == b.(edgeType := a.edgeType) && Place(Favoured(s.intent), a.edgeType) < Place(Favoured(s.intent), b.edgeType))
    ensures |levels| > 1 && |levels[1]| == 1 && levels[1][0].0 != log[worse].target
  {
    hide Scoring.Transition, BeamRun;
    var a, b := log[better], log[worse].(id := log[better].id, target := log[better].target);
    FirstStepIsBest(log, start, 1, k, s.OfEdge(), levels, better);
    NewerScoresHigherIf(s, b, a.validAt);
    HeavierScoresHigher(s, b, a.weight);
    FavouredScoresHigher(s, b, a.edgeType);
    SameScore(s, log[worse], b);
  }

  lemma NewerScoresHigherIf(s: Scoring, e: Edge, validAt: int)
    requires Growing(s)
    ensures Fading(s) && Decays(e) ==> (s.OfEdge()(e.(validAt := validAt)) > s.OfEdge()(e) <==> validAt > e.validAt)
  {
    if Fading(s) && Decays(e) {
      NewerScoresHigher(s, e, validAt);
    }
  }

  lemma SameScore(s: Scoring, e: Edge, f: Edge)
    requires f == e.(id := f.id, target := f.target)
    ensures s.OfEdge()(e) == s.OfEdge()(f)
  {
  }
}
