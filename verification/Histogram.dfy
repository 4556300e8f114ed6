/** The latency histogram: cumulative buckets of atomic counters, alone and under any interleaving
    of observers with a scraper. Atomic steps are sequentially consistent. */
module Histogram {

  // The counters. `counts` has one entry per boundary and a last one for +Inf.
  datatype Counters = Counters(counts: seq<nat>, sum: nat, total: nat)

  // The microseconds that `value` seconds add: the cast drops the fraction and saturates at 0.
  function Micros(value: real): nat {
    if value <= 0.0 then 0 else (value * 1000000.0).Floor
  }

  function AtMost(values: seq<real>, boundary: real): nat {
    if values == [] then 0
    else AtMost(values[..|values| - 1], boundary) + if values[|values| - 1] <= boundary then 1 else 0
  }

  function MicroSum(values: seq<real>): nat {
    if values == [] then 0 else MicroSum(values[..|values| - 1]) + Micros(values[|values| - 1])
  }

  // The counters after `values` have been observed to the end.
  ghost predicate Tallies(boundaries: seq<real>, c: Counters, values: seq<real>) {
    && |c.counts| == |boundaries| + 1
    && (forall i :: 0 <= i < |boundaries| ==> c.counts[i] == AtMost(values, boundaries[i]))
    && c.counts[|boundaries|] == |values| && c.total == |values| && c.sum == MicroSum(values)
  }

  lemma {:induction false} AtMostMonotone(values: seq<real>, a: real, b: real)
    requires a <= b
    ensures AtMost(values, a) <= AtMost(values, b) <= |values|
  {
    if values != [] {
      AtMostMonotone(values[..|values| - 1], a, b);
    }
  }

  // Buckets grow with their boundaries and end in the number of observations.
  lemma BucketsCumulate(boundaries: seq<real>, c: Counters, values: seq<real>, i: nat, j: nat)
    requires Tallies(boundaries, c, values) && forall m, n :: 0 <= m < n < |boundaries| ==> boundaries[m] <= boundaries[n]
    requires i <= j <= |boundaries|
    ensures c.counts[i] <= c.counts[j] <= c.total
  {
    if i < |boundaries| {
      AtMostMonotone(values, boundaries[i], if j < |boundaries| then boundaries[j] else boundaries[i]);
    }
    if j < |boundaries| {
      AtMostMonotone(values, boundaries[j], boundaries[j]);
    }
  }

  function Sum(values: seq<real>): real {
    if values == [] then 0.0 else Sum(values[..|values| - 1]) + values[|values| - 1]
  }

  // The integer sum never exceeds the true one and falls short by less than a microsecond for
  // each observation.
  lemma {:induction false} SumFallsShort(values: seq<real>)
    requires forall i :: 0 <= i < |values| ==> values[i] >= 0.0
    ensures MicroSum(values) as real <= Sum(values) * 1000000.0
    ensures values == [] || Sum(values) * 1000000.0 < (MicroSum(values) + |values|) as real
    ensures values == [] ==> MicroSum(values) == 0
  {
    if values != [] {
      SumFallsShort(values[..|values| - 1]);
    }
  }

  class HistogramBuckets {
    const boundaries: seq<real>
    const counts: array<nat>
    var sum: nat
    var total: nat
    ghost var observed: seq<real>

    ghost function State(): Counters
      reads this, counts
    {
      Counters(counts[..], sum, total)
    }

    ghost predicate Valid()
      reads this, counts
    {
      Tallies(boundaries, State(), observed)
    }

    constructor (boundaries: seq<real>)
      ensures Valid() && fresh(counts) && this.boundaries == boundaries && observed == []
    {
      this.boundaries := boundaries;
      counts := new nat[|boundaries| + 1](_ => 0);
      sum, total := 0, 0;
      observed := [];
    }

    method Observe(value: real)
      requires Valid()
      modifies this, counts
      ensures Valid() && observed == old(observed) + [value]
    {
      total := total + 1;
      sum := sum + Micros(value);
      var k := |boundaries|;
      for i := 0 to k
        invariant counts[k] == old(counts[k])
        invariant sum == old(sum) + Micros(value) && total == old(total) + 1 && observed == old(observed)
        invariant forall m :: 0 <= m < i ==> counts[m] == old(counts[m]) + if value <= boundaries[m] then 1 else 0
        invariant forall m :: i <= m < k ==> counts[m] == old(counts[m])
      {
        if value <= boundaries[i] {
          counts[i] := counts[i] + 1;
        }
      }
      counts[k] := counts[k] + 1;
      observed := observed + [value];
      assert observed[..|observed| - 1] == old(observed);
    }
  }

  // ---- Any number of observers -----------------------------------------------------------------

  // Where an observer is: not observing; past the total; past the sum, with `next` the bucket it
  // looks at next.
  datatype Observer = Idle | Counted(value: real) | Bucketing(value: real, next: nat)

  // A scraper reads every bucket in turn, +Inf last, then the sum, then the total.
  datatype Scrape = Scrape(buckets: seq<nat>, sum: seq<nat>, total: seq<nat>)

  // `finished` is the history of the values whose observation has ended.
  datatype State = State(c: Counters, observers: seq<Observer>, finished: seq<real>, scrape: Scrape)

  datatype Step =
    | Begin(who: nat, value: real)
    | AddSum(who: nat)
    | Bucket(who: nat)
    | Finish(who: nat)
    | Read

  predicate Enabled(k: nat, s: State, step: Step)
  {
    |s.c.counts| == k + 1 &&
    match step
    case Begin(who, _) => who < |s.observers| && s.observers[who].Idle?
    case AddSum(who) => who < |s.observers| && s.observers[who].Counted?
    case Bucket(who) => who < |s.observers| && s.observers[who].Bucketing? && s.observers[who].next < k
    case Finish(who) => who < |s.observers| && s.observers[who].Bucketing? && s.observers[who].next == k
    case Read => |s.scrape.total| == 0
  }

  function ReadNext(k: nat, c: Counters, r: Scrape): Scrape
    requires |c.counts| == k + 1
  {
    if |r.buckets| <= k then r.(buckets := r.buckets + [c.counts[|r.buckets|]])
    else if r.sum == [] then r.(sum := [c.sum])
    else r.(total := [c.total])
  }

  function Next(boundaries: seq<real>, s: State, step: Step): State
    requires Enabled(|boundaries|, s, step)
  {
    var c, obs := s.c, s.observers;
    match step
    case Begin(who, value) =>
      s.(c := c.(total := c.total + 1), observers := obs[who := Counted(value)])
    case AddSum(who) =>
      var v := obs[who].value;
      s.(c := c.(sum := c.sum + Micros(v)), observers := obs[who := Bucketing(v, 0)])
    case Bucket(who) =>
      var v, i := obs[who].value, obs[who].next;
      s.(c := if v <= boundaries[i] then c.(counts := c.counts[i := c.counts[i] + 1]) else c,
         observers := obs[who := Bucketing(v, i + 1)])
    case Finish(who) =>
      var k := |boundaries|;
      s.(c := c.(counts := c.counts[k := c.counts[k] + 1]), observers := obs[who := Idle],
         finished := s.finished + [obs[who].value])
    case Read => s.(scrape := ReadNext(|boundaries|, c, s.scrape))
  }

  // What an observation under way has already added: to the total, to the sum, to bucket `i`.
  function Open(o: Observer): nat {
    if o.Idle? then 0 else 1
  }

  function Summed(o: Observer): nat {
    if o.Bucketing? then Micros(o.value) else 0
  }

  function Passed(boundaries: seq<real>, i: nat, o: Observer): nat
    requires i < |boundaries|
  {
    if o.Bucketing? && o.next > i && o.value <= boundaries[i] then 1 else 0
  }

  function Over(obs: seq<Observer>, f: Observer -> nat): nat {
    if obs == [] then 0 else Over(obs[..|obs| - 1], f) + f(obs[|obs| - 1])
  }

  lemma {:induction false} OverUpdate(obs: seq<Observer>, f: Observer -> nat, who: nat, o: Observer)
    requires who < |obs|
    ensures Over(obs[who := o], f) == Over(obs, f) - f(obs[who]) + f(o)
  {
    var n := |obs| - 1;
    if who < n {
      OverUpdate(obs[..n], f, who, o);
      assert obs[who := o][..n] == obs[..n][who := o];
    } else {
      assert obs[who := o][..n] == obs[..n];
    }
  }

  lemma {:induction false} OverNothing(obs: seq<Observer>, f: Observer -> nat)
    requires forall i :: 0 <= i < |obs| ==> f(obs[i]) == 0
    ensures Over(obs, f) == 0
  {
    if obs != [] {
      OverNothing(obs[..|obs| - 1], f);
    }
  }

  function OpenOf(): Observer -> nat {
    o => Open(o)
  }

  function SummedOf(): Observer -> nat {
    o => Summed(o)
  }

  function PassedOf(boundaries: seq<real>, i: nat): Observer -> nat
    requires i < |boundaries|
  {
    o => Passed(boundaries, i, o)
  }

  ghost predicate BucketExact(boundaries: seq<real>, s: State, i: nat)
    requires i < |boundaries| && |s.c.counts| == |boundaries| + 1
  {
    s.c.counts[i] == AtMost(s.finished, boundaries[i]) + Over(s.observers, PassedOf(boundaries, i))
  }

  // Every counter is exact for what has been added so far.
  ghost predicate Exact(boundaries: seq<real>, s: State) {
    && |s.c.counts| == |boundaries| + 1
    && s.c.total == |s.finished| + Over(s.observers, OpenOf())
    && s.c.sum == MicroSum(s.finished) + Over(s.observers, SummedOf())
    && s.c.counts[|boundaries|] == |s.finished|
    && (forall i :: 0 <= i < |boundaries| ==> BucketExact(boundaries, s, i))
    && (forall w :: 0 <= w < |s.observers| && s.observers[w].Bucketing? ==> s.observers[w].next <= |boundaries|)
  }

  // What a scraper has read of a bucket is no more than the total will show.
  ghost predicate ScrapeBounded(boundaries: seq<real>, s: State) {
    && |s.scrape.buckets| <= |boundaries| + 1
    && (forall i :: 0 <= i < |s.scrape.buckets| ==> s.scrape.buckets[i] <= s.c.total)
    && (s.scrape.total != [] ==>
      (|s.scrape.buckets| == |boundaries| + 1
       && forall i :: 0 <= i < |s.scrape.buckets| ==> s.scrape.buckets[i] <= s.scrape.total[0]))
  }

  ghost predicate Inv(boundaries: seq<real>, s: State) {
    Exact(boundaries, s) && ScrapeBounded(boundaries, s)
  }

  ghost predicate Initial(boundaries: seq<real>, s: State) {
    && s.c == Counters(seq(|boundaries| + 1, _ => 0), 0, 0)
    && (forall w :: 0 <= w < |s.observers| ==> s.observers[w].Idle?)
    && s.finished == [] && s.scrape == Scrape([], [], [])
  }

  lemma InitialInv(boundaries: seq<real>, s: State)
    requires Initial(boundaries, s)
    ensures Inv(boundaries, s)
  {
    OverNothing(s.observers, OpenOf());
    OverNothing(s.observers, SummedOf());
    forall i | 0 <= i < |boundaries| ensures BucketExact(boundaries, s, i) {
      OverNothing(s.observers, PassedOf(boundaries, i));
    }
  }

  lemma TotalsKept(boundaries: seq<real>, s: State, step: Step)
    requires Exact(boundaries, s) && Enabled(|boundaries|, s, step)
    ensures var t := Next(boundaries, s, step);
      && t.c.total == |t.finished| + Over(t.observers, OpenOf())
      && t.c.sum == MicroSum(t.finished) + Over(t.observers, SummedOf())
      && |t.c.counts| == |boundaries| + 1 && t.c.counts[|boundaries|] == |t.finished|
      && forall w :: 0 <= w < |t.observers| && t.observers[w].Bucketing? ==> t.observers[w].next <= |boundaries|
  {
    hide BucketExact, Over, MicroSum, Micros;
    var t := Next(boundaries, s, step);
    if !step.Read? {
      OverUpdate(s.observers, OpenOf(), step.who, t.observers[step.who]);
      OverUpdate(s.observers, SummedOf(), step.who, t.observers[step.who]);
      assert t.observers == s.observers[step.who := t.observers[step.who]];
    }
    if step.Finish? {
      MicroSumLast(s.finished, s.observers[step.who].value);
    }
  }

  lemma MicroSumLast(values: seq<real>, v: real)
    ensures MicroSum(values + [v]) == MicroSum(values) + Micros(v)
  {
    hide Micros;
    assert (values + [v])[..|values|] == values;
  }

  lemma BucketKept(boundaries: seq<real>, s: State, step: Step, i: nat)
    requires Exact(boundaries, s) && Enabled(|boundaries|, s, step) && i < |boundaries|
    ensures BucketExact(boundaries, Next(boundaries, s, step), i)
  {
    hide Over;
    var t := Next(boundaries, s, step);
    assert BucketExact(boundaries, s, i);
    if !step.Read? {
      OverUpdate(s.observers, PassedOf(boundaries, i), step.who, t.observers[step.who]);
      assert t.observers == s.observers[step.who := t.observers[step.who]];
    }
    if step.Finish? {
      assert t.finished[..|t.finished| - 1] == s.finished;
    }
  }

  lemma {:induction false} OverAtMost(obs: seq<Observer>, f: Observer -> nat, g: Observer -> nat)
    requires forall o :: f(o) <= g(o)
    ensures Over(obs, f) <= Over(obs, g)
  {
    if obs != [] {
      OverAtMost(obs[..|obs| - 1], f, g);
    }
  }

  // At every moment no bucket is ahead of the total.
  lemma BucketsBelowTotal(boundaries: seq<real>, s: State, i: nat)
    requires Exact(boundaries, s) && i <= |boundaries|
    ensures s.c.counts[i] <= s.c.total
  {
    if i < |boundaries| {
      assert BucketExact(boundaries, s, i);
      OverAtMost(s.observers, PassedOf(boundaries, i), OpenOf());
      AtMostMonotone(s.finished, boundaries[i], boundaries[i]);
    }
  }

  lemma InvKept(boundaries: seq<real>, s: State, step: Step)
    requires Inv(boundaries, s) && Enabled(|boundaries|, s, step)
    ensures Inv(boundaries, Next(boundaries, s, step))
  {
    hide BucketExact, Over, Micros;
    TotalsKept(boundaries, s, step);
    forall i | 0 <= i < |boundaries| ensures BucketExact(boundaries, Next(boundaries, s, step), i) {
      BucketKept(boundaries, s, step, i);
    }
    if step.Read? && |s.scrape.buckets| <= |boundaries| {
      BucketsBelowTotal(boundaries, s, |s.scrape.buckets|);
    }
  }

  // A run: every state follows from the one before by a step of somebody.
  ghost predicate Run(boundaries: seq<real>, states: seq<State>, steps: seq<Step>) {
    && |states| == |steps| + 1 && Initial(boundaries, states[0])
    && forall n :: 0 <= n < |steps| ==>
         Enabled(|boundaries|, states[n], steps[n]) && states[n + 1] == Next(boundaries, states[n], steps[n])
  }

  lemma {:induction false} RunInv(boundaries: seq<real>, states: seq<State>, steps: seq<Step>, n: nat)
    requires Run(boundaries, states, steps) && n < |states|
    ensures Inv(boundaries, states[n])
  {
    hide Inv, Next, Enabled;
    if n == 0 {
      InitialInv(boundaries, states[0]);
    } else {
      RunInv(boundaries, states, steps, n - 1);
      InvKept(boundaries, states[n - 1], steps[n - 1]);
    }
  }

  // At every moment of every run the total exceeds the +Inf bucket by exactly the observers that
  // are between these two increments.
  lemma TotalAheadByObservers(boundaries: seq<real>, states: seq<State>, steps: seq<Step>, n: nat)
    requires Run(boundaries, states, steps) && n < |states|
    ensures |states[n].c.counts| == |boundaries| + 1
    ensures states[n].c.total - states[n].c.counts[|boundaries|] == Over(states[n].observers, OpenOf())
  {
    RunInv(boundaries, states, steps, n);
  }

  // A scrape that ran beside the observers never shows a bucket, +Inf included, above the count.
  lemma ScrapeNeverAhead(boundaries: seq<real>, states: seq<State>, steps: seq<Step>, n: nat, i: nat)
    requires Run(boundaries, states, steps) && n < |states| && states[n].scrape.total != [] && i <= |boundaries|
    ensures |states[n].scrape.buckets| == |boundaries| + 1
    ensures states[n].scrape.buckets[i] <= states[n].scrape.total[0]
  {
    RunInv(boundaries, states, steps, n);
  }

  // The scrape shows the sum as it stood after the last bucket was read, or has not read it yet.
  lemma {:induction false} SumWasRead(boundaries: seq<real>, states: seq<State>, steps: seq<Step>, n: nat) returns (p: nat)
    requires Run(boundaries, states, steps) && n < |states| && states[n].scrape.sum != []
    ensures p < n && steps[p] == Read && states[n].scrape.sum == [states[p].c.sum]
    ensures |states[p].scrape.buckets| == |boundaries| + 1 && states[p].scrape.sum == []
  {
    hide Enabled;
    RunLength(boundaries, states, steps);
    var before := states[n - 1];
    RunInv(boundaries, states, steps, n - 1);
    assert states[n] == Next(boundaries, before, steps[n - 1]) && Enabled(|boundaries|, before, steps[n - 1]);
    NextScrape(boundaries, before, steps[n - 1]);
    hide Run, Next, Inv;
    if before.scrape.sum == [] {
      p := n - 1;
    } else {
      p := SumWasRead(boundaries, states, steps, n - 1);
    }
  }

  lemma NextScrape(boundaries: seq<real>, s: State, step: Step)
    requires Inv(boundaries, s) && Enabled(|boundaries|, s, step)
    ensures var next := Next(boundaries, s, step).scrape;
      if !step.Read? then next == s.scrape
      else if |s.scrape.buckets| <= |boundaries| then next.sum == s.scrape.sum && next.total == s.scrape.total
      else if s.scrape.sum == [] then next == s.scrape.(sum := [s.c.sum])
      else next == s.scrape.(total := [s.c.total])
    ensures |s.scrape.buckets| <= |boundaries| + 1 && (step.Read? ==> s.scrape.total == [])
  {
    hide BucketExact, Over, Micros, Exact;
  }

  // A finished scrape has read the buckets, then the sum, then the count, and shows the sum and the
  // count as they stood at those moments.
  lemma {:induction false} ReadInTurn(boundaries: seq<real>, states: seq<State>, steps: seq<Step>, n: nat) returns (p: nat, q: nat)
    requires Run(boundaries, states, steps) && n < |states| && states[n].scrape.total != []
    ensures p < q < n && steps[p] == steps[q] == Read
    ensures |states[p].scrape.buckets| == |boundaries| + 1 && states[p].scrape.sum == []
    ensures states[n].scrape.sum == [states[p].c.sum] && states[n].scrape.total == [states[q].c.total]
  {
    hide Enabled;
    RunLength(boundaries, states, steps);
    var before := states[n - 1];
    RunInv(boundaries, states, steps, n - 1);
    assert states[n] == Next(boundaries, before, steps[n - 1]) && Enabled(|boundaries|, before, steps[n - 1]);
    NextScrape(boundaries, before, steps[n - 1]);
    hide Run, Next, Inv;
    if before.scrape.total == [] {
      p := SumWasRead(boundaries, states, steps, n - 1);
      q := n - 1;
    } else {
      p, q := ReadInTurn(boundaries, states, steps, n - 1);
    }
  }

  ghost predicate Quiet(s: State) {
    forall w :: 0 <= w < |s.observers| ==> s.observers[w].Idle?
  }

  // When nobody is observing, the counters are those of the finished observations made one after
  // the other.
  lemma QuietIsExact(boundaries: seq<real>, states: seq<State>, steps: seq<Step>, n: nat)
    requires Run(boundaries, states, steps) && n < |states|
    requires Quiet(states[n])
    ensures Tallies(boundaries, states[n].c, states[n].finished)
  {
    RunInv(boundaries, states, steps, n);
    var s := states[n];
    OverNothing(s.observers, OpenOf());
    OverNothing(s.observers, SummedOf());
    forall i | 0 <= i < |boundaries| ensures s.c.counts[i] == AtMost(s.finished, boundaries[i]) {
      assert BucketExact(boundaries, s, i);
      OverNothing(s.observers, PassedOf(boundaries, i));
    }
  }

  // ---- When a bucket stands above a later one ----------------------------------------------------

  // Of the observers under way: those that bucket `i` has counted and bucket `j` has not, and the
  // other way round.
  function Ahead(boundaries: seq<real>, i: nat, j: nat, o: Observer): nat
    requires i < j < |boundaries|
  {
    if o.Bucketing? && i < o.next <= j && o.value <= boundaries[i] then 1 else 0
  }

  function Behind(boundaries: seq<real>, i: nat, j: nat, o: Observer): nat
    requires i < j < |boundaries|
  {
    if o.Bucketing? && j < o.next && boundaries[i] < o.value <= boundaries[j] then 1 else 0
  }

  function AheadOf(boundaries: seq<real>, i: nat, j: nat): Observer -> nat
    requires i < j < |boundaries|
  {
    o => Ahead(boundaries, i, j, o)
  }

  function BehindOf(boundaries: seq<real>, i: nat, j: nat): Observer -> nat
    requires i < j < |boundaries|
  {
    o => Behind(boundaries, i, j, o)
  }

  lemma {:induction false} AheadAndBehind(boundaries: seq<real>, obs: seq<Observer>, i: nat, j: nat)
    requires i < j < |boundaries| && boundaries[i] <= boundaries[j]
    ensures Over(obs, PassedOf(boundaries, i)) + Over(obs, BehindOf(boundaries, i, j))
         == Over(obs, PassedOf(boundaries, j)) + Over(obs, AheadOf(boundaries, i, j))
  {
    if obs != [] {
      AheadAndBehind(boundaries, obs[..|obs| - 1], i, j);
    }
  }

  // At every moment of every run a finite bucket exceeds +Inf exactly when the observers under way
  // that it has counted outnumber the finished values above its boundary.
  lemma AboveInfinityExactly(boundaries: seq<real>, states: seq<State>, steps: seq<Step>, n: nat, i: nat)
    requires Run(boundaries, states, steps) && n < |states| && i < |boundaries|
    ensures var s := states[n];
      |s.c.counts| == |boundaries| + 1 &&
      (s.c.counts[i] > s.c.counts[|boundaries|] <==>
       Over(s.observers, PassedOf(boundaries, i)) > |s.finished| - AtMost(s.finished, boundaries[i]))
  {
    RunInv(boundaries, states, steps, n);
    assert BucketExact(boundaries, states[n], i);
  }

  // And it exceeds a later finite bucket exactly when the observers between the two outnumber the
  // values between their boundaries that have been counted.
  lemma AboveBucketExactly(boundaries: seq<real>, states: seq<State>, steps: seq<Step>, n: nat, i: nat, j: nat)
    requires Run(boundaries, states, steps) && n < |states| && i < j < |boundaries| && boundaries[i] <= boundaries[j]
    ensures var s := states[n];
      |s.c.counts| == |boundaries| + 1 &&
      (s.c.counts[i] > s.c.counts[j] <==>
       Over(s.observers, AheadOf(boundaries, i, j)) >
       AtMost(s.finished, boundaries[j]) - AtMost(s.finished, boundaries[i]) + Over(s.observers, BehindOf(boundaries, i, j)))
  {
    RunInv(boundaries, states, steps, n);
    assert BucketExact(boundaries, states[n], i) && BucketExact(boundaries, states[n], j);
    AheadAndBehind(boundaries, states[n].observers, i, j);
  }

  // ---- When a scrape is cumulative ---------------------------------------------------------------

  // Step `n` is the read of bucket `i`.
  ghost predicate ReadAt(states: seq<State>, steps: seq<Step>, i: nat, n: nat) {
    n < |steps| && |states| == |steps| + 1 && steps[n].Read? && |states[n].scrape.buckets| == i
  }

  lemma ReadStep(boundaries: seq<real>, states: seq<State>, steps: seq<Step>, n: nat)
    requires Run(boundaries, states, steps) && n < |steps| && |states[n].scrape.buckets| <= |boundaries| + 1
    ensures var now, next := states[n].scrape.buckets, states[n + 1].scrape.buckets;
      |states[n].c.counts| == |boundaries| + 1
      && next == if steps[n].Read? && |now| <= |boundaries| then now + [states[n].c.counts[|now|]] else now
    ensures states[n].finished <= states[n + 1].finished
  {
  }

  // What was read stays as it was read, and finished values stay finished.
  lemma {:induction false} LaterState(boundaries: seq<real>, states: seq<State>, steps: seq<Step>, p: nat, q: nat)
    requires Run(boundaries, states, steps) && p <= q < |states|
    ensures states[p].scrape.buckets <= states[q].scrape.buckets && states[p].finished <= states[q].finished
  {
    hide Run;
    if p < q {
      LaterState(boundaries, states, steps, p, q - 1);
      ScrapeSize(boundaries, states, steps, q - 1);
      RunLength(boundaries, states, steps);
      ReadStep(boundaries, states, steps, q - 1);
    }
  }

  lemma RunLength(boundaries: seq<real>, states: seq<State>, steps: seq<Step>)
    requires Run(boundaries, states, steps)
    ensures |states| == |steps| + 1 && states[0].scrape.buckets == []
  {
  }

  // A scrape shows of each bucket what the bucket held when it was read.
  lemma ReadShows(boundaries: seq<real>, states: seq<State>, steps: seq<Step>, i: nat, p: nat, m: nat)
    requires Run(boundaries, states, steps) && ReadAt(states, steps, i, p) && i <= |boundaries| && p < m < |states|
    ensures i < |states[m].scrape.buckets| && |states[p].c.counts| == |boundaries| + 1
    ensures states[m].scrape.buckets[i] == states[p].c.counts[i]
  {
    hide Run;
    ReadStep(boundaries, states, steps, p);
    LaterState(boundaries, states, steps, p + 1, m);
  }

  lemma ScrapeSize(boundaries: seq<real>, states: seq<State>, steps: seq<Step>, n: nat)
    requires Run(boundaries, states, steps) && n < |states|
    ensures |states[n].scrape.buckets| <= |boundaries| + 1
  {
    hide Run, Exact;
    RunInv(boundaries, states, steps, n);
  }

  // Every bucket of a scrape was read at some step.
  lemma {:induction false} WasRead(boundaries: seq<real>, states: seq<State>, steps: seq<Step>, i: nat, m: nat) returns (p: nat)
    requires Run(boundaries, states, steps) && m < |states| && i < |states[m].scrape.buckets|
    ensures p < m && ReadAt(states, steps, i, p)
  {
    hide Run;
    RunLength(boundaries, states, steps);
    ScrapeSize(boundaries, states, steps, m - 1);
    ReadStep(boundaries, states, steps, m - 1);
    if i < |states[m - 1].scrape.buckets| {
      p := WasRead(boundaries, states, steps, i, m - 1);
    } else {
      p := m - 1;
    }
  }

  lemma ReadsInOrder(boundaries: seq<real>, states: seq<State>, steps: seq<Step>, i: nat, p: nat, j: nat, q: nat)
    requires Run(boundaries, states, steps) && ReadAt(states, steps, i, p) && ReadAt(states, steps, j, q) && i < j
    ensures p < q
  {
    if q <= p {
      LaterState(boundaries, states, steps, q, p);
    }
  }

  lemma {:induction false} AtMostJoin(a: seq<real>, b: seq<real>, boundary: real)
    ensures AtMost(a + b, boundary) == AtMost(a, boundary) + AtMost(b, boundary)
  {
    if b == [] {
      assert a + b == a;
    } else {
      AtMostJoin(a, b[..|b| - 1], boundary);
      assert (a + b)[..|a + b| - 1] == a + b[..|b| - 1];
    }
  }

  // The values that finish between two moments of a run.
  ghost function Between(p: State, q: State): seq<real> {
    if |p.finished| <= |q.finished| then q.finished[|p.finished|..] else []
  }

  // Bucket `i`, read at `p`, has counted more observers under way than the finished values above
  // its boundary and the ones finishing until `q` can make up for.
  ghost predicate Overtakes(boundaries: seq<real>, p: State, q: State, i: nat, j: nat)
    requires i < j <= |boundaries|
  {
    var early := Over(p.observers, PassedOf(boundaries, i));
    if j == |boundaries| then
      early > |p.finished| - AtMost(p.finished, boundaries[i]) + |Between(p, q)|
    else
      early > AtMost(p.finished, boundaries[j]) - AtMost(p.finished, boundaries[i])
            + AtMost(Between(p, q), boundaries[j]) + Over(q.observers, PassedOf(boundaries, j))
  }

  // A scrape shows bucket `i` above the later bucket `j` exactly in that case.
  lemma ShownAboveExactly(boundaries: seq<real>, states: seq<State>, steps: seq<Step>, i: nat, p: nat, j: nat, q: nat, m: nat)
    requires Run(boundaries, states, steps) && i < j <= |boundaries|
    requires ReadAt(states, steps, i, p) && ReadAt(states, steps, j, q) && q < m < |states|
    ensures p < q && j < |states[m].scrape.buckets|
    ensures states[m].scrape.buckets[i] > states[m].scrape.buckets[j] <==> Overtakes(boundaries, states[p], states[q], i, j)
  {
    hide Run, Over;
    ReadsInOrder(boundaries, states, steps, i, p, j, q);
    ReadShows(boundaries, states, steps, i, p, m);
    ReadShows(boundaries, states, steps, j, q, m);
    LaterState(boundaries, states, steps, p, q);
    RunInv(boundaries, states, steps, p);
    RunInv(boundaries, states, steps, q);
    assert BucketExact(boundaries, states[p], i);
    assert states[q].finished == states[p].finished + Between(states[p], states[q]);
    if j < |boundaries| {
      assert BucketExact(boundaries, states[q], j);
      AtMostJoin(states[p].finished, Between(states[p], states[q]), boundaries[j]);
    }
  }

  // `times` lists the step at which each bucket of the scrape was read.
  ghost predicate ReadsOf(states: seq<State>, steps: seq<Step>, k: nat, times: seq<nat>, m: nat) {
    m < |states| && |times| == k + 1 && forall i :: 0 <= i <= k ==> ReadAt(states, steps, i, times[i]) && times[i] < m
  }

  lemma {:induction false} ReadTimes(boundaries: seq<real>, states: seq<State>, steps: seq<Step>, m: nat, k: nat)
    returns (times: seq<nat>)
    requires Run(boundaries, states, steps) && m < |states| && k < |states[m].scrape.buckets|
    ensures ReadsOf(states, steps, k, times, m)
  {
    hide Run, ReadAt;
    var last := WasRead(boundaries, states, steps, k, m);
    var earlier := [];
    if k > 0 {
      earlier := ReadTimes(boundaries, states, steps, m, k - 1);
    }
    times := earlier + [last];
  }

  ghost predicate Cumulative(buckets: seq<nat>) {
    forall i, j :: 0 <= i < j < |buckets| ==> buckets[i] <= buckets[j]
  }

  lemma ReadsFollow(boundaries: seq<real>, states: seq<State>, steps: seq<Step>, times: seq<nat>, m: nat, i: nat, j: nat)
    requires Run(boundaries, states, steps) && ReadsOf(states, steps, |boundaries|, times, m) && i <= j <= |boundaries|
    ensures times[i] <= times[j] < |states| && states[times[i]].finished <= states[times[j]].finished
  {
    hide Run;
    if i < j {
      ReadsInOrder(boundaries, states, steps, i, times[i], j, times[j]);
    }
    LaterState(boundaries, states, steps, times[i], times[j]);
  }

  // A complete scrape is cumulative exactly when no read overtakes a later one.
  lemma ScrapeCumulativeExactly(boundaries: seq<real>, states: seq<State>, steps: seq<Step>, times: seq<nat>, m: nat)
    requires Run(boundaries, states, steps) && ReadsOf(states, steps, |boundaries|, times, m)
    ensures |states[m].scrape.buckets| == |boundaries| + 1
    ensures Cumulative(states[m].scrape.buckets) <==>
      forall i, j :: 0 <= i < j <= |boundaries| ==>
        !Overtakes(boundaries, states[times[i]], states[times[j]], i, j)
  {
    hide Run, Overtakes;
    var k, buckets := |boundaries|, states[m].scrape.buckets;
    ReadShows(boundaries, states, steps, k, times[k], m);
    RunInv(boundaries, states, steps, m);
    forall i, j | 0 <= i < j <= k
      ensures buckets[i] > buckets[j] <==> Overtakes(boundaries, states[times[i]], states[times[j]], i, j)
    {
      ShownAboveExactly(boundaries, states, steps, i, times[i], j, times[j], m);
    }
  }

  // What bucket `i` holds after `values`.
  function Tally(boundaries: seq<real>, values: seq<real>, i: nat): nat
    requires i <= |boundaries|
  {
    if i < |boundaries| then AtMost(values, boundaries[i]) else |values|
  }

  // A scrape whose reads meet no observer under way shows the tallies at its reads, and for sorted
  // boundaries it is cumulative, whatever finishes between the reads.
  lemma QuietReadsAreCumulative(boundaries: seq<real>, states: seq<State>, steps: seq<Step>, times: seq<nat>, m: nat)
    requires Run(boundaries, states, steps) && ReadsOf(states, steps, |boundaries|, times, m)
    requires forall i :: 0 <= i <= |boundaries| ==> Quiet(states[times[i]])
    requires forall i, j :: 0 <= i < j < |boundaries| ==> boundaries[i] <= boundaries[j]
    ensures |states[m].scrape.buckets| == |boundaries| + 1 && Cumulative(states[m].scrape.buckets)
    ensures forall i :: 0 <= i <= |boundaries| ==>
      states[m].scrape.buckets[i] == Tally(boundaries, states[times[i]].finished, i)
  {
    hide Run;
    var k, buckets := |boundaries|, states[m].scrape.buckets;
    ReadShows(boundaries, states, steps, k, times[k], m);
    RunInv(boundaries, states, steps, m);
    forall i | 0 <= i <= k ensures buckets[i] == Tally(boundaries, states[times[i]].finished, i) {
      ReadShows(boundaries, states, steps, i, times[i], m);
      QuietIsExact(boundaries, states, steps, times[i]);
    }
    forall i, j | 0 <= i < j <= k ensures buckets[i] <= buckets[j] {
      ReadsFollow(boundaries, states, steps, times, m, i, j);
      TallyGrows(boundaries, states[times[i]].finished, states[times[j]].finished, i, j);
    }
  }

  lemma TallyGrows(boundaries: seq<real>, a: seq<real>, b: seq<real>, i: nat, j: nat)
    requires a <= b && i < j <= |boundaries| && (j < |boundaries| ==> boundaries[i] <= boundaries[j])
    ensures Tally(boundaries, a, i) <= Tally(boundaries, b, j)
  {
    assert b == a + b[|a|..];
    AtMostMonotone(a, boundaries[i], if j < |boundaries| then boundaries[j] else boundaries[i]);
    if j < |boundaries| {
      AtMostJoin(a, b[|a|..], boundaries[j]);
    }
  }

  lemma RunOn(boundaries: seq<real>, states: seq<State>, steps: seq<Step>, step: Step, next: State)
    requires Run(boundaries, states, steps) && Enabled(|boundaries|, states[|steps|], step)
    requires next == Next(boundaries, states[|steps|], step)
    ensures Run(boundaries, states + [next], steps + [step])
  {
    hide Next, Enabled, Initial;
  }

  // Beside observers a scrape may show a finite bucket above +Inf: the observer has passed the
  // bucket and not yet +Inf.
  lemma BucketMayPassInfinity() returns (states: seq<State>, steps: seq<Step>)
    ensures Run([1.0], states, steps)
    ensures states[|steps|].scrape.buckets == [1, 0]
  {
    hide Micros, Run;
    var b, m := [1.0], Micros(0.5);
    var unread := Scrape([], [], []);
    states, steps := [State(Counters([0, 0], 0, 0), [Idle], [], unread)], [];
    RunStarts(b, states[0]);
    states, steps := OneMore(b, states, steps, Begin(0, 0.5), State(Counters([0, 0], 0, 1), [Counted(0.5)], [], unread));
    states, steps := OneMore(b, states, steps, AddSum(0), State(Counters([0, 0], m, 1), [Bucketing(0.5, 0)], [], unread));
    states, steps := OneMore(b, states, steps, Bucket(0), State(Counters([1, 0], m, 1), [Bucketing(0.5, 1)], [], unread));
    states, steps := OneMore(b, states, steps, Read, states[|steps|].(scrape := Scrape([1], [], [])));
    states, steps := OneMore(b, states, steps, Read, states[|steps|].(scrape := Scrape([1, 0], [], [])));
  }

  lemma RunStarts(boundaries: seq<real>, s: State)
    requires Initial(boundaries, s)
    ensures Run(boundaries, [s], [])
  {
  }

  lemma OneMore(boundaries: seq<real>, states: seq<State>, steps: seq<Step>, step: Step, next: State)
    returns (states': seq<State>, steps': seq<Step>)
    requires Run(boundaries, states, steps) && |states| == |steps| + 1 && Enabled(|boundaries|, states[|steps|], step)
    requires next == Next(boundaries, states[|steps|], step)
    ensures Run(boundaries, states', steps') && |states'| == |steps'| + 1 && states'[|steps'|] == next
  {
    RunOn(boundaries, states, steps, step, next);
    states', steps' := states + [next], steps + [step];
  }
}
