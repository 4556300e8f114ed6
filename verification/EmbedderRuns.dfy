/** What the callers of the lazy embedder get, told from what the model and the disk answered them:
    runs with their steps, and for every thread the trail of its call. */
module EmbedderRuns {
  import opened Common
  import opened LazyEmbedder

  // What happened to a call: how it began and the answers it got.
  datatype Event =
    | Called(caller: Caller)
    | Built(pool: Pool)
    | BuildFails
    | Hashed(space: Space)
    | HashFails
    | Inferred(on: Pool)
    | InferenceFails

  datatype Did = Did(thread: nat, choice: Choice)

  ghost predicate Run(states: seq<State>, steps: seq<Did>) {
    && |states| == |steps| + 1 && Initial(states[0])
    && forall i :: 0 <= i < |steps| ==> Next(states[i], steps[i].thread, steps[i].choice, states[i + 1])
  }

  // The event that a choice is for a thread standing there.
  function EventOf(pc: Pc, c: Choice): Option<Event> {
    match (pc, c)
    case (Idle, Call(caller)) => Some(Called(caller))
    case (BuildPool(_), Succeed(pool)) => Some(Built(pool))
    case (BuildPool(_), Fail) => Some(BuildFails)
    case (HashFiles(_), Succeed(space)) => Some(Hashed(space))
    case (HashFiles(_), Fail) => Some(HashFails)
    case (UseSlot(pool, _), Succeed(_)) => Some(Inferred(pool))
    case (UseSlot(_, _), Fail) => Some(InferenceFails)
    case _ => None
  }

  function Extended(trail: seq<Event>, pc: Pc, c: Choice): seq<Event> {
    match EventOf(pc, c)
    case None => trail
    case Some(e) => if e.Called? then [e] else trail + [e]
  }

  // The events of the latest call of thread `t` within the first `n` steps.
  ghost function Trail(states: seq<State>, steps: seq<Did>, n: nat, t: nat): seq<Event>
    requires n <= |steps| < |states|
  {
    if n == 0 then []
    else
      var before := Trail(states, steps, n - 1, t);
      if steps[n - 1].thread == t && t < |states[n - 1].pcs| then
        Extended(before, states[n - 1].pcs[t], steps[n - 1].choice)
      else before
  }

  // ---- Outcomes ------------------------------------------------------------------------------

  // The call has only begun, or it has also built the pool.
  ghost predicate Begun(trail: seq<Event>, c: Caller) {
    trail == [Called(c)] || (|trail| == 2 && trail[0] == Called(c) && trail[1].Built?)
  }

  ghost predicate BegunOn(trail: seq<Event>, c: Caller, pool: Pool) {
    trail == [Called(c)] || trail == [Called(c), Built(pool)]
  }

  ghost predicate BegunThen(trail: seq<Event>, forSpace: bool, last: Event) {
    |trail| > 1 && trail[|trail| - 1] == last
    && exists c: Caller :: c.ForSpace? == forSpace && Begun(trail[..|trail| - 1], c)
  }

  // What a thread's position says about the trail of its call.
  ghost predicate TrailFits(s: Shared, pc: Pc, trail: seq<Event>) {
    match pc
    case Idle => true
    case FastCheck => trail == [Called(ForSpace)]
    case WaitSpaceLock => trail == [Called(ForSpace)]
    case SlowCheck => trail == [Called(ForSpace)]
    case WaitPoolLock(c) => trail == [Called(c)]
    case CheckPool(c) => trail == [Called(c)]
    case BuildPool(c) => trail == [Called(c)]
    case HavePool(c, p) => BegunOn(trail, c, p)
    case HashFiles(p) => BegunOn(trail, ForSpace, p)
    case SetSpace(v) => BegunThen(trail, true, Hashed(v))
    case ReadSpace => s.space.Some? && BegunThen(trail, true, Hashed(s.space.value))
    case WaitSlot(p, _) => BegunOn(trail, One, p) || BegunOn(trail, Batch, p)
    case UseSlot(p, _) => BegunOn(trail, One, p) || BegunOn(trail, Batch, p)
    case Done(outcome) => Ended(trail, outcome)
  }

  ghost predicate Ended(trail: seq<Event>, outcome: Outcome) {
    match outcome
    case Embedded(p) => BegunThen(trail, false, Inferred(p))
    case GotSpace(v) => trail == [Called(ForSpace)] || BegunThen(trail, true, Hashed(v))
    case Failed(BuildFailed) => exists c: Caller :: trail == [Called(c), BuildFails]
    case Failed(HashFailed) => BegunThen(trail, true, HashFails)
    case Failed(InferenceFailed) => BegunThen(trail, false, InferenceFails)
    case Failed(_) => false
  }

  lemma BegunEnds(trail: seq<Event>, c: Caller, pool: Pool, last: Event)
    requires BegunOn(trail, c, pool)
    ensures BegunThen(trail + [last], c.ForSpace?, last)
  {
    assert Begun(trail, c) && (trail + [last])[..|trail|] == trail;
  }

  lemma StepTrail(s: Shared, t: nat, pc: Pc, c: Choice, trail: seq<Event>)
    requires SharedOk(s) && Fits(s, t, pc) && TrailFits(s, pc, trail) && Step(s, t, pc, c).To?
    ensures TrailFits(Step(s, t, pc, c).shared, Step(s, t, pc, c).pc, Extended(trail, pc, c))
  {
    hide BegunThen;
    match pc
    case HashFiles(p) =>
      if c.Succeed? {
        BegunEnds(trail, ForSpace, p, Hashed(c.value));
      } else {
        BegunEnds(trail, ForSpace, p, HashFails);
      }
    case UseSlot(p, _) =>
      var caller := if BegunOn(trail, One, p) then One else Batch;
      BegunEnds(trail, caller, p, if c.Succeed? then Inferred(p) else InferenceFails);
    case _ =>
  }

  lemma RunInv(states: seq<State>, steps: seq<Did>, n: nat)
    requires Run(states, steps) && n <= |steps|
    ensures Inv(states[n])
  {
    hide Inv, Next, Initial;
    forall i | 0 <= i < |states| - 1 ensures Advances(states[i], states[i + 1]) {
      assert Next(states[i], steps[i].thread, steps[i].choice, states[i + 1]);
    }
    assert Execution(states);
    ExecutionInv(states, n);
  }

  lemma OtherTrail(s: Shared, s': Shared, pc: Pc, trail: seq<Event>)
    requires TrailFits(s, pc, trail) && (s.space.Some? ==> s'.space == s.space)
    ensures TrailFits(s', pc, trail)
  {
    hide BegunThen, BegunOn, Ended;
  }

  lemma {:induction false} TrailsFit(states: seq<State>, steps: seq<Did>, n: nat, t: nat)
    requires Run(states, steps) && n <= |steps| && t < |states[n].pcs|
    ensures TrailFits(states[n].shared, states[n].pcs[t], Trail(states, steps, n, t))
  {
    if n > 0 {
      var s, did := states[n - 1], steps[n - 1];
      assert Next(s, did.thread, did.choice, states[n]);
      TrailsFit(states, steps, n - 1, t);
      RunInv(states, steps, n - 1);
      InvKept(s, did.thread, did.choice, states[n]);
      hide TrailFits, Extended, LocksFit, DataFits;
      if did.thread == t {
        assert Fits(s.shared, t, s.pcs[t]);
        StepTrail(s.shared, t, s.pcs[t], did.choice, Trail(states, steps, n - 1, t));
      } else {
        OtherTrail(s.shared, states[n].shared, s.pcs[t], Trail(states, steps, n - 1, t));
      }
    }
  }

  // A call returns a vector exactly when its inference succeeded, on that pool; each error is
  // returned exactly when that step of the call failed; a call that was answered without a failure
  // returns what its caller asked for, and a space it has hashed itself is the one it returns.
  lemma OutcomesTell(states: seq<State>, steps: seq<Did>, n: nat, t: nat)
    requires Run(states, steps) && n <= |steps| && t < |states[n].pcs| && states[n].pcs[t].Done?
    ensures var trail, outcome := Trail(states, steps, n, t), states[n].pcs[t].outcome;
      && trail != [] && trail[0].Called?
      && (forall p :: outcome == Embedded(p) <==> Inferred(p) in trail)
      && (outcome == Failed(InferenceFailed) <==> InferenceFails in trail)
      && (outcome == Failed(BuildFailed) <==> BuildFails in trail)
      && (outcome == Failed(HashFailed) <==> HashFails in trail)
      && (InferenceFails !in trail && BuildFails !in trail && HashFails !in trail ==>
            if trail[0].caller.ForSpace? then outcome.GotSpace? else outcome.Embedded?)
      && (forall v :: Hashed(v) in trail ==> outcome == GotSpace(v) || outcome.Failed?)
  {
    TrailsFit(states, steps, n, t);
    EndedTells(Trail(states, steps, n, t), states[n].pcs[t].outcome);
  }

  lemma EndedTells(trail: seq<Event>, outcome: Outcome)
    requires Ended(trail, outcome)
    ensures trail != [] && trail[0].Called?
    ensures forall p :: outcome == Embedded(p) <==> Inferred(p) in trail
    ensures outcome == Failed(InferenceFailed) <==> InferenceFails in trail
    ensures outcome == Failed(BuildFailed) <==> BuildFails in trail
    ensures outcome == Failed(HashFailed) <==> HashFails in trail
    ensures InferenceFails !in trail && BuildFails !in trail && HashFails !in trail ==>
      if trail[0].caller.ForSpace? then outcome.GotSpace? else outcome.Embedded?
    ensures forall v :: Hashed(v) in trail ==> outcome == GotSpace(v)
  {
    if |trail| > 1 && outcome != Failed(BuildFailed) && trail != [Called(ForSpace)] {
      var begun, last := trail[..|trail| - 1], trail[|trail| - 1];
      assert trail == begun + [last];
      forall e ensures e in trail <==> e == begun[0] || (|begun| == 2 && e == begun[1]) || e == last {
      }
    }
  }

  // ---- Where the pool and the space come from --------------------------------------------------

  ghost predicate BuiltAt(states: seq<State>, steps: seq<Did>, i: nat, p: Pool)
    requires i < |steps| < |states|
  {
    var t := steps[i].thread;
    t < |states[i].pcs| && EventOf(states[i].pcs[t], steps[i].choice) == Some(Built(p))
  }

  ghost predicate HashedAt(states: seq<State>, steps: seq<Did>, i: nat, t: nat, v: Space)
    requires i < |steps| < |states|
  {
    t == steps[i].thread < |states[i].pcs| && EventOf(states[i].pcs[t], steps[i].choice) == Some(Hashed(v))
  }

  // The shared pool is the one that a build returned, and there is one as soon as a build has.
  lemma {:induction false} PoolWasBuilt(states: seq<State>, steps: seq<Did>, n: nat, p: Pool)
    requires Run(states, steps) && n <= |steps|
    ensures states[n].shared.pool == Some(p) <==> exists i :: 0 <= i < n && BuiltAt(states, steps, i, p)
  {
    hide BuiltAt, Inv, Next;
    if n > 0 {
      PoolWasBuilt(states, steps, n - 1, p);
      RunInv(states, steps, n - 1);
      PoolAdvances(states[n - 1], steps[n - 1], states[n], p);
      BuiltMeans(states, steps, n - 1, p);
    } else {
      NoPoolYet(states[0]);
    }
  }

  lemma NoPoolYet(s: State)
    requires Initial(s)
    ensures s.shared.pool == None
  {
  }

  lemma BuiltMeans(states: seq<State>, steps: seq<Did>, i: nat, p: Pool)
    requires i < |steps| < |states| && steps[i].thread < |states[i].pcs|
    ensures BuiltAt(states, steps, i, p) <==> EventOf(states[i].pcs[steps[i].thread], steps[i].choice) == Some(Built(p))
  {
  }

  lemma PoolAdvances(s: State, did: Did, s': State, p: Pool)
    requires Inv(s) && Next(s, did.thread, did.choice, s')
    ensures did.thread < |s.pcs|
    ensures s'.shared.pool == Some(p) <==>
            s.shared.pool == Some(p) || EventOf(s.pcs[did.thread], did.choice) == Some(Built(p))
  {
    assert Fits(s.shared, did.thread, s.pcs[did.thread]);
    hide Step, EventOf;
    PoolStep(s.shared, did.thread, s.pcs[did.thread], did.choice, p);
  }

  lemma PoolStep(s: Shared, t: nat, pc: Pc, c: Choice, p: Pool)
    requires SharedOk(s) && Fits(s, t, pc) && Step(s, t, pc, c).To?
    ensures Step(s, t, pc, c).shared.pool == Some(p) <==> s.pool == Some(p) || EventOf(pc, c) == Some(Built(p))
  {
  }

  // At most one build ever succeeds.
  lemma BuiltOnce(states: seq<State>, steps: seq<Did>, i: nat, p: Pool, j: nat, q: Pool)
    requires Run(states, steps) && i <= j < |steps| && BuiltAt(states, steps, i, p) && BuiltAt(states, steps, j, q)
    ensures i == j
  {
    hide Inv, BuiltAt;
    if i < j {
      PoolWasBuilt(states, steps, j, p);
      RunInv(states, steps, j);
      assert Next(states[j], steps[j].thread, steps[j].choice, states[j + 1]);
      BuildsEmpty(states, steps, j, q);
    }
  }

  lemma BuildsEmpty(states: seq<State>, steps: seq<Did>, j: nat, q: Pool)
    requires j < |steps| < |states| && Inv(states[j]) && BuiltAt(states, steps, j, q)
    ensures states[j].shared.pool == None
  {
    assert Fits(states[j].shared, steps[j].thread, states[j].pcs[steps[j].thread]);
  }

  lemma {:induction false} TrailTold(states: seq<State>, steps: seq<Did>, n: nat, t: nat, v: Space)
    requires n <= |steps| < |states| && Hashed(v) in Trail(states, steps, n, t)
    ensures exists i :: 0 <= i < n && HashedAt(states, steps, i, t, v)
  {
    if n > 0 {
      if Hashed(v) in Trail(states, steps, n - 1, t) {
        TrailTold(states, steps, n - 1, t, v);
      } else {
        assert HashedAt(states, steps, n - 1, t, v);
      }
    }
  }

  // The shared space is one that a hash step returned.
  lemma {:induction false} SpaceWasHashed(states: seq<State>, steps: seq<Did>, n: nat, v: Space)
    requires Run(states, steps) && n <= |steps| && states[n].shared.space == Some(v)
    ensures exists i, t :: 0 <= i < n && HashedAt(states, steps, i, t, v)
  {
    hide Step, HashedAt;
    if n > 0 {
      var s, did := states[n - 1], steps[n - 1];
      assert Next(s, did.thread, did.choice, states[n]);
      if s.shared.space == Some(v) {
        SpaceWasHashed(states, steps, n - 1, v);
      } else {
        RunInv(states, steps, n - 1);
        assert Fits(s.shared, did.thread, s.pcs[did.thread]);
        SpaceStep(s.shared, did.thread, s.pcs[did.thread], did.choice, v);
        TrailsFit(states, steps, n - 1, did.thread);
        TrailTold(states, steps, n - 1, did.thread, v);
      }
    }
  }

  // What a hash step returned becomes the shared space in the thread's next step.
  lemma {:induction false} HashedIsKept(states: seq<State>, steps: seq<Did>, i: nat, n: nat, t: nat, v: Space)
    requires Run(states, steps) && i < n <= |steps| && HashedAt(states, steps, i, t, v)
    ensures SpaceComes(states[n], t, v)
    decreases n
  {
    hide Inv, Next, SpaceComes, HashedAt;
    RunInv(states, steps, n - 1);
    if i < n - 1 {
      HashedIsKept(states, steps, i, n - 1, t, v);
      SpaceStillComes(states[n - 1], steps[n - 1], states[n], t, v);
    } else {
      HashedMeans(states, steps, i, t, v);
      SpaceStartsComing(states[i], steps[i], states[n], v);
    }
  }

  // The space is about to be set, or has been.
  ghost predicate SpaceComes(s: State, t: nat, v: Space) {
    t < |s.pcs| && (s.pcs[t] == SetSpace(v) || s.shared.space == Some(v))
  }

  lemma HashedMeans(states: seq<State>, steps: seq<Did>, i: nat, t: nat, v: Space)
    requires i < |steps| < |states| && HashedAt(states, steps, i, t, v)
    ensures t == steps[i].thread < |states[i].pcs| && EventOf(states[i].pcs[t], steps[i].choice) == Some(Hashed(v))
  {
  }

  lemma SpaceStartsComing(s: State, did: Did, s': State, v: Space)
    requires Next(s, did.thread, did.choice, s') && EventOf(s.pcs[did.thread], did.choice) == Some(Hashed(v))
    ensures SpaceComes(s', did.thread, v)
  {
    hide EventOf, Step;
    HashStep(s.shared, did.thread, s.pcs[did.thread], did.choice, v);
  }

  lemma SpaceStillComes(s: State, did: Did, s': State, t: nat, v: Space)
    requires Inv(s) && Next(s, did.thread, did.choice, s') && SpaceComes(s, t, v)
    ensures SpaceComes(s', t, v)
  {
    InvKept(s, did.thread, did.choice, s');
    if did.thread == t && s.pcs[t] == SetSpace(v) {
      assert Fits(s.shared, t, s.pcs[t]);
      hide Fits, Step;
      SetSpaceStep(s.shared, t, did.choice, v);
    }
  }

  lemma SetSpaceStep(s: Shared, t: nat, c: Choice, v: Space)
    requires SharedOk(s) && Fits(s, t, SetSpace(v))
    ensures Step(s, t, SetSpace(v), c).To? && Step(s, t, SetSpace(v), c).shared.space == Some(v)
  {
  }

  lemma HashStep(s: Shared, t: nat, pc: Pc, c: Choice, v: Space)
    requires s.poolSize > 0 && EventOf(pc, c) == Some(Hashed(v))
    ensures Step(s, t, pc, c).To? && Step(s, t, pc, c).pc == SetSpace(v)
  {
  }

  lemma SpaceStep(s: Shared, t: nat, pc: Pc, c: Choice, v: Space)
    requires SharedOk(s) && Fits(s, t, pc) && Step(s, t, pc, c).To?
    requires s.space != Some(v) && Step(s, t, pc, c).shared.space == Some(v)
    ensures pc == SetSpace(v)
  {
  }

  // ---- Round robin -----------------------------------------------------------------------------

  // Thread `t` draws its slot in step `i`.
  ghost predicate Draws(states: seq<State>, steps: seq<Did>, i: nat, t: nat)
    requires i < |steps| < |states|
  {
    t == steps[i].thread < |states[i].pcs| && states[i].pcs[t].HavePool? && !states[i].pcs[t].caller.ForSpace?
  }

  ghost function Turns(states: seq<State>, steps: seq<Did>, n: nat): nat
    requires n <= |steps| < |states|
  {
    if n == 0 then 0 else Turns(states, steps, n - 1) + if Draws(states, steps, n - 1, steps[n - 1].thread) then 1 else 0
  }

  // How many had drawn a slot before the latest draw of thread `t`.
  ghost function Ticket(states: seq<State>, steps: seq<Did>, n: nat, t: nat): nat
    requires n <= |steps| < |states|
  {
    if n == 0 then 0
    else if Draws(states, steps, n - 1, t) then Turns(states, steps, n - 1)
    else Ticket(states, steps, n - 1, t)
  }

  // Calls are dealt to the slots in turn, in the order in which they draw; the counter wraps.
  lemma {:induction false} RoundRobin(states: seq<State>, steps: seq<Did>, n: nat, t: nat)
    requires Run(states, steps) && n <= |steps| && t < |states[n].pcs|
    ensures states[n].shared.poolSize == states[0].shared.poolSize > 0
    ensures states[n].shared.next == Counter(Turns(states, steps, n))
    ensures HasSlot(states[n].pcs[t]) ==>
      states[n].pcs[t].slot == Counter(Ticket(states, steps, n, t)) % states[0].shared.poolSize
  {
    hide Counter, Step;
    if n > 0 {
      var s, did := states[n - 1], steps[n - 1];
      assert Next(s, did.thread, did.choice, states[n]);
      RoundRobin(states, steps, n - 1, t);
      CounterSteps(Turns(states, steps, n - 1));
      DrawStep(s.shared, did.thread, s.pcs[did.thread], did.choice);
    } else {
      CounterStarts();
    }
  }

  ghost predicate HasSlot(pc: Pc) {
    pc.WaitSlot? || pc.UseSlot?
  }

  // The counter after so many draws.
  ghost function Counter(turns: nat): nat {
    turns % USIZE_VALUES
  }

  lemma CounterStarts()
    ensures Counter(0) == 0
  {
  }

  lemma CounterSteps(turns: nat)
    ensures Counter(turns + 1) == (Counter(turns) + 1) % USIZE_VALUES
  {
  }

  lemma DrawStep(s: Shared, t: nat, pc: Pc, c: Choice)
    requires s.poolSize > 0 && Step(s, t, pc, c).To?
    ensures var m, draws := Step(s, t, pc, c), pc.HavePool? && !pc.caller.ForSpace?;
      && m.shared.poolSize == s.poolSize && m.shared.next == (if draws then (s.next + 1) % USIZE_VALUES else s.next)
      && (HasSlot(m.pc) ==> if draws then m.pc.slot == s.next % s.poolSize else HasSlot(pc) && m.pc.slot == pc.slot)
  {
  }
}
