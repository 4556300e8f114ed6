/** The lazily built, shared embedder: every thread is a program counter over the two mutexes,
    the once-cell, the round-robin counter and the session slots. */
module LazyEmbedder {
  import opened Common

  type Pool = int
  type Space = int

  const USIZE_VALUES: nat := 0x1_0000_0000_0000_0000

  datatype Caller = One | Batch | ForSpace

  datatype EmbedError = BuildFailed | HashFailed | InferenceFailed | ConcurrentlyInitialized | DidNotPersist

  datatype Outcome = Embedded(pool: Pool) | GotSpace(space: Space) | Failed(error: EmbedError)

  // Where a thread stands.
  datatype Pc =
    | Idle
    | FastCheck                             // first look at the once-cell
    | WaitSpaceLock
    | SlowCheck                             // second look, holding the space lock
    | WaitPoolLock(caller: Caller)
    | CheckPool(caller: Caller)             // holding the pool lock
    | BuildPool(caller: Caller)             // holding the pool lock, pool seen empty
    | HavePool(caller: Caller, pool: Pool)
    | HashFiles(pool: Pool)
    | SetSpace(space: Space)
    | ReadSpace
    | WaitSlot(pool: Pool, slot: nat)
    | UseSlot(pool: Pool, slot: nat)
    | Done(outcome: Outcome)

  // What the threads share.
  datatype Shared = Shared(
    poolLock: Option<nat>, pool: Option<Pool>, spaceLock: Option<nat>, space: Option<Space>,
    builds: nat, next: nat, slots: map<nat, nat>, poolSize: nat)

  // What the environment decides at a step: a new call, a success with its value, or a failure.
  datatype Choice = Call(caller: Caller) | Succeed(value: int) | Fail

  datatype Move = Blocked | To(shared: Shared, pc: Pc)

  // A failing `?` drops the guards held on the way out.
  function Abort(s: Shared, caller: Caller, error: EmbedError): Move {
    To(if caller.ForSpace? then s.(spaceLock := None) else s, Done(Failed(error)))
  }

  // One atomic step of thread `t`.
  function Step(s: Shared, t: nat, pc: Pc, c: Choice): Move
    requires s.poolSize > 0
  {
    match pc
    case Idle =>
      if c.Call? then To(s, if c.caller.ForSpace? then FastCheck else WaitPoolLock(c.caller)) else Blocked
    case FastCheck => To(s, if s.space.Some? then Done(GotSpace(s.space.value)) else WaitSpaceLock)
    case WaitSpaceLock => if s.spaceLock.None? then To(s.(spaceLock := Some(t)), SlowCheck) else Blocked
    case SlowCheck =>
      if s.space.Some? then To(s.(spaceLock := None), Done(GotSpace(s.space.value))) else To(s, WaitPoolLock(ForSpace))
    case WaitPoolLock(caller) => if s.poolLock.None? then To(s.(poolLock := Some(t)), CheckPool(caller)) else Blocked
    case CheckPool(caller) =>
      if s.pool.Some? then To(s.(poolLock := None), HavePool(caller, s.pool.value)) else To(s, BuildPool(caller))
    case BuildPool(caller) =>
      match c {
        case Fail => Abort(s.(poolLock := None), caller, BuildFailed)
        case Succeed(built) => To(s.(poolLock := None, pool := Some(built), builds := s.builds + 1), HavePool(caller, built))
        case Call(_) => Blocked
      }
    case HavePool(caller, pool) =>
      if caller.ForSpace? then To(s, HashFiles(pool))
      else To(s.(next := (s.next + 1) % USIZE_VALUES), WaitSlot(pool, s.next % s.poolSize))
    case HashFiles(_) =>
      match c {
        case Fail => Abort(s, ForSpace, HashFailed)
        case Succeed(space) => To(s, SetSpace(space))
        case Call(_) => Blocked
      }
    case SetSpace(space) =>
      if s.space.None? then To(s.(space := Some(space)), ReadSpace) else Abort(s, ForSpace, ConcurrentlyInitialized)
    case ReadSpace =>
      if s.space.Some? then To(s.(spaceLock := None), Done(GotSpace(s.space.value))) else Abort(s, ForSpace, DidNotPersist)
    case WaitSlot(pool, slot) => if slot !in s.slots then To(s.(slots := s.slots[slot := t]), UseSlot(pool, slot)) else Blocked
    case UseSlot(pool, slot) =>
      match c {
        case Fail => To(s.(slots := s.slots - {slot}), Done(Failed(InferenceFailed)))
        case Succeed(_) => To(s.(slots := s.slots - {slot}), Done(Embedded(pool)))
        case Call(_) => Blocked
      }
    case Done(_) => To(s, Idle)
  }

  datatype State = State(pcs: seq<Pc>, shared: Shared)

  ghost predicate Initial(s: State) {
    && (forall t :: 0 <= t < |s.pcs| ==> s.pcs[t] == Idle)
    && s.shared.poolSize > 0 && s.shared == Shared(None, None, None, None, 0, 0, map[], s.shared.poolSize)
  }

  // Thread `t` takes a step.
  ghost predicate Next(s: State, t: nat, c: Choice, s': State) {
    && t < |s.pcs| && s.shared.poolSize > 0
    && var m := Step(s.shared, t, s.pcs[t], c);
       m.To? && s' == State(s.pcs[t := m.pc], m.shared)
  }

  // ---- The invariant -----------------------------------------------------------------------

  ghost predicate HoldsPoolLock(pc: Pc) {
    pc.CheckPool? || pc.BuildPool?
  }

  ghost predicate HoldsSpaceLock(pc: Pc) {
    match pc
    case SlowCheck => true
    case WaitPoolLock(c) => c.ForSpace?
    case CheckPool(c) => c.ForSpace?
    case BuildPool(c) => c.ForSpace?
    case HavePool(c, _) => c.ForSpace?
    case HashFiles(_) => true
    case SetSpace(_) => true
    case ReadSpace => true
    case _ => false
  }

  // The part of the work during which the once-cell is known to be empty.
  ghost predicate SpaceStillEmpty(pc: Pc) {
    HoldsSpaceLock(pc) && !pc.SlowCheck? && !pc.ReadSpace?
  }

  ghost predicate Uses(pc: Pc, pool: Pool) {
    match pc
    case HavePool(_, p) => p == pool
    case HashFiles(p) => p == pool
    case WaitSlot(p, _) => p == pool
    case UseSlot(p, _) => p == pool
    case Done(outcome) => outcome == Embedded(pool)
    case _ => false
  }

  // What a thread's position says about the locks it holds.
  ghost predicate LocksFit(s: Shared, t: nat, pc: Pc) {
    && (HoldsPoolLock(pc) <==> s.poolLock == Some(t))
    && (HoldsSpaceLock(pc) <==> s.spaceLock == Some(t))
    && (pc.UseSlot? ==> pc.slot in s.slots && s.slots[pc.slot] == t)
    && (pc.UseSlot? || pc.WaitSlot? ==> pc.slot < s.poolSize)
  }

  // What a thread's position says about the shared pool and space.
  ghost predicate DataFits(s: Shared, pc: Pc) {
    && (forall p :: Uses(pc, p) ==> s.pool == Some(p))
    && (pc.BuildPool? ==> s.pool == None)
    && (SpaceStillEmpty(pc) ==> s.space == None)
    && (pc.ReadSpace? ==> s.space.Some?)
    && (pc.Done? && pc.outcome.GotSpace? ==> s.space == Some(pc.outcome.space))
    && (pc.Done? && pc.outcome.Failed? ==> pc.outcome.error != ConcurrentlyInitialized && pc.outcome.error != DidNotPersist)
  }

  ghost predicate Fits(s: Shared, t: nat, pc: Pc) {
    LocksFit(s, t, pc) && DataFits(s, pc)
  }

  ghost predicate SharedOk(s: Shared) {
    s.poolSize > 0 && s.builds == (if s.pool.Some? then 1 else 0)
  }

  // Whoever is named as a holder really is one.
  ghost predicate HoldersExist(s: State) {
    && (s.shared.poolLock.Some? ==> s.shared.poolLock.value < |s.pcs|)
    && (s.shared.spaceLock.Some? ==> s.shared.spaceLock.value < |s.pcs|)
    && (forall i :: i in s.shared.slots ==>
          s.shared.slots[i] < |s.pcs| && s.pcs[s.shared.slots[i]].UseSlot? && s.pcs[s.shared.slots[i]].slot == i)
  }

  ghost predicate Inv(s: State) {
    SharedOk(s.shared) && HoldersExist(s) && forall t :: 0 <= t < |s.pcs| ==> Fits(s.shared, t, s.pcs[t])
  }

  lemma StepFits(s: Shared, t: nat, pc: Pc, c: Choice)
    requires SharedOk(s) && Fits(s, t, pc) && Step(s, t, pc, c).To?
    ensures var m := Step(s, t, pc, c); SharedOk(m.shared) && Fits(m.shared, t, m.pc)
    ensures var m := Step(s, t, pc, c);
            && (s.pool.Some? ==> m.shared.pool == s.pool) && (s.space.Some? ==> m.shared.space == s.space)
            && m.shared.poolSize == s.poolSize
  {
  }

  // A lock has one holder, so what one thread relies on no other thread can change.
  lemma OthersFit(s: Shared, t: nat, pc: Pc, c: Choice, u: nat, other: Pc)
    requires SharedOk(s) && Fits(s, t, pc) && Step(s, t, pc, c).To? && u != t && Fits(s, u, other)
    requires pc.UseSlot? && other.UseSlot? ==> pc.slot != other.slot
    ensures Fits(Step(s, t, pc, c).shared, u, other)
  {
    match pc
    case BuildPool(_) => assert forall p :: !Uses(other, p);
    case _ =>
  }

  lemma HoldersKept(s: State, t: nat, c: Choice, s': State)
    requires Inv(s) && Next(s, t, c, s')
    ensures HoldersExist(s')
  {
    assert Fits(s.shared, t, s.pcs[t]);
    match s.pcs[t]
    case UseSlot(_, slot) => assert s'.shared.slots == s.shared.slots - {slot};
    case WaitSlot(_, slot) =>
    case _ => assert s'.shared.slots == s.shared.slots;
  }

  lemma InvKept(s: State, t: nat, c: Choice, s': State)
    requires Inv(s) && Next(s, t, c, s')
    ensures Inv(s')
    ensures s.shared.pool.Some? ==> s'.shared.pool == s.shared.pool
    ensures s.shared.space.Some? ==> s'.shared.space == s.shared.space
  {
    HoldersKept(s, t, c, s');
    hide Step, LocksFit, DataFits, SharedOk;
    assert Fits(s.shared, t, s.pcs[t]);
    StepFits(s.shared, t, s.pcs[t], c);
    forall u | 0 <= u < |s'.pcs| ensures Fits(s'.shared, u, s'.pcs[u]) {
      if u != t {
        if s.pcs[t].UseSlot? && s.pcs[u].UseSlot? {
          SlotsApart(s, t, u);
        }
        OthersFit(s.shared, t, s.pcs[t], c, u, s.pcs[u]);
      }
    }
  }

  lemma SlotsApart(s: State, t: nat, u: nat)
    requires Inv(s) && t < |s.pcs| && u < |s.pcs| && t != u && s.pcs[t].UseSlot? && s.pcs[u].UseSlot?
    ensures s.pcs[t].slot != s.pcs[u].slot
  {
    assert Fits(s.shared, t, s.pcs[t]) && Fits(s.shared, u, s.pcs[u]);
  }

  // ---- All interleavings ---------------------------------------------------------------------

  ghost predicate Advances(s: State, s': State) {
    exists t, c :: Next(s, t, c, s')
  }

  ghost predicate Execution(states: seq<State>) {
    && states != [] && Initial(states[0])
    && forall i :: 0 <= i < |states| - 1 ==> Advances(states[i], states[i + 1])
  }

  lemma {:induction false} ExecutionInv(states: seq<State>, i: nat)
    requires Execution(states) && i < |states|
    ensures Inv(states[i])
  {
    if i > 0 {
      ExecutionInv(states, i - 1);
      assert Advances(states[i - 1], states[i]);
      var t, c :| Next(states[i - 1], t, c, states[i]);
      InvKept(states[i - 1], t, c, states[i]);
    } else {
      var s := states[0];
      forall t | 0 <= t < |s.pcs| ensures Fits(s.shared, t, s.pcs[t]) {
        assert s.pcs[t] == Idle;
      }
    }
  }

  // Once set, the pool and the space stay what they are.
  lemma {:induction false} SetOnce(states: seq<State>, i: nat, j: nat)
    requires Execution(states) && i <= j < |states|
    ensures states[i].shared.pool.Some? ==> states[j].shared.pool == states[i].shared.pool
    ensures states[i].shared.space.Some? ==> states[j].shared.space == states[i].shared.space
    decreases j
  {
    hide Next, Inv, Initial;
    if i < j {
      SetOnce(states, i, j - 1);
      ExecutionInv(states, j - 1);
      assert Advances(states[j - 1], states[j]);
      var t, c :| Next(states[j - 1], t, c, states[j]);
      InvKept(states[j - 1], t, c, states[j]);
    }
  }

  // At most one build succeeds, and every thread at every time works with that pool.
  lemma OnePool(states: seq<State>, i: nat, t: nat, p: Pool, j: nat, u: nat, p': Pool)
    requires Execution(states) && i <= j < |states|
    requires t < |states[i].pcs| && Uses(states[i].pcs[t], p) && u < |states[j].pcs| && Uses(states[j].pcs[u], p')
    ensures p == p' && states[j].shared.builds == 1
  {
    ExecutionInv(states, i);
    ExecutionInv(states, j);
    SetOnce(states, i, j);
    assert Fits(states[i].shared, t, states[i].pcs[t]) && Fits(states[j].shared, u, states[j].pcs[u]);
  }

  // Every caller of `embedding_space` that succeeds gets the same space.
  lemma OneSpace(states: seq<State>, i: nat, t: nat, v: Space, j: nat, u: nat, v': Space)
    requires Execution(states) && i <= j < |states|
    requires t < |states[i].pcs| && states[i].pcs[t] == Done(GotSpace(v))
    requires u < |states[j].pcs| && states[j].pcs[u] == Done(GotSpace(v'))
    ensures v == v'
  {
    ExecutionInv(states, i);
    ExecutionInv(states, j);
    SetOnce(states, i, j);
    assert Fits(states[i].shared, t, states[i].pcs[t]) && Fits(states[j].shared, u, states[j].pcs[u]);
  }

  // The two "cannot happen" errors never do.
  lemma NeverConcurrentlyInitialized(states: seq<State>, i: nat, t: nat)
    requires Execution(states) && i < |states| && t < |states[i].pcs|
    ensures states[i].pcs[t] != Done(Failed(ConcurrentlyInitialized)) && states[i].pcs[t] != Done(Failed(DidNotPersist))
    ensures states[i].pcs[t].SetSpace? ==> states[i].shared.space == None
  {
    ExecutionInv(states, i);
    assert Fits(states[i].shared, t, states[i].pcs[t]);
  }

  // ---- Retrying a failed build -----------------------------------------------------------------

  // A failure leaves no trace: the next thread at the pool lock can take it and builds again.
  lemma FailedBuildIsRetried(s: State, t: nat, s': State, u: nat, c: Choice) returns (s1: State, s2: State)
    requires Inv(s) && t < |s.pcs| && s.pcs[t].BuildPool? && Next(s, t, Fail, s')
    requires u < |s'.pcs| && s'.pcs[u].WaitPoolLock?
    ensures s'.shared.pool == None && s'.shared.builds == 0 && s'.shared.poolLock == None
    ensures Next(s', u, c, s1) && Next(s1, u, c, s2) && s2.pcs[u] == BuildPool(s'.pcs[u].caller)
  {
    assert Fits(s.shared, t, s.pcs[t]);
    var m := Step(s'.shared, u, s'.pcs[u], c);
    s1 := State(s'.pcs[u := m.pc], m.shared);
    var m1 := Step(s1.shared, u, s1.pcs[u], c);
    s2 := State(s1.pcs[u := m1.pc], m1.shared);
  }

  // ---- No deadlock ---------------------------------------------------------------------------

  ghost predicate Waits(pc: Pc) {
    pc.WaitSpaceLock? || pc.WaitPoolLock? || pc.WaitSlot?
  }

  ghost predicate CanMove(s: State, t: nat) {
    t < |s.pcs| && s.pcs[t] != Idle && s.shared.poolSize > 0 && Step(s.shared, t, s.pcs[t], Succeed(0)).To?
  }

  lemma WorkingThreadsMove(s: State, t: nat)
    requires Inv(s) && t < |s.pcs| && s.pcs[t] != Idle && !Waits(s.pcs[t])
    ensures CanMove(s, t)
  {
  }

  // Follow a blocked thread to the holder it waits for; the lock order ends the chase.
  lemma PoolLockMoves(s: State, t: nat) returns (u: nat)
    requires Inv(s) && t < |s.pcs| && s.pcs[t].WaitPoolLock?
    ensures CanMove(s, u)
  {
    if s.shared.poolLock.None? {
      u := t;
    } else {
      u := s.shared.poolLock.value;
      assert Fits(s.shared, u, s.pcs[u]);
      WorkingThreadsMove(s, u);
    }
  }

  lemma SomeoneMoves(s: State, t: nat) returns (u: nat)
    requires Inv(s) && t < |s.pcs| && s.pcs[t] != Idle
    ensures CanMove(s, u)
  {
    match s.pcs[t]
    case WaitPoolLock(_) => u := PoolLockMoves(s, t);
    case WaitSlot(_, slot) =>
      if slot in s.shared.slots {
        u := s.shared.slots[slot];
        WorkingThreadsMove(s, u);
      } else {
        u := t;
      }
    case WaitSpaceLock =>
      if s.shared.spaceLock.None? {
        u := t;
      } else {
        u := s.shared.spaceLock.value;
        assert Fits(s.shared, u, s.pcs[u]);
        if s.pcs[u].WaitPoolLock? {
          u := PoolLockMoves(s, u);
        } else {
          WorkingThreadsMove(s, u);
        }
      }
    case _ =>
      WorkingThreadsMove(s, t);
      u := t;
  }

  // While any call is in progress, some call in progress can take a step.
  lemma NoDeadlock(states: seq<State>, i: nat, t: nat)
    requires Execution(states) && i < |states| && t < |states[i].pcs| && states[i].pcs[t] != Idle
    ensures exists u: nat, s' :: Next(states[i], u, Succeed(0), s') && states[i].pcs[u] != Idle
  {
    ExecutionInv(states, i);
    var s := states[i];
    var u := SomeoneMoves(s, t);
    var m := Step(s.shared, u, s.pcs[u], Succeed(0));
    assert Next(s, u, Succeed(0), State(s.pcs[u := m.pc], m.shared));
  }

  // ---- Every call finishes ---------------------------------------------------------------------

  // Steps a call can still take.
  function Rank(pc: Pc): nat {
    match pc
    case Idle => 0
    case Done(_) => 1
    case UseSlot(_, _) => 2
    case ReadSpace => 2
    case WaitSlot(_, _) => 3
    case SetSpace(_) => 3
    case HashFiles(_) => 4
    case HavePool(caller, _) => if caller.ForSpace? then 5 else 4
    case BuildPool(_) => 6
    case CheckPool(_) => 7
    case WaitPoolLock(_) => 8
    case SlowCheck => 9
    case WaitSpaceLock => 10
    case FastCheck => 11
  }

  lemma RankDrops(s: Shared, t: nat, pc: Pc, c: Choice)
    requires s.poolSize > 0 && pc != Idle && Step(s, t, pc, c).To?
    ensures Rank(Step(s, t, pc, c).pc) < Rank(pc)
  {
  }

  function Work(pcs: seq<Pc>): nat {
    if pcs == [] then 0 else Rank(pcs[0]) + Work(pcs[1..])
  }

  lemma {:induction false} WorkUpdate(pcs: seq<Pc>, t: nat, pc: Pc)
    requires t < |pcs|
    ensures Work(pcs[t := pc]) + Rank(pcs[t]) == Work(pcs) + Rank(pc)
    decreases |pcs|
  {
    if t == 0 {
      assert pcs[t := pc][1..] == pcs[1..];
    } else {
      assert pcs[t := pc][1..] == pcs[1..][t - 1 := pc];
      WorkUpdate(pcs[1..], t - 1, pc);
    }
  }

  // A step that is not a new call.
  ghost predicate Progresses(s: State, s': State) {
    exists t: nat, c :: Next(s, t, c, s') && s.pcs[t] != Idle
  }

  lemma ProgressUsesWork(s: State, s': State)
    requires Progresses(s, s')
    ensures Work(s'.pcs) < Work(s.pcs)
  {
    hide Step, Work, Rank;
    var t: nat, c :| Next(s, t, c, s') && s.pcs[t] != Idle;
    RankDrops(s.shared, t, s.pcs[t], c);
    WorkUpdate(s.pcs, t, s'.pcs[t]);
  }

  // Without new calls a schedule of any fairness is at most `Work` steps long; with
  // `NoDeadlock`, every call in progress returns.
  lemma {:induction false} CallsFinish(states: seq<State>)
    requires states != [] && forall i :: 0 <= i < |states| - 1 ==> Progresses(states[i], states[i + 1])
    ensures |states| - 1 <= Work(states[0].pcs)
    decreases |states|
  {
    if |states| > 1 {
      assert Progresses(states[0], states[1]);
      ProgressUsesWork(states[0], states[1]);
      var rest := states[1..];
      forall i | 0 <= i < |rest| - 1 ensures Progresses(rest[i], rest[i + 1]) {
        assert Progresses(states[i + 1], states[i + 2]);
      }
      CallsFinish(rest);
    }
  }
}
