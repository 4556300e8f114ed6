/** Resolving conflicting sync entries, and when every device ends with the same one. */
module ConflictResolution {
  import opened VectorClocks
  import opened CausalHistory

  datatype Operation = Upsert | Delete

  datatype SyncEntry = SyncEntry(memoryId: int, operation: Operation, clock: Clock, timestamp: int, deviceId: Device)

  datatype Resolution = KeepLocal | KeepRemote

  // The dominating clock wins; concurrent entries go to the later timestamp.
  function ResolveConflict(local: SyncEntry, remote: SyncEntry): Resolution {
    if Dominates(local.clock, remote.clock) then KeepLocal
    else if Dominates(remote.clock, local.clock) then KeepRemote
    else if local.timestamp >= remote.timestamp then KeepLocal
    else KeepRemote
  }

  function Winner(local: SyncEntry, remote: SyncEntry): SyncEntry {
    match ResolveConflict(local, remote) case KeepLocal => local case KeepRemote => remote
  }

  // A device keeps the first entry delivered and resolves every later one against it.
  function Fold(deliveries: seq<SyncEntry>): SyncEntry
    requires deliveries != []
  {
    var n := |deliveries| - 1;
    if n == 0 then deliveries[0] else Winner(Fold(deliveries[..n]), deliveries[n])
  }

  // Any order, any repetition, as long as every entry of `all` arrives and nothing else does.
  ghost predicate Delivers(deliveries: seq<SyncEntry>, all: set<SyncEntry>) {
    deliveries != [] && forall e :: e in deliveries <==> e in all
  }

  ghost predicate ConvergesTo(all: set<SyncEntry>, m: SyncEntry) {
    forall deliveries :: Delivers(deliveries, all) ==> Fold(deliveries) == m
  }

  // An entry that wins from either side against every other one.
  ghost predicate Champion(all: set<SyncEntry>, m: SyncEntry) {
    m in all && forall e :: e in all && e != m ==> Winner(m, e) == m && Winner(e, m) == m
  }

  lemma {:induction false} FoldIsDelivered(deliveries: seq<SyncEntry>)
    requires deliveries != []
    ensures Fold(deliveries) in deliveries
  {
    var n := |deliveries| - 1;
    if n > 0 {
      FoldIsDelivered(deliveries[..n]);
    }
  }

  lemma {:induction false} ChampionHolds(all: set<SyncEntry>, m: SyncEntry, deliveries: seq<SyncEntry>)
    requires Champion(all, m) && m in deliveries && forall e :: e in deliveries ==> e in all
    ensures Fold(deliveries) == m
  {
    var n := |deliveries| - 1;
    if n > 0 {
      var front := deliveries[..n];
      assert deliveries == front + [deliveries[n]];
      FoldIsDelivered(front);
      assert Winner(m, m) in {m};
      if m in front {
        ChampionHolds(all, m, front);
      }
    }
  }

  lemma {:induction false} Enumerate(all: set<SyncEntry>) returns (q: seq<SyncEntry>)
    ensures forall e :: e in q <==> e in all
  {
    if all == {} {
      q := [];
    } else {
      var x :| x in all;
      var rest := Enumerate(all - {x});
      q := rest + [x];
    }
  }

  // Folding on from `front`, the result is either where it stood or something delivered since.
  lemma {:induction false} FoldContinues(front: seq<SyncEntry>, more: seq<SyncEntry>)
    requires front != []
    ensures Fold(front + more) == Fold(front) || Fold(front + more) in more
  {
    if more == [] {
      assert front + more == front;
    } else {
      var n := |more| - 1;
      assert (front + more)[..|front| + n] == front + more[..n];
      FoldContinues(front, more[..n]);
    }
  }

  lemma FoldPair(a: SyncEntry, b: SyncEntry)
    ensures Fold([a, b]) == Winner(a, b)
  {
    assert [a, b][..1] == [a];
  }

  lemma ConvergedIsDelivered(all: set<SyncEntry>, m: SyncEntry)
    requires all != {} && ConvergesTo(all, m)
    ensures m in all
  {
    var q := Enumerate(all);
    var x :| x in all;
    assert x in q;
    assert Delivers(q, all);
    FoldIsDelivered(q);
  }

  // Delivering `e` once more must not dislodge `m`.
  lemma ConvergedStays(all: set<SyncEntry>, m: SyncEntry, e: SyncEntry)
    requires ConvergesTo(all, m) && e in all
    ensures Winner(m, e) == m
  {
    hide ResolveConflict;
    var q := Enumerate(all);
    assert e in q;
    assert Delivers(q, all) && Delivers(q + [e], all);
    assert (q + [e])[..|q|] == q;
  }

  // Delivering `e` first and `m` second, `m` must take over: it never arrives again.
  lemma ConvergedTakesOver(all: set<SyncEntry>, m: SyncEntry, e: SyncEntry)
    requires ConvergesTo(all, m) && e in all && m in all && e != m
    ensures Winner(e, m) == m
  {
    hide ResolveConflict;
    var others := Enumerate(all - {m});
    assert Delivers([e, m] + others, all);
    FoldContinues([e, m], others);
    FoldPair(e, m);
  }

  // Every delivery order ends at `m` exactly when `m` beats all others from both sides.
  lemma ConvergesIffChampion(all: set<SyncEntry>, m: SyncEntry)
    requires all != {}
    ensures ConvergesTo(all, m) <==> Champion(all, m)
  {
    hide Winner, Fold;
    if Champion(all, m) {
      forall deliveries | Delivers(deliveries, all) ensures Fold(deliveries) == m {
        ChampionHolds(all, m, deliveries);
      }
    }
    if ConvergesTo(all, m) {
      ConvergedIsDelivered(all, m);
      forall e | e in all && e != m ensures Winner(m, e) == m && Winner(e, m) == m {
        ConvergedStays(all, m, e);
        ConvergedTakesOver(all, m, e);
      }
    }
  }

  // `m` strictly dominates `e`, or the two are concurrent and `m` is later.
  ghost predicate Outranks(m: SyncEntry, e: SyncEntry) {
    && !Dominates(e.clock, m.clock)
    && (Dominates(m.clock, e.clock) || m.timestamp > e.timestamp)
  }

  // The remote entry is kept exactly when it outranks the local one; every tie goes to the local one.
  lemma RemoteIsKeptExactly(local: SyncEntry, remote: SyncEntry)
    ensures ResolveConflict(local, remote) == KeepRemote <==> Outranks(remote, local)
    ensures Winner(local, remote) == if Outranks(remote, local) then remote else local
  {
    hide Dominates;
  }

  // A champion in terms of clocks and timestamps.
  lemma ChampionOutranks(all: set<SyncEntry>, m: SyncEntry)
    ensures Champion(all, m) <==> m in all && forall e :: e in all && e != m ==> Outranks(m, e)
  {
    hide Dominates;
    forall e | e != m ensures Winner(m, e) == m && Winner(e, m) == m <==> Outranks(m, e) {
    }
  }

  ghost predicate DistinctTimestamps(all: set<SyncEntry>) {
    forall a, b :: a in all && b in all && a != b ==> a.timestamp != b.timestamp
  }

  // A clock that strictly dominates another comes with the later timestamp.
  ghost predicate StrictlyLater(all: set<SyncEntry>) {
    forall a, b :: a in all && b in all && Dominates(a.clock, b.clock) && !Dominates(b.clock, a.clock) ==>
      a.timestamp > b.timestamp
  }

  ghost predicate IsLatest(all: set<SyncEntry>, m: SyncEntry) {
    m in all && forall e :: e in all ==> e.timestamp <= m.timestamp
  }

  // Distinct timestamps that follow strict dominance are not enough. Under them the entries
  // converge exactly when no other entry's clock and the latest one's dominate each other, and
  // then to the latest entry.
  lemma StrictlyLaterConverges(all: set<SyncEntry>, m: SyncEntry)
    requires DistinctTimestamps(all) && StrictlyLater(all) && IsLatest(all, m)
    ensures ConvergesTo(all, m) <==>
      forall e :: e in all && e != m ==> !(Dominates(e.clock, m.clock) && Dominates(m.clock, e.clock))
    ensures forall m' :: ConvergesTo(all, m') ==> m' == m
  {
    hide Winner, Fold, Dominates;
    ConvergesIffChampion(all, m);
    ChampionOutranks(all, m);
    forall m' | ConvergesTo(all, m') ensures m' == m {
      ConvergesIffChampion(all, m');
      ChampionOutranks(all, m');
    }
  }

  // Distinct timestamps that agree with clock dominance.
  ghost predicate CausalTimestamps(all: set<SyncEntry>) {
    forall a, b :: a in all && b in all && a != b ==>
      a.timestamp != b.timestamp && (Dominates(a.clock, b.clock) ==> a.timestamp > b.timestamp)
  }

  lemma Latest(all: set<SyncEntry>) returns (m: SyncEntry)
    requires all != {}
    ensures m in all && forall e :: e in all ==> e.timestamp <= m.timestamp
  {
    var x :| x in all;
    if all == {x} {
      m := x;
    } else {
      var y := Latest(all - {x});
      m := if x.timestamp < y.timestamp then y else x;
      assert forall e :: e in all ==> e == x || e in all - {x};
    }
  }

  // Under causal timestamps every device ends with the latest entry.
  lemma CausalTimestampsConverge(all: set<SyncEntry>) returns (m: SyncEntry)
    requires all != {} && CausalTimestamps(all)
    ensures ConvergesTo(all, m) && m in all && forall e :: e in all ==> e.timestamp <= m.timestamp
  {
    m := Latest(all);
    ConvergesIffChampion(all, m);
  }

  // Entries made by ticks of a run.
  ghost predicate MadeBy(run: Run, all: set<SyncEntry>, step: SyncEntry -> nat) {
    && (forall e :: e in all ==> step(e) < |run| && run[step(e)].Tick? && e.clock == Stamp(run, step(e)))
    && (forall a, b :: a in all && b in all && a != b ==> step(a) != step(b))
  }

  // Entries of a run whose timestamps are distinct and follow the causal order converge.
  lemma RunsConverge(run: Run, all: set<SyncEntry>, step: SyncEntry -> nat) returns (m: SyncEntry)
    requires WellFormed(run) && all != {} && MadeBy(run, all, step)
    requires forall a, b :: a in all && b in all && a != b ==> a.timestamp != b.timestamp
    requires forall a, b :: a in all && b in all && step(a) < step(b) && HappensBefore(run, step(a), step(b)) ==>
               a.timestamp < b.timestamp
    ensures ConvergesTo(all, m) && m in all
  {
    forall a, b | a in all && b in all && a != b && Dominates(a.clock, b.clock) ensures a.timestamp > b.timestamp {
      DominatesIffCaused(run, step(b), step(a));
    }
    m := CausalTimestampsConverge(all);
  }

  // A clock that dominates with an earlier timestamp makes three entries chase each other.
  lemma ThreeEntryCycle(a: SyncEntry, b: SyncEntry, c: SyncEntry)
    requires a.clock == map["x" := 1] && b.clock == map["y" := 1] && c.clock == map["x" := 2]
    requires a.timestamp == 3 && b.timestamp == 2 && c.timestamp == 1
    ensures Winner(a, b) == a && Winner(b, c) == b && Winner(c, a) == c && Winner(a, c) == c
    ensures forall m :: !ConvergesTo({a, b, c}, m)
  {
    assert "x" in a.clock && "y" in b.clock && "x" in c.clock && "x" != "y" by {
      assert "x"[0] != "y"[0];
    }
    assert !Dominates(a.clock, b.clock) by { assert Lookup(a.clock, "y") < b.clock["y"]; }
    assert !Dominates(b.clock, a.clock) by { assert Lookup(b.clock, "x") < a.clock["x"]; }
    assert !Dominates(b.clock, c.clock) by { assert Lookup(b.clock, "x") < c.clock["x"]; }
    assert !Dominates(c.clock, b.clock) by { assert Lookup(c.clock, "y") < b.clock["y"]; }
    assert !Dominates(a.clock, c.clock) by { assert Lookup(a.clock, "x") < c.clock["x"]; }
    assert Dominates(c.clock, a.clock);
    forall m ensures !ConvergesTo({a, b, c}, m) {
      ConvergesIffChampion({a, b, c}, m);
    }
  }

  // Two entries under one clock: whichever arrives first stays, whatever the timestamps.
  lemma EqualClocksDiverge(a: SyncEntry, b: SyncEntry, m: SyncEntry)
    requires a != b && a.clock == b.clock
    ensures Winner(a, b) == a && Winner(b, a) == b && !ConvergesTo({a, b}, m)
  {
    DominatesIsLeq(a.clock, b.clock);
    ConvergesIffChampion({a, b}, m);
  }
}
