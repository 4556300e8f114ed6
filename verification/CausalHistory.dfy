/** Devices that tick their own entry, send snapshots and merge snapshots they receive: in
    every run, clocks capture exactly the causal order. */
module CausalHistory {
  import opened VectorClocks

  datatype Step =
    | Tick(dev: Device)
    | Send(dev: Device)
    | Receive(dev: Device, sent: nat)   // merges the snapshot taken by step `sent`

  type Run = seq<Step>

  ghost predicate WellFormed(run: Run) {
    forall j :: 0 <= j < |run| && run[j].Receive? ==> run[j].sent < j && run[run[j].sent].Send?
  }

  // The clock of device `d` after the first `n` steps.
  function After(run: Run, n: nat, d: Device): Clock
    requires n <= |run|
    decreases n
  {
    if n == 0 then map[]
    else
      var own := After(run, n - 1, d);
      match run[n - 1]
      case Tick(dev) => if dev == d then Ticked(own, d) else own
      case Send(_) => own
      case Receive(dev, sent) =>
        if dev == d && sent < n - 1 then Joined(own, After(run, sent + 1, run[sent].dev)) else own
  }

  // The clock a step leaves on its own device.
  function Stamp(run: Run, i: nat): Clock
    requires i < |run|
  {
    After(run, i + 1, run[i].dev)
  }

  // Program order on one device, or a snapshot arriving.
  ghost predicate Direct(run: Run, i: nat, j: nat)
    requires i < j < |run|
  {
    run[i].dev == run[j].dev || (run[j].Receive? && run[j].sent == i)
  }

  // Step `i` is in the causal history of step `j`.
  ghost predicate HappensBefore(run: Run, i: nat, j: nat)
    requires j < |run|
    decreases j
  {
    i == j || exists k :: i <= k < j && Direct(run, k, j) && HappensBefore(run, i, k)
  }

  lemma {:induction false} BeforeTransitive(run: Run, i: nat, j: nat, k: nat)
    requires k < |run| && j <= k && HappensBefore(run, i, j) && HappensBefore(run, j, k)
    ensures i <= j && HappensBefore(run, i, k)
    decreases k
  {
    if j < k {
      var m :| j <= m < k && Direct(run, m, k) && HappensBefore(run, j, m);
      BeforeTransitive(run, i, j, m);
    }
  }

  lemma SameDevice(run: Run, i: nat, k: nat, j: nat)
    requires i <= k <= j < |run| && HappensBefore(run, i, k) && run[k].dev == run[j].dev
    ensures HappensBefore(run, i, j)
  {
    if k < j {
      assert Direct(run, k, j);
    }
  }

  // ---- Clocks only grow --------------------------------------------------------------------

  lemma StepGrows(run: Run, n: nat, d: Device, x: Device)
    requires n < |run|
    ensures Lookup(After(run, n, d), x) <= Lookup(After(run, n + 1, d), x)
  {
    match run[n]
    case Tick(_) =>
    case Send(_) =>
    case Receive(dev, sent) =>
      if dev == d && sent < n {
        LookupJoined(After(run, n, d), After(run, sent + 1, run[sent].dev), x);
      }
  }

  lemma {:induction false} Grows(run: Run, m: nat, n: nat, d: Device, x: Device)
    requires m <= n <= |run|
    ensures Lookup(After(run, m, d), x) <= Lookup(After(run, n, d), x)
    decreases n
  {
    if m < n {
      Grows(run, m, n - 1, d, x);
      StepGrows(run, n - 1, d, x);
    }
  }

  // No device knows more of `x` than `x` itself.
  lemma {:induction false} OwnEntryIsLargest(run: Run, n: nat, d: Device, x: Device)
    requires n <= |run|
    ensures Lookup(After(run, n, d), x) <= Lookup(After(run, n, x), x)
    decreases n
  {
    if n > 0 {
      OwnEntryIsLargest(run, n - 1, d, x);
      StepGrows(run, n - 1, x, x);
      match run[n - 1]
      case Tick(_) =>
      case Send(_) =>
      case Receive(dev, sent) =>
        if dev == d && sent < n - 1 {
          var from := run[sent].dev;
          LookupJoined(After(run, n - 1, d), After(run, sent + 1, from), x);
          OwnEntryIsLargest(run, sent + 1, from, x);
          Grows(run, sent + 1, n - 1, x, x);
        }
    }
  }

  lemma DirectGrows(run: Run, k: nat, j: nat, x: Device)
    requires WellFormed(run) && k < j < |run| && Direct(run, k, j)
    ensures Lookup(Stamp(run, k), x) <= Lookup(Stamp(run, j), x)
  {
    if run[k].dev == run[j].dev {
      Grows(run, k + 1, j + 1, run[j].dev, x);
    } else {
      LookupJoined(After(run, j, run[j].dev), After(run, k + 1, run[k].dev), x);
    }
  }

  lemma {:induction false} StampsGrow(run: Run, i: nat, j: nat, x: Device)
    requires WellFormed(run) && j < |run| && i <= j && HappensBefore(run, i, j)
    ensures Lookup(Stamp(run, i), x) <= Lookup(Stamp(run, j), x)
    decreases j
  {
    hide Stamp, Direct, WellFormed, Lookup;
    if i < j {
      var k :| i <= k < j && Direct(run, k, j) && HappensBefore(run, i, k);
      StampsGrow(run, i, k, x);
      DirectGrows(run, k, j, x);
    }
  }

  // ---- What is known was caused --------------------------------------------------------------

  // Nobody can know of a tick before it happens.
  lemma NotKnownBefore(run: Run, i: nat, n: nat, d: Device)
    requires i < |run| && run[i].Tick? && n <= i
    ensures Lookup(After(run, n, d), run[i].dev) < Lookup(Stamp(run, i), run[i].dev)
  {
    var x := run[i].dev;
    OwnEntryIsLargest(run, n, d, x);
    Grows(run, n, i, x, x);
  }

  // A device that knows of tick `i` has a step with `i` in its history.
  lemma {:induction false} KnowledgeHasCause(run: Run, n: nat, d: Device, i: nat) returns (k: nat)
    requires WellFormed(run) && n <= |run| && i < n && run[i].Tick?
    requires Lookup(After(run, n, d), run[i].dev) >= Lookup(Stamp(run, i), run[i].dev)
    ensures i <= k < n && run[k].dev == d && HappensBefore(run, i, k)
    decreases n
  {
    var x, last := run[i].dev, n - 1;
    if run[last].dev == d && d == x {
      k := last;
      SameDevice(run, i, i, last);
    } else if Lookup(After(run, last, d), x) >= Lookup(Stamp(run, i), x) {
      if i == last {
        NotKnownBefore(run, i, last, d);
      }
      k := KnowledgeHasCause(run, last, d, i);
    } else {
      var sent := run[last].sent;
      LookupJoined(After(run, last, d), After(run, sent + 1, run[sent].dev), x);
      if sent < i {
        NotKnownBefore(run, i, sent + 1, run[sent].dev);
      }
      var m := KnowledgeHasCause(run, sent + 1, run[sent].dev, i);
      SameDevice(run, i, m, sent);
      assert Direct(run, sent, last);
      k := last;
    }
  }

  // The clock of step `j` dominates the clock of tick `i` exactly when `i` is in its history.
  lemma DominatesIffCaused(run: Run, i: nat, j: nat)
    requires WellFormed(run) && i < |run| && j < |run| && run[i].Tick?
    ensures Dominates(Stamp(run, j), Stamp(run, i)) <==> i <= j && HappensBefore(run, i, j)
  {
    DominatesIsLeq(Stamp(run, j), Stamp(run, i));
    if Leq(Stamp(run, i), Stamp(run, j)) {
      assert Lookup(Stamp(run, i), run[i].dev) <= Lookup(Stamp(run, j), run[i].dev);
      if j < i {
        NotKnownBefore(run, i, j + 1, run[j].dev);
      }
      var k := KnowledgeHasCause(run, j + 1, run[j].dev, i);
      SameDevice(run, i, k, j);
    }
    if i <= j && HappensBefore(run, i, j) {
      forall x ensures Lookup(Stamp(run, i), x) <= Lookup(Stamp(run, j), x) {
        StampsGrow(run, i, j, x);
      }
    }
  }

  // What a device knows of `x` was ticked by `x`.
  lemma {:induction false} KnowledgeWasTicked(run: Run, n: nat, d: Device, x: Device) returns (t: nat)
    requires WellFormed(run) && n <= |run| && Lookup(After(run, n, d), x) > 0
    ensures t < n && run[t].Tick? && run[t].dev == x && Lookup(Stamp(run, t), x) == Lookup(After(run, n, d), x)
    decreases n
  {
    var last, v := n - 1, Lookup(After(run, n, d), x);
    if Lookup(After(run, last, d), x) == v {
      t := KnowledgeWasTicked(run, last, d, x);
    } else if run[last].Tick? {
      t := last;
    } else {
      var sent := run[last].sent;
      LookupJoined(After(run, last, d), After(run, sent + 1, run[sent].dev), x);
      t := KnowledgeWasTicked(run, sent + 1, run[sent].dev, x);
    }
  }

  // Every tick in the causal history of step `i` is in that of step `j`.
  ghost predicate TicksWithin(run: Run, i: nat, j: nat)
    requires i < |run| && j < |run|
  {
    forall t: nat :: t <= i && run[t].Tick? && HappensBefore(run, t, i) ==> t <= j && HappensBefore(run, t, j)
  }

  lemma TicksWithinDominates(run: Run, i: nat, j: nat)
    requires WellFormed(run) && i < |run| && j < |run| && TicksWithin(run, i, j)
    ensures Dominates(Stamp(run, j), Stamp(run, i))
  {
    DominatesIsLeq(Stamp(run, j), Stamp(run, i));
    forall x ensures Lookup(Stamp(run, i), x) <= Lookup(Stamp(run, j), x) {
      if Lookup(Stamp(run, i), x) > 0 {
        var t := KnowledgeWasTicked(run, i + 1, run[i].dev, x);
        var k := KnowledgeHasCause(run, i + 1, run[i].dev, t);
        SameDevice(run, t, k, i);
        StampsGrow(run, t, j, x);
      }
    }
  }

  // For any two steps, ticks, sends and receives alike: the clock of `j` dominates the clock of
  // `i` exactly when every tick in the history of `i` is in the history of `j`.
  lemma DominatesIffTicksWithin(run: Run, i: nat, j: nat)
    requires WellFormed(run) && i < |run| && j < |run|
    ensures Dominates(Stamp(run, j), Stamp(run, i)) <==> TicksWithin(run, i, j)
  {
    if TicksWithin(run, i, j) {
      TicksWithinDominates(run, i, j);
    }
    if Dominates(Stamp(run, j), Stamp(run, i)) {
      DominatesIsLeq(Stamp(run, j), Stamp(run, i));
      forall t: nat | t <= i && run[t].Tick? && HappensBefore(run, t, i) ensures t <= j && HappensBefore(run, t, j) {
        DominatesIffCaused(run, t, i);
        DominatesIsLeq(Stamp(run, i), Stamp(run, t));
        DominatesIsLeq(Stamp(run, j), Stamp(run, t));
        DominatesIffCaused(run, t, j);
      }
    }
  }

  // Different ticks never carry equal clocks.
  lemma TicksAreDistinct(run: Run, i: nat, j: nat)
    requires WellFormed(run) && i < j < |run| && run[i].Tick? && run[j].Tick?
    ensures !Dominates(Stamp(run, i), Stamp(run, j)) && Stamp(run, i) != Stamp(run, j)
  {
    DominatesIffCaused(run, j, i);
    DominatesIsLeq(Stamp(run, i), Stamp(run, i));
  }

  // ---- Entries count ticks ---------------------------------------------------------------------

  ghost predicate TicksOn(run: Run, i: nat, x: Device)
    requires i < |run|
  {
    run[i] == Tick(x)
  }

  ghost function Ticks(run: Run, n: nat, x: Device): nat
    requires n <= |run|
  {
    if n == 0 then 0 else Ticks(run, n - 1, x) + if TicksOn(run, n - 1, x) then 1 else 0
  }

  // The ticks of `x` among the first `n` steps that are in the causal history of step `j`.
  ghost function TicksBehind(run: Run, n: nat, x: Device, j: nat): nat
    requires n <= j + 1 <= |run|
  {
    if n == 0 then 0
    else TicksBehind(run, n - 1, x, j) + if TicksOn(run, n - 1, x) && HappensBefore(run, n - 1, j) then 1 else 0
  }

  // A device's own entry is the number of its ticks.
  lemma {:induction false} OwnEntryCounts(run: Run, n: nat, x: Device)
    requires n <= |run|
    ensures Lookup(After(run, n, x), x) == Ticks(run, n, x)
  {
    if n > 0 {
      OwnEntryCounts(run, n - 1, x);
      match run[n - 1]
      case Tick(_) =>
      case Send(_) =>
      case Receive(dev, sent) =>
        if dev == x && sent < n - 1 {
          LookupJoined(After(run, n - 1, x), After(run, sent + 1, run[sent].dev), x);
          OwnEntryIsLargest(run, sent + 1, run[sent].dev, x);
          Grows(run, sent + 1, n - 1, x, x);
        }
    }
  }

  // A tick is in the history of `j` exactly when it is among the first that `j` has an entry for.
  lemma TickIsBehind(run: Run, i: nat, x: Device, j: nat)
    requires WellFormed(run) && i <= j < |run| && TicksOn(run, i, x)
    ensures HappensBefore(run, i, j) <==> Ticks(run, i + 1, x) <= Lookup(Stamp(run, j), x)
  {
    OwnEntryCounts(run, i + 1, x);
    if Lookup(Stamp(run, i), x) <= Lookup(Stamp(run, j), x) {
      var k := KnowledgeHasCause(run, j + 1, run[j].dev, i);
      SameDevice(run, i, k, j);
    }
    if HappensBefore(run, i, j) {
      StampsGrow(run, i, j, x);
    }
  }

  lemma {:induction false} CountsFirst(run: Run, n: nat, x: Device, j: nat)
    requires WellFormed(run) && n <= j + 1 <= |run|
    ensures TicksBehind(run, n, x, j) ==
            if Ticks(run, n, x) <= Lookup(Stamp(run, j), x) then Ticks(run, n, x) else Lookup(Stamp(run, j), x)
  {
    hide Stamp, HappensBefore, WellFormed, Lookup;
    if n > 0 {
      CountsFirst(run, n - 1, x, j);
      if TicksOn(run, n - 1, x) {
        TickIsBehind(run, n - 1, x, j);
      }
    }
  }

  // Every entry of a clock is the number of that device's ticks in the causal history of its step.
  lemma EntryCountsHistory(run: Run, j: nat, x: Device)
    requires WellFormed(run) && j < |run|
    ensures Lookup(Stamp(run, j), x) == TicksBehind(run, j + 1, x, j)
  {
    hide Lookup, TicksBehind, Ticks;
    CountsFirst(run, j + 1, x, j);
    OwnEntryCounts(run, j + 1, x);
    OwnEntryIsLargest(run, j + 1, run[j].dev, x);
  }
}
