/** Vector clocks: the mutable clock of a device, and the join-semilattice its values form. */
module VectorClocks {
  type Device = string
  type Clock = map<Device, nat>

  // A device without an entry counts as zero.
  function Lookup(c: Clock, d: Device): nat {
    if d in c then c[d] else 0
  }

  ghost predicate Leq(a: Clock, b: Clock) {
    forall d :: Lookup(a, d) <= Lookup(b, d)
  }

  predicate Dominates(a: Clock, b: Clock) {
    forall d :: d in b ==> Lookup(a, d) >= b[d]
  }

  function Ticked(c: Clock, d: Device): Clock {
    c[d := Lookup(c, d) + 1]
  }

  function Max(a: nat, b: nat): nat {
    if a < b then b else a
  }

  function Joined(a: Clock, b: Clock): Clock {
    map d | d in a.Keys + b.Keys :: Max(Lookup(a, d), Lookup(b, d))
  }

  lemma LookupJoined(a: Clock, b: Clock, d: Device)
    ensures Lookup(Joined(a, b), d) == Max(Lookup(a, d), Lookup(b, d))
  {
    assert d in Joined(a, b) <==> d in a.Keys + b.Keys;
  }

  lemma DominatesIsLeq(a: Clock, b: Clock)
    ensures Dominates(a, b) <==> Leq(b, a)
  {
    if Dominates(a, b) {
      forall d ensures Lookup(b, d) <= Lookup(a, d) {
      }
    }
    if Leq(b, a) {
      forall d | d in b ensures Lookup(a, d) >= b[d] {
        assert Lookup(b, d) <= Lookup(a, d);
      }
    }
  }

  // Merging yields the least clock that dominates both.
  lemma JoinIsLeastUpperBound(a: Clock, b: Clock, c: Clock)
    ensures Dominates(Joined(a, b), a) && Dominates(Joined(a, b), b)
    ensures Dominates(c, Joined(a, b)) <==> Dominates(c, a) && Dominates(c, b)
  {
    DominatesIsLeq(Joined(a, b), a);
    DominatesIsLeq(Joined(a, b), b);
    DominatesIsLeq(c, Joined(a, b));
    DominatesIsLeq(c, a);
    DominatesIsLeq(c, b);
    forall d ensures Lookup(Joined(a, b), d) == Max(Lookup(a, d), Lookup(b, d)) {
      LookupJoined(a, b, d);
    }
    if Leq(Joined(a, b), c) {
      forall d ensures Lookup(a, d) <= Lookup(c, d) && Lookup(b, d) <= Lookup(c, d) {
        assert Lookup(Joined(a, b), d) <= Lookup(c, d);
      }
    }
  }

  lemma SameClock(a: Clock, b: Clock)
    requires a.Keys == b.Keys && forall d :: d in a ==> Lookup(a, d) == Lookup(b, d)
    ensures a == b
  {
    assert forall d :: d in a ==> Lookup(a, d) == a[d] && Lookup(b, d) == b[d];
  }

  // Merging in any order, and as often as one likes, gives the same clock.
  lemma JoinCommutes(a: Clock, b: Clock)
    ensures Joined(a, a) == a && Joined(a, b) == Joined(b, a)
  {
    SameClock(Joined(a, a), a);
    SameClock(Joined(a, b), Joined(b, a));
  }

  lemma JoinAssociates(a: Clock, b: Clock, c: Clock)
    ensures Joined(Joined(a, b), c) == Joined(a, Joined(b, c))
  {
    var l, r := Joined(Joined(a, b), c), Joined(a, Joined(b, c));
    forall d ensures Lookup(l, d) == Lookup(r, d) {
      LookupJoined(Joined(a, b), c, d);
      LookupJoined(a, b, d);
      LookupJoined(a, Joined(b, c), d);
      LookupJoined(b, c, d);
    }
    hide Lookup, Max;
    assert l.Keys == r.Keys;
    SameClock(l, r);
  }

  class VectorClock {
    var clocks: Clock

    constructor ()
      ensures clocks == map[]
    {
      clocks := map[];
    }

    method Tick(device: Device)
      modifies this
      ensures clocks == Ticked(old(clocks), device)
    {
      if device !in clocks {
        clocks := clocks[device := 0];
      }
      clocks := clocks[device := clocks[device] + 1];
    }

    function Get(device: Device): nat
      reads this
    {
      if device in clocks then clocks[device] else 0
    }

    // Visits the other clock's entries in whatever order its hash map yields.
    method Merge(other: VectorClock)
      modifies this
      ensures clocks == Joined(old(clocks), old(other.clocks))
    {
      var theirs := other.clocks;
      var left := theirs.Keys;
      while left != {}
        invariant left <= theirs.Keys
        invariant clocks.Keys == old(clocks).Keys + (theirs.Keys - left)
        invariant forall d :: d in clocks ==>
          clocks[d] == Max(Lookup(old(clocks), d), if d in left then 0 else Lookup(theirs, d))
      {
        var device :| device in left;
        var seq' := theirs[device];
        if device !in clocks {
          clocks := clocks[device := 0];
        }
        clocks := clocks[device := Max(clocks[device], seq')];
        left := left - {device};
      }
      assert forall d :: d in clocks ==> clocks[d] == Joined(old(clocks), theirs)[d];
    }

    method DominatesClock(other: VectorClock) returns (r: bool)
      ensures r <==> Dominates(clocks, other.clocks)
    {
      var left := other.clocks.Keys;
      while left != {}
        invariant left <= other.clocks.Keys
        invariant forall d :: d in other.clocks && d !in left ==> Lookup(clocks, d) >= other.clocks[d]
      {
        var device :| device in left;
        if Get(device) < other.clocks[device] {
          return false;
        }
        left := left - {device};
      }
      return true;
    }

    // Neither clock dominates: some device is ahead on each side.
    method IsConcurrent(other: VectorClock) returns (r: bool)
      ensures r <==> (exists d :: Lookup(clocks, d) < Lookup(other.clocks, d)) && (exists d :: Lookup(other.clocks, d) < Lookup(clocks, d))
    {
      DominatesIsLeq(clocks, other.clocks);
      DominatesIsLeq(other.clocks, clocks);
      var a := DominatesClock(other);
      var b := other.DominatesClock(this);
      r := !a && !b;
    }
  }
}
