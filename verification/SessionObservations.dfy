/** Observations attached to session groups: each one within the byte budget is appended once, to
    the group of its own episode. The storage lookup is a parameter: its answer, or its failure. */
module SessionObservations {
  import opened Common
  import opened SessionGroups

  const MAX_HYDRATED_BYTES: nat := 4 * 1024 * 1024

  // A listed observation and the size of its serialisation, if it can be serialised.
  datatype Enrichment = Enrichment(id: Uuid, episode: Uuid, eventTime: Option<int>, createdAt: int, bytes: Option<nat>)

  function AsMemory(k: Enrichment): Memory {
    Observation(k.id, k.episode, k.eventTime, k.createdAt)
  }

  // The observations kept when `used` bytes are spoken for: those that cannot be serialised are
  // skipped, and the first one over the limit ends the list.
  function Kept(listed: seq<Enrichment>, used: nat): seq<Enrichment> {
    if listed == [] then []
    else match listed[0].bytes
      case None => Kept(listed[1..], used)
      case Some(b) =>
        if used + b > MAX_HYDRATED_BYTES then [] else [listed[0]] + Kept(listed[1..], used + b)
  }

  function Size(kept: seq<Enrichment>): nat {
    if kept == [] then 0 else (if kept[0].bytes.Some? then kept[0].bytes.value else 0) + Size(kept[1..])
  }

  function OfEpisode(kept: seq<Enrichment>, e: Uuid): seq<Enrichment> {
    if kept == [] then []
    else
      var last := kept[|kept| - 1];
      OfEpisode(kept[..|kept| - 1], e) + if last.episode == e then [last] else []
  }

  function AtScore(kept: seq<Enrichment>, score: real): (r: seq<Scored>)
    ensures |r| == |kept|
  {
    seq(|kept|, i requires 0 <= i < |kept| => Scored(AsMemory(kept[i]), score))
  }

  // The first group of the session, if there is one.
  function Home(groups: seq<Group>, e: Uuid): (i: nat)
    ensures i <= |groups|
    ensures i < |groups| ==> groups[i].session == Some(e)
    ensures forall j :: 0 <= j < i ==> groups[j].session != Some(e)
  {
    if groups == [] || groups[0].session == Some(e) then 0 else 1 + Home(groups[1..], e)
  }

  // What group `i` receives.
  function Appendix(groups: seq<Group>, kept: seq<Enrichment>, i: nat): seq<Scored>
    requires i < |groups|
  {
    match groups[i].session
    case None => []
    case Some(e) => if Home(groups, e) == i then AtScore(OfEpisode(kept, e), groups[i].score) else []
  }

  function EnrichedGroup(groups: seq<Group>, kept: seq<Enrichment>, i: nat): Group
    requires i < |groups|
  {
    groups[i].(members := groups[i].members + Appendix(groups, kept, i))
  }

  function Enriched(groups: seq<Group>, kept: seq<Enrichment>): (r: seq<Group>)
    ensures |r| == |groups|
    ensures forall i :: 0 <= i < |groups| ==> r[i] == EnrichedGroup(groups, kept, i)
  {
    seq(|groups|, i requires 0 <= i < |groups| => EnrichedGroup(groups, kept, i))
  }

  // ---- The procedure ---------------------------------------------------------------------------

  ghost predicate Indexed(kept: seq<Enrichment>, byEpisode: map<Uuid, seq<Enrichment>>) {
    forall e :: (e in byEpisode <==> OfEpisode(kept, e) != []) && (e in byEpisode ==> byEpisode[e] == OfEpisode(kept, e))
  }

  lemma IndexOne(kept: seq<Enrichment>, byEpisode: map<Uuid, seq<Enrichment>>, k: Enrichment)
    requires Indexed(kept, byEpisode)
    ensures Indexed(kept + [k], byEpisode[k.episode := (if k.episode in byEpisode then byEpisode[k.episode] else []) + [k]])
  {
    OfEpisodeLast(kept, k, k.episode);
    forall e ensures OfEpisode(kept + [k], e) == if k.episode == e then OfEpisode(kept, e) + [k] else OfEpisode(kept, e) {
      OfEpisodeLast(kept, k, e);
    }
  }

  lemma OfEpisodeLast(kept: seq<Enrichment>, k: Enrichment, e: Uuid)
    ensures OfEpisode(kept + [k], e) == if k.episode == e then OfEpisode(kept, e) + [k] else OfEpisode(kept, e)
  {
    assert (kept + [k])[..|kept|] == kept;
  }

  method BucketObservations(listed: seq<Enrichment>) returns (byEpisode: map<Uuid, seq<Enrichment>>)
    ensures Indexed(Kept(listed, 0), byEpisode)
  {
    hide Indexed, Kept;
    byEpisode := map[];
    KeptEnd(listed, 0, []);
    var used: nat := 0;
    ghost var done: seq<Enrichment> := [];
    IndexNone(done);
    var i := 0;
    while i < |listed|
      invariant i <= |listed| && Kept(listed, 0) == done + Kept(listed[i..], used)
      invariant Indexed(done, byEpisode)
    {
      KeptStep(listed, i, used, done);
      var obs := listed[i];
      i := i + 1;
      if obs.bytes.Some? {
        if used + obs.bytes.value > MAX_HYDRATED_BYTES {
          return;
        }
        used := used + obs.bytes.value;
        IndexOne(done, byEpisode, obs);
        byEpisode := byEpisode[obs.episode := (if obs.episode in byEpisode then byEpisode[obs.episode] else []) + [obs]];
        done := done + [obs];
      }
    }
    KeptEnd(listed, used, done);
  }

  lemma KeptEnd(listed: seq<Enrichment>, used: nat, done: seq<Enrichment>)
    ensures done + Kept(listed[|listed|..], used) == done
    ensures [] + Kept(listed[0..], 0) == Kept(listed, 0)
  {
    assert listed[0..] == listed;
  }

  lemma IndexNone(kept: seq<Enrichment>)
    requires kept == []
    ensures Indexed(kept, map[])
  {
  }

  lemma KeptStep(listed: seq<Enrichment>, i: nat, used: nat, done: seq<Enrichment>)
    requires i < |listed|
    ensures done + Kept(listed[i..], used) ==
      match listed[i].bytes
      case None => done + Kept(listed[i + 1..], used)
      case Some(b) => if used + b > MAX_HYDRATED_BYTES then done else (done + [listed[i]]) + Kept(listed[i + 1..], used + b)
  {
    assert listed[i..][1..] == listed[i + 1..];
  }

  method AttachObservations(groups: seq<Group>, listing: Result<seq<Enrichment>, string>) returns (r: seq<Group>)
    ensures r == if listing.Ok? then Enriched(groups, Kept(listing.value, 0)) else groups
  {
    hide Kept, Indexed, Remaining, Enriched, EnrichedGroup, AtScore;
    if forall i :: 0 <= i < |groups| ==> groups[i].session.None? {
      if listing.Ok? {
        NoSessions(groups, Kept(listing.value, 0));
      }
      return groups;
    }
    if listing.Err? {
      return groups;
    }
    if listing.value == [] {
      NothingListed(listing.value);
      EnrichedByNothing(groups, []);
      return groups;
    }
    var byEpisode := BucketObservations(listing.value);
    ghost var kept := Kept(listing.value, 0);
    NothingTaken(groups, kept, byEpisode);
    r := [];
    for i := 0 to |groups|
      invariant r == Enriched(groups, kept)[..i]
      invariant Remaining(groups, kept, byEpisode, i)
    {
      EnrichStep(groups, kept, byEpisode, i);
      var g := groups[i];
      if g.session.Some? && g.session.value in byEpisode {
        var observations := byEpisode[g.session.value];
        byEpisode := byEpisode - {g.session.value};
        g := g.(members := g.members + AtScore(observations, g.score));
      }
      PrefixGrows(Enriched(groups, kept), i);
      r := r + [g];
    }
  }

  lemma PrefixGrows<T>(s: seq<T>, i: nat)
    requires i < |s|
    ensures s[..i + 1] == s[..i] + [s[i]]
  {
  }

  // Before group `i`, the buckets left are those of the episodes that no earlier group took.
  ghost predicate Remaining(groups: seq<Group>, kept: seq<Enrichment>, byEpisode: map<Uuid, seq<Enrichment>>, i: nat) {
    forall e ::
      && (e in byEpisode <==> OfEpisode(kept, e) != [] && Home(groups, e) >= i)
      && (e in byEpisode ==> byEpisode[e] == OfEpisode(kept, e))
  }

  lemma NothingListed(listed: seq<Enrichment>)
    requires listed == []
    ensures Kept(listed, 0) == []
  {
  }

  lemma EnrichedByNothing(groups: seq<Group>, kept: seq<Enrichment>)
    requires kept == []
    ensures Enriched(groups, kept) == groups
  {
    forall i | 0 <= i < |groups| ensures Enriched(groups, kept)[i] == groups[i] {
      assert Appendix(groups, kept, i) == [];
    }
  }

  lemma NoSessions(groups: seq<Group>, kept: seq<Enrichment>)
    requires forall i :: 0 <= i < |groups| ==> groups[i].session.None?
    ensures Enriched(groups, kept) == groups
  {
    forall i | 0 <= i < |groups| ensures Enriched(groups, kept)[i] == groups[i] {
      assert groups[i].members + [] == groups[i].members;
    }
  }

  lemma TakeBucket(groups: seq<Group>, kept: seq<Enrichment>, byEpisode: map<Uuid, seq<Enrichment>>, i: nat, e: Uuid)
    requires i < |groups| && Remaining(groups, kept, byEpisode, i) && groups[i].session == Some(e) && e in byEpisode
    ensures Home(groups, e) == i && byEpisode[e] == OfEpisode(kept, e)
    ensures Remaining(groups, kept, byEpisode - {e}, i + 1)
  {
    hide OfEpisode;
    assert forall x :: Home(groups, x) == i ==> x == e;
  }

  lemma LeaveBuckets(groups: seq<Group>, kept: seq<Enrichment>, byEpisode: map<Uuid, seq<Enrichment>>, i: nat)
    requires i < |groups| && Remaining(groups, kept, byEpisode, i)
    requires groups[i].session.Some? ==> groups[i].session.value !in byEpisode
    ensures Remaining(groups, kept, byEpisode, i + 1)
  {
    hide OfEpisode;
    assert forall x :: Home(groups, x) == i ==> groups[i].session == Some(x);
  }

  lemma NothingAppended(groups: seq<Group>, kept: seq<Enrichment>, byEpisode: map<Uuid, seq<Enrichment>>, i: nat)
    requires i < |groups| && Remaining(groups, kept, byEpisode, i)
    requires groups[i].session.Some? ==> groups[i].session.value !in byEpisode
    ensures Appendix(groups, kept, i) == []
  {
    hide OfEpisode;
    if groups[i].session.Some? && Home(groups, groups[i].session.value) == i {
      assert OfEpisode(kept, groups[i].session.value) == [];
    }
  }

  // One iteration: a group that finds its bucket is the first of its session.
  lemma EnrichStep(groups: seq<Group>, kept: seq<Enrichment>, byEpisode: map<Uuid, seq<Enrichment>>, i: nat)
    requires i < |groups| && Remaining(groups, kept, byEpisode, i)
    ensures var g := groups[i];
      if g.session.Some? && g.session.value in byEpisode then
        && Enriched(groups, kept)[i] == g.(members := g.members + AtScore(byEpisode[g.session.value], g.score))
        && Remaining(groups, kept, byEpisode - {g.session.value}, i + 1)
      else
        Enriched(groups, kept)[i] == g && Remaining(groups, kept, byEpisode, i + 1)
  {
    hide Remaining, AtScore, OfEpisode;
    var g := groups[i];
    if g.session.Some? && g.session.value in byEpisode {
      TakeBucket(groups, kept, byEpisode, i, g.session.value);
    } else {
      NothingAppended(groups, kept, byEpisode, i);
      LeaveBuckets(groups, kept, byEpisode, i);
      assert g.members + [] == g.members;
    }
  }

  lemma NothingTaken(groups: seq<Group>, kept: seq<Enrichment>, byEpisode: map<Uuid, seq<Enrichment>>)
    requires Indexed(kept, byEpisode)
    ensures Remaining(groups, kept, byEpisode, 0)
  {
  }

  // ---- What is attached ------------------------------------------------------------------------

  function Serialisable(listed: seq<Enrichment>): seq<Enrichment> {
    if listed == [] then []
    else (if listed[0].bytes.Some? then [listed[0]] else []) + Serialisable(listed[1..])
  }

  // The kept observations fit the budget. They are the serialisable ones up to a cut, and the cut
  // falls short of the end only where the next observation would not fit.
  lemma {:induction false} KeptWithinBudget(listed: seq<Enrichment>, used: nat) returns (cut: nat)
    requires used <= MAX_HYDRATED_BYTES
    ensures used + Size(Kept(listed, used)) <= MAX_HYDRATED_BYTES
    ensures cut <= |listed| && Kept(listed, used) == Serialisable(listed[..cut])
    ensures cut < |listed| ==> listed[cut].bytes.Some?
    ensures cut < |listed| ==> used + Size(Kept(listed, used)) + listed[cut].bytes.value > MAX_HYDRATED_BYTES
  {
    cut := 0;
    if listed != [] {
      var rest := listed[1..];
      match listed[0].bytes {
        case None => cut := KeptWithinBudget(rest, used);
        case Some(b) =>
          if used + b > MAX_HYDRATED_BYTES {
            return;
          }
          cut := KeptWithinBudget(rest, used + b);
      }
      cut := cut + 1;
      assert listed[..cut][1..] == rest[..cut - 1];
    }
  }

  // What one observation contributes: itself, at the score of the first group of its session.
  ghost function Contribution(groups: seq<Group>, k: Enrichment): multiset<Scored> {
    var i := Home(groups, k.episode);
    if i < |groups| then multiset{Scored(AsMemory(k), groups[i].score)} else multiset{}
  }

  ghost function Contributions(groups: seq<Group>, kept: seq<Enrichment>): multiset<Scored> {
    if kept == [] then multiset{}
    else Contributions(groups, kept[..|kept| - 1]) + Contribution(groups, kept[|kept| - 1])
  }

  ghost function Appendices(groups: seq<Group>, kept: seq<Enrichment>, n: nat): multiset<Scored>
    requires n <= |groups|
  {
    if n == 0 then multiset{} else Appendices(groups, kept, n - 1) + multiset(Appendix(groups, kept, n - 1))
  }

  // The share of the contribution of `k` that goes to group `i`.
  ghost function Share(groups: seq<Group>, k: Enrichment, i: nat): multiset<Scored> {
    if Home(groups, k.episode) == i then Contribution(groups, k) else multiset{}
  }

  lemma AppendixGrows(groups: seq<Group>, kept: seq<Enrichment>, k: Enrichment, i: nat)
    requires i < |groups|
    ensures multiset(Appendix(groups, kept + [k], i)) == multiset(Appendix(groups, kept, i)) + Share(groups, k, i)
  {
    hide OfEpisode;
    if groups[i].session.Some? {
      var e := groups[i].session.value;
      OfEpisodeLast(kept, k, e);
      if k.episode == e {
        AtScoreLast(OfEpisode(kept, e), k, groups[i].score);
      }
    }
  }

  lemma AtScoreLast(kept: seq<Enrichment>, k: Enrichment, score: real)
    ensures AtScore(kept + [k], score) == AtScore(kept, score) + [Scored(AsMemory(k), score)]
  {
  }

  lemma AppendicesGrow(groups: seq<Group>, kept: seq<Enrichment>, k: Enrichment, n: nat)
    requires n <= |groups|
    ensures Appendices(groups, kept + [k], n) ==
      Appendices(groups, kept, n) + if Home(groups, k.episode) < n then Contribution(groups, k) else multiset{}
  {
    hide Appendix, Contribution;
    if n > 0 {
      AppendicesGrow(groups, kept, k, n - 1);
      AppendixGrows(groups, kept, k, n - 1);
    }
  }

  lemma NoAppendices(groups: seq<Group>, n: nat)
    requires n <= |groups|
    ensures Appendices(groups, [], n) == multiset{}
  {
    if n > 0 {
      NoAppendices(groups, n - 1);
    }
  }

  lemma {:induction false} AppendicesAreContributions(groups: seq<Group>, kept: seq<Enrichment>)
    ensures Appendices(groups, kept, |groups|) == Contributions(groups, kept)
  {
    if kept == [] {
      NoAppendices(groups, |groups|);
    } else {
      var rest, last := kept[..|kept| - 1], kept[|kept| - 1];
      assert kept == rest + [last];
      AppendicesAreContributions(groups, rest);
      AppendicesGrow(groups, rest, last, |groups|);
    }
  }

  lemma {:induction false} MembersLast(groups: seq<Group>, g: Group)
    ensures Members(groups + [g]) == Members(groups) + multiset(g.members)
  {
    if groups == [] {
      assert groups + [g] == [g];
    } else {
      MembersLast(groups[1..], g);
      assert (groups + [g])[1..] == groups[1..] + [g];
    }
  }

  lemma AppendicesTo(groups: seq<Group>, kept: seq<Enrichment>, n: nat)
    requires n <= |groups|
    ensures Appendices(groups, kept, n) ==
      if n == 0 then multiset{} else Appendices(groups, kept, n - 1) + multiset(Appendix(groups, kept, n - 1))
  {
  }

  lemma NoMembers(groups: seq<Group>)
    requires groups == []
    ensures Members(groups) == multiset{}
  {
  }

  lemma {:induction false} MembersGrow(groups: seq<Group>, kept: seq<Enrichment>, n: nat)
    requires n <= |groups|
    ensures Members(Enriched(groups, kept)[..n]) == Members(groups[..n]) + Appendices(groups, kept, n)
  {
    hide Appendix, Members, Appendices;
    AppendicesTo(groups, kept, n);
    if n == 0 {
      NoMembers(groups[..0]);
      NoMembers(Enriched(groups, kept)[..0]);
    } else {
      MembersGrow(groups, kept, n - 1);
      var r := Enriched(groups, kept);
      assert r[..n] == r[..n - 1] + [r[n - 1]] && groups[..n] == groups[..n - 1] + [groups[n - 1]];
      MembersLast(r[..n - 1], r[n - 1]);
      MembersLast(groups[..n - 1], groups[n - 1]);
    }
  }

  // The members of the enriched groups are the members they had and, once each, the kept
  // observations whose episode has a group.
  lemma AttachedOnce(groups: seq<Group>, kept: seq<Enrichment>)
    ensures Members(Enriched(groups, kept)) == Members(groups) + Contributions(groups, kept)
  {
    MembersGrow(groups, kept, |groups|);
    AppendicesAreContributions(groups, kept);
    assert Enriched(groups, kept)[..|groups|] == Enriched(groups, kept) && groups[..|groups|] == groups;
  }

  lemma {:induction false} OfEpisodeOnly(kept: seq<Enrichment>, e: Uuid)
    ensures forall i :: 0 <= i < |OfEpisode(kept, e)| ==> OfEpisode(kept, e)[i].episode == e && OfEpisode(kept, e)[i] in kept
  {
    if kept != [] {
      OfEpisodeOnly(kept[..|kept| - 1], e);
    }
  }

  // A group keeps its members as a prefix, its time and its score; what follows are observations
  // of its own episode at its score.
  lemma PrefixKept(groups: seq<Group>, kept: seq<Enrichment>, i: nat)
    requires i < |groups|
    ensures var g, r := groups[i], Enriched(groups, kept)[i];
      && g.members <= r.members && r.(members := g.members) == g
      && forall m :: |g.members| <= m < |r.members| ==>
           r.members[m].memory.Observation? && Some(r.members[m].memory.episode) == g.session && r.members[m].score == g.score
           && ComesFrom(kept, r.members[m].memory)
  {
    if groups[i].session.Some? {
      var e := groups[i].session.value;
      OfEpisodeOnly(kept, e);
      forall m | 0 <= m < |OfEpisode(kept, e)| ensures ComesFrom(kept, AsMemory(OfEpisode(kept, e)[m])) {
        var k :| 0 <= k < |kept| && kept[k] == OfEpisode(kept, e)[m];
      }
    }
  }

  // An observation is what was listed under its identifier.
  ghost predicate ComesFrom(kept: seq<Enrichment>, m: Memory)
    requires m.Observation?
  {
    exists k :: 0 <= k < |kept| && kept[k].id == m.id && kept[k].episode == m.episode
      && kept[k].eventTime == m.eventTime && kept[k].createdAt == m.createdAt
  }
}
