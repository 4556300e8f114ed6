/** Session-grouped recall: hash buckets in first-seen order that must amount to one stable,
    time-sorted list per episode, and a group of its own for every memory without an episode. */
module SessionGroups {
  import opened Common
  import opened StableSort

  datatype Memory =
    | Episodic(id: Uuid, episode: Uuid, eventTime: Option<int>, timestamp: int)
    | Semantic(id: Uuid, validAt: int)
    | Procedural(id: Uuid, createdAt: int)
    | Observation(id: Uuid, episode: Uuid, eventTime: Option<int>, createdAt: int)

  datatype Scored = Scored(memory: Memory, score: real)

  datatype Group = Group(session: Option<Uuid>, time: int, members: seq<Scored>, score: real)

  datatype OrderBy = Chronological | Relevance

  function MemoryTime(m: Memory): int {
    match m
    case Episodic(_, _, eventTime, timestamp) => if eventTime.Some? then eventTime.value else timestamp
    case Semantic(_, validAt) => validAt
    case Procedural(_, createdAt) => createdAt
    case Observation(_, _, eventTime, createdAt) => if eventTime.Some? then eventTime.value else createdAt
  }

  function MemoryEpisode(m: Memory): Option<Uuid> {
    match m
    case Episodic(_, episode, _, _) => Some(episode)
    case Observation(_, episode, _, _) => Some(episode)
    case _ => None
  }

  function EpisodeOf(c: Scored): Option<Uuid> {
    MemoryEpisode(c.memory)
  }

  // ---- The simple form: split off one episode at a time ----------------------------------------

  function Of(s: seq<Scored>, e: Uuid): seq<Scored> {
    if s == [] then [] else (if EpisodeOf(s[0]) == Some(e) then [s[0]] else []) + Of(s[1..], e)
  }

  function Without(s: seq<Scored>, e: Uuid): (r: seq<Scored>)
    ensures |r| <= |s|
  {
    if s == [] then [] else (if EpisodeOf(s[0]) == Some(e) then [] else [s[0]]) + Without(s[1..], e)
  }

  function Partition(s: seq<Scored>): seq<seq<Scored>>
    decreases |s|
  {
    if s == [] then []
    else match EpisodeOf(s[0])
      case None => [[s[0]]] + Partition(s[1..])
      case Some(e) => [Of(s, e)] + Partition(Without(s[1..], e))
  }

  ghost predicate Occurs(s: seq<Scored>, e: Uuid) {
    exists i :: 0 <= i < |s| && EpisodeOf(s[i]) == Some(e)
  }

  lemma OfFirst(c: Scored, s: seq<Scored>, e: Uuid)
    ensures Of([c] + s, e) == if EpisodeOf(c) == Some(e) then [c] + Of(s, e) else Of(s, e)
  {
    assert ([c] + s)[1..] == s;
  }

  lemma WithoutFirst(c: Scored, s: seq<Scored>, e: Uuid)
    ensures Without([c] + s, e) == if EpisodeOf(c) == Some(e) then Without(s, e) else [c] + Without(s, e)
  {
    assert ([c] + s)[1..] == s;
  }

  lemma OfOne(c: Scored, e: Uuid)
    ensures Of([c], e) == if EpisodeOf(c) == Some(e) then [c] else []
    ensures Without([c], e) == if EpisodeOf(c) == Some(e) then [] else [c]
  {
  }

  lemma OfNothing(s: seq<Scored>, e: Uuid)
    requires s == []
    ensures Of(s, e) == Without(s, e) == []
  {
  }

  lemma {:induction false} OfLast(s: seq<Scored>, c: Scored, e: Uuid)
    ensures Of(s + [c], e) == if EpisodeOf(c) == Some(e) then Of(s, e) + [c] else Of(s, e)
  {
    hide Of;
    OfOne(c, e);
    if s == [] {
      OfNothing(s, e);
      assert s + [c] == [c];
    } else {
      var rest := s[1..];
      assert s == [s[0]] + rest && s + [c] == [s[0]] + (rest + [c]);
      OfLast(rest, c, e);
      OfFirst(s[0], rest, e);
      OfFirst(s[0], rest + [c], e);
    }
  }

  lemma {:induction false} WithoutLast(s: seq<Scored>, c: Scored, e: Uuid)
    ensures Without(s + [c], e) == if EpisodeOf(c) == Some(e) then Without(s, e) else Without(s, e) + [c]
  {
    hide Without;
    OfOne(c, e);
    if s == [] {
      OfNothing(s, e);
      assert s + [c] == [c];
    } else {
      var rest := s[1..];
      assert s == [s[0]] + rest && s + [c] == [s[0]] + (rest + [c]);
      WithoutLast(rest, c, e);
      WithoutFirst(s[0], rest, e);
      WithoutFirst(s[0], rest + [c], e);
    }
  }

  lemma {:induction false} OfWithout(s: seq<Scored>, e: Uuid, d: Uuid)
    requires d != e
    ensures Of(Without(s, d), e) == Of(s, e)
  {
    if s != [] {
      assert s == [s[0]] + s[1..];
      OfWithout(s[1..], e, d);
      WithoutFirst(s[0], s[1..], d);
      OfFirst(s[0], Without(s[1..], d), e);
      OfFirst(s[0], s[1..], e);
    }
  }

  lemma {:induction false} WithoutNone(s: seq<Scored>, e: Uuid)
    ensures forall i :: 0 <= i < |Without(s, e)| ==> EpisodeOf(Without(s, e)[i]) != Some(e)
    ensures forall c :: c in Without(s, e) ==> c in s
  {
    if s != [] {
      WithoutNone(s[1..], e);
    }
  }

  lemma {:induction false} OfNonempty(s: seq<Scored>, e: Uuid)
    ensures Of(s, e) != [] <==> Occurs(s, e)
    ensures forall i :: 0 <= i < |Of(s, e)| ==> EpisodeOf(Of(s, e)[i]) == Some(e)
  {
    if s != [] {
      OfNonempty(s[1..], e);
      if Occurs(s, e) && EpisodeOf(s[0]) != Some(e) {
        var i :| 0 <= i < |s| && EpisodeOf(s[i]) == Some(e);
        assert EpisodeOf(s[1..][i - 1]) == Some(e);
      }
      if Occurs(s[1..], e) {
        var i :| 0 <= i < |s[1..]| && EpisodeOf(s[1..][i]) == Some(e);
        assert EpisodeOf(s[i + 1]) == Some(e);
      }
    }
  }

  // A part is all of one episode, or one memory without an episode.
  ghost predicate IsPart(s: seq<Scored>, part: seq<Scored>) {
    && part != []
    && match EpisodeOf(part[0])
       case None => |part| == 1 && part[0] in s
       case Some(e) => part == Of(s, e)
  }

  lemma {:induction false} PartitionParts(s: seq<Scored>)
    ensures forall i :: 0 <= i < |Partition(s)| ==> IsPart(s, Partition(s)[i])
    decreases |s|
  {
    if s != [] {
      match EpisodeOf(s[0])
      case None =>
        PartitionParts(s[1..]);
        forall part | IsPart(s[1..], part) ensures IsPart(s, part) {
        }
      case Some(e) =>
        var rest := Without(s[1..], e);
        PartitionParts(rest);
        WithoutNone(s[1..], e);
        OfNonempty(rest, e);
        forall part | IsPart(rest, part) ensures IsPart(s, part) {
          if EpisodeOf(part[0]).Some? && EpisodeOf(part[0]).value != e {
            OfWithout(s[1..], EpisodeOf(part[0]).value, e);
          }
        }
    }
  }

  // ---- Appending a memory ----------------------------------------------------------------------

  lemma SplitNone(c: Scored, s: seq<Scored>)
    requires EpisodeOf(c) == None
    ensures Partition([c] + s) == [[c]] + Partition(s)
  {
    assert ([c] + s)[1..] == s;
  }

  lemma SplitSome(c: Scored, s: seq<Scored>, e: Uuid)
    requires EpisodeOf(c) == Some(e)
    ensures Partition([c] + s) == [Of([c] + s, e)] + Partition(Without(s, e))
  {
    assert ([c] + s)[1..] == s;
  }

  ghost predicate Absent(s: seq<Scored>, c: Scored) {
    forall i :: 0 <= i < |s| ==> EpisodeOf(s[i]).None? || EpisodeOf(s[i]) != EpisodeOf(c)
  }

  lemma {:induction false} StillAbsent(s: seq<Scored>, c: Scored, e: Uuid)
    requires Absent(s, c)
    ensures Absent(Without(s, e), c)
  {
    if s != [] {
      StillAbsent(s[1..], c, e);
    }
  }

  lemma {:induction false} AppendNew(s: seq<Scored>, c: Scored)
    requires Absent(s, c)
    ensures Partition(s + [c]) == Partition(s) + [[c]]
    decreases |s|
  {
    if s == [] {
      AppendToNothing(s, c);
    } else {
      hide Partition, Of, Without;
      var first, rest := s[0], s[1..];
      assert s == [first] + rest && s + [c] == [first] + (rest + [c]);
      match EpisodeOf(first)
      case None =>
        AppendNew(rest, c);
        SplitNone(first, rest);
        SplitNone(first, rest + [c]);
      case Some(e) =>
        OfLast(s, c, e);
        WithoutLast(rest, c, e);
        StillAbsent(rest, c, e);
        AppendNew(Without(rest, e), c);
        SplitSome(first, rest, e);
        SplitSome(first, rest + [c], e);
    }
  }

  lemma AppendToNothing(s: seq<Scored>, c: Scored)
    requires s == []
    ensures Partition(s + [c]) == Partition(s) + [[c]]
  {
    assert s + [c] == [c] && [c][1..] == [];
    assert Partition([c][1..]) == [];
    assert EpisodeOf(c).Some? ==> Of([c], EpisodeOf(c).value) == [c];
  }

  lemma OccursRest(s: seq<Scored>, e: Uuid)
    requires Occurs(s, e) && EpisodeOf(s[0]) != Some(e)
    ensures Occurs(s[1..], e)
  {
    var k :| 0 <= k < |s| && EpisodeOf(s[k]) == Some(e);
    assert EpisodeOf(s[1..][k - 1]) == Some(e);
  }

  lemma {:induction false} AppendOld(s: seq<Scored>, c: Scored, e: Uuid) returns (i: nat)
    requires EpisodeOf(c) == Some(e) && Occurs(s, e)
    ensures i < |Partition(s)| && Partition(s)[i] == Of(s, e)
    ensures Partition(s + [c]) == Partition(s)[i := Of(s, e) + [c]]
    decreases |s|
  {
    hide Partition, Of, Without, Occurs;
    OccursSomewhere(s, e);
    var first, rest := s[0], s[1..];
    assert s == [first] + rest && s + [c] == [first] + (rest + [c]);
    OfFirst(first, rest, e);
    match EpisodeOf(first)
    case None =>
      OccursRest(s, e);
      i := AppendOld(rest, c, e);
      SplitNone(first, rest);
      SplitNone(first, rest + [c]);
      i := i + 1;
    case Some(d) =>
      OfLast(s, c, d);
      WithoutLast(rest, c, d);
      SplitSome(first, rest, d);
      SplitSome(first, rest + [c], d);
      if d == e {
        i := 0;
      } else {
        OccursRest(s, e);
        OfWithout(rest, e, d);
        OfNonempty(rest, e);
        OfNonempty(Without(rest, d), e);
        i := AppendOld(Without(rest, d), c, e);
        i := i + 1;
      }
  }

  lemma OccursSomewhere(s: seq<Scored>, e: Uuid)
    requires Occurs(s, e)
    ensures s != []
  {
  }

  // ---- The fast form: buckets in a map ---------------------------------------------------------

  // The key of a bucket: an episode, or a fresh one for a memory without an episode.
  datatype Key = Session(episode: Uuid) | Fresh(serial: nat)

  predicate Matches(key: Key, c: Scored, n: nat) {
    match key
    case Session(e) => EpisodeOf(c) == Some(e)
    case Fresh(k) => EpisodeOf(c).None? && k < n
  }

  ghost predicate Mirrors(parts: seq<seq<Scored>>, order: seq<Key>, buckets: map<Key, seq<Scored>>, n: nat) {
    && |order| == |parts| && Distinct(order)
    && (forall key :: key in buckets <==> key in order)
    && (forall i :: 0 <= i < |order| ==> order[i] in buckets && buckets[order[i]] == parts[i])
    && (forall i :: 0 <= i < |order| ==> parts[i] != [] && Matches(order[i], parts[i][0], n))
  }

  lemma KnownOccurs(s: seq<Scored>, order: seq<Key>, buckets: map<Key, seq<Scored>>, e: Uuid)
    requires Mirrors(Partition(s), order, buckets, |s|) && Session(e) in buckets
    ensures Occurs(s, e)
  {
    hide Partition, Of;
    PartitionParts(s);
    var k :| 0 <= k < |order| && order[k] == Session(e);
    var part := Partition(s)[k];
    assert IsPart(s, part) && Matches(order[k], part[0], |s|);
    OfNonempty(s, e);
  }

  // The bucket of an episode is keyed by the episode.
  lemma KeyOfPart(s: seq<Scored>, order: seq<Key>, buckets: map<Key, seq<Scored>>, e: Uuid, i: nat)
    requires Mirrors(Partition(s), order, buckets, |s|) && Occurs(s, e)
    requires i < |Partition(s)| && Partition(s)[i] == Of(s, e)
    ensures i < |order| && order[i] == Session(e) && order[i] in buckets && buckets[order[i]] == Of(s, e)
  {
    hide Partition, Of;
    OfNonempty(s, e);
    assert Matches(order[i], Partition(s)[i][0], |s|);
  }

  lemma MirrorsExtended(parts: seq<seq<Scored>>, order: seq<Key>, buckets: map<Key, seq<Scored>>, n: nat, i: nat, c: Scored)
    requires Mirrors(parts, order, buckets, n) && i < |order|
    ensures Mirrors(parts[i := parts[i] + [c]], order, buckets[order[i] := parts[i] + [c]], n + 1)
  {
  }

  lemma MirrorsAdded(parts: seq<seq<Scored>>, order: seq<Key>, buckets: map<Key, seq<Scored>>, n: nat, key: Key, c: Scored)
    requires Mirrors(parts, order, buckets, n) && key !in buckets && Matches(key, c, n + 1)
    ensures Mirrors(parts + [[c]], order + [key], buckets[key := [c]], n + 1)
  {
  }

  lemma MirrorsOld(s: seq<Scored>, order: seq<Key>, buckets: map<Key, seq<Scored>>, c: Scored, e: Uuid)
    requires Mirrors(Partition(s), order, buckets, |s|) && EpisodeOf(c) == Some(e) && Session(e) in buckets
    ensures Mirrors(Partition(s + [c]), order, buckets[Session(e) := buckets[Session(e)] + [c]], |s| + 1)
  {
    hide Mirrors, Partition, Of;
    KnownOccurs(s, order, buckets, e);
    var i := AppendOld(s, c, e);
    KeyOfPart(s, order, buckets, e, i);
    MirrorsExtended(Partition(s), order, buckets, |s|, i, c);
  }

  lemma UnknownAbsent(s: seq<Scored>, order: seq<Key>, buckets: map<Key, seq<Scored>>, c: Scored, key: Key)
    requires Mirrors(Partition(s), order, buckets, |s|) && Matches(key, c, |s| + 1) && key !in buckets
    ensures Absent(s, c)
  {
    hide Mirrors, Partition, Of;
    forall k | 0 <= k < |s| ensures EpisodeOf(s[k]).None? || EpisodeOf(s[k]) != EpisodeOf(c) {
      if EpisodeOf(s[k]).Some? {
        var d := EpisodeOf(s[k]).value;
        assert Occurs(s, d);
        var i := AppendOld(s, s[k], d);
        KeyOfPart(s, order, buckets, d, i);
      }
    }
  }

  lemma MirrorsNew(s: seq<Scored>, order: seq<Key>, buckets: map<Key, seq<Scored>>, c: Scored, key: Key)
    requires Mirrors(Partition(s), order, buckets, |s|) && Matches(key, c, |s| + 1) && key !in buckets
    ensures Mirrors(Partition(s + [c]), order + [key], buckets[key := [c]], |s| + 1)
  {
    hide Mirrors, Partition, Matches, Absent;
    UnknownAbsent(s, order, buckets, c, key);
    AppendNew(s, c);
    MirrorsAdded(Partition(s), order, buckets, |s|, key, c);
  }

  function TimeLe(): (Scored, Scored) -> bool {
    (a: Scored, b: Scored) => MemoryTime(a.memory) <= MemoryTime(b.memory)
  }

  function MinTime(s: seq<Scored>): (t: int)
    requires s != []
    ensures forall i :: 0 <= i < |s| ==> t <= MemoryTime(s[i].memory)
    ensures exists i :: 0 <= i < |s| && t == MemoryTime(s[i].memory)
  {
    var t := MemoryTime(s[0].memory);
    if |s| == 1 then t
    else
      var rest := MinTime(s[1..]);
      if rest < t then rest else t
  }

  function MaxScore(s: seq<Scored>): (m: real)
    requires s != []
    ensures forall i :: 0 <= i < |s| ==> s[i].score <= m
    ensures exists i :: 0 <= i < |s| && s[i].score == m
  {
    if |s| == 1 then s[0].score
    else
      var rest := MaxScore(s[1..]);
      if rest < s[0].score then s[0].score else rest
  }

  lemma SortNonempty(s: seq<Scored>)
    requires s != []
    ensures Sort(s, TimeLe()) != []
  {
    SortIsStable(s, TimeLe());
  }

  function MakeGroup(bucket: seq<Scored>): Group
    requires bucket != []
  {
    SortNonempty(bucket);
    var members := Sort(bucket, TimeLe());
    Group(EpisodeOf(members[0]), MinTime(members), members, MaxScore(members))
  }

  function MakeGroups(parts: seq<seq<Scored>>): (r: seq<Group>)
    requires forall i :: 0 <= i < |parts| ==> parts[i] != []
    ensures |r| == |parts| && forall i :: 0 <= i < |parts| ==> r[i] == MakeGroup(parts[i])
  {
    seq(|parts|, i requires 0 <= i < |parts| => MakeGroup(parts[i]))
  }

  function GroupLe(order: OrderBy): (Group, Group) -> bool {
    match order
    case Chronological => (a: Group, b: Group) => a.time <= b.time
    case Relevance => (a: Group, b: Group) => b.score <= a.score
  }

  // All groups in first-seen order, and then in the order asked for.
  function FirstSeen(candidates: seq<Scored>): seq<Group> {
    PartitionParts(candidates);
    MakeGroups(Partition(candidates))
  }

  function Grouped(candidates: seq<Scored>, order: OrderBy): seq<Group> {
    Sort(FirstSeen(candidates), GroupLe(order))
  }

  method FillBuckets(candidates: seq<Scored>) returns (bucketOrder: seq<Key>, buckets: map<Key, seq<Scored>>)
    ensures Mirrors(Partition(candidates), bucketOrder, buckets, |candidates|)
  {
    hide Mirrors;
    bucketOrder, buckets := [], map[];
    MirrorsNothing();
    for i := 0 to |candidates|
      invariant Mirrors(Partition(candidates[..i]), bucketOrder, buckets, i)
    {
      var candidate := candidates[i];
      var episode := EpisodeOf(candidate);
      var key := if episode.Some? then Session(episode.value) else Fresh(i);
      assert candidates[..i + 1] == candidates[..i] + [candidate];
      if key !in buckets {
        MirrorsNew(candidates[..i], bucketOrder, buckets, candidate, key);
        bucketOrder := bucketOrder + [key];
        buckets := buckets[key := [candidate]];
      } else {
        NoSuchFresh(Partition(candidates[..i]), bucketOrder, buckets, i, key);
        MirrorsOld(candidates[..i], bucketOrder, buckets, candidate, key.episode);
        buckets := buckets[key := buckets[key] + [candidate]];
      }
    }
    assert candidates[..|candidates|] == candidates;
  }

  lemma MirrorsNothing()
    ensures Mirrors(Partition([]), [], map[], 0)
  {
  }

  lemma NoSuchFresh(parts: seq<seq<Scored>>, order: seq<Key>, buckets: map<Key, seq<Scored>>, n: nat, key: Key)
    requires Mirrors(parts, order, buckets, n) && key in buckets
    ensures key.Fresh? ==> key.serial < n
  {
    var i :| 0 <= i < |order| && order[i] == key;
    assert Matches(order[i], parts[i][0], n);
  }

  method GroupBuckets(ghost parts: seq<seq<Scored>>, bucketOrder: seq<Key>, buckets: map<Key, seq<Scored>>, ghost n: nat)
    returns (groups: seq<Group>)
    requires Mirrors(parts, bucketOrder, buckets, n)
    ensures (forall i :: 0 <= i < |parts| ==> parts[i] != []) && groups == MakeGroups(parts)
  {
    hide MakeGroup;
    var remaining := buckets;
    groups := [];
    for i := 0 to |bucketOrder|
      invariant |groups| == i
      invariant forall m :: 0 <= m < i ==> groups[m] == MakeGroup(parts[m])
      invariant forall m :: i <= m < |bucketOrder| ==>
        bucketOrder[m] in remaining && remaining[bucketOrder[m]] == parts[m]
    {
      var bucket := remaining[bucketOrder[i]];
      remaining := remaining - {bucketOrder[i]};
      groups := groups + [MakeGroup(bucket)];
    }
  }

  method GroupBySession(candidates: seq<Scored>, order: OrderBy, maxGroups: Option<nat>) returns (groups: seq<Group>)
    ensures groups == if maxGroups.Some? && maxGroups.value < |Grouped(candidates, order)|
                      then Grouped(candidates, order)[..maxGroups.value] else Grouped(candidates, order)
  {
    hide Mirrors, Partition, Sort, MakeGroup;
    if candidates == [] {
      NothingGrouped(order);
      groups := [];
      return;
    }
    var bucketOrder, buckets := FillBuckets(candidates);
    groups := GroupBuckets(Partition(candidates), bucketOrder, buckets, |candidates|);
    groups := Sort(groups, GroupLe(order));
    if maxGroups.Some? && maxGroups.value < |groups| {
      groups := groups[..maxGroups.value];
    }
  }

  lemma NothingGrouped(order: OrderBy)
    ensures Grouped([], order) == []
  {
  }

  // ---- What the groups are ---------------------------------------------------------------------

  ghost function Members(groups: seq<Group>): multiset<Scored> {
    if groups == [] then multiset{} else multiset(groups[0].members) + Members(groups[1..])
  }

  ghost function PartMembers(parts: seq<seq<Scored>>): multiset<Scored> {
    if parts == [] then multiset{} else multiset(parts[0]) + PartMembers(parts[1..])
  }

  lemma {:induction false} SplitConserves(s: seq<Scored>, e: Uuid)
    ensures multiset(Of(s, e)) + multiset(Without(s, e)) == multiset(s)
  {
    hide Of, Without;
    if s == [] {
      OfNothing(s, e);
    } else {
      var first, rest := s[0], s[1..];
      assert s == [first] + rest;
      SplitConserves(rest, e);
      OfFirst(first, rest, e);
      WithoutFirst(first, rest, e);
    }
  }

  lemma {:induction false} PartitionConserves(s: seq<Scored>)
    ensures PartMembers(Partition(s)) == multiset(s)
    decreases |s|
  {
    if s != [] {
      var first, rest := s[0], s[1..];
      assert s == [first] + rest;
      match EpisodeOf(first)
      case None =>
        PartitionConserves(rest);
        SplitNone(first, rest);
        assert Partition(s)[1..] == Partition(rest);
      case Some(e) =>
        PartitionConserves(Without(rest, e));
        SplitSome(first, rest, e);
        assert Partition(s)[1..] == Partition(Without(rest, e));
        SplitConserves(s, e);
        WithoutFirst(first, rest, e);
    }
  }

  lemma {:induction false} GroupsKeepMembers(parts: seq<seq<Scored>>)
    requires forall i :: 0 <= i < |parts| ==> parts[i] != []
    ensures Members(MakeGroups(parts)) == PartMembers(parts)
  {
    if parts != [] {
      GroupsKeepMembers(parts[1..]);
      SortIsStable(parts[0], TimeLe());
      assert MakeGroups(parts)[1..] == MakeGroups(parts[1..]);
    }
  }

  lemma {:induction false} InsertKeepsMembers(g: Group, groups: seq<Group>, le: (Group, Group) -> bool)
    ensures Members(Insert(g, groups, le)) == multiset(g.members) + Members(groups)
  {
    if groups == [] || le(g, groups[0]) {
      assert ([g] + groups)[1..] == groups;
    } else {
      InsertKeepsMembers(g, groups[1..], le);
      assert ([groups[0]] + Insert(g, groups[1..], le))[1..] == Insert(g, groups[1..], le);
    }
  }

  lemma {:induction false} SortKeepsMembers(groups: seq<Group>, le: (Group, Group) -> bool)
    ensures Members(Sort(groups, le)) == Members(groups)
  {
    if groups != [] {
      SortKeepsMembers(groups[1..], le);
      InsertKeepsMembers(groups[0], Sort(groups[1..], le), le);
    }
  }

  // Every candidate, with its score, ends up in the groups exactly as often as it came in.
  lemma NothingLost(candidates: seq<Scored>, order: OrderBy)
    ensures Members(Grouped(candidates, order)) == multiset(candidates)
  {
    PartitionParts(candidates);
    PartitionConserves(candidates);
    GroupsKeepMembers(Partition(candidates));
    SortKeepsMembers(FirstSeen(candidates), GroupLe(order));
  }

  // All of one episode, sorted by time with ties in their order of arrival; the time is the
  // earliest and the score the highest of its members. Without an episode: a single memory.
  ghost predicate WellGrouped(candidates: seq<Scored>, g: Group) {
    && g.members != []
    && SortedBy(g.members, TimeLe())
    && (g.session.Some? ==> StableArrangement(Of(candidates, g.session.value), g.members))
    && (g.session.None? ==> |g.members| == 1 && g.members[0] in candidates && EpisodeOf(g.members[0]).None?)
    && (forall i :: 0 <= i < |g.members| ==> g.time <= MemoryTime(g.members[i].memory) && g.members[i].score <= g.score)
    && g.time == MemoryTime(g.members[0].memory)
    && (exists i :: 0 <= i < |g.members| && g.members[i].score == g.score)
  }

  // `r` is a rearrangement of `s` in which members of equal time keep their order.
  ghost predicate StableArrangement(s: seq<Scored>, r: seq<Scored>) {
    multiset(r) == multiset(s) && forall x :: Class(r, x, TimeLe()) == Class(s, x, TimeLe())
  }

  lemma PartSession(candidates: seq<Scored>, part: seq<Scored>, c: Scored)
    requires IsPart(candidates, part) && c in part
    ensures EpisodeOf(c) == EpisodeOf(part[0])
  {
    if EpisodeOf(part[0]).Some? {
      OfNonempty(candidates, EpisodeOf(part[0]).value);
    }
  }

  lemma SortedPart(part: seq<Scored>)
    requires part != []
    ensures var members := Sort(part, TimeLe());
      members != [] && SortedBy(members, TimeLe()) && StableArrangement(part, members) && members[0] in part
      && |members| == |part|
  {
    hide Class;
    var members := Sort(part, TimeLe());
    SortIsStable(part, TimeLe());
    assert members[0] in multiset(part);
  }

  lemma PartWellGrouped(candidates: seq<Scored>, part: seq<Scored>)
    requires IsPart(candidates, part)
    ensures WellGrouped(candidates, MakeGroup(part))
  {
    hide Of, Sort, SortedBy, StableArrangement;
    var members := Sort(part, TimeLe());
    SortedPart(part);
    PartSession(candidates, part, members[0]);
    EarliestFirst(members);
    var top :| 0 <= top < |members| && members[top].score == MaxScore(members);
  }

  lemma EarliestFirst(members: seq<Scored>)
    requires members != [] && SortedBy(members, TimeLe())
    ensures MinTime(members) == MemoryTime(members[0].memory)
  {
    var i :| 0 <= i < |members| && MinTime(members) == MemoryTime(members[i].memory);
    assert i == 0 || TimeLe()(members[0], members[i]);
  }

  // Every group is well formed, whatever the order and the cap.
  lemma GroupsAreWellFormed(candidates: seq<Scored>, order: OrderBy, i: nat)
    requires i < |Grouped(candidates, order)|
    ensures WellGrouped(candidates, Grouped(candidates, order)[i])
  {
    hide WellGrouped, MakeGroup;
    var groups := FirstSeen(candidates);
    PartitionParts(candidates);
    GroupLePreorder(order);
    SortMember(groups, GroupLe(order), Grouped(candidates, order)[i]);
    var k :| 0 <= k < |groups| && groups[k] == Grouped(candidates, order)[i];
    PartWellGrouped(candidates, Partition(candidates)[k]);
  }

  // A memory counts from the time of the event it tells of, and without one from when it was made.
  ghost predicate HappenedAt(m: Memory, t: int) {
    || ((m.Episodic? || m.Observation?) && m.eventTime == Some(t))
    || (m.Episodic? && m.eventTime.None? && m.timestamp == t)
    || (m.Observation? && m.eventTime.None? && m.createdAt == t)
    || (m.Semantic? && m.validAt == t)
    || (m.Procedural? && m.createdAt == t)
  }

  // A group holds memories of one episode, earlier ones first, or one memory that has none.
  lemma MembersShown(candidates: seq<Scored>, order: OrderBy, i: nat)
    requires i < |Grouped(candidates, order)|
    ensures var g := Grouped(candidates, order)[i];
      && (forall m :: m in g.members ==>
            if g.session.Some? then (m.memory.Episodic? || m.memory.Observation?) && m.memory.episode == g.session.value
            else g.members == [m] && (m.memory.Semantic? || m.memory.Procedural?))
      && (forall j, k, t, u :: 0 <= j < k < |g.members| && HappenedAt(g.members[j].memory, t) && HappenedAt(g.members[k].memory, u)
            ==> t <= u)
      && g.members != [] && HappenedAt(g.members[0].memory, g.time)
  {
    hide Sort, Of, Partition, MakeGroup, StableArrangement, HappenedAt;
    var g := Grouped(candidates, order)[i];
    GroupsAreWellFormed(candidates, order, i);
    GroupSession(candidates, order, i);
    forall m, t | m in g.members ensures HappenedAt(m.memory, t) <==> t == MemoryTime(m.memory) {
      HappenedOnce(m.memory, t);
    }
    forall j, k | 0 <= j < k < |g.members| ensures MemoryTime(g.members[j].memory) <= MemoryTime(g.members[k].memory) {
      assert TimeLe()(g.members[j], g.members[k]);
    }
  }

  lemma HappenedOnce(m: Memory, t: int)
    ensures HappenedAt(m, t) <==> t == MemoryTime(m)
  {
  }

  lemma GroupSession(candidates: seq<Scored>, order: OrderBy, i: nat)
    requires i < |Grouped(candidates, order)|
    ensures forall m :: m in Grouped(candidates, order)[i].members ==> EpisodeOf(m) == Grouped(candidates, order)[i].session
  {
    hide Sort, Of, Partition, MakeGroup, StableArrangement;
    var g := Grouped(candidates, order)[i];
    GroupsAreWellFormed(candidates, order, i);
    if g.session.Some? {
      OfNonempty(candidates, g.session.value);
      forall m | m in g.members ensures EpisodeOf(m) == g.session {
        ArrangedMember(Of(candidates, g.session.value), g.members, m);
      }
    }
  }

  lemma ArrangedMember(s: seq<Scored>, r: seq<Scored>, m: Scored)
    requires StableArrangement(s, r) && m in r
    ensures m in s
  {
    assert m in multiset(r);
  }

  lemma GroupLePreorder(order: OrderBy)
    ensures TotalPreorder(GroupLe(order))
  {
  }

  // The groups are in the order asked for, ties in first-seen order.
  lemma GroupsAreOrdered(candidates: seq<Scored>, order: OrderBy) returns (first: seq<nat>)
    ensures var groups := Grouped(candidates, order);
      && |first| == |groups| && Distinct(first)
      && (forall i :: 0 <= i < |groups| ==> FirstOf(candidates, groups[i].members, first[i]))
      && (order == Chronological ==> forall i, j :: 0 <= i < j < |groups| ==>
            groups[i].time < groups[j].time || (groups[i].time == groups[j].time && first[i] < first[j]))
      && (order == Relevance ==> forall i, j :: 0 <= i < j < |groups| ==>
            groups[i].score > groups[j].score || (groups[i].score == groups[j].score && first[i] < first[j]))
  {
    hide Partition, Sort, MakeGroup, FirstOf;
    var parts, groups, le := Partition(candidates), Grouped(candidates, order), GroupLe(order);
    PartitionParts(candidates);
    GroupLePreorder(order);
    SortIsStable(FirstSeen(candidates), le);
    var origin := SortOrigin(FirstSeen(candidates), le);
    var seen := Firsts(candidates);
    first := seq(|groups|, i requires 0 <= i < |groups| => seen[origin[i]]);
    forall i | 0 <= i < |groups| ensures FirstOf(candidates, groups[i].members, first[i]) {
      SortedFirst(candidates, parts[origin[i]], first[i]);
    }
    forall i, j | 0 <= i < j < |groups| ensures first[i] != first[j] && (le(groups[j], groups[i]) ==> first[i] < first[j]) {
      assert origin[i] != origin[j];
    }
    assert forall i, j :: 0 <= i < j < |groups| ==> le(groups[i], groups[j]);
  }

  // `k` is the place of the first candidate of these members' episode, or of the only member.
  ghost predicate FirstOf(s: seq<Scored>, members: seq<Scored>, k: nat) {
    && k < |s| && s[k] in members
    && match EpisodeOf(s[k])
       case Some(e) => forall m :: 0 <= m < k ==> EpisodeOf(s[m]) != Some(e)
       case None => members == [s[k]]
  }

  lemma {:induction false} Firsts(s: seq<Scored>) returns (first: seq<nat>)
    ensures |first| == |Partition(s)|
    ensures forall i :: 0 <= i < |first| ==> FirstOf(s, Partition(s)[i], first[i])
    ensures forall i, j :: 0 <= i < j < |first| ==> first[i] < first[j]
  {
    first := [];
    if s != [] {
      hide Partition, FirstOf, Of;
      var t, c := s[..|s| - 1], s[|s| - 1];
      assert s == t + [c];
      first := Firsts(t);
      forall i | 0 <= i < |first| ensures first[i] < |t| && FirstOf(s, Partition(t)[i], first[i]) {
        FirstOfGrows(t, c, Partition(t)[i], first[i]);
      }
      if EpisodeOf(c).Some? && Occurs(t, EpisodeOf(c).value) {
        var i := AppendOld(t, c, EpisodeOf(c).value);
        OfNonempty(t, EpisodeOf(c).value);
        MemberAdded(s, Partition(t)[i], c, first[i]);
      } else {
        AppendNew(t, c);
        FirstOfItself(t, c);
        first := first + [|t|];
      }
    }
  }

  lemma FirstOfGrows(t: seq<Scored>, c: Scored, members: seq<Scored>, k: nat)
    requires FirstOf(t, members, k)
    ensures k < |t| && FirstOf(t + [c], members, k)
  {
  }

  lemma MemberAdded(s: seq<Scored>, members: seq<Scored>, c: Scored, k: nat)
    requires FirstOf(s, members, k) && forall i :: 0 <= i < |members| ==> EpisodeOf(members[i]).Some?
    ensures FirstOf(s, members + [c], k)
  {
  }

  lemma FirstOfItself(t: seq<Scored>, c: Scored)
    requires Absent(t, c)
    ensures FirstOf(t + [c], [c], |t|)
  {
  }

  lemma SortedFirst(s: seq<Scored>, part: seq<Scored>, k: nat)
    requires part != [] && FirstOf(s, part, k)
    ensures FirstOf(s, MakeGroup(part).members, k)
  {
    SortedPart(part);
    assert s[k] in multiset(part);
    if part == [s[k]] {
      assert Sort(part, TimeLe()) == [s[k]] by { OneSorted(s[k]); }
    }
  }

  lemma OneSorted(c: Scored)
    ensures Sort([c], TimeLe()) == [c]
  {
    assert Sort([c][1..], TimeLe()) == [];
  }

  // ---- One group per episode -------------------------------------------------------------------

  ghost function SessionCount(groups: seq<Group>, e: Uuid): nat {
    if groups == [] then 0 else (if groups[0].session == Some(e) then 1 else 0) + SessionCount(groups[1..], e)
  }

  ghost function PartCount(parts: seq<seq<Scored>>, e: Uuid): nat {
    if parts == [] then 0
    else (if parts[0] != [] && EpisodeOf(parts[0][0]) == Some(e) then 1 else 0) + PartCount(parts[1..], e)
  }

  lemma {:induction false} PartitionCount(s: seq<Scored>, e: Uuid)
    ensures PartCount(Partition(s), e) == if Of(s, e) != [] then 1 else 0
    decreases |s|
  {
    if s != [] {
      var first, rest := s[0], s[1..];
      assert s == [first] + rest;
      OfFirst(first, rest, e);
      match EpisodeOf(first)
      case None =>
        PartitionCount(rest, e);
        SplitNone(first, rest);
        assert Partition(s)[1..] == Partition(rest);
      case Some(d) =>
        PartitionCount(Without(rest, d), e);
        SplitSome(first, rest, d);
        assert Partition(s)[1..] == Partition(Without(rest, d));
        OfFirst(first, rest, d);
        if d == e {
          OfItself(rest, e);
        } else {
          OfWithout(rest, e, d);
        }
    }
  }

  lemma {:induction false} OfItself(s: seq<Scored>, e: Uuid)
    ensures Of(Without(s, e), e) == []
  {
    if s != [] {
      var first, rest := s[0], s[1..];
      assert s == [first] + rest;
      OfItself(rest, e);
      WithoutFirst(first, rest, e);
      OfFirst(first, Without(rest, e), e);
    }
  }

  lemma {:induction false} GroupsKeepCount(parts: seq<seq<Scored>>, candidates: seq<Scored>, e: Uuid)
    requires forall i :: 0 <= i < |parts| ==> parts[i] != [] && IsPart(candidates, parts[i])
    ensures SessionCount(MakeGroups(parts), e) == PartCount(parts, e)
  {
    if parts != [] {
      GroupsKeepCount(parts[1..], candidates, e);
      assert MakeGroups(parts)[1..] == MakeGroups(parts[1..]);
      SessionOfPart(candidates, parts[0]);
    }
  }

  lemma SessionOfPart(candidates: seq<Scored>, part: seq<Scored>)
    requires IsPart(candidates, part)
    ensures MakeGroup(part).session == EpisodeOf(part[0])
  {
    SortedPart(part);
    PartSession(candidates, part, Sort(part, TimeLe())[0]);
  }

  lemma {:induction false} InsertKeepsCount(g: Group, groups: seq<Group>, le: (Group, Group) -> bool, e: Uuid)
    ensures SessionCount(Insert(g, groups, le), e) == SessionCount([g] + groups, e)
  {
    assert ([g] + groups)[1..] == groups;
    if groups != [] && !le(g, groups[0]) {
      InsertKeepsCount(g, groups[1..], le, e);
      assert ([g] + groups[1..])[1..] == groups[1..];
      assert ([groups[0]] + Insert(g, groups[1..], le))[1..] == Insert(g, groups[1..], le);
    }
  }

  lemma {:induction false} SortKeepsCount(groups: seq<Group>, le: (Group, Group) -> bool, e: Uuid)
    ensures SessionCount(Sort(groups, le), e) == SessionCount(groups, e)
  {
    if groups != [] {
      SortKeepsCount(groups[1..], le, e);
      InsertKeepsCount(groups[0], Sort(groups[1..], le), le, e);
      assert ([groups[0]] + Sort(groups[1..], le))[1..] == Sort(groups[1..], le);
    }
  }

  // Every episode among the candidates gets exactly one group, and no other episode gets any.
  lemma OneGroupPerEpisode(candidates: seq<Scored>, order: OrderBy, e: Uuid)
    ensures SessionCount(Grouped(candidates, order), e) == if Occurs(candidates, e) then 1 else 0
  {
    PartitionParts(candidates);
    PartitionCount(candidates, e);
    OfNonempty(candidates, e);
    GroupsKeepCount(Partition(candidates), candidates, e);
    SortKeepsCount(FirstSeen(candidates), GroupLe(order), e);
  }
}
