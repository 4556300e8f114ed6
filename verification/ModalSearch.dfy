/** Search across the vector spaces of all modalities: the best of the best of each space are the
    best of all. The similarity of each entry to the query is a parameter. */
module ModalSearch {
  import opened Common
  import opened StableSort

  // An entry and its similarity to the query.
  datatype Scored = Scored(id: Uuid, score: real)

  // A space: its dimension and its entries in the order in which its hash map iterates.
  datatype Index = Index(dimensions: nat, entries: seq<Scored>)

  datatype Found = Found(id: Uuid, score: real, space: nat)

  // A query: its dimension and whether its norm is zero.
  datatype Query = Query(dimensions: nat, zero: bool)

  function IndexLe(): (Scored, Scored) -> bool {
    (a: Scored, b: Scored) => a.score > b.score || (a.score == b.score && a.id <= b.id)
  }

  function ScoreLe(): (Found, Found) -> bool {
    (a: Found, b: Found) => a.score >= b.score
  }

  // By score; ties by space and then by identifier.
  function FoundLe(): (Found, Found) -> bool {
    (a: Found, b: Found) =>
      a.score > b.score || (a.score == b.score && (a.space < b.space || (a.space == b.space && a.id <= b.id)))
  }

  function Prefix<T>(s: seq<T>, limit: nat): (r: seq<T>)
    ensures |r| == if limit < |s| then limit else |s|
  {
    if limit < |s| then s[..limit] else s
  }

  // Everything a space holds, as found in it.
  function Tagged(entries: seq<Scored>, space: nat): (r: seq<Found>)
    ensures |r| == |entries|
    ensures forall i :: 0 <= i < |entries| ==> r[i] == Found(entries[i].id, entries[i].score, space)
  {
    seq(|entries|, i requires 0 <= i < |entries| => Found(entries[i].id, entries[i].score, space))
  }

  // Everything in the first `n` spaces that the query can be compared with.
  function Union(spaces: seq<Index>, n: nat, query: Query): seq<Found>
    requires n <= |spaces|
  {
    if n == 0 then []
    else if spaces[n - 1].dimensions == query.dimensions && !query.zero then
      Union(spaces, n - 1, query) + Tagged(spaces[n - 1].entries, n - 1)
    else
      Union(spaces, n - 1, query)
  }

  // The best `limit` of `s`.
  function Top(s: seq<Found>, limit: nat): seq<Found> {
    Prefix(Sort(s, FoundLe()), limit)
  }

  // ---- One space -------------------------------------------------------------------------------

  // `r` are the best `limit` of `entries`, best first: drawn from them, in order, and nothing left
  // out comes before anything returned.
  ghost predicate IsBest(entries: seq<Scored>, limit: nat, r: seq<Scored>) {
    && |r| == (if limit < |entries| then limit else |entries|)
    && multiset(r) <= multiset(entries) && SortedBy(r, IndexLe())
    && forall x, y :: x in multiset(entries) - multiset(r) && y in r ==> IndexLe()(y, x)
  }

  lemma IndexLeOrder()
    ensures TotalPreorder(IndexLe())
    ensures forall a, b :: IndexLe()(a, b) && IndexLe()(b, a) ==> a == b
  {
  }

  // Listing the rest behind the best gives everything in order.
  lemma BestThenRest(entries: seq<Scored>, limit: nat, r: seq<Scored>, rest: seq<Scored>)
    requires IsBest(entries, limit, r) && multiset(rest) == multiset(entries) - multiset(r) && SortedBy(rest, IndexLe())
    ensures SortedBy(r + rest, IndexLe()) && multiset(r + rest) == multiset(entries)
  {
    forall i, j | 0 <= i < j < |r + rest| ensures IndexLe()((r + rest)[i], (r + rest)[j]) {
      if i < |r| <= j {
        assert rest[j - |r|] in multiset(rest);
        assert r[i] in r;
      }
    }
  }

  // What a multiset holds, listed in some order.
  lemma {:induction false} Listing(m: multiset<Scored>) returns (s: seq<Scored>)
    ensures multiset(s) == m
    decreases |m|
  {
    if m == multiset{} {
      s := [];
    } else {
      var x :| x in m;
      var rest := Listing(m - multiset{x});
      s := [x] + rest;
    }
  }

  // The best of a space does not depend on the order in which its hash map iterates.
  lemma BestIsUnique(a: seq<Scored>, b: seq<Scored>, limit: nat, r: seq<Scored>, r': seq<Scored>)
    requires multiset(a) == multiset(b) && IsBest(a, limit, r) && IsBest(b, limit, r')
    ensures r == r'
  {
    hide IsBest;
    IndexLeOrder();
    var rest := RestOf(a, limit, r);
    var rest' := RestOf(b, limit, r');
    SortedUnique(r + rest, r' + rest', IndexLe());
    BestSize(a, b, limit, r, r');
    assert r == (r + rest)[..|r|] && r' == (r' + rest')[..|r'|];
  }

  lemma BestSize(a: seq<Scored>, b: seq<Scored>, limit: nat, r: seq<Scored>, r': seq<Scored>)
    requires multiset(a) == multiset(b) && IsBest(a, limit, r) && IsBest(b, limit, r')
    ensures |r| == |r'|
  {
    assert |multiset(a)| == |multiset(b)|;
  }

  lemma RestOf(entries: seq<Scored>, limit: nat, r: seq<Scored>) returns (rest: seq<Scored>)
    requires IsBest(entries, limit, r)
    ensures SortedBy(r + rest, IndexLe()) && multiset(r + rest) == multiset(entries)
  {
    var listed := Listing(multiset(entries) - multiset(r));
    rest := Sort(listed, IndexLe());
    IndexLeOrder();
    SortIsStable(listed, IndexLe());
    BestThenRest(entries, limit, r, rest);
  }

  lemma HeadBeatsTail(sorted: seq<Scored>, k: nat, x: Scored, y: Scored)
    requires k <= |sorted| && SortedBy(sorted, IndexLe()) && x in sorted[k..] && y in sorted[..k]
    ensures IndexLe()(y, x)
  {
    var j :| 0 <= j < |sorted| - k && sorted[k..][j] == x;
    var i :| 0 <= i < k && sorted[..k][i] == y;
    assert IndexLe()(sorted[i], sorted[k + j]);
  }

  lemma TailIsRest(entries: seq<Scored>, sorted: seq<Scored>, k: nat)
    requires k <= |sorted| && multiset(sorted) == multiset(entries)
    ensures |sorted| == |entries| && multiset(sorted[..k]) <= multiset(entries)
    ensures multiset(entries) - multiset(sorted[..k]) == multiset(sorted[k..])
  {
    assert |multiset(sorted)| == |multiset(entries)|;
    assert sorted == sorted[..k] + sorted[k..];
  }

  // Sorting and cutting yields the best.
  lemma SortedCutIsBest(entries: seq<Scored>, limit: nat)
    ensures IsBest(entries, limit, Prefix(Sort(entries, IndexLe()), limit))
  {
    hide Sort;
    var sorted := Sort(entries, IndexLe());
    SortIsStable(entries, IndexLe());
    var r := Prefix(sorted, limit);
    assert r == sorted[..|r|];
    CutIsBest(entries, limit, sorted, |r|);
  }

  lemma CutIsBest(entries: seq<Scored>, limit: nat, sorted: seq<Scored>, k: nat)
    requires SortedBy(sorted, IndexLe()) && multiset(sorted) == multiset(entries) && |sorted| == |entries|
    requires k == if limit < |sorted| then limit else |sorted|
    ensures IsBest(entries, limit, sorted[..k])
  {
    TailIsRest(entries, sorted, k);
    forall x, y | x in multiset(entries) - multiset(sorted[..k]) && y in sorted[..k] ensures IndexLe()(y, x) {
      InTail(sorted[k..], x);
      HeadBeatsTail(sorted, k, x, y);
    }
  }

  lemma InTail(s: seq<Scored>, x: Scored)
    requires x in multiset(s)
    ensures x in s
  {
  }

  // ---- The procedure ---------------------------------------------------------------------------

  method Search(index: Index, query: Query, limit: nat) returns (r: Result<seq<Scored>, string>)
    ensures r.Ok? <==> index.dimensions == query.dimensions
    ensures r.Ok? ==> if query.zero then r.value == [] else IsBest(index.entries, limit, r.value)
  {
    hide IsBest;
    if query.dimensions != index.dimensions {
      return Err("dimension mismatch");
    }
    if query.zero {
      return Ok([]);
    }
    var scored := Sort(index.entries, IndexLe());
    SortedCutIsBest(index.entries, limit);
    return Ok(Prefix(scored, limit));
  }

  method SearchAll(spaces: seq<Index>, query: Query, limit: nat) returns (r: Result<seq<Found>, string>)
    ensures r == Ok(Top(Union(spaces, |spaces|, query), limit))
  {
    hide Sort, Top, IsBest;
    var results: seq<Found> := [];
    StartGathering(spaces, query, limit);
    for n := 0 to |spaces|
      invariant Gathered(results, spaces, n, query, limit)
    {
      if query.dimensions == spaces[n].dimensions {
        var hits := Search(spaces[n], query, limit);
        if hits.Err? {
          assert false;
        }
        GatherNext(results, spaces, n, query, limit, hits.value);
        results := results + Tagged(hits.value, n);
      } else {
        GatherNothing(results, spaces, n, query, limit);
      }
    }
    TiesInOrder(results);
    results := Sort(results, ScoreLe());
    r := Ok(Prefix(results, limit));
    GatheredTop(results, limit);
  }

  // Listed so that entries of equal score are already by space and identifier.
  ghost predicate InTieOrder(s: seq<Found>) {
    forall i, j :: 0 <= i < j < |s| && s[i].score == s[j].score ==> FoundLe()(s[i], s[j])
  }

  ghost predicate Below(s: seq<Found>, n: nat) {
    forall i :: 0 <= i < |s| ==> s[i].space < n
  }

  // What the first `n` spaces have contributed stands for all they hold, as far as the best
  // `limit` are concerned.
  ghost predicate Gathered(results: seq<Found>, spaces: seq<Index>, n: nat, query: Query, limit: nat) {
    && n <= |spaces| && InTieOrder(results) && Below(results, n)
    && Top(results, limit) == Top(Union(spaces, n, query), limit)
  }

  lemma StartGathering(spaces: seq<Index>, query: Query, limit: nat)
    ensures Gathered([], spaces, 0, query, limit)
  {
  }

  lemma GatherNothing(results: seq<Found>, spaces: seq<Index>, n: nat, query: Query, limit: nat)
    requires Gathered(results, spaces, n, query, limit) && n < |spaces| && spaces[n].dimensions != query.dimensions
    ensures Gathered(results, spaces, n + 1, query, limit)
  {
    hide Top;
    assert Union(spaces, n, query) + [] == Union(spaces, n, query);
  }

  lemma GatherNext(results: seq<Found>, spaces: seq<Index>, n: nat, query: Query, limit: nat, hits: seq<Scored>)
    requires Gathered(results, spaces, n, query, limit) && n < |spaces| && spaces[n].dimensions == query.dimensions
    requires if query.zero then hits == [] else IsBest(spaces[n].entries, limit, hits)
    ensures Gathered(results + Tagged(hits, n), spaces, n + 1, query, limit)
  {
    hide Top, Sort, IsBest;
    if !query.zero {
      SortedCutIsBest(spaces[n].entries, limit);
      BestIsUnique(spaces[n].entries, spaces[n].entries, limit, hits, Prefix(Sort(spaces[n].entries, IndexLe()), limit));
    }
    var old', all := Union(spaces, n, query), Tagged(spaces[n].entries, n);
    HitsInOrder(spaces[n].entries, hits, limit, n);
    if query.zero {
      assert results + [] == results && old' + [] == old';
      assert Tagged(hits, n) == [];
    } else {
      TaggedTop(spaces[n].entries, n, limit);
      TopOfTops(results, old', Tagged(hits, n), all, limit);
    }
  }

  lemma HitsInOrder(entries: seq<Scored>, hits: seq<Scored>, limit: nat, n: nat)
    requires hits == [] || hits == Prefix(Sort(entries, IndexLe()), limit)
    ensures forall i, j :: 0 <= i < j < |hits| ==> FoundLe()(Tagged(hits, n)[i], Tagged(hits, n)[j])
  {
    SortIsStable(entries, IndexLe());
    forall i, j | 0 <= i < j < |hits| ensures FoundLe()(Tagged(hits, n)[i], Tagged(hits, n)[j]) {
      assert IndexLe()(hits[i], hits[j]);
    }
  }

  // ---- Tops ------------------------------------------------------------------------------------

  lemma FoundLeOrder()
    ensures TotalPreorder(FoundLe())
    ensures forall a, b :: FoundLe()(a, b) && FoundLe()(b, a) ==> a == b
  {
  }

  // Sorting depends on the entries only as a multiset.
  lemma SortPermutes(a: seq<Found>, b: seq<Found>)
    requires multiset(a) == multiset(b)
    ensures Sort(a, FoundLe()) == Sort(b, FoundLe())
  {
    FoundLeOrder();
    SortIsStable(a, FoundLe());
    SortIsStable(b, FoundLe());
    SortedUnique(Sort(a, FoundLe()), Sort(b, FoundLe()), FoundLe());
  }

  lemma SortedStays(s: seq<Found>)
    requires SortedBy(s, FoundLe())
    ensures Sort(s, FoundLe()) == s
  {
    FoundLeOrder();
    SortIsStable(s, FoundLe());
    SortedUnique(Sort(s, FoundLe()), s, FoundLe());
  }

  lemma {:induction false} InsertTruncates(x: Found, s: seq<Found>, limit: nat)
    ensures Prefix(Insert(x, s, FoundLe()), limit) == Prefix(Insert(x, Prefix(s, limit), FoundLe()), limit)
  {
    if limit == 0 {
    } else if s != [] && !FoundLe()(x, s[0]) {
      InsertTruncates(x, s[1..], limit - 1);
      assert Prefix(s, limit)[1..] == Prefix(s[1..], limit - 1);
      PrefixFirst(s[0], Insert(x, s[1..], FoundLe()), limit);
      PrefixFirst(s[0], Insert(x, Prefix(s[1..], limit - 1), FoundLe()), limit);
    }
  }

  lemma PrefixFirst(x: Found, s: seq<Found>, limit: nat)
    requires limit > 0
    ensures Prefix([x] + s, limit) == [x] + Prefix(s, limit - 1)
  {
  }

  lemma TopOfFirst(x: Found, s: seq<Found>, limit: nat)
    ensures Top([x] + s, limit) == Prefix(Insert(x, Top(s, limit), FoundLe()), limit)
  {
    assert ([x] + s)[1..] == s;
    InsertTruncates(x, Sort(s, FoundLe()), limit);
  }

  // Beside `b`, the best of `a` stand for all of `a`.
  lemma {:induction false} TopAbsorbs(b: seq<Found>, a: seq<Found>, a': seq<Found>, limit: nat)
    requires Top(a, limit) == Top(a', limit)
    ensures Top(b + a, limit) == Top(b + a', limit)
  {
    if b == [] {
      assert b + a == a && b + a' == a';
    } else {
      hide Top;
      TopAbsorbs(b[1..], a, a', limit);
      assert b + a == [b[0]] + (b[1..] + a) && b + a' == [b[0]] + (b[1..] + a');
      TopOfFirst(b[0], b[1..] + a, limit);
      TopOfFirst(b[0], b[1..] + a', limit);
    }
  }

  lemma TopOfTops(a: seq<Found>, a': seq<Found>, b: seq<Found>, b': seq<Found>, limit: nat)
    requires Top(a, limit) == Top(a', limit) && Top(b, limit) == Top(b', limit)
    ensures Top(a + b, limit) == Top(a' + b', limit)
  {
    TopAbsorbs(a, b, b', limit);
    SortPermutes(a + b', b' + a);
    TopAbsorbs(b', a, a', limit);
    SortPermutes(b' + a', a' + b');
  }

  lemma TaggedSorted(entries: seq<Scored>, n: nat)
    ensures Sort(Tagged(entries, n), FoundLe()) == Tagged(Sort(entries, IndexLe()), n)
  {
    if entries != [] {
      TaggedSorted(entries[1..], n);
      assert Tagged(entries, n)[1..] == Tagged(entries[1..], n);
      TaggedInsert(entries[0], Sort(entries[1..], IndexLe()), n);
    }
  }

  lemma {:induction false} TaggedInsert(x: Scored, s: seq<Scored>, n: nat)
    ensures Insert(Found(x.id, x.score, n), Tagged(s, n), FoundLe()) == Tagged(Insert(x, s, IndexLe()), n)
  {
    hide Tagged;
    TaggedFirst(x, s, n);
    if s != [] {
      var rest := s[1..];
      assert s == [s[0]] + rest;
      TaggedFirst(s[0], rest, n);
      if !IndexLe()(x, s[0]) {
        TaggedInsert(x, rest, n);
        TaggedFirst(s[0], Insert(x, rest, IndexLe()), n);
      }
    }
  }

  lemma TaggedFirst(x: Scored, s: seq<Scored>, n: nat)
    ensures Tagged([x] + s, n) == [Found(x.id, x.score, n)] + Tagged(s, n)
    ensures Tagged([x] + s, n)[1..] == Tagged(s, n)
  {
    var all: seq<Found>, first: seq<Found>, rest: seq<Found> := Tagged([x] + s, n), [Found(x.id, x.score, n)], Tagged(s, n);
    hide Tagged;
    assert forall i :: 0 <= i < |s| ==> ([x] + s)[i + 1] == s[i];
    assert forall i :: 0 <= i < |rest| ==> all[i + 1] == rest[i];
    assert all == first + rest;
    assert all[1..] == rest;
  }

  // The best `limit` of a space are the best `limit` of all it holds.
  lemma TaggedTop(entries: seq<Scored>, n: nat, limit: nat)
    ensures Top(Tagged(Prefix(Sort(entries, IndexLe()), limit), n), limit) == Top(Tagged(entries, n), limit)
  {
    var best := Prefix(Sort(entries, IndexLe()), limit);
    TaggedSorted(entries, n);
    assert Tagged(best, n) == Prefix(Tagged(Sort(entries, IndexLe()), n), limit);
    HitsInOrder(entries, best, limit, n);
    SortedStays(Tagged(best, n));
  }

  lemma {:induction false} TieInsert(x: Found, s: seq<Found>)
    requires forall i :: 0 <= i < |s| && s[i].score == x.score ==> FoundLe()(x, s[i])
    ensures Insert(x, s, ScoreLe()) == Insert(x, s, FoundLe())
  {
    if s != [] && !ScoreLe()(x, s[0]) {
      TieInsert(x, s[1..]);
    }
  }

  // Entries in tie order come out of the stable sort by score in full order.
  lemma {:induction false} TiesInOrder(s: seq<Found>)
    requires InTieOrder(s)
    ensures Sort(s, ScoreLe()) == Sort(s, FoundLe())
  {
    if s != [] {
      TiesInOrder(s[1..]);
      var r := Sort(s[1..], FoundLe());
      forall i | 0 <= i < |r| && r[i].score == s[0].score ensures FoundLe()(s[0], r[i]) {
        FoundLeOrder();
        SortMember(s[1..], FoundLe(), r[i]);
        var k :| 0 <= k < |s[1..]| && s[1..][k] == r[i];
        assert s[k + 1] == r[i];
      }
      TieInsert(s[0], r);
    }
  }

  lemma GatheredTop(sorted: seq<Found>, limit: nat)
    ensures forall s :: sorted == Sort(s, FoundLe()) ==> Prefix(sorted, limit) == Top(s, limit)
  {
  }

  // Every entry left out is no better than every entry returned.
  lemma TopIsBest(s: seq<Found>, limit: nat, x: Found, y: Found)
    requires multiset(s)[x] > multiset(Top(s, limit))[x] && y in Top(s, limit)
    ensures y.score >= x.score
  {
    hide Sort;
    FoundLeOrder();
    SortIsStable(s, FoundLe());
    var sorted := Sort(s, FoundLe());
    var best := Top(s, limit);
    var rest := sorted[|best|..];
    assert sorted == best + rest;
    assert multiset(rest)[x] > 0;
    assert x in rest;
    var j :| 0 <= j < |rest| && rest[j] == x;
    var i :| 0 <= i < |best| && best[i] == y;
    assert FoundLe()(sorted[i], sorted[|best| + j]);
  }

  // The merged results stand by score, and those of equal score by space and then by identifier.
  lemma TopInOrder(s: seq<Found>, limit: nat, i: nat, j: nat)
    requires i < j < |Top(s, limit)|
    ensures var a, b := Top(s, limit)[i], Top(s, limit)[j];
      a.score > b.score || (a.score == b.score && (a.space < b.space || (a.space == b.space && a.id <= b.id)))
  {
    FoundLeOrder();
    SortIsStable(s, FoundLe());
    var sorted := Sort(s, FoundLe());
    assert FoundLe()(sorted[i], sorted[j]);
  }
}
