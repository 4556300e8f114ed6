/** The stable comparison sort of the Rust standard library (`sort_by`, `sort_by_key`). */
module StableSort {

  ghost predicate TotalPreorder<T(!new)>(le: (T, T) -> bool) {
    && (forall x, y :: le(x, y) || le(y, x))
    && (forall x, y, z :: le(x, y) && le(y, z) ==> le(x, z))
  }

  ghost predicate SortedBy<T>(s: seq<T>, le: (T, T) -> bool) {
    forall i, j :: 0 <= i < j < |s| ==> le(s[i], s[j])
  }

  function Insert<T>(x: T, s: seq<T>, le: (T, T) -> bool): seq<T> {
    if s == [] || le(x, s[0]) then [x] + s else [s[0]] + Insert(x, s[1..], le)
  }

  function Sort<T>(s: seq<T>, le: (T, T) -> bool): (r: seq<T>) {
    if s == [] then [] else Insert(s[0], Sort(s[1..], le), le)
  }

  // The elements that compare equal to `x`, in their order of appearance.
  ghost function Class<T>(s: seq<T>, x: T, le: (T, T) -> bool): seq<T> {
    if s == [] then []
    else (if le(x, s[0]) && le(s[0], x) then [s[0]] else []) + Class(s[1..], x, le)
  }

  lemma {:induction false} InsertMultiset<T>(x: T, s: seq<T>, le: (T, T) -> bool)
    ensures multiset(Insert(x, s, le)) == multiset{x} + multiset(s)
  {
    if s != [] && !le(x, s[0]) {
      InsertMultiset(x, s[1..], le);
      assert s == [s[0]] + s[1..];
    }
  }

  lemma {:induction false} InsertSorted<T(!new)>(x: T, s: seq<T>, le: (T, T) -> bool)
    requires TotalPreorder(le) && SortedBy(s, le)
    ensures SortedBy(Insert(x, s, le), le)
  {
    if s != [] && !le(x, s[0]) {
      InsertSorted(x, s[1..], le);
      InsertMultiset(x, s[1..], le);
      var r := Insert(x, s[1..], le);
      forall i | 0 <= i < |r| ensures le(s[0], r[i]) {
        assert r[i] in multiset(r);
        if r[i] != x {
          assert r[i] in multiset(s[1..]);
          assert r[i] in s[1..];
        }
      }
    } else if s != [] {
      forall i | 0 <= i < |s| ensures le(x, s[i]) {
        assert le(s[0], s[0]);
        assert le(s[0], s[i]);
      }
    }
  }

  lemma {:induction false} InsertClass<T(!new)>(x: T, s: seq<T>, y: T, le: (T, T) -> bool)
    requires TotalPreorder(le)
    ensures Class(Insert(x, s, le), y, le) == Class([x] + s, y, le)
  {
    assert ([x] + s)[1..] == s;
    if s != [] && !le(x, s[0]) {
      InsertClass(x, s[1..], y, le);
      var r := Insert(x, s[1..], le);
      assert ([s[0]] + r)[1..] == r;
      assert ([x] + s[1..])[1..] == s[1..];
    }
  }

  // Sorted, a permutation of the input, and equal elements keep their order.
  lemma {:induction false} SortIsStable<T(!new)>(s: seq<T>, le: (T, T) -> bool)
    requires TotalPreorder(le)
    ensures SortedBy(Sort(s, le), le)
    ensures multiset(Sort(s, le)) == multiset(s)
    ensures |Sort(s, le)| == |s|
    ensures forall y :: Class(Sort(s, le), y, le) == Class(s, y, le)
  {
    if s != [] {
      SortIsStable(s[1..], le);
      var r := Sort(s[1..], le);
      InsertSorted(s[0], r, le);
      InsertMultiset(s[0], r, le);
      assert s == [s[0]] + s[1..];
      assert multiset(Sort(s, le)) == multiset(s);
      assert |multiset(Sort(s, le))| == |multiset(s)|;
      forall y ensures Class(Sort(s, le), y, le) == Class(s, y, le) {
        InsertClass(s[0], r, y, le);
        assert ([s[0]] + r)[1..] == r;
      }
    }
  }

  lemma {:induction false} InsertAt<T>(x: T, s: seq<T>, le: (T, T) -> bool) returns (p: nat)
    ensures p <= |s| && Insert(x, s, le) == s[..p] + [x] + s[p..]
    ensures forall i :: 0 <= i < p ==> !le(x, s[i])
  {
    p := 0;
    if s != [] && !le(x, s[0]) {
      p := InsertAt(x, s[1..], le);
      assert s[..p + 1] == [s[0]] + s[1..][..p];
      assert s[p + 1..] == s[1..][p..];
      p := p + 1;
    }
  }

  // Where each element of the sorted sequence came from; equal elements come in their old order.
  ghost predicate CameFrom<T>(r: seq<T>, s: seq<T>, le: (T, T) -> bool, origin: seq<nat>) {
    && |origin| == |r| == |s| && Distinct(origin)
    && (forall i :: 0 <= i < |origin| ==> origin[i] < |s| && r[i] == s[origin[i]])
    && (forall i, j :: 0 <= i < j < |r| && le(r[j], r[i]) ==> origin[i] < origin[j])
  }

  lemma {:induction false} SortOrigin<T>(s: seq<T>, le: (T, T) -> bool) returns (origin: seq<nat>)
    ensures CameFrom(Sort(s, le), s, le, origin)
  {
    origin := [];
    if s != [] {
      var sorted := Sort(s[1..], le);
      var rest := SortOrigin(s[1..], le);
      assert |rest| == |sorted| && Sort(s, le) == Insert(s[0], sorted, le);
      hide Sort, Insert, CameFrom;
      var p := InsertAt(s[0], sorted, le);
      origin := Shifted(rest, p);
      InsertedOrigin(Sort(s, le), sorted, s, le, rest, origin, p);
    }
  }

  // One step further on, with a new first place put in at `p`.
  lemma Shifted(rest: seq<nat>, p: nat) returns (origin: seq<nat>)
    requires p <= |rest|
    ensures |origin| == |rest| + 1 && origin[p] == 0
    ensures forall i :: 0 <= i < p ==> origin[i] == rest[i] + 1
    ensures forall i :: p < i < |origin| ==> origin[i] == rest[i - 1] + 1
  {
    origin := seq(|rest| + 1, i requires 0 <= i <= |rest| => if i < p then rest[i] + 1 else if i == p then 0 else rest[i - 1] + 1);
  }

  lemma InsertedOrigin<T>(r: seq<T>, r': seq<T>, s: seq<T>, le: (T, T) -> bool, rest: seq<nat>, origin: seq<nat>, p: nat)
    requires s != [] && p <= |r'| && r == r'[..p] + [s[0]] + r'[p..] && CameFrom(r', s[1..], le, rest)
    requires forall i :: 0 <= i < p ==> !le(s[0], r'[i])
    requires |origin| == |r'| + 1 && origin[p] == 0
    requires forall i :: 0 <= i < p ==> origin[i] == rest[i] + 1
    requires forall i :: p < i < |origin| ==> origin[i] == rest[i - 1] + 1
    ensures CameFrom(r, s, le, origin)
  {
    assert |r| == |s| == |origin|;
    forall i | 0 <= i < |r| ensures origin[i] < |s| && r[i] == s[origin[i]] {
      InsertedPlace(r, r', s, le, rest, origin, p, i);
    }
    forall i, j | 0 <= i < j < |r| ensures origin[i] != origin[j] && (le(r[j], r[i]) ==> origin[i] < origin[j]) {
      InsertedPlace(r, r', s, le, rest, origin, p, i);
      InsertedPlace(r, r', s, le, rest, origin, p, j);
    }
  }

  lemma InsertedPlace<T>(r: seq<T>, r': seq<T>, s: seq<T>, le: (T, T) -> bool, rest: seq<nat>, origin: seq<nat>, p: nat, i: nat)
    requires s != [] && p <= |r'| && r == r'[..p] + [s[0]] + r'[p..] && CameFrom(r', s[1..], le, rest)
    requires |origin| == |r'| + 1 && origin[p] == 0 && i < |r|
    requires forall i :: 0 <= i < p ==> origin[i] == rest[i] + 1
    requires forall i :: p < i < |origin| ==> origin[i] == rest[i - 1] + 1
    ensures origin[i] < |s| && r[i] == s[origin[i]]
    ensures r[i] == if i < p then r'[i] else if i == p then s[0] else r'[i - 1]
    ensures origin[i] == if i < p then rest[i] + 1 else if i == p then 0 else rest[i - 1] + 1
  {
    var tail := s[1..];
    if i < p {
      assert r[i] == r'[i] == tail[rest[i]];
    } else if i > p {
      assert r[i] == r'[i - 1] == tail[rest[i - 1]];
    }
  }

  lemma SortMember<T(!new)>(s: seq<T>, le: (T, T) -> bool, x: T)
    requires TotalPreorder(le)
    ensures x in Sort(s, le) <==> x in s
  {
    SortIsStable(s, le);
    assert x in multiset(Sort(s, le)) <==> x in multiset(s);
  }

  lemma FirstIsLeast<T(!new)>(a: seq<T>, b: seq<T>, le: (T, T) -> bool)
    requires TotalPreorder(le) && SortedBy(a, le) && multiset(a) == multiset(b) && a != [] && b != []
    ensures b[0] in a && le(a[0], b[0])
  {
    assert b[0] in multiset(a);
    var i :| 0 <= i < |a| && a[i] == b[0];
    if i == 0 {
      assert le(b[0], b[0]);
    }
  }

  lemma TailsAgree<T>(a: seq<T>, b: seq<T>)
    requires multiset(a) == multiset(b) && a != [] && b != [] && a[0] == b[0]
    ensures multiset(a[1..]) == multiset(b[1..])
  {
    assert a == [a[0]] + a[1..] && b == [b[0]] + b[1..];
    assert multiset(a[1..]) == multiset(a) - multiset{a[0]};
    assert multiset(b[1..]) == multiset(b) - multiset{b[0]};
  }

  // Under an antisymmetric order the sorted arrangement of a multiset is unique.
  lemma {:induction false} SortedUnique<T(!new)>(a: seq<T>, b: seq<T>, le: (T, T) -> bool)
    requires TotalPreorder(le)
    requires forall x, y :: x in a && y in a && le(x, y) && le(y, x) ==> x == y
    requires SortedBy(a, le) && SortedBy(b, le) && multiset(a) == multiset(b)
    ensures a == b
  {
    hide TotalPreorder;
    assert |multiset(a)| == |multiset(b)|;
    if a != [] {
      FirstIsLeast(a, b, le);
      FirstIsLeast(b, a, le);
      TailsAgree(a, b);
      SortedUnique(a[1..], b[1..], le);
    }
  }

  // The first element of `a` also occurs in a permutation of `a`; taking it out of both leaves
  // permutations of each other.
  lemma TakeOut<T>(a: seq<T>, b: seq<T>) returns (k: nat)
    requires multiset(a) == multiset(b) && a != []
    ensures k < |b| && b == b[..k] + ([a[0]] + b[k + 1..])
    ensures multiset(a[1..]) == multiset(b[..k] + b[k + 1..])
  {
    assert a[0] in multiset(b);
    k :| 0 <= k < |b| && b[k] == a[0];
    WithoutOne(a, 0);
    WithoutOne(b, k);
    assert a[..0] + a[1..] == a[1..];
  }

  lemma WithoutOne<T>(b: seq<T>, k: nat)
    requires k < |b|
    ensures b == b[..k] + ([b[k]] + b[k + 1..])
    ensures multiset(b[..k] + b[k + 1..]) == multiset(b) - multiset{b[k]}
  {
    var before, after := b[..k], b[k + 1..];
    assert b == before + ([b[k]] + after);
    assert multiset(before + ([b[k]] + after)) == multiset(before) + (multiset{b[k]} + multiset(after));
    assert multiset(before + after) == multiset(before) + multiset(after);
  }

  ghost predicate Distinct<T>(s: seq<T>) {
    forall i, j :: 0 <= i < j < |s| ==> s[i] != s[j]
  }

  lemma {:induction false} DistinctOnce<T>(s: seq<T>, x: T)
    requires Distinct(s)
    ensures multiset(s)[x] <= 1
  {
    if s != [] {
      assert s == [s[0]] + s[1..];
      DistinctOnce(s[1..], x);
      assert forall j :: 0 <= j < |s[1..]| ==> s[1..][j] != s[0];
    }
  }

  lemma TwoCopies<T>(s: seq<T>, i: nat, j: nat)
    requires i < j < |s| && s[i] == s[j]
    ensures multiset(s)[s[i]] >= 2
  {
    assert s == s[..i] + [s[i]] + s[i + 1..j] + [s[j]] + s[j + 1..];
  }

  // Rearranging distinct elements leaves them distinct.
  lemma RearrangedDistinct<T>(s: seq<T>, r: seq<T>)
    requires Distinct(s) && multiset(r) == multiset(s)
    ensures Distinct(r)
  {
    forall i, j | 0 <= i < j < |r| ensures r[i] != r[j] {
      if r[i] == r[j] {
        DistinctOnce(s, r[i]);
        TwoCopies(r, i, j);
      }
    }
  }

  // ---- Counting --------------------------------------------------------------------------------

  ghost function Count<T>(s: seq<T>, holds: T -> bool): nat {
    if s == [] then 0 else (if holds(s[0]) then 1 else 0) + Count(s[1..], holds)
  }

  lemma {:induction false} CountSplit<T>(a: seq<T>, b: seq<T>, holds: T -> bool)
    ensures Count(a + b, holds) == Count(a, holds) + Count(b, holds)
  {
    if a == [] {
      assert a + b == b;
    } else {
      CountSplit(a[1..], b, holds);
      assert (a + b)[1..] == a[1..] + b;
    }
  }

  lemma {:induction false} CountPermutes<T>(a: seq<T>, b: seq<T>, holds: T -> bool)
    requires multiset(a) == multiset(b)
    ensures Count(a, holds) == Count(b, holds)
  {
    assert |multiset(a)| == |multiset(b)|;
    if a != [] {
      var k := TakeOut(a, b);
      var rest := b[..k] + b[k + 1..];
      assert a == [a[0]] + a[1..];
      CountPermutes(a[1..], rest, holds);
      CountSplit(b[..k], b[k + 1..], holds);
      CountSplit(b[..k], [a[0]] + b[k + 1..], holds);
      CountSplit([a[0]], b[k + 1..], holds);
      CountSplit([a[0]], a[1..], holds);
    }
  }

  // Where only the entries before `a` can qualify, at most `a` do; where those all do, at least `a`.
  lemma {:induction false} CountPrefix<T>(d: seq<T>, a: nat, holds: T -> bool)
    requires a <= |d|
    ensures (forall m :: 0 <= m < |d| && holds(d[m]) ==> m < a) ==> Count(d, holds) <= a
    ensures (forall m :: 0 <= m < a ==> holds(d[m])) ==> Count(d, holds) >= a
  {
    if d != [] {
      CountPrefix(d[1..], if a == 0 then 0 else a - 1, holds);
      assert forall m :: 0 <= m < |d| - 1 ==> d[1..][m] == d[m + 1];
    }
  }

  lemma {:induction false} CountSuffix<T>(d: seq<T>, a: nat, holds: T -> bool)
    requires a <= |d|
    ensures (forall m :: 0 <= m < |d| && holds(d[m]) ==> a <= m) ==> Count(d, holds) <= |d| - a
    ensures (forall m :: a <= m < |d| ==> holds(d[m])) ==> Count(d, holds) >= |d| - a
  {
    if d != [] {
      CountSuffix(d[1..], if a == 0 then 0 else a - 1, holds);
      assert forall m :: 0 <= m < |d| - 1 ==> d[1..][m] == d[m + 1];
    }
  }
}
