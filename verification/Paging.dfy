/** Cursor paging as the storage backends provide it: at most `limit` rows in key order, strictly
    after the cursor. A next cursor comes only with a full page, and none only at the end. */
module Paging {
  import opened Common

  datatype Page<T, K> = Page(rows: seq<T>, next: Option<K>)

  ghost predicate StrictlySorted<T, K>(rows: seq<T>, key: T -> K, lt: (K, K) -> bool) {
    forall i, j :: 0 <= i < |rows| && 0 <= j < |rows| ==> (lt(key(rows[i]), key(rows[j])) <==> i < j)
  }

  function RowsAfter<T, K>(rows: seq<T>, key: T -> K, lt: (K, K) -> bool, after: Option<K>): seq<T> {
    if rows == [] then []
    else if after.None? || lt(after.value, key(rows[0])) then [rows[0]] + RowsAfter(rows[1..], key, lt, after)
    else RowsAfter(rows[1..], key, lt, after)
  }

  function Min(a: nat, b: nat): nat {
    if a < b then a else b
  }

  // What any backend may answer.
  ghost predicate IsPage<T, K>(rows: seq<T>, key: T -> K, lt: (K, K) -> bool, after: Option<K>, limit: nat, page: Page<T, K>) {
    var rest := RowsAfter(rows, key, lt, after);
    && page.rows == rest[..Min(limit, |rest|)]
    && (page.next.None? ==> |page.rows| == |rest|)
    && (page.next.Some? ==> 0 < |page.rows| == limit && page.next.value == key(page.rows[limit - 1]))
  }

  // One that hands out a cursor with every full page, and one that probes for a further row first.
  function PageAfter<T, K>(rows: seq<T>, key: T -> K, lt: (K, K) -> bool, after: Option<K>, limit: nat): (page: Page<T, K>)
    requires limit > 0
    ensures IsPage(rows, key, lt, after, limit, page)
  {
    var rest := RowsAfter(rows, key, lt, after);
    var page := rest[..Min(limit, |rest|)];
    Page(page, if |page| == limit then Some(key(page[limit - 1])) else None)
  }

  function PageProbed<T, K>(rows: seq<T>, key: T -> K, lt: (K, K) -> bool, after: Option<K>, limit: nat): (page: Page<T, K>)
    requires limit > 0
    ensures IsPage(rows, key, lt, after, limit, page)
  {
    var rest := RowsAfter(rows, key, lt, after);
    var page := rest[..Min(limit, |rest|)];
    Page(page, if |rest| > limit then Some(key(page[limit - 1])) else None)
  }

  // The cursor left by the first `k` rows.
  ghost function CursorAt<T, K>(rows: seq<T>, key: T -> K, k: nat): Option<K>
    requires k <= |rows|
  {
    if k == 0 then None else Some(key(rows[k - 1]))
  }

  lemma {:induction false} AllAfter<T, K>(rows: seq<T>, key: T -> K, lt: (K, K) -> bool, after: Option<K>)
    requires forall i :: 0 <= i < |rows| ==> after.None? || lt(after.value, key(rows[i]))
    ensures RowsAfter(rows, key, lt, after) == rows
  {
    if rows != [] {
      AllAfter(rows[1..], key, lt, after);
    }
  }

  lemma {:induction false} SkipBefore<T, K>(rows: seq<T>, key: T -> K, lt: (K, K) -> bool, c: K, k: nat)
    requires k <= |rows|
    requires forall i :: 0 <= i < |rows| ==> (lt(c, key(rows[i])) <==> k <= i)
    ensures RowsAfter(rows, key, lt, Some(c)) == rows[k..]
  {
    if k == 0 {
      AllAfter(rows, key, lt, Some(c));
    } else {
      assert !lt(c, key(rows[0]));
      SkipBefore(rows[1..], key, lt, c, k - 1);
      assert rows[1..][k - 1..] == rows[k..];
    }
  }

  // Reading on from the cursor of the first `k` rows yields the next ones, and no cursor comes
  // back only at the end.
  lemma PageContinues<T, K>(rows: seq<T>, key: T -> K, lt: (K, K) -> bool, k: nat, limit: nat, page: Page<T, K>)
    requires StrictlySorted(rows, key, lt) && k <= |rows| && limit > 0
    requires IsPage(rows, key, lt, CursorAt(rows, key, k), limit, page)
    ensures |page.rows| <= limit && k + |page.rows| <= |rows| && page.rows == rows[k..k + |page.rows|]
    ensures page.next.None? ==> k + |page.rows| == |rows|
    ensures page.next.Some? ==> |page.rows| == limit && page.next == CursorAt(rows, key, k + limit)
  {
    if k == 0 {
      AllAfter(rows, key, lt, None);
    } else {
      SkipBefore(rows, key, lt, key(rows[k - 1]), k);
    }
    var rest := RowsAfter(rows, key, lt, CursorAt(rows, key, k));
    assert rest == rows[k..];
  }
}
