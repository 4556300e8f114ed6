/** The bulk run over every namespace of a store, and the gate that decides whether its
    artifacts may replace the store. */
module BulkExport {
  import opened Common
  import opened Paging
  import opened NamespaceExport

  const NAMESPACE_PAGE: nat := 256

  datatype ExportRecord = ExportRecord(namespaceId: Uuid, counts: ExportCounts)
  datatype ExportFailure = ExportFailure(namespaceId: Uuid)

  datatype Summary = Summary(exported: seq<ExportRecord>, failed: seq<ExportFailure>)

  // A store: namespace identifiers in key order, and what each one holds.
  datatype Store = Store(ids: seq<Uuid>, sources: map<Uuid, Source>)

  function SelfKey(id: Uuid): Uuid {
    id
  }

  ghost predicate WellFormedStore(store: Store) {
    && StrictlySorted(store.ids, SelfKey, IdLt)
    && (forall id :: id in store.ids ==> id in store.sources && WellKeyed(store.sources[id]))
  }

  datatype PublishError = LostNamespaces | SavedNothing

  function EnsurePublishable(summary: Summary): Result<(), PublishError> {
    if summary.failed != [] then Err(LostNamespaces)
    else if summary.exported == [] then Err(SavedNothing)
    else Ok(())
  }

  // The output directory: the store that was published under each namespace's file name, as the
  // log of what was written to it.
  class OutputDirectory {
    var files: map<Uuid, seq<Write>>

    constructor ()
      ensures files == map[]
    {
      files := map[];
    }

    // Renaming a staged store puts it in place of whatever had the name, or fails and changes
    // nothing.
    method Publish(io: Storage, id: Uuid, staged: Destination) returns (r: Result<(), StorageError>)
      requires io.Valid()
      modifies this, io
      ensures r.Ok? ==> files == old(files)[id := staged.log]
      ensures r.Err? ==> files == old(files)
      ensures io.Valid() && io.failures == old(io.failures) + if r.Ok? then 0 else 1
      ensures r.Err? ==> r.error == Io
    {
      var renamed := io.Call();
      if !renamed {
        return Err(Io);
      }
      files := files[id := staged.log];
      return Ok(());
    }
  }

  // The file published for a record is an exact copy of its namespace, written in order, and the
  // counts are those of that very file.
  ghost predicate Faithful(store: Store, files: map<Uuid, seq<Write>>, record: ExportRecord) {
    var id := record.namespaceId;
    && id in store.sources && id in files
    && ExactCopy(store.sources[id], files[id]) && Ordered(files[id])
    && CountsMatch(store.sources[id], record.counts, files[id])
  }

  // A published store is a finished copy, never one that was left half written.
  ghost predicate Finished(store: Store, files: map<Uuid, seq<Write>>, id: Uuid) {
    id in store.sources && id in files && ExactCopy(store.sources[id], files[id]) && Ordered(files[id])
  }

  // Every file is as it was, or a finished copy of its namespace.
  ghost predicate NothingHalfWritten(store: Store, before: map<Uuid, seq<Write>>, files: map<Uuid, seq<Write>>) {
    && (forall id :: id in before ==> id in files)
    && (forall id :: id in files ==> (id in before && files[id] == before[id]) || Finished(store, files, id))
  }

  ghost predicate AllFaithful(store: Store, files: map<Uuid, seq<Write>>, records: seq<ExportRecord>) {
    forall k :: 0 <= k < |records| ==> Faithful(store, files, records[k])
  }

  // The records and failures, in order, are the outcomes of the first `n` namespaces.
  ghost predicate Accounts(ids: seq<Uuid>, n: nat, exportedAt: seq<nat>, failedAt: seq<nat>, summary: Summary)
    requires n <= |ids|
  {
    && |exportedAt| == |summary.exported| && |failedAt| == |summary.failed|
    && (forall k :: 0 <= k < |exportedAt| ==> exportedAt[k] < n && summary.exported[k].namespaceId == ids[exportedAt[k]])
    && (forall k :: 0 <= k < |failedAt| ==> failedAt[k] < n && summary.failed[k].namespaceId == ids[failedAt[k]])
    && (forall a, b :: 0 <= a < b < |exportedAt| ==> exportedAt[a] < exportedAt[b])
    && (forall a, b :: 0 <= a < b < |failedAt| ==> failedAt[a] < failedAt[b])
    && (forall i :: 0 <= i < n ==> (i in exportedAt <==> i !in failedAt))
  }

  // No other file is added, changed or removed.
  ghost predicate OnlyTouches(id: Uuid, before: map<Uuid, seq<Write>>, files: map<Uuid, seq<Write>>) {
    && files.Keys <= before.Keys + {id}
    && forall other :: other in before && other != id ==> other in files && files[other] == before[other]
  }

  // Staging, hashing and renaming can fail on their own; the copy is a fresh store. The embedding
  // state is read after the rename, so a failure there leaves the file in place without a record.
  method ExportOne(store: Store, id: Uuid, out: OutputDirectory, io: Storage) returns (r: Result<ExportRecord, StorageError>)
    requires id in store.sources && WellKeyed(store.sources[id]) && io.Valid()
    modifies out, io
    ensures r.Ok? ==> r.value.namespaceId == id && Faithful(store, out.files, r.value)
    ensures r.Err? ==> out.files == old(out.files) || Finished(store, out.files, id)
    ensures OnlyTouches(id, old(out.files), out.files)
    ensures io.Valid() && io.failures == old(io.failures) + if r == Err(Io) then 1 else 0
    ensures r.Ok? <==> Exportable(store.sources[id]) && io.failures == old(io.failures)
  {
    hide ExactCopy, CountsMatch, Ordered, WellKeyed, Exportable, Storage.Valid;
    var staging := io.Call();
    if !staging {
      return Err(Io);
    }
    var storeOpened := io.Call();
    if !storeOpened {
      return Err(Io);
    }
    var dest := new Destination();
    var counts := ExportNamespace(store.sources[id], dest, io);
    if counts.Err? {
      return Err(counts.error);
    }
    var readable := io.Call();
    if !readable {
      return Err(Io);
    }
    var published := out.Publish(io, id, dest);
    if published.Err? {
      return Err(published.error);
    }
    var stateRead := io.Call();
    if !stateRead {
      return Err(Io);
    }
    r := Ok(ExportRecord(id, counts.value));
  }

  method ReadNamespaces(store: Store, run: Storage, after: Option<Uuid>, limit: nat)
    returns (r: Result<Page<Uuid, Uuid>, StorageError>)
    requires limit > 0 && run.Valid()
    modifies run
    ensures r.Ok? ==> IsPage(store.ids, SelfKey, IdLt, after, limit, r.value)
    ensures run.Valid() && run.failures == old(run.failures) + if r.Ok? then 0 else 1
  {
    var ok := run.Call();
    if !ok {
      return Err(Io);
    }
    return Ok(PageAfter(store.ids, SelfKey, IdLt, after, limit));
  }

  lemma AccountExported(ids: seq<Uuid>, n: nat, exportedAt: seq<nat>, failedAt: seq<nat>, summary: Summary, record: ExportRecord)
    requires n < |ids| && Accounts(ids, n, exportedAt, failedAt, summary) && record.namespaceId == ids[n]
    ensures Accounts(ids, n + 1, exportedAt + [n], failedAt, summary.(exported := summary.exported + [record]))
  {
    assert forall i :: i in exportedAt + [n] <==> i in exportedAt || i == n;
    assert n !in failedAt;
  }

  lemma AccountFailed(ids: seq<Uuid>, n: nat, exportedAt: seq<nat>, failedAt: seq<nat>, summary: Summary, failure: ExportFailure)
    requires n < |ids| && Accounts(ids, n, exportedAt, failedAt, summary) && failure.namespaceId == ids[n]
    ensures Accounts(ids, n + 1, exportedAt, failedAt + [n], summary.(failed := summary.failed + [failure]))
  {
    assert forall i :: i in failedAt + [n] <==> i in failedAt || i == n;
    assert n !in exportedAt;
  }

  // Records of other namespaces stay faithful while one is exported.
  lemma OthersStayFaithful(store: Store, before: map<Uuid, seq<Write>>, after: map<Uuid, seq<Write>>,
                           records: seq<ExportRecord>, id: Uuid)
    requires AllFaithful(store, before, records)
    requires forall k :: 0 <= k < |records| ==> records[k].namespaceId != id
    requires forall other :: other in before && other != id ==> other in after && after[other] == before[other]
    ensures AllFaithful(store, after, records)
  {
    hide ExactCopy, CountsMatch, Ordered;
    forall k | 0 <= k < |records| ensures Faithful(store, after, records[k]) {
      assert Faithful(store, before, records[k]);
    }
  }

  // No record so far is of the namespace that comes next.
  lemma RecordsAreEarlier(store: Store, n: nat, exportedAt: seq<nat>, failedAt: seq<nat>, summary: Summary)
    requires WellFormedStore(store) && n < |store.ids| && Accounts(store.ids, n, exportedAt, failedAt, summary)
    ensures forall k :: 0 <= k < |summary.exported| ==> summary.exported[k].namespaceId != store.ids[n]
  {
    forall k | 0 <= k < |summary.exported| ensures summary.exported[k].namespaceId != store.ids[n] {
      var i := exportedAt[k];
      assert IdLt(SelfKey(store.ids[i]), SelfKey(store.ids[n])) <==> i < n;
    }
  }

  // Outcomes have their reasons: only namespaces that can be exported are, and unless a call of
  // some copy went wrong, all of those are.
  ghost predicate Explained(store: Store, n: nat, exportedAt: seq<nat>, allAnswered: bool)
    requires n <= |store.ids| && WellFormedStore(store)
  {
    && (forall i :: 0 <= i < n && i in exportedAt ==> Exportable(store.sources[store.ids[i]]))
    && (allAnswered ==> forall i :: 0 <= i < n && Exportable(store.sources[store.ids[i]]) ==> i in exportedAt)
  }

  lemma ExplainedNext(store: Store, n: nat, exportedAt: seq<nat>, failedAt: seq<nat>, summary: Summary, before: bool, after: bool,
                      exported: bool)
    requires n < |store.ids| && WellFormedStore(store) && Accounts(store.ids, n, exportedAt, failedAt, summary)
    requires Explained(store, n, exportedAt, before) && (after ==> before)
    requires exported ==> Exportable(store.sources[store.ids[n]])
    requires after && Exportable(store.sources[store.ids[n]]) ==> exported
    ensures Explained(store, n + 1, if exported then exportedAt + [n] else exportedAt, after)
  {
    hide Exportable, WellFormedStore;
    var now := if exported then exportedAt + [n] else exportedAt;
    assert forall i :: i in now <==> i in exportedAt || (exported && i == n);
  }

  // Where the run stands after the first `n` namespaces.
  ghost predicate Underway(store: Store, n: nat, exportedAt: seq<nat>, failedAt: seq<nat>, summary: Summary,
                           first: map<Uuid, seq<Write>>, files: map<Uuid, seq<Write>>, allAnswered: bool)
    requires n <= |store.ids| && WellFormedStore(store)
  {
    && Accounts(store.ids, n, exportedAt, failedAt, summary)
    && AllFaithful(store, files, summary.exported)
    && NothingHalfWritten(store, first, files)
    && Explained(store, n, exportedAt, allAnswered)
  }

  lemma OneExported(store: Store, n: nat, exportedAt: seq<nat>, failedAt: seq<nat>, summary: Summary,
                    first: map<Uuid, seq<Write>>, before: map<Uuid, seq<Write>>, files: map<Uuid, seq<Write>>,
                    allAnswered: bool, record: ExportRecord)
    requires n < |store.ids| && WellFormedStore(store) && OnlyTouches(store.ids[n], before, files)
    requires Underway(store, n, exportedAt, failedAt, summary, first, before, allAnswered)
    requires record.namespaceId == store.ids[n] && Faithful(store, files, record) && Exportable(store.sources[store.ids[n]])
    ensures Underway(store, n + 1, exportedAt + [n], failedAt, summary.(exported := summary.exported + [record]), first, files,
                     allAnswered)
  {
    hide Accounts, AllFaithful, Faithful, Finished, NothingHalfWritten, Explained, Exportable, WellFormedStore;
    RecordsAreEarlier(store, n, exportedAt, failedAt, summary);
    ExplainedNext(store, n, exportedAt, failedAt, summary, allAnswered, allAnswered, true);
    OthersStayFaithful(store, before, files, summary.exported, store.ids[n]);
    FaithfulIsFinished(store, files, record);
    OneMoreFile(store, first, before, files, store.ids[n]);
    AccountExported(store.ids, n, exportedAt, failedAt, summary, record);
    OneMoreFaithful(store, files, summary.exported, record);
  }

  lemma OneFailed(store: Store, n: nat, exportedAt: seq<nat>, failedAt: seq<nat>, summary: Summary,
                  first: map<Uuid, seq<Write>>, before: map<Uuid, seq<Write>>, files: map<Uuid, seq<Write>>,
                  answeredBefore: bool, allAnswered: bool)
    requires n < |store.ids| && WellFormedStore(store) && OnlyTouches(store.ids[n], before, files)
    requires Underway(store, n, exportedAt, failedAt, summary, first, before, answeredBefore)
    requires allAnswered ==> answeredBefore && !Exportable(store.sources[store.ids[n]])
    requires files == before || Finished(store, files, store.ids[n])
    ensures Underway(store, n + 1, exportedAt, failedAt + [n],
                     summary.(failed := summary.failed + [ExportFailure(store.ids[n])]), first, files, allAnswered)
  {
    hide Accounts, AllFaithful, Faithful, Finished, NothingHalfWritten, Explained, Exportable, WellFormedStore;
    RecordsAreEarlier(store, n, exportedAt, failedAt, summary);
    ExplainedNext(store, n, exportedAt, failedAt, summary, answeredBefore, allAnswered, false);
    OthersStayFaithful(store, before, files, summary.exported, store.ids[n]);
    OneMoreFile(store, first, before, files, store.ids[n]);
    AccountFailed(store.ids, n, exportedAt, failedAt, summary, ExportFailure(store.ids[n]));
  }

  // Every namespace ends in exactly one record or one failure, in store order, and every record is
  // faithful to the file in the output directory when the run ends. A directory that already holds
  // a manifest is refused untouched. The run as a whole fails only for that, or when its directory,
  // a listing or the manifest fails; whatever goes wrong with one namespace does not end it.
  method ExportAllNamespaces(store: Store, manifestExists: bool, out: OutputDirectory, run: Storage, io: Storage)
    returns (r: Result<Summary, StorageError>, ghost exportedAt: seq<nat>, ghost failedAt: seq<nat>)
    requires WellFormedStore(store) && run != io && run.Valid() && io.Valid()
    modifies out, run, io
    ensures r.Ok? <==> !manifestExists && run.failures == old(run.failures)
    ensures manifestExists ==> r.Err? && out.files == old(out.files)
    ensures r.Ok? ==> Accounts(store.ids, |store.ids|, exportedAt, failedAt, r.value)
    ensures r.Ok? ==> AllFaithful(store, out.files, r.value.exported)
    ensures r.Ok? ==> Explained(store, |store.ids|, exportedAt, io.failures == old(io.failures))
    ensures NothingHalfWritten(store, old(out.files), out.files)
  {
    hide Underway, OnlyTouches, Explained, Exportable, Storage.Valid;
    hide Accounts, AllFaithful, Faithful, Finished, NothingHalfWritten, IsPage, WellFormedStore, WellKeyed, StrictlySorted;
    exportedAt, failedAt := [], [];
    NothingWritten(store, out.files);
    var created := run.Call();
    if !created {
      return Err(Io), exportedAt, failedAt;
    }
    if manifestExists {
      return Err(Context), exportedAt, failedAt;
    }
    var summary := Summary([], []);
    var after: Option<Uuid> := None;
    ghost var n: nat := 0;
    StoreSorted(store);
    NothingYet(store, out.files);
    while true
      invariant run.Valid() && io.Valid() && run.failures == old(run.failures) && io.failures >= old(io.failures)
      invariant n <= |store.ids| && after == CursorAt(store.ids, SelfKey, n)
      invariant Underway(store, n, exportedAt, failedAt, summary, old(out.files), out.files, io.failures == old(io.failures))
      decreases |store.ids| - n
    {
      UnderwayMeans(store, n, exportedAt, failedAt, summary, old(out.files), out.files, io.failures == old(io.failures));
      var read := ReadNamespaces(store, run, after, NAMESPACE_PAGE);
      if read.Err? {
        return Err(read.error), exportedAt, failedAt;
      }
      var page := read.value;
      ghost var start := n;
      PageContinues(store.ids, SelfKey, IdLt, n, NAMESPACE_PAGE, page);
      for i := 0 to |page.rows|
        invariant run.Valid() && io.Valid() && run.failures == old(run.failures) && io.failures >= old(io.failures)
        invariant n == start + i <= |store.ids|
        invariant Underway(store, n, exportedAt, failedAt, summary, old(out.files), out.files, io.failures == old(io.failures))
      {
        assert page.rows[i] == store.ids[n];
        KnownNamespace(store, n);
        ghost var files, answered := out.files, io.failures == old(io.failures);
        var one := ExportOne(store, page.rows[i], out, io);
        match one {
          case Ok(record) =>
            OneExported(store, n, exportedAt, failedAt, summary, old(out.files), files, out.files, answered, record);
            summary := summary.(exported := summary.exported + [record]);
            exportedAt := exportedAt + [n];
          case Err(_) =>
            OneFailed(store, n, exportedAt, failedAt, summary, old(out.files), files, out.files, answered,
                      io.failures == old(io.failures));
            summary := summary.(failed := summary.failed + [ExportFailure(page.rows[i])]);
            failedAt := failedAt + [n];
        }
        n := n + 1;
      }
      after := page.next;
      if after.None? {
        break;
      }
    }
    UnderwayMeans(store, n, exportedAt, failedAt, summary, old(out.files), out.files, io.failures == old(io.failures));
    var written := run.Call();
    if !written {
      return Err(Io), exportedAt, failedAt;
    }
    return Ok(summary), exportedAt, failedAt;
  }

  lemma NothingWritten(store: Store, files: map<Uuid, seq<Write>>)
    ensures NothingHalfWritten(store, files, files)
  {
  }

  lemma FaithfulIsFinished(store: Store, files: map<Uuid, seq<Write>>, record: ExportRecord)
    requires Faithful(store, files, record)
    ensures Finished(store, files, record.namespaceId)
  {
    hide ExactCopy, Ordered, CountsMatch;
  }

  lemma OneMoreFile(store: Store, first: map<Uuid, seq<Write>>, before: map<Uuid, seq<Write>>, files: map<Uuid, seq<Write>>,
                    id: Uuid)
    requires NothingHalfWritten(store, first, before) && (files == before || Finished(store, files, id))
    requires files.Keys <= before.Keys + {id}
    requires forall other :: other in before && other != id ==> other in files && files[other] == before[other]
    ensures NothingHalfWritten(store, first, files)
  {
    hide ExactCopy, Ordered;
    forall other | other in files && other != id
      ensures (other in first && files[other] == first[other]) || Finished(store, files, other)
    {
      assert other in before;
    }
  }

  lemma OneMoreFaithful(store: Store, files: map<Uuid, seq<Write>>, records: seq<ExportRecord>, record: ExportRecord)
    requires AllFaithful(store, files, records) && Faithful(store, files, record)
    ensures AllFaithful(store, files, records + [record])
  {
  }

  lemma NothingYet(store: Store, files: map<Uuid, seq<Write>>)
    requires WellFormedStore(store)
    ensures Underway(store, 0, [], [], Summary([], []), files, files, true)
  {
  }

  lemma UnderwayMeans(store: Store, n: nat, exportedAt: seq<nat>, failedAt: seq<nat>, summary: Summary,
                      first: map<Uuid, seq<Write>>, files: map<Uuid, seq<Write>>, allAnswered: bool)
    requires n <= |store.ids| && WellFormedStore(store)
    requires Underway(store, n, exportedAt, failedAt, summary, first, files, allAnswered)
    ensures Accounts(store.ids, n, exportedAt, failedAt, summary) && AllFaithful(store, files, summary.exported)
    ensures NothingHalfWritten(store, first, files) && Explained(store, n, exportedAt, allAnswered)
  {
    hide Accounts, AllFaithful, NothingHalfWritten, Explained, WellFormedStore;
  }

  lemma StoreSorted(store: Store)
    requires WellFormedStore(store)
    ensures StrictlySorted(store.ids, SelfKey, IdLt)
  {
  }

  lemma KnownNamespace(store: Store, n: nat)
    requires WellFormedStore(store) && n < |store.ids|
    ensures store.ids[n] in store.sources && WellKeyed(store.sources[store.ids[n]])
  {
  }

  lemma {:induction false} Rising(at: seq<nat>, k: nat)
    requires k < |at| && forall a, b :: 0 <= a < b < |at| ==> at[a] < at[b]
    ensures at[k] >= k
  {
    if k > 0 {
      Rising(at, k - 1);
      assert at[k - 1] < at[k];
    }
  }

  // Increasing positions that cover a range are the range itself.
  lemma {:induction false} Covers(at: seq<nat>, n: nat)
    requires forall a, b :: 0 <= a < b < |at| ==> at[a] < at[b]
    requires forall k :: 0 <= k < |at| ==> at[k] < n
    requires forall i :: 0 <= i < n ==> i in at
    ensures |at| == n && forall k :: 0 <= k < n ==> at[k] == k
    decreases n
  {
    if at != [] {
      Rising(at, |at| - 1);
    }
    if n > 0 {
      var m := |at| - 1;
      assert n - 1 in at;
      var k :| 0 <= k < |at| && at[k] == n - 1;
      assert forall a :: 0 <= a < m ==> at[a] < at[m];
      forall i | 0 <= i < n - 1 ensures i in at[..m] {
        assert i in at;
        var j :| 0 <= j < |at| && at[j] == i;
      }
      Covers(at[..m], n - 1);
      assert forall j :: 0 <= j < m ==> at[..m][j] == at[j];
    }
  }

  // A run that may be published has exactly one record for every namespace, in order, and the file
  // of every namespace is an exact copy of it.
  lemma PublishableIsComplete(store: Store, files: map<Uuid, seq<Write>>, summary: Summary,
                              exportedAt: seq<nat>, failedAt: seq<nat>)
    requires Accounts(store.ids, |store.ids|, exportedAt, failedAt, summary)
    requires AllFaithful(store, files, summary.exported) && EnsurePublishable(summary).Ok?
    ensures store.ids != [] && |summary.exported| == |store.ids|
    ensures forall k :: 0 <= k < |store.ids| ==> summary.exported[k].namespaceId == store.ids[k]
    ensures forall id :: id in store.ids ==> id in store.sources && id in files && ExactCopy(store.sources[id], files[id])
  {
    hide ExactCopy, CountsMatch, Ordered;
    EveryNamespaceRecorded(store, summary, exportedAt, failedAt);
    forall id | id in store.ids ensures id in store.sources && id in files && ExactCopy(store.sources[id], files[id]) {
      var k :| 0 <= k < |store.ids| && store.ids[k] == id;
      assert Faithful(store, files, summary.exported[k]);
    }
  }

  lemma EveryNamespaceRecorded(store: Store, summary: Summary, exportedAt: seq<nat>, failedAt: seq<nat>)
    requires Accounts(store.ids, |store.ids|, exportedAt, failedAt, summary)
    requires EnsurePublishable(summary).Ok?
    ensures store.ids != [] && |summary.exported| == |store.ids|
    ensures forall k :: 0 <= k < |store.ids| ==> summary.exported[k].namespaceId == store.ids[k]
    ensures forall i :: 0 <= i < |store.ids| ==> i in exportedAt
  {
    assert failedAt == [];
    Covers(exportedAt, |store.ids|);
  }

  // The gate refuses exactly the runs that lost a namespace or found none.
  lemma GateIsExact(store: Store, summary: Summary, exportedAt: seq<nat>, failedAt: seq<nat>)
    requires Accounts(store.ids, |store.ids|, exportedAt, failedAt, summary)
    ensures EnsurePublishable(summary).Ok? <==> store.ids != [] && forall i :: 0 <= i < |store.ids| ==> i in exportedAt
  {
    if EnsurePublishable(summary).Ok? {
      EveryNamespaceRecorded(store, summary, exportedAt, failedAt);
    } else if store.ids != [] && forall i :: 0 <= i < |store.ids| ==> i in exportedAt {
      assert 0 in exportedAt;
      if failedAt != [] {
        assert failedAt[0] in failedAt;
      }
    }
  }
}
