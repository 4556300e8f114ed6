/** Copying one namespace into a fresh store: what an exact copy is, the order its writes must
    respect, and the export loops. Reads and writes may fail at any call. */
module NamespaceExport {
  import opened Common
  import opened Paging

  const MEMORY_PAGE_SIZE: nat := 256
  const MAX_FUSED_HITS: nat := 200

  datatype Kind = Episodic | Semantic | Procedural | Observation

  datatype Namespace = Namespace(id: Uuid, name: string)
  datatype Entity = Entity(id: Uuid, name: string)
  datatype Episode = Episode(id: Uuid, startedAt: int)
  datatype MemoryRef = MemoryRef(kind: Kind, id: Uuid)
  datatype Memory = Memory(ref: MemoryRef, content: string, supersededBy: Option<Uuid>)
  datatype Record = Record(ref: MemoryRef, space: int, vector: seq<real>)
  datatype RelEdge = RelEdge(id: Uuid, source: Uuid, target: Uuid)
  datatype Captured = Captured(memory: Memory, embeddings: seq<Record>)

  datatype Phase = LexicalOnly | Backfilling | Ready | Active
  datatype Lifecycle = Lifecycle(phase: Phase, activeSpace: Option<int>)

  // Everything the source holds about one namespace; it is idle while it is copied.
  datatype Source = Source(
    namespace: Option<Namespace>, lifecycle: Option<Lifecycle>, entities: seq<Entity>, episodes: seq<Episode>,
    memories: seq<Memory>, records: seq<Record>, edges: seq<RelEdge>)

  datatype StorageError = NotFound | Context | BudgetExceeded | Io

  function KindOrder(k: Kind): int {
    match k case Episodic => 0 case Semantic => 1 case Procedural => 2 case Observation => 3
  }

  function RefLt(a: MemoryRef, b: MemoryRef): bool {
    KindOrder(a.kind) < KindOrder(b.kind) || (a.kind == b.kind && a.id < b.id)
  }

  function IdLt(a: Uuid, b: Uuid): bool {
    a < b
  }

  function EpisodeKey(e: Episode): Uuid {
    e.id
  }

  function MemoryKey(m: Memory): MemoryRef {
    m.ref
  }

  // Primary keys are unique and rows come in key order.
  ghost predicate WellKeyed(src: Source) {
    && StrictlySorted(src.episodes, EpisodeKey, IdLt)
    && StrictlySorted(src.memories, MemoryKey, RefLt)
    && (forall i, j :: 0 <= i < j < |src.edges| ==> src.edges[i].id != src.edges[j].id)
  }

  // ---- The copy ----------------------------------------------------------------------------

  datatype Write =
    | WriteNamespace(namespace: Namespace)
    | WriteSpace(space: int)
    | WriteEntity(entity: Entity)
    | WriteEpisode(episode: Episode)
    | WritePage(page: seq<Captured>)
    | WriteEdge(edge: RelEdge)

  function RecordsOf(records: seq<Record>, space: int, ref: MemoryRef): seq<Record> {
    if records == [] then []
    else
      var n := |records| - 1;
      RecordsOf(records[..n], space, ref) + if records[n].ref == ref && records[n].space == space then [records[n]] else []
  }

  // A memory with its vectors in the settled space, if there is one.
  function Capture(src: Source, space: Option<int>, m: Memory): Captured {
    Captured(m, match space case None => [] case Some(id) => RecordsOf(src.records, id, m.ref))
  }

  function CaptureAll(src: Source, space: Option<int>, ms: seq<Memory>): (r: seq<Captured>)
    ensures |r| == |ms| && forall i :: 0 <= i < |ms| ==> r[i] == Capture(src, space, ms[i])
  {
    if ms == [] then []
    else
      var n := |ms| - 1;
      CaptureAll(src, space, ms[..n]) + [Capture(src, space, ms[n])]
  }

  // The generation an export carries, or `None` when the namespace is mid-migration or corrupt.
  function SettledSpace(src: Source): Option<Option<int>> {
    match src.lifecycle
    case None => Some(None)
    case Some(state) =>
      match state.phase
      case LexicalOnly => Some(None)
      case Active => if state.activeSpace.Some? then Some(Some(state.activeSpace.value)) else None
      case _ => None
  }

  predicate Touches(e: RelEdge, entities: seq<Entity>) {
    exists i :: 0 <= i < |entities| && (e.source == entities[i].id || e.target == entities[i].id)
  }

  // ---- Reading the written log back ----------------------------------------------------------

  // Row classes in the order they were written; `headers` are the namespace and space rows.
  datatype Contents = Contents(headers: seq<Write>, entities: seq<Entity>, episodes: seq<Episode>,
                               memories: seq<Captured>, edges: seq<RelEdge>)

  function Put(v: Contents, w: Write): Contents {
    match w
    case WriteNamespace(_) => v.(headers := v.headers + [w])
    case WriteSpace(_) => v.(headers := v.headers + [w])
    case WriteEntity(e) => v.(entities := v.entities + [e])
    case WriteEpisode(e) => v.(episodes := v.episodes + [e])
    case WritePage(page) => v.(memories := v.memories + page)
    case WriteEdge(e) => v.(edges := v.edges + [e])
  }

  function View(log: seq<Write>): Contents {
    if log == [] then Contents([], [], [], [], []) else Put(View(log[..|log| - 1]), log[|log| - 1])
  }

  function HeaderOf(namespace: Namespace, space: Option<int>): seq<Write> {
    [WriteNamespace(namespace)] + match space case None => [] case Some(id) => [WriteSpace(id)]
  }

  ghost predicate SameEdges(written: seq<RelEdge>, src: Source) {
    && (forall e :: e in written <==> e in src.edges && Touches(e, src.entities))
    && (forall i, j :: 0 <= i < j < |written| ==> written[i].id != written[j].id)
  }

  ghost predicate ExactCopy(src: Source, log: seq<Write>) {
    && src.namespace.Some? && SettledSpace(src).Some?
    && View(log).headers == HeaderOf(src.namespace.value, SettledSpace(src).value)
    && View(log).entities == src.entities
    && View(log).episodes == src.episodes
    && View(log).memories == CaptureAll(src, SettledSpace(src).value, src.memories)
    && SameEdges(View(log).edges, src)
  }

  // ---- The order of writes -------------------------------------------------------------------

  // Vectors of the captured page belong to `space`.
  ghost predicate VectorsIn(page: seq<Captured>, space: int) {
    forall i, k :: 0 <= i < |page| && 0 <= k < |page[i].embeddings| ==> page[i].embeddings[k].space == space
  }

  ghost predicate CarriesVectors(w: Write) {
    w.WritePage? && exists i :: 0 <= i < |w.page| && w.page[i].embeddings != []
  }

  ghost predicate SpaceWritten(log: seq<Write>, i: nat, space: int) {
    exists j :: 0 <= j < i && j < |log| && log[j] == WriteSpace(space)
  }

  // The namespace comes first of all, and a space comes before any vector that belongs to it.
  ghost predicate Ordered(log: seq<Write>) {
    && (log != [] ==> log[0].WriteNamespace?)
    && (forall i :: 0 < i < |log| ==> !log[i].WriteNamespace?)
    && (forall i :: 0 <= i < |log| && CarriesVectors(log[i]) ==>
          exists space :: SpaceWritten(log, i, space) && VectorsIn(log[i].page, space))
  }

  // Whatever has been written when a run stops, the order holds of it.
  lemma PrefixOrdered(log: seq<Write>, n: nat)
    requires Ordered(log) && n <= |log|
    ensures Ordered(log[..n])
  {
    var p := log[..n];
    forall i | 0 <= i < |p| && CarriesVectors(p[i]) ensures exists space :: SpaceWritten(p, i, space) && VectorsIn(p[i].page, space) {
      assert CarriesVectors(log[i]);
      var space :| SpaceWritten(log, i, space) && VectorsIn(log[i].page, space);
      var j :| 0 <= j < i && j < |log| && log[j] == WriteSpace(space);
      assert p[j] == WriteSpace(space);
      assert SpaceWritten(p, i, space);
    }
  }

  lemma {:induction false} RecordsInSpace(records: seq<Record>, space: int, ref: MemoryRef)
    ensures forall k :: 0 <= k < |RecordsOf(records, space, ref)| ==> RecordsOf(records, space, ref)[k].space == space
  {
    if records != [] {
      RecordsInSpace(records[..|records| - 1], space, ref);
    }
  }

  lemma ViewAppend(log: seq<Write>, w: Write)
    ensures View(log + [w]) == Put(View(log), w)
  {
    assert (log + [w])[..|log|] == log;
  }

  // A vector page is in place once its space is.
  ghost predicate InPlace(log: seq<Write>, w: Write) {
    CarriesVectors(w) ==> exists space :: SpaceWritten(log, |log|, space) && VectorsIn(w.page, space)
  }

  lemma OrderedAppend(log: seq<Write>, w: Write)
    requires Ordered(log) && (w.WriteNamespace? <==> log == []) && InPlace(log, w)
    ensures Ordered(log + [w])
  {
    var l := log + [w];
    forall i | 0 <= i < |l| && CarriesVectors(l[i]) ensures exists space :: SpaceWritten(l, i, space) && VectorsIn(l[i].page, space) {
      var space :| SpaceWritten(log, i, space) && VectorsIn(l[i].page, space);
      var j :| 0 <= j < i && j < |log| && log[j] == WriteSpace(space);
      assert l[j] == WriteSpace(space);
      assert SpaceWritten(l, i, space);
    }
  }

  lemma SpaceStaysWritten(log: seq<Write>, w: Write, space: int)
    requires SpaceWritten(log, |log|, space)
    ensures SpaceWritten(log + [w], |log + [w]|, space)
  {
    var j :| 0 <= j < |log| && log[j] == WriteSpace(space);
    assert (log + [w])[j] == WriteSpace(space);
  }

  // ---- The destination -----------------------------------------------------------------------

  // How many of the first `n` calls were not answered.
  function Missed(up: nat -> bool, n: nat): nat {
    if n == 0 then 0 else Missed(up, n - 1) + if up(n - 1) then 0 else 1
  }

  // Storage and disk as a run meets them: `up` says which of its calls get through.
  class Storage {
    const up: nat -> bool
    var calls: nat
    var failures: nat

    ghost predicate Valid()
      reads this
    {
      failures == Missed(up, calls)
    }

    constructor (up: nat -> bool)
      ensures Valid() && this.up == up && calls == failures == 0
    {
      this.up, calls, failures := up, 0, 0;
    }

    method Call() returns (ok: bool)
      requires Valid()
      modifies this
      ensures Valid() && calls == old(calls) + 1 && ok == up(old(calls))
      ensures failures == old(failures) + if ok then 0 else 1
    {
      ok := up(calls);
      calls := calls + 1;
      if !ok {
        failures := failures + 1;
      }
    }
  }

  class Destination {
    var log: seq<Write>

    constructor ()
      ensures log == []
    {
      log := [];
    }

    // One save call: atomic. An oversized page is refused outright.
    method Save(io: Storage, w: Write) returns (r: Result<(), StorageError>)
      requires io.Valid()
      modifies this, io
      ensures r.Ok? ==> log == old(log) + [w]
      ensures r.Err? ==> log == old(log)
      ensures r.Err? ==> r.error == if w.WritePage? && |w.page| > MEMORY_PAGE_SIZE then BudgetExceeded else Io
      ensures io.Valid() && io.failures == old(io.failures) + if r == Err(Io) then 1 else 0
    {
      if w.WritePage? && |w.page| > MEMORY_PAGE_SIZE {
        return Err(BudgetExceeded);
      }
      var ok := io.Call();
      if !ok {
        return Err(Io);
      }
      log := log + [w];
      return Ok(());
    }
  }

  // Appending one row that carries no vectors.
  method SaveRow(dest: Destination, io: Storage, w: Write) returns (r: Result<(), StorageError>)
    requires Ordered(dest.log) && (w.WriteNamespace? <==> dest.log == []) && !w.WritePage?
    requires io.Valid()
    modifies dest, io
    ensures Ordered(dest.log) && old(dest.log) <= dest.log
    ensures r.Ok? ==> View(dest.log) == Put(View(old(dest.log)), w) && dest.log == old(dest.log) + [w]
    ensures r.Err? ==> dest.log == old(dest.log)
    ensures io.Valid() && io.failures == old(io.failures) + if r.Ok? then 0 else 1
    ensures r.Err? ==> r.error == Io
  {
    hide Ordered, View;
    OrderedAppend(dest.log, w);
    ViewAppend(dest.log, w);
    r := dest.Save(io, w);
  }

  // ---- Entities and episodes -------------------------------------------------------------------

  method ExportEntities(src: Source, dest: Destination, io: Storage) returns (r: Result<nat, StorageError>)
    requires Ordered(dest.log) && dest.log != []
    requires io.Valid()
    modifies dest, io
    ensures Ordered(dest.log) && old(dest.log) <= dest.log
    ensures r.Ok? ==> r.value == |src.entities|
    ensures r.Ok? ==> View(dest.log) == View(old(dest.log)).(entities := View(old(dest.log)).entities + src.entities)
    ensures io.Valid() && io.failures == old(io.failures) + if r.Ok? then 0 else 1
    ensures r.Err? ==> r.error == Io
  {
    hide Ordered, View;
    ghost var v := View(dest.log);
    var count: nat := 0;
    var ok := io.Call();
    if !ok {
      return Err(Io);
    }
    for i := 0 to |src.entities|
      invariant io.Valid() && io.failures == old(io.failures)
      invariant Ordered(dest.log) && old(dest.log) <= dest.log && count == i
      invariant View(dest.log) == v.(entities := v.entities + src.entities[..i])
    {
      var saved := SaveRow(dest, io, WriteEntity(src.entities[i]));
      if saved.Err? {
        return Err(saved.error);
      }
      assert src.entities[..i + 1] == src.entities[..i] + [src.entities[i]];
      count := count + 1;
    }
    assert src.entities[..|src.entities|] == src.entities;
    return Ok(count);
  }

  // Episode pages come with a cursor whenever they are full.
  method ReadEpisodes(src: Source, io: Storage, after: Option<Uuid>, limit: nat) returns (r: Result<Page<Episode, Uuid>, StorageError>)
    requires limit > 0
    requires io.Valid()
    modifies io
    ensures r.Ok? ==> IsPage(src.episodes, EpisodeKey, IdLt, after, limit, r.value)
    ensures io.Valid() && io.failures == old(io.failures) + if r.Ok? then 0 else 1
    ensures r.Err? ==> r.error == Io
  {
    var ok := io.Call();
    if !ok {
      return Err(Io);
    }
    return Ok(PageAfter(src.episodes, EpisodeKey, IdLt, after, limit));
  }

  method SaveEpisodes(dest: Destination, io: Storage, rows: seq<Episode>) returns (r: Result<nat, StorageError>)
    requires Ordered(dest.log) && dest.log != []
    requires io.Valid()
    modifies dest, io
    ensures Ordered(dest.log) && old(dest.log) <= dest.log
    ensures r.Ok? ==> r.value == |rows|
    ensures r.Ok? ==> View(dest.log) == View(old(dest.log)).(episodes := View(old(dest.log)).episodes + rows)
    ensures io.Valid() && io.failures == old(io.failures) + if r.Ok? then 0 else 1
    ensures r.Err? ==> r.error == Io
  {
    hide Ordered, View;
    ghost var v := View(dest.log);
    for i := 0 to |rows|
      invariant io.Valid() && io.failures == old(io.failures)
      invariant Ordered(dest.log) && old(dest.log) <= dest.log
      invariant View(dest.log) == v.(episodes := v.episodes + rows[..i])
    {
      var saved := SaveRow(dest, io, WriteEpisode(rows[i]));
      if saved.Err? {
        return Err(saved.error);
      }
      assert rows[..i + 1] == rows[..i] + [rows[i]];
    }
    assert rows[..|rows|] == rows;
    return Ok(|rows|);
  }

  // One page: read, and write every episode of it.
  method CopyEpisodePage(src: Source, dest: Destination, io: Storage, after: Option<Uuid>, ghost k: nat)
    returns (r: Result<Page<Episode, Uuid>, StorageError>)
    requires WellKeyed(src) && Ordered(dest.log) && dest.log != []
    requires k <= |src.episodes| && after == CursorAt(src.episodes, EpisodeKey, k)
    requires io.Valid()
    modifies dest, io
    ensures Ordered(dest.log) && old(dest.log) <= dest.log
    ensures r.Ok? ==> EpisodePage(src, k, r.value)
    ensures r.Ok? ==> View(dest.log) == View(old(dest.log)).(episodes := View(old(dest.log)).episodes + r.value.rows)
    ensures io.Valid() && io.failures == old(io.failures) + if r.Ok? then 0 else 1
    ensures r.Err? ==> r.error == Io
  {
    hide Ordered, View, IsPage, StrictlySorted;
    var read := ReadEpisodes(src, io, after, MEMORY_PAGE_SIZE);
    if read.Err? {
      return Err(read.error);
    }
    PageContinues(src.episodes, EpisodeKey, IdLt, k, MEMORY_PAGE_SIZE, read.value);
    var saved := SaveEpisodes(dest, io, read.value.rows);
    if saved.Err? {
      return Err(saved.error);
    }
    return read;
  }

  // The rows from the `k`-th on, and a cursor behind them exactly as long as more are to come.
  ghost predicate EpisodePage(src: Source, k: nat, page: Page<Episode, Uuid>) {
    var m := k + |page.rows|;
    && m <= |src.episodes| && page.rows == src.episodes[k..m]
    && (page.next.None? ==> m == |src.episodes|)
    && (page.next.Some? ==> k < m && page.next == CursorAt(src.episodes, EpisodeKey, m))
  }

  method ExportEpisodes(src: Source, dest: Destination, io: Storage) returns (r: Result<nat, StorageError>)
    requires WellKeyed(src) && Ordered(dest.log) && dest.log != []
    requires io.Valid()
    modifies dest, io
    ensures Ordered(dest.log) && old(dest.log) <= dest.log
    ensures r.Ok? ==> r.value == |src.episodes|
    ensures r.Ok? ==> View(dest.log) == View(old(dest.log)).(episodes := View(old(dest.log)).episodes + src.episodes)
    ensures io.Valid() && io.failures == old(io.failures) + if r.Ok? then 0 else 1
    ensures r.Err? ==> r.error == Io
  {
    hide Ordered, View, WellKeyed;
    ghost var before := View(dest.log).episodes;
    var after: Option<Uuid> := None;
    var count: nat := 0;
    assert before + src.episodes[..0] == before;
    while true
      invariant io.Valid() && io.failures == old(io.failures)
      invariant Ordered(dest.log) && dest.log != [] && old(dest.log) <= dest.log
      invariant count <= |src.episodes| && after == CursorAt(src.episodes, EpisodeKey, count)
      invariant View(dest.log) == View(old(dest.log)).(episodes := before + src.episodes[..count])
      decreases |src.episodes| - count
    {
      var page := CopyEpisodePage(src, dest, io, after, count);
      if page.Err? {
        return Err(page.error);
      }
      DoneExtends(before, src.episodes, count, page.value.rows);
      count := count + |page.value.rows|;
      after := page.value.next;
      if after.None? {
        break;
      }
    }
    assert src.episodes[..count] == src.episodes;
    return Ok(count);
  }

  lemma DoneExtends<T>(before: seq<T>, all: seq<T>, k: nat, rows: seq<T>)
    requires k + |rows| <= |all| && rows == all[k..k + |rows|]
    ensures all[..k + |rows|] == all[..k] + rows
    ensures before + (all[..k] + rows) == (before + all[..k]) + rows
  {
  }

  // ---- Capturing a page of memories ------------------------------------------------------------

  function OfRef(records: seq<Record>, ref: MemoryRef): seq<Record> {
    if records == [] then []
    else
      var n := |records| - 1;
      OfRef(records[..n], ref) + if records[n].ref == ref then [records[n]] else []
  }

  // The records of one batch of references in one space.
  function Matching(records: seq<Record>, space: int, refs: seq<MemoryRef>): seq<Record> {
    if records == [] then []
    else
      var n := |records| - 1;
      Matching(records[..n], space, refs) + if records[n].ref in refs && records[n].space == space then [records[n]] else []
  }

  lemma {:induction false} OfRefConcat(a: seq<Record>, b: seq<Record>, ref: MemoryRef)
    ensures OfRef(a + b, ref) == OfRef(a, ref) + OfRef(b, ref)
  {
    if b == [] {
      assert a + b == a;
    } else {
      var n := |b| - 1;
      assert (a + b)[..|a| + n] == a + b[..n];
      OfRefConcat(a, b[..n], ref);
    }
  }

  lemma {:induction false} OfRefMatching(records: seq<Record>, space: int, refs: seq<MemoryRef>, ref: MemoryRef)
    ensures OfRef(Matching(records, space, refs), ref) == if ref in refs then RecordsOf(records, space, ref) else []
  {
    if records != [] {
      var n := |records| - 1;
      var last := records[n];
      var matched: seq<Record> := if last.ref in refs && last.space == space then [last] else [];
      OfRefMatching(records[..n], space, refs, ref);
      assert Matching(records, space, refs) == Matching(records[..n], space, refs) + matched;
      OfRefConcat(Matching(records[..n], space, refs), matched, ref);
      OfRefOne(last, ref);
    }
  }

  lemma OfRefOne(record: Record, ref: MemoryRef)
    ensures OfRef([record], ref) == if record.ref == ref then [record] else []
    ensures OfRef([], ref) == []
  {
  }

  // Loads are capped by the fused-hit budget, not by the page size.
  method LoadRecords(src: Source, io: Storage, space: int, refs: seq<MemoryRef>) returns (r: Result<seq<Record>, StorageError>)
    requires io.Valid()
    modifies io
    ensures r.Ok? ==> r.value == Matching(src.records, space, refs)
    ensures r.Err? ==> r.error == if |refs| > MAX_FUSED_HITS then BudgetExceeded else Io
    ensures io.Valid() && io.failures == old(io.failures) + if r == Err(Io) then 1 else 0
  {
    if |refs| > MAX_FUSED_HITS {
      return Err(BudgetExceeded);
    }
    var ok := io.Call();
    if !ok {
      return Err(Io);
    }
    return Ok(Matching(src.records, space, refs));
  }

  function Refs(ms: seq<Memory>): (r: seq<MemoryRef>)
    ensures |r| == |ms| && forall i :: 0 <= i < |ms| ==> r[i] == ms[i].ref
  {
    if ms == [] then [] else Refs(ms[..|ms| - 1]) + [ms[|ms| - 1].ref]
  }

  ghost predicate DistinctRefs(refs: seq<MemoryRef>) {
    forall i, j :: 0 <= i < j < |refs| ==> refs[i] != refs[j]
  }

  // After `n` references each of them has its records, and the others none.
  ghost predicate Loaded(src: Source, space: int, refs: seq<MemoryRef>, n: nat, records: seq<Record>)
    requires n <= |refs|
  {
    forall ref :: OfRef(records, ref) == if ref in refs[..n] then RecordsOf(src.records, space, ref) else []
  }

  lemma LoadedNext(src: Source, space: int, refs: seq<MemoryRef>, n: nat, m: nat, records: seq<Record>)
    requires n <= m <= |refs| && DistinctRefs(refs) && Loaded(src, space, refs, n, records)
    ensures Loaded(src, space, refs, m, records + Matching(src.records, space, refs[n..m]))
  {
    hide OfRef, Matching, RecordsOf;
    var batch := refs[n..m];
    forall ref ensures OfRef(records + Matching(src.records, space, batch), ref) ==
                       if ref in refs[..m] then RecordsOf(src.records, space, ref) else [] {
      OfRefConcat(records, Matching(src.records, space, batch), ref);
      OfRefMatching(src.records, space, batch, ref);
      InEither(refs, n, m, ref);
    }
  }

  lemma InEither(refs: seq<MemoryRef>, n: nat, m: nat, ref: MemoryRef)
    requires n <= m <= |refs| && DistinctRefs(refs)
    ensures ref in refs[..m] <==> ref in refs[..n] || ref in refs[n..m]
    ensures !(ref in refs[..n] && ref in refs[n..m])
  {
    assert refs[..m] == refs[..n] + refs[n..m];
    assert forall i, j :: 0 <= i < n <= j < m ==> refs[i] != refs[j];
  }

  method CapturePage(src: Source, io: Storage, space: Option<int>, memories: seq<Memory>) returns (r: Result<seq<Captured>, StorageError>)
    requires DistinctRefs(Refs(memories))
    requires io.Valid()
    modifies io
    ensures r.Ok? ==> r.value == CaptureAll(src, space, memories)
    ensures io.Valid() && io.failures == old(io.failures) + if r.Ok? then 0 else 1
    ensures r.Err? ==> r.error == Io
  {
    hide Matching, RecordsOf, OfRef, Loaded, CaptureAll, DistinctRefs;
    if space.None? {
      var bare := CaptureBare(src, memories);
      return Ok(bare);
    }
    var refs := Refs(memories);
    var records: seq<Record> := [];
    var n := 0;
    NothingLoaded(src, space.value, refs);
    while n < |refs|
      invariant io.Valid() && io.failures == old(io.failures)
      invariant n <= |refs| && Loaded(src, space.value, refs, n, records)
    {
      var m := n + Min(MAX_FUSED_HITS, |refs| - n);
      var batch := LoadRecords(src, io, space.value, refs[n..m]);
      if batch.Err? {
        return Err(batch.error);
      }
      LoadedNext(src, space.value, refs, n, m, records);
      records := records + batch.value;
      n := m;
    }
    var paired := PairRecords(src, space.value, memories, records);
    return Ok(paired);
  }

  method CaptureBare(src: Source, memories: seq<Memory>) returns (captured: seq<Captured>)
    ensures captured == CaptureAll(src, None, memories)
  {
    captured := [];
    for i := 0 to |memories|
      invariant captured == CaptureAll(src, None, memories[..i])
    {
      assert memories[..i + 1][..i] == memories[..i];
      captured := captured + [Captured(memories[i], [])];
    }
    assert memories[..|memories|] == memories;
  }

  method PairRecords(src: Source, space: int, memories: seq<Memory>, records: seq<Record>) returns (captured: seq<Captured>)
    requires Loaded(src, space, Refs(memories), |memories|, records)
    ensures captured == CaptureAll(src, Some(space), memories)
  {
    hide Loaded;
    captured := [];
    for i := 0 to |memories|
      invariant captured == CaptureAll(src, Some(space), memories[..i])
    {
      assert memories[..i + 1][..i] == memories[..i];
      LoadedOne(src, space, memories, records, i);
      captured := captured + [Captured(memories[i], OfRef(records, memories[i].ref))];
    }
    assert memories[..|memories|] == memories;
  }

  lemma LoadedOne(src: Source, space: int, memories: seq<Memory>, records: seq<Record>, i: nat)
    requires Loaded(src, space, Refs(memories), |memories|, records) && i < |memories|
    ensures Captured(memories[i], OfRef(records, memories[i].ref)) == Capture(src, Some(space), memories[i])
  {
    assert Refs(memories)[..|memories|] == Refs(memories);
    assert Refs(memories)[i] == memories[i].ref;
  }

  lemma NothingLoaded(src: Source, space: int, refs: seq<MemoryRef>)
    ensures Loaded(src, space, refs, 0, [])
  {
  }

  // ---- Memories ------------------------------------------------------------------------------

  datatype Tally = Tally(episodic: nat, semantic: nat, procedural: nat, observations: nat, embeddings: nat)

  function Counted(c: Tally, entry: Captured): Tally {
    var d := c.(embeddings := c.embeddings + |entry.embeddings|);
    match entry.memory.ref.kind
    case Episodic => d.(episodic := d.episodic + 1)
    case Semantic => d.(semantic := d.semantic + 1)
    case Procedural => d.(procedural := d.procedural + 1)
    case Observation => d.(observations := d.observations + 1)
  }

  function TallyOf(page: seq<Captured>): Tally {
    if page == [] then Tally(0, 0, 0, 0, 0) else Counted(TallyOf(page[..|page| - 1]), page[|page| - 1])
  }

  // Each memory is counted once, under its kind, and so is each of its vectors.
  lemma {:induction false} TallyCountsEverything(page: seq<Captured>)
    ensures var c := TallyOf(page); c.episodic + c.semantic + c.procedural + c.observations == |page|
    ensures TallyOf(page).embeddings == TotalVectors(page)
    ensures TallyOf(page).episodic == |KindOnly(page, Episodic)| && TallyOf(page).semantic == |KindOnly(page, Semantic)|
    ensures TallyOf(page).procedural == |KindOnly(page, Procedural)| && TallyOf(page).observations == |KindOnly(page, Observation)|
  {
    if page != [] {
      TallyCountsEverything(page[..|page| - 1]);
    }
  }

  function TotalVectors(page: seq<Captured>): nat {
    if page == [] then 0 else TotalVectors(page[..|page| - 1]) + |page[|page| - 1].embeddings|
  }

  function KindOnly(page: seq<Captured>, kind: Kind): seq<Captured> {
    if page == [] then []
    else
      var n := |page| - 1;
      KindOnly(page[..n], kind) + if page[n].memory.ref.kind == kind then [page[n]] else []
  }

  // Backends differ: memory pages may be probed for a further row before a cursor is handed out.
  method ReadMemories(src: Source, io: Storage, after: Option<MemoryRef>, limit: nat) returns (r: Result<Page<Memory, MemoryRef>, StorageError>)
    requires limit > 0
    requires io.Valid()
    modifies io
    ensures r.Ok? ==> IsPage(src.memories, MemoryKey, RefLt, after, limit, r.value)
    ensures io.Valid() && io.failures == old(io.failures) + if r.Ok? then 0 else 1
    ensures r.Err? ==> r.error == Io
  {
    var ok := io.Call();
    if !ok {
      return Err(Io);
    }
    var probes: bool := *;
    if probes {
      return Ok(PageProbed(src.memories, MemoryKey, RefLt, after, limit));
    }
    return Ok(PageAfter(src.memories, MemoryKey, RefLt, after, limit));
  }

  method CountPage(c: Tally, ghost done: seq<Captured>, page: seq<Captured>) returns (d: Tally)
    requires c == TallyOf(done)
    ensures d == TallyOf(done + page)
  {
    hide TallyOf, Counted;
    d := c;
    assert done + page[..0] == done;
    for i := 0 to |page|
      invariant d == TallyOf(done + page[..i])
    {
      TallyNext(done, page, i);
      d := Counted(d, page[i]);
    }
    assert page[..|page|] == page;
  }

  lemma TallyNext(done: seq<Captured>, page: seq<Captured>, i: nat)
    requires i < |page|
    ensures TallyOf(done + page[..i + 1]) == Counted(TallyOf(done + page[..i]), page[i])
  {
    hide Counted;
    assert (done + page[..i + 1])[..|done| + i] == done + page[..i];
  }

  lemma CaptureConcat(src: Source, space: Option<int>, a: seq<Memory>, b: seq<Memory>)
    ensures CaptureAll(src, space, a) + CaptureAll(src, space, b) == CaptureAll(src, space, a + b)
  {
    hide CaptureAll, Capture;
    var l, r := CaptureAll(src, space, a) + CaptureAll(src, space, b), CaptureAll(src, space, a + b);
    forall i | 0 <= i < |l| ensures l[i] == r[i] {
      if i < |a| {
        assert (a + b)[i] == a[i];
      } else {
        assert (a + b)[i] == b[i - |a|];
      }
    }
  }

  lemma PageDistinct(src: Source, k: nat, m: nat)
    requires WellKeyed(src) && k <= m <= |src.memories|
    ensures DistinctRefs(Refs(src.memories[k..m]))
  {
    var page := src.memories[k..m];
    forall i, j | 0 <= i < j < |page| ensures Refs(page)[i] != Refs(page)[j] {
      assert RefLt(MemoryKey(src.memories[k + i]), MemoryKey(src.memories[k + j]));
    }
  }

  // The space of the settled generation is registered before its vectors arrive.
  ghost predicate SpaceReady(log: seq<Write>, space: Option<int>) {
    space.Some? ==> SpaceWritten(log, |log|, space.value)
  }

  lemma CapturedInPlace(src: Source, log: seq<Write>, space: Option<int>, ms: seq<Memory>)
    requires SpaceReady(log, space)
    ensures InPlace(log, WritePage(CaptureAll(src, space, ms)))
  {
    var page := CaptureAll(src, space, ms);
    if space.Some? {
      forall i | 0 <= i < |page| ensures forall k :: 0 <= k < |page[i].embeddings| ==> page[i].embeddings[k].space == space.value {
        RecordsInSpace(src.records, space.value, ms[i].ref);
      }
      assert VectorsIn(page, space.value);
    }
  }

  // One captured page, restored as a whole.
  method RestorePage(src: Source, dest: Destination, io: Storage, space: Option<int>, ms: seq<Memory>, page: seq<Captured>)
    returns (r: Result<(), StorageError>)
    requires Ordered(dest.log) && dest.log != [] && SpaceReady(dest.log, space)
    requires page == CaptureAll(src, space, ms) && |ms| <= MEMORY_PAGE_SIZE
    requires io.Valid()
    modifies dest, io
    ensures Ordered(dest.log) && SpaceReady(dest.log, space) && old(dest.log) <= dest.log
    ensures r.Ok? ==> View(dest.log) == View(old(dest.log)).(memories := View(old(dest.log)).memories + page)
    ensures r.Err? ==> dest.log == old(dest.log)
    ensures io.Valid() && io.failures == old(io.failures) + if r.Ok? then 0 else 1
    ensures r.Err? ==> r.error == Io
  {
    hide Ordered, View, InPlace, SpaceWritten;
    var w := WritePage(page);
    CapturedInPlace(src, dest.log, space, ms);
    OrderedAppend(dest.log, w);
    ViewAppend(dest.log, w);
    if space.Some? {
      SpaceStaysWritten(dest.log, w, space.value);
    }
    r := dest.Save(io, w);
  }

  // One page: capture, count, restore.
  method CopyPage(src: Source, dest: Destination, io: Storage, space: Option<int>, rows: seq<Memory>, counts: Tally, ghost done: seq<Captured>)
    returns (r: Result<Tally, StorageError>)
    requires Ordered(dest.log) && dest.log != [] && SpaceReady(dest.log, space)
    requires DistinctRefs(Refs(rows)) && |rows| <= MEMORY_PAGE_SIZE && counts == TallyOf(done)
    requires io.Valid()
    modifies dest, io
    ensures Ordered(dest.log) && old(dest.log) <= dest.log && SpaceReady(dest.log, space)
    ensures r.Ok? ==> r.value == TallyOf(done + CaptureAll(src, space, rows))
    ensures r.Ok? ==>
      View(dest.log) == View(old(dest.log)).(memories := View(old(dest.log)).memories + CaptureAll(src, space, rows))
    ensures io.Valid() && io.failures == old(io.failures) + if r.Ok? then 0 else 1
    ensures r.Err? ==> r.error == Io
  {
    hide Ordered, View, TallyOf, CaptureAll, SpaceReady;
    var captured := CapturePage(src, io, space, rows);
    if captured.Err? {
      return Err(captured.error);
    }
    var counts' := CountPage(counts, done, captured.value);
    var restored := RestorePage(src, dest, io, space, rows, captured.value);
    if restored.Err? {
      return Err(restored.error);
    }
    return Ok(counts');
  }

  method ExportMemories(src: Source, dest: Destination, io: Storage, space: Option<int>) returns (r: Result<Tally, StorageError>)
    requires WellKeyed(src) && Ordered(dest.log) && dest.log != [] && SpaceReady(dest.log, space)
    requires io.Valid()
    modifies dest, io
    ensures Ordered(dest.log) && old(dest.log) <= dest.log
    ensures r.Ok? ==> r.value == TallyOf(CaptureAll(src, space, src.memories))
    ensures r.Ok? ==>
      View(dest.log) == View(old(dest.log)).(memories := View(old(dest.log)).memories + CaptureAll(src, space, src.memories))
    ensures io.Valid() && io.failures == old(io.failures) + if r.Ok? then 0 else 1
    ensures r.Err? ==> r.error == Io
  {
    hide Ordered, View, IsPage, TallyOf, CaptureAll, SpaceReady, WellKeyed, StrictlySorted, DistinctRefs, Refs;
    ghost var v := View(dest.log);
    var cursor: Option<MemoryRef> := None;
    var counts := Tally(0, 0, 0, 0, 0);
    ghost var k: nat := 0;
    ghost var done: seq<Captured> := [];
    NothingCaptured(src, space);
    WellKeyedMemories(src);
    while true
      invariant io.Valid() && io.failures == old(io.failures)
      invariant Ordered(dest.log) && dest.log != [] && old(dest.log) <= dest.log && SpaceReady(dest.log, space)
      invariant k <= |src.memories| && cursor == CursorAt(src.memories, MemoryKey, k)
      invariant counts == TallyOf(done) && done == CaptureAll(src, space, src.memories[..k])
      invariant View(dest.log) == v.(memories := v.memories + done)
      decreases |src.memories| - k
    {
      var read := ReadMemories(src, io, cursor, MEMORY_PAGE_SIZE);
      if read.Err? {
        return Err(read.error);
      }
      var page := read.value;
      PageContinues(src.memories, MemoryKey, RefLt, k, MEMORY_PAGE_SIZE, page);
      if page.rows == [] && page.next.None? {
        break;
      }
      ghost var m := k + |page.rows|;
      PageDistinct(src, k, m);
      var copied := CopyPage(src, dest, io, space, page.rows, counts, done);
      if copied.Err? {
        return Err(copied.error);
      }
      CaptureExtends(src, space, k, m, page.rows, v, done);
      done := done + CaptureAll(src, space, page.rows);
      counts := copied.value;
      k := m;
      cursor := page.next;
      if cursor.None? {
        break;
      }
    }
    assert k == |src.memories|;
    AllCaptured(src, space, k);
    return Ok(counts);
  }

  lemma AllCaptured(src: Source, space: Option<int>, k: nat)
    requires k == |src.memories|
    ensures CaptureAll(src, space, src.memories[..k]) == CaptureAll(src, space, src.memories)
  {
    assert src.memories[..k] == src.memories;
  }

  lemma CaptureExtends(src: Source, space: Option<int>, k: nat, m: nat, rows: seq<Memory>, v: Contents, done: seq<Captured>)
    requires k <= m <= |src.memories| && rows == src.memories[k..m] && done == CaptureAll(src, space, src.memories[..k])
    ensures done + CaptureAll(src, space, rows) == CaptureAll(src, space, src.memories[..m])
    ensures v.memories + (done + CaptureAll(src, space, rows)) == (v.memories + done) + CaptureAll(src, space, rows)
  {
    hide CaptureAll;
    assert src.memories[..m] == src.memories[..k] + rows;
    CaptureConcat(src, space, src.memories[..k], rows);
  }

  lemma NothingCaptured(src: Source, space: Option<int>)
    ensures CaptureAll(src, space, src.memories[..0]) == [] && TallyOf([]) == Tally(0, 0, 0, 0, 0)
  {
  }

  lemma WellKeyedMemories(src: Source)
    requires WellKeyed(src)
    ensures StrictlySorted(src.memories, MemoryKey, RefLt)
  {
  }

  // ---- Edges ---------------------------------------------------------------------------------

  function Incident(edges: seq<RelEdge>, id: Uuid): (r: seq<RelEdge>)
    ensures forall e :: e in r <==> e in edges && (e.source == id || e.target == id)
  {
    if edges == [] then []
    else
      var n := |edges| - 1;
      assert edges == edges[..n] + [edges[n]];
      Incident(edges[..n], id) + if edges[n].source == id || edges[n].target == id then [edges[n]] else []
  }

  method ReadEdges(src: Source, io: Storage, id: Uuid) returns (r: Result<seq<RelEdge>, StorageError>)
    requires io.Valid()
    modifies io
    ensures r.Ok? ==> r.value == Incident(src.edges, id)
    ensures io.Valid() && io.failures == old(io.failures) + if r.Ok? then 0 else 1
    ensures r.Err? ==> r.error == Io
  {
    var ok := io.Call();
    if !ok {
      return Err(Io);
    }
    return Ok(Incident(src.edges, id));
  }

  // Written so far: the edges of the first `i` entities and the first `j` incident ones of the next.
  ghost predicate EdgesDone(src: Source, written: seq<RelEdge>, seen: set<Uuid>, i: nat, incident: seq<RelEdge>, j: nat)
    requires i <= |src.entities| && j <= |incident|
  {
    && (forall e :: e in written <==> e in src.edges && (Touches(e, src.entities[..i]) || e in incident[..j]))
    && (forall a, b :: 0 <= a < b < |written| ==> written[a].id != written[b].id)
    && (forall e :: e in written ==> e.id in seen)
    && (forall id :: id in seen ==> exists e :: e in written && e.id == id)
  }

  lemma SameEdge(src: Source, a: RelEdge, b: RelEdge)
    requires WellKeyed(src) && a in src.edges && b in src.edges && a.id == b.id
    ensures a == b
  {
    var i :| 0 <= i < |src.edges| && src.edges[i] == a;
    var j :| 0 <= j < |src.edges| && src.edges[j] == b;
    assert i == j;
  }

  lemma EdgeSkipped(src: Source, written: seq<RelEdge>, seen: set<Uuid>, i: nat, incident: seq<RelEdge>, j: nat)
    requires WellKeyed(src) && i <= |src.entities| && j < |incident|
    requires EdgesDone(src, written, seen, i, incident, j) && incident[j] in src.edges && incident[j].id in seen
    ensures EdgesDone(src, written, seen, i, incident, j + 1)
  {
    var e :| e in written && e.id == incident[j].id;
    SameEdge(src, e, incident[j]);
    assert incident[..j + 1] == incident[..j] + [incident[j]];
  }

  lemma EdgeAdded(src: Source, written: seq<RelEdge>, seen: set<Uuid>, i: nat, incident: seq<RelEdge>, j: nat)
    requires i <= |src.entities| && j < |incident|
    requires EdgesDone(src, written, seen, i, incident, j) && incident[j] in src.edges && incident[j].id !in seen
    ensures EdgesDone(src, written + [incident[j]], seen + {incident[j].id}, i, incident, j + 1)
  {
    assert incident[..j + 1] == incident[..j] + [incident[j]];
    var written' := written + [incident[j]];
    forall a, b | 0 <= a < b < |written'| ensures written'[a].id != written'[b].id {
      assert written'[a] in written;
    }
    forall id | id in seen ensures exists e :: e in written' && e.id == id {
      var e :| e in written && e.id == id;
      assert e in written';
    }
    assert incident[j] in written';
  }

  lemma TouchesNext(src: Source, e: RelEdge, i: nat)
    requires i < |src.entities|
    ensures Touches(e, src.entities[..i + 1]) <==>
            Touches(e, src.entities[..i]) || e.source == src.entities[i].id || e.target == src.entities[i].id
  {
    if Touches(e, src.entities[..i]) {
      var k :| 0 <= k < i && (e.source == src.entities[..i][k].id || e.target == src.entities[..i][k].id);
      assert src.entities[..i + 1][k] == src.entities[k];
    }
    assert src.entities[..i + 1][i] == src.entities[i];
    if Touches(e, src.entities[..i + 1]) {
      var k :| 0 <= k < i + 1 && (e.source == src.entities[..i + 1][k].id || e.target == src.entities[..i + 1][k].id);
      assert k < i ==> src.entities[..i][k] == src.entities[k];
    }
  }

  lemma EdgesNext(src: Source, written: seq<RelEdge>, seen: set<Uuid>, i: nat, incident: seq<RelEdge>)
    requires i < |src.entities| && EdgesDone(src, written, seen, i, incident, |incident|)
    requires incident == Incident(src.edges, src.entities[i].id)
    ensures EdgesDone(src, written, seen, i + 1, [], 0)
  {
    hide Touches;
    assert incident[..|incident|] == incident;
    forall e ensures Touches(e, src.entities[..i + 1]) <==>
                     Touches(e, src.entities[..i]) || e.source == src.entities[i].id || e.target == src.entities[i].id {
      TouchesNext(src, e, i);
    }
  }

  lemma EdgesStart(src: Source)
    ensures EdgesDone(src, [], {}, 0, [], 0)
  {
  }

  lemma EdgesOpen(src: Source, written: seq<RelEdge>, seen: set<Uuid>, i: nat, incident: seq<RelEdge>)
    requires i <= |src.entities| && EdgesDone(src, written, seen, i, [], 0)
    ensures EdgesDone(src, written, seen, i, incident, 0)
  {
  }

  lemma EdgesFinished(src: Source, written: seq<RelEdge>, seen: set<Uuid>)
    requires EdgesDone(src, written, seen, |src.entities|, [], 0)
    ensures SameEdges(written, src)
  {
    assert src.entities[..|src.entities|] == src.entities;
  }

  method ExportEdges(src: Source, dest: Destination, io: Storage) returns (r: Result<nat, StorageError>, ghost written: seq<RelEdge>)
    requires WellKeyed(src) && Ordered(dest.log) && dest.log != []
    requires io.Valid()
    modifies dest, io
    ensures Ordered(dest.log) && old(dest.log) <= dest.log
    ensures r.Ok? ==> SameEdges(written, src) && r.value == |written|
    ensures r.Ok? ==> View(dest.log) == View(old(dest.log)).(edges := View(old(dest.log)).edges + written)
    ensures io.Valid() && io.failures == old(io.failures) + if r.Ok? then 0 else 1
    ensures r.Err? ==> r.error == Io
  {
    hide Ordered, View, EdgesDone, Touches, SameEdges, WellKeyed;
    ghost var v := View(dest.log);
    var seen: set<Uuid> := {};
    var count: nat := 0;
    written := [];
    EdgesStart(src);
    for i := 0 to |src.entities|
      invariant io.Valid() && io.failures == old(io.failures)
      invariant Ordered(dest.log) && dest.log != [] && old(dest.log) <= dest.log && count == |written|
      invariant EdgesDone(src, written, seen, i, [], 0)
      invariant View(dest.log) == v.(edges := v.edges + written)
    {
      var read := ReadEdges(src, io, src.entities[i].id);
      if read.Err? {
        return Err(read.error), written;
      }
      var incident := read.value;
      EdgesOpen(src, written, seen, i, incident);
      for j := 0 to |incident|
        invariant io.Valid() && io.failures == old(io.failures)
        invariant Ordered(dest.log) && dest.log != [] && old(dest.log) <= dest.log && count == |written|
        invariant EdgesDone(src, written, seen, i, incident, j)
        invariant View(dest.log) == v.(edges := v.edges + written)
      {
        var edge := incident[j];
        assert edge in incident;
        if edge.id in seen {
          EdgeSkipped(src, written, seen, i, incident, j);
          continue;
        }
        EdgeAdded(src, written, seen, i, incident, j);
        seen := seen + {edge.id};
        var saved := SaveRow(dest, io, WriteEdge(edge));
        if saved.Err? {
          return Err(saved.error), written;
        }
        assert v.edges + (written + [edge]) == (v.edges + written) + [edge];
        written := written + [edge];
        count := count + 1;
      }
      EdgesNext(src, written, seen, i, incident);
    }
    EdgesFinished(src, written, seen);
    return Ok(count), written;
  }

  // ---- The export ----------------------------------------------------------------------------

  datatype ExportCounts = ExportCounts(entities: nat, episodes: nat, memories: Tally, edges: nat)

  // What the tallies must say about the source.
  ghost predicate CountsMatch(src: Source, c: ExportCounts, log: seq<Write>) {
    && c.entities == |src.entities| && c.episodes == |src.episodes| && c.edges == |View(log).edges|
    && SettledSpace(src).Some?
    && c.memories == TallyOf(CaptureAll(src, SettledSpace(src).value, src.memories))
  }

  lemma HeaderReady(log: seq<Write>, namespace: Namespace, space: Option<int>)
    requires log == HeaderOf(namespace, space)
    ensures SpaceReady(log, space)
  {
    if space.Some? {
      assert log[1] == WriteSpace(space.value);
    }
  }

  lemma ReadyGrows(log: seq<Write>, log': seq<Write>, space: Option<int>)
    requires SpaceReady(log, space) && log <= log'
    ensures SpaceReady(log', space)
  {
    if space.Some? {
      var j :| 0 <= j < |log| && log[j] == WriteSpace(space.value);
      assert log'[j] == WriteSpace(space.value);
    }
  }

  ghost predicate Exportable(src: Source) {
    src.namespace.Some? && SettledSpace(src).Some?
  }

  // Why a namespace cannot be exported: it is missing, or it is corrupt or in the middle of a
  // migration.
  ghost function Refusal(src: Source): StorageError {
    if src.namespace.None? then NotFound else Context
  }

  // Namespace and space rows, or the reason why the namespace cannot be exported.
  method ExportHeader(src: Source, dest: Destination, io: Storage) returns (r: Result<Option<int>, StorageError>)
    requires dest.log == [] && io.Valid()
    modifies dest, io
    ensures Ordered(dest.log)
    ensures r.Ok? ==> src.namespace.Some? && SettledSpace(src) == Some(r.value)
    ensures r.Ok? ==> dest.log == HeaderOf(src.namespace.value, r.value)
    ensures r.Ok? ==> View(dest.log) == Contents(dest.log, [], [], [], [])
    ensures src.namespace.None? ==> dest.log == []
    ensures io.Valid() && io.failures == old(io.failures) + if r == Err(Io) then 1 else 0
    ensures r.Ok? <==> Exportable(src) && io.failures == old(io.failures)
    ensures r.Err? ==> r.error == if io.failures == old(io.failures) then Refusal(src) else Io
  {
    hide Ordered, View;
    EmptyOrdered();
    var ok := io.Call();
    if !ok {
      return Err(Io);
    }
    if src.namespace.None? {
      return Err(NotFound);
    }
    var saved := SaveRow(dest, io, WriteNamespace(src.namespace.value));
    if saved.Err? {
      return Err(saved.error);
    }
    ok := io.Call();
    if !ok {
      return Err(Io);
    }
    match src.lifecycle
    case None => return Ok(None);
    case Some(state) =>
      if state.phase == LexicalOnly {
        return Ok(None);
      } else if state.phase == Active {
        if state.activeSpace.None? {
          return Err(Context);
        }
        var registered := SaveRow(dest, io, WriteSpace(state.activeSpace.value));
        if registered.Err? {
          return Err(registered.error);
        }
        return Ok(state.activeSpace);
      } else {
        return Err(Context);
      }
  }

  lemma EmptyOrdered()
    ensures Ordered([]) && View([]) == Contents([], [], [], [], [])
  {
  }

  // A namespace that exists and is settled is exported whenever its storage answers, and refused for
  // its own reason otherwise; the export is an exact copy with matching counts. However a run ends,
  // what it wrote is in order. A page or batch over budget is never requested.
  method ExportNamespace(src: Source, dest: Destination, io: Storage) returns (r: Result<ExportCounts, StorageError>)
    requires WellKeyed(src) && dest.log == [] && io.Valid()
    modifies dest, io
    ensures Ordered(dest.log)
    ensures r.Ok? ==> ExactCopy(src, dest.log) && CountsMatch(src, r.value, dest.log)
    ensures r.Ok? <==> Exportable(src) && io.failures == old(io.failures)
    ensures r.Err? ==> r.error == if io.failures == old(io.failures) then Refusal(src) else Io
    ensures io.Valid() && io.failures == old(io.failures) + if r == Err(Io) then 1 else 0
  {
    hide Ordered, View, SpaceReady, TallyOf, CaptureAll, WellKeyed, SameEdges;
    var header := ExportHeader(src, dest, io);
    if header.Err? {
      return Err(header.error);
    }
    var space := header.value;
    HeaderReady(dest.log, src.namespace.value, space);
    ghost var l0 := dest.log;
    var entities := ExportEntities(src, dest, io);
    if entities.Err? {
      return Err(entities.error);
    }
    var episodes := ExportEpisodes(src, dest, io);
    if episodes.Err? {
      return Err(episodes.error);
    }
    ReadyGrows(l0, dest.log, space);
    var memories := ExportMemories(src, dest, io, space);
    if memories.Err? {
      return Err(memories.error);
    }
    var edges, written := ExportEdges(src, dest, io);
    if edges.Err? {
      return Err(edges.error);
    }
    assert [] + written == written;
    return Ok(ExportCounts(entities.value, episodes.value, memories.value, edges.value));
  }
}
