/** The signal buffer of the capture integrations, its session cap, and a handler that flushes it
    every few events and holds what came out until the caller asks. */
module SignalCapture {
  import opened Common

  datatype Signal = Signal(kind: string, content: string, timestamp: string)

  datatype Classified = Classified(tier: int, entity: string, fact: string, source: Signal)

  datatype Config = Config(off: bool, bufferEnabled: bool, maxAutoPerSession: int, maxReviewCandidates: int)

  // How one signal is classified is decided by pattern matching and is a parameter here.
  type Classifier = Signal -> Option<Classified>

  function Candidates(signals: seq<Signal>, classify: Classifier): seq<Classified> {
    if signals == [] then []
    else
      var last := classify(signals[|signals| - 1]);
      Candidates(signals[..|signals| - 1], classify) + if last.Some? then [last.value] else []
  }

  function TierOne(s: seq<Classified>): seq<Classified> {
    if s == [] then []
    else TierOne(s[..|s| - 1]) + if s[|s| - 1].tier == 1 then [s[|s| - 1]] else []
  }

  function Reviewable(s: seq<Classified>): seq<Classified> {
    if s == [] then []
    else Reviewable(s[..|s| - 1]) + if s[|s| - 1].tier != 1 then [s[|s| - 1]] else []
  }

  // `r` holds what stands in `s` at the places `at`, in order.
  ghost predicate PickedAt<T>(s: seq<T>, r: seq<T>, at: seq<nat>) {
    && |at| == |r| && (forall k :: 0 <= k < |at| ==> at[k] < |s| && r[k] == s[at[k]])
    && (forall k, l :: 0 <= k < l < |at| ==> at[k] < at[l])
  }

  lemma PickedLast<T>(s: seq<T>, r: seq<T>, at: seq<nat>, c: T)
    requires PickedAt(s, r, at)
    ensures PickedAt(s + [c], r, at) && PickedAt(s + [c], r + [c], at + [|s|])
  {
  }

  // Every candidate goes to exactly one of the two lists, by its tier, and both keep the order.
  lemma {:induction false} SplitExactly(s: seq<Classified>) returns (auto: seq<nat>, review: seq<nat>)
    ensures PickedAt(s, TierOne(s), auto) && PickedAt(s, Reviewable(s), review)
    ensures forall i :: 0 <= i < |s| ==> (i in auto <==> s[i].tier == 1) && (i in review <==> i !in auto)
  {
    hide PickedAt;
    auto, review := [], [];
    if s == [] {
      NothingPicked(s);
    } else {
      var n := |s| - 1;
      var rest, c := s[..n], s[n];
      assert s == rest + [c];
      var a, b := SplitExactly(rest);
      PickedLast(rest, TierOne(rest), a, c);
      PickedLast(rest, Reviewable(rest), b, c);
      auto := if c.tier == 1 then a + [n] else a;
      review := if c.tier == 1 then b else b + [n];
      assert TierOne(s) == if c.tier == 1 then TierOne(rest) + [c] else TierOne(rest);
      assert Reviewable(s) == if c.tier == 1 then Reviewable(rest) else Reviewable(rest) + [c];
      PlacesBelow(rest, TierOne(rest), a);
      PlacesBelow(rest, Reviewable(rest), b);
      assert forall i :: 0 <= i < n ==> rest[i] == s[i];
      assert forall i :: i in auto <==> i in a || (c.tier == 1 && i == n);
      assert forall i :: i in review <==> i in b || (c.tier != 1 && i == n);
    }
  }

  lemma NothingPicked(s: seq<Classified>)
    requires s == []
    ensures PickedAt(s, TierOne(s), []) && PickedAt(s, Reviewable(s), [])
  {
  }

  lemma PlacesBelow(s: seq<Classified>, r: seq<Classified>, at: seq<nat>)
    requires PickedAt(s, r, at)
    ensures forall i :: i in at ==> i < |s|
  {
  }

  // The slice `s[:n]` of Python, where a negative bound counts from the end.
  function Slice(s: seq<Classified>, n: int): (r: seq<Classified>)
    ensures r <= s
    ensures |r| == if n >= |s| then |s| else if n >= 0 then n else if -n <= |s| then |s| + n else 0
  {
    if n >= |s| then s
    else if n >= 0 then s[..n]
    else if |s| + n >= 0 then s[..|s| + n]
    else []
  }

  function SessionCap(config: Config): nat {
    if config.maxAutoPerSession < 0 then 0 else config.maxAutoPerSession
  }

  // The tier-one candidates of everything flushed, cut off at the session cap.
  function Due(signals: seq<Signal>, classify: Classifier, config: Config): (r: seq<Classified>)
    ensures |r| <= SessionCap(config)
  {
    Slice(TierOne(Candidates(signals, classify)), SessionCap(config))
  }

  lemma {:induction false} CandidatesJoin(a: seq<Signal>, b: seq<Signal>, classify: Classifier)
    ensures Candidates(a + b, classify) == Candidates(a, classify) + Candidates(b, classify)
  {
    if b == [] {
      assert a + b == a;
    } else {
      var n := |b| - 1;
      CandidatesJoin(a, b[..n], classify);
      assert (a + b)[..|a + b| - 1] == a + b[..n];
    }
  }

  lemma {:induction false} TierOneJoin(a: seq<Classified>, b: seq<Classified>)
    ensures TierOne(a + b) == TierOne(a) + TierOne(b)
  {
    if b == [] {
      assert a + b == a;
    } else {
      var n := |b| - 1;
      TierOneJoin(a, b[..n]);
      assert (a + b)[..|a + b| - 1] == a + b[..n];
    }
  }

  // Cutting the stream flush by flush, each time at what the cap still allows, is cutting the
  // whole stream at the cap.
  lemma DueGrows(flushed: seq<Signal>, buffer: seq<Signal>, classify: Classifier, config: Config)
    ensures var done := Due(flushed, classify, config);
      Due(flushed + buffer, classify, config)
        == done + Slice(TierOne(Candidates(buffer, classify)), SessionCap(config) - |done|)
  {
    hide Candidates, TierOne;
    CandidatesJoin(flushed, buffer, classify);
    TierOneJoin(Candidates(flushed, classify), Candidates(buffer, classify));
    SliceGrows(TierOne(Candidates(flushed, classify)), TierOne(Candidates(buffer, classify)), SessionCap(config));
  }

  lemma SliceGrows(a: seq<Classified>, b: seq<Classified>, cap: nat)
    ensures Slice(a + b, cap) == Slice(a, cap) + Slice(b, cap - |Slice(a, cap)|)
  {
  }

  class MemoryCaptureCore {
    const config: Config
    const classify: Classifier
    var buffer: seq<Signal>
    var autoStoredCount: nat
    var pendingReview: seq<Classified>
    // Every signal that a flush has consumed, and everything that flushes have handed out to be
    // stored.
    ghost var flushed: seq<Signal>
    ghost var stored: seq<Classified>

    ghost predicate Valid()
      reads this
    {
      stored == Due(flushed, classify, config) && autoStoredCount == |stored|
    }

    // What the next flush hands out to be stored: the tier-one candidates of the buffer that the
    // session cap still allows.
    ghost function Fresh(): seq<Classified>
      reads this
    {
      Slice(TierOne(Candidates(buffer, classify)), SessionCap(config) - |stored|)
    }

    // The buffer once `signal` has been heard.
    ghost function Heard(signal: Signal): seq<Signal>
      reads this
    {
      if config.off || !config.bufferEnabled then buffer else buffer + [signal]
    }

    constructor (config: Config, classify: Classifier)
      ensures Valid() && this.config == config && this.classify == classify
      ensures buffer == [] && pendingReview == [] && flushed == [] && stored == []
    {
      this.config, this.classify := config, classify;
      buffer, autoStoredCount, pendingReview := [], 0, [];
      flushed, stored := [], [];
    }

    method BufferSignal(signal: Signal)
      requires Valid()
      modifies `buffer
      ensures Valid()
      ensures buffer == old(Heard(signal))
    {
      if config.off || !config.bufferEnabled {
        return;
      }
      buffer := buffer + [signal];
    }

    method Classify() returns (results: seq<Classified>)
      ensures results == Candidates(buffer, classify)
    {
      results := [];
      for i := 0 to |buffer|
        invariant results == Candidates(buffer[..i], classify)
      {
        assert buffer[..i + 1][..i] == buffer[..i];
        var classified := classify(buffer[i]);
        if classified.Some? {
          results := results + [classified.value];
        }
      }
      assert buffer[..|buffer|] == buffer;
    }

    static method SplitByTier(candidates: seq<Classified>) returns (autoStore: seq<Classified>, review: seq<Classified>)
      ensures autoStore == TierOne(candidates) && review == Reviewable(candidates)
    {
      autoStore, review := [], [];
      for i := 0 to |candidates|
        invariant autoStore == TierOne(candidates[..i]) && review == Reviewable(candidates[..i])
      {
        assert candidates[..i + 1][..i] == candidates[..i];
        if candidates[i].tier == 1 {
          autoStore := autoStore + [candidates[i]];
        } else {
          review := review + [candidates[i]];
        }
      }
      assert candidates[..|candidates|] == candidates;
    }

    // Over all flushes of a session, what is handed out is the stream of tier-one candidates in
    // order, up to the session cap.
    method Flush() returns (autoStore: seq<Classified>, review: seq<Classified>)
      requires Valid()
      modifies this
      ensures Valid() && buffer == [] && flushed == old(flushed) + old(buffer)
      ensures autoStore == old(Fresh())
      ensures stored == old(stored) + autoStore && |stored| <= SessionCap(config)
      ensures review == Slice(Reviewable(Candidates(old(buffer), classify)), config.maxReviewCandidates)
      ensures pendingReview == old(pendingReview) + review
    {
      hide Due, Candidates, TierOne, Reviewable;
      var candidates := Classify();
      DueGrows(flushed, buffer, classify, config);
      flushed := flushed + buffer;
      buffer := [];
      autoStore, review := SplitByTier(candidates);
      var remaining := config.maxAutoPerSession - autoStoredCount;
      autoStore := Slice(autoStore, if remaining < 0 then 0 else remaining);
      autoStoredCount := autoStoredCount + |autoStore|;
      stored := stored + autoStore;
      review := Slice(review, config.maxReviewCandidates);
      pendingReview := pendingReview + review;
    }

    method ClearPendingReview()
      requires Valid()
      modifies `pendingReview
      ensures Valid() && pendingReview == []
    {
      pendingReview := [];
    }
  }

  class CaptureHandler {
    const core: MemoryCaptureCore
    const autoFlushInterval: int
    var eventCount: nat
    var autoFlushed: seq<Classified>
    // What the caller has been handed so far, in order.
    ghost var delivered: seq<Classified>

    ghost predicate Valid()
      reads this, core
    {
      && core.Valid()
      && multiset(delivered) + multiset(autoFlushed) == multiset(core.stored)
      && (autoFlushInterval > 0 ==> eventCount < autoFlushInterval)
    }

    // The caller and the held items together have the candidates in the order they arose in.
    ghost predicate InOrder()
      reads this, core
    {
      delivered + autoFlushed == core.stored
    }

    constructor (config: Config, classify: Classifier, autoFlushInterval: int)
      ensures Valid() && InOrder() && fresh(core) && delivered == [] && autoFlushed == []
      ensures core.config == config && core.classify == classify && core.flushed == core.buffer == []
      ensures this.autoFlushInterval == autoFlushInterval && eventCount == 0
    {
      core := new MemoryCaptureCore(config, classify);
      this.autoFlushInterval := autoFlushInterval;
      eventCount, autoFlushed, delivered := 0, [], [];
    }

    // The event after which an automatic flush is due.
    ghost predicate FlushDue()
      reads this
    {
      0 < autoFlushInterval <= eventCount + 1
    }

    // Every few events: classify, and hold the tier-one items for the next explicit flush.
    method MaybeAutoFlush()
      requires Valid()
      modifies this, core
      ensures Valid() && (old(InOrder()) ==> InOrder()) && delivered == old(delivered)
      ensures old(FlushDue()) ==> core.buffer == [] && core.flushed == old(core.flushed) + old(core.buffer) && eventCount == 0
      ensures old(FlushDue()) ==>
        autoFlushed == old(autoFlushed) + old(core.Fresh()) && core.stored == old(core.stored) + old(core.Fresh())
      ensures !old(FlushDue()) ==> core.buffer == old(core.buffer) && core.flushed == old(core.flushed)
      ensures !old(FlushDue()) ==> core.stored == old(core.stored) && autoFlushed == old(autoFlushed)
      ensures !old(FlushDue()) ==> eventCount == if autoFlushInterval <= 0 then old(eventCount) else old(eventCount) + 1
    {
      hide Due;
      if autoFlushInterval <= 0 {
        return;
      }
      eventCount := eventCount + 1;
      if eventCount >= autoFlushInterval {
        eventCount := 0;
        var autoStore, _ := core.Flush();
        Held(delivered, autoFlushed, autoStore);
        autoFlushed := autoFlushed + autoStore;
      }
    }

    // A message, a tool call or a reply: buffered, and classified when its turn has come.
    method OnEvent(signal: Signal)
      requires Valid()
      modifies this, core
      ensures Valid() && (old(InOrder()) ==> InOrder()) && delivered == old(delivered)
      ensures old(FlushDue()) ==> core.buffer == [] && core.flushed == old(core.flushed) + old(core.Heard(signal)) && eventCount == 0
      ensures old(FlushDue()) ==> old(core.stored) <= core.stored && autoFlushed == old(autoFlushed) + core.stored[|old(core.stored)|..]
      ensures !old(FlushDue()) ==> core.buffer == old(core.Heard(signal)) && core.flushed == old(core.flushed)
      ensures !old(FlushDue()) ==> core.stored == old(core.stored) && autoFlushed == old(autoFlushed)
      ensures !old(FlushDue()) ==> eventCount == if autoFlushInterval <= 0 then old(eventCount) else old(eventCount) + 1
    {
      hide Due;
      core.BufferSignal(signal);
      MaybeAutoFlush();
    }

    // The explicit flush: everything held comes out once, before what is new. Storing it may fail
    // item by item and does not change what is returned.
    method Flush() returns (autoStore: seq<Classified>, review: seq<Classified>)
      requires Valid()
      modifies this, core
      ensures Valid() && (old(InOrder()) ==> InOrder())
      ensures autoFlushed == [] && core.buffer == [] && core.flushed == old(core.flushed) + old(core.buffer)
      ensures autoStore == old(autoFlushed) + old(core.Fresh()) && delivered == old(delivered) + autoStore
      ensures review == Slice(Reviewable(Candidates(old(core.buffer), core.classify)), core.config.maxReviewCandidates)
    {
      hide Due;
      autoStore, review := core.Flush();
      Held(delivered, autoFlushed, autoStore);
      autoStore := autoFlushed + autoStore;
      autoFlushed := [];
      delivered := delivered + autoStore;
    }

    // The synchronous flush hands out what is new and leaves what is held where it is. That keeps
    // the order exactly when both are repetitions of one word; see `OneWordWhenDisjoint` for what
    // this means when no value occurs twice.
    method FlushSync() returns (autoStore: seq<Classified>, review: seq<Classified>)
      requires Valid()
      modifies this, core
      ensures Valid() && autoFlushed == old(autoFlushed) && delivered == old(delivered) + autoStore
      ensures autoStore == old(core.Fresh()) && core.stored == old(core.stored) + autoStore
      ensures core.buffer == [] && core.flushed == old(core.flushed) + old(core.buffer)
      ensures review == Slice(Reviewable(Candidates(old(core.buffer), core.classify)), core.config.maxReviewCandidates)
      ensures old(InOrder()) ==> (InOrder() <==> OneWord(old(autoFlushed), old(core.Fresh())))
    {
      hide Due, OneWord, Candidates, TierOne, Reviewable;
      autoStore, review := core.Flush();
      Overtaken(delivered, autoFlushed, autoStore);
      CommutingWords(autoFlushed, autoStore);
      delivered := delivered + autoStore;
    }
  }

  // ---- When a synchronous flush keeps the order --------------------------------------------------

  ghost function Power(w: seq<Classified>, n: nat): seq<Classified> {
    if n == 0 then [] else w + Power(w, n - 1)
  }

  // Both are repetitions of one word, possibly none.
  ghost predicate OneWord(a: seq<Classified>, b: seq<Classified>) {
    exists w, m, n :: a == Power(w, m) && b == Power(w, n)
  }

  lemma {:induction false} PowersJoin(w: seq<Classified>, m: nat, n: nat)
    ensures Power(w, m) + Power(w, n) == Power(w, m + n)
  {
    if m > 0 {
      PowersJoin(w, m - 1, n);
      var p: seq<Classified>, q: seq<Classified> := Power(w, m - 1), Power(w, n);
      assert Power(w, m) == w + p && Power(w, m + n) == w + Power(w, m - 1 + n);
      hide Power;
      assert (w + p) + q == w + (p + q);
    }
  }

  lemma {:induction false} CommutingHaveWord(a: seq<Classified>, b: seq<Classified>)
    returns (w: seq<Classified>, m: nat, n: nat)
    requires a + b == b + a
    ensures a == Power(w, m) && b == Power(w, n)
    decreases |a| + |b|
  {
    if a == [] || b == [] {
      w, m, n := a + b, if a == [] then 0 else 1, if b == [] then 0 else 1;
      assert Power(w, 0) == [] && Power(w, 1) == w + Power(w, 0) == w;
    } else if |a| <= |b| {
      var c := b[|a|..];
      Shorter(a, b);
      var k;
      w, m, k := CommutingHaveWord(a, c);
      PowersJoin(w, m, k);
      n := m + k;
    } else {
      var c := a[|b|..];
      Shorter(b, a);
      var k;
      w, k, n := CommutingHaveWord(c, b);
      PowersJoin(w, n, k);
      m := n + k;
    }
  }

  lemma Shorter(a: seq<Classified>, b: seq<Classified>)
    requires a + b == b + a && |a| <= |b|
    ensures b == a + b[|a|..] && a + b[|a|..] == b[|a|..] + a
  {
    var c := b[|a|..];
    assert (a + b)[..|a|] == a && (b + a)[..|a|] == b[..|a|];
    assert b == a + c;
    assert (a + b)[|a|..] == b && (b + a)[|a|..] == c + a;
  }

  lemma CommutingWords(a: seq<Classified>, b: seq<Classified>)
    ensures a + b == b + a <==> OneWord(a, b)
  {
    if a + b == b + a {
      var w, m, n := CommutingHaveWord(a, b);
    }
    if OneWord(a, b) {
      var w, m, n :| a == Power(w, m) && b == Power(w, n);
      PowersJoin(w, m, n);
      PowersJoin(w, n, m);
    }
  }

  // When no held value is also new, one of the two has to be empty.
  lemma OneWordWhenDisjoint(held: seq<Classified>, new': seq<Classified>)
    requires forall c :: c in held ==> c !in new'
    ensures OneWord(held, new') <==> held == [] || new' == []
  {
    CommutingWords(held, new');
    if held == [] || new' == [] {
      assert held + new' == new' + held;
    } else {
      assert (held + new')[0] == held[0] && (new' + held)[0] == new'[0];
      assert held[0] in held && new'[0] in new';
    }
  }

  // Nothing is new exactly when the session cap is used up or the buffer holds no tier-one signal.
  lemma NothingFresh(core: MemoryCaptureCore)
    requires core.Valid()
    ensures core.Fresh() == [] <==>
      core.autoStoredCount == SessionCap(core.config) || forall x :: x in core.buffer ==> !IsTierOne(x, core.classify)
  {
    NoTierOne(core.buffer, core.classify);
  }

  predicate IsTierOne(x: Signal, classify: Classifier) {
    classify(x).Some? && classify(x).value.tier == 1
  }

  lemma {:induction false} NoTierOne(signals: seq<Signal>, classify: Classifier)
    ensures TierOne(Candidates(signals, classify)) == [] <==> forall x :: x in signals ==> !IsTierOne(x, classify)
  {
    if signals != [] {
      var n := |signals| - 1;
      assert signals == signals[..n] + [signals[n]];
      assert forall x :: x in signals <==> x in signals[..n] || x == signals[n];
      var rest, last := Candidates(signals[..n], classify), classify(signals[n]);
      NoTierOne(signals[..n], classify);
      if last.Some? {
        assert Candidates(signals, classify) == rest + [last.value];
        TierOneLast(rest, last.value);
        assert IsTierOne(signals[n], classify) <==> last.value.tier == 1;
        assert signals[n] in signals;
      } else {
        assert rest + [] == rest;
      }
    }
  }

  lemma TierOneLast(s: seq<Classified>, c: Classified)
    ensures TierOne(s + [c]) == if c.tier == 1 then TierOne(s) + [c] else TierOne(s)
  {
    assert (s + [c])[..|s|] == s;
  }

  lemma TierOneStream(signals: seq<Signal>, x: Signal, classify: Classifier)
    requires IsTierOne(x, classify)
    ensures TierOne(Candidates(signals + [x], classify)) == TierOne(Candidates(signals, classify)) + [classify(x).value]
    ensures TierOne(Candidates([], classify)) == []
  {
    assert (signals + [x])[..|signals|] == signals;
    TierOneLast(Candidates(signals, classify), classify(x).value);
  }

  lemma OneAndTwo(a: Signal, b: Signal, classify: Classifier)
    requires IsTierOne(a, classify) && IsTierOne(b, classify)
    ensures TierOne(Candidates([a], classify)) == [classify(a).value]
    ensures TierOne(Candidates([a, b], classify)) == [classify(a).value, classify(b).value]
  {
    hide Candidates, TierOne;
    var none: seq<Classified> := [];
    var one: seq<Classified> := [classify(a).value];
    TierOneStream([], a, classify);
    TierOneStream([a], b, classify);
    assert [] + [a] == [a] && [a] + [b] == [a, b];
    assert none + one == one;
    assert one + [classify(b).value] == [classify(a).value, classify(b).value];
  }

  // Two tier-one signals and an automatic flush: both items are held.
  method HoldTwo(config: Config, classify: Classifier, a: Signal, b: Signal) returns (h: CaptureHandler)
    requires !config.off && config.bufferEnabled && config.maxAutoPerSession >= 2
    requires IsTierOne(a, classify) && IsTierOne(b, classify)
    ensures fresh(h) && fresh(h.core) && h.Valid() && h.InOrder() && h.core.config == config && h.core.classify == classify
    ensures h.autoFlushInterval == 2 && h.eventCount == 0 && h.core.buffer == [] && h.delivered == []
    ensures h.autoFlushed == h.core.stored == [classify(a).value, classify(b).value]
  {
    hide Candidates, TierOne;
    h := new CaptureHandler(config, classify, 2);
    h.OnEvent(a);
    h.OnEvent(b);
    OneAndTwo(a, b, classify);
    assert h.core.flushed == [a, b];
    assert [] + h.autoFlushed == h.autoFlushed;
  }

  // A session that breaks the order: of three tier-one signals the first two are held by an
  // automatic flush, and a synchronous flush hands out the third before them.
  method LateDelivery(config: Config, classify: Classifier, a: Signal, b: Signal, c: Signal) returns (h: CaptureHandler)
    requires !config.off && config.bufferEnabled && config.maxAutoPerSession >= 3
    requires IsTierOne(a, classify) && IsTierOne(b, classify) && IsTierOne(c, classify)
    requires classify(a) != classify(c)
    ensures fresh(h) && h.Valid() && !h.InOrder()
    ensures h.delivered == [classify(c).value] && h.autoFlushed == [classify(a).value, classify(b).value]
    ensures h.core.stored == [classify(a).value, classify(b).value, classify(c).value]
  {
    hide Candidates, TierOne, Due, OneWord;
    h := HoldTwo(config, classify, a, b);
    h.OnEvent(c);
    OneAndTwo(c, c, classify);
    ghost var fresh' := h.core.Fresh();
    assert h.core.buffer == [c] && fresh' == [classify(c).value];
    var autoStore, _ := h.FlushSync();
    Overtook(classify(a).value, classify(b).value, classify(c).value, h.delivered, h.autoFlushed, h.core.stored);
  }

  lemma Overtook(a: Classified, b: Classified, c: Classified,
                 delivered: seq<Classified>, held: seq<Classified>, stored: seq<Classified>)
    requires a != c && delivered == [] + [c] && held == [a, b] && stored == [a, b] + [c]
    ensures delivered == [c] && stored == [a, b, c] && delivered + held != stored
  {
    assert (delivered + held)[0] == c && stored[0] == a;
  }

  lemma Held(d: seq<Classified>, h: seq<Classified>, a: seq<Classified>)
    ensures d + (h + a) == (d + h) + a
    ensures multiset(h + a) == multiset(h) + multiset(a)
    ensures multiset(d + (h + a)) == multiset(d) + multiset(h) + multiset(a)
  {
    assert d + (h + a) == (d + h) + a;
  }

  lemma Overtaken(d: seq<Classified>, h: seq<Classified>, a: seq<Classified>)
    ensures (d + a) + h == (d + h) + a <==> h + a == a + h
    ensures multiset(d + a) == multiset(d) + multiset(a)
  {
    assert (d + a) + h == d + (a + h) && (d + h) + a == d + (h + a);
    assert (d + (a + h))[|d|..] == a + h && (d + (h + a))[|d|..] == h + a;
  }

  // Nobody is handed more than the session cap, and at an explicit flush of an orderly session the
  // caller has exactly the first tier-one candidates of everything heard.
  lemma DeliveredIsDue(h: CaptureHandler)
    requires h.Valid()
    ensures |h.delivered| + |h.autoFlushed| <= SessionCap(h.core.config)
    ensures h.InOrder() && h.autoFlushed == [] ==> h.delivered == Due(h.core.flushed, h.core.classify, h.core.config)
  {
    assert |multiset(h.delivered) + multiset(h.autoFlushed)| == |h.delivered| + |h.autoFlushed|;
    assert |multiset(h.core.stored)| == |h.core.stored|;
    assert h.delivered + [] == h.delivered;
  }
}
